/**
 * What `build_event` promises, stated over `Classify`: which exit codes give
 * which outcome, what a recorded event holds, when the ambiguous branch fails,
 * and that every reply fits in a tweet.
 */
module EventProperties {
  import opened Wrappers
  import opened RustStr
  import opened Candidates
  import opened Mentions
  import opened ReplyProperties

  /** Only exit codes 0, 1 and 2 are understood; any other status, or none, is an error. */
  lemma UnknownExitCodeFails(tweet: Tweet, code: Option<int>, stdout: string, parseF64: string -> Option<real>)
    ensures Classify(tweet, code, stdout, parseF64) == Err(UnrecognizedExitCode(code))
        <==> code != Some(0) && code != Some(1) && code != Some(2)
  {
  }

  /** Exit code 1 always yields the fixed "not recognised" reply. */
  lemma UnrecognizedLocationReply(tweet: Tweet, stdout: string, parseF64: string -> Option<real>)
    ensures Classify(tweet, Some(1), stdout, parseF64) == Ok(Reply(UnrecognizedReply))
  {
  }

  /** Only exit code 0 records an event, and it does so exactly when a distance is read and parsed. */
  lemma RecordOnlyOnSuccess(tweet: Tweet, code: Option<int>, stdout: string, parseF64: string -> Option<real>)
    ensures (Classify(tweet, code, stdout, parseF64).Ok? && Classify(tweet, code, stdout, parseF64).value.RecordForm?)
        <==> (code == Some(0) && DistanceToken(stdout).Ok? && parseF64(DistanceToken(stdout).value).Some?)
  {
  }

  /**
   * A recorded event: the tweet id reinterpreted as `i64`, the body with the
   * handle stripped, not yet replied, a round trip of twice the light time in
   * seconds, and a deadline that many milliseconds (truncated toward zero)
   * after the tweet.
   */
  lemma RecordedEvent(tweet: Tweet, stdout: string, parseF64: string -> Option<real>, token: string, lightMinutes: real)
    requires DistanceToken(stdout) == Ok(token) && parseF64(token) == Some(lightMinutes)
    ensures Classify(tweet, Some(0), stdout, parseF64).Ok?
    ensures Classify(tweet, Some(0), stdout, parseF64).value.RecordForm?
    ensures var f := Classify(tweet, Some(0), stdout, parseF64).value.form;
      && f.tweetId == ToI64(tweet.id)
      && f.celestialBody == StripMention(tweet.text)
      && !f.replied
      && f.roundTrip == 120.0 * lightMinutes
      && var waited := (f.deadlineMs - tweet.createdAtMs) as real;
         var exact := f.roundTrip * 1000.0;
         (exact >= 0.0 ==> waited <= exact < waited + 1.0)
         && (exact < 0.0 ==> waited - 1.0 < exact <= waited)
  {
  }

  lemma RegroupFields(a: string, sep1: string, b: string, sep2: string, c: string, rest: string)
    ensures a + sep1 + b + sep2 + c + rest == a + sep1 + (b + sep2 + (c + rest))
  {
  }

  lemma ConsThree(a: string, b: string, c: string, t: seq<string>)
    ensures [a] + ([b] + ([c] + t)) == [a, b, c] + t
  {
  }

  /** Three words separated by whitespace runs lead the token list. */
  lemma ThreeFields(a: string, sep1: string, b: string, sep2: string, c: string, rest: string)
    requires a != [] && b != [] && c != [] && NoWhitespace(a) && NoWhitespace(b) && NoWhitespace(c)
    requires sep1 != [] && sep2 != [] && AllWhitespace(sep1) && AllWhitespace(sep2)
    requires rest == [] || IsWhitespace(rest[0])
    ensures Tokens(a + sep1 + b + sep2 + c + rest) == [a, b, c] + Tokens(rest)
  {
    var cRest := c + rest;
    var bRest := b + sep2 + cRest;
    RegroupFields(a, sep1, b, sep2, c, rest);
    TokensWordThen(a, sep1, bRest);
    TokensWordThen(b, sep2, cRest);
    TokensCons(c, rest);
    ConsThree(a, b, c, Tokens(rest));
  }

  /** A line of three fields holds no line break, and it ends as its last field or its rest ends. */
  lemma FieldLineShape(a: string, sep1: string, b: string, sep2: string, c: string, rest: string)
    requires a != [] && c != [] && NoWhitespace(a) && NoWhitespace(b) && NoWhitespace(c)
    requires '\n' !in sep1 && '\n' !in sep2 && '\n' !in rest
    ensures var line := a + sep1 + b + sep2 + c + rest;
      && line != [] && '\n' !in line
      && (rest == [] ==> !IsWhitespace(line[|line| - 1]))
      && (rest != [] ==> line[|line| - 1] == rest[|rest| - 1])
  {
    var line := a + sep1 + b + sep2 + c + rest;
    if rest == [] { assert line[|line| - 1] == c[|c| - 1]; } else { assert line[|line| - 1] == rest[|rest| - 1]; }
    assert IsWhitespace('\n');
  }

  /** Output of a single line (after trimming): the distance is that line's third field. */
  lemma DistanceOfOnlyLine(pre: string, line: string, post: string)
    requires AllWhitespace(pre) && AllWhitespace(post)
    requires line != [] && '\n' !in line && IsTrimmed(line)
    ensures DistanceToken(pre + line + post)
         == if |Tokens(line)| < 3 then Err(MissingDistanceField(line)) else Ok(Tokens(line)[2])
  {
    TrimCharacterised(pre, line, post);
    LinesOfOne(line);
  }

  /**
   * Output of several lines: only the first line is read, whether it ends in
   * `\n` or `\r\n`, and whatever blanks it ends with.
   */
  lemma DistanceOfFirstLine(pre: string, line: string, eol: string, more: string, post: string)
    requires AllWhitespace(pre) && AllWhitespace(post)
    requires '\n' !in line
    requires eol == "\n" || eol == "\r\n"
    requires eol == "\n" && line != [] ==> line[|line| - 1] != '\r'
    requires IsTrimmed(line + eol + more)
    ensures DistanceToken(pre + (line + eol + more) + post)
         == if |Tokens(line)| < 3 then Err(MissingDistanceField(line)) else Ok(Tokens(line)[2])
  {
    TrimCharacterised(pre, line + eol + more, post);
    if eol == "\n" {
      LinesAfterNewline(line, more);
    } else {
      LinesAfterCrLf(line, more);
    }
  }

  /**
   * Whatever follows the first line, the distance is read from the first
   * line alone; `tail` is empty or starts with the line ending.
   */
  lemma DistanceOfLine(pre: string, line: string, tail: string, post: string)
    requires AllWhitespace(pre) && AllWhitespace(post)
    requires line != [] && '\n' !in line
    requires tail == [] || tail[0] == '\n' || (|tail| >= 2 && tail[0] == '\r' && tail[1] == '\n')
    requires tail != [] && tail[0] == '\n' ==> line[|line| - 1] != '\r'
    requires IsTrimmed(line + tail)
    ensures DistanceToken(pre + (line + tail) + post)
         == if |Tokens(line)| < 3 then Err(MissingDistanceField(line)) else Ok(Tokens(line)[2])
  {
    if tail == [] {
      assert line + tail == line;
      DistanceOfOnlyLine(pre, line, post);
    } else {
      var eol := if tail[0] == '\n' then "\n" else "\r\n";
      var more := tail[|eol|..];
      assert tail == eol + more;
      AppendAssoc(line, eol, more);
      DistanceOfFirstLine(pre, line, eol, more, post);
    }
  }

  /**
   * The distance read on exit code 0 is the third whitespace-separated field
   * of the first line of the output, whatever surrounds the output, whatever
   * follows the field on its line and however the line ends.
   */
  lemma DistanceIsThirdField(pre: string, a: string, sep1: string, b: string, sep2: string, c: string,
                             rest: string, tail: string, post: string)
    requires AllWhitespace(pre) && AllWhitespace(post)
    requires a != [] && b != [] && c != [] && NoWhitespace(a) && NoWhitespace(b) && NoWhitespace(c)
    requires sep1 != [] && sep2 != [] && AllWhitespace(sep1) && AllWhitespace(sep2)
    requires '\n' !in sep1 && '\n' !in sep2 && '\n' !in rest
    requires rest == [] || IsWhitespace(rest[0])
    requires tail == [] || tail[0] == '\n' || (|tail| >= 2 && tail[0] == '\r' && tail[1] == '\n')
    requires tail != [] && tail[0] == '\n' && rest != [] ==> rest[|rest| - 1] != '\r'
    requires IsTrimmed(a + sep1 + b + sep2 + c + rest + tail)
    ensures DistanceToken(pre + (a + sep1 + b + sep2 + c + rest + tail) + post) == Ok(c)
  {
    var line := a + sep1 + b + sep2 + c + rest;
    FieldLineShape(a, sep1, b, sep2, c, rest);
    assert IsWhitespace('\r');
    assert |Tokens(line)| >= 3 && Tokens(line)[2] == c by {
      ThreeFields(a, sep1, b, sep2, c, rest);
    }
    DistanceOfLine(pre, line, tail, post);
  }

  /** The errors of exit code 0, each exactly when it arises. */
  lemma ResolvedErrors(tweet: Tweet, stdout: string, parseF64: string -> Option<real>)
    ensures Classify(tweet, Some(0), stdout, parseF64) == Err(MissingDistanceLine)
        <==> AllWhitespace(stdout)
    ensures forall line ::
      Classify(tweet, Some(0), stdout, parseF64) == Err(MissingDistanceField(line))
      <==> (Lines(Trim(stdout)) != [] && line == Lines(Trim(stdout))[0] && |Tokens(line)| < 3)
    ensures forall token ::
      Classify(tweet, Some(0), stdout, parseF64) == Err(InvalidFloat(token))
      <==> (DistanceToken(stdout) == Ok(token) && parseF64(token).None?)
  {
  }

  /** Exit code 2 replies with the disambiguation message for the lines of the trimmed output. */
  lemma AmbiguousBranch(tweet: Tweet, stdout: string, parseF64: string -> Option<real>)
    ensures Classify(tweet, Some(2), stdout, parseF64)
         == match PickReply(Lines(Trim(stdout)))
            case Err(e) => Err(e)
            case Ok(message) => Ok(Reply(message))
  {
  }

  /** The ambiguous branch fails on the first line the candidate pattern does not match. */
  lemma AmbiguousFailsAtFirstUnmatched(tweet: Tweet, stdout: string, parseF64: string -> Option<real>, i: nat)
    requires i < |Lines(Trim(stdout))|
    requires AllMatch(Lines(Trim(stdout))[..i]) && Match(Lines(Trim(stdout))[i]).None?
    ensures Classify(tweet, Some(2), stdout, parseF64) == Err(NoMatch(Lines(Trim(stdout))[i]))
  {
    AmbiguousBranch(tweet, stdout, parseF64);
    FirstUnmatchedIs(Lines(Trim(stdout)), i);
  }

  /** The ambiguous branch replies exactly when every line of the output matches. */
  lemma AmbiguousRepliesIffAllMatch(tweet: Tweet, stdout: string, parseF64: string -> Option<real>)
    ensures Classify(tweet, Some(2), stdout, parseF64).Ok? <==> AllMatch(Lines(Trim(stdout)))
  {
    AmbiguousBranch(tweet, stdout, parseF64);
    PickReplyOkIffAllMatch(Lines(Trim(stdout)));
  }

  /**
   * When every line matches, the reply is the header followed by some of the
   * formatted candidates, in their input order.
   */
  lemma AmbiguousReplyKeepsOrder(tweet: Tweet, stdout: string, parseF64: string -> Option<real>)
    requires AllMatch(Lines(Trim(stdout)))
    ensures var cs := FormattedLines(Lines(Trim(stdout)));
      && Classify(tweet, Some(2), stdout, parseF64) == Ok(Reply(Header + Concat(Chosen(cs, Room))))
      && IsSubsequence(Chosen(cs, Room), cs)
  {
    AmbiguousBranch(tweet, stdout, parseF64);
    PickReplyOfAllMatch(Lines(Trim(stdout)));
    ChosenSubsequence(FormattedLines(Lines(Trim(stdout))), Room);
  }

  /** When every formatted candidate fits after the header, the reply lists them all in order. */
  lemma AmbiguousListsAllWhenShort(tweet: Tweet, stdout: string, parseF64: string -> Option<real>)
    requires AllMatch(Lines(Trim(stdout)))
    requires |Header| + ByteLen(Concat(FormattedLines(Lines(Trim(stdout))))) <= MaxReplyBytes
    ensures Classify(tweet, Some(2), stdout, parseF64)
         == Ok(Reply(Header + Concat(FormattedLines(Lines(Trim(stdout))))))
  {
    AmbiguousBranch(tweet, stdout, parseF64);
    PickReplyListsAll(Lines(Trim(stdout)));
  }

  /** Output that is all whitespace lists no candidates: the reply is the bare header. */
  lemma AmbiguousEmptyOutput(tweet: Tweet, stdout: string, parseF64: string -> Option<real>)
    requires AllWhitespace(stdout)
    ensures Classify(tweet, Some(2), stdout, parseF64) == Ok(Reply(Header))
  {
    AmbiguousBranch(tweet, stdout, parseF64);
    TrimEmptyIff(stdout);
    PickReplyOfNoLines();
  }

  lemma NotRecognizedBytes() ensures ByteLen(NotRecognized) == |NotRecognized| { ByteLenAscii(NotRecognized); }
  lemma ConsultHorizonsBytes() ensures ByteLen(ConsultHorizons) == |ConsultHorizons| { ByteLenAscii(ConsultHorizons); }
  lemma HorizonsUrlBytes() ensures ByteLen(HorizonsUrl) == |HorizonsUrl| { ByteLenAscii(HorizonsUrl); }

  lemma AsciiPiecesBytes(a: string, b: string, c: string)
    requires ByteLen(a) == |a| && ByteLen(b) == |b| && ByteLen(c) == |c|
    ensures ByteLen(a + b + c) == |a + b + c|
  {
    ByteLenAppend(a, b);
    ByteLenAppend(a + b, c);
  }

  /** The fixed reply of exit code 1 is plain ASCII text well under the limit. */
  lemma UnrecognizedReplyFits()
    ensures ByteLen(UnrecognizedReply) == |UnrecognizedReply| <= MaxReplyBytes
  {
    NotRecognizedBytes();
    ConsultHorizonsBytes();
    HorizonsUrlBytes();
    AsciiPiecesBytes(NotRecognized, ConsultHorizons, HorizonsUrl);
  }

  /** Every reply `build_event` drafts is at most `MaxReplyBytes` bytes long. */
  lemma RepliesFit(tweet: Tweet, code: Option<int>, stdout: string, parseF64: string -> Option<real>)
    requires Classify(tweet, code, stdout, parseF64).Ok?
    requires Classify(tweet, code, stdout, parseF64).value.Reply?
    ensures ByteLen(Classify(tweet, code, stdout, parseF64).value.text) <= MaxReplyBytes
  {
    if code == Some(1) {
      UnrecognizedLocationReply(tweet, stdout, parseF64);
      UnrecognizedReplyFits();
    } else {
      assert code == Some(2);
      AmbiguousBranch(tweet, stdout, parseF64);
      PickReplyOkIffAllMatch(Lines(Trim(stdout)));
      PickReplyFits(Lines(Trim(stdout)));
    }
  }
}
