/**
 * `build_event`: turns one mention, plus the exit status and standard output
 * of the ephemeris lookup run for it, into a record to store, a reply to post,
 * or an error.
 *
 * The lookup process itself is not modelled: its exit code and output are
 * inputs. Timestamps are integer milliseconds. The `f64` parse is the
 * parameter `parseF64`, and floating-point values are reals.
 */
module Mentions {
  import opened Wrappers
  import opened RustStr
  import opened Candidates

  /** The bot's own handle, stripped from the front of a mention. */
  const Handle: string := "@celestial_echo"

  /** The first line of every disambiguation reply. */
  const Header: string := "Pick a number:\n"

  /** The byte limit the disambiguation reply is kept under. */
  const MaxReplyBytes: nat := 280

  /** The bytes left for candidates after the header, which is ASCII (see `HeaderBytes`). */
  const Room: int := MaxReplyBytes - |Header|

  /** The reply to a location the lookup does not recognise (exit code 1), line by line. */
  const NotRecognized: string := "Sorry, I don't recognize that location.\n\n"
  const ConsultHorizons: string := "Consult JPL HORIZONS for valid options: "
  const HorizonsUrl: string := "https://ssd.jpl.nasa.gov/?horizons\n"
  const UnrecognizedReply: string := NotRecognized + ConsultHorizons + HorizonsUrl

  const TwoTo63: int := 0x8000_0000_0000_0000
  const TwoTo64: int := 0x1_0000_0000_0000_0000

  type U64 = n: int | 0 <= n < TwoTo64

  /** The fields of the incoming tweet that `build_event` reads. */
  datatype Tweet = Tweet(id: U64, text: string, createdAtMs: int)

  /** The row to insert into `events`. */
  datatype EventForm = EventForm(
    tweetId: int,
    celestialBody: string,
    replied: bool,
    deadlineMs: int,
    roundTrip: real)

  datatype Response = RecordForm(form: EventForm) | Reply(text: string)

  datatype Error =
    | MissingDistanceLine
    | MissingDistanceField(line: string)
    | InvalidFloat(token: string)
    | NoMatch(line: string)
    | UnrecognizedExitCode(code: Option<int>)

  datatype Result<T> = Ok(value: T) | Err(error: Error)

  // ------------------------------------------------------------ the body

  /** The mention text with surrounding whitespace and one leading bot handle removed. */
  function StripMention(text: string): (body: string)
    ensures IsTrimmed(body) && |body| <= |text|
  {
    var t := Trim(text);
    if StartsWith(t, Handle) then Trim(t[|Handle|..]) else t
  }

  /** Trimming `pre + h + sep + name + post` keeps `h + sep + name`, which starts with `h`. */
  lemma TrimPrefixed(pre: string, h: string, sep: string, name: string, post: string)
    requires AllWhitespace(pre) && AllWhitespace(post)
    requires h != [] && !IsWhitespace(h[0]) && IsTrimmed(name) && name != []
    ensures Trim(pre + h + sep + name + post) == h + sep + name
    ensures StartsWith(h + sep + name, h) && (h + sep + name)[|h|..] == sep + name + []
  {
    var core := h + sep + name;
    assert core[0] == h[0] && core[|core| - 1] == name[|name| - 1];
    assert pre + h + sep + name + post == pre + core + post;
    TrimCharacterised(pre, core, post);
    assert core[..|h|] == h;
  }

  /** A mention holding only the handle leaves an empty body. */
  lemma StripMentionOfBareHandle(pre: string, post: string)
    requires AllWhitespace(pre) && AllWhitespace(post)
    ensures StripMention(pre + Handle + post) == []
  {
    assert Handle[0] == '@' && Handle[|Handle| - 1] == 'o';
    TrimCharacterised(pre, Handle, post);
    assert Handle[..|Handle|] == Handle && Handle[|Handle|..] == [];
    TrimEmptyIff([]);
  }

  /** A mention that starts with the handle yields the trimmed text after it. */
  lemma StripMentionOfMention(pre: string, sep: string, name: string, post: string)
    requires AllWhitespace(pre) && AllWhitespace(sep) && AllWhitespace(post)
    requires IsTrimmed(name) && name != []
    ensures StripMention(pre + Handle + (sep + name + post)) == name
  {
    assert pre + Handle + (sep + name + post) == pre + Handle + sep + name + post;
    TrimPrefixed(pre, Handle, sep, name, post);
    TrimCharacterised(sep, name, []);
  }

  /**
   * Whatever follows a leading handle is trimmed and kept; the handle is
   * matched as a prefix, so `rest` may also continue the handle's name.
   */
  lemma StripMentionAfterHandle(pre: string, rest: string)
    requires AllWhitespace(pre)
    ensures StripMention(pre + Handle + rest) == Trim(rest)
  {
    var a, b := TrimSurround(rest);
    if Trim(rest) == [] {
      AllWhitespaceAppend(a, b);
      assert rest == a + b;
      StripMentionOfBareHandle(pre, a + b);
    } else {
      StripMentionOfMention(pre, a, Trim(rest), b);
    }
  }

  /** Text that does not start with the handle is only trimmed. */
  lemma StripMentionOfOtherText(pre: string, body: string, post: string)
    requires AllWhitespace(pre) && AllWhitespace(post)
    requires IsTrimmed(body) && !StartsWith(body, Handle)
    ensures StripMention(pre + body + post) == body
  {
    TrimCharacterised(pre, body, post);
  }

  // ------------------------------------------------------ exit 0: resolved

  /** The third whitespace-separated field of the first line of the trimmed output. */
  function DistanceToken(stdout: string): (r: Result<string>)
    ensures r == Err(MissingDistanceLine) <==> AllWhitespace(stdout)
    ensures r.Err? ==> r.error.MissingDistanceLine? || r.error.MissingDistanceField?
    ensures r.Ok? ==> r.value != [] && NoWhitespace(r.value)
  {
    var lines := Lines(Trim(stdout));
    if lines == [] then Err(MissingDistanceLine)
    else
      var fields := Tokens(lines[0]);
      if |fields| < 3 then Err(MissingDistanceField(lines[0])) else Ok(fields[2])
  }

  /** One-way light-minutes to round-trip seconds. */
  function RoundTripSeconds(lightMinutes: real): (secs: real)
    ensures secs == 120.0 * lightMinutes
  {
    lightMinutes * 60.0 * 2.0
  }

  /** The `as i64` conversion of a finite float: truncation toward zero. */
  function TruncateTowardZero(x: real): (n: int)
    ensures x >= 0.0 ==> n as real <= x < n as real + 1.0
    ensures x < 0.0 ==> n as real - 1.0 < x <= n as real
  {
    if x >= 0.0 then x.Floor else -((-x).Floor)
  }

  /** The `u64 as i64` conversion: two's-complement wrap-around. */
  function ToI64(id: U64): (r: int)
    ensures -TwoTo63 <= r < TwoTo63
    ensures (r - id) % TwoTo64 == 0
    ensures id < TwoTo63 ==> r == id
  {
    if id < TwoTo63 then id else id - TwoTo64
  }

  /** The deadline: creation time plus the round trip, truncated to whole milliseconds. */
  function Deadline(createdAtMs: int, roundTrip: real): (r: int)
    ensures var ms := roundTrip * 1000.0; var offset := (r - createdAtMs) as real;
      && (ms >= 0.0 ==> offset <= ms < offset + 1.0)
      && (ms < 0.0 ==> offset - 1.0 < ms <= offset)
  {
    createdAtMs + TruncateTowardZero(roundTrip * 1000.0)
  }

  // --------------------------------------------------- exit 2: ambiguous

  /** `"<id>: <label>\n"`. */
  function FormatCandidate(c: Candidate): string {
    c.id + ": " + c.name + "\n"
  }

  /** The index of the first line at or after `from` that the candidate pattern does not match, or `|lines|`. */
  function FirstUnmatched(lines: seq<string>, from: nat): (i: nat)
    requires from <= |lines|
    ensures from <= i <= |lines|
    ensures forall k :: from <= k < i ==> Match(lines[k]).Some?
    ensures i < |lines| ==> Match(lines[i]).None?
    decreases |lines| - from
  {
    if from == |lines| || Match(lines[from]).None? then from else FirstUnmatched(lines, from + 1)
  }

  predicate AllMatch(lines: seq<string>) {
    forall k :: 0 <= k < |lines| ==> Match(lines[k]).Some?
  }

  /** Each line's candidate, formatted, in input order. */
  function FormattedLines(lines: seq<string>): (cs: seq<string>)
    requires AllMatch(lines)
    ensures |cs| == |lines|
  {
    if lines == [] then []
    else
      var init := lines[..|lines| - 1];
      FormattedLines(init) + [FormatCandidate(Match(lines[|lines| - 1]).value)]
  }

  /** Candidate `k` is line `k`'s id and trimmed label, formatted. */
  lemma {:induction false} FormattedLinesAt(lines: seq<string>, k: nat)
    requires AllMatch(lines) && k < |lines|
    ensures FormattedLines(lines)[k] == FormatCandidate(Match(lines[k]).value)
    decreases |lines|
  {
    var n := |lines| - 1;
    var init := lines[..n];
    assert AllMatch(init) by {
      forall j | 0 <= j < n ensures Match(init[j]).Some? { assert init[j] == lines[j]; }
    }
    var f := FormattedLines(init);
    var last := FormatCandidate(Match(lines[n]).value);
    assert FormattedLines(lines) == f + [last];
    if k < n {
      FormattedLinesAt(init, k);
      assert init[k] == lines[k];
      assert (f + [last])[k] == f[k];
    } else {
      assert k == n;
      assert (f + [last])[k] == last;
    }
  }

  /**
   * The candidates the reply keeps when `room` bytes are left after the
   * header: in order, each one that still fits after the ones kept before it.
   */
  function Chosen(cs: seq<string>, room: int): seq<string> {
    if cs == [] then []
    else
      var kept := Chosen(cs[..|cs| - 1], room);
      var line := cs[|cs| - 1];
      if ByteLen(Concat(kept)) + ByteLen(line) <= room then kept + [line] else kept
  }

  /** The disambiguation reply for the lines of the trimmed output, or the first line that fails to match. */
  function PickReply(lines: seq<string>): Result<string> {
    var i := FirstUnmatched(lines, 0);
    if i < |lines| then Err(NoMatch(lines[i]))
    else Ok(Header + Concat(Chosen(FormattedLines(lines), Room)))
  }

  // ------------------------------------------------------- the whole call

  /** What `build_event` returns, as a function of its inputs. */
  function Classify(tweet: Tweet, code: Option<int>, stdout: string, parseF64: string -> Option<real>)
    : Result<Response>
  {
    if code == Some(0) then
      match DistanceToken(stdout)
      case Err(e) => Err(e)
      case Ok(token) =>
        match parseF64(token)
        case None => Err(InvalidFloat(token))
        case Some(dist) =>
          var travel := RoundTripSeconds(dist);
          Ok(RecordForm(EventForm(ToI64(tweet.id), StripMention(tweet.text), false,
                                  Deadline(tweet.createdAtMs, travel), travel)))
    else if code == Some(1) then
      Ok(Reply(UnrecognizedReply))
    else if code == Some(2) then
      match PickReply(Lines(Trim(stdout)))
      case Err(e) => Err(e)
      case Ok(message) => Ok(Reply(message))
    else
      Err(UnrecognizedExitCode(code))
  }

  lemma FirstUnmatchedIs(lines: seq<string>, i: nat)
    requires i <= |lines| && AllMatch(lines[..i])
    requires i < |lines| ==> Match(lines[i]).None?
    ensures FirstUnmatched(lines, 0) == i
  {
    forall k | 0 <= k < i ensures Match(lines[k]).Some? {
      assert lines[..i][k] == lines[k];
    }
  }

  lemma AllMatchExtend(lines: seq<string>, i: nat)
    requires i < |lines| && AllMatch(lines[..i]) && Match(lines[i]).Some?
    ensures AllMatch(lines[..i + 1])
    ensures FormattedLines(lines[..i + 1])
         == FormattedLines(lines[..i]) + [FormatCandidate(Match(lines[i]).value)]
  {
    var prefix := lines[..i + 1];
    assert prefix[..i] == lines[..i] && prefix[i] == lines[i];
    forall k | 0 <= k < i + 1 ensures Match(prefix[k]).Some? {
      if k < i { assert prefix[k] == lines[..i][k]; }
    }
  }

  lemma ChosenSnoc(cs: seq<string>, line: string, room: int)
    ensures Chosen(cs + [line], room)
         == if ByteLen(Concat(Chosen(cs, room))) + ByteLen(line) <= room
            then Chosen(cs, room) + [line] else Chosen(cs, room)
  {
    var s := cs + [line];
    assert s[..|s| - 1] == cs;
    assert s[|s| - 1] == line;
  }

  lemma ConcatSnoc(ss: seq<string>, s: string)
    ensures Concat(ss + [s]) == Concat(ss) + s
  {
    assert (ss + [s])[..|ss|] == ss;
  }

  /**
   * One turn of the exit-2 loop keeps the message equal to the header and the
   * candidates chosen so far.
   */
  lemma PickStep(lines: seq<string>, i: nat, message: string)
    requires i < |lines| && AllMatch(lines[..i]) && Match(lines[i]).Some?
    requires message == Header + Concat(Chosen(FormattedLines(lines[..i]), Room))
    ensures AllMatch(lines[..i + 1])
    ensures var line := FormatCandidate(Match(lines[i]).value);
      (if ByteLen(message) + ByteLen(line) <= MaxReplyBytes then message + line else message)
      == Header + Concat(Chosen(FormattedLines(lines[..i + 1]), Room))
  {
    var room := Room;
    HeaderBytes();
    var line := FormatCandidate(Match(lines[i]).value);
    AllMatchExtend(lines, i);
    var kept := Chosen(FormattedLines(lines[..i]), room);
    ChosenSnoc(FormattedLines(lines[..i]), line, room);
    ByteLenAppend(Header, Concat(kept));
    if ByteLen(message) + ByteLen(line) <= MaxReplyBytes {
      ConcatSnoc(kept, line);
      AppendAssoc(Header, Concat(kept), line);
    }
  }

  /** `Header` is ASCII: its byte length is its length. */
  lemma HeaderBytes()
    ensures ByteLen(Header) == |Header|
  {
    ByteLenAscii(Header);
  }

  /** The exit-2 loop: parse every line, appending each formatted candidate that still fits. */
  method BuildPickMessage(lines: seq<string>) returns (r: Result<string>)
    ensures r == PickReply(lines)
  {
    var message := Header;
    var i := 0;
    assert lines[..i] == [];
    assert Concat(Chosen(FormattedLines(lines[..i]), Room)) == [];
    while i < |lines|
      invariant 0 <= i <= |lines|
      invariant AllMatch(lines[..i])
      invariant message == Header + Concat(Chosen(FormattedLines(lines[..i]), Room))
    {
      var cap := Match(lines[i]);
      if cap.None? {
        FirstUnmatchedIs(lines, i);
        return Err(NoMatch(lines[i]));
      }
      var line := FormatCandidate(cap.value);
      PickStep(lines, i, message);
      if ByteLen(message) + ByteLen(line) <= MaxReplyBytes {
        message := message + line;
      }
      i := i + 1;
    }
    assert lines[..i] == lines;
    FirstUnmatchedIs(lines, i);
    r := Ok(message);
  }

  /** The `mut body` of `build_event`: trimmed, then trimmed again past a leading handle. */
  method MentionBody(text: string) returns (body: string)
    ensures body == StripMention(text)
  {
    body := Trim(text);
    if StartsWith(body, Handle) {
      body := Trim(body[|Handle|..]);
    }
  }

  /** `build_event` once the lookup has run. */
  method BuildEvent(tweet: Tweet, code: Option<int>, stdout: string, parseF64: string -> Option<real>)
    returns (r: Result<Response>)
    ensures r == Classify(tweet, code, stdout, parseF64)
  {
    var body := MentionBody(tweet.text);
    if code == Some(0) {
      var text := Trim(stdout);
      var lines := Lines(text);
      if lines == [] {
        return Err(MissingDistanceLine);
      }
      var line := lines[0];
      var fields := Tokens(line);
      if |fields| < 3 {
        return Err(MissingDistanceField(line));
      }
      var dist := fields[2];
      assert DistanceToken(stdout) == Ok(dist);
      match parseF64(dist) {
        case None =>
          return Err(InvalidFloat(dist));
        case Some(d) =>
          var travelSecs := RoundTripSeconds(d);
          var deadline := Deadline(tweet.createdAtMs, travelSecs);
          return Ok(RecordForm(EventForm(ToI64(tweet.id), body, false, deadline, travelSecs)));
      }
    } else if code == Some(1) {
      return Ok(Reply(UnrecognizedReply));
    } else if code == Some(2) {
      var text := Trim(stdout);
      var lines := Lines(text);
      var pick := BuildPickMessage(lines);
      match pick {
        case Err(e) => return Err(e);
        case Ok(message) => return Ok(Reply(message));
      }
    } else {
      return Err(UnrecognizedExitCode(code));
    }
  }
}
