/**
 * What the exit-2 reply keeps: the greedy choice of candidate lines never
 * exceeds the byte limit, keeps the lines in their input order, drops a line
 * only when it could not fit even in the final reply, and keeps everything
 * when everything fits.
 */
module ReplyProperties {
  import opened RustStr
  import opened Mentions

  /** `xs` is `ys` with some elements left out, the rest in their order. */
  predicate IsSubsequence<T(==)>(xs: seq<T>, ys: seq<T>)
    decreases |ys|
  {
    if ys == [] then xs == []
    else
      (xs != [] && xs[|xs| - 1] == ys[|ys| - 1] && IsSubsequence(xs[..|xs| - 1], ys[..|ys| - 1]))
      || IsSubsequence(xs, ys[..|ys| - 1])
  }

  lemma {:induction false} ConcatAppend(xs: seq<string>, ys: seq<string>)
    ensures Concat(xs + ys) == Concat(xs) + Concat(ys)
    decreases |ys|
  {
    if ys == [] {
      assert xs + ys == xs;
    } else {
      var init := ys[..|ys| - 1];
      assert (xs + ys)[..|xs + ys| - 1] == xs + init;
      ConcatAppend(xs, init);
      AppendAssoc(Concat(xs), Concat(init), ys[|ys| - 1]);
    }
  }

  /** The kept lines always fit in the room they were chosen for. */
  lemma {:induction false} ChosenFits(cs: seq<string>, room: int)
    requires 0 <= room
    ensures ByteLen(Concat(Chosen(cs, room))) <= room
    decreases |cs|
  {
    if cs != [] {
      var init, line := cs[..|cs| - 1], cs[|cs| - 1];
      ChosenFits(init, room);
      var kept := Chosen(init, room);
      if ByteLen(Concat(kept)) + ByteLen(line) <= room {
        ConcatSnoc(kept, line);
        ByteLenAppend(Concat(kept), line);
      }
    }
  }

  /** The kept lines are some of the candidate lines, in their input order. */
  lemma {:induction false} ChosenSubsequence(cs: seq<string>, room: int)
    ensures IsSubsequence(Chosen(cs, room), cs)
    decreases |cs|
  {
    if cs != [] {
      var init := cs[..|cs| - 1];
      ChosenSubsequence(init, room);
      var kept := Chosen(init, room);
      if Chosen(cs, room) != kept {
        assert (kept + [cs[|cs| - 1]])[..|kept|] == kept;
      }
    }
  }

  /** Choosing over a prefix of the candidates gives a prefix of the final choice. */
  lemma {:induction false} ChosenPrefix(cs: seq<string>, j: nat, room: int)
    requires j <= |cs|
    ensures Chosen(cs[..j], room) <= Chosen(cs, room)
    decreases |cs|
  {
    if j == |cs| {
      assert cs[..j] == cs;
    } else {
      var init := cs[..|cs| - 1];
      assert init[..j] == cs[..j];
      ChosenPrefix(init, j, room);
      var kept := Chosen(init, room);
      if Chosen(cs, room) != kept {
        assert (kept + [cs[|cs| - 1]])[..|kept|] == kept;
      }
    }
  }

  /** A longer choice never has fewer bytes. */
  lemma PrefixBytes(xs: seq<string>, ys: seq<string>)
    requires xs <= ys
    ensures ByteLen(Concat(xs)) <= ByteLen(Concat(ys))
  {
    assert ys == xs + ys[|xs|..];
    ConcatAppend(xs, ys[|xs|..]);
    ByteLenAppend(Concat(xs), Concat(ys[|xs|..]));
  }

  /**
   * Line `i` is dropped when choosing up to it keeps nothing new; it then does
   * not fit even beside the final choice.
   */
  lemma ChosenMaximal(cs: seq<string>, i: nat, room: int)
    requires i < |cs| && Chosen(cs[..i + 1], room) == Chosen(cs[..i], room)
    ensures ByteLen(Concat(Chosen(cs, room))) + ByteLen(cs[i]) > room
  {
    var prefix := cs[..i + 1];
    assert prefix[..i] == cs[..i] && prefix[i] == cs[i];
    ChosenPrefix(cs, i, room);
    PrefixBytes(Chosen(cs[..i], room), Chosen(cs, room));
  }

  /** When all candidates fit in the room together, none is dropped. */
  lemma {:induction false} AllFitKeepsAll(cs: seq<string>, room: int)
    requires ByteLen(Concat(cs)) <= room
    ensures Chosen(cs, room) == cs
    decreases |cs|
  {
    if cs != [] {
      var init, line := cs[..|cs| - 1], cs[|cs| - 1];
      assert cs == init + [line];
      ConcatSnoc(init, line);
      ByteLenAppend(Concat(init), line);
      AllFitKeepsAll(init, room);
      ChosenSnoc(init, line, room);
    }
  }

  /** A disambiguation reply starts with the header and stays within the byte limit. */
  lemma PickReplyFits(lines: seq<string>)
    requires AllMatch(lines)
    ensures PickReply(lines).Ok?
    ensures StartsWith(PickReply(lines).value, Header)
    ensures ByteLen(PickReply(lines).value) <= MaxReplyBytes
  {
    PickReplyOfAllMatch(lines);
    HeaderBytes();
    var chosen := Concat(Chosen(FormattedLines(lines), Room));
    ChosenFits(FormattedLines(lines), Room);
    ByteLenAppend(Header, chosen);
    assert (Header + chosen)[..|Header|] == Header;
  }

  /** When every line matches, the reply is the header and the chosen candidates. */
  lemma PickReplyOfAllMatch(lines: seq<string>)
    requires AllMatch(lines)
    ensures PickReply(lines) == Ok(Header + Concat(Chosen(FormattedLines(lines), Room)))
  {
    assert lines[..|lines|] == lines;
    FirstUnmatchedIs(lines, |lines|);
  }

  /** The reply is produced exactly when every line matches the candidate pattern. */
  lemma PickReplyOkIffAllMatch(lines: seq<string>)
    ensures PickReply(lines).Ok? <==> AllMatch(lines)
  {
    if AllMatch(lines) {
      FirstUnmatchedIs(lines, |lines|);
    }
  }

  /** When every formatted candidate fits after the header, the reply lists them all in order. */
  lemma PickReplyListsAll(lines: seq<string>)
    requires AllMatch(lines)
    requires |Header| + ByteLen(Concat(FormattedLines(lines))) <= MaxReplyBytes
    ensures PickReply(lines) == Ok(Header + Concat(FormattedLines(lines)))
  {
    PickReplyOfAllMatch(lines);
    assert Chosen(FormattedLines(lines), Room) == FormattedLines(lines) by {
      HeaderBytes();
      AllFitKeepsAll(FormattedLines(lines), Room);
    }
  }

  /** No lines, no candidates: the reply is the bare header. */
  lemma PickReplyOfNoLines()
    ensures PickReply([]) == Ok(Header)
  {
    assert Header + [] == Header;
  }
}
