/**
 * The parts of Rust's `str` API that `build_event` relies on, over `seq<char>`:
 * `trim`, `starts_with`, `lines`, `split_whitespace` and the UTF-8 byte length
 * that `String::len` reports.
 */
module RustStr {

  /** `char::is_whitespace`: the characters with the Unicode White_Space property. */
  predicate IsWhitespace(c: char) {
    var n := c as int;
    (9 <= n <= 13) || n == 0x20 || n == 0x85 || n == 0xA0 || n == 0x1680
    || (0x2000 <= n <= 0x200A) || n == 0x2028 || n == 0x2029 || n == 0x202F
    || n == 0x205F || n == 0x3000
  }

  predicate AllWhitespace(s: string) {
    forall k :: 0 <= k < |s| ==> IsWhitespace(s[k])
  }

  predicate NoWhitespace(s: string) {
    forall k :: 0 <= k < |s| ==> !IsWhitespace(s[k])
  }

  /** Neither starts nor ends with whitespace. */
  predicate IsTrimmed(s: string) {
    s == [] || (!IsWhitespace(s[0]) && !IsWhitespace(s[|s| - 1]))
  }

  predicate StartsWith(s: string, prefix: string) {
    |prefix| <= |s| && s[..|prefix|] == prefix
  }

  // ---------------------------------------------------------------- trim

  /** The length of the whitespace run at the start of `s`. */
  function LeadingWhitespace(s: string): (n: nat)
    ensures n <= |s| && AllWhitespace(s[..n])
    ensures n < |s| ==> !IsWhitespace(s[n])
  {
    if s == [] || !IsWhitespace(s[0]) then 0
    else
      1 + LeadingWhitespace(s[1..])
  }

  /** The length of the whitespace run at the end of `s`. */
  function TrailingWhitespace(s: string): (n: nat)
    ensures n <= |s| && AllWhitespace(s[|s| - n..])
    ensures n < |s| ==> !IsWhitespace(s[|s| - n - 1])
  {
    if s == [] || !IsWhitespace(s[|s| - 1]) then 0
    else
      1 + TrailingWhitespace(s[..|s| - 1])
  }

  lemma LeadingWhitespaceUnique(s: string, n: nat)
    requires n <= |s| && AllWhitespace(s[..n])
    requires n < |s| ==> !IsWhitespace(s[n])
    ensures LeadingWhitespace(s) == n
  {
    var m := LeadingWhitespace(s);
    forall k | 0 <= k < n ensures IsWhitespace(s[k]) { assert s[..n][k] == s[k]; }
    forall k | 0 <= k < m ensures IsWhitespace(s[k]) { assert s[..m][k] == s[k]; }
  }

  lemma TrailingWhitespaceUnique(s: string, n: nat)
    requires n <= |s| && AllWhitespace(s[|s| - n..])
    requires n < |s| ==> !IsWhitespace(s[|s| - n - 1])
    ensures TrailingWhitespace(s) == n
  {
  }

  lemma AllWhitespaceAppend(a: string, b: string)
    requires AllWhitespace(a) && AllWhitespace(b)
    ensures AllWhitespace(a + b)
  {
    forall k | 0 <= k < |a + b| ensures IsWhitespace((a + b)[k]) {
      if k < |a| { assert (a + b)[k] == a[k]; } else { assert (a + b)[k] == b[k - |a|]; }
    }
  }

  /** `str::trim_start`. */
  function TrimStart(s: string): (r: string)
    ensures r == [] || !IsWhitespace(r[0])
    ensures |r| <= |s|
  {
    s[LeadingWhitespace(s)..]
  }

  /** `str::trim_end`. */
  function TrimEnd(s: string): (r: string)
    ensures r == [] || !IsWhitespace(r[|r| - 1])
    ensures |r| <= |s|
  {
    s[..|s| - TrailingWhitespace(s)]
  }

  /** `str::trim`: drops the whitespace at both ends and nothing else. */
  function Trim(s: string): (r: string)
    ensures IsTrimmed(r)
    ensures |r| <= |s|
  {
    TrimEnd(TrimStart(s))
  }

  /** Trimming leaves nothing exactly when the text is all whitespace. */
  lemma TrimEmptyIff(s: string)
    ensures Trim(s) == [] <==> AllWhitespace(s)
  {
    var t := TrimStart(s);
    var n := LeadingWhitespace(s);
    if t == [] {
      assert s[..n] == s;
    } else {
      assert !AllWhitespace(s) by { assert s[n] == t[0]; }
      assert TrailingWhitespace(t) < |t|;
    }
  }

  /** Trim is pinned down by the decomposition `whitespace + core + whitespace`. */
  lemma TrimCharacterised(a: string, m: string, b: string)
    requires AllWhitespace(a) && AllWhitespace(b) && IsTrimmed(m)
    ensures Trim(a + m + b) == m
  {
    var s := a + m + b;
    if m == [] {
      assert s == a + b;
      AllWhitespaceAppend(a, b);
      TrimEmptyIff(s);
    } else {
      assert s[..|a|] == a;
      assert s[|a|] == m[0];
      LeadingWhitespaceUnique(s, |a|);
      var t := TrimStart(s);
      assert t == m + b;
      assert t[|t| - |b|..] == b;
      assert t[|t| - |b| - 1] == m[|m| - 1];
      TrailingWhitespaceUnique(t, |b|);
      assert TrimEnd(t) == t[..|m|] == m;
    }
  }

  lemma SplitAt(s: string, n: nat)
    requires n <= |s|
    ensures s == s[..n] + s[n..]
  {
  }

  lemma AppendAssoc(a: string, b: string, c: string)
    ensures (a + b) + c == a + (b + c)
  {
  }

  /** Every text is its trimmed core with whitespace on either side. */
  lemma TrimSurround(s: string) returns (a: string, b: string)
    ensures AllWhitespace(a) && AllWhitespace(b) && s == a + Trim(s) + b
  {
    var n := LeadingWhitespace(s);
    var t := s[n..];
    var k := |t| - TrailingWhitespace(t);
    a, b := s[..n], t[k..];
    assert Trim(s) == t[..k];
    SplitAt(s, n);
    SplitAt(t, k);
    AppendAssoc(a, t[..k], b);
  }

  lemma TrimIdempotent(s: string)
    ensures Trim(Trim(s)) == Trim(s)
  {
    var t := Trim(s);
    assert [] + t + [] == t;
    TrimCharacterised([], t, []);
  }

  // --------------------------------------------------------------- lines

  /** The index of the first `c` in `s`, or `|s|` when there is none. */
  function IndexOf(s: string, c: char): (n: nat)
    ensures n <= |s| && c !in s[..n]
    ensures n < |s| ==> s[n] == c
  {
    if s == [] || s[0] == c then 0
    else
      var m := IndexOf(s[1..], c);
      assert s[..1 + m] == [s[0]] + s[1..][..m];
      1 + m
  }

  /** The first occurrence is the one position before which `c` does not occur. */
  lemma {:induction false} IndexOfUnique(s: string, c: char, n: nat)
    requires n <= |s| && c !in s[..n]
    requires n < |s| ==> s[n] == c
    ensures IndexOf(s, c) == n
  {
    if s != [] && n > 0 {
      assert s[0] == s[..n][0];
      assert s[1..][..n - 1] == s[..n][1..];
      IndexOfUnique(s[1..], c, n - 1);
    }
  }

  /** Removes the `\r` of a `\r\n` line ending. */
  function StripCarriageReturn(line: string): (r: string)
    ensures r == line || r + "\r" == line
  {
    if line != [] && line[|line| - 1] == '\r' then line[..|line| - 1] else line
  }

  /**
   * `str::lines`: the text split at `\n` or `\r\n`; a final line ending is
   * optional and does not start an empty line.
   */
  function Lines(s: string): (ls: seq<string>)
    ensures ls == [] <==> s == []
    ensures forall k :: 0 <= k < |ls| ==> '\n' !in ls[k]
    decreases |s|
  {
    if s == [] then []
    else
      var n := IndexOf(s, '\n');
      if n == |s| then
        assert s[..n] == s;
        [s]
      else
        var first := StripCarriageReturn(s[..n]);
        assert '\n' !in first by {
          if first != s[..n] { assert first == s[..n][..|first|]; }
        }
        [first] + Lines(s[n + 1..])
  }

  /** Joins lines with `\n` between them (the inverse of `Lines`). */
  function JoinLines(ls: seq<string>): string {
    if ls == [] then []
    else if |ls| == 1 then ls[0]
    else ls[0] + "\n" + JoinLines(ls[1..])
  }

  predicate NoCarriageReturn(s: string) {
    forall k :: 0 <= k < |s| ==> s[k] != '\r'
  }

  /** For text without `\r` and without a final line ending, `Lines` loses nothing. */
  lemma {:induction false} LinesRoundTrip(s: string)
    requires NoCarriageReturn(s)
    requires s != [] ==> s[|s| - 1] != '\n'
    ensures JoinLines(Lines(s)) == s
    decreases |s|
  {
    if s != [] {
      var n := IndexOf(s, '\n');
      if n < |s| {
        LinesSplit(s, n);
        LinesRoundTrip(s[n + 1..]);
        JoinLinesSplit(s, n);
      } else {
        LinesSingle(s);
      }
    }
  }

  /** A text without a line break is a single line. */
  lemma LinesOfOne(a: string)
    requires a != [] && '\n' !in a
    ensures Lines(a) == [a]
  {
    IndexOfUnique(a, '\n', |a|);
  }

  /** A `\n` ends the first line; a `\r` before it stays when it is not part of `\r\n`. */
  lemma LinesAfterNewline(a: string, b: string)
    requires '\n' !in a && (a == [] || a[|a| - 1] != '\r')
    ensures Lines(a + "\n" + b) == [a] + Lines(b)
  {
    var s := a + "\n" + b;
    assert s[..|a|] == a;
    IndexOfUnique(s, '\n', |a|);
    assert s[|a| + 1..] == b;
  }

  /** A `\r\n` ends the first line, and neither character is kept. */
  lemma LinesAfterCrLf(a: string, b: string)
    requires '\n' !in a
    ensures Lines(a + "\r\n" + b) == [a] + Lines(b)
  {
    var s := a + "\r\n" + b;
    var ar := a + "\r";
    assert s[..|ar|] == ar;
    assert '\n' !in ar;
    IndexOfUnique(s, '\n', |ar|);
    assert ar[..|a|] == a;
    assert s[|ar| + 1..] == b;
  }

  lemma LinesSingle(s: string)
    requires s != [] && IndexOf(s, '\n') == |s|
    ensures Lines(s) == [s]
  {
  }

  /** One step of `Lines` on text without `\r` whose first line ending is at `n`. */
  lemma LinesSplit(s: string, n: nat)
    requires NoCarriageReturn(s) && s != [] && s[|s| - 1] != '\n'
    requires n == IndexOf(s, '\n') && n < |s|
    ensures Lines(s) == [s[..n]] + Lines(s[n + 1..])
    ensures NoCarriageReturn(s[n + 1..]) && s[n + 1..] != [] && s[|s| - 1] == s[n + 1..][|s| - n - 2]
  {
    var a, b := s[..n], s[n + 1..];
    assert s == a + "\n" + b by { SplitAround(s, n); }
    assert '\n' !in a && (a == [] || a[|a| - 1] != '\r') by {
      if a != [] { assert a[|a| - 1] == s[n - 1]; }
    }
    LinesAfterNewline(a, b);
    NoCarriageReturnSuffix(s, n + 1);
    LastOfSuffix(s, n + 1);
  }

  lemma LastOfSuffix(s: string, i: nat)
    requires i < |s|
    ensures s[i..] != [] && s[|s| - 1] == s[i..][|s| - i - 1]
  {
  }

  lemma StripCarriageReturnOfPrefix(s: string, n: nat)
    requires NoCarriageReturn(s) && n <= |s|
    ensures StripCarriageReturn(s[..n]) == s[..n]
  {
    if n > 0 {
      assert s[..n][n - 1] == s[n - 1];
    }
  }

  lemma NoCarriageReturnSuffix(s: string, i: nat)
    requires NoCarriageReturn(s) && i <= |s|
    ensures NoCarriageReturn(s[i..])
  {
    forall k | 0 <= k < |s| - i ensures s[i..][k] != '\r' {
      assert s[i..][k] == s[i + k];
    }
  }

  /** Rejoining after one step of `Lines`, given that the rest rejoins. */
  lemma JoinLinesSplit(s: string, n: nat)
    requires NoCarriageReturn(s) && s != [] && s[|s| - 1] != '\n'
    requires n == IndexOf(s, '\n') && n < |s|
    requires JoinLines(Lines(s[n + 1..])) == s[n + 1..]
    ensures JoinLines(Lines(s)) == s
  {
    var head, rest := s[..n], s[n + 1..];
    LinesSplit(s, n);
    JoinLinesCons(head, Lines(rest));
    SplitAround(s, n);
  }

  lemma SplitAround(s: string, n: nat)
    requires n < |s| && s[n] == '\n'
    ensures s == s[..n] + "\n" + s[n + 1..]
  {
  }

  lemma JoinLinesCons(head: string, tail: seq<string>)
    requires tail != []
    ensures JoinLines([head] + tail) == head + "\n" + JoinLines(tail)
  {
    assert ([head] + tail)[1..] == tail;
  }

  // ----------------------------------------------------- split_whitespace

  /** The index of the first whitespace character in `s`, or `|s|`. */
  function FirstWhitespace(s: string): (n: nat)
    ensures n <= |s| && NoWhitespace(s[..n])
    ensures n < |s| ==> IsWhitespace(s[n])
  {
    if s == [] || IsWhitespace(s[0]) then 0
    else
      1 + FirstWhitespace(s[1..])
  }

  lemma FirstWhitespaceUnique(s: string, n: nat)
    requires n <= |s| && NoWhitespace(s[..n])
    requires n < |s| ==> IsWhitespace(s[n])
    ensures FirstWhitespace(s) == n
  {
    var m := FirstWhitespace(s);
    forall k | 0 <= k < n ensures !IsWhitespace(s[k]) { assert s[..n][k] == s[k]; }
    forall k | 0 <= k < m ensures !IsWhitespace(s[k]) { assert s[..m][k] == s[k]; }
  }

  /** `str::split_whitespace`: the maximal runs of non-whitespace characters, in order. */
  function Tokens(s: string): (ts: seq<string>)
    ensures forall k :: 0 <= k < |ts| ==> ts[k] != [] && NoWhitespace(ts[k])
    decreases |s|
  {
    var t := TrimStart(s);
    if t == [] then []
    else
      var n := FirstWhitespace(t);
      [t[..n]] + Tokens(t[n..])
  }

  /** Concatenation of a sequence of sequences. */
  function Concat<T>(ss: seq<seq<T>>): seq<T> {
    if ss == [] then [] else Concat(ss[..|ss| - 1]) + ss[|ss| - 1]
  }

  lemma {:induction false} ConcatPrepend<T>(x: seq<T>, ss: seq<seq<T>>)
    ensures Concat([x] + ss) == x + Concat(ss)
    decreases |ss|
  {
    if ss == [] {
      assert ([x] + ss)[..0] == [];
    } else {
      var init := ss[..|ss| - 1];
      assert ([x] + ss)[..|ss|] == [x] + init;
      ConcatPrepend(x, init);
    }
  }

  /** The characters of `s` that are not whitespace, in order. */
  function RemoveWhitespace(s: string): string {
    if s == [] then []
    else (if IsWhitespace(s[0]) then [] else [s[0]]) + RemoveWhitespace(s[1..])
  }

  lemma {:induction false} RemoveWhitespaceAppend(a: string, b: string)
    ensures RemoveWhitespace(a + b) == RemoveWhitespace(a) + RemoveWhitespace(b)
    decreases |a|
  {
    if a == [] {
      assert a + b == b;
    } else {
      assert (a + b)[1..] == a[1..] + b;
      RemoveWhitespaceAppend(a[1..], b);
    }
  }

  lemma {:induction false} RemoveWhitespaceOfWhitespace(s: string)
    requires AllWhitespace(s)
    ensures RemoveWhitespace(s) == []
    decreases |s|
  {
    if s != [] { RemoveWhitespaceOfWhitespace(s[1..]); }
  }

  lemma {:induction false} RemoveWhitespaceOfWord(s: string)
    requires NoWhitespace(s)
    ensures RemoveWhitespace(s) == s
    decreases |s|
  {
    if s != [] { RemoveWhitespaceOfWord(s[1..]); }
  }

  lemma RemoveWhitespaceTrimStart(s: string)
    ensures RemoveWhitespace(s) == RemoveWhitespace(TrimStart(s))
  {
    var lead := LeadingWhitespace(s);
    assert s == s[..lead] + TrimStart(s);
    RemoveWhitespaceAppend(s[..lead], TrimStart(s));
    RemoveWhitespaceOfWhitespace(s[..lead]);
  }

  lemma RemoveWhitespaceAfterWord(t: string, n: nat)
    requires n <= |t| && NoWhitespace(t[..n])
    ensures RemoveWhitespace(t) == t[..n] + RemoveWhitespace(t[n..])
  {
    assert t == t[..n] + t[n..];
    RemoveWhitespaceAppend(t[..n], t[n..]);
    RemoveWhitespaceOfWord(t[..n]);
  }

  /** The tokens, glued back together, are exactly the non-whitespace characters of `s`. */
  lemma {:induction false} TokensPartition(s: string)
    ensures Concat(Tokens(s)) == RemoveWhitespace(s)
    decreases |s|
  {
    RemoveWhitespaceTrimStart(s);
    var t := TrimStart(s);
    if t != [] {
      var n := FirstWhitespace(t);
      RemoveWhitespaceAfterWord(t, n);
      TokensPartition(t[n..]);
      ConcatPrepend(t[..n], Tokens(t[n..]));
    }
  }

  /** Whitespace in front of the text does not change its tokens. */
  lemma TokensSkipWhitespace(sep: string, rest: string)
    requires AllWhitespace(sep)
    ensures Tokens(sep + rest) == Tokens(rest)
  {
    var s := sep + rest;
    var l := LeadingWhitespace(rest);
    assert s[..|sep| + l] == sep + rest[..l];
    AllWhitespaceAppend(sep, rest[..l]);
    if |sep| + l < |s| { assert s[|sep| + l] == rest[l]; }
    LeadingWhitespaceUnique(s, |sep| + l);
    assert TrimStart(s) == TrimStart(rest);
  }

  /** A word followed by a run of whitespace is the first token. */
  lemma TokensWordThen(word: string, sep: string, rest: string)
    requires word != [] && NoWhitespace(word)
    requires sep != [] && AllWhitespace(sep)
    ensures Tokens(word + sep + rest) == [word] + Tokens(rest)
  {
    assert word + sep + rest == word + (sep + rest);
    TokensCons(word, sep + rest);
    TokensSkipWhitespace(sep, rest);
  }

  /** A word followed by whitespace (or nothing) is the first token. */
  lemma TokensCons(word: string, rest: string)
    requires word != [] && NoWhitespace(word)
    requires rest == [] || IsWhitespace(rest[0])
    ensures Tokens(word + rest) == [word] + Tokens(rest)
  {
    var s := word + rest;
    LeadingWhitespaceUnique(s, 0);
    assert TrimStart(s) == s;
    assert s[..|word|] == word;
    if rest != [] { assert s[|word|] == rest[0]; }
    FirstWhitespaceUnique(s, |word|);
    assert s[..|word|] == word && s[|word|..] == rest;
  }

  // ------------------------------------------------------------- UTF-8

  /** The number of bytes UTF-8 uses for `c`. */
  function Utf8Width(c: char): (w: nat)
    ensures 1 <= w <= 4
    ensures w == 1 <==> c as int < 0x80
  {
    if c as int < 0x80 then 1
    else if c as int < 0x800 then 2
    else if c as int < 0x1_0000 then 3
    else 4
  }

  /** `str::len`: the length of the UTF-8 encoding of `s`, in bytes. */
  function ByteLen(s: string): (n: nat)
    ensures |s| <= n <= 4 * |s|
  {
    if s == [] then 0 else Utf8Width(s[0]) + ByteLen(s[1..])
  }

  lemma {:induction false} ByteLenAppend(a: string, b: string)
    ensures ByteLen(a + b) == ByteLen(a) + ByteLen(b)
    decreases |a|
  {
    if a == [] {
      assert a + b == b;
    } else {
      assert (a + b)[1..] == a[1..] + b;
      ByteLenAppend(a[1..], b);
    }
  }

  /** On ASCII text the byte length is the character count. */
  lemma {:induction false} ByteLenAscii(s: string)
    requires forall k :: 0 <= k < |s| ==> s[k] as int < 0x80
    ensures ByteLen(s) == |s|
    decreases |s|
  {
    if s != [] { ByteLenAscii(s[1..]); }
  }
}
