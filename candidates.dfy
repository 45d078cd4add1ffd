/**
 * The candidate-line pattern of the ambiguous (exit 2) branch,
 * ` *(-?\d+) *(.*?)(\(|  |$)`, searched for anywhere in a line the way a
 * leftmost-first regex engine does, written out as explicit index functions.
 * `\d` is taken to mean the ASCII digits.
 */
module Candidates {
  import opened Wrappers
  import opened RustStr

  predicate IsDigit(c: char) {
    '0' <= c <= '9'
  }

  /** `-?\d+` can begin at `q`: a digit, or a minus sign followed by a digit. */
  predicate NumeralStartsAt(s: string, q: nat) {
    q < |s| && (IsDigit(s[q]) || (s[q] == '-' && q + 1 < |s| && IsDigit(s[q + 1])))
  }

  /** `s` is a whole match of `-?\d+`. */
  predicate IsNumeral(s: string) {
    |s| > 0 && (s[0] == '-' || IsDigit(s[0])) && (s[0] == '-' ==> |s| > 1)
    && forall k :: 1 <= k < |s| ==> IsDigit(s[k])
  }

  /** `(\(|  |$)` matches at `r`: an opening parenthesis, two spaces, or the end of the line. */
  predicate TerminatorAt(s: string, r: nat) {
    r == |s| || (r < |s| && (s[r] == '(' || (s[r] == ' ' && r + 1 < |s| && s[r + 1] == ' ')))
  }

  /** The first position at or after `from` where a numeral begins. */
  function FirstNumeral(s: string, from: nat): (q: Option<nat>)
    requires from <= |s|
    ensures q.Some? ==> from <= q.value < |s| && NumeralStartsAt(s, q.value)
    ensures forall k :: from <= k < (if q.Some? then q.value else |s|) ==> !NumeralStartsAt(s, k)
    decreases |s| - from
  {
    if from == |s| then None
    else if NumeralStartsAt(s, from) then Some(from)
    else FirstNumeral(s, from + 1)
  }

  /** The end of the run of digits starting at `k` (greedy `\d+`). */
  function DigitsEnd(s: string, k: nat): (e: nat)
    requires k <= |s|
    ensures k <= e <= |s|
    ensures forall j :: k <= j < e ==> IsDigit(s[j])
    ensures e < |s| ==> !IsDigit(s[e])
    decreases |s| - k
  {
    if k == |s| || !IsDigit(s[k]) then k else DigitsEnd(s, k + 1)
  }

  /** The end of the run of spaces starting at `k` (greedy ` *`). */
  function SpacesEnd(s: string, k: nat): (t: nat)
    requires k <= |s|
    ensures k <= t <= |s|
    ensures forall j :: k <= j < t ==> s[j] == ' '
    ensures t < |s| ==> s[t] != ' '
    decreases |s| - k
  {
    if k == |s| || s[k] != ' ' then k else SpacesEnd(s, k + 1)
  }

  /** The first terminator at or after `t` (lazy `.*?`). */
  function LabelEnd(s: string, t: nat): (r: nat)
    requires t <= |s|
    ensures t <= r <= |s| && TerminatorAt(s, r)
    ensures forall j :: t <= j < r ==> !TerminatorAt(s, j)
    decreases |s| - t
  {
    if TerminatorAt(s, t) then t else LabelEnd(s, t + 1)
  }

  /** The two captures `build_event` uses: the id (group 1) and the trimmed label, `name` (group 2). */
  datatype Candidate = Candidate(id: string, name: string)

  /** Capture positions: group 1 is `s[q..e]`, group 2 is `s[t..r]`. */
  datatype Span = Span(q: nat, e: nat, t: nat, r: nat)

  /** `sp` holds the capture positions of the leftmost-first match of the pattern in `s`. */
  predicate Captures(s: string, sp: Span) {
    && sp.q < sp.e <= sp.t <= sp.r <= |s|
    // no match can start earlier
    && (forall k :: 0 <= k < sp.q ==> !NumeralStartsAt(s, k))
    // greedy `-?\d+`
    && IsNumeral(s[sp.q..sp.e]) && (sp.e < |s| ==> !IsDigit(s[sp.e]))
    // greedy ` *`
    && (forall k :: sp.e <= k < sp.t ==> s[k] == ' ') && (sp.t < |s| ==> s[sp.t] != ' ')
    // lazy `.*?` up to the first terminator
    && TerminatorAt(s, sp.r) && (forall k :: sp.t <= k < sp.r ==> !TerminatorAt(s, k))
  }

  /** Where group 1's digits start, given where the numeral starts. */
  function DigitsStart(s: string, q: nat): (d: nat)
    requires NumeralStartsAt(s, q)
    ensures q <= d < |s| && IsDigit(s[d])
  {
    if s[q] == '-' then q + 1 else q
  }

  lemma NumeralSpan(s: string, q: nat)
    requires NumeralStartsAt(s, q)
    ensures IsNumeral(s[q..DigitsEnd(s, DigitsStart(s, q))])
  {
    var e := DigitsEnd(s, DigitsStart(s, q));
    assert forall k :: 1 <= k < e - q ==> s[q..e][k] == s[q + k];
  }

  /** The regex search: the capture positions of the leftmost-first match, if any. */
  function FindCaptures(line: string): (sp: Option<Span>)
    ensures sp.Some? ==> sp.value.q <= sp.value.e <= sp.value.t <= sp.value.r <= |line|
  {
    match FirstNumeral(line, 0)
    case None => None
    case Some(q) =>
      var e := DigitsEnd(line, DigitsStart(line, q));
      var t := SpacesEnd(line, e);
      Some(Span(q, e, t, LabelEnd(line, t)))
  }

  /**
   * The search fails exactly when no numeral occurs anywhere in the line, and
   * otherwise finds the captures of the leftmost-first match.
   */
  lemma FindCapturesSound(line: string)
    ensures FindCaptures(line).None? <==> forall k :: 0 <= k < |line| ==> !NumeralStartsAt(line, k)
    ensures FindCaptures(line).Some? ==> Captures(line, FindCaptures(line).value)
  {
    if FindCaptures(line).Some? {
      NumeralSpan(line, FindCaptures(line).value.q);
    }
  }

  /** `pattern.captures(line)`, reduced to the id and the trimmed label. */
  function Match(line: string): (m: Option<Candidate>)
  {
    match FindCaptures(line)
    case None => None
    case Some(sp) => Some(Candidate(line[sp.q..sp.e], Trim(line[sp.t..sp.r])))
  }

  /** A matched id is a whole numeral and a matched label has no surrounding whitespace. */
  lemma MatchShape(line: string)
    requires Match(line).Some?
    ensures IsNumeral(Match(line).value.id) && IsTrimmed(Match(line).value.name)
  {
    FindCapturesSound(line);
  }

  /** A line fails to match exactly when no numeral occurs anywhere in it. */
  lemma MatchFailsIffNoNumeral(line: string)
    ensures Match(line).None? <==> forall k :: 0 <= k < |line| ==> !NumeralStartsAt(line, k)
  {
    FindCapturesSound(line);
  }

  lemma FirstNumeralUnique(s: string, q: nat)
    requires NumeralStartsAt(s, q)
    requires forall k :: 0 <= k < q ==> !NumeralStartsAt(s, k)
    ensures FirstNumeral(s, 0) == Some(q)
  {
  }

  lemma DigitsEndUnique(s: string, d: nat, e: nat)
    requires d <= e <= |s|
    requires forall j :: d <= j < e ==> IsDigit(s[j])
    requires e < |s| ==> !IsDigit(s[e])
    ensures DigitsEnd(s, d) == e
  {
  }

  lemma SpacesEndUnique(s: string, e: nat, t: nat)
    requires e <= t <= |s|
    requires forall j :: e <= j < t ==> s[j] == ' '
    requires t < |s| ==> s[t] != ' '
    ensures SpacesEnd(s, e) == t
  {
  }

  lemma LabelEndUnique(s: string, t: nat, r: nat)
    requires t <= r <= |s| && TerminatorAt(s, r)
    requires forall j :: t <= j < r ==> !TerminatorAt(s, j)
    ensures LabelEnd(s, t) == r
  {
  }

  /** The leftmost-first match is unique, so any capture positions that fit it are the ones found. */
  lemma {:induction false} CapturesUnique(line: string, sp: Span)
    requires Captures(line, sp)
    ensures FindCaptures(line) == Some(sp)
  {
    var id := line[sp.q..sp.e];
    assert id[0] == line[sp.q];
    assert NumeralStartsAt(line, sp.q) by {
      if id[0] == '-' { assert id[1] == line[sp.q + 1]; }
    }
    FirstNumeralUnique(line, sp.q);
    var d := DigitsStart(line, sp.q);
    assert forall j :: d <= j < sp.e ==> IsDigit(line[j]) by {
      forall j | d <= j < sp.e ensures IsDigit(line[j]) {
        assert line[j] == id[j - sp.q];
      }
    }
    DigitsEndUnique(line, d, sp.e);
    SpacesEndUnique(line, sp.e, sp.t);
    LabelEndUnique(line, sp.t, sp.r);
  }
}
