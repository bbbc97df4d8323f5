/**
 * The price pattern `¥\s?([\d,]+(?:\.\d+)?)` run with the global flag over one
 * text value: a hand-written scanner with the regular expression's leftmost,
 * greedy semantics, and the sequence of matches `exec` yields when it is called
 * repeatedly from `lastIndex = 0`.
 */
module PriceScan {
  import opened Wrappers

  /** The source-currency symbol, U+00A5 YEN SIGN. */
  const Yen: char := '¥'

  /** `\d`: ASCII decimal digits only. */
  predicate IsDigit(c: char) { '0' <= c <= '9' }

  /** `\s`: the WhiteSpace and LineTerminator code points of ECMAScript. */
  predicate IsSpace(c: char) {
    (c <= ' ' && (c == ' ' || '\t' <= c <= '\r'))
    || c == '\U{00A0}'
    || ('\U{1680}' <= c && (c == '\U{1680}' || ('\U{2000}' <= c <= '\U{200A}')
                             || c == '\U{2028}' || c == '\U{2029}' || c == '\U{202F}' || c == '\U{205F}'
                             || c == '\U{3000}' || c == '\U{FEFF}'))
  }

  /** The character class `[\d,]`. */
  predicate IsAmountChar(c: char) { IsDigit(c) || c == ',' }

  /**
   * A price match: the `¥` at `start`, the captured group `s[groupStart..end]`,
   * and `end`, the `lastIndex` the regular expression leaves behind.
   */
  datatype Match = Match(start: nat, groupStart: nat, end: nat)

  function Group(s: string, m: Match): string
    requires m.groupStart <= m.end <= |s|
  {
    s[m.groupStart..m.end]
  }

  /** The end of the maximal run of `[\d,]` starting at `i`. */
  function AmountRunEnd(s: string, i: nat): (j: nat)
    requires i <= |s|
    ensures i <= j <= |s|
    ensures forall k :: i <= k < j ==> IsAmountChar(s[k])
    ensures j == |s| || !IsAmountChar(s[j])
    decreases |s| - i
  {
    if i < |s| && IsAmountChar(s[i]) then AmountRunEnd(s, i + 1) else i
  }

  /** The end of the maximal run of `\d` starting at `i`. */
  function DigitRunEnd(s: string, i: nat): (j: nat)
    requires i <= |s|
    ensures i <= j <= |s|
    ensures forall k :: i <= k < j ==> IsDigit(s[k])
    ensures j == |s| || !IsDigit(s[j])
    decreases |s| - i
  {
    if i < |s| && IsDigit(s[i]) then DigitRunEnd(s, i + 1) else i
  }

  /**
   * The match the pattern finds when it is tried at position `p` exactly:
   * `\s?` is greedy, and giving the space back never helps because a space is
   * not in `[\d,]`; `[\d,]+` takes the maximal run; `(?:\.\d+)?` is taken
   * whenever a `.` and a digit follow the run.
   */
  function MatchAt(s: string, p: nat): Option<Match>
  {
    if p < |s| && s[p] == Yen then
      var g := if p + 1 < |s| && IsSpace(s[p + 1]) then p + 2 else p + 1;
      if g < |s| && IsAmountChar(s[g]) then
        var j := AmountRunEnd(s, g);
        var e := if j + 1 < |s| && s[j] == '.' && IsDigit(s[j + 1]) then DigitRunEnd(s, j + 1) else j;
        Some(Match(p, g, e))
      else
        None
    else
      None
  }

  /**
   * `priceRegex.exec(s)` with `lastIndex == from`: the match at the leftmost
   * position at or after `from`, or `None` when there is none.
   */
  function Exec(s: string, from: nat): (r: Option<Match>)
    requires from <= |s|
    ensures r.None? ==> forall q :: from <= q < |s| ==> MatchAt(s, q).None?
    ensures r.Some? ==> from <= r.value.start && MatchAt(s, r.value.start) == r
    ensures r.Some? ==> forall q :: from <= q < r.value.start ==> MatchAt(s, q).None?
    decreases |s| - from
  {
    if from == |s| then None
    else if MatchAt(s, from).Some? then MatchAt(s, from)
    else Exec(s, from + 1)
  }

  /** Where a match sits inside `s`; every match satisfies it. */
  predicate WellPlaced(s: string, m: Match) {
    m.start < m.groupStart < m.end <= |s|
  }

  lemma MatchAtPlaced(s: string, p: nat)
    requires MatchAt(s, p).Some?
    ensures WellPlaced(s, MatchAt(s, p).value) && MatchAt(s, p).value.start == p
  {
  }

  /**
   * All matches the global pattern yields from `lastIndex == from` on: each
   * call of `exec` resumes where the previous match ended.
   */
  function ScanFrom(s: string, from: nat): (ms: seq<Match>)
    requires from <= |s|
    ensures forall i :: 0 <= i < |ms| ==> WellPlaced(s, ms[i]) && from <= ms[i].start
    decreases |s| - from
  {
    match Exec(s, from)
    case None => []
    case Some(m) =>
      MatchAtPlaced(s, m.start);
      [m] + ScanFrom(s, m.end)
  }

  /** The matches of one text value; scanning always restarts at index 0. */
  function Matches(s: string): seq<Match> { ScanFrom(s, 0) }

  // ---------------------------------------------------------------------------
  // The language of the captured group, stated independently of the scanner.

  /**
   * `[\d,]+(?:\.\d+)?`: a non-empty run of digits and commas, optionally
   * followed by one `.` and at least one digit.
   */
  predicate IsAmount(t: string) {
    |t| > 0 && IsAmountChar(t[0]) &&
    forall i :: 0 <= i < |t| ==>
      IsAmountChar(t[i]) ||
      (t[i] == '.' && i + 1 < |t| &&
       (forall j :: 0 <= j < i ==> IsAmountChar(t[j])) &&
       (forall j :: i < j < |t| ==> IsDigit(t[j])))
  }

  /** The regular expression matches `s[p..e]` with the group `s[g..e]`. */
  predicate PatternMatches(s: string, p: nat, g: nat, e: nat) {
    p < g <= e <= |s| && s[p] == Yen &&
    (g == p + 1 || (g == p + 2 && IsSpace(s[p + 1]))) &&
    IsAmount(s[g..e])
  }

  lemma AmountPrefixRun(t: string, k: nat)
    requires IsAmount(t) && k <= |t|
    requires forall i :: 0 <= i < k ==> IsAmountChar(t[i])
    requires k < |t| && !IsAmountChar(t[k])
    ensures t[k] == '.' && k + 1 < |t| && forall j :: k < j < |t| ==> IsDigit(t[j])
  {
  }

  /**
   * The scanner at `p` is exactly the regular expression tried at `p`: what it
   * returns is a match of the pattern, the longest one with its group start,
   * and when it returns nothing the pattern has no match at `p` at all.
   */
  lemma MatchAtIsPattern(s: string, p: nat)
    ensures MatchAt(s, p).Some? ==>
      var m := MatchAt(s, p).value;
      m.start == p && PatternMatches(s, p, m.groupStart, m.end) &&
      forall e :: m.end < e <= |s| ==> !IsAmount(s[m.groupStart..e])
    ensures MatchAt(s, p).None? ==>
      forall g: nat, e: nat :: !PatternMatches(s, p, g, e)
  {
    if MatchAt(s, p).Some? {
      MatchedGroupIsAmount(s, p);
      MatchedGroupLongest(s, p);
    } else {
      NoMatchNoPattern(s, p);
    }
  }

  lemma MatchedGroupIsAmount(s: string, p: nat)
    requires MatchAt(s, p).Some?
    ensures var m := MatchAt(s, p).value;
      m.start == p && PatternMatches(s, p, m.groupStart, m.end)
  {
    var m := MatchAt(s, p).value;
    var g := m.groupStart;
    var j := AmountRunEnd(s, g);
    var t := s[g..m.end];
    if m.end == j {
      assert forall i :: 0 <= i < |t| ==> IsAmountChar(t[i]);
    } else {
      assert s[j] == '.';
      assert forall i :: 0 <= i < |t| ==> IsAmountChar(t[i]) || i == j - g;
    }
    assert IsAmount(t);
  }

  lemma MatchedGroupLongest(s: string, p: nat)
    requires MatchAt(s, p).Some?
    ensures var m := MatchAt(s, p).value;
      forall e :: m.end < e <= |s| ==> !IsAmount(s[m.groupStart..e])
  {
    var m := MatchAt(s, p).value;
    var g := m.groupStart;
    var j := AmountRunEnd(s, g);
    forall e | m.end < e <= |s|
      ensures !IsAmount(s[g..e])
    {
      var u := s[g..e];
      var k := j - g;
      assert u[k] == s[j];
      if m.end == j {
        if k + 1 < |u| {
          assert u[k + 1] == s[j + 1];
        }
        NotAmountAt(u, k, k + 1);
      } else {
        assert u[m.end - g] == s[m.end];
        NotAmountAt(u, k, m.end - g);
      }
    }
  }

  lemma NoMatchNoPattern(s: string, p: nat)
    requires MatchAt(s, p).None?
    ensures forall g: nat, e: nat :: !PatternMatches(s, p, g, e)
  {
  }

  /**
   * A text with a character outside `[\d,]` is no amount unless that
   * character is a point followed only by digits, at least one.
   */
  lemma NotAmountAt(u: string, k: nat, w: nat)
    requires k < |u| && !IsAmountChar(u[k])
    requires u[k] != '.' || k + 1 == |u| || (k < w < |u| && !IsDigit(u[w]))
    ensures !IsAmount(u)
  {
  }

  // ---------------------------------------------------------------------------
  // Properties of the sequence of matches.

  /** Each reported match is the pattern's match at its own start. */
  lemma {:induction false} ScanFromSound(s: string, from: nat)
    requires from <= |s|
    ensures forall m :: m in ScanFrom(s, from) ==>
              from <= m.start && MatchAt(s, m.start) == Some(m) && WellPlaced(s, m)
    decreases |s| - from
  {
    if Exec(s, from).Some? {
      var m := Exec(s, from).value;
      MatchAtPlaced(s, m.start);
      assert ScanFrom(s, from) == [m] + ScanFrom(s, m.end);
      ScanFromSound(s, m.end);
    }
  }

  /** Each match ends no later than the next one starts. */
  predicate Chained(ms: seq<Match>) {
    forall i :: 0 <= i < |ms| - 1 ==> ms[i].end <= ms[i + 1].start
  }

  lemma {:induction false} ChainedOrdered(ms: seq<Match>)
    requires Chained(ms)
    requires forall i :: 0 <= i < |ms| ==> ms[i].start < ms[i].end
    ensures forall i, j :: 0 <= i < j < |ms| ==> ms[i].end <= ms[j].start
  {
    if |ms| > 1 {
      ChainedOrdered(ms[1..]);
      forall j | 1 < j < |ms|
        ensures ms[0].end <= ms[j].start
      {
        assert ms[1..][0] == ms[1] && ms[1..][j - 1] == ms[j];
      }
      forall i, j | 0 < i < j < |ms|
        ensures ms[i].end <= ms[j].start
      {
        assert ms[1..][i - 1] == ms[i] && ms[1..][j - 1] == ms[j];
      }
    }
  }

  lemma {:induction false} ScanFromChained(s: string, from: nat)
    requires from <= |s|
    ensures Chained(ScanFrom(s, from))
    decreases |s| - from
  {
    if Exec(s, from).Some? {
      var m := Exec(s, from).value;
      MatchAtPlaced(s, m.start);
      var rest := ScanFrom(s, m.end);
      assert ScanFrom(s, from) == [m] + rest;
      ScanFromChained(s, m.end);
      if rest != [] {
        ScanFromSound(s, m.end);
        assert rest[0] in rest;
      }
    }
  }

  /** The matches come left to right and never overlap. */
  lemma ScanFromOrdered(s: string, from: nat)
    requires from <= |s|
    ensures forall i, j :: 0 <= i < j < |ScanFrom(s, from)| ==>
              ScanFrom(s, from)[i].end <= ScanFrom(s, from)[j].start
  {
    var ms := ScanFrom(s, from);
    ScanFromChained(s, from);
    ScanFromSound(s, from);
    assert forall i :: 0 <= i < |ms| ==> ms[i] in ms;
    ChainedOrdered(ms);
  }

  /**
   * No match is skipped: every position where the pattern matches is the
   * start of a reported match or lies inside one.
   */
  lemma {:induction false} ScanFromComplete(s: string, from: nat, q: nat)
    requires from <= q < |s| && MatchAt(s, q).Some?
    ensures exists i :: 0 <= i < |ScanFrom(s, from)| &&
                        ScanFrom(s, from)[i].start <= q < ScanFrom(s, from)[i].end
    decreases |s| - from
  {
    var m := Exec(s, from).value;
    MatchAtPlaced(s, m.start);
    var ms := ScanFrom(s, from);
    assert ms == [m] + ScanFrom(s, m.end);
    if q >= m.end {
      ScanFromComplete(s, m.end, q);
      var rest := ScanFrom(s, m.end);
      var i :| 0 <= i < |rest| && rest[i].start <= q < rest[i].end;
      assert ms[i + 1] == rest[i];
    } else {
      assert ms[0] == m;
    }
  }

  /** A text without the `¥` symbol has no match. */
  lemma NoYenNoMatch(s: string, from: nat)
    requires from <= |s| && Yen !in s[from..]
    ensures Exec(s, from).None? && ScanFrom(s, from) == []
  {
  }

  /**
   * Matching looks only forward from its start, within the text it is given:
   * a match inside a piece `s[a..b]` of the text is a match of `s` itself at
   * the same place.
   */
  lemma MatchInPiece(s: string, a: nat, b: nat, q: nat)
    requires a <= b <= |s| && MatchAt(s[a..b], q).Some?
    ensures MatchAt(s, a + q).Some?
  {
    var t := s[a..b];
    assert t[q] == s[a + q];
    if q + 1 < |t| {
      assert t[q + 1] == s[a + q + 1];
    }
    var g := if q + 1 < |t| && IsSpace(t[q + 1]) then q + 2 else q + 1;
    assert t[g] == s[a + g];
  }

  /**
   * A piece of text between two positions where the pattern cannot start
   * contains no match: this is why the gaps and the tail the annotator emits
   * never convert again.
   */
  lemma PieceWithoutStartsHasNoMatch(s: string, a: nat, b: nat)
    requires a <= b <= |s|
    requires forall q :: a <= q < b ==> MatchAt(s, q).None?
    ensures Exec(s[a..b], 0).None?
  {
    var t := s[a..b];
    if Exec(t, 0).Some? {
      var q := Exec(t, 0).value.start;
      MatchInPiece(s, a, b, q);
      assert false;
    }
  }
}
