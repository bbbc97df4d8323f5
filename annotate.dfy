/**
 * `convertTextNode` (Content.js:120-219). The text of one text node is cut
 * into gap text, a price span for each match and, when a rate and an amount
 * are known, a conversion span after it. A match without a `.` may take a
 * leading `[.,]\d+` from the node's next sibling, which is then rewritten or
 * removed. The fragment replaces the text node and the parent is marked
 * processed.
 */
module Annotate {
  import opened Wrappers
  import opened PriceScan
  import opened Numbers
  import opened Rates
  import opened Dom

  // ---------------------------------------------------------------------------
  // The decimal continuation taken from the next sibling (Content.js:145-181).

  /** A leading decimal continuation `[.,]\d+` and the text after it. */
  datatype Lead = Lead(dec: string, rem: string)

  predicate AllSpaces(w: string) {
    forall k :: 0 <= k < |w| ==> IsSpace(w[k])
  }

  /**
   * `text.match(/^[\s ]*([.,]\d+)/)`: the captured continuation, and the
   * text that `replace(/^([\s ]*[.,]\d+)/, '')` leaves behind.
   */
  function LeadingDecimal(t: string): Option<Lead> {
    var u := TrimStart(t);
    if |u| >= 2 && (u[0] == '.' || u[0] == ',') && IsDigit(u[1]) then
      var j := DigitRunEnd(u, 1);
      Some(Lead(u[..j], u[j..]))
    else
      None
  }

  /** The lookahead pattern matches when white space and then `[.,]` and a digit open the text... */
  lemma LeadingDecimalFound(t: string)
    requires LeadingDecimal(t).Some?
    ensures exists k :: 0 <= k && k + 1 < |t| && AllSpaces(t[..k]) && (t[k] == '.' || t[k] == ',') && IsDigit(t[k + 1])
  {
    var u := TrimStart(t);
    var w := t[..|t| - |u|];
    assert t == w + u;
    assert |u| >= 2 && (u[0] == '.' || u[0] == ',') && IsDigit(u[1]);
    assert t[..|w|] == w;
    assert (w + u)[|w|] == u[0] && (w + u)[|w| + 1] == u[1];
    var k := |w|;
    assert 0 <= k && k + 1 < |t| && AllSpaces(t[..k]) && (t[k] == '.' || t[k] == ',') && IsDigit(t[k + 1]);
  }

  /** ...and only then. */
  lemma LeadingDecimalNotFound(t: string)
    requires LeadingDecimal(t).None?
    ensures forall k :: 0 <= k && k + 1 < |t| && AllSpaces(t[..k]) ==> !((t[k] == '.' || t[k] == ',') && IsDigit(t[k + 1]))
  {
    var u := TrimStart(t);
    var n := |t| - |u|;
    assert forall i :: 0 <= i < n ==> IsSpace(t[i]);
    assert u == t[n..];
    forall k | 0 <= k && k + 1 < |t| && AllSpaces(t[..k])
      ensures !((t[k] == '.' || t[k] == ',') && IsDigit(t[k + 1]))
    {
      NoOpeningAt(t, u, n, k);
    }
  }

  /** Where white space ends in `t` no `[.,]` followed by a digit can open it, and none can before. */
  lemma NoOpeningAt(t: string, u: string, n: nat, k: nat)
    requires n <= |t| && u == t[n..] && forall i :: 0 <= i < n ==> IsSpace(t[i])
    requires u == [] || !IsSpace(u[0])
    requires !(|u| >= 2 && (u[0] == '.' || u[0] == ',') && IsDigit(u[1]))
    requires k + 1 < |t| && AllSpaces(t[..k])
    ensures !((t[k] == '.' || t[k] == ',') && IsDigit(t[k + 1]))
  {
    assert forall i :: 0 <= i < k ==> IsSpace(t[i]) by {
      forall i | 0 <= i < k ensures IsSpace(t[i]) { assert t[..k][i] == t[i]; }
    }
    if k < n {
      assert IsSpace(t[k]);
    } else if k == n {
      assert t[k] == u[0] && t[k + 1] == u[1];
    }
    // k > n is impossible: t[n] opens u, which does not start with white space
  }

  /**
   * The continuation takes every digit that follows it, and white space,
   * continuation and remainder make up the whole text.
   */
  lemma LeadingDecimalParts(t: string)
    requires LeadingDecimal(t).Some?
    ensures LeadShape(t, LeadingDecimal(t).value)
  {
    var u := TrimStart(t);
    var j := DigitRunEnd(u, 1);
    assert |u| >= 2 && (u[0] == '.' || u[0] == ',') && IsDigit(u[1]);
    var l := LeadingDecimal(t).value;
    assert l.dec == u[..j] && l.rem == u[j..];
    TrimmedSpaces(t);
    LeadParts(u, j);
    LeadSplit(t, u, l);
  }

  /**
   * `l` is what the lookahead takes from `t`: white space, then the
   * continuation (a separator and every digit after it), then the rest.
   */
  predicate LeadShape(t: string, l: Lead) {
    IsDecimalRun(l.dec) && (l.rem == [] || !IsDigit(l.rem[0]))
    && |l.dec| + |l.rem| <= |t|
    && AllSpaces(t[..|t| - |l.dec| - |l.rem|])
    && t == t[..|t| - |l.dec| - |l.rem|] + l.dec + l.rem
  }

  /** The parts of `u` when it opens with a decimal run ending at `j`. */
  lemma LeadParts(u: string, j: nat)
    requires 2 <= j <= |u| && (u[0] == '.' || u[0] == ',')
    requires forall k :: 1 <= k < j ==> IsDigit(u[k])
    requires j == |u| || !IsDigit(u[j])
    ensures IsDecimalRun(u[..j])
    ensures u[j..] == [] || !IsDigit(u[j..][0])
    ensures u == u[..j] + u[j..]
  {
    assert forall k :: 0 <= k < j - 1 ==> u[..j][1..][k] == u[k + 1];
  }

  /** White space followed by `u`, where `u` splits into the continuation and the rest. */
  lemma LeadSplit(t: string, u: string, l: Lead)
    requires |u| <= |t| && AllSpaces(t[..|t| - |u|]) && t == t[..|t| - |u|] + u
    requires u == l.dec + l.rem && IsDecimalRun(l.dec) && (l.rem == [] || !IsDigit(l.rem[0]))
    ensures LeadShape(t, l)
  {
    assert |t| - |l.dec| - |l.rem| == |t| - |u|;
  }

  /** What `TrimStart` drops is white space, and it drops a prefix. */
  lemma TrimmedSpaces(t: string)
    ensures AllSpaces(t[..|t| - |TrimStart(t)|])
    ensures t == t[..|t| - |TrimStart(t)|] + TrimStart(t)
  {
    var n := |t| - |TrimStart(t)|;
    assert forall k :: 0 <= k < n ==> t[..n][k] == t[k];
  }

  /** The continuation taken for one match, and the siblings after the text node once it is taken. */
  datatype Stitched = Stitched(dec: string, rest: seq<Node>)

  /**
   * One inspection of the next sibling (the lookahead loop always stops
   * after its first round): on a match the continuation is taken, and the
   * sibling, text or element alike, becomes a text node holding what is left
   * of its text, or disappears when nothing is left.
   */
  function Stitch(rest: seq<Node>): Stitched {
    if rest == [] then Stitched("", rest)
    else
      match LeadingDecimal(TextContent(rest[0]))
      case None => Stitched("", rest)
      case Some(l) => Stitched(l.dec, Leftover(l.rem) + rest[1..])
  }

  /** What replaces a stitched sibling: a text node with the remainder, or nothing. */
  function Leftover(rem: string): seq<Node> {
    if rem == "" then [] else [Text(rem)]
  }

  /**
   * Stitching takes a continuation exactly when the next sibling's text opens
   * with one; only that sibling changes, and what it loses is white space
   * and the continuation.
   */
  lemma StitchSpec(rest: seq<Node>)
    ensures Stitch(rest).dec != "" <==> rest != [] && LeadingDecimal(TextContent(rest[0])).Some?
    ensures Stitch(rest).dec == "" ==> Stitch(rest).rest == rest
    ensures Stitch(rest).dec != "" ==>
              IsDecimalRun(Stitch(rest).dec)
              && exists w, rem :: AllSpaces(w) && TextContent(rest[0]) == w + Stitch(rest).dec + rem
                                  && Stitch(rest).rest == Leftover(rem) + rest[1..]
  {
    if rest != [] && LeadingDecimal(TextContent(rest[0])).Some? {
      var t := TextContent(rest[0]);
      LeadingDecimalParts(t);
      var l := LeadingDecimal(t).value;
      var w := t[..|t| - |l.dec| - |l.rem|];
      assert Stitch(rest) == Stitched(l.dec, Leftover(l.rem) + rest[1..]);
      var rem := l.rem;
      assert AllSpaces(w) && TextContent(rest[0]) == w + Stitch(rest).dec + rem
             && Stitch(rest).rest == Leftover(rem) + rest[1..];
    }
  }

  // ---------------------------------------------------------------------------
  // The pieces of the fragment (Content.js:136-203).

  /** The span showing a matched price, with the taken continuation after it. */
  function PriceSpan(orig: string, dec: string): Node {
    Elem("span", map[], [Text(orig)] + (if dec == "" then [] else [Text(dec)]))
  }

  /** The text of a conversion span: the converted amount in parentheses. */
  function ConvLabel(v: Decimal, rate: Decimal, currency: string): string {
    "(" + FormatCurrency(Mul(v, rate), currency) + ")"
  }

  /** The conversion span for the amount `v` (its inline style is not modelled). */
  function ConvSpanNode(v: Decimal, rate: Decimal, currency: string): (r: Node)
    ensures IsConvSpan(r) && OriginalAttr in r.attrs && CurrencyAttr in r.attrs
    ensures r.attrs[OriginalAttr] == NumberToString(v) && r.attrs[CurrencyAttr] == currency
  {
    Elem("span", map[ConvAttr := "1", OriginalAttr := NumberToString(v), CurrencyAttr := currency],
         [Text(ConvLabel(v, rate, currency))])
  }

  /**
   * The conversion span for a match with group `g` and continuation `dec`:
   * present when the cached table has a number for the currency and the
   * normalised amount parses.
   */
  function ConvFor(g: string, dec: string, cache: Option<Json>, currency: string): (r: seq<Node>)
    ensures r == [] || (|r| == 1 && IsConvSpan(r[0]))
  {
    var rate := RateOf(cache, currency);
    var v := ParseFloat(Normalise(g + dec));
    if rate.Some? && v.Some? then [ConvSpanNode(v.value, rate.value, currency)] else []
  }

  /**
   * The fragment built from `lastIndex == from` on, the siblings after the
   * text node as the lookahead leaves them, and the continuation taken for
   * each match (`""` when none).
   */
  datatype Pieces = Pieces(frag: seq<Node>, rest: seq<Node>, decs: seq<string>)

  function AnnotateFrom(s: string, from: nat, rest: seq<Node>, cache: Option<Json>, currency: string): Pieces
    requires from <= |s|
    decreases |s| - from
  {
    if Exec(s, from).None? then
      Pieces(if from < |s| then [Text(s[from..])] else [], rest, [])
    else
      var m := Exec(s, from).value;
      MatchAtPlaced(s, m.start);
      var g := Group(s, m);
      var st := StitchFor(g, rest);
      var tail := AnnotateFrom(s, m.end, st.rest, cache, currency);
      Pieces(MatchPiece(s, from, m, st.dec, ConvFor(g, st.dec, cache, currency)) + tail.frag,
             tail.rest, [st.dec] + tail.decs)
  }

  /** The pieces from a match on: its own piece, then the pieces after it. */
  lemma AnnotateFromMatch(s: string, from: nat, rest: seq<Node>, cache: Option<Json>, currency: string)
    requires from <= |s| && Exec(s, from).Some?
    ensures var m := Exec(s, from).value;
      WellPlaced(s, m) && from <= m.start &&
      var g := Group(s, m);
      var st := StitchFor(g, rest);
      var tail := AnnotateFrom(s, m.end, st.rest, cache, currency);
      AnnotateFrom(s, from, rest, cache, currency)
      == Pieces(MatchPiece(s, from, m, st.dec, ConvFor(g, st.dec, cache, currency)) + tail.frag,
                tail.rest, [st.dec] + tail.decs)
  {
    MatchAtPlaced(s, Exec(s, from).value.start);
  }

  /**
   * What one match contributes: the gap text before it (when not empty),
   * its price span, and its conversion span if there is one.
   */
  function MatchPiece(s: string, from: nat, m: Match, dec: string, conv: seq<Node>): seq<Node>
    requires from <= m.start < m.end <= |s|
  {
    (if from < m.start then [Text(s[from..m.start])] else []) + [PriceSpan(s[m.start..m.end], dec)] + conv
  }

  // ---------------------------------------------------------------------------
  // What the fragment holds.

  /** The text of a sequence of nodes with the conversion spans left out. */
  function PlainText(ns: seq<Node>): string {
    if ns == [] then "" else (if IsConvSpan(ns[0]) then "" else TextContent(ns[0])) + PlainText(ns[1..])
  }

  /**
   * The text from `from` on with `decs[k]` inserted right after the `k`-th
   * match: what a reader sees once the conversions are ignored.
   */
  function InsertDecimals(s: string, from: nat, decs: seq<string>): string
    requires from <= |s| && |decs| == |ScanFrom(s, from)|
    decreases |s| - from
  {
    if Exec(s, from).None? then s[from..]
    else
      var m := Exec(s, from).value;
      MatchAtPlaced(s, m.start);
      assert ScanFrom(s, from) == [m] + ScanFrom(s, m.end);
      s[from..m.end] + decs[0] + InsertDecimals(s, m.end, decs[1..])
  }

  lemma {:induction false} PlainTextAppend(a: seq<Node>, b: seq<Node>)
    ensures PlainText(a + b) == PlainText(a) + PlainText(b)
    decreases |a|
  {
    if a == [] {
      assert a + b == b;
    } else {
      assert (a + b)[1..] == a[1..] + b;
      PlainTextAppend(a[1..], b);
    }
  }

  /** A price span reads as the matched text followed by the taken continuation. */
  lemma PriceSpanText(orig: string, dec: string)
    ensures TextContent(PriceSpan(orig, dec)) == orig + dec
    ensures !IsConvSpan(PriceSpan(orig, dec))
  {
    var n := PriceSpan(orig, dec);
    if dec == "" {
      assert TextContentFrom(n, 1) == "";
    } else {
      assert n.children == [Text(orig), Text(dec)];
      assert TextContentFrom(n, 2) == "";
      assert TextContentFrom(n, 1) == TextContent(Text(dec)) + "";
      assert TextContentFrom(n, 0) == TextContent(Text(orig)) + TextContentFrom(n, 1);
    }
  }

  /** Conversion spans add nothing to the plain text. */
  lemma ConversionsHaveNoPlainText(c: seq<Node>)
    requires c == [] || (|c| == 1 && IsConvSpan(c[0]))
    ensures PlainText(c) == ""
  {
    if c != [] {
      assert PlainText(c) == "" + PlainText(c[1..]);
    }
  }

  /**
   * Leave out the conversion spans and the fragment reads as the original
   * text from `from` on, each taken continuation right after its match; there
   * is one continuation (possibly empty) per match.
   */
  lemma {:induction false} AnnotateKeepsText(s: string, from: nat, rest: seq<Node>, cache: Option<Json>, currency: string)
    requires from <= |s|
    ensures |AnnotateFrom(s, from, rest, cache, currency).decs| == |ScanFrom(s, from)|
    ensures PlainText(AnnotateFrom(s, from, rest, cache, currency).frag)
            == InsertDecimals(s, from, AnnotateFrom(s, from, rest, cache, currency).decs)
    decreases |s| - from
  {
    var p := AnnotateFrom(s, from, rest, cache, currency);
    if Exec(s, from).None? {
      if from < |s| {
        assert PlainText(p.frag) == TextContent(Text(s[from..])) + PlainText([]);
      }
    } else {
      var m := Exec(s, from).value;
      MatchAtPlaced(s, m.start);
      assert ScanFrom(s, from) == [m] + ScanFrom(s, m.end);
      var g := Group(s, m);
      var st := StitchFor(g, rest);
      var conv := ConvFor(g, st.dec, cache, currency);
      var piece := MatchPiece(s, from, m, st.dec, conv);
      var tail := AnnotateFrom(s, m.end, st.rest, cache, currency);
      assert p == Pieces(piece + tail.frag, tail.rest, [st.dec] + tail.decs);
      AnnotateKeepsText(s, m.end, st.rest, cache, currency);
      PlainTextAppend(piece, tail.frag);
      MatchPieceText(s, from, m, st.dec, conv);
      assert p.decs[1..] == tail.decs;
    }
  }

  /** One match's piece reads as the text up to the match's end and the continuation. */
  lemma MatchPieceText(s: string, from: nat, m: Match, dec: string, conv: seq<Node>)
    requires from <= m.start < m.end <= |s|
    requires conv == [] || (|conv| == 1 && IsConvSpan(conv[0]))
    ensures PlainText(MatchPiece(s, from, m, dec, conv)) == s[from..m.end] + dec
  {
    var gap: seq<Node> := if from < m.start then [Text(s[from..m.start])] else [];
    var price := PriceSpan(s[m.start..m.end], dec);
    PlainTextAppend(gap + [price], conv);
    PlainTextAppend(gap, [price]);
    PriceSpanText(s[m.start..m.end], dec);
    ConversionsHaveNoPlainText(conv);
    assert PlainText([price]) == s[m.start..m.end] + dec + PlainText([]);
    assert PlainText(gap) == s[from..m.start] by {
      if from < m.start {
        assert PlainText(gap) == TextContent(Text(s[from..m.start])) + PlainText([]);
      }
    }
    assert s[from..m.start] + s[m.start..m.end] == s[from..m.end];
  }

  /** With no continuation taken, the fragment's text is exactly the original text. */
  lemma {:induction false} InsertNoDecimals(s: string, from: nat, decs: seq<string>)
    requires from <= |s| && |decs| == |ScanFrom(s, from)|
    requires forall k :: 0 <= k < |decs| ==> decs[k] == ""
    ensures InsertDecimals(s, from, decs) == s[from..]
    decreases |s| - from
  {
    if Exec(s, from).Some? {
      var m := Exec(s, from).value;
      MatchAtPlaced(s, m.start);
      assert ScanFrom(s, from) == [m] + ScanFrom(s, m.end);
      InsertNoDecimals(s, m.end, decs[1..]);
      assert s[from..m.end] + s[m.end..] == s[from..];
    }
  }

  /**
   * The continuation taken for a match whose group is `g`: none when the
   * group already has a `.`, otherwise whatever the next sibling offers.
   */
  function StitchFor(g: string, rest: seq<Node>): (st: Stitched)
    ensures st.dec != "" ==> '.' !in g && IsDecimalRun(st.dec)
    ensures st.dec == "" ==> st.rest == rest
  {
    StitchSpec(rest);
    if '.' in g then Stitched("", rest) else Stitch(rest)
  }

  /**
   * A continuation is taken for a match exactly when its group has no `.`
   * and the next sibling's text opens with one; a group without `.` takes
   * whatever the lookahead offers.
   */
  lemma StitchForSpec(g: string, rest: seq<Node>)
    ensures StitchFor(g, rest).dec != "" <==> '.' !in g && rest != [] && LeadingDecimal(TextContent(rest[0])).Some?
    ensures '.' !in g ==> StitchFor(g, rest) == Stitch(rest)
  {
    StitchSpec(rest);
  }

  /**
   * Each continuation belongs to the match at the same position: it is only
   * non-empty for a match whose group has no `.`, and then it is a `[.,]`
   * followed by digits.
   */
  predicate DecimalsFit(s: string, ms: seq<Match>, decs: seq<string>) {
    |decs| == |ms|
    && forall k :: 0 <= k < |decs| && decs[k] != "" ==>
         IsDecimalRun(decs[k]) && WellPlaced(s, ms[k]) && '.' !in Group(s, ms[k])
  }

  lemma DecimalsFitCons(s: string, m: Match, ms: seq<Match>, d: string, decs: seq<string>)
    requires WellPlaced(s, m) && DecimalsFit(s, ms, decs)
    requires d != "" ==> IsDecimalRun(d) && '.' !in Group(s, m)
    ensures DecimalsFit(s, [m] + ms, [d] + decs)
  {
    assert forall k :: 1 <= k < |[m] + ms| ==> ([m] + ms)[k] == ms[k - 1];
    assert forall k :: 1 <= k < |[d] + decs| ==> ([d] + decs)[k] == decs[k - 1];
  }

  /** The continuations taken by the whole scan fit their matches. */
  lemma {:induction false} AnnotateDecimals(s: string, from: nat, rest: seq<Node>, cache: Option<Json>, currency: string)
    requires from <= |s|
    ensures DecimalsFit(s, ScanFrom(s, from), AnnotateFrom(s, from, rest, cache, currency).decs)
    decreases |s| - from
  {
    if Exec(s, from).Some? {
      var m := Exec(s, from).value;
      MatchAtPlaced(s, m.start);
      assert ScanFrom(s, from) == [m] + ScanFrom(s, m.end);
      var st := StitchFor(Group(s, m), rest);
      var tail := AnnotateFrom(s, m.end, st.rest, cache, currency);
      assert AnnotateFrom(s, from, rest, cache, currency).decs == [st.dec] + tail.decs;
      AnnotateDecimals(s, m.end, st.rest, cache, currency);
      DecimalsFitCons(s, m, ScanFrom(s, m.end), st.dec, tail.decs);
    }
  }

  /**
   * `out` is `rest` after the lookahead: untouched, or its first `k` nodes
   * (`k` at most `n`) replaced by a single text node or by nothing.
   */
  predicate SiblingsKept(rest: seq<Node>, out: seq<Node>, n: nat) {
    out == rest || exists k :: 1 <= k <= n && KeptAfter(rest, out, k)
  }

  /** `out` is `rest` with its first `k` nodes replaced by one text node or by nothing. */
  predicate KeptAfter(rest: seq<Node>, out: seq<Node>, k: nat) {
    1 <= k <= |rest| && (out == rest[k..] || (out != [] && out[0].Text? && out[1..] == rest[k..]))
  }

  /** Replacing the first sibling by at most one text node, before a lookahead that kept its siblings. */
  lemma SiblingsKeptShift(rest: seq<Node>, lo: seq<Node>, out: seq<Node>, n: nat)
    requires rest != [] && (lo == [] || (|lo| == 1 && lo[0].Text?))
    requires SiblingsKept(lo + rest[1..], out, n)
    ensures SiblingsKept(rest, out, n + 1)
  {
    var mid := lo + rest[1..];
    if out == mid {
      assert mid[|lo|..] == rest[1..];
      assert KeptAfter(rest, out, 1);
    } else {
      var k: nat :| 1 <= k <= n && KeptAfter(mid, out, k);
      var k' := k + 1 - |lo|;
      assert mid[k..] == rest[k'..];
      assert KeptAfter(rest, out, k');
    }
  }

  /** One more stitch before a lookahead that kept its siblings keeps them too. */
  lemma SiblingsKeptStitch(g: string, rest: seq<Node>, out: seq<Node>, n: nat)
    requires SiblingsKept(StitchFor(g, rest).rest, out, n)
    ensures SiblingsKept(rest, out, n + 1)
  {
    var st := StitchFor(g, rest);
    StitchSpec(rest);
    if st.dec == "" {
      if out != rest {
        var k: nat :| 1 <= k <= n && KeptAfter(rest, out, k);
        assert k <= n + 1;
      }
    } else {
      assert st == Stitch(rest);
      var w, rem :| AllSpaces(w) && TextContent(rest[0]) == w + st.dec + rem && st.rest == Leftover(rem) + rest[1..];
      SiblingsKeptShift(rest, Leftover(rem), out, n);
    }
  }

  /**
   * Of the siblings after the text node, the lookahead replaces or removes
   * at most one per match, from the first on; those after them are
   * untouched.
   */
  lemma {:induction false} AnnotateSiblings(s: string, from: nat, rest: seq<Node>, cache: Option<Json>, currency: string)
    requires from <= |s|
    ensures var p := AnnotateFrom(s, from, rest, cache, currency); SiblingsKept(rest, p.rest, |p.decs|)
    decreases |s| - from
  {
    if Exec(s, from).Some? {
      var m := Exec(s, from).value;
      MatchAtPlaced(s, m.start);
      var st := StitchFor(Group(s, m), rest);
      var tail := AnnotateFrom(s, m.end, st.rest, cache, currency);
      var p := AnnotateFrom(s, from, rest, cache, currency);
      assert p.rest == tail.rest && |p.decs| == 1 + |tail.decs|;
      AnnotateSiblings(s, m.end, st.rest, cache, currency);
      SiblingsKeptStitch(Group(s, m), rest, tail.rest, |tail.decs|);
    }
  }

  /** The conversion spans among a sequence of nodes, in order. */
  function Conversions(ns: seq<Node>): (r: seq<Node>)
    ensures forall k :: 0 <= k < |r| ==> IsConvSpan(r[k])
    ensures |r| <= |ns|
  {
    if ns == [] then [] else (if IsConvSpan(ns[0]) then [ns[0]] else []) + Conversions(ns[1..])
  }

  /** One conversion per match, for the match's group and continuation. */
  function ConversionsFor(s: string, ms: seq<Match>, decs: seq<string>, cache: Option<Json>, currency: string): seq<Node>
    requires |ms| == |decs| && forall k :: 0 <= k < |ms| ==> WellPlaced(s, ms[k])
  {
    if ms == [] then []
    else
      assert WellPlaced(s, ms[0]);
      ConvFor(Group(s, ms[0]), decs[0], cache, currency) + ConversionsFor(s, ms[1..], decs[1..], cache, currency)
  }

  lemma {:induction false} ConversionsAppend(a: seq<Node>, b: seq<Node>)
    ensures Conversions(a + b) == Conversions(a) + Conversions(b)
    decreases |a|
  {
    if a == [] {
      assert a + b == b;
    } else {
      assert (a + b)[1..] == a[1..] + b;
      ConversionsAppend(a[1..], b);
    }
  }

  /** The conversion spans of one match's piece are the ones made for it. */
  lemma MatchPieceConversions(s: string, from: nat, m: Match, dec: string, conv: seq<Node>)
    requires from <= m.start < m.end <= |s|
    requires conv == [] || (|conv| == 1 && IsConvSpan(conv[0]))
    ensures Conversions(MatchPiece(s, from, m, dec, conv)) == conv
  {
    var gap: seq<Node> := if from < m.start then [Text(s[from..m.start])] else [];
    var price := PriceSpan(s[m.start..m.end], dec);
    ConversionsAppend(gap + [price], conv);
    ConversionsAppend(gap, [price]);
    assert Conversions([price]) == [] + Conversions([]);
    assert Conversions(gap) == [] by {
      if from < m.start {
        assert Conversions(gap) == [] + Conversions([]);
      }
    }
    if conv != [] {
      assert Conversions(conv) == [conv[0]] + Conversions([]);
    }
  }

  /**
   * The fragment holds exactly one conversion per match, in match order: the
   * span for the match's group and its continuation, when a rate is cached
   * and the amount parses.
   */
  lemma {:induction false} AnnotateConversions(s: string, from: nat, rest: seq<Node>, cache: Option<Json>, currency: string)
    requires from <= |s|
    ensures |AnnotateFrom(s, from, rest, cache, currency).decs| == |ScanFrom(s, from)|
    ensures var p := AnnotateFrom(s, from, rest, cache, currency);
      Conversions(p.frag) == ConversionsFor(s, ScanFrom(s, from), p.decs, cache, currency)
    decreases |s| - from
  {
    var p := AnnotateFrom(s, from, rest, cache, currency);
    AnnotateKeepsText(s, from, rest, cache, currency);
    if Exec(s, from).None? {
      if from < |s| {
        assert Conversions(p.frag) == [] + Conversions([]);
      }
    } else {
      var m := Exec(s, from).value;
      MatchAtPlaced(s, m.start);
      var ms := ScanFrom(s, from);
      assert ms == [m] + ScanFrom(s, m.end);
      var g := Group(s, m);
      var st := StitchFor(g, rest);
      var conv := ConvFor(g, st.dec, cache, currency);
      var piece := MatchPiece(s, from, m, st.dec, conv);
      var tail := AnnotateFrom(s, m.end, st.rest, cache, currency);
      assert p == Pieces(piece + tail.frag, tail.rest, [st.dec] + tail.decs);
      AnnotateConversions(s, m.end, st.rest, cache, currency);
      ConversionsAppend(piece, tail.frag);
      MatchPieceConversions(s, from, m, st.dec, conv);
      assert ms[1..] == ScanFrom(s, m.end) && p.decs[1..] == tail.decs;
    }
  }

  /** Without a rate for the currency, no conversion is made. */
  lemma {:induction false} NoRateNoConversions(s: string, ms: seq<Match>, decs: seq<string>, cache: Option<Json>, currency: string)
    requires |ms| == |decs| && forall k :: 0 <= k < |ms| ==> WellPlaced(s, ms[k])
    requires RateOf(cache, currency).None?
    ensures ConversionsFor(s, ms, decs, cache, currency) == []
    decreases |ms|
  {
    if ms != [] {
      NoRateNoConversions(s, ms[1..], decs[1..], cache, currency);
    }
  }

  /** A group of commas alone, such as `¥,,`, gets a price span but never a conversion. */
  lemma CommaGroupNoConversion(g: string, cache: Option<Json>, currency: string)
    requires forall k :: 0 <= k < |g| ==> g[k] == ','
    ensures ConvFor(g, "", cache, currency) == []
  {
    RemoveCommasOfAmountChars(g);
    ParseGroupAlone(g);
  }

  /** The text nodes of a fragment: none is empty and none holds a price. */
  predicate QuietTexts(ns: seq<Node>) {
    forall k :: 0 <= k < |ns| && ns[k].Text? ==> ns[k].value != "" && Exec(ns[k].value, 0).None?
  }

  lemma QuietTextsAppend(a: seq<Node>, b: seq<Node>)
    requires QuietTexts(a) && QuietTexts(b)
    ensures QuietTexts(a + b)
  {
    assert forall k :: |a| <= k < |a + b| ==> (a + b)[k] == b[k - |a|];
  }

  /** The gap before a match holds no match of its own. */
  lemma MatchPieceQuiet(s: string, from: nat, m: Match, dec: string, conv: seq<Node>)
    requires from <= m.start < m.end <= |s|
    requires forall q :: from <= q < m.start ==> MatchAt(s, q).None?
    requires conv == [] || (|conv| == 1 && IsConvSpan(conv[0]))
    ensures QuietTexts(MatchPiece(s, from, m, dec, conv))
  {
    PieceWithoutStartsHasNoMatch(s, from, m.start);
  }

  /**
   * The text nodes of the fragment are the gaps between matches and the
   * text after the last one: none of them is empty, and none holds a price,
   * so handing one back to the annotator changes nothing.
   */
  lemma {:induction false} AnnotateQuiet(s: string, from: nat, rest: seq<Node>, cache: Option<Json>, currency: string)
    requires from <= |s|
    ensures QuietTexts(AnnotateFrom(s, from, rest, cache, currency).frag)
    decreases |s| - from
  {
    var p := AnnotateFrom(s, from, rest, cache, currency);
    if Exec(s, from).None? {
      PieceWithoutStartsHasNoMatch(s, from, |s|);
      assert s[from..|s|] == s[from..];
    } else {
      var m := Exec(s, from).value;
      MatchAtPlaced(s, m.start);
      var g := Group(s, m);
      var st := StitchFor(g, rest);
      var conv := ConvFor(g, st.dec, cache, currency);
      var piece := MatchPiece(s, from, m, st.dec, conv);
      var tail := AnnotateFrom(s, m.end, st.rest, cache, currency);
      assert p.frag == piece + tail.frag;
      AnnotateQuiet(s, m.end, st.rest, cache, currency);
      MatchPieceQuiet(s, from, m, st.dec, conv);
      QuietTextsAppend(piece, tail.frag);
    }
  }

  /**
   * The amount a conversion span records reads back, through `parseFloat`,
   * as the amount it was made from, so a later re-rendering converts the
   * same value.
   */
  lemma ConvSpanRecordsAmount(v: Decimal, rate: Decimal, currency: string)
    ensures var n := ConvSpanNode(v, rate, currency);
      n.attrs[OriginalAttr] != "" && ParseFloat(n.attrs[OriginalAttr]) == Some(Canon(v))
  {
    NumberToStringRoundTrip(v);
  }

  // ---------------------------------------------------------------------------
  // Replacing the text node (Content.js:121-123, 206-218).

  /**
   * `convertTextNode` acts on the text node at `q`: it has a parent, its
   * text is not empty, it is not inside `script`, `style` or `noscript`, and
   * its text holds at least one price.
   */
  predicate Convertible(doc: Node, q: Path) {
    q != [] && At(doc, q).Some? && At(doc, q).value.Text? && At(doc, q).value.value != ""
    && !NonContentAlong(doc, Parent(q)) && Exec(At(doc, q).value.value, 0).Some?
  }

  /** `textNode.parentNode`: the element holding the text node at `q`. */
  function ParentNode(doc: Node, q: Path): (par: Node)
    requires q != [] && At(doc, q).Some?
    ensures At(doc, Parent(q)) == Some(par) && par.Elem?
    ensures q[|q| - 1] < |par.children| && par.children[q[|q| - 1]] == At(doc, q).value
  {
    AtParent(doc, q);
    At(doc, Parent(q)).value
  }

  /** The fragment for the text node at `q` and its siblings after the lookahead. */
  function Annotation(doc: Node, q: Path, cache: Option<Json>, currency: string): Pieces
    requires Convertible(doc, q)
  {
    AnnotateFrom(At(doc, q).value.value, 0, ParentNode(doc, q).children[q[|q| - 1] + 1..], cache, currency)
  }

  /**
   * The document after `convertTextNode` on the text node at `q`: the
   * parent's children from the text node on become the fragment followed by
   * the siblings as the lookahead left them, and the parent is marked
   * processed. Nothing happens when the node is not convertible.
   */
  function ConvertAt(doc: Node, q: Path, cache: Option<Json>, currency: string): (r: Node)
    ensures !Convertible(doc, q) ==> r == doc
  {
    if !Convertible(doc, q) then doc else Rebuilt(doc, q, Annotation(doc, q, cache, currency))
  }

  /**
   * The parent of the node at `q` with that node and the siblings after it
   * replaced by `p.frag` and `p.rest`, and marked processed.
   */
  function Rebuilt(doc: Node, q: Path, p: Pieces): Node
    requires q != [] && At(doc, q).Some?
  {
    var par := ParentNode(doc, q);
    Put(doc, Parent(q), Mark(Elem(par.tag, par.attrs, par.children[..q[|q| - 1]] + p.frag + p.rest)))
  }

  /**
   * Once the guards pass, the node is converted exactly when the pattern
   * matches its text, and then the parent is rebuilt from the fragment.
   */
  lemma ConvertAtBuilt(doc: Node, q: Path, cache: Option<Json>, currency: string,
                        s: string, siblings: seq<Node>, p: Pieces)
    requires q != [] && At(doc, q) == Some(Text(s)) && s != ""
    requires !NonContentAlong(doc, Parent(q))
    requires siblings == ParentNode(doc, q).children[q[|q| - 1] + 1..]
    requires p == AnnotateFrom(s, 0, siblings, cache, currency)
    ensures Exec(s, 0).None? ==> ConvertAt(doc, q, cache, currency) == doc
    ensures Exec(s, 0).Some? ==> ConvertAt(doc, q, cache, currency) == Rebuilt(doc, q, p)
  {
  }

  lemma RebuiltParent(doc: Node, q: Path, p: Pieces)
    requires q != [] && At(doc, q).Some?
    ensures var par := ParentNode(doc, q);
      var r := Rebuilt(doc, q, p);
      At(r, Parent(q)).Some? && At(r, Parent(q)).value.Elem?
      && At(r, Parent(q)).value.tag == par.tag
      && At(r, Parent(q)).value.attrs == par.attrs[ProcessedAttr := "1"]
      && At(r, Parent(q)).value.children == par.children[..q[|q| - 1]] + p.frag + p.rest
    ensures MarkedAlong(Rebuilt(doc, q, p), Parent(q))
  {
    var par := ParentNode(doc, q);
    PutAt(doc, Parent(q), Mark(Elem(par.tag, par.attrs, par.children[..q[|q| - 1]] + p.frag + p.rest)));
    AlongAt(Rebuilt(doc, q, p), Parent(q), Processed);
  }

  lemma RebuiltChild(doc: Node, q: Path, p: Pieces, k: nat)
    requires q != [] && At(doc, q).Some?
    requires q[|q| - 1] <= k < q[|q| - 1] + |p.frag|
    ensures At(Rebuilt(doc, q, p), Parent(q) + [k]) == Some(p.frag[k - q[|q| - 1]])
  {
    var i := q[|q| - 1];
    var par := ParentNode(doc, q);
    RebuiltParent(doc, q, p);
    var kids := par.children[..i] + p.frag + p.rest;
    assert kids[k] == p.frag[k - i];
    AtChild(Rebuilt(doc, q, p), Parent(q), k);
  }

  lemma RebuiltFrame(doc: Node, q: Path, p: Pieces, t: Path)
    requires q != [] && At(doc, q).Some?
    requires !(Parent(q) <= t) && !(t <= Parent(q))
    ensures At(Rebuilt(doc, q, p), t) == At(doc, t)
  {
    var par := ParentNode(doc, q);
    PutElsewhere(doc, Parent(q), Mark(Elem(par.tag, par.attrs, par.children[..q[|q| - 1]] + p.frag + p.rest)), t);
  }

  lemma RebuiltAbove(doc: Node, q: Path, p: Pieces, t: Path)
    requires q != [] && At(doc, q).Some? && t < Parent(q)
    ensures At(doc, t).Some? && At(doc, t).value.Elem?
    ensures At(Rebuilt(doc, q, p), t).Some? && At(Rebuilt(doc, q, p), t).value.Elem?
    ensures At(Rebuilt(doc, q, p), t).value.tag == At(doc, t).value.tag
    ensures At(Rebuilt(doc, q, p), t).value.attrs == At(doc, t).value.attrs
  {
    var par := ParentNode(doc, q);
    PutAncestor(doc, Parent(q), Mark(Elem(par.tag, par.attrs, par.children[..q[|q| - 1]] + p.frag + p.rest)), t);
  }

  lemma RebuiltAlong(doc: Node, q: Path, p: Pieces, t: Path, probe: (string, Attrs) -> bool)
    requires q != [] && At(doc, q).Some? && !(Parent(q) <= t)
    ensures Along(Rebuilt(doc, q, p), t, probe) == Along(doc, t, probe)
  {
    var par := ParentNode(doc, q);
    AlongPut(doc, Parent(q), Mark(Elem(par.tag, par.attrs, par.children[..q[|q| - 1]] + p.frag + p.rest)), t, probe);
  }

  /**
   * After a conversion the parent is still an element with the same tag,
   * now marked processed; its children before the text node are as they
   * were, and the fragment and the remaining siblings follow them.
   */
  lemma ConvertAtParent(doc: Node, q: Path, cache: Option<Json>, currency: string)
    requires Convertible(doc, q)
    ensures var old_ := ParentNode(doc, q);
      var p := Annotation(doc, q, cache, currency);
      var r := ConvertAt(doc, q, cache, currency);
      At(r, Parent(q)).Some? && At(r, Parent(q)).value.Elem?
      && At(r, Parent(q)).value.tag == old_.tag
      && At(r, Parent(q)).value.attrs == old_.attrs[ProcessedAttr := "1"]
      && At(r, Parent(q)).value.children == old_.children[..q[|q| - 1]] + p.frag + p.rest
    ensures MarkedAlong(ConvertAt(doc, q, cache, currency), Parent(q))
  {
    RebuiltParent(doc, q, Annotation(doc, q, cache, currency));
  }

  /** After a conversion the parent is an element inside a processed container. */
  lemma ConvertAtMarked(doc: Node, q: Path, cache: Option<Json>, currency: string)
    requires Convertible(doc, q)
    ensures At(ConvertAt(doc, q, cache, currency), Parent(q)).Some?
    ensures At(ConvertAt(doc, q, cache, currency), Parent(q)).value.Elem?
    ensures MarkedAlong(ConvertAt(doc, q, cache, currency), Parent(q))
  {
    RebuiltParent(doc, q, Annotation(doc, q, cache, currency));
  }

  /** The fragment's nodes stand in the parent from the text node's old index on. */
  lemma ConvertAtChild(doc: Node, q: Path, cache: Option<Json>, currency: string, k: nat)
    requires Convertible(doc, q)
    requires q[|q| - 1] <= k < q[|q| - 1] + |Annotation(doc, q, cache, currency).frag|
    ensures At(ConvertAt(doc, q, cache, currency), Parent(q) + [k])
            == Some(Annotation(doc, q, cache, currency).frag[k - q[|q| - 1]])
  {
    RebuiltChild(doc, q, Annotation(doc, q, cache, currency), k);
  }

  /** The fragment's text nodes hold no price. */
  lemma AnnotationQuiet(doc: Node, q: Path, cache: Option<Json>, currency: string)
    requires Convertible(doc, q)
    ensures QuietTexts(Annotation(doc, q, cache, currency).frag)
  {
    AnnotateQuiet(At(doc, q).value.value, 0, ParentNode(doc, q).children[q[|q| - 1] + 1..], cache, currency);
  }

  /** Nodes that are neither the parent, below it, nor above it are untouched by a conversion. */
  lemma ConvertAtFrame(doc: Node, q: Path, cache: Option<Json>, currency: string, t: Path)
    requires Convertible(doc, q)
    requires !(Parent(q) <= t) && !(t <= Parent(q))
    ensures At(ConvertAt(doc, q, cache, currency), t) == At(doc, t)
  {
    RebuiltFrame(doc, q, Annotation(doc, q, cache, currency), t);
  }

  /** The parent's ancestors stay elements with their tags and attributes. */
  lemma ConvertAtAbove(doc: Node, q: Path, cache: Option<Json>, currency: string, t: Path)
    requires Convertible(doc, q) && t < Parent(q)
    ensures At(doc, t).Some? && At(doc, t).value.Elem?
    ensures At(ConvertAt(doc, q, cache, currency), t).Some? && At(ConvertAt(doc, q, cache, currency), t).value.Elem?
    ensures At(ConvertAt(doc, q, cache, currency), t).value.tag == At(doc, t).value.tag
    ensures At(ConvertAt(doc, q, cache, currency), t).value.attrs == At(doc, t).value.attrs
  {
    RebuiltAbove(doc, q, Annotation(doc, q, cache, currency), t);
  }

  /** `closest` asked at a node that is not the parent or below it answers as before. */
  lemma ConvertAtAlong(doc: Node, q: Path, cache: Option<Json>, currency: string, t: Path, probe: (string, Attrs) -> bool)
    requires Convertible(doc, q) && !(Parent(q) <= t)
    ensures Along(ConvertAt(doc, q, cache, currency), t, probe) == Along(doc, t, probe)
  {
    RebuiltAlong(doc, q, Annotation(doc, q, cache, currency), t, probe);
  }

  /**
   * A conversion removes no processed marker: the parent is rebuilt as a
   * processed element, and nothing else changes (Content.js:217, 236-238).
   */
  lemma ConvertAtKeepsMarks(doc: Node, q: Path, cache: Option<Json>, currency: string, t: Path)
    ensures MarkedAlong(doc, t) ==> MarkedAlong(ConvertAt(doc, q, cache, currency), t)
    ensures MarkedOutsideSpans(doc, t) ==> MarkedOutsideSpans(ConvertAt(doc, q, cache, currency), t)
  {
    if Convertible(doc, q) {
      var par := ParentNode(doc, q);
      var p := Annotation(doc, q, cache, currency);
      PutKeepsMarks(doc, Parent(q), Mark(Elem(par.tag, par.attrs, par.children[..q[|q| - 1]] + p.frag + p.rest)), t);
    }
  }
}
