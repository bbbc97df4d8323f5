/**
 * `updateAllConvertedSpans` (Content.js:240-256): every conversion span in
 * the document, in document order, is re-rendered from the amount it
 * recorded, at the cached rate for the current currency.
 *
 * The list holds paths where the source holds node references. Rewriting a
 * span replaces only that span's children, so a listed path goes stale only
 * below a span already rewritten; it then leads to the span's new text node
 * or nowhere, and the visit leaves it alone (the source would update a
 * detached node, which the page no longer shows).
 */
module Sync {
  import opened Wrappers
  import opened Numbers
  import opened Rates
  import opened Dom
  import opened Annotate

  /** `parseFloat(getAttribute('data-cny-original'))`, when the attribute is present and not empty. */
  function RecordedAmount(n: Node): (r: Option<Decimal>)
    requires n.Elem?
    ensures r.Some? ==> OriginalAttr in n.attrs && n.attrs[OriginalAttr] != ""
  {
    if OriginalAttr in n.attrs && n.attrs[OriginalAttr] != "" then ParseFloat(n.attrs[OriginalAttr]) else None
  }

  /** A conversion span the loop rewrites: its amount parses and the cache has a number for the currency. */
  predicate Eligible(n: Node, cache: Option<Json>, currency: string) {
    IsConvSpan(n) && RecordedAmount(n).Some? && RateOf(cache, currency).Some?
  }

  /** The rewritten span: the converted label as its only child, and the currency recorded. */
  function SyncSpan(n: Node, cache: Option<Json>, currency: string): (r: Node)
    requires Eligible(n, cache, currency)
    ensures r.Elem? && r.tag == n.tag && r.attrs == n.attrs[CurrencyAttr := currency]
    ensures r.children == [Text(ConvLabel(RecordedAmount(n).value, RateOf(cache, currency).value, currency))]
  {
    Elem(n.tag, n.attrs[CurrencyAttr := currency],
         [Text(ConvLabel(RecordedAmount(n).value, RateOf(cache, currency).value, currency))])
  }

  /** One round of the loop, at the listed path `p`. */
  function SyncVisit(doc: Node, p: Path, cache: Option<Json>, currency: string): Node {
    if At(doc, p).Some? && Eligible(At(doc, p).value, cache, currency)
    then Put(doc, p, SyncSpan(At(doc, p).value, cache, currency))
    else doc
  }

  /** A visit at a span whose amount parses, with a rate known, relabels and re-tags it. */
  lemma SyncVisitRewrites(doc: Node, p: Path, cache: Option<Json>, currency: string, amount: Decimal, rate: Decimal)
    requires At(doc, p).Some? && IsConvSpan(At(doc, p).value)
    requires OriginalAttr in At(doc, p).value.attrs && At(doc, p).value.attrs[OriginalAttr] != ""
    requires ParseFloat(At(doc, p).value.attrs[OriginalAttr]) == Some(amount)
    requires RateOf(cache, currency) == Some(rate)
    ensures var n := At(doc, p).value;
      SyncVisit(doc, p, cache, currency)
      == Put(doc, p, Elem(n.tag, n.attrs[CurrencyAttr := currency], [Text(ConvLabel(amount, rate, currency))]))
  {
  }

  /** A visit anywhere but at an eligible span changes nothing. */
  lemma SyncVisitSkips(doc: Node, p: Path, cache: Option<Json>, currency: string)
    requires At(doc, p).None? || !IsConvSpan(At(doc, p).value)
             || OriginalAttr !in At(doc, p).value.attrs || At(doc, p).value.attrs[OriginalAttr] == ""
             || ParseFloat(At(doc, p).value.attrs[OriginalAttr]).None?
             || RateOf(cache, currency).None?
    ensures SyncVisit(doc, p, cache, currency) == doc
  {
  }

  function SyncSteps(doc: Node, ps: seq<Path>, cache: Option<Json>, currency: string): Node
    decreases |ps|
  {
    if ps == [] then doc else SyncSteps(SyncVisit(doc, ps[0], cache, currency), ps[1..], cache, currency)
  }

  /** `updateAllConvertedSpans()`: nothing without a cached table, else the loop over `[data-cny-usd]`. */
  function SyncDoc(doc: Node, cache: Option<Json>, currency: string): Node {
    if cache.None? then doc else SyncSteps(doc, Select(doc, IsConvSpan), cache, currency)
  }

  // ---------------------------------------------------------------------------
  // The same result, described on the tree.

  /** Every eligible span rewritten; below it nothing else, elsewhere the children in turn. */
  function SyncTree(n: Node, cache: Option<Json>, currency: string): Node
    decreases n, 1
  {
    if Eligible(n, cache, currency) then SyncSpan(n, cache, currency)
    else if n.Elem? then Elem(n.tag, n.attrs, SyncKids(n, cache, currency))
    else n
  }

  /** The children of an element that is not rewritten, each re-synced. */
  function SyncKids(n: Node, cache: Option<Json>, currency: string): (r: seq<Node>)
    requires n.Elem?
    ensures |r| == |n.children|
    ensures forall k :: 0 <= k < |r| ==> r[k] == SyncTree(n.children[k], cache, currency)
    decreases n, 0
  {
    seq(|n.children|, k requires 0 <= k < |n.children| => SyncTree(n.children[k], cache, currency))
  }

  lemma {:induction false} SyncStepsAppend(doc: Node, a: seq<Path>, b: seq<Path>, cache: Option<Json>, currency: string)
    ensures SyncSteps(doc, a + b, cache, currency) == SyncSteps(SyncSteps(doc, a, cache, currency), b, cache, currency)
    decreases |a|
  {
    if a == [] {
      assert a + b == b;
    } else {
      assert (a + b)[1..] == a[1..] + b;
      SyncStepsAppend(SyncVisit(doc, a[0], cache, currency), a[1..], b, cache, currency);
    }
  }

  /** Below a rewritten span there is only its text node, which no visit touches. */
  lemma {:induction false} SyncBelowRewritten(doc: Node, pre: Path, ps: seq<Path>, cache: Option<Json>, currency: string)
    requires At(doc, pre).Some? && At(doc, pre).value.Elem?
    requires |At(doc, pre).value.children| == 1 && At(doc, pre).value.children[0].Text?
    requires forall k :: 0 <= k < |ps| ==> ps[k] != []
    ensures SyncSteps(doc, Prefixed(pre, ps), cache, currency) == doc
    decreases |ps|
  {
    var qs := Prefixed(pre, ps);
    if ps != [] {
      var u := ps[0];
      AtAppend(doc, pre, u);
      assert At(doc, qs[0]) == At(At(doc, pre).value, u);
      if u[0] == 0 {
        AtAppend(At(doc, pre).value, [0], u[1..]);
        assert [0] + u[1..] == u;
      }
      assert SyncVisit(doc, qs[0], cache, currency) == doc;
      assert qs[1..] == Prefixed(pre, ps[1..]);
      SyncBelowRewritten(doc, pre, ps[1..], cache, currency);
    }
  }

  /**
   * The loop over the spans listed below the node at `pre` does what
   * `SyncTree` does to that node.
   */
  lemma {:induction false} SyncStepsTree(doc: Node, pre: Path, cache: Option<Json>, currency: string)
    requires At(doc, pre).Some?
    ensures var n := At(doc, pre).value;
      SyncSteps(doc, Prefixed(pre, Select(n, IsConvSpan)), cache, currency) == Put(doc, pre, SyncTree(n, cache, currency))
    decreases At(doc, pre).value, 1
  {
    var n := At(doc, pre).value;
    var sel := Select(n, IsConvSpan);
    if n.Text? {
      assert sel == [];
      PutSame(doc, pre, n);
    } else if Eligible(n, cache, currency) {
      SyncStepsAtSpan(doc, pre, cache, currency);
    } else {
      var from := SelectFrom(n, 0, IsConvSpan);
      var head: seq<Path> := if IsConvSpan(n) then [[]] else [];
      assert sel == head + from;
      PrefixedAppend(pre, head, from);
      SyncStepsAppend(doc, Prefixed(pre, head), Prefixed(pre, from), cache, currency);
      var d1 := SyncSteps(doc, Prefixed(pre, head), cache, currency);
      assert d1 == doc by {
        if IsConvSpan(n) {
          assert Prefixed(pre, head) == [pre + []] && pre + [] == pre;
        }
      }
      SyncStepsFromTree(doc, pre, n, n, 0, cache, currency);
      assert n.children[..0] + SyncKids(n, cache, currency)[0..] == SyncKids(n, cache, currency);
    }
  }

  /** At an eligible span the loop rewrites the span and then finds nothing more below it. */
  lemma SyncStepsAtSpan(doc: Node, pre: Path, cache: Option<Json>, currency: string)
    requires At(doc, pre).Some? && Eligible(At(doc, pre).value, cache, currency)
    ensures var n := At(doc, pre).value;
      SyncSteps(doc, Prefixed(pre, Select(n, IsConvSpan)), cache, currency) == Put(doc, pre, SyncSpan(n, cache, currency))
  {
    var n := At(doc, pre).value;
    var from := SelectFrom(n, 0, IsConvSpan);
    var head: seq<Path> := [[]];
    assert Select(n, IsConvSpan) == head + from;
    PrefixedAppend(pre, head, from);
    SyncStepsAppend(doc, Prefixed(pre, head), Prefixed(pre, from), cache, currency);
    assert Prefixed(pre, head) == [pre + []] && pre + [] == pre;
    var s := SyncSpan(n, cache, currency);
    var d1 := Put(doc, pre, s);
    assert SyncSteps(doc, Prefixed(pre, head), cache, currency) == d1;
    PutAt(doc, pre, s);
    SelectFromSound(n, 0, IsConvSpan);
    assert forall k :: 0 <= k < |from| ==> from[k] in from;
    SyncBelowRewritten(d1, pre, from, cache, currency);
  }

  /**
   * With the children before `i` already done, the loop over the spans
   * listed below children `i..` completes the node's children.
   */
  lemma {:induction false} SyncStepsFromTree(doc: Node, pre: Path, n: Node, m: Node, i: nat, cache: Option<Json>, currency: string)
    requires n.Elem? && i <= |n.children|
    requires At(doc, pre) == Some(m) && m.Elem? && |m.children| == |n.children|
    requires m.children[i..] == n.children[i..]
    ensures SyncSteps(doc, Prefixed(pre, SelectFrom(n, i, IsConvSpan)), cache, currency)
            == Put(doc, pre, m.(children := m.children[..i] + SyncKids(n, cache, currency)[i..]))
    decreases n, 0, |n.children| - i
  {
    if i == |n.children| {
      assert SyncKids(n, cache, currency)[i..] == [];
      assert m.(children := m.children[..i] + []) == m;
      PutSame(doc, pre, m);
    } else {
      var c := n.children[i];
      var a := Prefixed(pre + [i], Select(c, IsConvSpan));
      var b := Prefixed(pre, SelectFrom(n, i + 1, IsConvSpan));
      var t := SyncTree(c, cache, currency);
      var m1 := m.(children := m.children[i := t]);
      var m2 := m1.(children := m1.children[..i + 1] + SyncKids(n, cache, currency)[i + 1..]);
      ReplaceChild(doc, pre, n, m, i, t);
      calc {
        SyncSteps(doc, Prefixed(pre, SelectFrom(n, i, IsConvSpan)), cache, currency);
        { SelectFromSplit(pre, n, i, IsConvSpan); }
        SyncSteps(doc, a + b, cache, currency);
        { SyncStepsAppend(doc, a, b, cache, currency); }
        SyncSteps(SyncSteps(doc, a, cache, currency), b, cache, currency);
        { SyncStepsTree(doc, pre + [i], cache, currency); }
        SyncSteps(Put(doc, pre, m1), b, cache, currency);
        { SyncStepsFromTree(Put(doc, pre, m1), pre, n, m1, i + 1, cache, currency); }
        Put(Put(doc, pre, m1), pre, m2);
        { PutTwice(doc, pre, m1, m2); }
        Put(doc, pre, m2);
        { SyncKidsStep(n, m, i, cache, currency); }
        Put(doc, pre, m.(children := m.children[..i] + SyncKids(n, cache, currency)[i..]));
      }
    }
  }

  /** The spans listed below child `i` come first, then those below the children after it. */
  lemma SelectFromSplit(pre: Path, n: Node, i: nat, keep: Node -> bool)
    requires n.Elem? && i < |n.children|
    ensures Prefixed(pre, SelectFrom(n, i, keep))
            == Prefixed(pre + [i], Select(n.children[i], keep)) + Prefixed(pre, SelectFrom(n, i + 1, keep))
  {
    var a := Prefixed([i], Select(n.children[i], keep));
    var b := SelectFrom(n, i + 1, keep);
    assert SelectFrom(n, i, keep) == a + b;
    PrefixedAppend(pre, a, b);
    PrefixedPrefixed(pre, i, Select(n.children[i], keep));
  }

  /**
   * In a node `m` that agrees with `n` from child `i` on, child `i` is `n`'s,
   * and replacing it is replacing `m` by `m` with that child replaced.
   */
  lemma ReplaceChild(doc: Node, pre: Path, n: Node, m: Node, i: nat, t: Node)
    requires n.Elem? && i < |n.children|
    requires At(doc, pre) == Some(m) && m.Elem? && |m.children| == |n.children|
    requires m.children[i..] == n.children[i..]
    ensures At(doc, pre + [i]) == Some(n.children[i])
    ensures var m1 := m.(children := m.children[i := t]);
      Put(doc, pre + [i], t) == Put(doc, pre, m1) && At(Put(doc, pre, m1), pre) == Some(m1)
      && m1.children[i + 1..] == n.children[i + 1..]
  {
    assert m.children[i] == n.children[i] by {
      assert m.children[i..][0] == n.children[i..][0];
    }
    AtChild(doc, pre, i);
    var m1 := m.(children := m.children[i := t]);
    PutChild(doc, pre, i, t);
    PutAt(doc, pre, m1);
    assert m1.children[i + 1..] == m.children[i..][1..];
  }

  /** Doing child `i` and then the rest is doing children `i..`. */
  lemma SyncKidsStep(n: Node, m: Node, i: nat, cache: Option<Json>, currency: string)
    requires n.Elem? && m.Elem? && i < |n.children| && |m.children| == |n.children|
    ensures var m1 := m.(children := m.children[i := SyncTree(n.children[i], cache, currency)]);
      m1.(children := m1.children[..i + 1] + SyncKids(n, cache, currency)[i + 1..])
      == m.(children := m.children[..i] + SyncKids(n, cache, currency)[i..])
  {
    var kids := SyncKids(n, cache, currency);
    assert kids[i] == SyncTree(n.children[i], cache, currency);
    Splice(m.children, kids, i);
  }

  /** Setting element `i` from `ys` and then taking `ys` after it is taking `ys` from `i` on. */
  lemma Splice<T>(xs: seq<T>, ys: seq<T>, i: nat)
    requires i < |xs| && i < |ys|
    ensures xs[i := ys[i]][..i + 1] + ys[i + 1..] == xs[..i] + ys[i..]
  {
    assert ys[i..] == [ys[i]] + ys[i + 1..];
    assert xs[i := ys[i]][..i + 1] == xs[..i] + [ys[i]];
  }

  /** `updateAllConvertedSpans` rewrites the document exactly as `SyncTree` describes. */
  lemma SyncDocTree(doc: Node, cache: Option<Json>, currency: string)
    ensures SyncDoc(doc, cache, currency) == SyncTree(doc, cache, currency)
  {
    if cache.None? {
      SyncTreeNoRate(doc, cache, currency);
    } else {
      SyncStepsTree(doc, [], cache, currency);
      var sel := Select(doc, IsConvSpan);
      assert forall k :: 0 <= k < |sel| ==> [] + sel[k] == sel[k];
      assert Prefixed([], sel) == sel;
    }
  }

  // ---------------------------------------------------------------------------
  // What the re-sync promises.

  /** Without a number for the currency, nothing changes. */
  lemma {:induction false} SyncTreeNoRate(n: Node, cache: Option<Json>, currency: string)
    requires RateOf(cache, currency).None?
    ensures SyncTree(n, cache, currency) == n
    decreases n
  {
    if n.Elem? {
      var kids := SyncKids(n, cache, currency);
      forall k | 0 <= k < |kids|
        ensures kids[k] == n.children[k]
      {
        assert kids[k] == SyncTree(n.children[k], cache, currency);
        SyncTreeNoRate(n.children[k], cache, currency);
      }
      assert kids == n.children;
    }
  }

  /** Without a number for the current currency, `updateAllConvertedSpans` leaves the page alone. */
  lemma SyncNoRateIdentity(doc: Node, cache: Option<Json>, currency: string)
    requires RateOf(cache, currency).None?
    ensures SyncDoc(doc, cache, currency) == doc
  {
    SyncDocTree(doc, cache, currency);
    SyncTreeNoRate(doc, cache, currency);
  }

  /** A rewritten span is eligible again and is rewritten to itself. */
  lemma SyncSpanStable(n: Node, cache: Option<Json>, currency: string)
    requires Eligible(n, cache, currency)
    ensures Eligible(SyncSpan(n, cache, currency), cache, currency)
    ensures SyncSpan(SyncSpan(n, cache, currency), cache, currency) == SyncSpan(n, cache, currency)
  {
    var s := SyncSpan(n, cache, currency);
    assert s.attrs[OriginalAttr] == n.attrs[OriginalAttr];
    assert RecordedAmount(s) == RecordedAmount(n);
    assert s.attrs[CurrencyAttr := currency] == s.attrs;
  }

  /** Re-syncing twice does no more than re-syncing once. */
  lemma {:induction false} SyncTreeIdempotent(n: Node, cache: Option<Json>, currency: string)
    ensures SyncTree(SyncTree(n, cache, currency), cache, currency) == SyncTree(n, cache, currency)
    decreases n
  {
    if Eligible(n, cache, currency) {
      SyncSpanStable(n, cache, currency);
    } else if n.Elem? {
      var once := SyncTree(n, cache, currency);
      assert !Eligible(once, cache, currency) by {
        assert once.attrs == n.attrs;
      }
      var kids := SyncKids(once, cache, currency);
      forall k | 0 <= k < |kids|
        ensures kids[k] == once.children[k]
      {
        assert once.children[k] == SyncTree(n.children[k], cache, currency);
        assert kids[k] == SyncTree(once.children[k], cache, currency);
        SyncTreeIdempotent(n.children[k], cache, currency);
      }
      assert kids == once.children;
    }
  }

  lemma SyncIdempotent(doc: Node, cache: Option<Json>, currency: string)
    ensures var once := SyncDoc(doc, cache, currency); SyncDoc(once, cache, currency) == once
  {
    SyncDocTree(doc, cache, currency);
    SyncDocTree(SyncDoc(doc, cache, currency), cache, currency);
    SyncTreeIdempotent(doc, cache, currency);
  }

  /**
   * After the re-sync every conversion span with a readable amount shows
   * that amount converted at the current rate, in the current currency.
   */
  lemma {:induction false} SyncTreeRendersAll(n: Node, cache: Option<Json>, currency: string, p: Path)
    requires At(SyncTree(n, cache, currency), p).Some?
    ensures var s := At(SyncTree(n, cache, currency), p).value;
      Eligible(s, cache, currency) ==>
        CurrencyAttr in s.attrs && s.attrs[CurrencyAttr] == currency
        && s.children == [Text(ConvLabel(RecordedAmount(s).value, RateOf(cache, currency).value, currency))]
    decreases n
  {
    var t := SyncTree(n, cache, currency);
    if Eligible(n, cache, currency) {
      RewrittenSpanRenders(n, cache, currency, p);
    } else if n.Elem? {
      assert t == Elem(n.tag, n.attrs, SyncKids(n, cache, currency));
      if p != [] {
        assert At(t, p) == At(SyncTree(n.children[p[0]], cache, currency), p[1..]);
        SyncTreeRendersAll(n.children[p[0]], cache, currency, p[1..]);
      }
    }
  }

  /** Inside a rewritten span only the span itself is eligible, and it shows its label. */
  lemma RewrittenSpanRenders(n: Node, cache: Option<Json>, currency: string, p: Path)
    requires Eligible(n, cache, currency)
    requires At(SyncSpan(n, cache, currency), p).Some?
    ensures var s := At(SyncSpan(n, cache, currency), p).value;
      Eligible(s, cache, currency) ==>
        CurrencyAttr in s.attrs && s.attrs[CurrencyAttr] == currency
        && s.children == [Text(ConvLabel(RecordedAmount(s).value, RateOf(cache, currency).value, currency))]
  {
    var t := SyncSpan(n, cache, currency);
    if p == [] {
      SyncSpanStable(n, cache, currency);
    } else {
      assert At(t, p) == At(t.children[p[0]], p[1..]);
      assert t.children[p[0]].Text?;
    }
  }

  lemma SyncRendersAll(doc: Node, cache: Option<Json>, currency: string, p: Path)
    requires At(SyncDoc(doc, cache, currency), p).Some?
    requires Eligible(At(SyncDoc(doc, cache, currency), p).value, cache, currency)
    ensures var s := At(SyncDoc(doc, cache, currency), p).value;
      CurrencyAttr in s.attrs && s.attrs[CurrencyAttr] == currency
      && s.children == [Text(ConvLabel(RecordedAmount(s).value, RateOf(cache, currency).value, currency))]
  {
    SyncDocTree(doc, cache, currency);
    SyncTreeRendersAll(doc, cache, currency, p);
  }

  /**
   * Re-rendering a span the annotator made gives exactly the span it would
   * make for the same amount at the current rate and currency.
   */
  lemma SyncSpanOfConvSpan(v: Decimal, rate: Decimal, made: string, cache: Option<Json>, currency: string)
    requires RateOf(cache, currency).Some?
    ensures Eligible(ConvSpanNode(v, rate, made), cache, currency)
    ensures SyncSpan(ConvSpanNode(v, rate, made), cache, currency)
            == ConvSpanNode(v, RateOf(cache, currency).value, currency)
  {
    var n := ConvSpanNode(v, rate, made);
    var r := RateOf(cache, currency).value;
    ConvSpanRecorded(v, rate, made);
    LabelOfCanon(v, r, currency);
    ConvSpanRecurrency(v, rate, made, r, currency);
  }

  /** The amount a conversion span records reads back as the amount, in canonical form. */
  lemma ConvSpanRecorded(v: Decimal, rate: Decimal, made: string)
    ensures RecordedAmount(ConvSpanNode(v, rate, made)) == Some(Canon(v))
  {
    NumberToStringRoundTrip(v);
  }

  /** The label does not depend on how the amount is written. */
  lemma LabelOfCanon(v: Decimal, r: Decimal, currency: string)
    ensures ConvLabel(Canon(v), r, currency) == ConvLabel(v, r, currency)
  {
    CentsOfCanon(v, r);
    assert ToFixed2(Mul(Canon(v), r)) == ToFixed2(Mul(v, r));
  }

  /** Recording a new currency in a conversion span gives the attributes of one made for it. */
  lemma ConvSpanRecurrency(v: Decimal, rate: Decimal, made: string, r: Decimal, currency: string)
    ensures ConvSpanNode(v, rate, made).attrs[CurrencyAttr := currency] == ConvSpanNode(v, r, currency).attrs
  {
  }

  /**
   * Re-rendering keeps every processed marker met outside conversion spans:
   * it only adds the currency to a span's attributes and replaces what
   * lies inside the span.
   */
  lemma {:induction false} SyncTreeKeepsMarks(n: Node, cache: Option<Json>, currency: string, t: Path)
    requires MarkedOutsideSpans(n, t)
    ensures MarkedOutsideSpans(SyncTree(n, cache, currency), t)
    decreases t
  {
    if !Processed(n.tag, n.attrs) {
      SyncTreeKeepsMarks(n.children[t[0]], cache, currency, t[1..]);
    }
  }

  /** `updateAllConvertedSpans` clears no marker met outside conversion spans (Content.js:240-256). */
  lemma SyncKeepsMarks(doc: Node, cache: Option<Json>, currency: string, t: Path)
    requires MarkedOutsideSpans(doc, t)
    ensures MarkedOutsideSpans(SyncDoc(doc, cache, currency), t)
    ensures MarkedAlong(SyncDoc(doc, cache, currency), t)
  {
    SyncDocTree(doc, cache, currency);
    SyncTreeKeepsMarks(doc, cache, currency, t);
    MarkedOutsideSpansAlong(SyncDoc(doc, cache, currency), t);
  }
}
