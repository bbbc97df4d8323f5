/**
 * The page the userscript runs on, as an object whose state the handlers
 * update in place: the document below `body`, the cached rate table and the
 * selected currency (Content.js:13-14). Each method does what the handler of
 * the same name does, step by step, and is proved to leave the page as the
 * functions of the other modules describe.
 */
module Engine {
  import opened Wrappers
  import opened PriceScan
  import opened Rates
  import opened Dom
  import opened Annotate
  import opened Walk
  import opened Sync

  /**
   * The `exec` loop of `convertTextNode` with the trailing text
   * (Content.js:126-213): the fragment, the siblings as the lookahead leaves
   * them and the continuation taken per match. `any` says whether the
   * pattern matched at all, which is when the source replaces the node.
   */
  method BuildFragment(s: string, siblings: seq<Node>, cache: Option<Json>, currency: string)
    returns (any: bool, frag: seq<Node>, rest: seq<Node>, decs: seq<string>)
    ensures any <==> Exec(s, 0).Some?
    ensures Pieces(frag, rest, decs) == AnnotateFrom(s, 0, siblings, cache, currency)
  {
    any := false;
    frag, rest, decs := [], siblings, [];
    var lastIndex := 0;
    var found := Exec(s, 0);
    ghost var whole := AnnotateFrom(s, 0, siblings, cache, currency);
    JoinedEmpty(whole);
    while found.Some?
      invariant lastIndex <= |s|
      invariant found == Exec(s, lastIndex)
      invariant any ==> Exec(s, 0).Some?
      invariant !any ==> lastIndex == 0
      invariant Joined(frag, decs, AnnotateFrom(s, lastIndex, rest, cache, currency)) == whole
      decreases |s| - lastIndex
    {
      any := true;
      var m := found.value;
      JoinedMatch(s, lastIndex, rest, cache, currency, frag, decs);
      var g := Group(s, m);
      var st := StitchFor(g, rest);
      frag := frag + MatchPiece(s, lastIndex, m, st.dec, ConvFor(g, st.dec, cache, currency));
      decs := decs + [st.dec];
      rest := st.rest;
      lastIndex := m.end;
      found := Exec(s, lastIndex);
    }
    JoinedEnd(s, lastIndex, rest, cache, currency, frag, decs);
    if lastIndex < |s| {
      frag := frag + [Text(s[lastIndex..])];
    }
  }

  /** One turn of the loop: the match's piece moves from the pieces to come to the pieces built. */
  lemma JoinedMatch(s: string, from: nat, rest: seq<Node>, cache: Option<Json>, currency: string,
                    frag: seq<Node>, decs: seq<string>)
    requires from <= |s| && Exec(s, from).Some?
    ensures var m := Exec(s, from).value;
      WellPlaced(s, m) && from <= m.start &&
      var g := Group(s, m);
      var st := StitchFor(g, rest);
      Joined(frag + MatchPiece(s, from, m, st.dec, ConvFor(g, st.dec, cache, currency)), decs + [st.dec],
             AnnotateFrom(s, m.end, st.rest, cache, currency))
      == Joined(frag, decs, AnnotateFrom(s, from, rest, cache, currency))
  {
    var m := Exec(s, from).value;
    AnnotateFromMatch(s, from, rest, cache, currency);
    var g := Group(s, m);
    var st := StitchFor(g, rest);
    JoinedStep(frag, decs, MatchPiece(s, from, m, st.dec, ConvFor(g, st.dec, cache, currency)), st.dec,
               AnnotateFrom(s, m.end, st.rest, cache, currency));
  }

  /** Once the pattern finds nothing more, what is left of the text is the last piece. */
  lemma JoinedEnd(s: string, from: nat, rest: seq<Node>, cache: Option<Json>, currency: string,
                  frag: seq<Node>, decs: seq<string>)
    requires from <= |s| && Exec(s, from).None?
    ensures Joined(frag, decs, AnnotateFrom(s, from, rest, cache, currency))
            == Pieces(frag + (if from < |s| then [Text(s[from..])] else []), rest, decs)
  {
    assert decs + [] == decs;
  }

  /** The pieces already built followed by the pieces still to come. */
  function Joined(frag: seq<Node>, decs: seq<string>, tail: Pieces): Pieces {
    Pieces(frag + tail.frag, tail.rest, decs + tail.decs)
  }

  /** Nothing built yet: the pieces to come are the whole. */
  lemma JoinedEmpty(tail: Pieces)
    ensures Joined([], [], tail) == tail
  {
    assert [] + tail.frag == tail.frag && [] + tail.decs == tail.decs;
  }

  /** Moving one match's piece from the pieces to come to the pieces built keeps the whole. */
  lemma JoinedStep(frag: seq<Node>, decs: seq<string>, piece: seq<Node>, dec: string, tail: Pieces)
    ensures Joined(frag, decs, Pieces(piece + tail.frag, tail.rest, [dec] + tail.decs))
            == Joined(frag + piece, decs + [dec], tail)
  {
    assert frag + (piece + tail.frag) == (frag + piece) + tail.frag;
    assert decs + ([dec] + tail.decs) == (decs + [dec]) + tail.decs;
  }

  class Page {
    var doc: Node
    var ratesCache: Option<Json>
    var currentCurrency: string

    /** A page with body `body`, no rates yet and US dollars selected (Content.js:13-14). */
    constructor (body: Node)
      ensures doc == body && ratesCache == None && currentCurrency == "USD"
    {
      doc := body;
      ratesCache := None;
      currentCurrency := "USD";
    }

    /** `markProcessed(root)`: an element at `p` gets the processed marker; anything else is left. */
    method MarkProcessed(p: Path)
      modifies this
      ensures At(old(doc), p).Some? && At(old(doc), p).value.Elem? ==>
                doc == Put(old(doc), p, Mark(At(old(doc), p).value)) && MarkedAlong(doc, p)
      ensures !(At(old(doc), p).Some? && At(old(doc), p).value.Elem?) ==> doc == old(doc)
      ensures ratesCache == old(ratesCache) && currentCurrency == old(currentCurrency)
    {
      var n := At(doc, p);
      if n.Some? && n.value.Elem? {
        doc := Put(doc, p, Mark(n.value));
        PutAt(old(doc), p, Mark(n.value));
        AlongAt(doc, p, Processed);
      }
    }

    /**
     * `convertTextNode(textNode)` for the text node at `q`: the guards,
     * the fragment, the replacement in the parent and the marking of the
     * parent (Content.js:120-219).
     */
    method ConvertTextNode(q: Path)
      modifies this
      ensures doc == ConvertAt(old(doc), q, ratesCache, currentCurrency)
      ensures ratesCache == old(ratesCache) && currentCurrency == old(currentCurrency)
    {
      var node := if q == [] then None else At(doc, q);
      if node.None? || !node.value.Text? || node.value.value == "" {
        return;
      }
      if NonContentAlong(doc, Parent(q)) {
        return;
      }
      ReplaceTextNode(q, node.value.value);
    }

    /**
     * The part of `convertTextNode` after the guards: the fragment is built
     * and, when the pattern matched, it replaces the text node and the
     * parent is marked processed (Content.js:124-218).
     */
    method ReplaceTextNode(q: Path, text: string)
      requires q != [] && At(doc, q) == Some(Text(text)) && text != ""
      requires !NonContentAlong(doc, Parent(q))
      modifies this
      ensures doc == ConvertAt(old(doc), q, ratesCache, currentCurrency)
      ensures ratesCache == old(ratesCache) && currentCurrency == old(currentCurrency)
    {
      var parent := ParentNode(doc, q);
      var i := q[|q| - 1];
      var siblings := parent.children[i + 1..];
      var any, frag, rest, decs := BuildFragment(text, siblings, ratesCache, currentCurrency);
      ConvertAtBuilt(doc, q, ratesCache, currentCurrency, text, siblings, Pieces(frag, rest, decs));
      if any {
        var e := Elem(parent.tag, parent.attrs, parent.children[..i] + frag + rest);
        ghost var d0 := doc;
        doc := Put(doc, Parent(q), e);
        PutAt(d0, Parent(q), e);
        MarkProcessed(Parent(q));
        PutTwice(d0, Parent(q), e, Mark(e));
      }
    }

    /**
     * `walkAndConvert(root)` for the element at `rp`: the text nodes below
     * it are listed first, then each is converted unless it sits inside a
     * processed container or holds no `¥` (Content.js:221-234).
     */
    method WalkAndConvert(rp: Path)
      modifies this
      ensures doc == Walk.WalkAndConvert(old(doc), rp, ratesCache, currentCurrency)
      ensures ratesCache == old(ratesCache) && currentCurrency == old(currentCurrency)
      ensures MarksKept(old(doc), doc)
    {
      var nodes := Snapshot(doc, rp);
      var k := 0;
      while k < |nodes|
        invariant 0 <= k <= |nodes|
        invariant ratesCache == old(ratesCache) && currentCurrency == old(currentCurrency)
        invariant WalkSteps(doc, nodes[k..], ratesCache, currentCurrency)
                  == WalkSteps(old(doc), nodes, ratesCache, currentCurrency)
      {
        var t := nodes[k];
        assert nodes[k..][1..] == nodes[k + 1..];
        var n := At(doc, t);
        if t != [] && n.Some? && n.value.Text? && !MarkedAlong(doc, Parent(t)) && Yen in n.value.value {
          ConvertTextNode(t);
        }
        k := k + 1;
      }
      forall t | MarkedOutsideSpans(old(doc), t) ensures MarkedOutsideSpans(doc, t) {
        WalkKeepsMarks(old(doc), rp, ratesCache, currentCurrency, t);
      }
    }

    /**
     * `updateAllConvertedSpans()`: with a cached table, every span listed by
     * `[data-cny-usd]` whose recorded amount parses is re-rendered at the
     * rate for the current currency, when there is one (Content.js:240-256).
     */
    method UpdateAllConvertedSpans()
      modifies this
      ensures doc == SyncDoc(old(doc), ratesCache, currentCurrency)
      ensures ratesCache == old(ratesCache) && currentCurrency == old(currentCurrency)
      ensures MarksKept(old(doc), doc)
    {
      if ratesCache.None? {
        return;
      }
      var nodes := Select(doc, IsConvSpan);
      var k := 0;
      while k < |nodes|
        invariant 0 <= k <= |nodes|
        invariant ratesCache == old(ratesCache) && currentCurrency == old(currentCurrency)
        invariant SyncSteps(doc, nodes[k..], ratesCache, currentCurrency)
                  == SyncSteps(old(doc), nodes, ratesCache, currentCurrency)
      {
        var p := nodes[k];
        assert nodes[k..][1..] == nodes[k + 1..];
        UpdateSpan(p);
        k := k + 1;
      }
      forall t | MarkedOutsideSpans(old(doc), t) ensures MarkedOutsideSpans(doc, t) {
        SyncKeepsMarks(old(doc), ratesCache, currentCurrency, t);
      }
    }

    /**
     * One round of the loop of `updateAllConvertedSpans` at the span at `p`:
     * skipped unless its recorded amount parses and the cache has a number
     * for the currency, otherwise relabelled and re-tagged (Content.js:244-254).
     */
    method UpdateSpan(p: Path)
      modifies this
      ensures doc == SyncVisit(old(doc), p, ratesCache, currentCurrency)
      ensures ratesCache == old(ratesCache) && currentCurrency == old(currentCurrency)
    {
      var n := At(doc, p);
      if n.None? || !IsConvSpan(n.value) {
        SyncVisitSkips(doc, p, ratesCache, currentCurrency);
        return;
      }
      if OriginalAttr !in n.value.attrs || n.value.attrs[OriginalAttr] == "" {
        SyncVisitSkips(doc, p, ratesCache, currentCurrency);
        return;
      }
      var amount := Numbers.ParseFloat(n.value.attrs[OriginalAttr]);
      if amount.None? {
        SyncVisitSkips(doc, p, ratesCache, currentCurrency);
        return;
      }
      var rate := RateOf(ratesCache, currentCurrency);
      if rate.None? {
        SyncVisitSkips(doc, p, ratesCache, currentCurrency);
        return;
      }
      SyncVisitRewrites(doc, p, ratesCache, currentCurrency, amount.value, rate.value);
      doc := Put(doc, p, Elem(n.value.tag, n.value.attrs[CurrencyAttr := currentCurrency],
                              [Text(ConvLabel(amount.value, rate.value, currentCurrency))]));
    }

    /**
     * `fetchRate()` given what the request produced: the table is cached
     * when the body has an object or array `rates`; `accepted` says whether
     * the promise resolves (Content.js:58-71).
     */
    method FetchRate(resp: Response) returns (accepted: bool)
      modifies this
      ensures ratesCache == NextCache(old(ratesCache), resp)
      ensures accepted == Accepts(resp)
      ensures doc == old(doc) && currentCurrency == old(currentCurrency)
    {
      accepted := false;
      if resp.Received? {
        var rates := AcceptedRates(resp.body);
        if rates.Some? {
          ratesCache := rates;
          accepted := true;
        }
      }
    }

    /**
     * Choosing currency `c` in the panel: the selection is recorded and the
     * spans are re-rendered, after which every span with a readable amount
     * shows it in `c` when the table has a rate for `c` (Content.js:367-375).
     */
    method SelectCurrency(c: string)
      modifies this
      ensures currentCurrency == c && ratesCache == old(ratesCache)
      ensures doc == SyncDoc(old(doc), ratesCache, c)
      ensures MarksKept(old(doc), doc)
      ensures forall p :: At(doc, p).Some? && Eligible(At(doc, p).value, ratesCache, c) ==>
                var s := At(doc, p).value;
                CurrencyAttr in s.attrs && s.attrs[CurrencyAttr] == c
                && s.children == [Text(ConvLabel(RecordedAmount(s).value, RateOf(ratesCache, c).value, c))]
    {
      currentCurrency := c;
      UpdateAllConvertedSpans();
      forall p | At(doc, p).Some? && Eligible(At(doc, p).value, ratesCache, c)
        ensures var s := At(doc, p).value;
                CurrencyAttr in s.attrs && s.attrs[CurrencyAttr] == c
                && s.children == [Text(ConvLabel(RecordedAmount(s).value, RateOf(ratesCache, c).value, c))]
      {
        SyncRendersAll(old(doc), ratesCache, c, p);
      }
    }

    /**
     * One node the observer reports as added: a text node holding `¥` is
     * converted, an element is walked (Content.js:445-458).
     */
    method OnAddedNode(t: Path)
      modifies this
      ensures doc == Walk.OnAddedNode(old(doc), t, ratesCache, currentCurrency)
      ensures ratesCache == old(ratesCache) && currentCurrency == old(currentCurrency)
      ensures MarksKept(old(doc), doc)
    {
      var n := At(doc, t);
      if n.None? {
        return;
      }
      if n.value.Text? {
        if Yen in n.value.value {
          ConvertTextNode(t);
        }
      } else {
        WalkAndConvert(t);
      }
      forall u | MarkedOutsideSpans(old(doc), u) ensures MarkedOutsideSpans(doc, u) {
        OnAddedKeepsMarks(old(doc), t, ratesCache, currentCurrency, u);
      }
    }

    /**
     * One tick of the ten-minute timer: fetch, and re-render only when the
     * fetch resolved (Content.js:460-467).
     */
    method RefreshTick(resp: Response)
      modifies this
      ensures ratesCache == NextCache(old(ratesCache), resp) && currentCurrency == old(currentCurrency)
      ensures doc == if Accepts(resp) then SyncDoc(old(doc), ratesCache, currentCurrency) else old(doc)
      ensures MarksKept(old(doc), doc)
    {
      var accepted := FetchRate(resp);
      if accepted {
        UpdateAllConvertedSpans();
      }
    }

    /**
     * `init()` up to installing the observer: the stored currency (when one
     * is stored and not empty), the first fetch, the walk of the body, and a
     * re-render when a table is cached (Content.js:83-100 and 431-443).
     * Afterwards every text node of the body is settled, or the re-render
     * ran over it.
     */
    method Init(stored: Option<string>, resp: Response)
      modifies this
      ensures currentCurrency == if stored.Some? && stored.value != "" then stored.value else old(currentCurrency)
      ensures ratesCache == NextCache(old(ratesCache), resp)
      ensures var walked := Walk.WalkAndConvert(old(doc), [], ratesCache, currentCurrency);
        doc == if ratesCache.Some? then SyncDoc(walked, ratesCache, currentCurrency) else walked
      ensures old(doc).Elem? && ratesCache.None? ==> Settled(doc, [])
      ensures MarksKept(old(doc), doc)
    {
      if stored.Some? && stored.value != "" {
        currentCurrency := stored.value;
      }
      var _ := FetchRate(resp);
      WalkAndConvert([]);
      if old(doc).Elem? {
        WalkSettles(old(doc), [], ratesCache, currentCurrency);
      }
      if ratesCache.Some? {
        UpdateAllConvertedSpans();
      }
    }
  }
}
