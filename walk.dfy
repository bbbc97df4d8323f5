/**
 * `walkAndConvert` (Content.js:221-234) and the mutation observer's dispatch
 * of added nodes (Content.js:448-458). The walk first lists the text nodes
 * below its root in document order, then visits each one: a text node whose
 * parent is inside a processed container is skipped, one whose text holds
 * a `¥` is handed to `convertTextNode`.
 *
 * The list holds paths where the source holds node references. A
 * conversion rewrites one parent's children, so a listed path can go stale
 * only below a parent that has just been marked processed; the visit skips
 * it, as the source skips the node it stood for.
 */
module Walk {
  import opened Wrappers
  import opened PriceScan
  import opened Rates
  import opened Dom
  import opened Annotate

  /** The tree walker's list: every text node strictly below an element root, in document order. */
  function Snapshot(doc: Node, rp: Path): (ps: seq<Path>)
    ensures forall k :: 0 <= k < |ps| ==> rp < ps[k]
  {
    if At(doc, rp).Some? && At(doc, rp).value.Elem? then
      var root := At(doc, rp).value;
      SelectBelowRoot(root, IsText);
      var sel := Select(root, IsText);
      assert forall k :: 0 <= k < |sel| ==> sel[k] in sel;
      Prefixed(rp, sel)
    else []
  }

  /** One round of the loop over the list. */
  function VisitText(doc: Node, t: Path, cache: Option<Json>, currency: string): Node {
    if t != [] && At(doc, t).Some? && At(doc, t).value.Text? && !MarkedAlong(doc, Parent(t))
       && Yen in At(doc, t).value.value
    then ConvertAt(doc, t, cache, currency)
    else doc
  }

  function WalkSteps(doc: Node, ps: seq<Path>, cache: Option<Json>, currency: string): Node
    decreases |ps|
  {
    if ps == [] then doc else WalkSteps(VisitText(doc, ps[0], cache, currency), ps[1..], cache, currency)
  }

  /** `walkAndConvert(root)` for the element at `rp`. */
  function WalkAndConvert(doc: Node, rp: Path, cache: Option<Json>, currency: string): Node {
    WalkSteps(doc, Snapshot(doc, rp), cache, currency)
  }

  /**
   * A text node that the annotator leaves alone: its parent is inside a
   * processed container or inside `script`, `style` or `noscript`, or its
   * text holds no price.
   */
  predicate Quiet(doc: Node, t: Path) {
    t != [] && At(doc, t).Some? && At(doc, t).value.Text? ==>
      MarkedAlong(doc, Parent(t)) || NonContentAlong(doc, Parent(t)) || Exec(At(doc, t).value.value, 0).None?
  }

  /** Every text node strictly below `rp` is quiet. */
  ghost predicate Settled(doc: Node, rp: Path) {
    forall t :: rp < t ==> Quiet(doc, t)
  }

  /** Every text node strictly below `rp` is quiet or still to be visited. */
  ghost predicate Pending(doc: Node, rp: Path, ps: seq<Path>) {
    forall t :: rp < t && t !in ps ==> Quiet(doc, t)
  }

  /** A quiet text node is left as it is. */
  lemma QuietVisit(doc: Node, t: Path, cache: Option<Json>, currency: string)
    requires Quiet(doc, t)
    ensures VisitText(doc, t, cache, currency) == doc
  {
    if t != [] && At(doc, t).Some? && At(doc, t).value.Text? && !MarkedAlong(doc, Parent(t)) {
      var v := At(doc, t).value.value;
      if Yen in v {
        assert !Convertible(doc, t);
      }
    }
  }

  /**
   * After a conversion at `q`, a node is quiet if it lies in or above the
   * parent (below the marked parent, or an element), or was quiet before.
   */
  lemma QuietAfterConvert(doc: Node, q: Path, t: Path, cache: Option<Json>, currency: string)
    requires Convertible(doc, q)
    requires Parent(q) <= t || t < Parent(q) || Quiet(doc, t)
    ensures Quiet(ConvertAt(doc, q, cache, currency), t)
  {
    if Parent(q) <= t {
      QuietBelowParent(doc, q, t, cache, currency);
    } else if t < Parent(q) {
      ConvertAtAbove(doc, q, cache, currency, t);
    } else {
      QuietBeside(doc, q, t, cache, currency);
    }
  }

  lemma QuietBelowParent(doc: Node, q: Path, t: Path, cache: Option<Json>, currency: string)
    requires Convertible(doc, q) && Parent(q) <= t
    ensures Quiet(ConvertAt(doc, q, cache, currency), t)
  {
    ConvertAtMarked(doc, q, cache, currency);
    QuietUnderMarked(ConvertAt(doc, q, cache, currency), Parent(q), t);
  }

  /** Every node in or below a marked element is quiet. */
  lemma QuietUnderMarked(d: Node, p: Path, t: Path)
    requires At(d, p).Some? && At(d, p).value.Elem? && MarkedAlong(d, p) && p <= t
    ensures Quiet(d, t)
  {
    if p < t {
      assert p <= Parent(t) by {
        assert |p| <= |t| - 1 && Parent(t)[..|p|] == t[..|p|];
      }
      AlongExtend(d, p, Parent(t), Processed);
      assert MarkedAlong(d, Parent(t));
    } else {
      assert t == p;
    }
  }

  lemma QuietBeside(doc: Node, q: Path, t: Path, cache: Option<Json>, currency: string)
    requires Convertible(doc, q) && !(Parent(q) <= t) && !(t <= Parent(q)) && Quiet(doc, t)
    ensures Quiet(ConvertAt(doc, q, cache, currency), t)
  {
    ConvertAtFrame(doc, q, cache, currency, t);
    if t != [] {
      assert !(Parent(q) <= Parent(t));
      ConvertAtAlong(doc, q, cache, currency, Parent(t), Processed);
      ConvertAtAlong(doc, q, cache, currency, Parent(t), NonContent);
    }
  }

  /** A visit that converts nothing leaves the visited node quiet. */
  lemma UnconvertedIsQuiet(doc: Node, q: Path, cache: Option<Json>, currency: string)
    requires !(q != [] && At(doc, q).Some? && At(doc, q).value.Text? && !MarkedAlong(doc, Parent(q))
               && Yen in At(doc, q).value.value && Convertible(doc, q))
    ensures VisitText(doc, q, cache, currency) == doc && Quiet(doc, q)
  {
    if q != [] && At(doc, q).Some? && At(doc, q).value.Text? && !MarkedAlong(doc, Parent(q)) {
      var v := At(doc, q).value.value;
      if Yen !in v {
        NoYenNoMatch(v, 0);
        assert v[0..] == v;
      }
    }
  }

  /** After a visit, the visited node is quiet, and so is every node that was quiet before. */
  lemma VisitStep(doc: Node, rp: Path, q: Path, ps: seq<Path>, cache: Option<Json>, currency: string)
    requires Pending(doc, rp, [q] + ps)
    ensures Pending(VisitText(doc, q, cache, currency), rp, ps)
  {
    if q != [] && At(doc, q).Some? && At(doc, q).value.Text? && !MarkedAlong(doc, Parent(q))
       && Yen in At(doc, q).value.value && Convertible(doc, q) {
      assert VisitText(doc, q, cache, currency) == ConvertAt(doc, q, cache, currency);
      ConvertedStep(doc, rp, q, ps, cache, currency);
    } else {
      UnconvertedIsQuiet(doc, q, cache, currency);
      forall t | rp < t && t !in ps
        ensures Quiet(doc, t)
      {
        if t != q {
          assert t !in [q] + ps;
        }
      }
    }
  }

  /** A conversion leaves every node that was quiet, and every node it touches, quiet. */
  lemma ConvertedStep(doc: Node, rp: Path, q: Path, ps: seq<Path>, cache: Option<Json>, currency: string)
    requires Pending(doc, rp, [q] + ps) && Convertible(doc, q)
    ensures Pending(ConvertAt(doc, q, cache, currency), rp, ps)
  {
    forall t | rp < t && t !in ps
      ensures Quiet(ConvertAt(doc, q, cache, currency), t)
    {
      if !(Parent(q) <= t) && !(t < Parent(q)) {
        assert t != q && t !in [q] + ps;
      }
      QuietAfterConvert(doc, q, t, cache, currency);
    }
  }

  lemma {:induction false} WalkStepsSettle(doc: Node, rp: Path, ps: seq<Path>, cache: Option<Json>, currency: string)
    requires Pending(doc, rp, ps)
    ensures Settled(WalkSteps(doc, ps, cache, currency), rp)
    decreases |ps|
  {
    if ps != [] {
      assert ps == [ps[0]] + ps[1..];
      VisitStep(doc, rp, ps[0], ps[1..], cache, currency);
      WalkStepsSettle(VisitText(doc, ps[0], cache, currency), rp, ps[1..], cache, currency);
    }
  }

  /** A text node below the root is in the tree walker's list. */
  lemma SnapshotHas(doc: Node, rp: Path, t: Path)
    requires At(doc, rp).Some? && At(doc, rp).value.Elem?
    requires rp < t && At(doc, t).Some? && At(doc, t).value.Text?
    ensures t in Snapshot(doc, rp)
  {
    var root := At(doc, rp).value;
    var sel := Select(root, IsText);
    var u := t[|rp|..];
    assert t == rp + u;
    AtAppend(doc, rp, u);
    SelectComplete(root, IsText, u);
    var k :| 0 <= k < |sel| && sel[k] == u;
    assert Snapshot(doc, rp)[k] == t;
  }

  /** Before the walk, every text node below the root is listed. */
  lemma SnapshotComplete(doc: Node, rp: Path)
    requires At(doc, rp).Some? && At(doc, rp).value.Elem?
    ensures Pending(doc, rp, Snapshot(doc, rp))
  {
    forall t | rp < t && At(doc, t).Some? && At(doc, t).value.Text?
      ensures t in Snapshot(doc, rp)
    {
      SnapshotHas(doc, rp, t);
    }
  }

  /**
   * After `walkAndConvert` on an element, every text node below it has its
   * parent inside a processed container (its own price need not have been
   * annotated: a conversion marks the parent, and the walk then skips the
   * parent's later text nodes), is inside `script`, `style` or `noscript`,
   * or holds no price.
   */
  lemma WalkSettles(doc: Node, rp: Path, cache: Option<Json>, currency: string)
    requires At(doc, rp).Some? && At(doc, rp).value.Elem?
    ensures Settled(WalkAndConvert(doc, rp, cache, currency), rp)
  {
    SnapshotComplete(doc, rp);
    WalkStepsSettle(doc, rp, Snapshot(doc, rp), cache, currency);
  }

  lemma {:induction false} SettledStepsIdentity(doc: Node, rp: Path, ps: seq<Path>, cache: Option<Json>, currency: string)
    requires Settled(doc, rp) && forall k :: 0 <= k < |ps| ==> rp < ps[k]
    ensures WalkSteps(doc, ps, cache, currency) == doc
    decreases |ps|
  {
    if ps != [] {
      QuietVisit(doc, ps[0], cache, currency);
      SettledStepsIdentity(doc, rp, ps[1..], cache, currency);
    }
  }

  /** A walk over a settled subtree changes nothing. */
  lemma SettledWalkIdentity(doc: Node, rp: Path, cache: Option<Json>, currency: string)
    requires Settled(doc, rp)
    ensures WalkAndConvert(doc, rp, cache, currency) == doc
  {
    SettledStepsIdentity(doc, rp, Snapshot(doc, rp), cache, currency);
  }

  /** Walking the same root twice does no more than walking it once. */
  lemma WalkIdempotent(doc: Node, rp: Path, cache: Option<Json>, currency: string)
    ensures var once := WalkAndConvert(doc, rp, cache, currency);
      WalkAndConvert(once, rp, cache, currency) == once
  {
    var once := WalkAndConvert(doc, rp, cache, currency);
    if At(doc, rp).Some? && At(doc, rp).value.Elem? {
      WalkSettles(doc, rp, cache, currency);
      SettledWalkIdentity(once, rp, cache, currency);
    } else {
      assert once == doc;
    }
  }

  /**
   * A root inside a processed container, or inside `script`, `style` or
   * `noscript`, is walked without effect.
   */
  lemma WalkUnderMarkIdentity(doc: Node, rp: Path, cache: Option<Json>, currency: string)
    requires MarkedAlong(doc, rp) || NonContentAlong(doc, rp)
    ensures WalkAndConvert(doc, rp, cache, currency) == doc
  {
    forall t | rp < t
      ensures Quiet(doc, t)
    {
      if MarkedAlong(doc, rp) {
        AlongExtend(doc, rp, Parent(t), Processed);
      } else {
        AlongExtend(doc, rp, Parent(t), NonContent);
      }
    }
    SettledWalkIdentity(doc, rp, cache, currency);
  }

  /**
   * `markProcessed` on an element shields everything below it: a later walk
   * rooted at or under that element changes nothing.
   */
  lemma MarkShieldsWalk(doc: Node, p: Path, rp: Path, cache: Option<Json>, currency: string)
    requires At(doc, p).Some? && At(doc, p).value.Elem? && p <= rp
    ensures var marked := Put(doc, p, Mark(At(doc, p).value));
      WalkAndConvert(marked, rp, cache, currency) == marked
  {
    var marked := Put(doc, p, Mark(At(doc, p).value));
    PutAt(doc, p, Mark(At(doc, p).value));
    AlongAt(marked, p, Processed);
    AlongExtend(marked, p, rp, Processed);
    WalkUnderMarkIdentity(marked, rp, cache, currency);
  }

  /** The nodes off the root's subtree and its ancestors are untouched by one visit. */
  lemma VisitFrame(doc: Node, rp: Path, q: Path, cache: Option<Json>, currency: string, t: Path)
    requires rp < q && !(rp <= t) && !(t <= rp)
    ensures At(VisitText(doc, q, cache, currency), t) == At(doc, t)
  {
    if VisitText(doc, q, cache, currency) != doc {
      assert Convertible(doc, q);
      assert rp <= Parent(q);
      ConvertAtFrame(doc, q, cache, currency, t);
    }
  }

  lemma {:induction false} WalkStepsFrame(doc: Node, rp: Path, ps: seq<Path>, cache: Option<Json>, currency: string, t: Path)
    requires (forall k :: 0 <= k < |ps| ==> rp < ps[k]) && !(rp <= t) && !(t <= rp)
    ensures At(WalkSteps(doc, ps, cache, currency), t) == At(doc, t)
    decreases |ps|
  {
    if ps != [] {
      VisitFrame(doc, rp, ps[0], cache, currency, t);
      WalkStepsFrame(VisitText(doc, ps[0], cache, currency), rp, ps[1..], cache, currency, t);
    }
  }

  /**
   * `walkAndConvert(root)` only rewrites inside the root's subtree: a node
   * that is neither the root, nor below it, nor above it is found unchanged.
   */
  lemma WalkFrame(doc: Node, rp: Path, cache: Option<Json>, currency: string, t: Path)
    requires !(rp <= t) && !(t <= rp)
    ensures At(WalkAndConvert(doc, rp, cache, currency), t) == At(doc, t)
  {
    WalkStepsFrame(doc, rp, Snapshot(doc, rp), cache, currency, t);
  }

  // ---------------------------------------------------------------------------
  // The mutation observer (Content.js:448-458).

  /**
   * An added node: a text node holding a `¥` goes to `convertTextNode`
   * (with no processed check), an element to `walkAndConvert`.
   */
  function OnAddedNode(doc: Node, t: Path, cache: Option<Json>, currency: string): Node {
    if At(doc, t).None? then doc
    else if At(doc, t).value.Text? then
      if Yen in At(doc, t).value.value then ConvertAt(doc, t, cache, currency) else doc
    else WalkAndConvert(doc, t, cache, currency)
  }

  /**
   * The nodes of the annotator's own fragment, reported back as added,
   * change nothing: its text nodes hold no price, and its spans sit in the
   * parent that was just marked processed.
   */
  lemma FragmentAddedIdentity(doc: Node, q: Path, cache: Option<Json>, currency: string, k: nat)
    requires Convertible(doc, q)
    requires q[|q| - 1] <= k < q[|q| - 1] + |Annotation(doc, q, cache, currency).frag|
    ensures var d := ConvertAt(doc, q, cache, currency);
      OnAddedNode(d, Parent(q) + [k], cache, currency) == d
  {
    var d := ConvertAt(doc, q, cache, currency);
    var P := Parent(q);
    var n := Annotation(doc, q, cache, currency).frag[k - q[|q| - 1]];
    ConvertAtChild(doc, q, cache, currency, k);
    if n.Text? {
      AnnotationQuiet(doc, q, cache, currency);
      QuietTextAdded(d, P + [k], cache, currency);
    } else {
      ConvertAtMarked(doc, q, cache, currency);
      AlongExtend(d, P, P + [k], Processed);
      WalkUnderMarkIdentity(d, P + [k], cache, currency);
    }
  }

  /** An added text node without a price changes nothing. */
  lemma QuietTextAdded(d: Node, t: Path, cache: Option<Json>, currency: string)
    requires At(d, t).Some? && At(d, t).value.Text? && Exec(At(d, t).value.value, 0).None?
    ensures OnAddedNode(d, t, cache, currency) == d
  {
    assert !Convertible(d, t);
  }

  /** No visit of the walk removes a processed marker. */
  lemma {:induction false} WalkStepsKeepMarks(doc: Node, ps: seq<Path>, cache: Option<Json>, currency: string, t: Path)
    ensures MarkedAlong(doc, t) ==> MarkedAlong(WalkSteps(doc, ps, cache, currency), t)
    ensures MarkedOutsideSpans(doc, t) ==> MarkedOutsideSpans(WalkSteps(doc, ps, cache, currency), t)
    decreases |ps|
  {
    if ps != [] {
      ConvertAtKeepsMarks(doc, ps[0], cache, currency, t);
      WalkStepsKeepMarks(VisitText(doc, ps[0], cache, currency), ps[1..], cache, currency, t);
    }
  }

  /**
   * The processed marker is never cleared: every path that ran through a
   * processed container before a walk still does afterwards.
   */
  lemma WalkKeepsMarks(doc: Node, rp: Path, cache: Option<Json>, currency: string, t: Path)
    ensures MarkedAlong(doc, t) ==> MarkedAlong(WalkAndConvert(doc, rp, cache, currency), t)
    ensures MarkedOutsideSpans(doc, t) ==> MarkedOutsideSpans(WalkAndConvert(doc, rp, cache, currency), t)
  {
    WalkStepsKeepMarks(doc, Snapshot(doc, rp), cache, currency, t);
  }

  /** Nor does the observer's handling of an added node clear one. */
  lemma OnAddedKeepsMarks(doc: Node, a: Path, cache: Option<Json>, currency: string, t: Path)
    ensures MarkedAlong(doc, t) ==> MarkedAlong(OnAddedNode(doc, a, cache, currency), t)
    ensures MarkedOutsideSpans(doc, t) ==> MarkedOutsideSpans(OnAddedNode(doc, a, cache, currency), t)
  {
    ConvertAtKeepsMarks(doc, a, cache, currency, t);
    WalkKeepsMarks(doc, a, cache, currency, t);
  }
}
