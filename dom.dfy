/**
 * The part of the page the annotator sees: a tree of elements and text
 * nodes, addressed by paths of child indices from `document.body`.
 * Replacing a node is `Put`; reading one is `At`. `Along` is
 * `Element.closest` applied to the node at the end of a path: it asks
 * whether that node or one of its ancestors has a given tag or attribute.
 * `Select` is a document-order listing of the nodes that satisfy a test.
 * It is used for the text-node snapshot taken by the tree walker, and for
 * `querySelectorAll`.
 */
module Dom {
  import opened Wrappers

  type Attrs = map<string, string>

  datatype Node =
    | Text(value: string)
    | Elem(tag: string, attrs: Attrs, children: seq<Node>)

  /** Child indices from the root; `[]` is the root itself. */
  type Path = seq<nat>

  /** Set on a container once one of its text nodes has been annotated. */
  const ProcessedAttr: string := "data-cny-processed"
  /** Marks a conversion span. */
  const ConvAttr: string := "data-cny-usd"
  /** The CNY amount a conversion span was made from. */
  const OriginalAttr: string := "data-cny-original"
  /** The currency a conversion span is shown in. */
  const CurrencyAttr: string := "data-cny-currency"

  /** The node at `p`, if `p` leads anywhere. */
  function At(n: Node, p: Path): (r: Option<Node>)
    ensures p == [] ==> r == Some(n)
    decreases p
  {
    if p == [] then Some(n)
    else if n.Elem? && p[0] < |n.children| then At(n.children[p[0]], p[1..])
    else None
  }

  /** `n` with the node at `p` replaced by `m`; unchanged when `p` leads nowhere. */
  function Put(n: Node, p: Path, m: Node): Node
    decreases p
  {
    if p == [] then m
    else if n.Elem? && p[0] < |n.children| then
      n.(children := n.children[p[0] := Put(n.children[p[0]], p[1..], m)])
    else n
  }

  function Parent(p: Path): Path
    requires p != []
  {
    p[..|p| - 1]
  }

  /** Every path of `ps` with `pre` in front of it. */
  function Prefixed(pre: Path, ps: seq<Path>): (r: seq<Path>)
    ensures |r| == |ps|
    ensures forall k :: 0 <= k < |ps| ==> r[k] == pre + ps[k]
  {
    seq(|ps|, k requires 0 <= k < |ps| => pre + ps[k])
  }

  /** `textContent`: the text of a text node, or of all text below an element, in order. */
  function TextContent(n: Node): string
    decreases n, 1
  {
    if n.Text? then n.value else TextContentFrom(n, 0)
  }

  function TextContentFrom(n: Node, i: nat): string
    requires n.Elem? && i <= |n.children|
    decreases n, 0, |n.children| - i
  {
    if i == |n.children| then "" else TextContent(n.children[i]) + TextContentFrom(n, i + 1)
  }

  predicate IsText(n: Node) { n.Text? }

  /** Matches the selector `[data-cny-usd]`. */
  predicate IsConvSpan(n: Node) { n.Elem? && ConvAttr in n.attrs }

  /** Matches the selector `[data-cny-processed]`. */
  predicate Processed(tag: string, attrs: Attrs) { ProcessedAttr in attrs }

  /** Matches the selector `script, style, noscript`. */
  predicate NonContent(tag: string, attrs: Attrs) { tag == "script" || tag == "style" || tag == "noscript" }

  /** `markProcessed`: elements get the processed marker, other nodes are left alone. */
  function Mark(n: Node): (r: Node)
    ensures n.Elem? ==>
              r.Elem? && r.tag == n.tag && r.children == n.children && r.attrs == n.attrs[ProcessedAttr := "1"]
    ensures n.Text? ==> r == n
  {
    if n.Elem? then n.(attrs := n.attrs[ProcessedAttr := "1"]) else n
  }

  /**
   * `closest`: the node at `t` or one of its ancestors is an element whose
   * tag and attributes satisfy `probe`.
   */
  predicate Along(n: Node, t: Path, probe: (string, Attrs) -> bool)
    decreases t
  {
    n.Elem? &&
    (probe(n.tag, n.attrs) || (t != [] && t[0] < |n.children| && Along(n.children[t[0]], t[1..], probe)))
  }

  predicate MarkedAlong(n: Node, t: Path) { Along(n, t, Processed) }

  predicate NonContentAlong(n: Node, t: Path) { Along(n, t, NonContent) }

  /**
   * Along `t`, a processed container is met before any conversion span is
   * entered (the container may be a span itself). Re-rendering replaces
   * only what lies inside conversion spans, so such a marker outlives it.
   */
  predicate MarkedOutsideSpans(n: Node, t: Path)
    decreases t
  {
    n.Elem? &&
    (Processed(n.tag, n.attrs)
     || (!IsConvSpan(n) && t != [] && t[0] < |n.children| && MarkedOutsideSpans(n.children[t[0]], t[1..])))
  }

  /** Every path that met a processed container before `d0` still meets one in `d1`. */
  ghost predicate MarksKept(d0: Node, d1: Node) {
    forall t :: MarkedOutsideSpans(d0, t) ==> MarkedOutsideSpans(d1, t)
  }

  /** The paths of the nodes satisfying `keep`, in document order (the root first). */
  function Select(n: Node, keep: Node -> bool): seq<Path>
    decreases n, 1
  {
    (if keep(n) then [[]] else []) + (if n.Elem? then SelectFrom(n, 0, keep) else [])
  }

  function SelectFrom(n: Node, i: nat, keep: Node -> bool): seq<Path>
    requires n.Elem? && i <= |n.children|
    decreases n, 0, |n.children| - i
  {
    if i == |n.children| then []
    else Prefixed([i], Select(n.children[i], keep)) + SelectFrom(n, i + 1, keep)
  }

  // ---------------------------------------------------------------------------
  // Reading and replacing along paths.

  lemma {:induction false} AtAppend(n: Node, p: Path, q: Path)
    ensures At(n, p + q) == if At(n, p).Some? then At(At(n, p).value, q) else None
    decreases p
  {
    if p == [] {
      assert p + q == q;
    } else if n.Elem? && p[0] < |n.children| {
      assert (p + q)[0] == p[0] && (p + q)[1..] == p[1..] + q;
      AtAppend(n.children[p[0]], p[1..], q);
    }
  }

  /** A node that is reached has an element parent holding it at the path's last index. */
  lemma AtParent(n: Node, p: Path)
    requires p != [] && At(n, p).Some?
    ensures At(n, Parent(p)).Some? && At(n, Parent(p)).value.Elem?
    ensures p[|p| - 1] < |At(n, Parent(p)).value.children|
    ensures At(n, Parent(p)).value.children[p[|p| - 1]] == At(n, p).value
  {
    assert p == Parent(p) + [p[|p| - 1]];
    AtAppend(n, Parent(p), [p[|p| - 1]]);
  }

  /** The children of a reached element are reached one step further. */
  lemma AtChild(n: Node, p: Path, i: nat)
    requires At(n, p).Some? && At(n, p).value.Elem? && i < |At(n, p).value.children|
    ensures At(n, p + [i]) == Some(At(n, p).value.children[i])
  {
    AtAppend(n, p, [i]);
  }

  /** After `Put`, the new node is found where it was put. */
  lemma {:induction false} PutAt(n: Node, p: Path, m: Node)
    requires At(n, p).Some?
    ensures At(Put(n, p, m), p) == Some(m)
    decreases p
  {
    if p != [] {
      PutAt(n.children[p[0]], p[1..], m);
    }
  }

  /** `Put` touches nothing off the path it replaces at. */
  lemma {:induction false} PutElsewhere(n: Node, p: Path, m: Node, t: Path)
    requires !(p <= t) && !(t <= p)
    ensures At(Put(n, p, m), t) == At(n, t)
    decreases p
  {
    if n.Elem? && p[0] < |n.children| && t[0] < |n.children| && p[0] == t[0] {
      PutElsewhere(n.children[p[0]], p[1..], m, t[1..]);
    }
  }

  /** Putting back the node that is already there changes nothing. */
  lemma {:induction false} PutSame(n: Node, p: Path, m: Node)
    requires At(n, p) == Some(m)
    ensures Put(n, p, m) == n
    decreases p
  {
    if p != [] {
      PutSame(n.children[p[0]], p[1..], m);
      assert n.children[p[0] := n.children[p[0]]] == n.children;
    }
  }

  /** Replacing a child is replacing its parent by the parent with that child replaced. */
  lemma {:induction false} PutChild(n: Node, p: Path, i: nat, x: Node)
    requires At(n, p).Some? && At(n, p).value.Elem? && i < |At(n, p).value.children|
    ensures var m := At(n, p).value;
      Put(n, p + [i], x) == Put(n, p, m.(children := m.children[i := x]))
    decreases p
  {
    if p != [] {
      assert (p + [i])[0] == p[0] && (p + [i])[1..] == p[1..] + [i];
      PutChild(n.children[p[0]], p[1..], i, x);
    } else {
      assert p + [i] == [i];
    }
  }

  /** A second replacement at the same place overwrites the first. */
  lemma PutTwice(doc: Node, p: Path, x: Node, y: Node)
    requires At(doc, p).Some?
    ensures Put(Put(doc, p, x), p, y) == Put(doc, p, y)
  {
    PutPut(doc, p, [], x, y);
    assert p + [] == p;
  }

  /** A later replacement at an ancestor overwrites an earlier one below it. */
  lemma {:induction false} PutPut(n: Node, p: Path, q: Path, x: Node, y: Node)
    requires At(n, p).Some?
    ensures Put(Put(n, p + q, x), p, y) == Put(n, p, y)
    decreases p
  {
    if p == [] {
      assert p + q == q;
    } else {
      assert (p + q)[0] == p[0] && (p + q)[1..] == p[1..] + q;
      PutPut(n.children[p[0]], p[1..], q, x, y);
    }
  }

  lemma PrefixedAppend(pre: Path, a: seq<Path>, b: seq<Path>)
    ensures Prefixed(pre, a + b) == Prefixed(pre, a) + Prefixed(pre, b)
  {
  }

  lemma PrefixedPrefixed(pre: Path, i: nat, ps: seq<Path>)
    ensures Prefixed(pre, Prefixed([i], ps)) == Prefixed(pre + [i], ps)
  {
    forall k | 0 <= k < |ps|
      ensures Prefixed(pre, Prefixed([i], ps))[k] == Prefixed(pre + [i], ps)[k]
    {
      assert pre + ([i] + ps[k]) == (pre + [i]) + ps[k];
    }
  }

  /** The ancestors of a replaced node keep their tags and attributes. */
  lemma {:induction false} PutAncestor(n: Node, p: Path, m: Node, t: Path)
    requires At(n, p).Some? && t < p
    ensures At(n, t).Some? && At(n, t).value.Elem?
    ensures At(Put(n, p, m), t).Some? && At(Put(n, p, m), t).value.Elem?
    ensures At(Put(n, p, m), t).value.tag == At(n, t).value.tag
    ensures At(Put(n, p, m), t).value.attrs == At(n, t).value.attrs
    decreases p
  {
    if t != [] {
      PutAncestor(n.children[p[0]], p[1..], m, t[1..]);
    }
  }

  /** `closest` answers the same after a replacement that is not on or above the path asked about. */
  lemma {:induction false} AlongPut(n: Node, p: Path, m: Node, t: Path, probe: (string, Attrs) -> bool)
    requires At(n, p).Some? && !(p <= t)
    ensures Along(Put(n, p, m), t, probe) == Along(n, t, probe)
    decreases t
  {
    if n.Elem? && t != [] && t[0] < |n.children| && p[0] == t[0] {
      AlongPut(n.children[p[0]], p[1..], m, t[1..], probe);
    }
  }

  /** An element satisfying `probe` answers `closest` for itself. */
  lemma {:induction false} AlongAt(n: Node, p: Path, probe: (string, Attrs) -> bool)
    requires At(n, p).Some? && At(n, p).value.Elem?
    requires probe(At(n, p).value.tag, At(n, p).value.attrs)
    ensures Along(n, p, probe)
    decreases p
  {
    if p != [] {
      AlongAt(n.children[p[0]], p[1..], probe);
    }
  }

  /** What `closest` finds above a node, it finds above every node below it too. */
  lemma {:induction false} AlongExtend(n: Node, t: Path, u: Path, probe: (string, Attrs) -> bool)
    requires Along(n, t, probe) && t <= u
    ensures Along(n, u, probe)
    decreases t
  {
    if !probe(n.tag, n.attrs) {
      AlongExtend(n.children[t[0]], t[1..], u[1..], probe);
    }
  }

  /** A marker met outside conversion spans is a marker `closest` finds. */
  lemma {:induction false} MarkedOutsideSpansAlong(n: Node, t: Path)
    requires MarkedOutsideSpans(n, t)
    ensures MarkedAlong(n, t)
    decreases t
  {
    if !Processed(n.tag, n.attrs) {
      MarkedOutsideSpansAlong(n.children[t[0]], t[1..]);
    }
  }

  /**
   * Replacing a node by a processed element removes no marker: every path
   * that ran through a processed container still does.
   */
  lemma {:induction false} PutKeepsMarks(n: Node, p: Path, x: Node, t: Path)
    requires x.Elem? && Processed(x.tag, x.attrs)
    ensures MarkedAlong(n, t) ==> MarkedAlong(Put(n, p, x), t)
    ensures MarkedOutsideSpans(n, t) ==> MarkedOutsideSpans(Put(n, p, x), t)
    decreases p
  {
    if p != [] && n.Elem? && p[0] < |n.children| && t != [] && p[0] == t[0] {
      PutKeepsMarks(n.children[p[0]], p[1..], x, t[1..]);
    }
  }

  // ---------------------------------------------------------------------------
  // The document-order listing.

  /** Every listed path leads to a node that satisfies the test. */
  lemma {:induction false} SelectSound(n: Node, keep: Node -> bool)
    ensures forall q :: q in Select(n, keep) ==> At(n, q).Some? && keep(At(n, q).value)
    decreases n, 1
  {
    if n.Elem? {
      SelectFromSound(n, 0, keep);
    }
  }

  lemma {:induction false} SelectFromSound(n: Node, i: nat, keep: Node -> bool)
    requires n.Elem? && i <= |n.children|
    ensures forall q :: q in SelectFrom(n, i, keep) ==>
      q != [] && i <= q[0] && At(n, q).Some? && keep(At(n, q).value)
    decreases n, 0, |n.children| - i
  {
    if i < |n.children| {
      var c := n.children[i];
      SelectSound(c, keep);
      SelectFromSound(n, i + 1, keep);
      var ps := Select(c, keep);
      forall q | q in Prefixed([i], ps)
        ensures q != [] && i <= q[0] && At(n, q).Some? && keep(At(n, q).value)
      {
        var k :| 0 <= k < |ps| && q == Prefixed([i], ps)[k];
        assert q == [i] + ps[k] && q[1..] == ps[k];
      }
    }
  }

  /** Below an element that fails the test, every listed path is a proper descendant. */
  lemma SelectBelowRoot(n: Node, keep: Node -> bool)
    requires !keep(n)
    ensures forall q :: q in Select(n, keep) ==> q != []
  {
    if n.Elem? {
      SelectFromSound(n, 0, keep);
      assert Select(n, keep) == SelectFrom(n, 0, keep);
    }
  }

  /** Every node that satisfies the test is listed. */
  lemma {:induction false} SelectComplete(n: Node, keep: Node -> bool, q: Path)
    requires At(n, q).Some? && keep(At(n, q).value)
    ensures q in Select(n, keep)
    decreases n, 1
  {
    if q != [] {
      SelectFromComplete(n, 0, keep, q);
    }
  }

  lemma {:induction false} SelectFromComplete(n: Node, i: nat, keep: Node -> bool, q: Path)
    requires n.Elem? && i <= |n.children|
    requires q != [] && i <= q[0] && At(n, q).Some? && keep(At(n, q).value)
    ensures q in SelectFrom(n, i, keep)
    decreases n, 0, |n.children| - i
  {
    if q[0] == i {
      var c := n.children[i];
      SelectComplete(c, keep, q[1..]);
      var ps := Select(c, keep);
      var k :| 0 <= k < |ps| && ps[k] == q[1..];
      assert Prefixed([i], ps)[k] == q;
    } else {
      SelectFromComplete(n, i + 1, keep, q);
    }
  }
}
