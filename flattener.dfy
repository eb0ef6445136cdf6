/**
 * `getAllElementsAndShadowRoots` and the `recurse` it runs with the selector
 * "*": starting at a container, collect into one shared array every element
 * and every open shadow root the walk meets, then drop repeated entries.
 *
 * The walk is specified twice. `Walk` follows the loops of `recurse` (a
 * worklist of one or two anchors, each anchor's descendants in document
 * order). `ProcTree` and `WalkShadow` follow the tree itself, so that their
 * recursion visibly terminates and induction over them is structural;
 * `ProcTreeIsVisitAll` and `WalkOfRoot` show the two agree.
 */
module Flattener {
  import opened Seqs
  import opened Dom

  /** `options.depth`: a number, or `Infinity` (the default). */
  datatype Depth = Finite(n: int) | Unbounded

  /** What `recurse` accepts: an element, a whole document, or a shadow root. */
  datatype Container = Element(element: Node) | Document(documentElement: Node) | Shadow(root: ShadowRoot)

  /** `options.depth <= currentDepth`: the guard that stops further recursion. */
  predicate Exhausted(depth: Depth, currentDepth: int) {
    match depth
    case Unbounded => false
    case Finite(n) => n <= currentDepth
  }

  /** A document is replaced by its `documentElement` before the walk. */
  function Normalize(c: Container): Target {
    match c
    case Element(n) => Elem(n)
    case Document(n) => Elem(n)
    case Shadow(s) => Root(s)
  }

  /**
   * The entries `recurse` walks for a container: the container, then its
   * shadow root when it is an element whose shadow root is not closed.
   */
  function Worklist(t: Target): (ws: seq<Target>)
    ensures 1 <= |ws| <= 2 && ws[0] == t
    ensures |ws| == 2 <==> t.Elem? && HasOpenShadow(t.node)
    ensures |ws| == 2 ==> ws[1] == Root(t.node.shadow.value)
    ensures Distinct(ws)
  {
    if t.Elem? && HasOpenShadow(t.node) then [t, Root(t.node.shadow.value)] else [t]
  }

  function Elems(xs: seq<Node>): (r: seq<Target>)
    ensures |r| == |xs|
    ensures forall i :: 0 <= i < |xs| ==> r[i] == Elem(xs[i])
  {
    if xs == [] then [] else [Elem(xs[0])] + Elems(xs[1..])
  }

  /**
   * The entries pushed for one descendant `x` found by the walk: `x` itself
   * when it has no shadow root or a closed one; otherwise its shadow root,
   * that root's descendants, and, unless the depth guard holds, everything
   * the recursive walk of that root pushes.
   */
  function Visit(x: Node, deep: bool): seq<Target> {
    if !HasOpenShadow(x) then [Elem(x)]
    else
      var s := x.shadow.value;
      [Root(s)] + Elems(Desc(s.children)) + (if deep then WalkShadow(s, deep) else [])
  }

  /** What the recursive call on shadow root `s` pushes (it never hosts a shadow root itself). */
  function WalkShadow(s: ShadowRoot, deep: bool): seq<Target> {
    [Root(s)] + ProcTree(s.children, deep)
  }

  /** `Visit` applied to the nodes of the forest `cs` in document order, by structure. */
  function ProcTree(cs: seq<Node>, deep: bool): seq<Target> {
    if cs == [] then []
    else Visit(cs[0], deep) + ProcTree(cs[0].children, deep) + ProcTree(cs[1..], deep)
  }

  /** `Visit` applied to the nodes of a list in order. */
  function VisitAll(xs: seq<Node>, deep: bool): seq<Target> {
    if xs == [] then [] else Visit(xs[0], deep) + VisitAll(xs[1..], deep)
  }

  /** The pushes for the descendants of each worklist entry in turn. */
  function ProcWorklist(ws: seq<Target>, deep: bool): seq<Target> {
    if ws == [] then [] else VisitAll(Descendants(ws[0]), deep) + ProcWorklist(ws[1..], deep)
  }

  /** Every entry one call of `recurse` pushes, in push order. */
  function Walk(t: Target, deep: bool): seq<Target> {
    Worklist(t) + ProcWorklist(Worklist(t), deep)
  }

  /**
   * `getAllElementsAndShadowRoots(container, options)`: the pushes of the
   * outermost call, which starts with `currentDepth` 1, without repeats.
   * The container comes first; its open shadow root, if it has one, second.
   */
  function Flatten(c: Container, depth: Depth): (r: seq<Target>)
    ensures Distinct(r)
    ensures |r| >= 1 && r[0] == Normalize(c)
    ensures Normalize(c).Elem? && HasOpenShadow(Normalize(c).node) ==>
              |r| >= 2 && r[1] == Root(Normalize(c).node.shadow.value)
  {
    var ws := Worklist(Normalize(c));
    DedupKeepsDistinctPrefix(ws, ProcWorklist(ws, !Exhausted(depth, 1)));
    Dedup(Walk(Normalize(c), !Exhausted(depth, 1)))
  }

  // ---- The two descriptions of the walk agree ----

  lemma {:induction false} VisitAllAppend(a: seq<Node>, b: seq<Node>, deep: bool)
    ensures VisitAll(a + b, deep) == VisitAll(a, deep) + VisitAll(b, deep)
    decreases |a|
  {
    if a != [] {
      assert (a + b)[0] == a[0] && (a + b)[1..] == a[1..] + b;
      VisitAllAppend(a[1..], b, deep);
      AppendAssoc(Visit(a[0], deep), VisitAll(a[1..], deep), VisitAll(b, deep));
    } else {
      assert a + b == b;
    }
  }

  lemma {:induction false} ProcTreeIsVisitAll(cs: seq<Node>, deep: bool)
    ensures ProcTree(cs, deep) == VisitAll(Desc(cs), deep)
    decreases SizeF(cs)
  {
    if cs != [] {
      SizeSplit(cs);
      ProcTreeIsVisitAll(cs[0].children, deep);
      ProcTreeIsVisitAll(cs[1..], deep);
      VisitAllAppend([cs[0]] + Desc(cs[0].children), Desc(cs[1..]), deep);
      VisitAllAppend([cs[0]], Desc(cs[0].children), deep);
    }
  }

  lemma ProcWorklistOne(w: Target, deep: bool)
    ensures ProcWorklist([w], deep) == VisitAll(Descendants(w), deep)
  {
  }

  /** The walk `recurse` makes when called on a shadow root is `WalkShadow`. */
  lemma WalkOfRoot(s: ShadowRoot, deep: bool)
    ensures Walk(Root(s), deep) == WalkShadow(s, deep)
  {
    ProcTreeIsVisitAll(s.children, deep);
    ProcWorklistOne(Root(s), deep);
  }

  /** The walk of a container, by structure. */
  lemma WalkByStructure(t: Target, deep: bool)
    ensures Walk(t, deep) == Worklist(t) + ProcTree(Children(t), deep) +
      (if t.Elem? && HasOpenShadow(t.node) then ProcTree(t.node.shadow.value.children, deep) else [])
  {
    ProcTreeIsVisitAll(Children(t), deep);
    var w := Worklist(t);
    var p := ProcTree(Children(t), deep);
    if t.Elem? && HasOpenShadow(t.node) {
      var s := t.node.shadow.value;
      ProcTreeIsVisitAll(s.children, deep);
      assert w == [t] + [Root(s)];
      ProcWorklistAppend([t], [Root(s)], deep);
      ProcWorklistOne(t, deep);
      ProcWorklistOne(Root(s), deep);
      assert ProcWorklist(w, deep) == p + ProcTree(s.children, deep);
      AppendAssoc(w, p, ProcTree(s.children, deep));
    } else {
      ProcWorklistOne(t, deep);
      assert ProcWorklist(w, deep) == p;
      assert w + p + [] == w + p;
    }
  }

  /** What is pushed for an element hosting an open shadow root, with the recursive walk by worklist. */
  lemma VisitOfHost(x: Node, deep: bool)
    requires HasOpenShadow(x)
    ensures Visit(x, deep) == [Root(x.shadow.value)] + Elems(Descendants(Root(x.shadow.value))) +
      (if deep then Walk(Root(x.shadow.value), deep) else [])
  {
    WalkOfRoot(x.shadow.value, deep);
  }

  /** A node met while walking a container's worklist is smaller than the container. */
  lemma VisitedNodeSmaller(t: Target, w: Target, x: Node)
    requires w in Worklist(t) && x in Descendants(w)
    ensures SizeN(x) < SizeT(t)
  {
    DescSize(Children(w), x);
    if w != t {
      assert SizeS(t.node.shadow.value) < SizeN(t.node);
    }
  }

  // ---- The imperative walk ----

  /** The `elements` array that every call of `recurse` pushes onto. */
  class Accumulator {
    var items: seq<Target>

    constructor ()
      ensures items == []
    {
      items := [];
    }

    /** `elements.push(t)` */
    method Push(t: Target)
      modifies this
      ensures items == old(items) + [t]
    {
      items := items + [t];
    }
  }

  /**
   * `recurse(container, "*", options, _, elements, currentDepth)`. The
   * `elementsToProcess` argument is not a parameter: the call replaces it
   * before reading it. The local worklist still receives the pushes of the
   * deep branch, but the loop over it stops at the length it had when the
   * loop began, as `forEach` does.
   */
  method Recurse(container: Container, depth: Depth, elements: Accumulator, currentDepth: int)
    returns (r: seq<Target>)
    modifies elements
    decreases SizeT(Normalize(container)), 1
    ensures elements.items == old(elements.items) + Walk(Normalize(container), !Exhausted(depth, currentDepth))
    ensures r == Dedup(elements.items)
  {
    ghost var deep := !Exhausted(depth, currentDepth);
    var c := Normalize(container);
    var toProcess := PushContainer(c, elements);
    ghost var ws := Worklist(c);
    var n := |toProcess|;
    var i := 0;
    while i < n
      invariant 0 <= i <= n <= |toProcess| && toProcess[..n] == ws
      invariant elements.items == old(elements.items) + ws + ProcWorklist(ws[..i], deep)
    {
      ghost var prev := toProcess;
      toProcess := ProcessEntry(c, toProcess[i], depth, elements, currentDepth, toProcess);
      assert toProcess[..n] == prev[..n];
      ProcWorklistSnoc(ws, i, deep);
      AppendAssoc(old(elements.items) + ws, ProcWorklist(ws[..i], deep), VisitAll(Descendants(ws[i]), deep));
      i := i + 1;
    }
    assert ws[..i] == ws;
    AppendAssoc(old(elements.items), ws, ProcWorklist(ws, deep));
    r := Dedup(elements.items);
  }

  /**
   * The start of `recurse`: push the container onto `elements`, then its
   * shadow root when it is an element whose shadow root is not closed, and
   * return the same entries as the new worklist.
   */
  method PushContainer(c: Target, elements: Accumulator) returns (toProcess: seq<Target>)
    modifies elements
    ensures toProcess == Worklist(c)
    ensures elements.items == old(elements.items) + toProcess
  {
    toProcess := [c];
    elements.Push(c);
    if c.Elem? && c.node.shadow.Some? && !c.node.shadow.value.closed {
      elements.Push(Root(c.node.shadow.value));
      toProcess := toProcess + [Root(c.node.shadow.value)];
    }
  }

  /**
   * The outer `forEach` callback, run on worklist entry `w` of the call on
   * `c`: visit every descendant of `w` in document order. What the visits
   * append to the worklist lies past the length the outer loop stops at, so
   * it is never processed; only its being an extension matters.
   */
  method ProcessEntry(ghost c: Target, w: Target, depth: Depth, elements: Accumulator, currentDepth: int,
                      toProcess: seq<Target>)
    returns (toProcess': seq<Target>)
    requires w in Worklist(c)
    modifies elements
    decreases SizeT(c), 0
    ensures elements.items == old(elements.items) + VisitAll(Descendants(w), !Exhausted(depth, currentDepth))
    ensures toProcess <= toProcess'
  {
    ghost var deep := !Exhausted(depth, currentDepth);
    toProcess' := toProcess;
    var found := Descendants(w);
    var j := 0;
    while j < |found|
      invariant 0 <= j <= |found|
      invariant toProcess <= toProcess'
      invariant elements.items == old(elements.items) + VisitAll(found[..j], deep)
    {
      VisitedNodeSmaller(c, w, found[j]);
      toProcess' := VisitFound(found[j], depth, elements, currentDepth, toProcess');
      VisitAllSnoc(found, j, deep);
      AppendAssoc(old(elements.items), VisitAll(found[..j], deep), Visit(found[j], deep));
      j := j + 1;
    }
    assert found[..j] == found;
  }

  /**
   * The `forEach` callback run on each descendant `x` of a worklist entry:
   * it pushes onto `elements`, appends to the caller's worklist, and may
   * start the recursive call. Returns the caller's worklist afterwards.
   */
  method VisitFound(x: Node, depth: Depth, elements: Accumulator, currentDepth: int, toProcess: seq<Target>)
    returns (toProcess': seq<Target>)
    modifies elements
    decreases SizeN(x), 0
    ensures elements.items == old(elements.items) + Visit(x, !Exhausted(depth, currentDepth))
    ensures toProcess' == toProcess +
      (if HasOpenShadow(x) && !Exhausted(depth, currentDepth) then Elems(Descendants(Root(x.shadow.value))) else [])
  {
    ghost var deep := !Exhausted(depth, currentDepth);
    ghost var before := elements.items;
    if x.shadow == None || x.shadow.value.closed {
      elements.Push(Elem(x));
      return toProcess;
    }
    var s := x.shadow.value;
    elements.Push(Root(s));
    ghost var found := Elems(Descendants(Root(s)));
    VisitOfHost(x, deep);
    if Exhausted(depth, currentDepth) {
      toProcess' := PushEach(Descendants(Root(s)), elements, false, toProcess);
      AppendAssoc(before, [Root(s)], found);
      return;
    }
    toProcess' := PushEach(Descendants(Root(s)), elements, true, toProcess);
    assert SizeS(s) < SizeN(x);
    var _ := Recurse(Shadow(s), depth, elements, currentDepth);
    AppendAssoc(before, [Root(s)], found);
    AppendAssoc(before, [Root(s)] + found, Walk(Root(s), deep));
  }

  /**
   * `el.shadowRoot.querySelectorAll("*").forEach(...)`: push each found
   * element onto `elements` and, when `enqueue` holds, onto the caller's
   * worklist as well.
   */
  method PushEach(xs: seq<Node>, elements: Accumulator, enqueue: bool, toProcess: seq<Target>)
    returns (toProcess': seq<Target>)
    modifies elements
    ensures elements.items == old(elements.items) + Elems(xs)
    ensures toProcess' == if enqueue then toProcess + Elems(xs) else toProcess
  {
    toProcess' := toProcess;
    var k := 0;
    while k < |xs|
      invariant 0 <= k <= |xs|
      invariant elements.items == old(elements.items) + Elems(xs[..k])
      invariant toProcess' == if enqueue then toProcess + Elems(xs[..k]) else toProcess
    {
      elements.Push(Elem(xs[k]));
      if enqueue {
        toProcess' := toProcess' + [Elem(xs[k])];
      }
      ElemsSnoc(xs, k);
      k := k + 1;
    }
    assert xs[..k] == xs;
  }

  /** `getAllElementsAndShadowRoots(container, options)` */
  method GetAllElementsAndShadowRoots(container: Container, depth: Depth) returns (r: seq<Target>)
    ensures r == Flatten(container, depth)
  {
    var elements := new Accumulator();
    r := Recurse(container, depth, elements, 1);
    assert elements.items == Walk(Normalize(container), !Exhausted(depth, 1));
  }

  lemma {:induction false} ProcWorklistAppend(a: seq<Target>, b: seq<Target>, deep: bool)
    ensures ProcWorklist(a + b, deep) == ProcWorklist(a, deep) + ProcWorklist(b, deep)
    decreases |a|
  {
    if a != [] {
      assert (a + b)[1..] == a[1..] + b;
      ProcWorklistAppend(a[1..], b, deep);
    } else {
      assert a + b == b;
    }
  }

  lemma VisitAllSnoc(xs: seq<Node>, j: nat, deep: bool)
    requires j < |xs|
    ensures VisitAll(xs[..j + 1], deep) == VisitAll(xs[..j], deep) + Visit(xs[j], deep)
  {
    assert xs[..j + 1] == xs[..j] + [xs[j]];
    VisitAllAppend(xs[..j], [xs[j]], deep);
    assert [xs[j]][1..] == [];
  }

  lemma ElemsSnoc(xs: seq<Node>, k: nat)
    requires k < |xs|
    ensures Elems(xs[..k + 1]) == Elems(xs[..k]) + [Elem(xs[k])]
  {
  }

  lemma ProcWorklistSnoc(ws: seq<Target>, i: nat, deep: bool)
    requires i < |ws|
    ensures ProcWorklist(ws[..i + 1], deep) == ProcWorklist(ws[..i], deep) + VisitAll(Descendants(ws[i]), deep)
  {
    assert ws[..i + 1] == ws[..i] + [ws[i]];
    ProcWorklistAppend(ws[..i], [ws[i]], deep);
    ProcWorklistOne(ws[i], deep);
  }
}
