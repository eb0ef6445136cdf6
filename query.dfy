/**
 * `deepQuerySelectorAll` and `deepQuerySelector`: run the browser's local
 * `querySelectorAll` on every entry `getAllElementsAndShadowRoots` lists,
 * concatenate the answers in list order, and drop repeats.
 */
module Query {
  import opened Seqs
  import opened Dom
  import opened Flattener
  import opened Reach

  /** `entries.map(el => Array.from(el.querySelectorAll(selector))).flat(Infinity)` */
  function QueryEach(ts: seq<Target>, sel: Selector): (r: seq<Node>)
    ensures forall x :: x in r <==> sel(x) && exists t :: t in ts && x in Descendants(t)
  {
    if ts == [] then []
    else QuerySelectorAll(ts[0], sel) + QueryEach(ts[1..], sel)
  }

  /**
   * `deepQuerySelectorAll(container, selector, options)`: every element matching
   * `sel` below some listed entry, once each, in the order first found. Shadow
   * roots are never part of the answer, since a local query only returns elements.
   */
  function DeepQuerySelectorAll(c: Container, sel: Selector, depth: Depth): (r: seq<Node>)
    ensures Distinct(r)
    ensures forall x :: x in r <==> sel(x) && exists t :: t in Flatten(c, depth) && x in Descendants(t)
  {
    Dedup(QueryEach(Flatten(c, depth), sel))
  }

  /**
   * The elements found are exactly the matching elements of the container's
   * tree and of the shadow trees the walk enters (all open ones reachable
   * when the depth is above 1; only those hosted in the first two trees otherwise).
   */
  lemma DeepQueryScope(c: Container, sel: Selector, depth: Depth, x: Node)
    ensures x in DeepQuerySelectorAll(c, sel, depth) <==> sel(x) && InScope(x, Normalize(c), !Exhausted(depth, 1))
  {
    if x in DeepQuerySelectorAll(c, sel, depth) {
      var t :| t in Flatten(c, depth) && x in Descendants(t);
      FoundInScope(c, depth, t, x);
    }
    if sel(x) && InScope(x, Normalize(c), !Exhausted(depth, 1)) {
      ScopeFound(c, depth, x);
    }
  }

  /** Every element of the search scope lies below some listed entry. */
  lemma ScopeFound(c: Container, depth: Depth, x: Node)
    requires InScope(x, Normalize(c), !Exhausted(depth, 1))
    ensures exists t :: t in Flatten(c, depth) && x in Descendants(t)
  {
    var top := Normalize(c);
    var deep := !Exhausted(depth, 1);
    var f := Flatten(c, depth);
    if x in Desc(Children(top)) {
      assert f[0] == top;
      assert top in f && x in Descendants(top);
    } else {
      var r :| r in ScopeRoots(top, deep) && x in Desc(r.children);
      if r in InnerRoots(top, deep) {
        FlattenMembers(c, depth, Root(r));
      } else {
        assert f[1] == Root(r);
      }
      assert Root(r) in f && x in Descendants(Root(r));
    }
  }

  /** What a local query on a listed entry returns lies in the search scope. */
  lemma FoundInScope(c: Container, depth: Depth, t: Target, x: Node)
    requires t in Flatten(c, depth) && x in Descendants(t)
    ensures InScope(x, Normalize(c), !Exhausted(depth, 1))
  {
    var top := Normalize(c);
    var deep := !Exhausted(depth, 1);
    FlattenMembers(c, depth, t);
    if t == top {
    } else if InTree(t, Children(top), deep) {
      InTreeAnchorInScope(t, Children(top), top, deep, x);
    } else {
      var s := top.node.shadow.value;
      assert s in ScopeRoots(top, deep);
      if t != Root(s) {
        InTreeAnchorInScope(t, s.children, top, deep, x);
      }
    }
  }

  /** A descendant of an entry listed by the walk of `cs` lies in `cs` or in a tree of a reached root. */
  lemma InTreeAnchorInScope(t: Target, cs: seq<Node>, top: Target, deep: bool, x: Node)
    requires InTree(t, cs, deep) && x in Descendants(t)
    requires cs == Children(top) || (HostsOpenRoot(top) && cs == top.node.shadow.value.children)
    ensures InScope(x, top, deep)
  {
    var s := if HostsOpenRoot(top) then top.node.shadow.value else ShadowRoot(0, false, []);
    if t.Elem? && t.node in Desc(cs) && !HasOpenShadow(t.node) {
      DescTransitive(cs, t.node, x);
      if cs != Children(top) {
        assert s in ScopeRoots(top, deep);
      }
    } else if t.Root? {
      assert t.root in ScopeRoots(top, deep);
    } else {
      var r :| r in OpenRoots(cs, deep) && t.node in Desc(r.children);
      DescTransitive(r.children, t.node, x);
      assert r in ScopeRoots(top, deep);
    }
  }

  lemma DeepQueryScopeAll(c: Container, sel: Selector, depth: Depth)
    ensures forall x :: x in DeepQuerySelectorAll(c, sel, depth) <==> sel(x) && InScope(x, Normalize(c), !Exhausted(depth, 1))
  {
    forall x {
      DeepQueryScope(c, sel, depth, x);
    }
  }

  /**
   * The container itself is never in the answer, even though it is the first
   * listed entry: a local query returns descendants only, and every listed
   * entry lies below the container.
   */
  lemma ContainerNotReturned(c: Container, sel: Selector, depth: Depth)
    requires c.Element? || c.Document?
    ensures Normalize(c).node !in DeepQuerySelectorAll(c, sel, depth)
  {
    var top := Normalize(c);
    assert top.Elem?;
    DeepQueryScope(c, sel, depth, top.node);
    ElementOutsideOwnScope(top.node, !Exhausted(depth, 1));
  }

  /** An element lies neither in its own tree nor in a shadow tree reached from it. */
  lemma ElementOutsideOwnScope(n: Node, deep: bool)
    ensures !InScope(n, Elem(n), deep)
  {
    var top := Elem(n);
    if InScope(n, top, deep) {
      if n in Desc(n.children) {
        DescSize(n.children, n);
      } else {
        var r :| r in ScopeRoots(top, deep) && n in Desc(r.children);
        DescSize(r.children, n);
        if r in OpenRoots(n.children, deep) {
          OpenRootSize(n.children, deep, r);
        } else {
          var s := n.shadow.value;
          if r != s {
            OpenRootSize(s.children, deep, r);
          }
        }
      }
    }
  }

  /**
   * `deepQuerySelector(container, selector, options)`: the first element of
   * `deepQuerySelectorAll`, or `null` when that is empty.
   */
  function DeepQuerySelector(c: Container, sel: Selector, depth: Depth): (r: Option<Node>)
    ensures r.Some? ==> sel(r.value) && r.value in DeepQuerySelectorAll(c, sel, depth)
    ensures r.Some? ==> r.value == DeepQuerySelectorAll(c, sel, depth)[0]
    ensures r.None? <==> DeepQuerySelectorAll(c, sel, depth) == []
  {
    var all := DeepQuerySelectorAll(c, sel, depth);
    if |all| > 0 then Some(all[0]) else None
  }

  /**
   * `deepQuerySelector` answers `null` exactly when no element of the search
   * scope matches; otherwise a matching element of the scope, namely the first
   * answer of the per-entry local queries, taken in list order.
   */
  lemma DeepQuerySelectorFirstMatch(c: Container, sel: Selector, depth: Depth)
    ensures DeepQuerySelector(c, sel, depth).None? <==> forall x :: sel(x) ==> !InScope(x, Normalize(c), !Exhausted(depth, 1))
    ensures DeepQuerySelector(c, sel, depth).Some? ==>
              var x := DeepQuerySelector(c, sel, depth).value;
              && sel(x) && InScope(x, Normalize(c), !Exhausted(depth, 1))
              && QueryEach(Flatten(c, depth), sel) != [] && x == QueryEach(Flatten(c, depth), sel)[0]
  {
    var all := DeepQuerySelectorAll(c, sel, depth);
    DeepQueryScopeAll(c, sel, depth);
    if |all| > 0 {
      assert all[0] in all;
      DedupHead(QueryEach(Flatten(c, depth), sel));
    }
  }

  /**
   * When the container's own local query finds something, `deepQuerySelector`
   * returns its first answer, as a plain `querySelector` on the container would.
   */
  lemma DeepAgreesWithLocalFirst(c: Container, sel: Selector, depth: Depth)
    requires QuerySelectorAll(Normalize(c), sel) != []
    ensures DeepQuerySelector(c, sel, depth) == Some(QuerySelectorAll(Normalize(c), sel)[0])
  {
    var f := Flatten(c, depth);
    assert f[0] == Normalize(c);
    assert QueryEach(f, sel) == QuerySelectorAll(f[0], sel) + QueryEach(f[1..], sel);
    DedupHead(QueryEach(f, sel));
  }

  /**
   * Without open shadow roots below the container, the deep queries are the
   * container's own local query: the same elements, in the same order.
   */
  lemma ShadowFreeIsLocal(c: Container, sel: Selector, depth: Depth)
    requires !HostsOpenRoot(Normalize(c)) && ShadowFree(Children(Normalize(c)))
    ensures forall x :: x in DeepQuerySelectorAll(c, sel, depth) <==> x in QuerySelectorAll(Normalize(c), sel)
    ensures DeepQuerySelectorAll(c, sel, depth) == Dedup(QuerySelectorAll(Normalize(c), sel))
  {
    var top := Normalize(c);
    var f := Flatten(c, depth);
    var local := QuerySelectorAll(top, sel);
    ShadowFreeReachesNoRoot(Children(top), !Exhausted(depth, 1));
    assert ScopeRoots(top, !Exhausted(depth, 1)) == {};
    DeepQueryScopeAll(c, sel, depth);
    assert f[0] == top;
    assert QueryEach(f, sel) == local + QueryEach(f[1..], sel);
    forall x | x in QueryEach(f[1..], sel)
      ensures x in local
    {
      assert x in DeepQuerySelectorAll(c, sel, depth);
    }
    DedupAbsorbs(local, QueryEach(f[1..], sel));
  }

  /**
   * The tree of the example in the documentation of `deepQuerySelectorAll`:
   * `host` has one light child `div` and an open shadow root holding `slot`,
   * and neither `div` nor `slot` has children or a shadow root.
   */
  ghost predicate ExampleTree(host: Node, div: Node, slot: Node) {
    && host.children == [div]
    && host.shadow.Some? && !host.shadow.value.closed && host.shadow.value.children == [slot]
    && div.children == [] && div.shadow.None?
    && slot.children == [] && slot.shadow.None?
    && div != slot
  }

  /** The entries listed for the example: the host, its shadow root, `div`, then `slot`. */
  lemma ExampleFlatten(host: Node, div: Node, slot: Node)
    requires ExampleTree(host, div, slot)
    ensures Flatten(Element(host), Unbounded) == [Elem(host), Root(host.shadow.value), Elem(div), Elem(slot)]
  {
    var s := host.shadow.value;
    var top := Elem(host);
    assert [div][1..] == [] && [slot][1..] == [];
    assert ProcTree([div], true) == [Elem(div)];
    assert ProcTree([slot], true) == [Elem(slot)];
    WalkByStructure(top, true);
    assert Worklist(top) == [top, Root(s)];
    var f := [top, Root(s), Elem(div), Elem(slot)];
    assert Walk(top, true) == f;
    assert host != div && host != slot by {
      assert div in host.children;
      assert slot in s.children;
    }
    DedupOfDistinct(f);
  }

  /** The per-entry local queries of the example: the host finds `div`, its shadow root `slot`. */
  lemma ExampleQueryEach(host: Node, div: Node, slot: Node, sel: Selector)
    requires ExampleTree(host, div, slot)
    ensures QueryEach(Flatten(Element(host), Unbounded), sel) ==
      (if sel(div) then [div] else []) + (if sel(slot) then [slot] else [])
  {
    var f := [Elem(host), Root(host.shadow.value), Elem(div), Elem(slot)];
    ExampleFlatten(host, div, slot);
    LeavesFindNothing(f[2..], sel);
    assert f[1..][1..] == f[2..];
    assert QueryEach(f[1..], sel) == QuerySelectorAll(f[1], sel) + QueryEach(f[2..], sel);
    assert QueryEach(f, sel) == QuerySelectorAll(f[0], sel) + QueryEach(f[1..], sel);
    LeafQuery(f[0], div, sel);
    LeafQuery(f[1], slot, sel);
  }

  /** A local query on an entry whose only child is a leaf `x` finds `x` when it matches. */
  lemma LeafQuery(t: Target, x: Node, sel: Selector)
    requires Children(t) == [x] && x.children == []
    ensures QuerySelectorAll(t, sel) == if sel(x) then [x] else []
  {
    var cs := Children(t);
    assert cs[0] == x && cs[1..] == [];
    assert Desc(cs) == [x] + Desc(x.children) + Desc(cs[1..]);
    assert Descendants(t) == [x];
    assert [x][1..] == [];
    assert Filter([x], sel) == (if sel(x) then [x] else []) + Filter([], sel);
  }

  /** Entries without children find nothing. */
  lemma {:induction false} LeavesFindNothing(ts: seq<Target>, sel: Selector)
    requires forall i :: 0 <= i < |ts| ==> Children(ts[i]) == []
    ensures QueryEach(ts, sel) == []
    decreases |ts|
  {
    if ts != [] {
      LeavesFindNothing(ts[1..], sel);
    }
  }

  /**
   * The example's answer to a selector matching every element: `div`, then
   * `slot`, since the container's children are queried before its shadow root.
   */
  lemma ExampleQueryAll(host: Node, div: Node, slot: Node, sel: Selector)
    requires ExampleTree(host, div, slot)
    requires forall x :: sel(x)
    ensures DeepQuerySelectorAll(Element(host), sel, Unbounded) == [div, slot]
  {
    ExampleQueryEach(host, div, slot, sel);
    DedupOfDistinct([div, slot]);
  }

  /** The example's answer to a selector matching only `slot`: `slot` alone. */
  lemma ExampleQuerySlot(host: Node, div: Node, slot: Node, sel: Selector)
    requires ExampleTree(host, div, slot)
    requires forall x :: sel(x) <==> x == slot
    ensures DeepQuerySelectorAll(Element(host), sel, Unbounded) == [slot]
  {
    ExampleQueryEach(host, div, slot, sel);
    DedupOfDistinct([slot]);
  }
}
