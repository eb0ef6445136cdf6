/**
 * Which entries `getAllElementsAndShadowRoots` lists, described without the
 * walk: the container, the open shadow roots reachable from it, and the
 * elements of the trees it enters. An element that hosts an open shadow root
 * is listed only when it lies inside a shadow tree reached from a descendant;
 * in the container's own tree and in the container's own shadow tree such a
 * host is replaced by its shadow root.
 */
module Reach {
  import opened Seqs
  import opened Dom
  import opened Flattener

  /**
   * The open shadow roots hosted by nodes of the forest `cs`; when `deep`,
   * also those hosted inside such a root's tree, and so on. A closed shadow
   * root is never entered.
   */
  ghost function OpenRoots(cs: seq<Node>, deep: bool): set<ShadowRoot> {
    if cs == [] then {}
    else HostedRoots(cs[0], deep) + OpenRoots(cs[0].children, deep) + OpenRoots(cs[1..], deep)
  }

  /** The open shadow root of `x`, and, when `deep`, the open roots reachable inside it. */
  ghost function HostedRoots(x: Node, deep: bool): set<ShadowRoot> {
    if !HasOpenShadow(x) then {}
    else {x.shadow.value} + (if deep then OpenRoots(x.shadow.value.children, deep) else {})
  }

  /**
   * The entries the walk of the forest `cs` lists: the nodes of `cs` that host
   * no open shadow root, the open roots reached, and every node of their trees.
   */
  ghost predicate InTree(t: Target, cs: seq<Node>, deep: bool) {
    || (t.Elem? && t.node in Desc(cs) && !HasOpenShadow(t.node))
    || (t.Root? && t.root in OpenRoots(cs, deep))
    || (t.Elem? && exists r :: r in OpenRoots(cs, deep) && t.node in Desc(r.children))
  }

  /** The container is an element hosting an open shadow root. */
  ghost predicate HostsOpenRoot(top: Target) {
    top.Elem? && HasOpenShadow(top.node)
  }

  /**
   * The entries listed for a container `top`: itself, its own open shadow
   * root, and what the walks of its children and of that root's children list.
   */
  ghost predicate Listed(t: Target, top: Target, deep: bool) {
    || t == top
    || InTree(t, Children(top), deep)
    || (HostsOpenRoot(top) && (t == Root(top.node.shadow.value) || InTree(t, top.node.shadow.value.children, deep)))
  }

  /** The shadow roots entered from a descendant of the container or of the container's own shadow root. */
  ghost function InnerRoots(top: Target, deep: bool): set<ShadowRoot> {
    OpenRoots(Children(top), deep) +
    (if HostsOpenRoot(top) then OpenRoots(top.node.shadow.value.children, deep) else {})
  }

  /** The shadow roots whose trees a deep query searches, besides the container's own tree. */
  ghost function ScopeRoots(top: Target, deep: bool): set<ShadowRoot> {
    InnerRoots(top, deep) + (if HostsOpenRoot(top) then {top.node.shadow.value} else {})
  }

  /** The elements a deep query searches: the container's tree and every tree of `ScopeRoots`. */
  ghost predicate InScope(x: Node, top: Target, deep: bool) {
    x in Desc(Children(top)) || exists r :: r in ScopeRoots(top, deep) && x in Desc(r.children)
  }

  // ---- Basic facts ----

  lemma ElemsMembers(xs: seq<Node>, t: Target)
    ensures t in Elems(xs) <==> t.Elem? && t.node in xs
  {
  }

  /** Every shadow root reached is open. */
  lemma {:induction false} OpenRootsAreOpen(cs: seq<Node>, deep: bool, r: ShadowRoot)
    requires r in OpenRoots(cs, deep)
    ensures !r.closed
    decreases SizeF(cs)
  {
    SizeSplit(cs);
    var x := cs[0];
    if r in HostedRoots(x, deep) {
      if r != x.shadow.value {
        OpenRootsAreOpen(x.shadow.value.children, deep, r);
      }
    } else if r in OpenRoots(x.children, deep) {
      OpenRootsAreOpen(x.children, deep, r);
    } else {
      OpenRootsAreOpen(cs[1..], deep, r);
    }
  }

  /** The open root of every node of the forest is reached, at any depth. */
  lemma {:induction false} HostInOpenRoots(cs: seq<Node>, deep: bool, x: Node)
    requires x in Desc(cs) && HasOpenShadow(x)
    ensures x.shadow.value in OpenRoots(cs, deep)
    decreases SizeF(cs)
  {
    SizeSplit(cs);
    if x != cs[0] {
      if x in Desc(cs[0].children) {
        HostInOpenRoots(cs[0].children, deep, x);
      } else {
        HostInOpenRoots(cs[1..], deep, x);
      }
    }
  }

  /** The roots a shallow walk reaches are reached by a deep walk too. */
  lemma {:induction false} ShallowRootsWithinDeep(cs: seq<Node>, r: ShadowRoot)
    requires r in OpenRoots(cs, false)
    ensures r in OpenRoots(cs, true)
    decreases SizeF(cs)
  {
    SizeSplit(cs);
    if r !in HostedRoots(cs[0], false) {
      if r in OpenRoots(cs[0].children, false) {
        ShallowRootsWithinDeep(cs[0].children, r);
      } else {
        ShallowRootsWithinDeep(cs[1..], r);
      }
    }
  }

  /** A shadow root reached from a forest is smaller than the forest. */
  lemma {:induction false} OpenRootSize(cs: seq<Node>, deep: bool, r: ShadowRoot)
    requires r in OpenRoots(cs, deep)
    ensures SizeS(r) <= SizeF(cs)
    decreases SizeF(cs)
  {
    SizeSplit(cs);
    var x := cs[0];
    if r in HostedRoots(x, deep) {
      if r != x.shadow.value {
        OpenRootSize(x.shadow.value.children, deep, r);
      }
    } else if r in OpenRoots(x.children, deep) {
      OpenRootSize(x.children, deep, r);
    } else {
      OpenRootSize(cs[1..], deep, r);
    }
  }

  /** No node of the forest hosts an open shadow root. */
  ghost predicate ShadowFree(cs: seq<Node>) {
    forall y :: y in Desc(cs) ==> !HasOpenShadow(y)
  }

  /** A forest in which no node hosts an open shadow root reaches no shadow root. */
  lemma {:induction false} ShadowFreeReachesNoRoot(cs: seq<Node>, deep: bool)
    requires ShadowFree(cs)
    ensures OpenRoots(cs, deep) == {}
    decreases SizeF(cs)
  {
    if cs != [] {
      SizeSplit(cs);
      assert Desc(cs) == [cs[0]] + Desc(cs[0].children) + Desc(cs[1..]);
      ShadowFreeReachesNoRoot(cs[0].children, deep);
      ShadowFreeReachesNoRoot(cs[1..], deep);
    }
  }

  // ---- The walk of a forest lists exactly `InTree` ----

  /** Every entry the walk of a forest pushes is in `InTree`. */
  lemma {:induction false} ProcTreeSound(cs: seq<Node>, deep: bool, t: Target)
    requires t in ProcTree(cs, deep)
    ensures InTree(t, cs, deep)
    decreases SizeF(cs)
  {
    SizeSplit(cs);
    var x, a, b := cs[0], cs[0].children, cs[1..];
    assert ProcTree(cs, deep) == Visit(x, deep) + ProcTree(a, deep) + ProcTree(b, deep);
    if t in Visit(x, deep) {
      if HasOpenShadow(x) {
        var s := x.shadow.value;
        assert s in OpenRoots(cs, deep);
        ElemsMembers(Desc(s.children), t);
        if t != Root(s) && t !in Elems(Desc(s.children)) {
          assert Visit(x, deep) == [Root(s)] + Elems(Desc(s.children)) + (if deep then WalkShadow(s, deep) else []);
          assert deep && t in ProcTree(s.children, deep);
          ProcTreeSound(s.children, deep, t);
          if t.Elem? && t.node in Desc(s.children) {
          } else if t.Root? {
            assert t.root in OpenRoots(cs, deep);
          } else {
            var r :| r in OpenRoots(s.children, deep) && t.node in Desc(r.children);
            assert r in OpenRoots(cs, deep);
          }
        }
      }
    } else if t in ProcTree(a, deep) {
      ProcTreeSound(a, deep, t);
      if t.Elem? && exists r :: r in OpenRoots(a, deep) && t.node in Desc(r.children) {
        var r :| r in OpenRoots(a, deep) && t.node in Desc(r.children);
        assert r in OpenRoots(cs, deep);
      }
    } else {
      assert t in ProcTree(b, deep);
      ProcTreeSound(b, deep, t);
      if t.Elem? && exists r :: r in OpenRoots(b, deep) && t.node in Desc(r.children) {
        var r :| r in OpenRoots(b, deep) && t.node in Desc(r.children);
        assert r in OpenRoots(cs, deep);
      }
    }
  }

  /** Every node of a reached root's tree is pushed by the walk of the forest. */
  lemma {:induction false} ProcTreeCoversRootTree(cs: seq<Node>, deep: bool, r: ShadowRoot, y: Node)
    requires r in OpenRoots(cs, deep) && y in Desc(r.children)
    ensures Elem(y) in ProcTree(cs, deep)
    decreases SizeF(cs)
  {
    SizeSplit(cs);
    var x, a, b := cs[0], cs[0].children, cs[1..];
    assert ProcTree(cs, deep) == Visit(x, deep) + ProcTree(a, deep) + ProcTree(b, deep);
    if r in HostedRoots(x, deep) {
      var s := x.shadow.value;
      ElemsMembers(Desc(s.children), Elem(y));
      if r != s {
        ProcTreeCoversRootTree(s.children, deep, r, y);
        assert Visit(x, deep) == [Root(s)] + Elems(Desc(s.children)) + ([Root(s)] + ProcTree(s.children, deep));
      }
    } else if r in OpenRoots(a, deep) {
      ProcTreeCoversRootTree(a, deep, r, y);
    } else {
      ProcTreeCoversRootTree(b, deep, r, y);
    }
  }

  /** Every node of the forest that hosts no open shadow root is pushed by the walk. */
  lemma {:induction false} ProcTreeCoversPlain(cs: seq<Node>, deep: bool, y: Node)
    requires y in Desc(cs) && !HasOpenShadow(y)
    ensures Elem(y) in ProcTree(cs, deep)
    decreases SizeF(cs)
  {
    SizeSplit(cs);
    var x, a, b := cs[0], cs[0].children, cs[1..];
    assert ProcTree(cs, deep) == Visit(x, deep) + ProcTree(a, deep) + ProcTree(b, deep);
    if y == x {
      assert Visit(x, deep) == [Elem(x)];
    } else if y in Desc(a) {
      ProcTreeCoversPlain(a, deep, y);
    } else {
      ProcTreeCoversPlain(b, deep, y);
    }
  }

  /** The walk of a forest pushes exactly the entries of `InTree`. */
  lemma ProcTreeMembers(cs: seq<Node>, deep: bool, t: Target)
    ensures t in ProcTree(cs, deep) <==> InTree(t, cs, deep)
  {
    if t in ProcTree(cs, deep) {
      ProcTreeSound(cs, deep, t);
    }
    if InTree(t, cs, deep) {
      if t.Elem? && t.node in Desc(cs) && !HasOpenShadow(t.node) {
        ProcTreeCoversPlain(cs, deep, t.node);
      } else if t.Root? {
        RootCovered(cs, deep, t.root);
      } else {
        var r :| r in OpenRoots(cs, deep) && t.node in Desc(r.children);
        ProcTreeCoversRootTree(cs, deep, r, t.node);
      }
    }
  }

  /** Every reached root is pushed by the walk of the forest. */
  lemma {:induction false} RootCovered(cs: seq<Node>, deep: bool, r: ShadowRoot)
    requires r in OpenRoots(cs, deep)
    ensures Root(r) in ProcTree(cs, deep)
    decreases SizeF(cs)
  {
    SizeSplit(cs);
    var x, a, b := cs[0], cs[0].children, cs[1..];
    assert ProcTree(cs, deep) == Visit(x, deep) + ProcTree(a, deep) + ProcTree(b, deep);
    if r in HostedRoots(x, deep) {
      var s := x.shadow.value;
      if r != s {
        RootCovered(s.children, deep, r);
        assert Visit(x, deep) == [Root(s)] + Elems(Desc(s.children)) + ([Root(s)] + ProcTree(s.children, deep));
      }
    } else if r in OpenRoots(a, deep) {
      RootCovered(a, deep, r);
    } else {
      RootCovered(b, deep, r);
    }
  }

  // ---- What `getAllElementsAndShadowRoots` lists ----

  /** The list holds exactly the entries of `Listed`, whatever the depth option. */
  lemma FlattenMembers(c: Container, depth: Depth, t: Target)
    ensures t in Flatten(c, depth) <==> Listed(t, Normalize(c), !Exhausted(depth, 1))
  {
    var top := Normalize(c);
    var deep := !Exhausted(depth, 1);
    WalkByStructure(top, deep);
    ProcTreeMembers(Children(top), deep, t);
    if HostsOpenRoot(top) {
      ProcTreeMembers(top.node.shadow.value.children, deep, t);
    }
  }

  /** The only closed shadow root that can be listed is a container passed in as such. */
  lemma ClosedRootsNeverEntered(c: Container, depth: Depth, r: ShadowRoot)
    requires Root(r) in Flatten(c, depth) && r.closed
    ensures c == Shadow(r)
  {
    var top := Normalize(c);
    var deep := !Exhausted(depth, 1);
    FlattenMembers(c, depth, Root(r));
    if Root(r) != top {
      if r in OpenRoots(Children(top), deep) {
        OpenRootsAreOpen(Children(top), deep, r);
      } else {
        assert HostsOpenRoot(top);
        if r != top.node.shadow.value {
          OpenRootsAreOpen(top.node.shadow.value.children, deep, r);
        }
      }
    }
  }

  /** A root reached inside the tree of a reached root is reached as well. */
  lemma {:induction false} NestedHostInOpenRoots(cs: seq<Node>, r: ShadowRoot, x: Node)
    requires r in OpenRoots(cs, true) && x in Desc(r.children) && HasOpenShadow(x)
    ensures x.shadow.value in OpenRoots(cs, true)
    decreases SizeF(cs)
  {
    SizeSplit(cs);
    var z := cs[0];
    if r in HostedRoots(z, true) {
      var s := z.shadow.value;
      if r == s {
        HostInOpenRoots(s.children, true, x);
      } else {
        NestedHostInOpenRoots(s.children, r, x);
      }
    } else if r in OpenRoots(z.children, true) {
      NestedHostInOpenRoots(z.children, r, x);
    } else {
      NestedHostInOpenRoots(cs[1..], r, x);
    }
  }

  /**
   * A shadow root entered from a descendant of the container, or of the
   * container's own shadow root, is listed, and so is every element of its tree.
   */
  lemma InnerRootListed(c: Container, depth: Depth, r: ShadowRoot, y: Node)
    requires r in InnerRoots(Normalize(c), !Exhausted(depth, 1))
    ensures Root(r) in Flatten(c, depth)
    ensures y in Desc(r.children) ==> Elem(y) in Flatten(c, depth)
  {
    var top := Normalize(c);
    var deep := !Exhausted(depth, 1);
    FlattenMembers(c, depth, Root(r));
    FlattenMembers(c, depth, Elem(y));
    if y in Desc(r.children) {
      if r in OpenRoots(Children(top), deep) {
        assert InTree(Elem(y), Children(top), deep);
      } else {
        assert InTree(Elem(y), top.node.shadow.value.children, deep);
      }
    }
  }

  /**
   * Every element the walk visits that hosts an open shadow root has that
   * root listed, and every element of the root's tree too. The walk visits
   * the container's tree and its own shadow tree at any depth, and every
   * tree it enters when the depth is above 1.
   */
  lemma HostTreeListed(c: Container, depth: Depth, x: Node, y: Node)
    requires HasOpenShadow(x)
    requires || x in Descendants(Normalize(c))
             || (HostsOpenRoot(Normalize(c)) && x in Desc(Normalize(c).node.shadow.value.children))
             || (!Exhausted(depth, 1) && exists r :: r in ScopeRoots(Normalize(c), true) && x in Desc(r.children))
    ensures Root(x.shadow.value) in Flatten(c, depth)
    ensures y in Desc(x.shadow.value.children) ==> Elem(y) in Flatten(c, depth)
  {
    var top := Normalize(c);
    var deep := !Exhausted(depth, 1);
    if x in Descendants(top) {
      HostInOpenRoots(Children(top), deep, x);
    } else if HostsOpenRoot(top) && x in Desc(top.node.shadow.value.children) {
      HostInOpenRoots(top.node.shadow.value.children, deep, x);
    } else {
      var r :| r in ScopeRoots(top, true) && x in Desc(r.children);
      if r in OpenRoots(Children(top), true) {
        NestedHostInOpenRoots(Children(top), r, x);
      } else if r in OpenRoots(top.node.shadow.value.children, true) {
        NestedHostInOpenRoots(top.node.shadow.value.children, r, x);
      } else {
        HostInOpenRoots(r.children, true, x);
      }
    }
    InnerRootListed(c, depth, x.shadow.value, y);
  }

  /**
   * With no depth bound the walk is complete: every open shadow root
   * reachable from the container through open roots is listed. Every element
   * of a root entered from a descendant is listed itself; an element of the
   * container's own shadow tree is listed or, when it hosts an open root,
   * replaced by that root.
   */
  lemma UnboundedListsEveryReachableRoot(c: Container, r: ShadowRoot, y: Node)
    requires r in ScopeRoots(Normalize(c), true)
    ensures Root(r) in Flatten(c, Unbounded)
    ensures r in InnerRoots(Normalize(c), true) && y in Desc(r.children) ==> Elem(y) in Flatten(c, Unbounded)
    ensures y in Desc(r.children) ==>
              || Elem(y) in Flatten(c, Unbounded)
              || (HasOpenShadow(y) && Root(y.shadow.value) in Flatten(c, Unbounded))
  {
    var top := Normalize(c);
    if r in InnerRoots(top, true) {
      InnerRootListed(c, Unbounded, r, y);
    } else {
      FlattenMembers(c, Unbounded, Root(r));
      FlattenMembers(c, Unbounded, Elem(y));
      if y in Desc(r.children) && HasOpenShadow(y) {
        HostInOpenRoots(r.children, true, y);
        FlattenMembers(c, Unbounded, Root(y.shadow.value));
      }
    }
  }

  /**
   * A document acts exactly as its root element: `<html>` is walked once,
   * and a query on the document answers as one on its root element.
   */
  lemma DocumentActsAsRootElement(n: Node, depth: Depth)
    ensures Flatten(Document(n), depth) == Flatten(Element(n), depth)
    ensures Flatten(Document(n), depth)[0] == Elem(n)
  {
  }

  /** A listed element that hosts an open shadow root is the container or lies in an entered shadow tree. */
  lemma ListedHostIsNested(c: Container, depth: Depth, x: Node)
    requires Elem(x) in Flatten(c, depth) && HasOpenShadow(x)
    ensures Elem(x) == Normalize(c) || exists r :: r in InnerRoots(Normalize(c), !Exhausted(depth, 1)) && x in Desc(r.children)
  {
    var top := Normalize(c);
    var deep := !Exhausted(depth, 1);
    FlattenMembers(c, depth, Elem(x));
    if Elem(x) != top {
      if InTree(Elem(x), Children(top), deep) {
        var r :| r in OpenRoots(Children(top), deep) && x in Desc(r.children);
        assert r in InnerRoots(top, deep);
      } else {
        var r :| r in OpenRoots(top.node.shadow.value.children, deep) && x in Desc(r.children);
        assert r in InnerRoots(top, deep);
      }
    }
  }

  lemma InTreeShallowWithinDeep(t: Target, cs: seq<Node>)
    requires InTree(t, cs, false)
    ensures InTree(t, cs, true)
  {
    if t.Root? && t.root in OpenRoots(cs, false) {
      ShallowRootsWithinDeep(cs, t.root);
    } else if t.Elem? && exists r :: r in OpenRoots(cs, false) && t.node in Desc(r.children) {
      var r :| r in OpenRoots(cs, false) && t.node in Desc(r.children);
      ShallowRootsWithinDeep(cs, r);
    }
  }

  /** A bounded walk lists nothing the unbounded one does not. */
  lemma ShallowWithinDeep(c: Container, depth: Depth, t: Target)
    requires t in Flatten(c, depth)
    ensures t in Flatten(c, Unbounded)
  {
    var top := Normalize(c);
    FlattenMembers(c, depth, t);
    FlattenMembers(c, Unbounded, t);
    if InTree(t, Children(top), false) {
      InTreeShallowWithinDeep(t, Children(top));
    }
    if HostsOpenRoot(top) && InTree(t, top.node.shadow.value.children, false) {
      InTreeShallowWithinDeep(t, top.node.shadow.value.children);
    }
  }

  /**
   * The depth counter is never incremented, so a finite depth either stops
   * recursion at once (at most 1) or never stops it (above 1).
   */
  lemma DepthAllOrNothing(c: Container, n: int)
    ensures n <= 1 ==> Flatten(c, Finite(n)) == Flatten(c, Finite(1))
    ensures n > 1 ==> Flatten(c, Finite(n)) == Flatten(c, Unbounded)
  {
  }

  /** A root reached without recursion is hosted by a node of the forest itself. */
  lemma {:induction false} ShallowRootHosted(cs: seq<Node>, r: ShadowRoot) returns (x: Node)
    requires r in OpenRoots(cs, false)
    ensures x in Desc(cs) && x.shadow == Some(r) && !r.closed
    decreases SizeF(cs)
  {
    SizeSplit(cs);
    if r in HostedRoots(cs[0], false) {
      x := cs[0];
    } else if r in OpenRoots(cs[0].children, false) {
      x := ShallowRootHosted(cs[0].children, r);
    } else {
      x := ShallowRootHosted(cs[1..], r);
    }
  }

  /**
   * With a depth of at most 1 there is no recursion: every listed shadow root
   * other than the container is the container's own or is hosted by an element
   * of the container's tree or of the container's own shadow tree.
   */
  lemma ShallowRootsAreHosted(c: Container, depth: Depth, r: ShadowRoot)
    requires Exhausted(depth, 1) && Root(r) in Flatten(c, depth) && c != Shadow(r)
    ensures !r.closed
    ensures exists x: Node ::
              && x.shadow == Some(r)
              && (|| Elem(x) == Normalize(c)
                  || x in Descendants(Normalize(c))
                  || (HostsOpenRoot(Normalize(c)) && x in Desc(Normalize(c).node.shadow.value.children)))
  {
    var top := Normalize(c);
    FlattenMembers(c, depth, Root(r));
    if r in OpenRoots(Children(top), false) {
      var x := ShallowRootHosted(Children(top), r);
    } else if r == top.node.shadow.value {
      assert Elem(top.node) == top;
    } else {
      var x := ShallowRootHosted(top.node.shadow.value.children, r);
    }
  }

  /** The list keeps the walk's order of first pushes. */
  lemma FlattenOrder(c: Container, depth: Depth, i: nat, j: nat)
    requires i < j < |Flatten(c, depth)|
    ensures var w := Walk(Normalize(c), !Exhausted(depth, 1));
      Flatten(c, depth)[i] in w && Flatten(c, depth)[j] in w &&
      FirstIndex(w, Flatten(c, depth)[i]) < FirstIndex(w, Flatten(c, depth)[j])
  {
    DedupFirstOccurrenceOrder(Walk(Normalize(c), !Exhausted(depth, 1)), i, j);
  }
}
