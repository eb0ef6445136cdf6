/**
 * The part of the DOM the deep selectors read: elements with their light
 * children in document order, the shadow root an element may host, and the
 * browser's local `querySelectorAll`, which returns the matching descendants
 * of its anchor in document order and never crosses into a shadow root.
 *
 * A node is identified by its value; its `id` keeps two distinct DOM objects
 * distinct values, so comparing values is comparing identities.
 */
module Dom {

  type Id = nat

  datatype Option<T> = None | Some(value: T)

  /** An element: identity, light-DOM children, and its `shadowRoot` if one is attached. */
  datatype Node = Node(id: Id, children: seq<Node>, shadow: Option<ShadowRoot>)

  /** A shadow root: identity, whether its `mode` is "closed", and its own children. */
  datatype ShadowRoot = ShadowRoot(id: Id, closed: bool, children: seq<Node>)

  /** Something a local query can be anchored at: an element or a shadow root. */
  datatype Target = Elem(node: Node) | Root(root: ShadowRoot)

  /** A CSS selector, as the set of elements it matches. */
  type Selector = Node -> bool

  /** `el.shadowRoot != null && el.shadowRoot.mode !== "closed"` */
  predicate HasOpenShadow(n: Node) {
    n.shadow.Some? && !n.shadow.value.closed
  }

  function SizeN(n: Node): nat {
    1 + SizeF(n.children) + (match n.shadow case None => 0 case Some(s) => SizeS(s))
  }

  function SizeS(s: ShadowRoot): nat {
    1 + SizeF(s.children)
  }

  function SizeF(cs: seq<Node>): nat {
    if cs == [] then 0 else SizeN(cs[0]) + SizeF(cs[1..])
  }

  function SizeT(t: Target): nat {
    match t
    case Elem(n) => SizeN(n)
    case Root(s) => SizeS(s)
  }

  /** A forest's first tree, its children and its shadow root are all smaller than the forest. */
  lemma SizeSplit(cs: seq<Node>)
    requires cs != []
    ensures SizeF(cs[0].children) < SizeN(cs[0]) <= SizeF(cs)
    ensures SizeF(cs[1..]) < SizeF(cs)
    ensures cs[0].shadow.Some? ==> SizeS(cs[0].shadow.value) < SizeN(cs[0])
  {
  }

  function Children(t: Target): seq<Node> {
    match t
    case Elem(n) => n.children
    case Root(s) => s.children
  }

  /** The nodes of the forest `cs` in document (pre-)order, without crossing shadow roots. */
  function Desc(cs: seq<Node>): seq<Node> {
    if cs == [] then []
    else [cs[0]] + Desc(cs[0].children) + Desc(cs[1..])
  }

  /** `t.querySelectorAll("*")`: every descendant of `t` in its own tree, `t` excluded. */
  function Descendants(t: Target): seq<Node> {
    Desc(Children(t))
  }

  /** The elements of `xs` that `sel` matches, in order. */
  function Filter(xs: seq<Node>, sel: Selector): (r: seq<Node>)
    ensures forall x :: x in r <==> x in xs && sel(x)
  {
    if xs == [] then []
    else (if sel(xs[0]) then [xs[0]] else []) + Filter(xs[1..], sel)
  }

  /** `t.querySelectorAll(selector)` */
  function QuerySelectorAll(t: Target, sel: Selector): seq<Node> {
    Filter(Descendants(t), sel)
  }

  /** A node of a forest is no larger than the forest. */
  lemma {:induction false} DescSize(cs: seq<Node>, x: Node)
    requires x in Desc(cs)
    ensures SizeN(x) <= SizeF(cs)
    decreases SizeF(cs)
  {
    SizeSplit(cs);
    if x != cs[0] {
      if x in Desc(cs[0].children) {
        DescSize(cs[0].children, x);
      } else {
        DescSize(cs[1..], x);
      }
    }
  }

  /** The local descendants of a node of a forest are nodes of that forest. */
  lemma {:induction false} DescTransitive(cs: seq<Node>, y: Node, x: Node)
    requires y in Desc(cs) && x in Desc(y.children)
    ensures x in Desc(cs)
    decreases SizeF(cs)
  {
    SizeSplit(cs);
    if y != cs[0] {
      if y in Desc(cs[0].children) {
        DescTransitive(cs[0].children, y, x);
      } else {
        DescTransitive(cs[1..], y, x);
      }
    }
  }
}
