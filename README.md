# Deep selectors across shadow roots

A model of `exports/index.js` of `konnors-deep-selectors`, which answers CSS
queries across shadow-DOM boundaries. The model covers two layers:

- **The flattener.** `getAllElementsAndShadowRoots` runs `recurse` with the
  selector `"*"`. The walk starts at a container (an element, a document or a
  shadow root). It pushes onto one shared `elements` array the container, the
  container's open shadow root, every element of its tree that hosts no open
  shadow root, and every open shadow root it meets (in place of its host)
  together with every element of that root's tree, whatever the depth. Under
  the depth option it then also recurses into those roots. The result is the array with repeats removed (`[...new Set(...)]`).
- **The query layer.** `deepQuerySelectorAll` runs the browser's local
  `querySelectorAll(selector)` on every listed entry and concatenates the
  answers in list order. It then removes repeats. `deepQuerySelector` returns
  the first element of that answer, or `null`.

Modules:

- `Seqs` holds order-preserving deduplication.
- `Dom` holds the tree, the local query and the selector, which is taken as a
  predicate on elements.
- `Flattener` holds the walk as functions: `Walk` follows the loops and
  `ProcTree` follows the tree. It also holds the walk as imperative methods
  over a shared `Accumulator`, which plays the `elements` array.
- `Reach` describes the listed entries without reference to the walk.
- `Query` holds the two query functions.

The model follows the code as written:

- **Flat depth counter.** `currentDepth` starts at 1 and is passed unchanged
  to the recursive call (`exports/index.js:137`). A finite depth therefore
  either stops every recursion (depth at most 1) or none (depth above 1). See
  `Reach.DepthAllOrNothing`.
- **Worklist length fixed.** The worklist's `forEach` visits only the entries
  present when it starts. The shadow-tree elements appended to it at :135 are
  never visited from it. They are pushed onto `elements` directly, and the
  recursive call on their root walks them again.
- **`elementsToProcess` not a parameter.** The argument is replaced at :101
  before it is read, so the model drops it.
- **Hosts not listed.** An element of the container's tree (or of the
  container's own shadow tree) that hosts an open shadow root is not listed.
  Its shadow root is listed in its place (`Reach.FlattenMembers`).
- **Container not returned.** The container is the first listed entry, but
  the query layer never returns it: a local query returns descendants only
  (`Query.ContainerNotReturned`).
- **Documented example order.** The documentation example at :36-42 says
  `[slot, div]`. The code answers `[div, slot]`, because the container's light
  children are queried before its shadow root. The model follows the code
  (`Query.ExampleQueryAll`).

## Model

| member | source | states |
|---|---|---|
| Seqs.Dedup | exports/index.js:142 | the result holds exactly the values of the input, each once |
| Seqs.DedupFirstOccurrenceOrder | exports/index.js:142 | deduplication keeps values in the order of their first occurrence |
| Seqs.DedupKeepsDistinctPrefix | exports/index.js:142 | a duplicate-free head of the input stays, unchanged, at the head of the result |
| Seqs.DedupHead | exports/index.js:59 | the first value of a non-empty input is the first value of the result |
| Dom.Filter | exports/index.js:57 | a local query keeps exactly the descendants the selector matches |
| Dom.DescTransitive | exports/index.js:115-116 | the local descendants of a descendant are descendants |
| Flattener.Worklist | exports/index.js:101-112 | the worklist is the container, then its shadow root when that is open, with no repeats |
| Flattener.Flatten | exports/index.js:68-74 | the list has no repeats, starts with the (normalized) container, and has the container's open shadow root second |
| Flattener.ProcTreeIsVisitAll | exports/index.js:114-138 | visiting the descendants in document order is the same as walking the tree structurally |
| Flattener.WalkOfRoot | exports/index.js:137 | the recursive call on a shadow root pushes the root, then the walk of its children |
| Flattener.WalkByStructure | exports/index.js:101-139 | one call pushes its worklist, then the walk of the container's children, then the walk of its open shadow root's children |
| Flattener.VisitOfHost | exports/index.js:122-137 | a host with an open root yields the root, the root's descendants and, when recursion is allowed, the recursive walk |
| Flattener.Accumulator.Push | exports/index.js:102 | `elements.push` appends one entry and changes nothing else |
| Flattener.Recurse | exports/index.js:84-143 | the call appends exactly `Walk` of its container at its depth (`Walk` is the functional model of the worklist and loops at :101-139) and returns the deduplicated array |
| Flattener.PushContainer | exports/index.js:101-112 | the container and its open shadow root are pushed and become the worklist |
| Flattener.ProcessEntry | exports/index.js:114-139 | processing one worklist entry appends the visits of its descendants in document order and only extends the worklist |
| Flattener.VisitFound | exports/index.js:117-138 | one found element pushes exactly `Visit` (the functional model of :117-138): itself, or its open shadow root, that root's descendants and, when the depth allows, the recursive walk; the worklist gains exactly that root's descendants in the deep branch and nothing otherwise |
| Flattener.PushEach | exports/index.js:127-136 | every descendant of the shadow root is pushed in order, and enqueued exactly in the deep branch |
| Flattener.GetAllElementsAndShadowRoots | exports/index.js:68-74 | the imperative walk from a fresh array returns `Flatten` |
| Reach.FlattenMembers | exports/index.js:84-143 | an entry is listed iff it is the container, its open root, or listed by the walk of the container's tree or that root's tree |
| Reach.ProcTreeMembers | exports/index.js:114-138 | the walk of a tree lists exactly its non-host elements, the open roots it reaches, and every element of their trees |
| Reach.OpenRootsAreOpen | exports/index.js:118-121 | every shadow root the walk reaches is open |
| Reach.ClosedRootsNeverEntered | exports/index.js:105-121 | a closed shadow root is listed only when it is itself the container |
| Reach.DocumentActsAsRootElement | exports/index.js:93-96 | a document lists exactly what its root element lists, so `<html>` is walked once |
| Reach.InnerRootListed | exports/index.js:124-137 | a shadow root entered from a descendant is listed, with every element of its tree |
| Reach.HostTreeListed | exports/index.js:111-136 | every visited host (in the container's tree, in its own shadow tree, and, with depth above 1, in every entered tree) gets its open root and all of that root's elements listed |
| Reach.UnboundedListsEveryReachableRoot | exports/index.js:124-137 | with no depth bound every reachable open root is listed; every element of a root entered from a descendant is listed, and an element of the container's own shadow tree is listed or replaced by its open root |
| Reach.ListedHostIsNested | exports/index.js:118-124 | a listed host of an open root is the container or lies inside a shadow tree entered from a descendant |
| Reach.ShallowWithinDeep | exports/index.js:126-131 | a depth-bounded list holds nothing the unbounded list lacks |
| Reach.DepthAllOrNothing | exports/index.js:126 | because the counter never moves, any depth at most 1 acts as 1 and any depth above 1 acts as unbounded (`Flattener.Exhausted` is the guard `options.depth <= currentDepth` of :126) |
| Reach.ShallowRootsAreHosted | exports/index.js:126-131 | with depth at most 1, each listed root is open and hosted in the container's tree or the container's own shadow tree |
| Reach.FlattenOrder | exports/index.js:142 | the list keeps the order in which entries were first pushed |
| Query.QueryEach | exports/index.js:56-58 | the concatenated local answers are exactly the matching descendants of some entry |
| Query.DeepQuerySelectorAll | exports/index.js:49-60 | the answer has no repeats and holds exactly the matching descendants of listed entries |
| Query.DeepQueryScope | exports/index.js:49-60 | the answer is exactly the matching elements of the container's tree and of the shadow trees the walk enters |
| Query.ContainerNotReturned | exports/index.js:102 | the container element (or the document's root element) is never in the answer |
| Query.DeepQuerySelector | exports/index.js:18-30 | the answer is element 0 of `deepQuerySelectorAll`, which matches, and `null` exactly when that is empty |
| Query.DeepAgreesWithLocalFirst | exports/index.js:18-30 | when the container's own local query finds something, the deep answer is that query's first element |
| Query.ShadowFreeIsLocal | exports/index.js:33-34 | with no open shadow root at or below the container, the deep answer holds exactly the local query's elements, in its order |
| Query.DeepQuerySelectorFirstMatch | exports/index.js:18-30 | `null` iff nothing in the search scope matches; otherwise a matching element of the scope, the first local answer in list order |
| Query.ExampleFlatten | exports/index.js:36-42 | the documented tree lists the host, its shadow root, `div`, then `slot` |
| Query.ExampleQueryAll | exports/index.js:36-42 | the documented tree answers `"*"` with `div` then `slot` |
| Query.ExampleQuerySlot | exports/index.js:36-42 | the documented tree answers a selector matching only the slot with `slot` alone |

## Left out

- The DOM is modelled as immutable values: an element has its children and an optional shadow root, and a shadow root has its children. A node's `id` stands for its object identity. The model does not require ids to be unique: two equal values are treated as one node, as a `Set` would treat one object.
- CSS selector parsing and matching are not part of this model. A selector is a predicate on elements, and the flattener's fixed selector `"*"` is the predicate true everywhere.
- Text nodes, comments and other non-element children are not modelled: `querySelectorAll` never returns them.
- `options.depth` is either an integer or `Infinity`. `NaN`, fractional and non-numeric values are not modelled.
- A `Document` container is modelled by its root element. The source always reads the global `document.documentElement` (:95), whichever document was passed. The model assumes that is the document passed, and that it has a root element.
- Only `HTMLElement` containers have their own shadow root checked (:106). Other element kinds are modelled as if they were `HTMLElement`s.
- `Array.from`, `.flat(Infinity)` and the `Array.isArray` test in `deepQuerySelector` are modelled as concatenation and a length test: the answers are always flat arrays.
- The imperative methods carry the worklist as a value of type `seq` rather than as one array shared by reference with the callbacks. Appends to it through the closure become returned values.
