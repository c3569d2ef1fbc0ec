# CXXGraph core (`include/Graph.hpp`) in Dafny

This project models the header-only graph library of CXXGraph: nodes with an
id and a payload, edges in three variants (plain, directed, undirected), and
`Graph<T>`, which keeps a mutable set of pointers to caller-owned edges, looks
edges up and removes them by id, and derives an adjacency map from them.

Files and modules:

- `wrappers.dfy` (`Wrappers`): `Option`, standing for `std::optional`.
- `values.dfy` (`Values`): `Node<T>`, the sum type `Edge` with variants
  `Plain | Directed | Undirected`, all carrying an id and a pair of node
  handles, and `Arena<T>`, the caller-owned node and edge objects.  A pointer
  is a handle (an index) into the arena, so pointer identity is handle
  equality.  The C++ constructors and getters of `Node` and the three edge
  classes are the datatype constructors and destructors (`Node(id, data)`,
  `e.id`, `e.pair`).
- `edge_sets.dfy` (`EdgeSets`): `std::set<const Edge<T>*>` as a strictly
  increasing sequence of handles, with `std::set` `insert`/`erase` and the
  specification of `getEdge` and `removeEdge`.
- `adjacency.dfy` (`Adjacency`): `AdjacencyMatrix<T>`, `addElementToAdjMatrix`
  and the specification of `getAdjMatrix`.  It has a reference description as a
  list of insertions (`Arcs`) and lemmas tying the two together.
- `graph.dfy` (`Graphs`): the class `Graph<T>` with a mutable `edgeSet` field.
  Its methods are proved against the functions above.  `getEdge` and
  `getAdjMatrix` are loops with invariants.
- `scenarios.dfy` (`Scenarios`): concrete graphs and the results derived for them.

Three points where the code's behaviour is easy to misread:

- The edge set holds pointers and uses the default pointer ordering.  So it
  iterates in address order, not in ascending edge id.  It suppresses
  duplicates by object identity, not by `Edge::operator==` (include/Graph.hpp:278).
  The model orders by handle, and `InsertKeepsEqualEdges` shows that a second
  edge object `==` to a stored one is still added.  `PlainFirst` shows that
  iteration order, not id order, decides where `getAdjMatrix` stops.
- An element of the adjacency vectors is a `std::pair<const Node<T>, const Edge<T>>`.
  The edge in it is a copy cut down to the base `Edge`, with the flags unset
  (include/Graph.hpp:24, 353).  The model stores `Slice(e)`, which is the
  plain edge with the same id and pointers.
- `std::map` orders `Node` keys with `Node::operator<`, which compares ids
  only.  So the map is keyed by node id, and `operator[]` keeps the key object
  inserted first (include/Graph.hpp:83-86, 355).  The model is a `map` from id
  to a row that holds that key object and its vector.

## Model

| member | source | states |
|---|---|---|
| `Values.NodeEq` | include/Graph.hpp:76-80 | `Node::operator==` holds exactly when the two nodes are the same value, that is, same id and same data |
| `Values.NodeOrder` | include/Graph.hpp:82-86 | `Node::operator<` compares ids only; it is irreflexive and transitive, and two nodes are equivalent under it exactly when their ids are equal |
| `Values.NodeKeyCoarserThanEq` | include/Graph.hpp:77-86 | two nodes with one id and different data are equivalent under `<` but not `==`, so data takes no part in ordering |
| `Values.IsDirected` | include/Graph.hpp:136-140 | `isDirected` is none exactly for a plain edge, some(true) exactly for a directed one (206-209), some(false) exactly for an undirected one (263-266) |
| `Values.IsWeighted` | include/Graph.hpp:142-146 | `isWeighted` is none exactly for a plain edge and never some(true); the overrides at 212-215 and 269-272 give some(false) |
| `Values.EdgeEq` | include/Graph.hpp:148-152 | `Edge::operator==` holds exactly when id and pointer pair agree, whatever the variants; on two directed edges it is value equality |
| `Values.EdgeOrder` | include/Graph.hpp:154-158 | `Edge::operator<` compares ids only, is a strict weak order, and `==` edges are equivalent under it |
| `Values.AsDirected` | include/Graph.hpp:188-191 | `DirectedEdge(const Edge &)` gives a directed edge that is `==` to its source: same id, same pointers |
| `Values.AsUndirected` | include/Graph.hpp:245-248 | `UndirectedEdge(const Edge &)` gives an undirected edge `==` to its source |
| `Values.DirectedToUndirected` | include/Graph.hpp:173 | the explicit conversion of a directed edge gives an undirected edge `==` to it |
| `Values.UndirectedToDirected` | include/Graph.hpp:230 | the explicit conversion of an undirected edge gives a directed edge `==` to it |
| `Values.Slice` | include/Graph.hpp:353 | copying an edge into the `const Edge<T>` of a pair keeps id and pointers (`==` to the original) and leaves both flags unset |
| `Values.DirectedRoundTrip` | include/Graph.hpp:173 | directed to undirected and back (230) yields the original edge, and the intermediate is `==` to it |
| `Values.UndirectedRoundTrip` | include/Graph.hpp:230 | undirected to directed and back (173) yields the original edge |
| `Values.ConversionKeepsEndpoints` | include/Graph.hpp:193-203 | after any conversion `getFrom`/`getNode1` (250-260) give the node behind the first pointer and `getTo`/`getNode2` the one behind the second |
| `Values.ConversionFromPlain` | include/Graph.hpp:188-191 | building a directed or undirected edge from a plain one keeps it `==` and sets the flag; cutting it back down gives the plain edge |
| `EdgeSets.IncreasingByElements` | include/Graph.hpp:278 | an ordered handle sequence is determined by its elements, so it represents the pointer set exactly |
| `EdgeSets.Insert` | include/Graph.hpp:317-321 | `insert` keeps the set ordered, adds exactly the pointer, leaves the set unchanged when that pointer is present and grows it by one otherwise |
| `EdgeSets.Erase` | include/Graph.hpp:329 | `erase` keeps the set ordered, removes exactly that pointer and shrinks the set by one when the pointer was present |
| `EdgeSets.InsertKeepsEqualEdges` | include/Graph.hpp:278 | duplicates are suppressed by pointer: inserting a distinct edge object `==` to a stored one grows the set |
| `EdgeSets.FindEdge` | include/Graph.hpp:333-347 | `getEdge` gives none exactly when no stored edge has the id, otherwise the handle at the first position in iteration order whose edge has the id |
| `EdgeSets.FirstWithIdUnique` | include/Graph.hpp:338-344 | the first match of the scan is a single position |
| `EdgeSets.RemoveById` | include/Graph.hpp:323-331 | the set left by `removeEdge` is still an ordered set of live pointers |
| `EdgeSets.RemoveByIdSpec` | include/Graph.hpp:323-331 | `removeEdge` of an absent id changes nothing; otherwise it removes the edge `getEdge` returns, one edge, and keeps every other edge |
| `EdgeSets.RemoveByIdOnce` | include/Graph.hpp:326-330 | after removal an edge with the id is still found exactly when another stored edge had that id |
| `Adjacency.AddElement` | include/Graph.hpp:349-359 | the pushed element goes under `from`'s id only: that slot gets the new key `from` if it was absent or keeps its key object, and its vector grows by `(to, edge cut down)` at the end; every other slot is unchanged |
| `Adjacency.FirstFrom` | include/Graph.hpp:355 | the key object kept for a node id is a node with that id, as `operator[]` under `Node::operator<` finds only a key of equal id |
| `Adjacency.ArcsAreSliced` | include/Graph.hpp:353 | the edge in every inserted element is a plain edge (`EdgeArcs` inserts `Slice(e)`, the base-part copy) |
| `Adjacency.GroupExtends` | include/Graph.hpp:355 | making a list of insertions one after another makes exactly the keys, key objects and vectors the list describes |
| `Adjacency.FoldIsGroup` | include/Graph.hpp:366-386 | the loop over the edge set performs exactly the reference insertions of the edges before the first plain one, in order |
| `Adjacency.AdjMatrixSpec` | include/Graph.hpp:361-388 | a node id is a key of `getAdjMatrix` exactly when something was inserted under it; its key object is the first node inserted with that id, and so carries that id; its vector is exactly the elements inserted under that id in edge-iteration order |
| `Adjacency.FoldStopsAtPlain` | include/Graph.hpp:382-385 | a plain edge at position k ends the loop: the result is that of the first k edges |
| `Adjacency.AdjMatrixTruncates` | include/Graph.hpp:382-385 | `getAdjMatrix` equals the map of the edges before a plain edge, and no edge after it contributes |
| `Adjacency.FoldAppend` | include/Graph.hpp:366-386 | over plain-free edges the loop composes: the map for p then q is the map for p continued over q |
| `Adjacency.AdjMatrixAppend` | include/Graph.hpp:369-381 | one more directed edge appends `(to, edge)` under `from`; one more undirected edge appends `(node2, edge)` under `node1`, then `(node1, edge)` under `node2`; one more plain edge changes nothing |
| `Adjacency.AdjMatrixEmpty` | include/Graph.hpp:364 | an empty edge set yields an empty map |
| `Graphs.Graph.constructor` | include/Graph.hpp:282 | a default graph has no edges |
| `Graphs.Graph.FromEdgeSet` | include/Graph.hpp:299-303 | the graph holds a copy of the given set |
| `Graphs.Graph.GetEdgeSet` | include/Graph.hpp:305-309 | returns the stored set, which is ordered and live |
| `Graphs.Graph.SetEdgeSet` | include/Graph.hpp:311-315 | the stored set becomes the given one |
| `Graphs.Graph.AddEdge` | include/Graph.hpp:317-321 | the stored pointers become the old ones plus `h`; a pointer already stored leaves the set unchanged, otherwise its size grows by one |
| `Graphs.Graph.RemoveEdge` | include/Graph.hpp:323-331 | the new set is the old one without the edge `getEdge` finds (see `RemoveByIdSpec`), and unchanged for an absent id |
| `Graphs.Graph.GetEdge` | include/Graph.hpp:333-347 | the scan returns what `FindEdge` specifies: the first edge in iteration order with the id, or none |
| `Graphs.Graph.GetAdjMatrix` | include/Graph.hpp:361-388 | the loop returns `AdjMatrixOf` of the current set, the map characterized by `AdjMatrixSpec` and `AdjMatrixTruncates`, including the early return at the first plain edge |
| `Scenarios.DirectedChain` | include/Graph.hpp:369-374 | N0->N1 and N1->N2 give {N0: [(N1,E0)], N1: [(N2,E1)]}; N2 is no key |
| `Scenarios.UndirectedPair` | include/Graph.hpp:375-381 | one undirected edge N0-N1 gives {N0: [(N1,E0)], N1: [(N0,E0)]} |
| `Scenarios.PlainAfterDirected` | include/Graph.hpp:382-385 | a directed edge followed by a plain one gives only the directed edge's entry |
| `Scenarios.PlainFirst` | include/Graph.hpp:382-385 | a plain edge at the lower address yields the empty map even when its id is the larger |
| `Scenarios.SelfLoopAndKeyObject` | include/Graph.hpp:355 | an undirected self-loop appends two elements under one node; a later key with the same id and other data keeps the first key object |
| `Scenarios.DuplicateIds` | include/Graph.hpp:333-347 | with two edges of one id, `getEdge` finds the lower-address one and `removeEdge` removes only it |

`Adjacency.Step` (one pass of the loop, include/Graph.hpp:369-381),
`Adjacency.Fold` (the loop with its early return, include/Graph.hpp:366-386)
and `Adjacency.AdjMatrixOf` (the whole of `getAdjMatrix`,
include/Graph.hpp:361-388) are the definitions `Graphs.Graph.GetAdjMatrix` is
proved equal to.  What they compute is stated by `AdjMatrixSpec`,
`AdjMatrixTruncates`, `AdjMatrixAppend`, `FoldStopsAtPlain`, `FoldAppend` and
`AdjMatrixEmpty`.

`Values.NodeLess`, `Values.EdgeLess` (the two `operator<`) and `Values.From`,
`Values.To`, `Values.Node1`, `Values.Node2` (the oriented accessors) are
plain definitions.  They are stated by `NodeOrder`, `EdgeOrder` and
`ConversionKeepsEndpoints`.

## Left out

- The `operator<<` overloads (include/Graph.hpp:390-459) are presentation only.
  The ones for nodes and edges also have no return statement.
- The `std::cout` tracing in `addElementToAdjMatrix` and `getAdjMatrix` is output only and does not change any result.
- Object lifetime.  Nodes and edges live in an `Arena` that outlives every
  graph.  `Arena.Valid` (every edge points at existing nodes) and
  `IsEdgeSet` (every stored handle points at an existing edge) stand for
  "every pointer is live".  Dangling pointers, which are undefined behaviour
  in the library, are excluded by these requirements.
- Real memory addresses.  Handle order stands for the allocator's address
  order.  Which addresses a program actually gets is not modelled.
- The static types of the C++ classes.  The explicit conversions
  (173, 230) and the oriented accessors `getFrom`/`getTo`/`getNode1`/`getNode2`
  exist only on `DirectedEdge` or `UndirectedEdge`.  Their Dafny functions
  therefore require the matching variant.
- The commented-out conversion operators of `Edge` (include/Graph.hpp:106-107).
- Genericity over `T` is a Dafny type parameter; `NodeEq` needs `T` to support equality.
- `unsigned long` ids are `nat`.  The library does no arithmetic on them, so no
  wrap-around can arise.
- `getEdgeSet` returns a const reference to the field.  The model returns its value.
- `setEdgeSet` and the copying constructor take a `std::set`.  The model takes
  an ordered handle sequence, which is how the model represents a set.
