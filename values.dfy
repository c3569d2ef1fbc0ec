/**
 * The value layer of the graph library: nodes, the three edge variants, and
 * the arena that owns them.
 *
 * In the library an edge holds two raw pointers to nodes and a graph holds
 * raw pointers to edges; the objects themselves are owned by the caller and
 * outlive every graph.  Here the caller's objects live in an `Arena` and a
 * pointer is a handle (an index) into it, so that pointer identity becomes
 * handle equality.
 */
module Values {
  import opened Wrappers

  /** A pointer to a node object owned by the caller. */
  type NodeHandle = nat
  /** A pointer to an edge object owned by the caller. */
  type EdgeHandle = nat

  /** A vertex: a caller-assigned id and a payload, both fixed at construction. */
  datatype Node<T> = Node(id: nat, data: T)

  /**
   * `Edge`, `DirectedEdge` and `UndirectedEdge` as one sum type.  All three
   * carry the same state, an id and a pair of node pointers; they differ only
   * in how they answer `isDirected`/`isWeighted` and in the accessors their
   * static type offers.
   */
  datatype Edge =
    | Plain(id: nat, pair: (NodeHandle, NodeHandle))
    | Directed(id: nat, pair: (NodeHandle, NodeHandle))
    | Undirected(id: nat, pair: (NodeHandle, NodeHandle))

  /** The caller-owned node and edge objects that graphs point into. */
  datatype Arena<T> = Arena(nodes: seq<Node<T>>, edges: seq<Edge>)
  {
    /** Every edge was built from references to live nodes. */
    predicate Valid()
    {
      forall h :: 0 <= h < |edges| ==> edges[h].pair.0 < |nodes| && edges[h].pair.1 < |nodes|
    }
  }

  // ---------------------------------------------------------------- Node

  /** `Node::operator==`: ids and data both equal. */
  function NodeEq<T(==)>(a: Node<T>, b: Node<T>): (r: bool)
    ensures r <==> a == b
  {
    a.id == b.id && a.data == b.data
  }

  /** `Node::operator<`: by id alone; the data takes no part. */
  function NodeLess<T>(a: Node<T>, b: Node<T>): bool
  {
    a.id < b.id
  }

  /**
   * `NodeLess` is a strict weak order whose equivalence classes are the ids:
   * this is why a `std::map` keyed by nodes is a map keyed by node ids.
   */
  lemma NodeOrder<T>(a: Node<T>, b: Node<T>, c: Node<T>)
    ensures NodeLess(a, b) <==> a.id < b.id
    ensures !NodeLess(a, a)
    ensures NodeLess(a, b) && NodeLess(b, c) ==> NodeLess(a, c)
    ensures !NodeLess(a, b) && !NodeLess(b, a) <==> a.id == b.id
  {
  }

  /**
   * Equality is finer than the order's equivalence: two nodes with the same
   * id and different data are equivalent keys but not `==`.
   */
  lemma NodeKeyCoarserThanEq<T>(id: nat, d1: T, d2: T)
    requires d1 != d2
    ensures !NodeLess(Node(id, d1), Node(id, d2)) && !NodeLess(Node(id, d2), Node(id, d1))
    ensures !NodeEq(Node(id, d1), Node(id, d2))
  {
  }

  // ---------------------------------------------------------------- Edge

  /** `isDirected`: unset for a plain edge, true for directed, false for undirected. */
  function IsDirected(e: Edge): (r: Option<bool>)
    ensures r.None? <==> e.Plain?
    ensures r == Some(true) <==> e.Directed?
    ensures r == Some(false) <==> e.Undirected?
  {
    match e
    case Plain(_, _) => None
    case Directed(_, _) => Some(true)
    case Undirected(_, _) => Some(false)
  }

  /** `isWeighted`: unset for a plain edge, false for both refinements. */
  function IsWeighted(e: Edge): (r: Option<bool>)
    ensures r.None? <==> e.Plain?
    ensures r != Some(true)
  {
    match e
    case Plain(_, _) => None
    case Directed(_, _) => Some(false)
    case Undirected(_, _) => Some(false)
  }

  /**
   * `Edge::operator==`: same id and the same two node pointers.  It is not
   * overridden, so the variant takes no part: two edges are `==` exactly
   * when their base parts (see `Slice`) are equal values.
   */
  function EdgeEq(a: Edge, b: Edge): (r: bool)
    ensures r <==> Plain(a.id, a.pair) == Plain(b.id, b.pair)
    ensures r && a.Directed? && b.Directed? ==> a == b
  {
    a.id == b.id && a.pair == b.pair
  }

  /** `Edge::operator<`: by id alone. */
  function EdgeLess(a: Edge, b: Edge): bool
  {
    a.id < b.id
  }

  /**
   * `EdgeLess` is a strict weak order on ids; `==` edges are equivalent
   * under it, and edges with one id but other endpoints are equivalent too.
   */
  lemma EdgeOrder(a: Edge, b: Edge, c: Edge)
    ensures EdgeLess(a, b) <==> a.id < b.id
    ensures !EdgeLess(a, a)
    ensures EdgeLess(a, b) && EdgeLess(b, c) ==> EdgeLess(a, c)
    ensures !EdgeLess(a, b) && !EdgeLess(b, a) <==> a.id == b.id
    ensures EdgeEq(a, b) ==> !EdgeLess(a, b) && !EdgeLess(b, a)
  {
  }

  /** The converting constructor `DirectedEdge(const Edge &)`: same id, same pointers. */
  function AsDirected(e: Edge): (d: Edge)
    ensures IsDirected(d) == Some(true)
    ensures EdgeEq(d, e)
  {
    Directed(e.id, e.pair)
  }

  /** The converting constructor `UndirectedEdge(const Edge &)`: same id, same pointers. */
  function AsUndirected(e: Edge): (u: Edge)
    ensures IsDirected(u) == Some(false)
    ensures EdgeEq(u, e)
  {
    Undirected(e.id, e.pair)
  }

  /** `DirectedEdge::operator UndirectedEdge`; only a directed edge has it. */
  function DirectedToUndirected(d: Edge): (u: Edge)
    requires d.Directed?
    ensures IsDirected(u) == Some(false)
    ensures EdgeEq(u, d)
  {
    Undirected(d.id, d.pair)
  }

  /** `UndirectedEdge::operator DirectedEdge`; only an undirected edge has it. */
  function UndirectedToDirected(u: Edge): (d: Edge)
    requires u.Undirected?
    ensures IsDirected(d) == Some(true)
    ensures EdgeEq(d, u)
  {
    Directed(u.id, u.pair)
  }

  /**
   * Copying any edge into a `const Edge<T>` object (as a `std::pair` element
   * does) keeps the base part only: id and pointers, with the flags unset.
   */
  function Slice(e: Edge): (s: Edge)
    ensures IsDirected(s).None? && IsWeighted(s).None?
    ensures EdgeEq(s, e)
  {
    Plain(e.id, e.pair)
  }

  // ------------------------------------------------------------ accessors

  /** `DirectedEdge::getFrom`: the node behind the first pointer. */
  function From<T>(arena: Arena<T>, d: Edge): Node<T>
    requires d.Directed? && d.pair.0 < |arena.nodes|
  {
    arena.nodes[d.pair.0]
  }

  /** `DirectedEdge::getTo`: the node behind the second pointer. */
  function To<T>(arena: Arena<T>, d: Edge): Node<T>
    requires d.Directed? && d.pair.1 < |arena.nodes|
  {
    arena.nodes[d.pair.1]
  }

  /** `UndirectedEdge::getNode1`: the node behind the first pointer. */
  function Node1<T>(arena: Arena<T>, u: Edge): Node<T>
    requires u.Undirected? && u.pair.0 < |arena.nodes|
  {
    arena.nodes[u.pair.0]
  }

  /** `UndirectedEdge::getNode2`: the node behind the second pointer. */
  function Node2<T>(arena: Arena<T>, u: Edge): Node<T>
    requires u.Undirected? && u.pair.1 < |arena.nodes|
  {
    arena.nodes[u.pair.1]
  }

  // ---------------------------------------------------------- conversions

  /** Directed to undirected and back gives the very same edge value. */
  lemma DirectedRoundTrip(d: Edge)
    requires d.Directed?
    ensures UndirectedToDirected(DirectedToUndirected(d)) == d
    ensures EdgeEq(DirectedToUndirected(d), d)
  {
  }

  /** Undirected to directed and back gives the very same edge value. */
  lemma UndirectedRoundTrip(u: Edge)
    requires u.Undirected?
    ensures DirectedToUndirected(UndirectedToDirected(u)) == u
  {
  }

  /**
   * The oriented accessors agree across conversions: `getFrom`/`getNode1`
   * give the first endpoint and `getTo`/`getNode2` the second.
   */
  lemma ConversionKeepsEndpoints<T>(arena: Arena<T>, e: Edge)
    requires e.pair.0 < |arena.nodes| && e.pair.1 < |arena.nodes|
    ensures From(arena, AsDirected(e)) == arena.nodes[e.pair.0]
    ensures To(arena, AsDirected(e)) == arena.nodes[e.pair.1]
    ensures Node1(arena, AsUndirected(e)) == arena.nodes[e.pair.0]
    ensures Node2(arena, AsUndirected(e)) == arena.nodes[e.pair.1]
    ensures e.Directed? ==> Node1(arena, DirectedToUndirected(e)) == From(arena, e)
    ensures e.Directed? ==> Node2(arena, DirectedToUndirected(e)) == To(arena, e)
    ensures e.Undirected? ==> From(arena, UndirectedToDirected(e)) == Node1(arena, e)
    ensures e.Undirected? ==> To(arena, UndirectedToDirected(e)) == Node2(arena, e)
  {
  }

  /** Converting a plain edge yields an edge `==` to it with the new flag. */
  lemma ConversionFromPlain(e: Edge)
    requires e.Plain?
    ensures EdgeEq(AsDirected(e), e) && IsDirected(AsDirected(e)) == Some(true)
    ensures EdgeEq(AsUndirected(e), e) && IsDirected(AsUndirected(e)) == Some(false)
    ensures Slice(AsDirected(e)) == e && Slice(AsUndirected(e)) == e
  {
  }
}
