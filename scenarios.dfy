/**
 * Concrete graphs and the adjacency maps `getAdjMatrix` derives for them,
 * with integer payloads.  Handles 0, 1, 2 name the node objects N0, N1, N2.
 */
module Scenarios {
  import opened Wrappers
  import opened Values
  import opened EdgeSets
  import opened Adjacency

  const N0: Node<int> := Node(0, 100)
  const N1: Node<int> := Node(1, 101)
  const N2: Node<int> := Node(2, 102)
  const Nodes: seq<Node<int>> := [N0, N1, N2]

  /** Two directed edges N0 -> N1 and N1 -> N2: N2 has no outgoing entry and is no key. */
  lemma DirectedChain()
    ensures Arena(Nodes, [Directed(0, (0, 1)), Directed(1, (1, 2))]).Valid()
    ensures AdjMatrixOf(Arena(Nodes, [Directed(0, (0, 1)), Directed(1, (1, 2))]), [0, 1]) ==
      map[0 := AdjRow(N0, [AdjEntry(N1, Plain(0, (0, 1)))]),
          1 := AdjRow(N1, [AdjEntry(N2, Plain(1, (1, 2)))])]
  {
  }

  /** One undirected edge between N0 and N1 is listed under both ends. */
  lemma UndirectedPair()
    ensures Arena(Nodes, [Undirected(0, (0, 1))]).Valid()
    ensures AdjMatrixOf(Arena(Nodes, [Undirected(0, (0, 1))]), [0]) ==
      map[0 := AdjRow(N0, [AdjEntry(N1, Plain(0, (0, 1)))]),
          1 := AdjRow(N1, [AdjEntry(N0, Plain(0, (0, 1)))])]
  {
  }

  /** A directed edge, then a plain one: only the directed edge is listed. */
  lemma PlainAfterDirected()
    ensures Arena(Nodes, [Directed(0, (0, 1)), Plain(1, (1, 2))]).Valid()
    ensures AdjMatrixOf(Arena(Nodes, [Directed(0, (0, 1)), Plain(1, (1, 2))]), [0, 1]) ==
      map[0 := AdjRow(N0, [AdjEntry(N1, Plain(0, (0, 1)))])]
  {
  }

  /**
   * The same two edges with the plain one at the lower address: iteration
   * meets it first and the map stays empty, whatever the edge ids.
   */
  lemma PlainFirst()
    ensures Arena(Nodes, [Plain(1, (1, 2)), Directed(0, (0, 1))]).Valid()
    ensures AdjMatrixOf(Arena(Nodes, [Plain(1, (1, 2)), Directed(0, (0, 1))]), [0, 1]) == map[]
  {
  }

  /**
   * An undirected self-loop on N2 appends two elements under N2; a later
   * key object with N2's id but other data does not replace the first.
   */
  lemma SelfLoopAndKeyObject()
    ensures Arena(Nodes + [Node(2, 7)], [Undirected(0, (2, 2)), Directed(1, (3, 0))]).Valid()
    ensures AdjMatrixOf(Arena(Nodes + [Node(2, 7)], [Undirected(0, (2, 2)), Directed(1, (3, 0))]), [0, 1]) ==
      map[2 := AdjRow(N2, [AdjEntry(N2, Plain(0, (2, 2))), AdjEntry(N2, Plain(0, (2, 2))),
                           AdjEntry(N0, Plain(1, (3, 0)))])]
  {
    var arena := Arena(Nodes + [Node(2, 7)], [Undirected(0, (2, 2)), Directed(1, (3, 0))]);
    var hs: seq<EdgeHandle> := [0, 1];
    assert arena.nodes[2] == N2 && arena.nodes[3] == Node(2, 7) && arena.nodes[0] == N0;
    assert hs[1..] == [1] && hs[1..][1..] == [];
    var u := Undirected(0, (2, 2));
    var m0 := AddElement(AddElement(map[], N2, N2, u), N2, N2, u);
    assert Fold(arena, map[], hs) == Fold(arena, m0, [1]);
    assert Fold(arena, m0, [1]) == AddElement(m0, Node(2, 7), N0, Directed(1, (3, 0)));
    var e := AdjEntry(N2, Plain(0, (2, 2)));
    assert AddElement(map[], N2, N2, u) == map[2 := AdjRow(N2, [e])];
    assert [e] + [e] == [e, e];
    assert m0 == map[2 := AdjRow(N2, [e, e])];
    assert [e, e] + [AdjEntry(N0, Plain(1, (3, 0)))] == [e, e, AdjEntry(N0, Plain(1, (3, 0)))];
  }

  /** `getEdge` finds the lower-address edge when two share an id; `removeEdge` of it leaves the other. */
  lemma DuplicateIds()
    ensures IsEdgeSet([Directed(5, (0, 1)), Undirected(5, (1, 2))], [0, 1])
    ensures FindEdge([Directed(5, (0, 1)), Undirected(5, (1, 2))], [0, 1], 5) == Some(0)
    ensures RemoveById([Directed(5, (0, 1)), Undirected(5, (1, 2))], [0, 1], 5) == [1]
    ensures FindEdge([Directed(5, (0, 1)), Undirected(5, (1, 2))], [0, 1], 6) == None
  {
  }
}
