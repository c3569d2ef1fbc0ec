/**
 * `Graph<T>`: a mutable set of pointers to caller-owned edges, with lookup
 * and removal by edge id and the derivation of the adjacency map.
 */
module Graphs {
  import opened Wrappers
  import opened Values
  import opened EdgeSets
  import opened Adjacency

  class Graph<T> {
    /** The caller's node and edge objects, which outlive the graph. */
    const arena: Arena<T>
    /** `edgeSet`, in pointer order. */
    var edgeSet: seq<EdgeHandle>

    ghost predicate Valid()
      reads this
    {
      arena.Valid() && IsEdgeSet(arena.edges, edgeSet)
    }

    /** `Graph() = default`: no edges. */
    constructor (arena: Arena<T>)
      requires arena.Valid()
      ensures Valid() && this.arena == arena && edgeSet == []
    {
      this.arena := arena;
      edgeSet := [];
    }

    /** `Graph(const std::set<const Edge<T>*> &)`: a copy of the given set. */
    constructor FromEdgeSet(arena: Arena<T>, s: seq<EdgeHandle>)
      requires arena.Valid() && IsEdgeSet(arena.edges, s)
      ensures Valid() && this.arena == arena && edgeSet == s
    {
      this.arena := arena;
      edgeSet := s;
    }

    /** `getEdgeSet`: the stored pointers, ordered and live. */
    function GetEdgeSet(): (s: seq<EdgeHandle>)
      reads this
      requires Valid()
      ensures IsEdgeSet(arena.edges, s)
    {
      edgeSet
    }

    /** `setEdgeSet`: replaces the stored set by a copy of `s`. */
    method SetEdgeSet(s: seq<EdgeHandle>)
      requires Valid() && IsEdgeSet(arena.edges, s)
      modifies this
      ensures Valid() && edgeSet == s
    {
      edgeSet := s;
    }

    /**
     * `addEdge`: stores the pointer `h`.  A pointer already stored leaves the
     * set as it was; otherwise exactly `h` joins it.
     */
    method AddEdge(h: EdgeHandle)
      requires Valid() && h < |arena.edges|
      modifies this
      ensures Valid()
      ensures forall x :: x in edgeSet <==> x in old(edgeSet) || x == h
      ensures h in old(edgeSet) ==> edgeSet == old(edgeSet)
      ensures h !in old(edgeSet) ==> |edgeSet| == |old(edgeSet)| + 1
    {
      var s := Insert(edgeSet, h);
      assert AllLive(arena.edges, s) by {
        forall k | 0 <= k < |s| ensures s[k] < |arena.edges| {
          assert s[k] in s;
        }
      }
      edgeSet := s;
    }

    /**
     * `removeEdge`: looks the id up with `getEdge` and erases the edge found,
     * if any; an absent id changes nothing.
     */
    method RemoveEdge(id: nat)
      requires Valid()
      modifies this
      ensures Valid()
      ensures edgeSet == RemoveById(arena.edges, old(edgeSet), id)
    {
      var found := GetEdge(id);
      if found.Some? {
        var s := Erase(edgeSet, found.value);
        assert AllLive(arena.edges, s) by {
          forall k | 0 <= k < |s| ensures s[k] < |arena.edges| {
            assert s[k] in s;
          }
        }
        edgeSet := s;
      }
    }

    /** `getEdge`: a scan in iteration order for the first edge with the id. */
    method GetEdge(id: nat) returns (r: Option<EdgeHandle>)
      requires Valid()
      ensures r == FindEdge(arena.edges, edgeSet, id)
    {
      var i := 0;
      while i < |edgeSet|
        invariant 0 <= i <= |edgeSet|
        invariant AllLive(arena.edges, edgeSet[i..])
        invariant FindEdge(arena.edges, edgeSet[i..], id) == FindEdge(arena.edges, edgeSet, id)
      {
        assert edgeSet[i..][0] == edgeSet[i] && edgeSet[i..][1..] == edgeSet[i + 1..];
        if arena.edges[edgeSet[i]].id == id {
          return Some(edgeSet[i]);
        }
        i := i + 1;
      }
      return None;
    }

    /**
     * `getAdjMatrix`: builds a fresh map by one pass over the edge set in
     * iteration order, returning the partial map at the first plain edge.
     */
    method GetAdjMatrix() returns (adj: AdjMatrix<T>)
      requires Valid()
      ensures adj == AdjMatrixOf(arena, edgeSet)
    {
      adj := map[];
      var i := 0;
      while i < |edgeSet|
        invariant 0 <= i <= |edgeSet|
        invariant AllLive(arena.edges, edgeSet[i..])
        invariant Fold(arena, adj, edgeSet[i..]) == AdjMatrixOf(arena, edgeSet)
      {
        assert edgeSet[i..][0] == edgeSet[i] && edgeSet[i..][1..] == edgeSet[i + 1..];
        var e := arena.edges[edgeSet[i]];
        ghost var before := adj;
        var dir := IsDirected(e);
        if dir.Some? && dir.value {
          var d := AsDirected(e);
          adj := AddElement(adj, From(arena, d), To(arena, d), d);
        } else if dir.Some? && !dir.value {
          var u := AsUndirected(e);
          adj := AddElement(adj, Node1(arena, u), Node2(arena, u), u);
          adj := AddElement(adj, Node2(arena, u), Node1(arena, u), u);
        } else {
          return;
        }
        assert adj == Step(arena, before, e);
        i := i + 1;
      }
    }
  }
}
