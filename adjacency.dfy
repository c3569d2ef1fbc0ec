/**
 * The adjacency derivation of `Graph::getAdjMatrix`, as functions.
 *
 * `AdjacencyMatrix<T>` is a `std::map` from nodes to vectors of
 * `(node, edge)` pairs.  The map orders its keys with `Node::operator<`,
 * which looks at ids only, so two nodes with the same id are the same key
 * and the key object kept is the first one inserted (`NodeOrder`).  The map
 * is therefore modelled as a Dafny map from node ids to a row holding that
 * key object and the vector.
 */
module Adjacency {
  import opened Wrappers
  import opened Values
  import opened EdgeSets

  /**
   * One vector element, `std::pair<const Node<T>, const Edge<T>>`: a copy of
   * the destination node and a copy of the edge cut down to its base part.
   */
  datatype AdjEntry<T> = AdjEntry(to: Node<T>, edge: Edge)

  /** One map slot: the key node object first inserted and its vector. */
  datatype AdjRow<T> = AdjRow(key: Node<T>, entries: seq<AdjEntry<T>>)

  /** `AdjacencyMatrix<T>`, keyed by node id. */
  type AdjMatrix<T> = map<nat, AdjRow<T>>

  /**
   * `addElementToAdjMatrix`: `adjMatrix[nodeFrom].push_back({nodeTo, edge})`.
   * `operator[]` creates an empty slot keyed by `from` when no key with its
   * id exists, and otherwise keeps the existing key object.
   */
  function AddElement<T>(adj: AdjMatrix<T>, from: Node<T>, to: Node<T>, e: Edge): (r: AdjMatrix<T>)
    ensures r.Keys == adj.Keys + {from.id}
    ensures forall i :: i in adj && i != from.id ==> r[i] == adj[i]
    ensures from.id in adj ==>
      r[from.id] == AdjRow(adj[from.id].key, adj[from.id].entries + [AdjEntry(to, Slice(e))])
    ensures from.id !in adj ==> r[from.id] == AdjRow(from, [AdjEntry(to, Slice(e))])
  {
    var row := if from.id in adj then adj[from.id] else AdjRow(from, []);
    adj[from.id := AdjRow(row.key, row.entries + [AdjEntry(to, Slice(e))])]
  }

  /**
   * One pass of the loop of `getAdjMatrix` over a classified edge: a
   * directed edge adds `(to, edge)` under `from`; an undirected one adds
   * `(node2, edge)` under `node1` and then `(node1, edge)` under `node2`.
   */
  function Step<T>(arena: Arena<T>, acc: AdjMatrix<T>, e: Edge): AdjMatrix<T>
    requires !e.Plain? && e.pair.0 < |arena.nodes| && e.pair.1 < |arena.nodes|
  {
    if e.Directed? then
      var d := AsDirected(e);
      AddElement(acc, From(arena, d), To(arena, d), d)
    else
      var u := AsUndirected(e);
      var once := AddElement(acc, Node1(arena, u), Node2(arena, u), u);
      AddElement(once, Node2(arena, u), Node1(arena, u), u)
  }

  /**
   * The loop of `getAdjMatrix` from a partial map `acc` over the remaining
   * handles `hs`: each classified edge makes its `Step`, and the first plain
   * edge ends the loop with `acc`.
   */
  function Fold<T>(arena: Arena<T>, acc: AdjMatrix<T>, hs: seq<EdgeHandle>): AdjMatrix<T>
    requires arena.Valid() && AllLive(arena.edges, hs)
    decreases |hs|
  {
    if hs == [] || arena.edges[hs[0]].Plain? then acc
    else Fold(arena, Step(arena, acc, arena.edges[hs[0]]), hs[1..])
  }

  /** What `getAdjMatrix` returns for the edge set `hs`. */
  function AdjMatrixOf<T>(arena: Arena<T>, hs: seq<EdgeHandle>): AdjMatrix<T>
    requires arena.Valid() && AllLive(arena.edges, hs)
  {
    Fold(arena, map[], hs)
  }

  // ------------------------------------------------ reference definition

  /** One insertion into the map: a source node and the element appended under it. */
  datatype Arc<T> = Arc(from: Node<T>, entry: AdjEntry<T>)

  /** The insertions one classified edge makes, in the order they are made. */
  function EdgeArcs<T>(arena: Arena<T>, e: Edge): seq<Arc<T>>
    requires e.pair.0 < |arena.nodes| && e.pair.1 < |arena.nodes|
  {
    var n1 := arena.nodes[e.pair.0];
    var n2 := arena.nodes[e.pair.1];
    match e
    case Plain(_, _) => []
    case Directed(_, _) => [Arc(n1, AdjEntry(n2, Slice(e)))]
    case Undirected(_, _) => [Arc(n1, AdjEntry(n2, Slice(e))), Arc(n2, AdjEntry(n1, Slice(e)))]
  }

  /** All insertions of the edges that come before the first plain one. */
  function Arcs<T>(arena: Arena<T>, hs: seq<EdgeHandle>): seq<Arc<T>>
    requires arena.Valid() && AllLive(arena.edges, hs)
    decreases |hs|
  {
    if hs == [] || arena.edges[hs[0]].Plain? then []
    else EdgeArcs(arena, arena.edges[hs[0]]) + Arcs(arena, hs[1..])
  }

  /** The elements inserted under node id `id`, in insertion order. */
  function EntriesFrom<T>(arcs: seq<Arc<T>>, id: nat): seq<AdjEntry<T>>
    decreases |arcs|
  {
    if arcs == [] then []
    else (if arcs[0].from.id == id then [arcs[0].entry] else []) + EntriesFrom(arcs[1..], id)
  }

  /** The first source node inserted with id `id`. */
  function FirstFrom<T>(arcs: seq<Arc<T>>, id: nat): (n: Node<T>)
    requires EntriesFrom(arcs, id) != []
    ensures n.id == id
    decreases |arcs|
  {
    if arcs[0].from.id == id then arcs[0].from else FirstFrom(arcs[1..], id)
  }

  /** One insertion, as `addElementToAdjMatrix` makes it. */
  function Push<T>(adj: AdjMatrix<T>, a: Arc<T>): AdjMatrix<T>
  {
    AddElement(adj, a.from, a.entry.to, a.entry.edge)
  }

  /** The insertions `arcs` made one after another on `acc`. */
  function Group<T>(acc: AdjMatrix<T>, arcs: seq<Arc<T>>): AdjMatrix<T>
    decreases |arcs|
  {
    if arcs == [] then acc else Group(Push(acc, arcs[0]), arcs[1..])
  }

  /**
   * `r` is `acc` after the insertions `arcs`: a key is present when it was
   * before or something was inserted under it; an old key keeps its key
   * object, a new one gets the first source inserted; and each vector
   * grows by exactly the elements inserted under it, in order.
   */
  ghost predicate Extends<T>(acc: AdjMatrix<T>, arcs: seq<Arc<T>>, r: AdjMatrix<T>)
  {
    (forall id :: id in r <==> id in acc || EntriesFrom(arcs, id) != []) &&
    (forall id :: id in r ==>
      r[id] == if id in acc then AdjRow(acc[id].key, acc[id].entries + EntriesFrom(arcs, id))
               else AdjRow(FirstFrom(arcs, id), EntriesFrom(arcs, id)))
  }

  lemma {:induction false} GroupAppend<T>(acc: AdjMatrix<T>, x: seq<Arc<T>>, y: seq<Arc<T>>)
    ensures Group(acc, x + y) == Group(Group(acc, x), y)
    decreases |x|
  {
    if x == [] {
      assert x + y == y;
    } else {
      assert (x + y)[0] == x[0] && (x + y)[1..] == x[1..] + y;
      GroupAppend(Push(acc, x[0]), x[1..], y);
    }
  }

  /** Grouping the insertions one by one yields the map `Extends` describes. */
  lemma {:induction false} GroupExtends<T>(acc: AdjMatrix<T>, arcs: seq<Arc<T>>)
    requires Sliced(arcs)
    ensures Extends(acc, arcs, Group(acc, arcs))
    decreases |arcs|
  {
    if arcs != [] {
      var r := Group(Push(acc, arcs[0]), arcs[1..]);
      assert Sliced(arcs[1..]) by {
        forall i | 0 <= i < |arcs[1..]| ensures arcs[1..][i].entry.edge.Plain? {
          assert arcs[1..][i] == arcs[i + 1];
        }
      }
      GroupExtends(Push(acc, arcs[0]), arcs[1..]);
      forall id
        ensures id in r <==> id in acc || EntriesFrom(arcs, id) != []
        ensures id in r ==>
          r[id] == if id in acc then AdjRow(acc[id].key, acc[id].entries + EntriesFrom(arcs, id))
                   else AdjRow(FirstFrom(arcs, id), EntriesFrom(arcs, id))
      {
        ExtendsAt(Push(acc, arcs[0]), arcs[1..], r, id);
        ExtendsStepAt(acc, arcs, r, id);
      }
    }
  }

  /** `Extends` read at one id. */
  lemma ExtendsAt<T>(acc: AdjMatrix<T>, arcs: seq<Arc<T>>, r: AdjMatrix<T>, id: nat)
    requires Extends(acc, arcs, r)
    ensures id in r <==> id in acc || EntriesFrom(arcs, id) != []
    ensures id in r && id in acc ==> r[id] == AdjRow(acc[id].key, acc[id].entries + EntriesFrom(arcs, id))
    ensures id in r && id !in acc ==> r[id] == AdjRow(FirstFrom(arcs, id), EntriesFrom(arcs, id))
  {
  }

  /** One id's part of the induction step of `GroupExtends`. */
  lemma ExtendsStepAt<T>(acc: AdjMatrix<T>, arcs: seq<Arc<T>>, r: AdjMatrix<T>, id: nat)
    requires arcs != [] && arcs[0].entry.edge.Plain?
    requires var m := Push(acc, arcs[0]); var rest := EntriesFrom(arcs[1..], id);
      (id in r <==> id in m || rest != []) &&
      (id in r && id in m ==> r[id] == AdjRow(m[id].key, m[id].entries + rest)) &&
      (id in r && id !in m ==> r[id] == AdjRow(FirstFrom(arcs[1..], id), rest))
    ensures id in r <==> id in acc || EntriesFrom(arcs, id) != []
    ensures id in r ==>
      r[id] == if id in acc then AdjRow(acc[id].key, acc[id].entries + EntriesFrom(arcs, id))
               else AdjRow(FirstFrom(arcs, id), EntriesFrom(arcs, id))
  {
    if id != arcs[0].from.id {
      ExtendsStepOther(acc, arcs, id);
    } else {
      ExtendsStepSame(acc, arcs);
    }
  }

  /** An insertion under another id leaves this id's slot and elements alone. */
  lemma ExtendsStepOther<T>(acc: AdjMatrix<T>, arcs: seq<Arc<T>>, id: nat)
    requires arcs != [] && id != arcs[0].from.id
    ensures EntriesFrom(arcs, id) == EntriesFrom(arcs[1..], id)
    ensures id in Push(acc, arcs[0]) <==> id in acc
    ensures id in acc ==> Push(acc, arcs[0])[id] == acc[id]
    ensures EntriesFrom(arcs, id) != [] ==> FirstFrom(arcs, id) == FirstFrom(arcs[1..], id)
  {
  }

  /** An insertion under this id appends its element to this id's slot. */
  lemma ExtendsStepSame<T>(acc: AdjMatrix<T>, arcs: seq<Arc<T>>)
    requires arcs != [] && arcs[0].entry.edge.Plain?
    ensures var a := arcs[0];
      EntriesFrom(arcs, a.from.id) == [a.entry] + EntriesFrom(arcs[1..], a.from.id) &&
      FirstFrom(arcs, a.from.id) == a.from &&
      a.from.id in Push(acc, a) &&
      (a.from.id in acc ==> Push(acc, a)[a.from.id] == AdjRow(acc[a.from.id].key, acc[a.from.id].entries + [a.entry])) &&
      (a.from.id !in acc ==> Push(acc, a)[a.from.id] == AdjRow(a.from, [a.entry]))
  {
    var a := arcs[0];
    assert AdjEntry(a.entry.to, Slice(a.entry.edge)) == a.entry;
  }

  /** Every inserted element holds a base-part copy of its edge. */
  ghost predicate Sliced<T>(arcs: seq<Arc<T>>)
  {
    forall i :: 0 <= i < |arcs| ==> arcs[i].entry.edge.Plain?
  }

  /** Only base-part copies of edges are ever inserted. */
  lemma {:induction false} ArcsAreSliced<T>(arena: Arena<T>, hs: seq<EdgeHandle>)
    requires arena.Valid() && AllLive(arena.edges, hs)
    ensures Sliced(Arcs(arena, hs))
    decreases |hs|
  {
    if hs != [] && !arena.edges[hs[0]].Plain? {
      var first: seq<Arc<T>> := EdgeArcs(arena, arena.edges[hs[0]]);
      var rest: seq<Arc<T>> := Arcs(arena, hs[1..]);
      ArcsAreSliced(arena, hs[1..]);
      forall i | 0 <= i < |first + rest| ensures (first + rest)[i].entry.edge.Plain? {
        if i >= |first| { assert (first + rest)[i] == rest[i - |first|]; }
      }
    }
  }

  /** A classified edge's `Step` makes exactly its reference insertions. */
  lemma StepIsGroup<T>(arena: Arena<T>, acc: AdjMatrix<T>, e: Edge)
    requires !e.Plain? && e.pair.0 < |arena.nodes| && e.pair.1 < |arena.nodes|
    ensures Step(arena, acc, e) == Group(acc, EdgeArcs(arena, e))
  {
    var first := EdgeArcs(arena, e);
    if e.Undirected? {
      var u := AsUndirected(e);
      var once := AddElement(acc, Node1(arena, u), Node2(arena, u), u);
      assert Push(acc, first[0]) == once;
      assert first[1..] == [first[1]];
      assert Group(acc, first) == Group(once, [first[1]]);
    }
  }

  /** The loop is the grouping of the reference insertions. */
  lemma {:induction false} FoldIsGroup<T>(arena: Arena<T>, acc: AdjMatrix<T>, hs: seq<EdgeHandle>)
    requires arena.Valid() && AllLive(arena.edges, hs)
    ensures Fold(arena, acc, hs) == Group(acc, Arcs(arena, hs))
    decreases |hs|
  {
    if hs != [] && !arena.edges[hs[0]].Plain? {
      var e := arena.edges[hs[0]];
      var rest := hs[1..];
      assert AllLive(arena.edges, rest);
      GroupAppend(acc, EdgeArcs(arena, e), Arcs(arena, rest));
      StepIsGroup(arena, acc, e);
      FoldIsGroup(arena, Step(arena, acc, e), rest);
    }
  }

  /**
   * What `getAdjMatrix` returns, entry by entry: a node id is a key exactly
   * when some edge before the first plain one inserted under it; its key
   * object is the first node inserted with that id; and its vector holds
   * exactly the elements inserted under that id, in edge-iteration order
   * (a directed edge inserting `(to, edge)` under `from`, an undirected one
   * `(node2, edge)` under `node1` and then `(node1, edge)` under `node2`).
   */
  lemma AdjMatrixSpec<T>(arena: Arena<T>, hs: seq<EdgeHandle>)
    requires arena.Valid() && AllLive(arena.edges, hs)
    ensures forall id :: id in AdjMatrixOf(arena, hs) <==> EntriesFrom(Arcs(arena, hs), id) != []
    ensures forall id :: id in AdjMatrixOf(arena, hs) ==>
      AdjMatrixOf(arena, hs)[id] == AdjRow(FirstFrom(Arcs(arena, hs), id), EntriesFrom(Arcs(arena, hs), id))
    ensures forall id :: id in AdjMatrixOf(arena, hs) ==> AdjMatrixOf(arena, hs)[id].key.id == id
  {
    FoldIsGroup(arena, map[], hs);
    ArcsAreSliced(arena, hs);
    GroupExtends(map[], Arcs(arena, hs));
  }

  // ------------------------------------------- truncation and appending

  /** No handle of `hs` points at a plain edge. */
  predicate NoPlain(edges: seq<Edge>, hs: seq<EdgeHandle>)
    requires AllLive(edges, hs)
  {
    forall k :: 0 <= k < |hs| ==> !edges[hs[k]].Plain?
  }

  /** A plain edge at position `k` ends the loop: nothing from `k` on is looked at. */
  lemma {:induction false} FoldStopsAtPlain<T>(arena: Arena<T>, acc: AdjMatrix<T>, hs: seq<EdgeHandle>, k: nat)
    requires arena.Valid() && AllLive(arena.edges, hs)
    requires k < |hs| && arena.edges[hs[k]].Plain?
    ensures Fold(arena, acc, hs) == Fold(arena, acc, hs[..k])
    decreases k
  {
    if k > 0 {
      assert hs[..k][0] == hs[0] && hs[..k][1..] == hs[1..][..k - 1];
      if !arena.edges[hs[0]].Plain? {
        assert AllLive(arena.edges, hs[1..]);
        FoldStopsAtPlain(arena, Step(arena, acc, arena.edges[hs[0]]), hs[1..], k - 1);
      }
    }
  }

  /**
   * `getAdjMatrix` stops at a plain edge: the result is the adjacency of the
   * edges before it, whatever edges follow it.
   */
  lemma AdjMatrixTruncates<T>(arena: Arena<T>, hs: seq<EdgeHandle>, k: nat, tail: seq<EdgeHandle>)
    requires arena.Valid() && AllLive(arena.edges, hs) && AllLive(arena.edges, tail)
    requires k < |hs| && arena.edges[hs[k]].Plain?
    ensures AdjMatrixOf(arena, hs) == AdjMatrixOf(arena, hs[..k])
    ensures AllLive(arena.edges, hs[..k + 1] + tail)
    ensures AdjMatrixOf(arena, hs[..k + 1] + tail) == AdjMatrixOf(arena, hs[..k])
  {
    FoldStopsAtPlain(arena, map[], hs, k);
    var hs' := hs[..k + 1] + tail;
    assert AllLive(arena.edges, hs') by {
      forall j | 0 <= j < |hs'| ensures hs'[j] < |arena.edges| {
        if j > k { assert hs'[j] == tail[j - k - 1]; }
      }
    }
    assert hs'[k] == hs[k] && hs'[..k] == hs[..k];
    FoldStopsAtPlain(arena, map[], hs', k);
  }

  /** Without plain edges in `p`, the loop over `p + q` runs over `p`, then over `q`. */
  lemma {:induction false} FoldAppend<T>(arena: Arena<T>, acc: AdjMatrix<T>, p: seq<EdgeHandle>, q: seq<EdgeHandle>)
    requires arena.Valid() && AllLive(arena.edges, p) && AllLive(arena.edges, q)
    requires NoPlain(arena.edges, p)
    ensures AllLive(arena.edges, p + q)
    ensures Fold(arena, acc, p + q) == Fold(arena, Fold(arena, acc, p), q)
    decreases |p|
  {
    assert AllLive(arena.edges, p + q) by {
      forall j | 0 <= j < |p + q| ensures (p + q)[j] < |arena.edges| {
        if j >= |p| { assert (p + q)[j] == q[j - |p|]; }
      }
    }
    if p == [] {
      assert p + q == q;
    } else {
      assert (p + q)[0] == p[0] && (p + q)[1..] == p[1..] + q;
      assert AllLive(arena.edges, p[1..]) && NoPlain(arena.edges, p[1..]);
      assert !arena.edges[p[0]].Plain?;
      FoldAppend(arena, Step(arena, acc, arena.edges[p[0]]), p[1..], q);
    }
  }

  /**
   * The effect of one more edge after plain-free edges `p`: a directed edge
   * appends `(to, edge)` under `from`; an undirected one appends
   * `(node2, edge)` under `node1` and then `(node1, edge)` under `node2`;
   * a plain one changes nothing.
   */
  lemma AdjMatrixAppend<T>(arena: Arena<T>, p: seq<EdgeHandle>, h: EdgeHandle)
    requires arena.Valid() && AllLive(arena.edges, p) && h < |arena.edges|
    requires NoPlain(arena.edges, p)
    ensures AllLive(arena.edges, p + [h])
    ensures arena.edges[h].Directed? ==>
      var d := AsDirected(arena.edges[h]);
      AdjMatrixOf(arena, p + [h]) == AddElement(AdjMatrixOf(arena, p), From(arena, d), To(arena, d), d)
    ensures arena.edges[h].Undirected? ==>
      var u := AsUndirected(arena.edges[h]);
      AdjMatrixOf(arena, p + [h]) ==
        AddElement(AddElement(AdjMatrixOf(arena, p), Node1(arena, u), Node2(arena, u), u),
                   Node2(arena, u), Node1(arena, u), u)
    ensures arena.edges[h].Plain? ==> AdjMatrixOf(arena, p + [h]) == AdjMatrixOf(arena, p)
  {
    FoldAppend(arena, map[], p, [h]);
    assert [h][1..] == [];
  }

  /** An empty edge set yields an empty map. */
  lemma AdjMatrixEmpty<T>(arena: Arena<T>)
    requires arena.Valid()
    ensures AdjMatrixOf(arena, []) == map[]
  {
  }
}
