/**
 * The graph's edge store, `std::set<const Edge<T>*>`, as a strictly
 * increasing sequence of edge handles.
 *
 * The set holds pointers, so it suppresses duplicates by object identity
 * (handle equality) and iterates in pointer order (handle order); the edges'
 * ids and `Edge::operator==` play no part in either.  A strictly increasing
 * sequence is determined by its elements (`IncreasingByElements`), so it is
 * an exact stand-in for the set.
 */
module EdgeSets {
  import opened Wrappers
  import opened Values

  /** The ordering invariant of a `std::set` of handles. */
  predicate Increasing(s: seq<EdgeHandle>)
  {
    forall i, j :: 0 <= i < j < |s| ==> s[i] < s[j]
  }

  /** Every handle of `s` points at one of the caller's edge objects. */
  predicate AllLive(edges: seq<Edge>, s: seq<EdgeHandle>)
  {
    forall k :: 0 <= k < |s| ==> s[k] < |edges|
  }

  /** An edge set of a graph over `edges`: ordered, and every pointer live. */
  predicate IsEdgeSet(edges: seq<Edge>, s: seq<EdgeHandle>)
  {
    Increasing(s) && AllLive(edges, s)
  }

  /** Two increasing sequences with the same elements are the same sequence. */
  lemma {:induction false} IncreasingByElements(a: seq<EdgeHandle>, b: seq<EdgeHandle>)
    requires Increasing(a) && Increasing(b)
    requires forall x :: x in a <==> x in b
    ensures a == b
    decreases |a|
  {
    if a == [] {
      if b != [] {
        HeadAndTail(b);
        assert false;
      }
    } else if b == [] {
      HeadAndTail(a);
      assert false;
    } else {
      HeadAndTail(a);
      HeadAndTail(b);
      assert a[0] == b[0];
      assert forall x :: x in a[1..] <==> x in b[1..];
      IncreasingByElements(a[1..], b[1..]);
      assert a == [a[0]] + a[1..] && b == [b[0]] + b[1..];
    }
  }

  /** The head of an increasing sequence is below everything in its tail. */
  lemma HeadAndTail(s: seq<EdgeHandle>)
    requires Increasing(s) && s != []
    ensures s[0] in s && Increasing(s[1..])
    ensures forall y :: y in s <==> y == s[0] || y in s[1..]
    ensures forall y :: y in s[1..] ==> s[0] < y
  {
    assert s == [s[0]] + s[1..];
    forall y | y in s[1..] ensures s[0] < y {
      var i :| 0 <= i < |s[1..]| && s[1..][i] == y;
      assert s[i + 1] == y;
    }
  }

  /** `std::set::insert` of a pointer: adds it unless that very pointer is present. */
  function Insert(s: seq<EdgeHandle>, h: EdgeHandle): (r: seq<EdgeHandle>)
    requires Increasing(s)
    ensures Increasing(r)
    ensures forall x :: x in r <==> x in s || x == h
    ensures h in s ==> r == s
    ensures h !in s ==> |r| == |s| + 1
    decreases |s|
  {
    if s == [] then [h]
    else
      HeadAndTail(s);
      if h < s[0] then
        IncreasingCons(h, s);
        [h] + s
      else if h == s[0] then s
      else
        var r := Insert(s[1..], h);
        IncreasingCons(s[0], r);
        [s[0]] + r
  }

  /** `std::set::erase` of a pointer: drops exactly that pointer, if present. */
  function Erase(s: seq<EdgeHandle>, h: EdgeHandle): (r: seq<EdgeHandle>)
    requires Increasing(s)
    ensures Increasing(r)
    ensures forall x :: x in r <==> x in s && x != h
    ensures h !in s ==> r == s
    ensures h in s ==> |r| == |s| - 1
    decreases |s|
  {
    if s == [] then []
    else
      HeadAndTail(s);
      if s[0] == h then s[1..]
      else
        var r := Erase(s[1..], h);
        IncreasingCons(s[0], r);
        [s[0]] + r
  }

  /** Putting a smaller handle in front keeps a sequence increasing. */
  lemma IncreasingCons(x: EdgeHandle, r: seq<EdgeHandle>)
    requires Increasing(r) && forall y :: y in r ==> x < y
    ensures Increasing([x] + r)
    ensures forall y :: y in [x] + r <==> y == x || y in r
  {
    forall i, j | 0 <= i < j < |[x] + r| ensures ([x] + r)[i] < ([x] + r)[j] {
      assert ([x] + r)[j] == r[j - 1] && r[j - 1] in r;
    }
  }

  /** Position `k` of `s` holds the first edge, in iteration order, with id `id`. */
  predicate FirstWithId(edges: seq<Edge>, s: seq<EdgeHandle>, id: nat, k: int)
    requires AllLive(edges, s)
  {
    0 <= k < |s| && edges[s[k]].id == id &&
    forall j :: 0 <= j < k ==> edges[s[j]].id != id
  }

  /**
   * What `Graph::getEdge` returns: none when no stored edge has the id,
   * otherwise the first stored edge in iteration order that has it.
   */
  function FindEdge(edges: seq<Edge>, s: seq<EdgeHandle>, id: nat): (r: Option<EdgeHandle>)
    requires AllLive(edges, s)
    ensures r.None? <==> forall j :: 0 <= j < |s| ==> edges[s[j]].id != id
    ensures r.Some? ==> exists k :: FirstWithId(edges, s, id, k) && s[k] == r.value
    decreases |s|
  {
    if s == [] then None
    else if edges[s[0]].id == id then
      assert FirstWithId(edges, s, id, 0);
      Some(s[0])
    else
      var r := FindEdge(edges, s[1..], id);
      assert r.Some? ==> FirstWithId(edges, s, id, FindEdgeIndex(edges, s[1..], id, r) + 1);
      assert r.None? ==> forall j :: 0 <= j < |s| ==> edges[s[j]].id != id by {
        if r.None? {
          forall j | 0 <= j < |s| ensures edges[s[j]].id != id {
            if j > 0 { assert s[j] == s[1..][j - 1]; }
          }
        }
      }
      r
  }

  /** The position behind a `FindEdge` result. */
  ghost function FindEdgeIndex(edges: seq<Edge>, s: seq<EdgeHandle>, id: nat, r: Option<EdgeHandle>): (k: int)
    requires AllLive(edges, s)
    requires r.Some? && exists k :: FirstWithId(edges, s, id, k) && s[k] == r.value
    ensures FirstWithId(edges, s, id, k) && s[k] == r.value
  {
    var k :| FirstWithId(edges, s, id, k) && s[k] == r.value; k
  }

  /** The first match is unique: `FindEdge` pins down one position. */
  lemma FirstWithIdUnique(edges: seq<Edge>, s: seq<EdgeHandle>, id: nat, k1: int, k2: int)
    requires AllLive(edges, s)
    requires FirstWithId(edges, s, id, k1) && FirstWithId(edges, s, id, k2)
    ensures k1 == k2
  {
  }

  /** What `Graph::removeEdge` leaves: the set without the edge `getEdge` finds. */
  function RemoveById(edges: seq<Edge>, s: seq<EdgeHandle>, id: nat): (r: seq<EdgeHandle>)
    requires IsEdgeSet(edges, s)
    ensures IsEdgeSet(edges, r)
  {
    match FindEdge(edges, s, id)
    case None => s
    case Some(h) =>
      var r := Erase(s, h);
      assert forall k :: 0 <= k < |r| ==> r[k] in r;
      r
  }

  /**
   * `removeEdge(id)` is a silent no-op when no stored edge has the id;
   * otherwise it removes exactly the edge `getEdge(id)` returns, one edge,
   * and every other edge stays.
   */
  lemma RemoveByIdSpec(edges: seq<Edge>, s: seq<EdgeHandle>, id: nat)
    requires IsEdgeSet(edges, s)
    ensures FindEdge(edges, s, id).None? ==> RemoveById(edges, s, id) == s
    ensures FindEdge(edges, s, id).Some? ==>
      var h := FindEdge(edges, s, id).value;
      h in s && h !in RemoveById(edges, s, id) &&
      |RemoveById(edges, s, id)| == |s| - 1 &&
      forall x :: x in s && x != h ==> x in RemoveById(edges, s, id)
  {
  }

  /**
   * Only one edge goes per call: after `removeEdge(id)` another edge with
   * the same id is still found exactly when one was stored.
   */
  lemma RemoveByIdOnce(edges: seq<Edge>, s: seq<EdgeHandle>, id: nat)
    requires IsEdgeSet(edges, s)
    requires FindEdge(edges, s, id).Some?
    ensures FindEdge(edges, RemoveById(edges, s, id), id).Some? <==>
      exists j :: 0 <= j < |s| && s[j] != FindEdge(edges, s, id).value && edges[s[j]].id == id
  {
    var h := FindEdge(edges, s, id).value;
    var r := RemoveById(edges, s, id);
    assert r == Erase(s, h);
    if FindEdge(edges, r, id).Some? {
      var k :| FirstWithId(edges, r, id, k) && r[k] == FindEdge(edges, r, id).value;
      assert r[k] in r;
      var j :| 0 <= j < |s| && s[j] == r[k];
      assert s[j] != h && edges[s[j]].id == id;
    }
    if exists j :: 0 <= j < |s| && s[j] != h && edges[s[j]].id == id {
      var j :| 0 <= j < |s| && s[j] != h && edges[s[j]].id == id;
      assert s[j] in r;
      var i :| 0 <= i < |r| && r[i] == s[j];
      assert edges[r[i]].id == id;
    }
  }

  /**
   * The store dedupes by pointer, not by `Edge::operator==`: a second edge
   * object equal to a stored one is still added.
   */
  lemma InsertKeepsEqualEdges(edges: seq<Edge>, s: seq<EdgeHandle>, h1: EdgeHandle, h2: EdgeHandle)
    requires IsEdgeSet(edges, s) && h1 < |edges| && h2 < |edges|
    requires h1 in s && h1 != h2 && h2 !in s && EdgeEq(edges[h1], edges[h2])
    ensures |Insert(s, h2)| == |s| + 1
    ensures h1 in Insert(s, h2) && h2 in Insert(s, h2)
  {
  }
}
