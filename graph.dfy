/** A sparse undirected graph: a dictionary from vertex index to vertex,
    and an adjacency dictionary from vertex to its ordered neighbour list.
    Vertices are identified by their index; a vertex's status is kept in
    the `status` dictionary, keyed like `vertex_list`. */
module Graphs {
  import opened Pieces

  /** A vertex: its index (its identity) and its occupancy status. */
  datatype Vertex = Vertex(index: int, status: Piece)

  type Adjacency = map<int, seq<int>>

  /** No element occurs twice. */
  predicate Distinct(s: seq<int>) {
    forall i, j :: 0 <= i < j < |s| ==> s[i] != s[j]
  }

  /** Every neighbour list is free of duplicates. */
  predicate NoDuplicates(adj: Adjacency) {
    forall k :: k in adj ==> Distinct(adj[k])
  }

  /** Every neighbour entry names a vertex of the graph. */
  predicate Closed(adj: Adjacency) {
    forall k, t :: k in adj && 0 <= t < |adj[k]| ==> adj[k][t] in adj
  }

  /** Every edge is recorded in both endpoints' lists. */
  predicate Symmetric(adj: Adjacency) {
    forall k, t :: k in adj && 0 <= t < |adj[k]| ==> adj[k][t] in adj && k in adj[adj[k][t]]
  }

  /** The two dictionaries have the same keys, and `order` lists those keys
      once each, in insertion order (the iteration order of a Python dict). */
  ghost predicate WellFormed(status: map<int, Piece>, adj: Adjacency, order: seq<int>) {
    status.Keys == adj.Keys && Distinct(order) && (forall k :: k in order <==> k in adj)
  }

  /** `list.index(x)`: the position of the first occurrence of `x`. */
  function IndexOf(s: seq<int>, x: int): (r: nat)
    requires x in s
    ensures r < |s| && s[r] == x && x !in s[..r]
  {
    if s[0] == x then 0
    else
      var r := IndexOf(s[1..], x);
      assert s[1..][..r] == s[1..r + 1];
      r + 1
  }

  /** `list.remove(x)` (equivalently `list.pop(list.index(x))`): drop the first occurrence of `x`. */
  function RemoveFirst(s: seq<int>, x: int): (r: seq<int>)
    requires x in s
    ensures |r| == |s| - 1
  {
    var i := IndexOf(s, x);
    assert s == s[..i] + [x] + s[i + 1..];
    s[..i] + s[i + 1..]
  }

  /** Removing the first occurrence keeps the entries before it and shifts
      the entries after it down by one. */
  lemma RemoveFirstShape(s: seq<int>, x: int)
    requires x in s
    ensures var i := IndexOf(s, x);
      RemoveFirst(s, x)[..i] == s[..i] && RemoveFirst(s, x)[i..] == s[i + 1..]
  {
    var i := IndexOf(s, x);
    assert RemoveFirst(s, x) == s[..i] + s[i + 1..];
  }

  /** Removing the first occurrence takes exactly one copy of `x` out and keeps
      the rest; on a duplicate-free list it leaves no `x` behind. */
  lemma RemoveFirstFacts(s: seq<int>, x: int)
    requires x in s
    ensures multiset(RemoveFirst(s, x)) == multiset(s) - multiset{x}
    ensures |RemoveFirst(s, x)| == |s| - 1
    ensures Distinct(s) ==> Distinct(RemoveFirst(s, x)) && x !in RemoveFirst(s, x)
  {
    var i := IndexOf(s, x);
    assert s == s[..i] + [x] + s[i + 1..];
    assert RemoveFirst(s, x) == s[..i] + s[i + 1..];
    if Distinct(s) {
      RemoveAtDistinct(s, i);
    }
  }

  /** Dropping one position of a duplicate-free list leaves it duplicate-free
      and without the dropped element. */
  lemma RemoveAtDistinct(s: seq<int>, i: nat)
    requires i < |s| && Distinct(s)
    ensures Distinct(s[..i] + s[i + 1..]) && s[i] !in s[..i] + s[i + 1..]
  {
    var r := s[..i] + s[i + 1..];
    assert forall p :: 0 <= p < |r| ==> r[p] == s[if p < i then p else p + 1];
  }

  /** `x` taken out of `s` if it occurs there (the body of the `remove_vertex` loop). */
  function Strip(s: seq<int>, x: int): (r: seq<int>)
    ensures |r| == (if x in s then |s| - 1 else |s|)
  {
    if x in s then RemoveFirst(s, x) else s
  }

  lemma StripFacts(s: seq<int>, x: int)
    requires Distinct(s)
    ensures Distinct(Strip(s, x)) && x !in Strip(s, x)
    ensures forall j :: j in Strip(s, x) <==> j in s && j != x
  {
    if x in s {
      RemoveFirstFacts(s, x);
      forall j ensures j in Strip(s, x) <==> j in s && j != x {
        assert j in Strip(s, x) <==> j in multiset(Strip(s, x));
        assert j in s <==> j in multiset(s);
      }
    }
  }

  // ---------------------------------------------------------------------------
  // add_edge

  /** The adjacency after `add_edge(a, b)`: `b` is appended to `a`'s list unless
      already there, then `a` to `b`'s list unless already there. When `a` is not
      a vertex the first lookup raises and nothing changes; when only `b` is
      missing, `b` has already been appended to `a`'s list when the second lookup raises. */
  function AddEdgeAdj(adj: Adjacency, a: int, b: int): (r: Adjacency)
    ensures r.Keys == adj.Keys
  {
    if a !in adj then adj
    else
      var adj1 := if b in adj[a] then adj else adj[a := adj[a] + [b]];
      if b !in adj1 then adj1
      else if a in adj1[b] then adj1
      else adj1[b := adj1[b] + [a]]
  }

  /** After `add_edge(a, b)` on two vertices, a list holds `j` exactly when it
      held it before or `j` is the other endpoint of the new edge. */
  lemma AddEdgeContents(adj: Adjacency, a: int, b: int, k: int, j: int)
    requires a in adj && b in adj && k in adj
    ensures j in AddEdgeAdj(adj, a, b)[k] <==> j in adj[k] || (k == a && j == b) || (k == b && j == a)
  {
  }

  /** `add_edge` only appends: every list keeps its old contents as a prefix and
      grows by at most one entry, and the lists of other vertices are untouched. */
  lemma AddEdgeOnlyAppends(adj: Adjacency, a: int, b: int)
    ensures forall k :: k in adj ==>
      AddEdgeAdj(adj, a, b)[k] == adj[k] || AddEdgeAdj(adj, a, b)[k] == adj[k] + [b] || AddEdgeAdj(adj, a, b)[k] == adj[k] + [a]
    ensures forall k :: k in adj && k != a && k != b ==> AddEdgeAdj(adj, a, b)[k] == adj[k]
  {
  }

  /** Adding the same edge twice is the same as adding it once. */
  lemma AddEdgeIdempotent(adj: Adjacency, a: int, b: int)
    ensures AddEdgeAdj(AddEdgeAdj(adj, a, b), a, b) == AddEdgeAdj(adj, a, b)
  {
  }

  /** `add_edge` never creates a duplicate entry. */
  lemma AddEdgeKeepsDistinct(adj: Adjacency, a: int, b: int)
    requires NoDuplicates(adj)
    ensures NoDuplicates(AddEdgeAdj(adj, a, b))
  {
    var r := AddEdgeAdj(adj, a, b);
    forall k | k in r ensures Distinct(r[k]) {
      AddEdgeOnlyAppends(adj, a, b);
      assert Distinct(adj[k]);
    }
  }

  /** `add_edge` between two vertices keeps adjacency symmetric and closed. */
  lemma AddEdgeKeepsSymmetric(adj: Adjacency, a: int, b: int)
    requires a in adj && b in adj
    requires Symmetric(adj)
    ensures Symmetric(AddEdgeAdj(adj, a, b)) && Closed(AddEdgeAdj(adj, a, b))
  {
    var r := AddEdgeAdj(adj, a, b);
    forall k, t | k in r && 0 <= t < |r[k]| ensures r[k][t] in r && k in r[r[k][t]] {
      var j := r[k][t];
      AddEdgeContents(adj, a, b, k, j);
      assert j in r[k];
      AddEdgeContents(adj, a, b, j, k);
    }
  }

  /** When only the first endpoint is a vertex, `add_edge` raises after leaving
      a neighbour entry that names no vertex. */
  lemma AddEdgeDangling(adj: Adjacency, a: int, b: int)
    requires a in adj && b !in adj
    ensures b in AddEdgeAdj(adj, a, b)[a] && !Closed(AddEdgeAdj(adj, a, b))
  {
    var r := AddEdgeAdj(adj, a, b);
    var t := IndexOf(r[a], b);
    assert r[a][t] !in r;
  }

  // ---------------------------------------------------------------------------
  // remove_edge

  /** The outcome of `remove_edge(a, b)` and the adjacency it leaves: `b` is
      removed from `a`'s list, then `a` from `b`'s list; a missing key raises
      KeyError and a missing entry raises ValueError, after whatever the first
      step already did. */
  function RemoveEdgeSpec(adj: Adjacency, a: int, b: int): (Result<()>, Adjacency) {
    if a !in adj then (Err(KeyError), adj)
    else if b !in adj[a] then (Err(ValueError), adj)
    else
      var adj1 := adj[a := RemoveFirst(adj[a], b)];
      if b !in adj1 then (Err(KeyError), adj1)
      else if a !in adj1[b] then (Err(ValueError), adj1)
      else (Ok(()), adj1[b := RemoveFirst(adj1[b], a)])
  }

  /** On a symmetric, duplicate-free graph `remove_edge(a, b)` succeeds exactly
      when `a` and `b` are distinct adjacent vertices, and then neither endpoint
      lists the other any more while all other lists are untouched. */
  lemma RemoveEdgeSucceeds(adj: Adjacency, a: int, b: int)
    requires Symmetric(adj) && NoDuplicates(adj)
    ensures RemoveEdgeSpec(adj, a, b).0.Ok? <==> a in adj && b in adj[a] && a != b
    ensures RemoveEdgeSpec(adj, a, b).0.Ok? ==>
      var r := RemoveEdgeSpec(adj, a, b).1;
      r.Keys == adj.Keys && b !in r[a] && a !in r[b] &&
      (forall k :: k in adj && k != a && k != b ==> r[k] == adj[k])
  {
    if a in adj && b in adj[a] {
      var t := IndexOf(adj[a], b);
      assert adj[a][t] == b;
      RemoveFirstFacts(adj[a], b);
      if a != b {
        var adj1 := adj[a := RemoveFirst(adj[a], b)];
        assert adj1[b] == adj[b];
        RemoveFirstFacts(adj1[b], a);
      } else {
        assert a !in RemoveFirst(adj[a], b);
      }
    }
  }

  /** Whatever its outcome, `remove_edge` keeps a symmetric, duplicate-free
      graph symmetric and duplicate-free. */
  lemma RemoveEdgeKeepsSymmetric(adj: Adjacency, a: int, b: int)
    requires Symmetric(adj) && NoDuplicates(adj)
    ensures Symmetric(RemoveEdgeSpec(adj, a, b).1) && NoDuplicates(RemoveEdgeSpec(adj, a, b).1)
  {
    var r := RemoveEdgeSpec(adj, a, b).1;
    if a in adj && b in adj[a] {
      StripFacts(adj[a], b);
      assert adj[b] == adj[a := Strip(adj[a], b)][b] || a == b;
      if a != b {
        StripFacts(adj[b], a);
      }
      forall k | k in r ensures forall j :: j in r[k] <==> j in adj[k] && !((k == a && j == b) || (k == b && j == a)) {
        if k == a || k == b {
          if a == b {
            assert r[k] == Strip(adj[a], b);
          } else if k == a {
            assert r[k] == Strip(adj[a], b);
          } else {
            assert r[k] == Strip(adj[b], a);
          }
        }
      }
      forall k | k in r ensures Distinct(r[k]) {
        if k == a {
          assert r[k] == Strip(adj[a], b);
        } else if k == b {
          assert r[k] == Strip(adj[b], a);
        }
      }
      forall k, t | k in r && 0 <= t < |r[k]| ensures r[k][t] in r && k in r[r[k][t]] {
        var j := r[k][t];
        assert j in r[k];
        assert j in adj[k];
      }
    }
  }

  // ---------------------------------------------------------------------------
  // remove_vertex

  /** The adjacency after `remove_vertex(i)`: `i` is taken out of every list
      that holds it, and its own entry is dropped. */
  function RemoveVertexAdj(adj: Adjacency, i: int): (r: Adjacency)
    ensures r.Keys == adj.Keys - {i}
  {
    map k | k in adj && k != i :: Strip(adj[k], i)
  }

  /** After `remove_vertex(i)` on a duplicate-free graph no list mentions `i`,
      and a symmetric graph stays symmetric. */
  lemma RemoveVertexForgets(adj: Adjacency, i: int)
    requires NoDuplicates(adj)
    ensures i !in RemoveVertexAdj(adj, i) && NoDuplicates(RemoveVertexAdj(adj, i))
    ensures forall k :: k in RemoveVertexAdj(adj, i) ==> i !in RemoveVertexAdj(adj, i)[k]
    ensures Symmetric(adj) ==> Symmetric(RemoveVertexAdj(adj, i))
  {
    var r := RemoveVertexAdj(adj, i);
    forall k | k in r ensures i !in r[k] && Distinct(r[k]) && forall j :: j in r[k] <==> j in adj[k] && j != i {
      StripFacts(adj[k], i);
    }
    if Symmetric(adj) {
      forall k, t | k in r && 0 <= t < |r[k]| ensures r[k][t] in r && k in r[r[k][t]] {
        var j := r[k][t];
        assert j in r[k];
        assert j in adj[k] && j != i;
        StripFacts(adj[j], i);
      }
    }
  }

  // ---------------------------------------------------------------------------
  // The in-place graph

  function Indices(n: int): (r: seq<int>)
    ensures |r| == (if n < 0 then 0 else n)
    ensures forall t :: 0 <= t < |r| ==> r[t] == t
  {
    seq(if n < 0 then 0 else n, t => t)
  }

  /** Replacing the neighbour lists without changing the keys keeps the dictionaries consistent. */
  lemma SameKeysWellFormed(status: map<int, Piece>, adj: Adjacency, adj': Adjacency, order: seq<int>)
    requires WellFormed(status, adj, order) && adj'.Keys == adj.Keys
    ensures WellFormed(status, adj', order)
  {
  }

  /** Every entry of the order is a key of the adjacency. */
  lemma OrderInAdj(status: map<int, Piece>, adj: Adjacency, order: seq<int>)
    requires WellFormed(status, adj, order)
    ensures forall u :: 0 <= u < |order| ==> order[u] in adj
  {
    forall u | 0 <= u < |order| ensures order[u] in adj {
      assert order[u] in order;
    }
  }

  lemma IndicesSnoc(i: int)
    requires i >= 0
    ensures Indices(i) + [i] == Indices(i + 1)
  {
  }

  /** Taking key `i` out of both dictionaries and out of the order keeps them consistent. */
  lemma RemoveKeyWellFormed(status: map<int, Piece>, adj: Adjacency, order: seq<int>, i: int, adj': Adjacency)
    requires WellFormed(status, adj, order) && i in adj
    requires adj'.Keys == adj.Keys - {i}
    ensures WellFormed(status - {i}, adj', RemoveFirst(order, i))
  {
    RemoveFirstFacts(order, i);
    forall k ensures k in RemoveFirst(order, i) <==> k in adj' {
      assert k in RemoveFirst(order, i) <==> k in multiset(RemoveFirst(order, i));
      assert k in order <==> k in multiset(order);
    }
  }

  /** Vertices `0 .. n-1`, all Empty. */
  function EmptyStatus(n: int): (r: map<int, Piece>)
    ensures forall k :: k in r <==> 0 <= k < n
    ensures forall k :: k in r ==> r[k] == Empty
  {
    if n <= 0 then map[] else EmptyStatus(n - 1)[n - 1 := Empty]
  }

  /** Vertices `0 .. n-1`, none with a neighbour. */
  function NoEdges(n: int): (r: Adjacency)
    ensures forall k :: k in r <==> 0 <= k < n
    ensures forall k :: k in r ==> r[k] == []
  {
    if n <= 0 then map[] else NoEdges(n - 1)[n - 1 := []]
  }

  class Graph {
    /** `vertex_list`: the status of the vertex stored under each index. */
    var status: map<int, Piece>
    /** `adj_list`, keyed by vertex index. */
    var adj: Adjacency
    /** The insertion order shared by both dictionaries. */
    var order: seq<int>

    ghost predicate Valid()
      reads this
    {
      WellFormed(status, adj, order)
    }

    /** `Graph(n)`: vertices `0 .. n-1`, each Empty and without neighbours,
        added in index order. */
    constructor (n: int)
      ensures Valid()
      ensures order == Indices(n)
      ensures status == EmptyStatus(n)
      ensures adj == NoEdges(n)
    {
      status, adj, order := map[], map[], [];
      new;
      var i := 0;
      while i < n
        invariant 0 <= i <= |Indices(n)|
        invariant Valid()
        invariant order == Indices(i)
        invariant status == EmptyStatus(i)
        invariant adj == NoEdges(i)
      {
        assert i !in status;
        IndicesSnoc(i);
        AddVertex(Vertex(i, Empty));
        i := i + 1;
      }
    }

    /** `get_vertex(i)`: the vertex stored under `i`, or KeyError. */
    function GetVertex(i: int): (r: Result<Vertex>)
      reads this
      ensures r.Ok? <==> i in status
      ensures r.Ok? ==> r.value.index == i && r.value.status == status[i]
    {
      if i in status then Ok(Vertex(i, status[i])) else Err(KeyError)
    }

    /** `get_siblings(i)`: the neighbour list of `i`, or KeyError. */
    function Siblings(i: int): (r: Result<seq<int>>)
      reads this
      requires Valid()
      ensures r.Ok? <==> i in status
      ensures r.Ok? ==> r.value == adj[i]
    {
      if i in status then Ok(adj[i]) else Err(KeyError)
    }

    /** `add_vertex(v)`: a new index gets its status and an empty neighbour
        list; an index already present leaves the graph unchanged. */
    method AddVertex(v: Vertex)
      requires Valid()
      modifies this
      ensures Valid()
      ensures v.index in old(status) ==>
        status == old(status) && adj == old(adj) && order == old(order)
      ensures v.index !in old(status) ==>
        status == old(status)[v.index := v.status] && adj == old(adj)[v.index := []] && order == old(order) + [v.index]
    {
      if v.index !in status {
        adj := adj[v.index := []];
        status := status[v.index := v.status];
        order := order + [v.index];
      }
    }

    /** `Vertex.set_status` on the vertex stored under `i`. */
    method SetStatus(i: int, p: Piece)
      requires Valid() && i in status
      modifies this
      ensures Valid()
      ensures status == old(status)[i := p] && adj == old(adj) && order == old(order)
    {
      status := status[i := p];
    }

    /** `add_edge(a, b)`. */
    method AddEdge(a: int, b: int) returns (r: Result<()>)
      requires Valid()
      modifies this
      ensures Valid()
      ensures r.Ok? <==> a in old(adj) && b in old(adj)
      ensures r.Err? ==> r.error == KeyError
      ensures adj == AddEdgeAdj(old(adj), a, b)
      ensures status == old(status) && order == old(order)
    {
      if a !in adj {
        return Err(KeyError);
      }
      if b !in adj[a] {
        adj := adj[a := adj[a] + [b]];
      }
      if b !in adj {
        return Err(KeyError);
      }
      if a !in adj[b] {
        adj := adj[b := adj[b] + [a]];
      }
      return Ok(());
    }

    /** `remove_edge(a, b)`. */
    method RemoveEdge(a: int, b: int) returns (r: Result<()>)
      requires Valid()
      modifies this
      ensures Valid()
      ensures (r, adj) == RemoveEdgeSpec(old(adj), a, b)
      ensures status == old(status) && order == old(order)
    {
      if a !in adj {
        return Err(KeyError);
      }
      if b !in adj[a] {
        return Err(ValueError);
      }
      adj := adj[a := RemoveFirst(adj[a], b)];
      if b !in adj {
        return Err(KeyError);
      }
      if a !in adj[b] {
        return Err(ValueError);
      }
      adj := adj[b := RemoveFirst(adj[b], a)];
      return Ok(());
    }

    /** The loop of `remove_vertex(i)`: in dictionary order, each list holding
        `i` loses its first occurrence. */
    method StripLists(i: int)
      requires Valid()
      modifies this
      ensures Valid() && status == old(status) && order == old(order)
      ensures adj.Keys == old(adj).Keys
      ensures forall k :: k in adj ==> adj[k] == Strip(old(adj)[k], i)
    {
      OrderInAdj(status, adj, order);
      ghost var adj0 := adj;
      var t := 0;
      while t < |order|
        invariant 0 <= t <= |order|
        invariant order == old(order) && status == old(status) && Distinct(order)
        invariant adj.Keys == adj0.Keys
        invariant forall u :: 0 <= u < |order| ==> order[u] in adj
        invariant forall u :: 0 <= u < t ==> adj[order[u]] == Strip(adj0[order[u]], i)
        invariant forall u :: t <= u < |order| ==> adj[order[u]] == adj0[order[u]]
      {
        var k := order[t];
        if i in adj[k] {
          adj := adj[k := RemoveFirst(adj[k], i)];
        }
        t := t + 1;
      }
      SameKeysWellFormed(status, adj0, adj, order);
      forall k | k in adj ensures adj[k] == Strip(adj0[k], i) {
        var u :| 0 <= u < |order| && order[u] == k;
      }
    }

    /** `remove_vertex(i)`: KeyError if `i` is absent; otherwise `i` is taken
        out of every neighbour list, in dictionary order, and then out of both
        dictionaries. */
    method RemoveVertex(i: int) returns (r: Result<()>)
      requires Valid()
      modifies this
      ensures Valid()
      ensures r.Ok? <==> i in old(status)
      ensures r.Err? ==> r.error == KeyError && status == old(status) && adj == old(adj) && order == old(order)
      ensures r.Ok? ==>
        status == old(status) - {i} && adj == RemoveVertexAdj(old(adj), i) && order == RemoveFirst(old(order), i)
    {
      if i !in status {
        return Err(KeyError);
      }
      StripLists(i);
      adj := adj - {i};
      status := status - {i};
      RemoveKeyWellFormed(old(status), old(adj), order, i, adj);
      order := RemoveFirst(order, i);
      return Ok(());
    }
  }
}
