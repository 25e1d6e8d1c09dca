/** The game board: a graph of `4n` forks (outer ring `0 .. n-1`, middle ring
    `n .. 3n-1`, inner ring `3n .. 4n-1`) whose edges are generated from the
    single integer `n` by explicit index formulas. */
module Boards {
  import opened Pieces
  import opened Graphs

  type Edge = (int, int)

  // ---------------------------------------------------------------------------
  // The edge schedule of the constructor

  /** The spoke added in iteration `a` of the construction loop, if any:
      outer fork `a` to middle fork `n + 2 + 2a`, or middle fork `a` (at an even
      offset from `n + 1`) to inner fork `3n + 1 + (a - n - 1) / 2`. */
  predicate Spoke(n: int, a: int, b: int) {
    (0 <= a < n - 1 && b == n + 2 + a * 2)
    || (n + 1 <= a < n * 3 - 1 && (a - n - 1) % 2 == 0 && b == n * 3 + 1 + (a - n - 1) / 2)
  }

  /** The `add_edge` calls made by iteration `i` of the construction loop. */
  function StepEdges(n: int, i: int): seq<Edge> {
    [(i, i + 1)]
    + if 0 <= i < n - 1 then [(i, n + 2 + i * 2)]
      else if n + 1 <= i < n * 3 - 1 && (i - n - 1) % 2 == 0 then [(i, n * 3 + 1 + (i - n - 1) / 2)]
      else []
  }

  /** The `add_edge` calls made by the first `k` iterations, in call order. */
  function LoopEdges(n: int, k: int): seq<Edge>
    decreases k
  {
    if k <= 0 then [] else LoopEdges(n, k - 1) + StepEdges(n, k - 1)
  }

  /** The three ring closures added after the loop. */
  function Closures(n: int): seq<Edge> {
    [(n - 1, 0), (n * 3 - 1, n), (n * 4 - 1, n * 3)]
  }

  /** Every `add_edge` call of the constructor, in order. */
  function BoardEdges(n: int): seq<Edge> {
    LoopEdges(n, n * 4 - 1) + Closures(n)
  }

  /** The adjacency left by a sequence of `add_edge` calls. */
  function Apply(adj: Adjacency, es: seq<Edge>): (r: Adjacency)
    ensures r.Keys == adj.Keys
    decreases |es|
  {
    if es == [] then adj
    else AddEdgeAdj(Apply(adj, es[..|es| - 1]), es[|es| - 1].0, es[|es| - 1].1)
  }

  /** The adjacency of `Board(n)`. */
  function BoardAdj(n: int): Adjacency {
    Apply(NoEdges(n * 4), BoardEdges(n))
  }

  /** The edges of the board, read off the constructor: the chain `a -- a+1`,
      the spokes and the three closures. */
  predicate IsEdge(n: int, a: int, b: int) {
    (0 <= a < n * 4 - 1 && b == a + 1)
    || Spoke(n, a, b)
    || (a, b) == (n - 1, 0) || (a, b) == (n * 3 - 1, n) || (a, b) == (n * 4 - 1, n * 3)
  }

  lemma ApplySnoc(adj: Adjacency, es: seq<Edge>, e: Edge)
    ensures Apply(adj, es + [e]) == AddEdgeAdj(Apply(adj, es), e.0, e.1)
  {
    assert (es + [e])[..|es|] == es;
  }

  /** Running two call sequences one after the other is running their concatenation. */
  lemma {:induction false} ApplyConcat(adj: Adjacency, es: seq<Edge>, fs: seq<Edge>)
    ensures Apply(adj, es + fs) == Apply(Apply(adj, es), fs)
    decreases |fs|
  {
    if fs == [] {
      assert es + fs == es;
    } else {
      var fs', f := fs[..|fs| - 1], fs[|fs| - 1];
      assert es + fs == (es + fs') + [f];
      assert fs == fs' + [f];
      ApplySnoc(adj, es + fs', f);
      ApplyConcat(adj, es, fs');
      ApplySnoc(Apply(adj, es), fs', f);
    }
  }

  /** The edges called by the first `k` iterations are the chain and spoke
      edges whose first endpoint is below `k`. */
  lemma {:induction false} LoopEdgesMembers(n: int, k: int, a: int, b: int)
    requires k >= 0
    ensures (a, b) in LoopEdges(n, k) <==> 0 <= a < k && (b == a + 1 || Spoke(n, a, b))
    decreases k
  {
    if k > 0 {
      LoopEdgesMembers(n, k - 1, a, b);
      assert LoopEdges(n, k) == LoopEdges(n, k - 1) + StepEdges(n, k - 1);
    }
  }

  /** The constructor calls `add_edge(a, b)` for exactly the board's edges. */
  lemma BoardEdgesMembers(n: int, a: int, b: int)
    requires n >= 1
    ensures (a, b) in BoardEdges(n) <==> IsEdge(n, a, b)
  {
    LoopEdgesMembers(n, n * 4 - 1, a, b);
  }

  /** Every edge joins two forks of the board. */
  lemma IsEdgeBounds(n: int, a: int, b: int)
    requires n >= 1 && IsEdge(n, a, b)
    ensures 0 <= a < n * 4 && 0 <= b < n * 4
  {
  }

  /** After a sequence of `add_edge` calls between vertices, a list holds `j`
      exactly when it held it before or some call joined its vertex to `j`. */
  lemma {:induction false} ApplyContents(adj: Adjacency, es: seq<Edge>, k: int, j: int)
    requires k in adj
    requires forall t :: 0 <= t < |es| ==> es[t].0 in adj && es[t].1 in adj
    ensures j in Apply(adj, es)[k] <==> j in adj[k] || (k, j) in es || (j, k) in es
    decreases |es|
  {
    if es != [] {
      var es', e := es[..|es| - 1], es[|es| - 1];
      assert es == es' + [e];
      ApplyContents(adj, es', k, j);
      AddEdgeContents(Apply(adj, es'), e.0, e.1, k, j);
    }
  }

  /** A sequence of `add_edge` calls never creates a duplicate entry. */
  lemma {:induction false} ApplyKeepsDistinct(adj: Adjacency, es: seq<Edge>)
    requires NoDuplicates(adj)
    ensures NoDuplicates(Apply(adj, es))
    decreases |es|
  {
    if es != [] {
      ApplyKeepsDistinct(adj, es[..|es| - 1]);
      AddEdgeKeepsDistinct(Apply(adj, es[..|es| - 1]), es[|es| - 1].0, es[|es| - 1].1);
    }
  }

  lemma BoardEdgesWithin(n: int)
    requires n >= 1
    ensures forall t :: 0 <= t < |BoardEdges(n)| ==> BoardEdges(n)[t].0 in NoEdges(n * 4) && BoardEdges(n)[t].1 in NoEdges(n * 4)
  {
    var es := BoardEdges(n);
    forall t | 0 <= t < |es| ensures es[t].0 in NoEdges(n * 4) && es[t].1 in NoEdges(n * 4) {
      assert es[t] in es;
      BoardEdgesMembers(n, es[t].0, es[t].1);
      IsEdgeBounds(n, es[t].0, es[t].1);
    }
  }

  // ---------------------------------------------------------------------------
  // The shape of the board

  /** `Board(n)` has the forks `0 .. 4n-1`, and fork `k` lists `j` exactly when
      one of the board's edges joins them (in either direction). */
  lemma BoardAdjacency(n: int, k: int, j: int)
    requires n >= 1
    ensures k in BoardAdj(n) <==> 0 <= k < n * 4
    ensures k in BoardAdj(n) ==> (j in BoardAdj(n)[k] <==> IsEdge(n, k, j) || IsEdge(n, j, k))
  {
    if 0 <= k < n * 4 {
      BoardEdgesWithin(n);
      ApplyContents(NoEdges(n * 4), BoardEdges(n), k, j);
      BoardEdgesMembers(n, k, j);
      BoardEdgesMembers(n, j, k);
    }
  }

  /** The board's adjacency is symmetric, closed and free of duplicates. */
  lemma BoardSymmetric(n: int)
    requires n >= 1
    ensures Symmetric(BoardAdj(n)) && Closed(BoardAdj(n)) && NoDuplicates(BoardAdj(n))
  {
    var adj := BoardAdj(n);
    ApplyKeepsDistinct(NoEdges(n * 4), BoardEdges(n));
    forall k, t | k in adj && 0 <= t < |adj[k]| ensures adj[k][t] in adj && k in adj[adj[k][t]] {
      var j := adj[k][t];
      BoardAdjacency(n, k, j);
      assert j in adj[k];
      if IsEdge(n, k, j) { IsEdgeBounds(n, k, j); } else { IsEdgeBounds(n, j, k); }
      BoardAdjacency(n, j, k);
    }
  }

  /** Consecutive forks are adjacent, across ring boundaries too
      (`n-1 -- n` and `3n-1 -- 3n`). */
  lemma BoardChain(n: int, i: int)
    requires n >= 1 && 0 <= i < n * 4 - 1
    ensures i + 1 in BoardAdj(n)[i] && i in BoardAdj(n)[i + 1]
  {
    BoardAdjacency(n, i, i + 1);
    BoardAdjacency(n, i + 1, i);
  }

  /** A sequence of forks, each adjacent to the next. */
  ghost predicate IsWalk(adj: Adjacency, p: seq<int>) {
    |p| >= 1
    && (forall t :: 0 <= t < |p| ==> p[t] in adj)
    && (forall t :: 0 <= t < |p| - 1 ==> p[t + 1] in adj[p[t]])
  }

  ghost predicate Connected(adj: Adjacency) {
    forall a, b :: a in adj && b in adj ==> exists p :: IsWalk(adj, p) && p[0] == a && p[|p| - 1] == b
  }

  /** The forks from `a` to `b` in steps of one. */
  function Run(a: int, b: int): (p: seq<int>)
    ensures |p| >= 1 && p[0] == a && p[|p| - 1] == b
  {
    if a <= b then seq(b - a + 1, t => a + t) else seq(a - b + 1, t => a - t)
  }

  /** The forks of the board are `0 .. 4n-1`. */
  lemma BoardForks(n: int)
    ensures forall k :: k in BoardAdj(n) <==> 0 <= k < n * 4
  {
  }

  /** In a graph on forks `0 .. m-1` where each `c` and `c+1` are adjacent
      both ways, walking the chain from `a` to `b` is a walk. */
  lemma ChainWalk(adj: Adjacency, m: int, a: int, b: int)
    requires forall k :: k in adj <==> 0 <= k < m
    requires forall c :: 0 <= c < m - 1 ==> c + 1 in adj[c] && c in adj[c + 1]
    requires 0 <= a < m && 0 <= b < m
    ensures IsWalk(adj, Run(a, b))
  {
    var p := Run(a, b);
    if a <= b {
      assert |p| == b - a + 1 && forall t :: 0 <= t < |p| ==> p[t] == a + t;
      forall t | 0 <= t < |p| - 1 ensures p[t + 1] in adj[p[t]] {
        var c := a + t;
        assert p[t] == c && p[t + 1] == c + 1;
      }
    } else {
      assert |p| == a - b + 1 && forall t :: 0 <= t < |p| ==> p[t] == a - t;
      forall t | 0 <= t < |p| - 1 ensures p[t + 1] in adj[p[t]] {
        var c := a - t - 1;
        assert p[t] == c + 1 && p[t + 1] == c;
      }
    }
  }

  /** A graph on forks `0 .. m-1` containing the chain is connected. */
  lemma ChainConnected(adj: Adjacency, m: int)
    requires forall k :: k in adj <==> 0 <= k < m
    requires forall c :: 0 <= c < m - 1 ==> c + 1 in adj[c] && c in adj[c + 1]
    ensures Connected(adj)
  {
    forall a, b | a in adj && b in adj ensures exists p :: IsWalk(adj, p) && p[0] == a && p[|p| - 1] == b {
      ChainWalk(adj, m, a, b);
      var p := Run(a, b);
      assert IsWalk(adj, p) && p[0] == a && p[|p| - 1] == b;
    }
  }

  /** Every `i -- i+1` of the chain is an edge of the board. */
  lemma BoardHasChain(n: int)
    requires n >= 1
    ensures forall c :: 0 <= c < n * 4 - 1 ==> c + 1 in BoardAdj(n)[c] && c in BoardAdj(n)[c + 1]
  {
    BoardForks(n);
    forall c | 0 <= c < n * 4 - 1 ensures c + 1 in BoardAdj(n)[c] && c in BoardAdj(n)[c + 1] {
      BoardChain(n, c);
    }
  }

  /** The board is connected: the chain links every pair of forks. */
  lemma BoardConnected(n: int)
    requires n >= 1
    ensures Connected(BoardAdj(n))
  {
    BoardForks(n);
    BoardHasChain(n);
    ChainConnected(BoardAdj(n), n * 4);
  }

  // ---------------------------------------------------------------------------
  // Every fork has three neighbours

  /** The neighbours of fork `k`, region by region. */
  function Neighbours(n: int, k: int): set<int> {
    if k == 0 then {1, n - 1, n + 2}
    else if k < n - 1 then {k - 1, k + 1, n + 2 + k * 2}
    else if k == n - 1 then {n - 2, n, 0}
    else if k == n then {n - 1, n + 1, n * 3 - 1}
    else if k < n * 3 - 1 then
      {k - 1, k + 1, if (k - n) % 2 == 0 then (k - n - 2) / 2 else n * 3 + 1 + (k - n - 1) / 2}
    else if k == n * 3 - 1 then {n * 3 - 2, n * 3, n}
    else if k == n * 3 then {n * 3 - 1, n * 3 + 1, n * 4 - 1}
    else if k < n * 4 - 1 then {k - 1, k + 1, n + 1 + (k - n * 3 - 1) * 2}
    else {n * 4 - 2, n * 3, n * 3 - 3}
  }

  lemma NeighboursHasThree(n: int, k: int)
    requires n >= 3 && 0 <= k < n * 4
    ensures |Neighbours(n, k)| == 3
  {
  }

  /** Every listed neighbour of an inner fork (`k < n`) is joined to it by an edge. */
  lemma InnerNeighboursAreEdges(n: int, k: int, j: int)
    requires n >= 3 && 0 <= k < n && j in Neighbours(n, k)
    ensures IsEdge(n, k, j) || IsEdge(n, j, k)
  {
    if k == 0 {
      assert j in {1, n - 1, n + 2};
      if j == n + 2 {
        assert Spoke(n, k, j);
      }
    } else if k == n - 1 {
      assert j in {n - 2, n, 0};
    } else {
      assert j in {k - 1, k + 1, n + 2 + k * 2};
      if j == n + 2 + k * 2 {
        assert Spoke(n, k, j);
      }
    }
  }

  /** Every listed neighbour of a middle fork (`n <= k < 3n`) is joined to it by an edge. */
  lemma MiddleNeighboursAreEdges(n: int, k: int, j: int)
    requires n >= 3 && n <= k < n * 3 && j in Neighbours(n, k)
    ensures IsEdge(n, k, j) || IsEdge(n, j, k)
  {
    if k == n {
      assert j in {n - 1, n + 1, n * 3 - 1};
    } else if k == n * 3 - 1 {
      assert j in {n * 3 - 2, n * 3, n};
    } else if (k - n) % 2 == 0 {
      var m := (k - n - 2) / 2;
      assert k - n - 2 == m * 2;
      assert j in {k - 1, k + 1, m};
      if j == m {
        assert Spoke(n, m, k);
      }
    } else {
      var m := (k - n - 1) / 2;
      assert k - n - 1 == m * 2;
      assert j in {k - 1, k + 1, n * 3 + 1 + m};
      if j == n * 3 + 1 + m {
        assert Spoke(n, k, j);
      }
    }
  }

  /** Every listed neighbour of an outer fork (`3n <= k < 4n`) is joined to it by an edge. */
  lemma OuterNeighboursAreEdges(n: int, k: int, j: int)
    requires n >= 3 && n * 3 <= k < n * 4 && j in Neighbours(n, k)
    ensures IsEdge(n, k, j) || IsEdge(n, j, k)
  {
    if j == k - 1 {
      assert IsEdge(n, j, k);
    } else if j == k + 1 {
      assert IsEdge(n, k, j);
    } else if k == n * 3 {
      assert j == n * 4 - 1;
      assert IsEdge(n, j, k);
    } else if k == n * 4 - 1 {
      assert j == n * 3 || j == n * 3 - 3;
      if j == n * 3 {
        assert IsEdge(n, k, j);
      } else {
        assert j - n - 1 == (n - 2) * 2;
        assert Spoke(n, j, k);
      }
    } else {
      var m := k - n * 3 - 1;
      assert j == n + 1 + m * 2;
      assert j - n - 1 == m * 2;
      assert Spoke(n, j, k);
    }
  }

  /** Every edge at a fork joins it to a listed neighbour. */
  lemma EdgesAreNeighbours(n: int, k: int, j: int)
    requires n >= 3 && 0 <= k < n * 4 && (IsEdge(n, k, j) || IsEdge(n, j, k))
    ensures j in Neighbours(n, k)
  {
  }

  /** A fork is joined to `j` by an edge exactly when `j` is one of its
      listed neighbours. */
  lemma NeighboursExact(n: int, k: int, j: int)
    requires n >= 3 && 0 <= k < n * 4
    ensures IsEdge(n, k, j) || IsEdge(n, j, k) <==> j in Neighbours(n, k)
  {
    if j in Neighbours(n, k) {
      if k < n {
        InnerNeighboursAreEdges(n, k, j);
      } else if k < n * 3 {
        MiddleNeighboursAreEdges(n, k, j);
      } else {
        OuterNeighboursAreEdges(n, k, j);
      }
    }
    if IsEdge(n, k, j) || IsEdge(n, j, k) {
      EdgesAreNeighbours(n, k, j);
    }
  }

  /** A duplicate-free list has as many distinct elements as entries. */
  lemma {:induction false} DistinctCard(s: seq<int>)
    requires Distinct(s)
    ensures |set x | x in s| == |s|
  {
    if s != [] {
      DistinctCard(s[1..]);
      assert (set x | x in s) == {s[0]} + (set x | x in s[1..]);
      assert s[0] !in (set x | x in s[1..]);
    }
  }

  /** For `n >= 3` every fork of `Board(n)` has exactly three distinct neighbours. */
  lemma BoardDegreeThree(n: int, k: int)
    requires n >= 3 && 0 <= k < n * 4
    ensures k in BoardAdj(n) && |BoardAdj(n)[k]| == 3
    ensures forall j :: j in BoardAdj(n)[k] <==> j in Neighbours(n, k)
  {
    var adj := BoardAdj(n);
    BoardAdjacency(n, k, 0);
    forall j ensures j in adj[k] <==> j in Neighbours(n, k) {
      BoardAdjacency(n, k, j);
      NeighboursExact(n, k, j);
    }
    BoardSymmetric(n);
    DistinctCard(adj[k]);
    assert (set x | x in adj[k]) == Neighbours(n, k);
    NeighboursHasThree(n, k);
  }

  // ---------------------------------------------------------------------------
  // The constructor

  /** The adjacency after the spoke of iteration `i`, if it has one. */
  function SpokeAdj(adj: Adjacency, n: int, i: int): Adjacency {
    if 0 <= i < n - 1 then AddEdgeAdj(adj, i, n + 2 + i * 2)
    else if n + 1 <= i < n * 3 - 1 && (i - n - 1) % 2 == 0 then AddEdgeAdj(adj, i, n * 3 + 1 + (i - n - 1) / 2)
    else adj
  }

  /** The adjacency after iteration `i` of the construction loop. */
  function StepAdj(adj: Adjacency, n: int, i: int): Adjacency {
    SpokeAdj(AddEdgeAdj(adj, i, i + 1), n, i)
  }

  lemma StepAdjIsApply(adj: Adjacency, n: int, i: int)
    ensures StepAdj(adj, n, i) == Apply(adj, StepEdges(n, i))
  {
    var e := (i, i + 1);
    ApplySnoc(adj, [], e);
    assert [] + [e] == [e];
    if 0 <= i < n - 1 {
      ApplySnoc(adj, [e], (i, n + 2 + i * 2));
    } else if n + 1 <= i < n * 3 - 1 && (i - n - 1) % 2 == 0 {
      ApplySnoc(adj, [e], (i, n * 3 + 1 + (i - n - 1) / 2));
    }
  }

  /** One more iteration of the construction loop is one more `StepAdj`. */
  lemma LoopStep(adj: Adjacency, n: int, i: int)
    requires i >= 0
    ensures Apply(adj, LoopEdges(n, i + 1)) == StepAdj(Apply(adj, LoopEdges(n, i)), n, i)
  {
    var es, fs := LoopEdges(n, i), StepEdges(n, i);
    assert LoopEdges(n, i + 1) == es + fs;
    ApplyConcat(adj, es, fs);
    StepAdjIsApply(Apply(adj, es), n, i);
  }

  /** The adjacency after the three closures. */
  function ClosuresAdj(adj: Adjacency, n: int): Adjacency {
    AddEdgeAdj(AddEdgeAdj(AddEdgeAdj(adj, n - 1, 0), n * 3 - 1, n), n * 4 - 1, n * 3)
  }

  lemma ClosuresAdjIsApply(adj: Adjacency, n: int)
    ensures ClosuresAdj(adj, n) == Apply(adj, Closures(n))
  {
    var c1, c2, c3 := (n - 1, 0), (n * 3 - 1, n), (n * 4 - 1, n * 3);
    ApplySnoc(adj, [], c1);
    assert [] + [c1] == [c1];
    ApplySnoc(adj, [c1], c2);
    assert [c1] + [c2] == [c1, c2];
    ApplySnoc(adj, [c1, c2], c3);
    assert [c1, c2] + [c3] == Closures(n);
  }

  /** Running the loop and then the closures gives the board's adjacency. */
  lemma BoardAdjBuilt(n: int)
    ensures ClosuresAdj(Apply(NoEdges(n * 4), LoopEdges(n, n * 4 - 1)), n) == BoardAdj(n)
  {
    var es, fs := LoopEdges(n, n * 4 - 1), Closures(n);
    assert BoardEdges(n) == es + fs;
    ApplyConcat(NoEdges(n * 4), es, fs);
    ClosuresAdjIsApply(Apply(NoEdges(n * 4), es), n);
  }

  /** Forks `0 .. m-1` are vertices of the graph, as they are in `Graph(m)`. */
  predicate HasForks(adj: Adjacency, m: int)
    decreases m
  {
    m <= 0 || (m - 1 in adj && HasForks(adj, m - 1))
  }

  lemma {:induction false} HasForksMember(adj: Adjacency, m: int, k: int)
    requires HasForks(adj, m) && 0 <= k < m
    ensures k in adj
    decreases m
  {
    if k < m - 1 {
      HasForksMember(adj, m - 1, k);
    }
  }

  lemma {:induction false} HasForksOf(adj: Adjacency, m: int)
    requires forall k :: 0 <= k < m ==> k in adj
    ensures HasForks(adj, m)
    decreases m
  {
    if m > 0 {
      HasForksOf(adj, m - 1);
    }
  }

  lemma {:induction false} HasForksKept(adj: Adjacency, adj': Adjacency, m: int)
    requires HasForks(adj, m) && adj'.Keys == adj.Keys
    ensures HasForks(adj', m)
    decreases m
  {
    if m > 0 {
      HasForksKept(adj, adj', m - 1);
    }
  }

  /** `add_edge(get_vertex(a), get_vertex(b))` between two forks of `Graph(m)`:
      both lookups succeed, so the edge is added. */
  method AddForkEdge(g: Graph, m: int, a: int, b: int)
    requires g.Valid() && HasForks(g.adj, m) && 0 <= a < m && 0 <= b < m
    modifies g
    ensures g.Valid() && g.status == old(g.status) && g.order == old(g.order)
    ensures g.adj == AddEdgeAdj(old(g.adj), a, b) && HasForks(g.adj, m)
  {
    HasForksMember(g.adj, m, a);
    HasForksMember(g.adj, m, b);
    var u := g.GetVertex(a);
    var v := g.GetVertex(b);
    assert u.Ok? && v.Ok?;
    ghost var before := g.adj;
    var _ := g.AddEdge(a, b);
    HasForksKept(before, g.adj, m);
  }

  /** One iteration of the construction loop: the chain edge `i -- i+1`, then
      the spoke from `i` if there is one. After iterations `0 .. i-1` from
      `start`, this gives iterations `0 .. i`. */
  method AddStep(g: Graph, n: int, i: int, ghost start: Adjacency)
    requires g.Valid() && HasForks(g.adj, n * 4) && 0 <= i < n * 4 - 1
    requires g.adj == Apply(start, LoopEdges(n, i))
    modifies g
    ensures g.Valid() && g.status == old(g.status) && g.order == old(g.order)
    ensures g.adj == Apply(start, LoopEdges(n, i + 1)) && HasForks(g.adj, n * 4)
  {
    AddForkEdge(g, n * 4, i, i + 1);
    AddSpoke(g, n, i);
    LoopStep(start, n, i);
  }

  lemma SpokeInRange(n: int, i: int)
    requires n + 1 <= i < n * 3 - 1 && (i - n - 1) % 2 == 0
    ensures 0 <= n * 3 + 1 + (i - n - 1) / 2 < n * 4
  {
    var h := (i - n - 1) / 2;
    assert h * 2 == i - n - 1;
  }

  /** The spoke from `i`, if iteration `i` has one. */
  method AddSpoke(g: Graph, n: int, i: int)
    requires g.Valid() && HasForks(g.adj, n * 4) && 0 <= i < n * 4 - 1
    modifies g
    ensures g.Valid() && g.status == old(g.status) && g.order == old(g.order)
    ensures g.adj == SpokeAdj(old(g.adj), n, i) && HasForks(g.adj, n * 4)
  {
    if 0 <= i < n - 1 {
      AddForkEdge(g, n * 4, i, n + 2 + i * 2);
    } else if n + 1 <= i < n * 3 - 1 && (i - n - 1) % 2 == 0 {
      SpokeInRange(n, i);
      AddForkEdge(g, n * 4, i, n * 3 + 1 + (i - n - 1) / 2);
    }
  }

  /** The construction loop: iterations `0 .. 4n-2` in order. */
  method AddLoop(g: Graph, n: int)
    requires g.Valid() && HasForks(g.adj, n * 4)
    modifies g
    ensures g.Valid() && g.status == old(g.status) && g.order == old(g.order)
    ensures g.adj == Apply(old(g.adj), LoopEdges(n, n * 4 - 1))
  {
    ghost var start := g.adj;
    var stop := n * 4 - 1;
    var i := 0;
    while i < stop
      invariant 0 <= i && (stop >= 0 ==> i <= stop) && (stop < 0 ==> i == 0)
      invariant g.Valid() && g.status == old(g.status) && g.order == old(g.order)
      invariant g.adj == Apply(start, LoopEdges(n, i)) && HasForks(g.adj, n * 4)
    {
      AddStep(g, n, i, start);
      i := i + 1;
    }
  }

  /** `add_edge(get_vertex(a), get_vertex(b))` on values: KeyError from the
      lookups, before anything changes, when `a` or `b` is not a vertex. */
  function LookUpAndAdd(adj: Adjacency, a: int, b: int): (Result<()>, Adjacency) {
    if a !in adj || b !in adj then (Err(KeyError), adj) else (Ok(()), AddEdgeAdj(adj, a, b))
  }

  /** The three closures on values, stopping at the first one that raises;
      the closures already added stay. */
  function ClosuresSpec(adj: Adjacency, n: int): (Result<()>, Adjacency) {
    var (r1, a1) := LookUpAndAdd(adj, n - 1, 0);
    if r1.Err? then (r1, a1)
    else
      var (r2, a2) := LookUpAndAdd(a1, n * 3 - 1, n);
      if r2.Err? then (r2, a2)
      else LookUpAndAdd(a2, n * 4 - 1, n * 3)
  }

  /** The closures succeed exactly when their six forks are vertices, and then
      add all three edges; on a graph without fork `n-1` or `0` nothing changes. */
  lemma ClosuresSpecOutcome(adj: Adjacency, n: int)
    ensures var (r, adj') := ClosuresSpec(adj, n);
      (r.Ok? <==> n - 1 in adj && 0 in adj && n * 3 - 1 in adj && n in adj && n * 4 - 1 in adj && n * 3 in adj)
      && (r.Err? ==> r.error == KeyError)
      && (r.Ok? ==> adj' == ClosuresAdj(adj, n))
      && (n - 1 !in adj || 0 !in adj ==> adj' == adj)
      && adj'.Keys == adj.Keys
  {
  }

  /** `add_edge(get_vertex(a), get_vertex(b))`. */
  method LookUpAndAddEdge(g: Graph, a: int, b: int) returns (r: Result<()>)
    requires g.Valid()
    modifies g
    ensures g.Valid() && g.status == old(g.status) && g.order == old(g.order)
    ensures (r, g.adj) == LookUpAndAdd(old(g.adj), a, b)
  {
    var u := g.GetVertex(a);
    var v := g.GetVertex(b);
    assert u.Ok? && v.Ok? <==> a in g.adj && b in g.adj;
    if u.Err? || v.Err? {
      return Err(KeyError);
    }
    r := g.AddEdge(a, b);
    assert r.Ok?;
    return Ok(());
  }

  /** The three closures `n-1 -- 0`, `3n-1 -- n` and `4n-1 -- 3n`, in order. */
  method AddClosures(g: Graph, n: int) returns (r: Result<()>)
    requires g.Valid()
    modifies g
    ensures g.Valid() && g.status == old(g.status) && g.order == old(g.order)
    ensures (r, g.adj) == ClosuresSpec(old(g.adj), n)
  {
    r := LookUpAndAddEdge(g, n - 1, 0);
    if r.Err? {
      return;
    }
    r := LookUpAndAddEdge(g, n * 3 - 1, n);
    if r.Err? {
      return;
    }
    r := LookUpAndAddEdge(g, n * 4 - 1, n * 3);
  }

  /** `Board(n)`: the graph `Graph(4n)` with the chain and spokes added in
      iteration order and then the three closures; with `n < 1` the first
      closure looks up a fork that does not exist and raises KeyError. */
  method NewBoard(n: int) returns (r: Result<Graph>)
    ensures r.Ok? <==> n >= 1
    ensures r.Err? ==> r.error == KeyError
    ensures r.Ok? ==> fresh(r.value) && r.value.Valid()
    ensures r.Ok? ==> r.value.order == Indices(n * 4) && r.value.status == EmptyStatus(n * 4)
    ensures r.Ok? ==> r.value.adj == BoardAdj(n)
  {
    var g := new Graph(n * 4);
    HasForksOf(g.adj, n * 4);
    AddLoop(g, n);
    ghost var looped := g.adj;
    assert forall k :: k in looped <==> 0 <= k < n * 4;
    ClosuresSpecOutcome(looped, n);
    var closed := AddClosures(g, n);
    if closed.Err? {
      return Err(KeyError);
    }
    BoardAdjBuilt(n);
    return Ok(g);
  }
}
