/** Single-source shortest paths over an adjacency matrix, as in Algorithm/graphy.cpp:177-213.

    The matrix holds 32-bit integers and INT_MAX stands for "no edge".  The main result, the contract
    of `Dijkstra`, does not mention the diagonal: the loop starts from row `src`, so what it computes
    is the least weight over the walks that take at least one edge.  `ZeroDiagonalIsShortest` and
    `SourceDistanceIsZeroIff` then say when that is the usual distance.
*/
module Dijkstra {

  newtype Int32 = x: int | -0x8000_0000 <= x < 0x8000_0000

  const INT_MAX: Int32 := 0x7fff_ffff

  type Matrix = seq<seq<Int32>>

  ghost predicate IsMatrix(G: Matrix) {
    forall i :: 0 <= i < |G| ==> |G[i]| == |G|
  }

  ghost predicate NonNegative(G: Matrix)
    requires IsMatrix(G)
  {
    forall i, j :: 0 <= i < |G| && 0 <= j < |G| ==> 0 <= G[i][j]
  }

  /** `p` is a walk: its vertices exist and consecutive ones are joined by an edge. */
  ghost predicate IsWalk(G: Matrix, p: seq<nat>)
    requires IsMatrix(G)
  {
    && |p| >= 1
    && (forall k :: 0 <= k < |p| ==> p[k] < |G|)
    && (forall k :: 1 <= k < |p| ==> G[p[k-1]][p[k]] != INT_MAX)
  }

  /** `p` is a walk from `src` to `v` that takes at least one edge. */
  ghost predicate WalkTo(G: Matrix, src: nat, v: nat, p: seq<nat>)
    requires IsMatrix(G)
  {
    IsWalk(G, p) && |p| >= 2 && p[0] == src && p[|p|-1] == v
  }

  /** The weight of a walk, an unbounded sum. */
  ghost function Weight(G: Matrix, p: seq<nat>): int
    requires IsMatrix(G) && IsWalk(G, p)
  {
    if |p| == 1 then 0
    else
      assert IsWalk(G, p[..|p|-1]);
      Weight(G, p[..|p|-1]) + G[p[|p|-2]][p[|p|-1]] as int
  }

  /** No walk to `v` of at least one edge is lighter than `w`. */
  ghost predicate NoneLighter(G: Matrix, src: nat, v: nat, w: int)
    requires IsMatrix(G)
  {
    forall p :: WalkTo(G, src, v, p) ==> w <= Weight(G, p)
  }

  /** Some walk to `v` of at least one edge weighs exactly `w`. */
  ghost predicate Attained(G: Matrix, src: nat, v: nat, w: int)
    requires IsMatrix(G)
  {
    exists p :: WalkTo(G, src, v, p) && Weight(G, p) == w
  }

  ghost predicate Reaches(G: Matrix, src: nat, v: nat)
    requires IsMatrix(G)
  {
    exists p :: WalkTo(G, src, v, p)
  }

  /** Extending a lightest walk by one edge stays below the sentinel, so 32 bits suffice. */
  ghost predicate NoOverflow(G: Matrix, src: nat)
    requires IsMatrix(G)
  {
    forall u, v, w ::
      (0 <= u < |G| && 0 <= v < |G| && G[u][v] != INT_MAX && Attained(G, src, u, w) && NoneLighter(G, src, u, w))
      ==> w + G[u][v] as int < INT_MAX as int
  }

  /** `d` is the distance of `v`: the least weight over walks of at least one edge, or INT_MAX. */
  ghost predicate IsDistance(G: Matrix, src: nat, v: nat, d: Int32)
    requires IsMatrix(G)
  {
    && (d == INT_MAX <==> !Reaches(G, src, v))
    && (d != INT_MAX ==> Attained(G, src, v, d as int))
    && NoneLighter(G, src, v, d as int)
  }

  // ---------------------------------------------------------------- the settled-set invariant

  ghost predicate Settled(G: Matrix, src: nat, dist: seq<Int32>, visited: seq<bool>)
    requires IsMatrix(G)
  {
    && |dist| == |visited| == |G| && src < |G|
    && (forall v :: 0 <= v < |G| && dist[v] != INT_MAX ==> Attained(G, src, v, dist[v] as int))
    && (forall v :: 0 <= v < |G| ==> dist[v] <= G[src][v])
    && (forall v :: 0 <= v < |G| && visited[v] ==> dist[v] != INT_MAX && NoneLighter(G, src, v, dist[v] as int))
  }

  /** Every edge out of a visited vertex has been relaxed, except that out of `u` only up to `upto`. */
  ghost predicate Relaxed(G: Matrix, dist: seq<Int32>, visited: seq<bool>, u: int, upto: nat)
    requires IsMatrix(G) && |dist| == |visited| == |G|
  {
    forall x, v :: 0 <= x < |G| && 0 <= v < |G| && visited[x] && !visited[v] && G[x][v] != INT_MAX &&
      (x == u ==> v < upto)
      ==> dist[v] as int <= dist[x] as int + G[x][v] as int
  }

  lemma {:induction false} PrefixWeight(G: Matrix, p: seq<nat>, k: nat)
    requires IsMatrix(G) && NonNegative(G) && IsWalk(G, p) && 1 <= k <= |p|
    ensures IsWalk(G, p[..k]) && Weight(G, p[..k]) <= Weight(G, p)
  {
    if k == |p| {
      assert p[..k] == p;
    } else {
      var q := p[..|p|-1];
      PrefixWeight(G, q, k);
      assert q[..k] == p[..k];
    }
  }

  lemma ExtendWalk(G: Matrix, src: nat, u: nat, v: nat, w: int)
    requires IsMatrix(G) && u < |G| && v < |G|
    requires Attained(G, src, u, w) && G[u][v] != INT_MAX
    ensures Attained(G, src, v, w + G[u][v] as int)
  {
    var p :| WalkTo(G, src, u, p) && Weight(G, p) == w;
    var q := p + [v];
    assert q[..|q|-1] == p;
    assert WalkTo(G, src, v, q);
  }

  lemma SingleEdge(G: Matrix, src: nat, v: nat)
    requires IsMatrix(G) && src < |G| && v < |G| && G[src][v] != INT_MAX
    ensures Attained(G, src, v, G[src][v] as int)
  {
    var p := [src, v];
    assert p[..1] == [src];
    assert WalkTo(G, src, v, p) && Weight(G, p) == G[src][v] as int;
  }

  /** A walk that ends outside the settled set leaves it at some vertex whose tentative distance is
      finite and no more than the weight walked so far. */
  lemma {:induction false} FirstUnsettled(G: Matrix, src: nat, dist: seq<Int32>, visited: seq<bool>, p: seq<nat>)
    returns (x: nat)
    requires IsMatrix(G) && NonNegative(G) && NoOverflow(G, src)
    requires Settled(G, src, dist, visited) && Relaxed(G, dist, visited, -1, 0)
    requires IsWalk(G, p) && |p| >= 2 && p[0] == src && !visited[p[|p|-1]]
    ensures x < |G| && !visited[x] && dist[x] != INT_MAX && dist[x] as int <= Weight(G, p)
  {
    var q := p[..|p|-1];
    var u, v := p[|p|-2], p[|p|-1];
    assert IsWalk(G, q);
    if |p| == 2 {
      x := v;
    } else if visited[u] {
      assert WalkTo(G, src, u, q);
      x := v;
    } else {
      x := FirstUnsettled(G, src, dist, visited, q);
    }
  }

  /** Selection: the unvisited vertex with the least finite tentative distance is settled. */
  lemma SelectedIsSettled(G: Matrix, src: nat, dist: seq<Int32>, visited: seq<bool>, u: nat)
    requires IsMatrix(G) && NonNegative(G) && NoOverflow(G, src)
    requires Settled(G, src, dist, visited) && Relaxed(G, dist, visited, -1, 0)
    requires u < |G| && !visited[u]
    requires forall j :: 0 <= j < |G| && !visited[j] ==> dist[u] <= dist[j]
    ensures NoneLighter(G, src, u, dist[u] as int)
  {
    forall p | WalkTo(G, src, u, p)
      ensures dist[u] as int <= Weight(G, p)
    {
      var x := FirstUnsettled(G, src, dist, visited, p);
    }
  }

  lemma InitiallySettled(G: Matrix, src: nat, dist: seq<Int32>, visited: seq<bool>)
    requires IsMatrix(G) && src < |G| && |dist| == |visited| == |G|
    requires forall k :: 0 <= k < |G| ==> dist[k] == G[src][k] && !visited[k]
    ensures Settled(G, src, dist, visited) && Relaxed(G, dist, visited, -1, 0)
  {
    forall v | 0 <= v < |G| && dist[v] != INT_MAX
      ensures Attained(G, src, v, dist[v] as int)
    {
      SingleEdge(G, src, v);
    }
  }

  /** Marking the selected vertex visited keeps the invariant and opens its row for relaxation. */
  lemma SettleStep(G: Matrix, src: nat, dist: seq<Int32>, visited: seq<bool>, u: nat)
    requires IsMatrix(G) && NonNegative(G) && NoOverflow(G, src)
    requires Settled(G, src, dist, visited) && Relaxed(G, dist, visited, -1, 0)
    requires u < |G| && !visited[u] && dist[u] != INT_MAX
    requires forall j :: 0 <= j < |G| && !visited[j] ==> dist[u] <= dist[j]
    ensures Settled(G, src, dist, visited[u := true]) && Relaxed(G, dist, visited[u := true], u, 0)
  {
    SelectedIsSettled(G, src, dist, visited, u);
  }

  /** Relaxing one edge of a settled vertex: the sum fits in 32 bits, and the invariant advances. */
  lemma RelaxStep(G: Matrix, src: nat, dist: seq<Int32>, visited: seq<bool>, u: nat, v: nat)
    requires IsMatrix(G) && NonNegative(G) && NoOverflow(G, src)
    requires Settled(G, src, dist, visited) && u < |G| && v < |G| && visited[u]
    requires Relaxed(G, dist, visited, u, v)
    requires !visited[v] && G[u][v] != INT_MAX
    ensures dist[u] as int + G[u][v] as int < INT_MAX as int
    ensures dist[v] <= dist[u] + G[u][v] ==> Relaxed(G, dist, visited, u, v + 1)
    ensures dist[v] > dist[u] + G[u][v] ==>
      var dist' := dist[v := dist[u] + G[u][v]];
      Settled(G, src, dist', visited) && Relaxed(G, dist', visited, u, v + 1)
  {
    assert Attained(G, src, u, dist[u] as int);
    if dist[v] > dist[u] + G[u][v] {
      ExtendWalk(G, src, u, v, dist[u] as int);
    }
  }

  /** Termination: when no unvisited vertex has a finite distance, all distances are final. */
  lemma AllFinal(G: Matrix, src: nat, dist: seq<Int32>, visited: seq<bool>)
    requires IsMatrix(G) && NonNegative(G) && NoOverflow(G, src)
    requires Settled(G, src, dist, visited) && Relaxed(G, dist, visited, -1, 0)
    requires forall j :: 0 <= j < |G| && !visited[j] ==> dist[j] == INT_MAX
    ensures forall v :: 0 <= v < |G| ==> IsDistance(G, src, v, dist[v])
  {
    forall v | 0 <= v < |G|
      ensures IsDistance(G, src, v, dist[v])
    {
      if !visited[v] {
        forall p | WalkTo(G, src, v, p)
          ensures false
        {
          var x := FirstUnsettled(G, src, dist, visited, p);
        }
      } else {
        assert Attained(G, src, v, dist[v] as int);
      }
    }
  }

  ghost function CountVisited(visited: seq<bool>): nat {
    if |visited| == 0 then 0
    else CountVisited(visited[..|visited|-1]) + (if visited[|visited|-1] then 1 else 0)
  }

  lemma {:induction false} CountAfterVisit(visited: seq<bool>, u: nat)
    requires u < |visited| && !visited[u]
    ensures CountVisited(visited[u := true]) == CountVisited(visited) + 1
  {
    var n := |visited| - 1;
    if u == n {
      assert visited[u := true][..n] == visited[..n];
    } else {
      assert visited[u := true][..n] == visited[..n][u := true];
      CountAfterVisit(visited[..n], u);
    }
  }

  lemma {:induction false} CountOfNone(visited: seq<bool>)
    requires forall k :: 0 <= k < |visited| ==> !visited[k]
    ensures CountVisited(visited) == 0
  {
    if |visited| > 0 {
      CountOfNone(visited[..|visited|-1]);
    }
  }

  lemma {:induction false} CountOfAll(visited: seq<bool>)
    ensures CountVisited(visited) <= |visited|
    ensures CountVisited(visited) == |visited| ==> forall k :: 0 <= k < |visited| ==> visited[k]
  {
    if |visited| > 0 {
      CountOfAll(visited[..|visited|-1]);
    }
  }

  // ---------------------------------------------------------------- the algorithm

  /** The scan for the nearest unvisited vertex; -1 when none has a finite distance. */
  method SelectNearest(dist: array<Int32>, visited: array<bool>) returns (u: int)
    requires dist.Length == visited.Length
    ensures -1 <= u < dist.Length
    ensures u == -1 ==> forall k :: 0 <= k < dist.Length && !visited[k] ==> dist[k] == INT_MAX
    ensures u != -1 ==> !visited[u] && dist[u] != INT_MAX
    ensures u != -1 ==> forall k :: 0 <= k < dist.Length && !visited[k] ==> dist[u] <= dist[k]
  {
    var min := INT_MAX;
    u := -1;
    for j := 0 to dist.Length
      invariant -1 <= u < dist.Length
      invariant u == -1 ==> min == INT_MAX
      invariant u != -1 ==> !visited[u] && dist[u] == min && min < INT_MAX
      invariant forall k :: 0 <= k < j && !visited[k] ==> min <= dist[k]
    {
      if dist[j] < min && !visited[j] {
        u := j;
        min := dist[j];
      }
    }
  }

  /** Whether the edge from `u` to `v` gives a shorter way to an unvisited vertex. */
  predicate Shortens(G: Matrix, dist: seq<Int32>, visited: seq<bool>, u: nat, v: nat)
    requires IsMatrix(G) && |dist| == |visited| == |G| && u < |G| && v < |G|
  {
    !visited[v] && G[u][v] != INT_MAX && dist[v] as int > dist[u] as int + G[u][v] as int
  }

  /** One edge of the row: its sum fits whenever it is formed, and the invariant advances either way. */
  lemma RowStep(G: Matrix, src: nat, dist: seq<Int32>, visited: seq<bool>, u: nat, v: nat)
    requires IsMatrix(G) && NonNegative(G) && NoOverflow(G, src)
    requires Settled(G, src, dist, visited) && u < |G| && v < |G| && visited[u]
    requires Relaxed(G, dist, visited, u, v)
    ensures !visited[v] && G[u][v] != INT_MAX ==> dist[u] as int + G[u][v] as int < INT_MAX as int
    ensures !Shortens(G, dist, visited, u, v) ==> Relaxed(G, dist, visited, u, v + 1)
    ensures Shortens(G, dist, visited, u, v) ==>
      var dist' := dist[v := dist[u] + G[u][v]]; Settled(G, src, dist', visited) && Relaxed(G, dist', visited, u, v + 1)
  {
    if !visited[v] && G[u][v] != INT_MAX {
      RelaxStep(G, src, dist, visited, u, v);
    }
  }

  /** Every sum that relaxing the row of `u` forms fits 32 bits. */
  ghost predicate RowFits(G: Matrix, d: Int32, visited: seq<bool>, u: nat)
    requires IsMatrix(G) && |visited| == |G| && u < |G|
  {
    forall v :: 0 <= v < |G| && !visited[v] && G[u][v] != INT_MAX ==> d as int + G[u][v] as int < INT_MAX as int
  }

  /** The distances after the edges of the visited vertex `u` to the vertices below `v` have been relaxed. */
  ghost function Row(G: Matrix, dist: seq<Int32>, visited: seq<bool>, u: nat, v: nat): (r: seq<Int32>)
    requires IsMatrix(G) && NonNegative(G) && |dist| == |visited| == |G| && u < |G| && v <= |G|
    requires visited[u] && dist[u] >= 0 && RowFits(G, dist[u], visited, u)
    ensures |r| == |G| && r[u] == dist[u]
  {
    if v == 0 then dist
    else
      var row := Row(G, dist, visited, u, v - 1);
      if Shortens(G, row, visited, u, v - 1) then row[v-1 := row[u] + G[u][v-1]] else row
  }

  lemma {:induction false} RowSettles(G: Matrix, src: nat, dist: seq<Int32>, visited: seq<bool>, u: nat, v: nat)
    requires IsMatrix(G) && NonNegative(G) && NoOverflow(G, src)
    requires Settled(G, src, dist, visited) && u < |G| && v <= |G| && visited[u] && Relaxed(G, dist, visited, u, 0)
    requires dist[u] >= 0 && RowFits(G, dist[u], visited, u)
    ensures var row := Row(G, dist, visited, u, v); Settled(G, src, row, visited) && Relaxed(G, row, visited, u, v)
  {
    if v > 0 {
      var w := v - 1;
      RowSettles(G, src, dist, visited, u, w);
      RowStep(G, src, Row(G, dist, visited, u, w), visited, u, w);
    }
  }

  /** The sums fit because the row belongs to a settled vertex. */
  lemma SettledRowFits(G: Matrix, src: nat, dist: seq<Int32>, visited: seq<bool>, u: nat)
    requires IsMatrix(G) && NonNegative(G) && NoOverflow(G, src)
    requires Settled(G, src, dist, visited) && u < |G| && visited[u]
    ensures dist[u] >= 0 && RowFits(G, dist[u], visited, u)
  {
    assert Attained(G, src, u, dist[u] as int);
    var p :| WalkTo(G, src, u, p) && Weight(G, p) == dist[u] as int;
    WeightNonNegative(G, p);
  }

  /** The loop over the edges of `u`. */
  method RelaxRow(G: Matrix, dist: array<Int32>, visited: array<bool>, u: nat)
    requires IsMatrix(G) && NonNegative(G) && dist.Length == visited.Length == |G| && u < |G|
    requires visited[u] && dist[u] >= 0 && RowFits(G, dist[u], visited[..], u)
    modifies dist
    ensures dist[..] == Row(G, old(dist[..]), visited[..], u, |G|)
  {
    ghost var before, marked := dist[..], visited[..];
    for v := 0 to |G|
      invariant dist[..] == Row(G, before, marked, u, v)
    {
      assert dist[u] == before[u] == dist[..][u] && visited[v] == marked[v];
      if !visited[v] && G[u][v] != INT_MAX && dist[v] > dist[u] + G[u][v] {
        dist[v] := dist[u] + G[u][v];
      }
    }
  }

  /** The relaxation of every edge out of the visited vertex `u` restores the invariant. */
  method RelaxEdges(G: Matrix, dist: array<Int32>, visited: array<bool>, ghost src: nat, u: nat)
    requires IsMatrix(G) && NonNegative(G) && NoOverflow(G, src)
    requires dist.Length == visited.Length == |G| && u < |G| && visited[u]
    requires Settled(G, src, dist[..], visited[..]) && Relaxed(G, dist[..], visited[..], u, 0)
    modifies dist
    ensures Settled(G, src, dist[..], visited[..]) && Relaxed(G, dist[..], visited[..], -1, 0)
  {
    SettledRowFits(G, src, dist[..], visited[..], u);
    RowSettles(G, src, dist[..], visited[..], u, |G|);
    RelaxRow(G, dist, visited, u);
  }

  method Dijkstra(G: Matrix, dist: array<Int32>, visited: array<bool>, src: nat)
    requires IsMatrix(G) && NonNegative(G) && src < |G| && NoOverflow(G, src)
    requires dist.Length == visited.Length == |G|
    modifies dist, visited
    ensures forall v :: 0 <= v < |G| ==> IsDistance(G, src, v, dist[v])
  {
    var n := |G|;
    for i := 0 to n
      invariant forall k :: 0 <= k < i ==> dist[k] == G[src][k] && !visited[k]
    {
      dist[i] := G[src][i];
      visited[i] := false;
    }
    InitiallySettled(G, src, dist[..], visited[..]);
    CountOfNone(visited[..]);

    for i := 0 to n
      invariant Settled(G, src, dist[..], visited[..])
      invariant Relaxed(G, dist[..], visited[..], -1, 0)
      invariant CountVisited(visited[..]) == i
    {
      var u := SelectNearest(dist, visited);
      if u == -1 {
        AllFinal(G, src, dist[..], visited[..]);
        return;
      }
      SettleStep(G, src, dist[..], visited[..], u);
      CountAfterVisit(visited[..], u);
      ghost var marked := visited[..][u := true];
      visited[u] := true;
      assert visited[..] == marked;
      RelaxEdges(G, dist, visited, src, u);
    }

    CountOfAll(visited[..]);
    AllFinal(G, src, dist[..], visited[..]);
  }

  // ---------------------------------------------------------------- the usual notion of distance

  /** The least weight over all walks from `src`, the one of no edges included. */
  ghost predicate IsShortest(G: Matrix, src: nat, v: nat, d: Int32)
    requires IsMatrix(G) && src < |G|
  {
    && (d == INT_MAX <==> v != src && !Reaches(G, src, v))
    && (d != INT_MAX ==> (v == src && d == 0) || Attained(G, src, v, d as int))
    && NoneLighter(G, src, v, d as int)
    && (v == src ==> d <= 0)
  }

  lemma {:induction false} WeightNonNegative(G: Matrix, p: seq<nat>)
    requires IsMatrix(G) && NonNegative(G) && IsWalk(G, p)
    ensures 0 <= Weight(G, p)
  {
    PrefixWeight(G, p, 1);
    assert |p[..1]| == 1;
  }

  /** With a zero at the source's diagonal entry the result is the usual shortest distance. */
  lemma ZeroDiagonalIsShortest(G: Matrix, src: nat, v: nat, d: Int32)
    requires IsMatrix(G) && NonNegative(G) && src < |G| && v < |G|
    requires G[src][src] == 0
    requires IsDistance(G, src, v, d)
    ensures IsShortest(G, src, v, d)
  {
    if v == src {
      SingleEdge(G, src, src);
      assert Reaches(G, src, src);
    }
  }

  /** Off the source the result is always the usual distance; at the source it is so exactly when a
      closed walk of weight zero passes through it, for instance a zero on the diagonal. */
  lemma SourceDistanceIsZeroIff(G: Matrix, src: nat, v: nat, d: Int32)
    requires IsMatrix(G) && NonNegative(G) && src < |G| && v < |G|
    requires IsDistance(G, src, v, d)
    ensures IsShortest(G, src, v, d) <==> (v == src ==> Attained(G, src, src, 0))
  {
    if v == src && Attained(G, src, src, 0) {
      assert Reaches(G, src, src);
      var p :| WalkTo(G, src, src, p) && Weight(G, p) == 0;
      assert d as int <= Weight(G, p);
    }
    if v == src && IsShortest(G, src, v, d) {
      if Attained(G, src, src, d as int) {
        var p :| WalkTo(G, src, src, p) && Weight(G, p) == d as int;
        WeightNonNegative(G, p);
      }
    }
  }

  /** Where it is not: a source without a loop of its own is left at INT_MAX rather than zero. */
  lemma LoneSourceIsUnreached()
    ensures var G := [[INT_MAX]]; IsMatrix(G) && NonNegative(G) && NoOverflow(G, 0)
    ensures IsDistance([[INT_MAX]], 0, 0, INT_MAX) && !IsShortest([[INT_MAX]], 0, 0, INT_MAX)
  {
    var G := [[INT_MAX]];
    forall p
      ensures !WalkTo(G, 0, 0, p)
    {
      if |p| >= 2 && p[0] < 1 && p[1] < 1 {
        var k := 1;
        assert G[p[k-1]][p[k]] == INT_MAX;
      }
    }
  }
}
