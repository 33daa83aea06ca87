/** Single-source shortest paths by Bellman-Ford: `V - 1` rounds relaxing every edge,
    then one more pass that reports a negative cycle if some edge can still be relaxed
    (Algorithms/BellmanFord.java). */
module BellmanFord {

  datatype Edge = Edge(u: int, v: int, weight: int)

  /** What the algorithm reports: a negative cycle, or the distance of every vertex with
      `INF` for the ones it never reached. */
  datatype Report = NegativeCycle | Distances(dist: seq<int>)

  /** `Integer.MAX_VALUE`, the distance of a vertex not reached yet. */
  const INF: int := 0x7fff_ffff

  predicate EdgesIn(edges: seq<Edge>, V: int)
  {
    forall k :: 0 <= k < |edges| ==> 0 <= edges[k].u < V && 0 <= edges[k].v < V
  }

  predicate Indexes(edges: seq<Edge>, p: seq<int>)
  {
    forall j :: 0 <= j < |p| ==> 0 <= p[j] < |edges|
  }

  /** The total weight of the edges listed in `p`. */
  function Weight(edges: seq<Edge>, p: seq<int>): int
    requires Indexes(edges, p)
  {
    if |p| == 0 then 0 else Weight(edges, p[..|p| - 1]) + edges[p[|p| - 1]].weight
  }

  /** `p` lists the edges of a walk from `s` to `t`: each edge starts where the one before
      it ends. */
  ghost predicate IsWalk(edges: seq<Edge>, s: int, t: int, p: seq<int>)
  {
    Indexes(edges, p) &&
    (if |p| == 0 then s == t else edges[p[0]].u == s && edges[p[|p| - 1]].v == t) &&
    (forall j :: 0 < j < |p| ==> edges[p[j - 1]].v == edges[p[j]].u)
  }

  /** The vertex a walk from `s` along `p` has reached after `j` edges. */
  function Vertex(edges: seq<Edge>, s: int, p: seq<int>, j: int): int
    requires Indexes(edges, p) && 0 <= j <= |p|
  {
    if j == 0 then s else edges[p[j - 1]].v
  }

  ghost predicate Reachable(edges: seq<Edge>, source: int, v: int)
  {
    exists p :: IsWalk(edges, source, v, p)
  }

  /** No closed walk through a vertex reachable from `source` has negative weight. */
  ghost predicate NoNegativeCycle(edges: seq<Edge>, source: int)
  {
    forall x, p, c :: IsWalk(edges, source, x, p) && IsWalk(edges, x, x, c) ==>
      Weight(edges, c) >= 0
  }

  /** `d` is the least weight of a walk from `source` to `v`. */
  ghost predicate Shortest(edges: seq<Edge>, source: int, v: int, d: int)
  {
    (exists p :: IsWalk(edges, source, v, p) && Weight(edges, p) == d) &&
    (forall p :: IsWalk(edges, source, v, p) ==> d <= Weight(edges, p))
  }

  /** The largest edge weight in absolute value. */
  function MaxWeight(edges: seq<Edge>): (m: nat)
    ensures forall k :: 0 <= k < |edges| ==> edges[k].weight <= m && -edges[k].weight <= m
    ensures m == 0 || exists k :: 0 <= k < |edges| && (m == edges[k].weight || m == -edges[k].weight)
  {
    if |edges| == 0 then 0
    else
      var w := edges[|edges| - 1].weight;
      var a := if w < 0 then -w else w;
      var rest := MaxWeight(edges[..|edges| - 1]);
      assert forall k :: 0 <= k < |edges| - 1 ==> edges[k] == edges[..|edges| - 1][k];
      if a < rest then rest else a
  }

  /** Weights small enough that Java's `int` sums never wrap and `INF` only ever means
      "not reached". Every distance is the weight of a walk of at most `(V - 1) * |edges|`
      edges, one per relaxation so far, so a sum `dist[u] + weight` weighs no more than a
      walk one edge longer; and no walk of fewer than `V` edges reaches `INF`. */
  predicate NoOverflow(edges: seq<Edge>, V: int)
  {
    V * MaxWeight(edges) < INF && ((V - 1) * |edges| + 1) * MaxWeight(edges) < INF
  }

  /** Every sum `d[u] + weight` the relaxation test computes lies in Java's `int` range,
      `-2^31 .. 2^31 - 1`, so the unbounded sums here are the ones Java computes. */
  predicate SumsInRange(edges: seq<Edge>, d: seq<int>)
  {
    forall k :: 0 <= k < |edges| && 0 <= edges[k].u < |d| && d[edges[k].u] != INF ==>
      -INF - 1 <= d[edges[k].u] + edges[k].weight <= INF
  }

  /** The relaxation test of both passes: `u` is reached and going through the edge is
      shorter than what `v` has. */
  predicate Relaxable(d: seq<int>, e: Edge)
    requires 0 <= e.u < |d| && 0 <= e.v < |d|
  {
    d[e.u] != INF && d[e.u] + e.weight < d[e.v]
  }

  // ---------------------------------------------------------------- walks

  lemma WalkEnd(edges: seq<Edge>, s: int, t: int, p: seq<int>)
    requires IsWalk(edges, s, t, p)
    ensures Vertex(edges, s, p, |p|) == t
  {
  }

  lemma WalkSlice(edges: seq<Edge>, s: int, t: int, p: seq<int>, a: int, b: int)
    requires IsWalk(edges, s, t, p) && 0 <= a <= b <= |p|
    ensures Indexes(edges, p[a..b])
    ensures IsWalk(edges, Vertex(edges, s, p, a), Vertex(edges, s, p, b), p[a..b])
  {
    var q := p[a..b];
    assert forall j :: 0 <= j < |q| ==> q[j] == p[a + j];
    if a < b && a > 0 {
      assert edges[p[a - 1]].v == edges[p[a]].u;
    }
    forall j | 0 < j < |q|
      ensures edges[q[j - 1]].v == edges[q[j]].u
    {
      assert q[j - 1] == p[a + j - 1] && q[j] == p[a + j];
    }
  }

  lemma WalkConcat(edges: seq<Edge>, s: int, x: int, t: int, p: seq<int>, q: seq<int>)
    requires IsWalk(edges, s, x, p) && IsWalk(edges, x, t, q)
    ensures IsWalk(edges, s, t, p + q)
  {
    var r := p + q;
    if |p| == 0 {
      assert r == q;
    } else if |q| == 0 {
      assert r == p;
    } else {
      forall j | 0 < j < |r|
        ensures edges[r[j - 1]].v == edges[r[j]].u
      {
        if j < |p| {
          assert r[j - 1] == p[j - 1] && r[j] == p[j];
        } else if j == |p| {
          assert r[j - 1] == p[|p| - 1] && r[j] == q[0];
        } else {
          assert r[j - 1] == q[j - 1 - |p|] && r[j] == q[j - |p|];
        }
      }
    }
  }

  lemma {:induction false} WeightConcat(edges: seq<Edge>, p: seq<int>, q: seq<int>)
    requires Indexes(edges, p) && Indexes(edges, q)
    ensures Indexes(edges, p + q)
    ensures Weight(edges, p + q) == Weight(edges, p) + Weight(edges, q)
  {
    if |q| == 0 {
      assert p + q == p;
    } else {
      assert (p + q)[..|p + q| - 1] == p + q[..|q| - 1];
      WeightConcat(edges, p, q[..|q| - 1]);
    }
  }

  // ---------------------------------------------------------------- cutting cycles

  /** The values of `f`. */
  ghost function Values(f: seq<int>): set<int>
  {
    set j | 0 <= j < |f| :: f[j]
  }

  lemma {:induction false} DistinctCard(f: seq<int>)
    requires forall a, b :: 0 <= a < b < |f| ==> f[a] != f[b]
    ensures |Values(f)| == |f|
  {
    if |f| > 0 {
      var g := f[..|f| - 1];
      DistinctCard(g);
      assert Values(f) == Values(g) + {f[|f| - 1]};
    }
  }

  lemma SubsetCard(A: set<int>, B: set<int>)
    requires A <= B
    ensures |A| <= |B|
  {
    assert B == A + (B - A);
  }

  /** Among more than `V` values in `0..V-1` two are equal. */
  lemma Pigeonhole(f: seq<int>, V: nat) returns (a: int, b: int)
    requires |f| > V && forall j :: 0 <= j < |f| ==> 0 <= f[j] < V
    ensures 0 <= a < b < |f| && f[a] == f[b]
  {
    if forall a, b :: 0 <= a < b < |f| ==> f[a] != f[b] {
      var g := seq(V, x => x);
      DistinctCard(f);
      DistinctCard(g);
      forall y | y in Values(f)
        ensures y in Values(g)
      {
        var j :| 0 <= j < |f| && f[j] == y;
        assert g[y] == y;
      }
      SubsetCard(Values(f), Values(g));
      assert false;
    }
    a, b :| 0 <= a < b < |f| && f[a] == f[b];
  }

  /** A walk of at least `V` edges passes some vertex twice. */
  lemma RepeatedVertex(edges: seq<Edge>, V: int, s: int, t: int, p: seq<int>)
    returns (a: int, b: int)
    requires EdgesIn(edges, V) && 0 <= s < V && IsWalk(edges, s, t, p) && |p| >= V
    ensures 0 <= a < b <= |p| && Vertex(edges, s, p, a) == Vertex(edges, s, p, b)
  {
    var f := seq(|p| + 1, j requires 0 <= j <= |p| => Vertex(edges, s, p, j));
    a, b := Pigeonhole(f, V);
  }

  /** Cutting out the closed walk between two visits of the same vertex leaves a walk
      between the same ends, lighter by the weight of what was cut. */
  lemma CutWalk(edges: seq<Edge>, s: int, t: int, p: seq<int>, a: int, b: int) returns (r: seq<int>)
    requires IsWalk(edges, s, t, p) && 0 <= a < b <= |p|
    requires Vertex(edges, s, p, a) == Vertex(edges, s, p, b)
    ensures IsWalk(edges, s, t, r) && |r| < |p|
    ensures IsWalk(edges, s, Vertex(edges, s, p, a), p[..a])
    ensures IsWalk(edges, Vertex(edges, s, p, a), Vertex(edges, s, p, a), p[a..b])
    ensures Weight(edges, r) == Weight(edges, p) - Weight(edges, p[a..b])
  {
    var x := Vertex(edges, s, p, a);
    WalkSlice(edges, s, t, p, 0, a);
    WalkSlice(edges, s, t, p, a, b);
    WalkSlice(edges, s, t, p, b, |p|);
    WalkEnd(edges, s, t, p);
    assert p[..a] == p[0..a] && p[b..] == p[b..|p|];
    r := p[..a] + p[b..];
    WalkConcat(edges, s, x, t, p[..a], p[b..]);
    assert p == (p[..a] + p[a..b]) + p[b..];
    WeightConcat(edges, p[..a], p[a..b]);
    WeightConcat(edges, p[..a] + p[a..b], p[b..]);
    WeightConcat(edges, p[..a], p[b..]);
  }

  /** Every walk can be cut down to fewer than `V` edges between the same ends, and when
      no reachable cycle is negative the cut walk is no heavier. */
  lemma {:induction false} Shorten(edges: seq<Edge>, V: int, s: int, t: int, p: seq<int>)
    returns (q: seq<int>)
    requires EdgesIn(edges, V) && 0 <= s < V && IsWalk(edges, s, t, p)
    ensures IsWalk(edges, s, t, q) && |q| < V
    ensures NoNegativeCycle(edges, s) ==> Weight(edges, q) <= Weight(edges, p)
    decreases |p|
  {
    if |p| < V {
      return p;
    }
    var a, b := RepeatedVertex(edges, V, s, t, p);
    var r := CutWalk(edges, s, t, p, a, b);
    q := Shorten(edges, V, s, t, r);
  }

  // ---------------------------------------------------------------- weight bounds

  lemma MulStep(k: int, m: int)
    ensures (k + 1) * m == k * m + m
  {
  }

  lemma MulLess(j: nat, V: int, m: nat)
    requires j < V
    ensures j * m <= V * m - m
  {
    assert V * m - m - j * m == (V - 1 - j) * m;
  }

  lemma {:induction false} WeightBound(edges: seq<Edge>, p: seq<int>)
    requires Indexes(edges, p)
    ensures -(|p| * MaxWeight(edges)) <= Weight(edges, p) <= |p| * MaxWeight(edges)
  {
    if |p| > 0 {
      WeightBound(edges, p[..|p| - 1]);
      MulStep(|p| - 1, MaxWeight(edges));
    }
  }

  /** No prefix of `p` weighs `INF` or more. */
  ghost predicate Finite(edges: seq<Edge>, p: seq<int>)
  {
    Indexes(edges, p) && forall j :: 0 <= j <= |p| ==> Weight(edges, p[..j]) < INF
  }

  lemma ShortWalkFinite(edges: seq<Edge>, V: int, p: seq<int>)
    requires NoOverflow(edges, V) && Indexes(edges, p) && |p| < V
    ensures Finite(edges, p)
  {
    forall j | 0 <= j <= |p|
      ensures Weight(edges, p[..j]) < INF
    {
      WeightBound(edges, p[..j]);
      MulLess(j, V, MaxWeight(edges));
    }
  }

  // ---------------------------------------------------------------- the invariants

  /** Every vertex with a finite distance has a walk from the source of exactly that
      weight and of at most `n` edges, recorded in `wit`, and no distance exceeds `INF`. */
  ghost predicate Witnessed(edges: seq<Edge>, source: int, d: seq<int>, wit: seq<seq<int>>, n: int)
  {
    |wit| == |d| &&
    forall v :: 0 <= v < |d| ==>
      d[v] <= INF &&
      (d[v] != INF ==> IsWalk(edges, source, v, wit[v]) && Weight(edges, wit[v]) == d[v] && |wit[v]| <= n)
  }

  lemma MulMono(a: nat, b: nat, m: nat)
    requires a <= b
    ensures a * m <= b * m
  {
    assert b * m - a * m == (b - a) * m;
  }

  /** The relaxations before edge `j` of round `i` number no more than `(V - 1) * m`. */
  lemma RoundCount(i: int, j: int, V: int, m: nat)
    requires 1 <= i < V && 0 <= j <= m
    ensures 0 <= (i - 1) * m + j <= (V - 1) * m
  {
    MulMono(i - 1, V - 2, m);
    MulStep(V - 2, m);
  }

  /** Distances witnessed by walks of at most `(V - 1) * |edges|` edges keep every sum
      the relaxation test computes inside Java's `int` range. */
  lemma WitnessedFits(edges: seq<Edge>, V: int, source: int, d: seq<int>, wit: seq<seq<int>>, n: nat)
    requires EdgesIn(edges, |d|) && |d| == V && NoOverflow(edges, V)
    requires Witnessed(edges, source, d, wit, n) && n <= (V - 1) * |edges|
    ensures SumsInRange(edges, d)
  {
    var m := MaxWeight(edges);
    forall k | 0 <= k < |edges| && 0 <= edges[k].u < |d| && d[edges[k].u] != INF
      ensures -INF - 1 <= d[edges[k].u] + edges[k].weight <= INF
    {
      var u := edges[k].u;
      WeightBound(edges, wit[u]);
      MulMono(|wit[u]|, n, m);
      MulStep(n, m);
      MulMono(n + 1, (V - 1) * |edges| + 1, m);
    }
  }

  /** Every finite distance is the weight of some walk from the source. */
  ghost predicate Sound(edges: seq<Edge>, source: int, d: seq<int>)
  {
    forall v :: 0 <= v < |d| ==>
      d[v] <= INF && (d[v] != INF ==> exists p :: IsWalk(edges, source, v, p) && Weight(edges, p) == d[v])
  }

  /** No walk from the source with fewer than `i` edges, or with exactly `i` edges the
      last of which is among the first `j`, is lighter than the distance at its end
      (walks whose running weight reaches `INF` aside). */
  ghost predicate BoundedWalks(edges: seq<Edge>, source: int, d: seq<int>, i: int, j: int)
  {
    forall v, p {:trigger IsWalk(edges, source, v, p)} ::
      0 <= v < |d| && IsWalk(edges, source, v, p) && Finite(edges, p) &&
      (|p| < i || (|p| == i && 0 < i && p[i - 1] < j)) ==>
        d[v] <= Weight(edges, p)
  }

  /** Relaxing edge `j` in round `i` extends the bound to the walks that end with it. */
  lemma RelaxStep(edges: seq<Edge>, V: int, source: int, d: seq<int>, d': seq<int>, i: int, j: int)
    requires EdgesIn(edges, V) && |d| == V && |d'| == V && 1 <= i && 0 <= j < |edges|
    requires BoundedWalks(edges, source, d, i, j)
    requires forall v :: 0 <= v < V ==> d'[v] <= d[v]
    requires d[edges[j].u] != INF ==> d'[edges[j].v] <= d[edges[j].u] + edges[j].weight
    ensures BoundedWalks(edges, source, d', i, j + 1)
  {
    forall v, p | 0 <= v < |d'| && IsWalk(edges, source, v, p) && Finite(edges, p) &&
                  (|p| < i || (|p| == i && 0 < i && p[i - 1] < j + 1))
      ensures d'[v] <= Weight(edges, p)
    {
      if |p| < i || p[i - 1] < j {
        assert d[v] <= Weight(edges, p);
      } else {
        var e := edges[j];
        var front := p[..i - 1];
        WalkSlice(edges, source, v, p, 0, i - 1);
        assert p[0..i - 1] == front;
        assert Vertex(edges, source, p, i - 1) == e.u by {
          if i > 1 {
            assert edges[p[i - 2]].v == edges[p[i - 1]].u;
          }
        }
        assert IsWalk(edges, source, e.u, front);
        assert e.v == v;
        assert Finite(edges, front) by {
          forall k | 0 <= k <= |front|
            ensures Weight(edges, front[..k]) < INF
          {
            assert front[..k] == p[..k];
          }
        }
        assert d[e.u] <= Weight(edges, front);
        assert Weight(edges, front) < INF by {
          assert p[..i - 1] == front;
        }
        assert Weight(edges, p) == Weight(edges, front) + e.weight;
      }
    }
  }

  lemma NextRound(edges: seq<Edge>, source: int, d: seq<int>, i: int)
    requires 1 <= i && BoundedWalks(edges, source, d, i, |edges|)
    ensures BoundedWalks(edges, source, d, i + 1, 0)
  {
  }

  lemma FirstRound(edges: seq<Edge>, source: int, d: seq<int>)
    requires 0 <= source < |d| && d[source] == 0
    ensures BoundedWalks(edges, source, d, 1, 0)
  {
    forall v, p | 0 <= v < |d| && IsWalk(edges, source, v, p) && Finite(edges, p) &&
                  (|p| < 1 || (|p| == 1 && 0 < 1 && p[0] < 0))
      ensures d[v] <= Weight(edges, p)
    {
      assert |p| == 0;
    }
  }

  /** One relaxation of edge `e`. */
  function RelaxEdge(d: seq<int>, e: Edge): (r: seq<int>)
    requires 0 <= e.u < |d| && 0 <= e.v < |d|
    ensures |r| == |d| && (forall v :: 0 <= v < |d| ==> r[v] <= d[v])
    ensures d[e.u] != INF ==> r[e.v] <= d[e.u] + e.weight
  {
    if Relaxable(d, e) then d[e.v := d[e.u] + e.weight] else d
  }

  /** The witness walks after relaxing edge `j`: the walk to `u` extended by the edge. */
  ghost function RelaxWitness(edges: seq<Edge>, d: seq<int>, wit: seq<seq<int>>, j: int): seq<seq<int>>
    requires 0 <= j < |edges| && 0 <= edges[j].u < |d| && 0 <= edges[j].v < |d| && |wit| == |d|
  {
    if Relaxable(d, edges[j]) then wit[edges[j].v := wit[edges[j].u] + [j]] else wit
  }

  /** Relaxing edge `j` keeps every finite distance witnessed: the new distance of `v`
      is the walk to `u` extended by the edge. */
  lemma RelaxWitnessed(edges: seq<Edge>, V: int, source: int, d: seq<int>, wit: seq<seq<int>>, j: int, n: int)
    requires EdgesIn(edges, V) && |d| == V && 0 <= j < |edges|
    requires Witnessed(edges, source, d, wit, n)
    ensures Witnessed(edges, source, RelaxEdge(d, edges[j]), RelaxWitness(edges, d, wit, j), n + 1)
  {
    var e := edges[j];
    if Relaxable(d, e) {
      WalkConcat(edges, source, e.u, e.v, wit[e.u], [j]);
      WeightConcat(edges, wit[e.u], [j]);
      assert Weight(edges, [j]) == e.weight by {
        assert [j][..0] == [];
      }
    }
  }

  // ---------------------------------------------------------------- the passes

  /** Steps 1 and 2: every distance starts at `INF` but the source's at 0, then `V - 1`
      rounds relax every edge in order. */
  method Relax(edges: seq<Edge>, V: int, source: int) returns (dist: seq<int>)
    requires EdgesIn(edges, V) && 0 <= source < V
    ensures |dist| == V && Sound(edges, source, dist)
    ensures BoundedWalks(edges, source, dist, V, 0)
    ensures NoOverflow(edges, V) ==> SumsInRange(edges, dist)
  {
    var d := new int[V](_ => INF);
    d[source] := 0;
    ghost var wit: seq<seq<int>> := seq(V, _ => []);
    FirstRound(edges, source, d[..]);
    for i := 1 to V
      modifies d
      invariant Witnessed(edges, source, d[..], wit, (i - 1) * |edges|)
      invariant BoundedWalks(edges, source, d[..], i, 0)
    {
      wit := Round(edges, V, source, d, wit, i);
      NextRound(edges, source, d[..], i);
    }
    dist := d[..];
    if NoOverflow(edges, V) {
      WitnessedFits(edges, V, source, dist, wit, (V - 1) * |edges|);
    }
  }

  /** Relaxing edge `j` of round `i` keeps the invariants of the round. */
  lemma RoundStep(edges: seq<Edge>, V: int, source: int, d: seq<int>, wit: seq<seq<int>>, i: int, j: int)
    requires EdgesIn(edges, V) && |d| == V && 1 <= i < V && 0 <= j < |edges|
    requires Witnessed(edges, source, d, wit, (i - 1) * |edges| + j)
    requires BoundedWalks(edges, source, d, i, j)
    ensures Witnessed(edges, source, RelaxEdge(d, edges[j]), RelaxWitness(edges, d, wit, j), (i - 1) * |edges| + j + 1)
    ensures BoundedWalks(edges, source, RelaxEdge(d, edges[j]), i, j + 1)
    ensures NoOverflow(edges, V) ==> SumsInRange(edges, RelaxEdge(d, edges[j]))
  {
    var n := (i - 1) * |edges| + j;
    var d' := RelaxEdge(d, edges[j]);
    RelaxWitnessed(edges, V, source, d, wit, j, n);
    RelaxStep(edges, V, source, d, d', i, j);
    RoundCount(i, j + 1, V, |edges|);
    if NoOverflow(edges, V) {
      WitnessedFits(edges, V, source, d', RelaxWitness(edges, d, wit, j), n + 1);
    }
  }

  /** The body of the inner loop of step 2: edge `e` relaxed in place. */
  method RelaxOne(d: array<int>, e: Edge)
    requires 0 <= e.u < d.Length && 0 <= e.v < d.Length
    modifies d
    ensures d[..] == RelaxEdge(old(d[..]), e)
  {
    if d[e.u] != INF && d[e.u] + e.weight < d[e.v] {
      d[e.v] := d[e.u] + e.weight;
    }
  }

  /** Round `i` of step 2: every edge relaxed once, in order. */
  method Round(edges: seq<Edge>, V: int, source: int, d: array<int>, ghost wit: seq<seq<int>>, ghost i: int)
    returns (ghost wit': seq<seq<int>>)
    requires EdgesIn(edges, V) && d.Length == V && 1 <= i < V
    requires Witnessed(edges, source, d[..], wit, (i - 1) * |edges|)
    requires BoundedWalks(edges, source, d[..], i, 0)
    modifies d
    ensures Witnessed(edges, source, d[..], wit', i * |edges|)
    ensures BoundedWalks(edges, source, d[..], i, |edges|)
  {
    wit' := wit;
    RoundCount(i, 0, V, |edges|);
    if NoOverflow(edges, V) {
      WitnessedFits(edges, V, source, d[..], wit, (i - 1) * |edges|);
    }
    for j := 0 to |edges|
      invariant Witnessed(edges, source, d[..], wit', (i - 1) * |edges| + j)
      invariant BoundedWalks(edges, source, d[..], i, j)
      invariant NoOverflow(edges, V) ==> SumsInRange(edges, d[..])
    {
      var e := edges[j];
      ghost var D := d[..];
      RoundStep(edges, V, source, D, wit', i, j);
      RelaxOne(d, e);
      wit' := RelaxWitness(edges, D, wit', j);
    }
    MulStep(i - 1, |edges|);
  }

  /** Step 3: whether some edge can still be relaxed. */
  method FindRelaxable(edges: seq<Edge>, d: seq<int>) returns (found: bool)
    requires EdgesIn(edges, |d|)
    ensures found <==> exists k :: 0 <= k < |edges| && Relaxable(d, edges[k])
  {
    for k := 0 to |edges|
      invariant forall k' :: 0 <= k' < k ==> !Relaxable(d, edges[k'])
    {
      var e := edges[k];
      if d[e.u] != INF && d[e.u] + e.weight < d[e.v] {
        return true;
      }
    }
    return false;
  }

  /** The whole computation: a negative cycle when some edge is still relaxable after
      `V - 1` rounds, the distances otherwise. */
  method Run(edges: seq<Edge>, V: int, source: int) returns (report: Report)
    requires EdgesIn(edges, V) && 0 <= source < V
    ensures report.Distances? ==> |report.dist| == V && Sound(edges, source, report.dist)
    ensures NoOverflow(edges, V) ==> (report.NegativeCycle? <==> !NoNegativeCycle(edges, source))
    ensures NoOverflow(edges, V) && report.Distances? ==>
      forall v :: 0 <= v < V ==>
        (report.dist[v] == INF <==> !Reachable(edges, source, v)) &&
        (report.dist[v] != INF ==> Shortest(edges, source, v, report.dist[v]))
  {
    var dist := Relax(edges, V, source);
    var found := FindRelaxable(edges, dist);
    if found {
      report := NegativeCycle;
      if NoOverflow(edges, V) {
        var k :| 0 <= k < |edges| && Relaxable(dist, edges[k]);
        RelaxableMeansNegativeCycle(edges, V, source, dist, k);
      }
    } else {
      report := Distances(dist);
      if NoOverflow(edges, V) {
        NegativeCycleIsRelaxable(edges, V, source, dist);
        ExactDistances(edges, V, source, dist);
      }
    }
  }

  // ---------------------------------------------------------------- what the passes mean

  /** A reachable vertex has a finite distance, at most the weight of any walk to it of
      fewer than `V` edges. */
  lemma ReachedFinite(edges: seq<Edge>, V: int, source: int, d: seq<int>, v: int, p: seq<int>)
    requires EdgesIn(edges, V) && 0 <= source < V && |d| == V && 0 <= v < V
    requires NoOverflow(edges, V) && BoundedWalks(edges, source, d, V, 0)
    requires IsWalk(edges, source, v, p)
    ensures d[v] < INF
  {
    var q := Shorten(edges, V, source, v, p);
    ShortWalkFinite(edges, V, q);
    assert d[v] <= Weight(edges, q);
    assert q[..|q|] == q;
  }

  /** With no relaxable edge, the distance grows along a walk by at most its weight. */
  lemma {:induction false} AlongWalk(edges: seq<Edge>, V: int, source: int, d: seq<int>,
                                     x: int, p: seq<int>, c: seq<int>, m: int)
    requires EdgesIn(edges, V) && 0 <= source < V && |d| == V
    requires NoOverflow(edges, V) && BoundedWalks(edges, source, d, V, 0)
    requires forall k :: 0 <= k < |edges| ==> !Relaxable(d, edges[k])
    requires IsWalk(edges, source, x, p) && IsWalk(edges, x, x, c) && 0 <= m <= |c|
    ensures Indexes(edges, c[..m])
    ensures d[Vertex(edges, x, c, m)] <= d[x] + Weight(edges, c[..m])
  {
    WalkSlice(edges, x, x, c, 0, m);
    assert c[0..m] == c[..m];
    if m > 0 {
      AlongWalk(edges, V, source, d, x, p, c, m - 1);
      var y := Vertex(edges, x, c, m - 1);
      WalkSlice(edges, x, x, c, 0, m - 1);
      assert c[0..m - 1] == c[..m - 1];
      WalkConcat(edges, source, x, y, p, c[..m - 1]);
      ReachedFinite(edges, V, source, d, y, p + c[..m - 1]);
      var e := edges[c[m - 1]];
      assert e.u == y by {
        if m > 1 {
          assert edges[c[m - 2]].v == edges[c[m - 1]].u;
        }
      }
      assert !Relaxable(d, e);
      assert c[..m][..m - 1] == c[..m - 1];
    }
  }

  /** A reachable negative cycle leaves some edge relaxable after the `V - 1` rounds. */
  lemma NegativeCycleIsRelaxable(edges: seq<Edge>, V: int, source: int, d: seq<int>)
    requires EdgesIn(edges, V) && 0 <= source < V && |d| == V
    requires NoOverflow(edges, V) && BoundedWalks(edges, source, d, V, 0)
    requires forall k :: 0 <= k < |edges| ==> !Relaxable(d, edges[k])
    ensures NoNegativeCycle(edges, source)
  {
    forall x, p, c | IsWalk(edges, source, x, p) && IsWalk(edges, x, x, c)
      ensures Weight(edges, c) >= 0
    {
      WalkEnd(edges, source, x, p);
      AlongWalk(edges, V, source, d, x, p, c, |c|);
      WalkEnd(edges, x, x, c);
      assert c[..|c|] == c;
    }
  }

  /** Without a reachable negative cycle no edge stays relaxable: the distances are then
      already the shortest. */
  lemma RelaxableMeansNegativeCycle(edges: seq<Edge>, V: int, source: int, d: seq<int>, k: int)
    requires EdgesIn(edges, V) && 0 <= source < V && |d| == V
    requires NoOverflow(edges, V) && Sound(edges, source, d)
    requires BoundedWalks(edges, source, d, V, 0)
    requires 0 <= k < |edges| && Relaxable(d, edges[k])
    ensures !NoNegativeCycle(edges, source)
  {
    if NoNegativeCycle(edges, source) {
      var e := edges[k];
      var p :| IsWalk(edges, source, e.u, p) && Weight(edges, p) == d[e.u];
      WalkConcat(edges, source, e.u, e.v, p, [k]);
      WeightConcat(edges, p, [k]);
      assert Weight(edges, [k]) == e.weight by {
        assert [k][..0] == [];
      }
      var q := Shorten(edges, V, source, e.v, p + [k]);
      ShortWalkFinite(edges, V, q);
      assert false;
    }
  }

  /** Without a reachable negative cycle the distances are exact: `INF` exactly for the
      vertices no walk reaches, the least walk weight for the others. */
  lemma ExactDistances(edges: seq<Edge>, V: int, source: int, d: seq<int>)
    requires EdgesIn(edges, V) && 0 <= source < V && |d| == V
    requires NoOverflow(edges, V) && NoNegativeCycle(edges, source) && Sound(edges, source, d)
    requires BoundedWalks(edges, source, d, V, 0)
    ensures forall v :: 0 <= v < V ==>
      (d[v] == INF <==> !Reachable(edges, source, v)) &&
      (d[v] != INF ==> Shortest(edges, source, v, d[v]))
  {
    forall v | 0 <= v < V
      ensures d[v] == INF <==> !Reachable(edges, source, v)
      ensures d[v] != INF ==> Shortest(edges, source, v, d[v])
    {
      if Reachable(edges, source, v) {
        var p :| IsWalk(edges, source, v, p);
        ReachedFinite(edges, V, source, d, v, p);
      }
      if d[v] != INF {
        forall p | IsWalk(edges, source, v, p)
          ensures d[v] <= Weight(edges, p)
        {
          var q := Shorten(edges, V, source, v, p);
          ShortWalkFinite(edges, V, q);
          assert d[v] <= Weight(edges, q);
        }
      }
    }
  }

  /** The example graph of six vertices. */
  function ExampleEdges(): seq<Edge>
  {
    [Edge(0, 1, -1), Edge(0, 2, 4), Edge(1, 2, 3), Edge(1, 3, 2), Edge(1, 4, 2),
     Edge(3, 2, 5), Edge(3, 1, 1), Edge(4, 3, -3), Edge(4, 5, 1), Edge(5, 4, -2)]
  }

  lemma ExampleInRange()
    ensures EdgesIn(ExampleEdges(), 6) && NoOverflow(ExampleEdges(), 6)
  {
    var edges := ExampleEdges();
    assert forall k :: 0 <= k < |edges| ==> -5 <= edges[k].weight <= 5;
    assert MaxWeight(edges) <= 5;
  }

  /** Two vertices joined both ways by edges of weight `-10^9`: Java's final pass would
      compute `-3 * 10^9`, which wraps, and the guard rules these weights out. */
  lemma WrappingExampleExcluded()
    ensures !NoOverflow([Edge(0, 1, -1000000000), Edge(1, 0, -1000000000)], 2)
  {
    var edges := [Edge(0, 1, -1000000000), Edge(1, 0, -1000000000)];
    assert edges[..1] == [Edge(0, 1, -1000000000)];
    assert MaxWeight(edges) == 1000000000;
  }

  /** The cycle 4 -> 5 -> 4 weighs -1 and is reached from vertex 0 through vertex 1. */
  lemma ExampleCycle()
    ensures !NoNegativeCycle(ExampleEdges(), 0)
  {
    var edges := ExampleEdges();
    assert IsWalk(edges, 0, 4, [0, 4]);
    assert IsWalk(edges, 4, 4, [8, 9]);
    assert Weight(edges, [8, 9]) == -1 by {
      assert [8, 9][..1] == [8] && [8][..0] == [];
    }
  }

  /** A graph the sentinel hides: the only edge out of the source weighs `INF`, and
      behind it the cycle 1 -> 2 -> 1 weighs -10. */
  function SentinelEdges(): seq<Edge>
  {
    [Edge(0, 1, INF), Edge(1, 2, -5), Edge(2, 1, -5)]
  }

  /** On that graph the distances the first round leaves, `[0, INF, INF]`, are left alone
      by every relaxation and pass no test of the second pass, although vertex 1 is
      reachable and the cycle through it is negative; `NoOverflow` excludes the graph. */
  lemma SentinelHidesCycle()
    ensures forall k :: 0 <= k < 3 ==>
      RelaxEdge([0, INF, INF], SentinelEdges()[k]) == [0, INF, INF] &&
      !Relaxable([0, INF, INF], SentinelEdges()[k])
    ensures Reachable(SentinelEdges(), 0, 1) && !NoNegativeCycle(SentinelEdges(), 0)
    ensures !NoOverflow(SentinelEdges(), 3)
  {
    var edges := SentinelEdges();
    assert IsWalk(edges, 0, 1, [0]);
    assert IsWalk(edges, 1, 1, [1, 2]);
    assert Weight(edges, [1, 2]) == -10 by {
      assert [1, 2][..1] == [1] && [1][..0] == [];
    }
    assert MaxWeight(edges) >= edges[0].weight;
  }

  /** The example run reports a negative cycle. */
  method Example() returns (report: Report)
    ensures report == NegativeCycle
  {
    ExampleInRange();
    ExampleCycle();
    report := Run(ExampleEdges(), 6, 0);
  }
}
