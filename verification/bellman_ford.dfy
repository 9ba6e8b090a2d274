/**
 `calc_bellman_ford`: single-source shortest distances over an adjacency
 matrix by `n - 1` in-place relaxation rounds, each sweeping every edge in
 row-major order, followed by one more sweep that reports a negative cycle
 if any finite edge could still be relaxed. The node count and the matrix,
 module globals in the source, are parameters here.
 */
module BellmanFord {
  import opened Distance
  import opened Graph

  /** `[math.inf] * num_nodes` with the source set to 0. */
  function Initial(n: nat, src: nat): (d: seq<Dist>)
    requires src < n
    ensures |d| == n && d[src] == Fin(0)
    ensures forall i :: 0 <= i < n && i != src ==> d[i] == Inf
  {
    seq(n, i => if i == src then Fin(0) else Inf)
  }

  /** The relaxation test of the source for the edge `u -> v`. */
  predicate EdgeRelaxable(m: Matrix, d: seq<Dist>, u: nat, v: nat)
    requires Square(m) && |d| == |m| && u < |m| && v < |m|
  {
    m[u][v].Fin? && Less(Add(d[u], m[u][v]), d[v])
  }

  /** One step of the innermost loop: relax the edge `u -> v`. */
  function RelaxEdge(m: Matrix, d: seq<Dist>, u: nat, v: nat): (r: seq<Dist>)
    requires Square(m) && |d| == |m| && u < |m| && v < |m|
    ensures Below(r, d)
    ensures forall x :: 0 <= x < |r| && x != v ==> r[x] == d[x]
    ensures m[u][v].Fin? ==> Le(r[v], Add(d[u], m[u][v]))
    ensures r[v] == d[v] || (m[u][v].Fin? && r[v] == Add(d[u], m[u][v]))
  {
    if EdgeRelaxable(m, d, u, v) then d[v := Add(d[u], m[u][v])] else d
  }

  /** The loop over `to_node` from `v` on, for a fixed `from_node` `u`. */
  function RelaxTargets(m: Matrix, d: seq<Dist>, u: nat, v: nat): (r: seq<Dist>)
    requires Square(m) && |d| == |m| && u < |m| && v <= |m|
    ensures |r| == |m|
    decreases |m| - v
  {
    if v == |m| then d else RelaxTargets(m, RelaxEdge(m, d, u, v), u, v + 1)
  }

  /** The loop over `from_node` from `u` on: one full round. */
  function RelaxSources(m: Matrix, d: seq<Dist>, u: nat): (r: seq<Dist>)
    requires Square(m) && |d| == |m| && u <= |m|
    ensures |r| == |m|
    decreases |m| - u
  {
    if u == |m| then d else RelaxSources(m, RelaxTargets(m, d, u, 0), u + 1)
  }

  /** The inner loop only lowers distances, and afterwards every finite edge
      out of `u` into the nodes from `v` on is relaxed with respect to the
      distances the loop started from. */
  lemma {:induction false} TargetsRelax(m: Matrix, d: seq<Dist>, u: nat, v: nat)
    requires Square(m) && |d| == |m| && u < |m| && v <= |m|
    ensures Below(RelaxTargets(m, d, u, v), d)
    ensures forall t :: v <= t < |m| && m[u][t].Fin? ==> Le(RelaxTargets(m, d, u, v)[t], Add(d[u], m[u][t]))
    decreases |m| - v
  {
    if v < |m| {
      var e := RelaxEdge(m, d, u, v);
      var r := RelaxTargets(m, e, u, v + 1);
      assert r == RelaxTargets(m, d, u, v);
      TargetsRelax(m, e, u, v + 1);
      forall x | 0 <= x < |m| ensures Le(r[x], d[x]) {
        OrderFacts(r[x], e[x], d[x]);
      }
      forall t | v <= t < |m| && m[u][t].Fin? ensures Le(r[t], Add(d[u], m[u][t])) {
        if t == v {
          OrderFacts(r[v], e[v], Add(d[u], m[u][v]));
        } else {
          OrderFacts(e[u], d[u], m[u][t]);
          OrderFacts(r[t], Add(e[u], m[u][t]), Add(d[u], m[u][t]));
        }
      }
    }
  }

  /** A round only lowers distances, and afterwards every finite edge out of
      the nodes from `u` on is relaxed with respect to the distances the
      round started from. */
  lemma {:induction false} SourcesRelax(m: Matrix, d: seq<Dist>, u: nat)
    requires Square(m) && |d| == |m| && u <= |m|
    ensures Below(RelaxSources(m, d, u), d)
    ensures forall f, t :: u <= f < |m| && 0 <= t < |m| && m[f][t].Fin? ==>
              Le(RelaxSources(m, d, u)[t], Add(d[f], m[f][t]))
    decreases |m| - u
  {
    if u < |m| {
      var e := RelaxTargets(m, d, u, 0);
      var r := RelaxSources(m, e, u + 1);
      assert r == RelaxSources(m, d, u);
      TargetsRelax(m, d, u, 0);
      SourcesRelax(m, e, u + 1);
      forall x | 0 <= x < |m| ensures Le(r[x], d[x]) {
        OrderFacts(r[x], e[x], d[x]);
      }
      forall f, t | u <= f < |m| && 0 <= t < |m| && m[f][t].Fin?
        ensures Le(r[t], Add(d[f], m[f][t]))
      {
        if f == u {
          OrderFacts(r[t], e[t], Add(d[u], m[u][t]));
        } else {
          OrderFacts(e[f], d[f], m[f][t]);
          OrderFacts(r[t], Add(e[f], m[f][t]), Add(d[f], m[f][t]));
        }
      }
    }
  }

  /** `k` relaxation rounds. */
  function Rounds(m: Matrix, d: seq<Dist>, k: nat): (r: seq<Dist>)
    requires Square(m) && |d| == |m|
    ensures |r| == |m|
  {
    if k == 0 then d else RelaxSources(m, Rounds(m, d, k - 1), 0)
  }

  /** The check loop over `to_node` from `v` on for `from_node` `u`. */
  function ScanTargets(m: Matrix, d: seq<Dist>, u: nat, v: nat): (found: bool)
    requires Square(m) && |d| == |m| && u < |m| && v <= |m|
    ensures found <==> exists t :: v <= t < |m| && EdgeRelaxable(m, d, u, t)
    decreases |m| - v
  {
    if v == |m| then false else EdgeRelaxable(m, d, u, v) || ScanTargets(m, d, u, v + 1)
  }

  /** The negative-cycle check: it stops at the first finite edge that still
      passes the relaxation test. */
  function ScanSources(m: Matrix, d: seq<Dist>, u: nat): (found: bool)
    requires Square(m) && |d| == |m| && u <= |m|
    ensures found <==> exists f, t :: u <= f < |m| && 0 <= t < |m| && EdgeRelaxable(m, d, f, t)
    decreases |m| - u
  {
    if u == |m| then false else ScanTargets(m, d, u, 0) || ScanSources(m, d, u + 1)
  }

  /** `[None] * num_nodes`, or the distances. */
  datatype Outcome = NegativeCycle | Distances(dist: seq<Dist>)

  /** `calc_bellman_ford(source_node)` over the matrix `m`. */
  function CalcBellmanFord(m: Matrix, src: nat): (r: Outcome)
    requires Square(m) && src < |m|
    ensures r.Distances? ==> |r.dist| == |m| && Le(r.dist[src], Fin(0))
  {
    RoundsMonotone(m, src, |m| - 1);
    var d := Rounds(m, Initial(|m|, src), |m| - 1);
    if ScanSources(m, d, 0) then NegativeCycle else Distances(d)
  }

  // ---------------------------------------------------------------------
  // Invariants of the rounds

  /** Every finite distance is the weight of some walk from `src`. */
  ghost predicate Sound(m: Matrix, src: nat, d: seq<Dist>)
    requires Square(m)
  {
    |d| == |m| && forall v :: 0 <= v < |d| && d[v].Fin? ==> Witnessed(m, src, v, d[v].v)
  }

  ghost predicate Witnessed(m: Matrix, src: nat, v: nat, x: int)
    requires Square(m)
  {
    exists w :: Path(m, w, src, v) && Weight(m, w) == x
  }

  /** No walk from `src` of at most `k` edges weighs less than the distance
      of its end. */
  ghost predicate Bounded(m: Matrix, src: nat, d: seq<Dist>, k: nat)
    requires Square(m) && |d| == |m|
  {
    forall w :: WalkBounded(m, src, d, k, w)
  }

  ghost predicate WalkBounded(m: Matrix, src: nat, d: seq<Dist>, k: nat, w: seq<nat>)
    requires Square(m) && |d| == |m|
  {
    IsWalk(m, w) && w[0] == src && |w| <= k + 1 ==> Le(d[w[|w| - 1]], Fin(Weight(m, w)))
  }

  lemma InitialSound(m: Matrix, src: nat)
    requires Square(m) && src < |m|
    ensures Sound(m, src, Initial(|m|, src))
  {
    var w := [src];
    assert Path(m, w, src, src) && Weight(m, w) == 0;
  }

  /** A walk to `u` extended by a finite edge `u -> v` is a walk to `v`. */
  lemma ExtendWitness(m: Matrix, src: nat, u: nat, v: nat, x: int) returns (w: seq<nat>)
    requires Square(m) && u < |m| && v < |m| && m[u][v].Fin?
    requires Witnessed(m, src, u, x)
    ensures Path(m, w, src, v) && Weight(m, w) == x + m[u][v].v
    ensures Witnessed(m, src, v, x + m[u][v].v)
  {
    var p :| Path(m, p, src, u) && Weight(m, p) == x;
    WalkExtend(m, p, v);
    w := p + [v];
    assert Path(m, w, src, v);
  }

  /** Relaxing one edge keeps every finite distance the weight of a walk: the
      new value is the walk to `u` extended by the edge. */
  lemma RelaxEdgeSound(m: Matrix, src: nat, d: seq<Dist>, u: nat, v: nat)
    requires Square(m) && |d| == |m| && u < |m| && v < |m|
    requires Sound(m, src, d)
    ensures Sound(m, src, RelaxEdge(m, d, u, v))
  {
    var r := RelaxEdge(m, d, u, v);
    if r[v] != d[v] {
      assert Witnessed(m, src, u, d[u].v);
      var _ := ExtendWitness(m, src, u, v, d[u].v);
    }
    forall x | 0 <= x < |r| && r[x].Fin? ensures Witnessed(m, src, x, r[x].v) {
      if x != v || r[v] == d[v] {
        assert r[x] == d[x];
      }
    }
  }

  lemma {:induction false} RelaxTargetsSound(m: Matrix, src: nat, d: seq<Dist>, u: nat, v: nat)
    requires Square(m) && |d| == |m| && u < |m| && v <= |m|
    requires Sound(m, src, d)
    ensures Sound(m, src, RelaxTargets(m, d, u, v))
    decreases |m| - v
  {
    if v < |m| {
      RelaxEdgeSound(m, src, d, u, v);
      RelaxTargetsSound(m, src, RelaxEdge(m, d, u, v), u, v + 1);
    }
  }

  lemma {:induction false} RelaxSourcesSound(m: Matrix, src: nat, d: seq<Dist>, u: nat)
    requires Square(m) && |d| == |m| && u <= |m|
    requires Sound(m, src, d)
    ensures Sound(m, src, RelaxSources(m, d, u))
    decreases |m| - u
  {
    if u < |m| {
      RelaxTargetsSound(m, src, d, u, 0);
      RelaxSourcesSound(m, src, RelaxTargets(m, d, u, 0), u + 1);
    }
  }

  /** Soundness after any number of rounds: every finite distance is the
      weight of some walk from the source, so a node no finite-weight walk
      reaches stays infinite. */
  lemma {:induction false} RoundsSound(m: Matrix, src: nat, k: nat)
    requires Square(m) && src < |m|
    ensures Sound(m, src, Rounds(m, Initial(|m|, src), k))
  {
    if k == 0 {
      InitialSound(m, src);
    } else {
      RoundsSound(m, src, k - 1);
      RelaxSourcesSound(m, src, Rounds(m, Initial(|m|, src), k - 1), 0);
    }
  }

  /** Distances never increase from one round to the next, and the source
      never rises above 0. */
  lemma {:induction false} RoundsMonotone(m: Matrix, src: nat, k: nat)
    requires Square(m) && src < |m|
    ensures Below(Rounds(m, Initial(|m|, src), k + 1), Rounds(m, Initial(|m|, src), k))
    ensures Le(Rounds(m, Initial(|m|, src), k)[src], Fin(0))
  {
    SourcesRelax(m, Rounds(m, Initial(|m|, src), k), 0);
    if k > 0 {
      RoundsMonotone(m, src, k - 1);
      var prev := Rounds(m, Initial(|m|, src), k - 1);
      var cur := Rounds(m, Initial(|m|, src), k);
      OrderFacts(cur[src], prev[src], Fin(0));
    }
  }

  /** One round extends the bound by one edge: the last edge of a walk was
      relaxed against a distance already at most the weight of the rest. */
  lemma RoundExtendsBound(m: Matrix, src: nat, prev: seq<Dist>, k: nat, w: seq<nat>)
    requires Square(m) && |prev| == |m| && src < |m| && k >= 1
    requires Bounded(m, src, prev, k - 1) && Le(prev[src], Fin(0))
    requires IsWalk(m, w) && w[0] == src && |w| <= k + 1
    ensures Le(RelaxSources(m, prev, 0)[w[|w| - 1]], Fin(Weight(m, w)))
  {
    var d := RelaxSources(m, prev, 0);
    SourcesRelax(m, prev, 0);
    if |w| == 1 {
      OrderFacts(d[src], prev[src], Fin(0));
    } else {
      var p := w[..|w| - 1];
      var u := w[|w| - 2];
      var v := w[|w| - 1];
      SubWalk(m, w, 0, |w| - 1);
      assert w[0..|w| - 1] == p;
      assert WalkBounded(m, src, prev, k - 1, p);
      assert Weight(m, w) == Weight(m, p) + m[u][v].v;
      assert Le(d[v], Add(prev[u], m[u][v]));
      OrderFacts(prev[u], Fin(Weight(m, p)), m[u][v]);
      OrderFacts(d[v], Add(prev[u], m[u][v]), Fin(Weight(m, w)));
    }
  }

  /** The bound invariant: after `k` rounds no walk from the source with at
      most `k` edges weighs less than the distance of its end. */
  lemma InitialBounded(m: Matrix, src: nat)
    requires Square(m) && src < |m|
    ensures Bounded(m, src, Initial(|m|, src), 0)
  {
    forall w ensures WalkBounded(m, src, Initial(|m|, src), 0, w) {
      if IsWalk(m, w) && w[0] == src && |w| <= 1 {
        assert w[|w| - 1] == src;
      }
    }
  }

  /** One round turns the bound for `k - 1` edges into one for `k`. */
  lemma RoundBounded(m: Matrix, src: nat, prev: seq<Dist>, k: nat)
    requires Square(m) && |prev| == |m| && src < |m| && k >= 1
    requires Bounded(m, src, prev, k - 1) && Le(prev[src], Fin(0))
    ensures Bounded(m, src, RelaxSources(m, prev, 0), k)
  {
    forall w ensures WalkBounded(m, src, RelaxSources(m, prev, 0), k, w) {
      if IsWalk(m, w) && w[0] == src && |w| <= k + 1 {
        RoundExtendsBound(m, src, prev, k, w);
      }
    }
  }

  lemma {:induction false} RoundsBounded(m: Matrix, src: nat, k: nat)
    requires Square(m) && src < |m|
    ensures Bounded(m, src, Rounds(m, Initial(|m|, src), k), k)
  {
    if k == 0 {
      InitialBounded(m, src);
    } else {
      RoundsBounded(m, src, k - 1);
      RoundsMonotone(m, src, k - 1);
      RoundBounded(m, src, Rounds(m, Initial(|m|, src), k - 1), k);
    }
  }

  // ---------------------------------------------------------------------
  // What the outcome means

  /** When no edge passes the relaxation test, no walk lowers the distance
      of its start by more than its weight. */
  lemma {:induction false} TriangleAlongWalk(m: Matrix, d: seq<Dist>, w: seq<nat>)
    requires Square(m) && |d| == |m| && IsWalk(m, w)
    requires forall f, t :: 0 <= f < |m| && 0 <= t < |m| ==> !EdgeRelaxable(m, d, f, t)
    ensures Le(d[w[|w| - 1]], Add(d[w[0]], Fin(Weight(m, w))))
    decreases |w|
  {
    if |w| >= 2 {
      var p := w[..|w| - 1];
      var u := w[|w| - 2];
      var v := w[|w| - 1];
      SubWalk(m, w, 0, |w| - 1);
      assert w[0..|w| - 1] == p;
      TriangleAlongWalk(m, d, p);
      assert !EdgeRelaxable(m, d, u, v);
      OrderFacts(Add(d[u], m[u][v]), d[v], Fin(0));
      OrderFacts(d[u], Add(d[w[0]], Fin(Weight(m, p))), m[u][v]);
      OrderFacts(d[v], Add(d[u], m[u][v]), Add(d[w[0]], Fin(Weight(m, w))));
    }
  }

  /** No finite edge passes the relaxation test. */
  predicate Settled(m: Matrix, d: seq<Dist>)
    requires Square(m) && |d| == |m|
  {
    forall f, t :: 0 <= f < |m| && 0 <= t < |m| ==> !EdgeRelaxable(m, d, f, t)
  }

  /** Settled sound distances with the source at most 0 bound every walk
      from the source. */
  lemma SettledBoundsWalks(m: Matrix, src: nat, d: seq<Dist>, v: nat, w: seq<nat>)
    requires Square(m) && |d| == |m| && src < |m|
    requires Settled(m, d) && Le(d[src], Fin(0))
    requires Path(m, w, src, v)
    ensures Le(d[v], Fin(Weight(m, w)))
  {
    TriangleAlongWalk(m, d, w);
    OrderFacts(d[src], Fin(0), Fin(Weight(m, w)));
    OrderFacts(d[v], Add(d[src], Fin(Weight(m, w))), Fin(Weight(m, w)));
  }

  /** Settled sound distances are the shortest ones. */
  lemma SettledShortest(m: Matrix, src: nat, d: seq<Dist>, v: nat)
    requires Square(m) && |d| == |m| && src < |m| && v < |m|
    requires Sound(m, src, d) && Settled(m, d) && Le(d[src], Fin(0))
    ensures IsShortest(m, src, v, d[v])
  {
    forall w | Path(m, w, src, v) ensures Le(d[v], Fin(Weight(m, w))) {
      SettledBoundsWalks(m, src, d, v, w);
    }
  }

  /** Settled distances with the source at most 0 rule out a reachable
      negative cycle: going once more round the cycle would pass the
      relaxation test. */
  lemma SettledNoCycle(m: Matrix, src: nat, d: seq<Dist>)
    requires Square(m) && |d| == |m| && src < |m|
    requires Settled(m, d) && Le(d[src], Fin(0))
    ensures !NegativeCycleReachable(m, src)
  {
    if NegativeCycleReachable(m, src) {
      var p, c :| IsWalk(m, c) && c[|c| - 1] == c[0] && Path(m, p, src, c[0]) && Weight(m, c) < 0;
      SettledBoundsWalks(m, src, d, c[0], p);
      TriangleAlongWalk(m, d, c);
      assert false;
    }
  }

  /** Settled sound distances with the source at most 0 are exact, and
      no negative cycle is reachable. */
  lemma SettledExact(m: Matrix, src: nat, d: seq<Dist>)
    requires Square(m) && |d| == |m| && src < |m|
    requires Sound(m, src, d) && Settled(m, d) && Le(d[src], Fin(0))
    ensures forall v :: 0 <= v < |m| ==> IsShortest(m, src, v, d[v])
    ensures !NegativeCycleReachable(m, src)
  {
    forall v | 0 <= v < |m| ensures IsShortest(m, src, v, d[v]) {
      SettledShortest(m, src, d, v);
    }
    SettledNoCycle(m, src, d);
  }

  /** What the `n - 1` rounds establish: sound distances that bound every
      walk of at most `n - 1` edges, with the source at most 0. */
  lemma FinalRounds(m: Matrix, src: nat) returns (d: seq<Dist>)
    requires Square(m) && src < |m|
    ensures d == Rounds(m, Initial(|m|, src), |m| - 1)
    ensures Sound(m, src, d) && Bounded(m, src, d, |m| - 1) && Le(d[src], Fin(0))
  {
    RoundsSound(m, src, |m| - 1);
    RoundsBounded(m, src, |m| - 1);
    RoundsMonotone(m, src, |m| - 1);
    d := Rounds(m, Initial(|m|, src), |m| - 1);
  }

  /** A returned distance list is exact: each entry is the weight of the
      lightest walk from the source (infinite when there is none), and no
      negative cycle is reachable from the source. */
  lemma DistancesAreShortest(m: Matrix, src: nat)
    requires Square(m) && src < |m|
    requires CalcBellmanFord(m, src).Distances?
    ensures var d := CalcBellmanFord(m, src).dist;
            && |d| == |m|
            && (forall v :: 0 <= v < |m| ==> IsShortest(m, src, v, d[v]))
            && !NegativeCycleReachable(m, src)
  {
    var d := FinalRounds(m, src);
    assert !ScanSources(m, d, 0);
    SettledExact(m, src, d);
  }

  /** Without a reachable negative cycle a finite edge `f -> t` cannot be
      relaxed after `n - 1` rounds: the walk to `f` extended by the edge can
      be cut down to at most `n` nodes, and `n - 1` rounds already bound
      such walks. */
  lemma EdgeSettled(m: Matrix, src: nat, d: seq<Dist>, f: nat, t: nat)
    requires Square(m) && src < |m| && f < |m| && t < |m| && |d| == |m|
    requires !NegativeCycleReachable(m, src)
    requires Sound(m, src, d) && Bounded(m, src, d, |m| - 1)
    ensures !EdgeRelaxable(m, d, f, t)
  {
    if m[f][t].Fin? && d[f].Fin? {
      assert Witnessed(m, src, f, d[f].v);
      var w := ExtendWitness(m, src, f, t, d[f].v);
      var short := Shorten(m, src, t, w);
      assert WalkBounded(m, src, d, |m| - 1, short);
    }
  }

  /** Without a reachable negative cycle, sound distances that bound every
      walk of at most `n - 1` edges are settled. */
  lemma NoCycleSettled(m: Matrix, src: nat, d: seq<Dist>)
    requires Square(m) && src < |m| && |d| == |m|
    requires !NegativeCycleReachable(m, src)
    requires Sound(m, src, d) && Bounded(m, src, d, |m| - 1)
    ensures Settled(m, d)
  {
    forall f, t | 0 <= f < |m| && 0 <= t < |m| ensures !EdgeRelaxable(m, d, f, t) {
      EdgeSettled(m, src, d, f, t);
    }
  }

  /** The return rule: `[None] * num_nodes` comes back exactly when a
      negative cycle is reachable from the source; otherwise the distances
      come back, untouched by the check, and they are the shortest ones. */
  lemma BellmanFordCorrect(m: Matrix, src: nat)
    requires Square(m) && src < |m|
    ensures CalcBellmanFord(m, src).NegativeCycle? <==> NegativeCycleReachable(m, src)
    ensures CalcBellmanFord(m, src).Distances? ==>
              var d := CalcBellmanFord(m, src).dist;
              && d == Rounds(m, Initial(|m|, src), |m| - 1)
              && forall v :: 0 <= v < |m| ==> IsShortest(m, src, v, d[v])
  {
    if !NegativeCycleReachable(m, src) {
      var d := FinalRounds(m, src);
      NoCycleSettled(m, src, d);
      assert !ScanSources(m, d, 0);
    }
    if CalcBellmanFord(m, src).Distances? {
      DistancesAreShortest(m, src);
    }
  }
}
