/**
 The weighted digraph `calc_bellman_ford` works on: an `n`-by-`n` adjacency
 matrix whose entries are integer edge weights or infinity for "no edge",
 and the walks through it with their total weights.
 */
module Graph {
  import opened Distance

  type Matrix = seq<seq<Dist>>

  predicate Square(m: Matrix)
  {
    forall r :: 0 <= r < |m| ==> |m[r]| == |m|
  }

  /** A walk: a non-empty sequence of nodes, each consecutive pair joined by
      a finite edge. Nodes may repeat. */
  ghost predicate IsWalk(m: Matrix, w: seq<nat>)
    requires Square(m)
  {
    && |w| >= 1
    && (forall k :: 0 <= k < |w| ==> w[k] < |m|)
    && (forall k :: 0 <= k < |w| - 1 ==> m[w[k]][w[k + 1]].Fin?)
  }

  /** The weight of the edge `a -> b`; 0 off the matrix or for a missing
      edge, neither of which a walk uses. */
  function EdgeWeight(m: Matrix, a: nat, b: nat): (x: int)
  {
    if a < |m| && b < |m[a]| && m[a][b].Fin? then m[a][b].v else 0
  }

  /** The total weight of the edges of a walk. */
  ghost function Weight(m: Matrix, w: seq<nat>): (x: int)
    decreases |w|
  {
    if |w| <= 1 then 0 else Weight(m, w[..|w| - 1]) + EdgeWeight(m, w[|w| - 2], w[|w| - 1])
  }

  /** A walk from `src` to `v`. */
  ghost predicate Path(m: Matrix, w: seq<nat>, src: nat, v: nat)
    requires Square(m)
  {
    IsWalk(m, w) && w[0] == src && w[|w| - 1] == v
  }

  /** Extending a walk by one finite edge adds that edge's weight. */
  lemma WalkExtend(m: Matrix, w: seq<nat>, v: nat)
    requires Square(m) && IsWalk(m, w)
    requires v < |m| && m[w[|w| - 1]][v].Fin?
    ensures IsWalk(m, w + [v])
    ensures Weight(m, w + [v]) == Weight(m, w) + m[w[|w| - 1]][v].v
  {
    WalkAppend(m, w, v);
    WeightAppend(m, w, v);
  }

  lemma WalkAppend(m: Matrix, w: seq<nat>, v: nat)
    requires Square(m) && IsWalk(m, w)
    requires v < |m| && m[w[|w| - 1]][v].Fin?
    ensures IsWalk(m, w + [v])
  {
    var w2 := w + [v];
    forall k | 0 <= k < |w2| - 1 ensures m[w2[k]][w2[k + 1]].Fin? {
      if k < |w| - 1 {
        assert w2[k] == w[k] && w2[k + 1] == w[k + 1];
      }
    }
  }

  lemma WeightAppend(m: Matrix, w: seq<nat>, v: nat)
    requires |w| >= 1
    ensures Weight(m, w + [v]) == Weight(m, w) + EdgeWeight(m, w[|w| - 1], v)
  {
    var w2 := w + [v];
    assert w2[..|w2| - 1] == w;
    assert w2[|w2| - 2] == w[|w| - 1];
  }

  /** Every stretch of a walk is a walk. */
  lemma SubWalk(m: Matrix, w: seq<nat>, a: nat, b: nat)
    requires Square(m) && IsWalk(m, w)
    requires a < b <= |w|
    ensures IsWalk(m, w[a..b])
  {
    var s := w[a..b];
    forall k | 0 <= k < |s| - 1 ensures m[s[k]][s[k + 1]].Fin? {
      assert s[k] == w[a + k] && s[k + 1] == w[a + k + 1];
    }
  }

  /** Cutting a node sequence at position `i` splits its weight. */
  lemma {:induction false} WeightCut(m: Matrix, w: seq<nat>, i: nat)
    requires i < |w|
    ensures Weight(m, w) == Weight(m, w[..i + 1]) + Weight(m, w[i..])
    decreases |w|
  {
    if i == |w| - 1 {
      assert w[..i + 1] == w;
    } else {
      var p := w[..|w| - 1];
      WeightCut(m, p, i);
      assert p[..i + 1] == w[..i + 1];
      var q := w[i..];
      assert q[..|q| - 1] == p[i..];
      assert q[|q| - 2] == w[|w| - 2] && q[|q| - 1] == w[|w| - 1];
    }
  }

  /** Cutting a walk at position `i` leaves two walks and splits its
      weight. */
  lemma WeightSplit(m: Matrix, w: seq<nat>, i: nat)
    requires Square(m) && IsWalk(m, w)
    requires i < |w|
    ensures IsWalk(m, w[..i + 1]) && IsWalk(m, w[i..])
    ensures Weight(m, w) == Weight(m, w[..i + 1]) + Weight(m, w[i..])
  {
    SubWalk(m, w, 0, i + 1);
    SubWalk(m, w, i, |w|);
    assert w[0..i + 1] == w[..i + 1];
    WeightCut(m, w, i);
  }

  /** Joining two walks where the first ends and the second starts adds
      their weights. */
  lemma WeightConcat(m: Matrix, a: seq<nat>, b: seq<nat>)
    requires Square(m) && IsWalk(m, a) && IsWalk(m, b)
    requires a[|a| - 1] == b[0]
    ensures IsWalk(m, a + b[1..])
    ensures Weight(m, a + b[1..]) == Weight(m, a) + Weight(m, b)
  {
    WalkJoin(m, a, b);
    WeightJoin(m, a, b);
  }

  lemma WalkJoin(m: Matrix, a: seq<nat>, b: seq<nat>)
    requires Square(m) && IsWalk(m, a) && IsWalk(m, b)
    requires a[|a| - 1] == b[0]
    ensures IsWalk(m, a + b[1..])
  {
    var w := a + b[1..];
    forall k | 0 <= k < |w| - 1 ensures m[w[k]][w[k + 1]].Fin? {
      if k >= |a| - 1 {
        assert w[k] == b[k - |a| + 1] && w[k + 1] == b[k - |a| + 2];
      }
    }
  }

  lemma WeightJoin(m: Matrix, a: seq<nat>, b: seq<nat>)
    requires |a| >= 1 && |b| >= 1 && a[|a| - 1] == b[0]
    ensures Weight(m, a + b[1..]) == Weight(m, a) + Weight(m, b)
  {
    var w := a + b[1..];
    WeightCut(m, w, |a| - 1);
    assert w[..|a|] == a;
    assert w[|a| - 1..] == b;
  }

  /** A closed walk of negative weight that `src` can reach. */
  ghost predicate NegativeCycleReachable(m: Matrix, src: nat)
    requires Square(m)
  {
    exists p, c :: IsWalk(m, c) && c[|c| - 1] == c[0] && Path(m, p, src, c[0]) && Weight(m, c) < 0
  }

  /** A set of numbers below `n` has at most `n` elements. */
  lemma {:induction false} SubsetRangeCard(s: set<nat>, n: nat)
    requires forall x :: x in s ==> x < n
    ensures |s| <= n
  {
    if n > 0 {
      var s' := s - {n - 1};
      SubsetRangeCard(s', n - 1);
    } else {
      assert s == {};
    }
  }

  predicate Distinct(w: seq<nat>)
  {
    forall i, j :: 0 <= i < j < |w| ==> w[i] != w[j]
  }

  function Elements(w: seq<nat>): (e: set<nat>)
  {
    if |w| == 0 then {} else {w[0]} + Elements(w[1..])
  }

  lemma {:induction false} ElementsMembers(w: seq<nat>)
    ensures forall x :: x in Elements(w) <==> x in w
  {
    if |w| > 0 {
      ElementsMembers(w[1..]);
      assert w == [w[0]] + w[1..];
    }
  }

  lemma {:induction false} DistinctCard(w: seq<nat>)
    requires Distinct(w)
    ensures |Elements(w)| == |w|
  {
    if |w| > 0 {
      var t := w[1..];
      assert Distinct(t) by {
        forall i, j | 0 <= i < j < |t| ensures t[i] != t[j] {
          assert t[i] == w[i + 1] && t[j] == w[j + 1];
        }
      }
      DistinctCard(t);
      ElementsMembers(t);
      assert w[0] !in t by {
        forall k | 0 <= k < |t| ensures t[k] != w[0] {
          assert t[k] == w[k + 1];
        }
      }
    }
  }

  /** Pigeonhole: more than `n` nodes below `n` repeat one. */
  lemma Pigeonhole(w: seq<nat>, n: nat)
    requires forall k :: 0 <= k < |w| ==> w[k] < n
    requires |w| > n
    ensures exists i, j :: 0 <= i < j < |w| && w[i] == w[j]
  {
    if Distinct(w) {
      DistinctCard(w);
      ElementsMembers(w);
      assert forall x :: x in Elements(w) ==> x < n by {
        forall x | x in Elements(w) ensures x < n {
          var k :| 0 <= k < |w| && w[k] == x;
        }
      }
      SubsetRangeCard(Elements(w), n);
    }
  }

  /** Cutting out the closed stretch between two visits of the same node
      leaves a walk with the same ends that is shorter and, as no reachable
      cycle is negative, weighs no more. */
  lemma RemoveCycle(m: Matrix, src: nat, v: nat, w: seq<nat>, i: nat, j: nat) returns (w2: seq<nat>)
    requires Square(m) && !NegativeCycleReachable(m, src)
    requires Path(m, w, src, v)
    requires i < j < |w| && w[i] == w[j]
    ensures Path(m, w2, src, v) && |w2| < |w| && Weight(m, w2) <= Weight(m, w)
  {
    var pre := w[..i + 1];
    var rest := w[i..];
    WeightSplit(m, w, i);
    WeightSplit(m, rest, j - i);
    var cyc := rest[..j - i + 1];
    var post := rest[j - i..];
    assert post == w[j..];
    assert cyc[0] == w[i] && cyc[|cyc| - 1] == w[j];
    CycleNotNegative(m, src, pre, cyc);
    assert Weight(m, w) == Weight(m, pre) + Weight(m, cyc) + Weight(m, post);
    WeightConcat(m, pre, post);
    w2 := pre + post[1..];
    assert |w2| == |w| - (j - i);
    assert w2[0] == pre[0] == src;
    assert w2[|w2| - 1] == w[|w| - 1];
  }

  /** A closed walk reachable from `src` weighs at least 0 when no reachable
      cycle is negative. */
  lemma CycleNotNegative(m: Matrix, src: nat, p: seq<nat>, c: seq<nat>)
    requires Square(m) && !NegativeCycleReachable(m, src)
    requires IsWalk(m, c) && c[|c| - 1] == c[0] && Path(m, p, src, c[0])
    ensures Weight(m, c) >= 0
  {
  }

  /** Without a reachable negative cycle, every walk from `src` can be
      shortened to one of at most `n` nodes that weighs no more. */
  lemma {:induction false} Shorten(m: Matrix, src: nat, v: nat, w: seq<nat>) returns (w': seq<nat>)
    requires Square(m) && !NegativeCycleReachable(m, src)
    requires Path(m, w, src, v)
    ensures Path(m, w', src, v) && |w'| <= |m| && Weight(m, w') <= Weight(m, w)
    decreases |w|
  {
    if |w| <= |m| {
      return w;
    }
    Pigeonhole(w, |m|);
    var i, j :| 0 <= i < j < |w| && w[i] == w[j];
    var w2 := RemoveCycle(m, src, v, w, i, j);
    w' := Shorten(m, src, v, w2);
  }

  /** The shortest-walk property of a value `x` for node `v`: a finite `x`
      is the weight of some walk from `src`, and no walk from `src` to `v`
      weighs less. An infinite `x` therefore means no walk reaches `v`. */
  ghost predicate IsShortest(m: Matrix, src: nat, v: nat, x: Dist)
    requires Square(m)
  {
    && (x.Fin? ==> exists w :: Path(m, w, src, v) && Weight(m, w) == x.v)
    && (forall w :: Path(m, w, src, v) ==> Le(x, Fin(Weight(m, w))))
  }
}
