/** TextRank's damped power iteration over the similarity graph: one
    synchronous round, the largest per-node change of a round, and the
    bounded iteration with early exit. */
module Ranking {
  import opened Graph

  /** Every node below `n` has a row of at least `n` weights and an out-weight sum. */
  ghost predicate Shaped(adj: seq<seq<real>>, out: seq<real>, n: nat)
  {
    |adj| >= n && |out| >= n && forall j :: 0 <= j < n ==> |adj[j]| >= n
  }

  /** Every weight between two of the first `n` nodes is non-negative. */
  ghost predicate WeightsNonNegative(adj: seq<seq<real>>, n: nat)
    requires |adj| >= n && forall j :: 0 <= j < n ==> |adj[j]| >= n
  {
    forall j, i :: 0 <= j < n && 0 <= i < n ==> adj[j][i] >= 0.0
  }

  /** All `n` scores start at 1.0. */
  function Ones(n: nat): (r: seq<real>)
    ensures |r| == n && forall i :: 0 <= i < n ==> r[i] == 1.0
  {
    seq(n, _ => 1.0)
  }

  /** What node `j` passes to node `i` in one round: its score times the
      fraction of its out-weight carried by the edge j -> i. A node with
      (near) zero out-weight passes nothing, and no node feeds itself. */
  function Share(adj: seq<seq<real>>, out: seq<real>, s: seq<real>, j: nat, i: nat): real
    requires Shaped(adj, out, |s|) && j < |s| && i < |s|
  {
    if i == j || out[j] < Eps then 0.0 else adj[j][i] / out[j] * s[j]
  }

  /** The shares node `i` receives from nodes 0 .. len-1. */
  function InflowUpTo(adj: seq<seq<real>>, out: seq<real>, s: seq<real>, i: nat, len: nat): real
    requires Shaped(adj, out, |s|) && i < |s| && len <= |s|
  {
    if len == 0 then 0.0
    else InflowUpTo(adj, out, s, i, len - 1) + Share(adj, out, s, len - 1, i)
  }

  function Inflow(adj: seq<seq<real>>, out: seq<real>, s: seq<real>, i: nat): real
    requires Shaped(adj, out, |s|) && i < |s|
  {
    InflowUpTo(adj, out, s, i, |s|)
  }

  /** The damped score of a node receiving `inflow`: (1 - d) + d * inflow. */
  function Damped(d: real, inflow: real): real
  {
    1.0 - d + d * inflow
  }

  /** One synchronous round: every new score is computed from the old scores
      only, as the damped inflow. */
  function Round(adj: seq<seq<real>>, out: seq<real>, d: real, s: seq<real>): (r: seq<real>)
    requires Shaped(adj, out, |s|)
    ensures |r| == |s|
  {
    seq(|s|, i requires 0 <= i < |s| => Damped(d, Inflow(adj, out, s, i)))
  }

  /** The largest absolute change between `a` and `b` over the first `len`
      nodes, starting from 0. */
  function MaxDeltaUpTo(a: seq<real>, b: seq<real>, len: nat): real
    requires len <= |a| && |a| == |b|
  {
    if len == 0 then 0.0 else Max(MaxDeltaUpTo(a, b, len - 1), Abs(b[len - 1] - a[len - 1]))
  }

  function MaxDelta(a: seq<real>, b: seq<real>): real
    requires |a| == |b|
  {
    MaxDeltaUpTo(a, b, |a|)
  }

  /** At most `budget` rounds from `s`; stops after the first round whose
      largest change is below `tol`. */
  function Rank(adj: seq<seq<real>>, out: seq<real>, d: real, tol: real, s: seq<real>, budget: int): (r: seq<real>)
    requires Shaped(adj, out, |s|)
    ensures |r| == |s|
    decreases budget
  {
    if budget <= 0 then s
    else
      var next := Round(adj, out, d, s);
      if MaxDelta(s, next) < tol then next else Rank(adj, out, d, tol, next, budget - 1)
  }

  /** `k` rounds from `s`, with no early exit. */
  function Iterate(adj: seq<seq<real>>, out: seq<real>, d: real, s: seq<real>, k: nat): (r: seq<real>)
    requires Shaped(adj, out, |s|)
    ensures |r| == |s|
    decreases k
  {
    if k == 0 then s else Iterate(adj, out, d, Round(adj, out, d, s), k - 1)
  }

  /** How many rounds Rank runs. */
  function RoundsRun(adj: seq<seq<real>>, out: seq<real>, d: real, tol: real, s: seq<real>, budget: int): nat
    requires Shaped(adj, out, |s|)
    decreases budget
  {
    if budget <= 0 then 0
    else
      var next := Round(adj, out, d, s);
      if MaxDelta(s, next) < tol then 1 else 1 + RoundsRun(adj, out, d, tol, next, budget - 1)
  }

  /** MaxDeltaUpTo is the largest change: it bounds every change and, unless
      it is the starting 0, it is one of them. */
  lemma {:induction false} MaxDeltaIsMaximum(a: seq<real>, b: seq<real>, len: nat)
    requires len <= |a| && |a| == |b|
    ensures MaxDeltaUpTo(a, b, len) >= 0.0
    ensures forall i :: 0 <= i < len ==> Abs(b[i] - a[i]) <= MaxDeltaUpTo(a, b, len)
    ensures MaxDeltaUpTo(a, b, len) == 0.0
            || exists i :: 0 <= i < len && MaxDeltaUpTo(a, b, len) == Abs(b[i] - a[i])
  {
    if len > 0 {
      MaxDeltaIsMaximum(a, b, len - 1);
      var m := MaxDeltaUpTo(a, b, len);
      if m != 0.0 && m != MaxDeltaUpTo(a, b, len - 1) {
        assert m == Abs(b[len - 1] - a[len - 1]);
      }
    }
  }

  /** Rank runs at most max(budget, 0) rounds and is that many plain rounds;
      it stops before the budget only after a round whose largest change is
      below `tol`, and every earlier round changed some score by `tol` or more. */
  lemma {:induction false} RankIsBoundedIteration(adj: seq<seq<real>>, out: seq<real>, d: real, tol: real,
                                                  s: seq<real>, budget: int)
    requires Shaped(adj, out, |s|)
    ensures RoundsRun(adj, out, d, tol, s, budget) <= if budget <= 0 then 0 else budget
    ensures budget > 0 ==> RoundsRun(adj, out, d, tol, s, budget) >= 1
    ensures Rank(adj, out, d, tol, s, budget) == Iterate(adj, out, d, s, RoundsRun(adj, out, d, tol, s, budget))
    ensures var k := RoundsRun(adj, out, d, tol, s, budget);
            0 < k < budget ==> MaxDelta(Iterate(adj, out, d, s, k - 1), Iterate(adj, out, d, s, k)) < tol
    ensures var k := RoundsRun(adj, out, d, tol, s, budget);
            forall m :: 0 <= m < k - 1 ==>
              MaxDelta(Iterate(adj, out, d, s, m), Iterate(adj, out, d, s, m + 1)) >= tol
    decreases budget
  {
    if budget > 0 {
      var next := Round(adj, out, d, s);
      assert Iterate(adj, out, d, s, 1) == next;
      if MaxDelta(s, next) >= tol {
        RankIsBoundedIteration(adj, out, d, tol, next, budget - 1);
        var k' := RoundsRun(adj, out, d, tol, next, budget - 1);
        forall m | 0 <= m <= k'
          ensures Iterate(adj, out, d, s, m + 1) == Iterate(adj, out, d, next, m)
        {
        }
        forall m | 1 <= m <= k'
          ensures Iterate(adj, out, d, s, m) == Iterate(adj, out, d, next, m - 1)
        {
          assert Iterate(adj, out, d, s, (m - 1) + 1) == Iterate(adj, out, d, next, m - 1);
        }
      }
    }
  }

  /** A share between non-negative quantities is non-negative. */
  lemma ShareNonNegative(adj: seq<seq<real>>, out: seq<real>, s: seq<real>, j: nat, i: nat)
    requires Shaped(adj, out, |s|) && j < |s| && i < |s|
    requires adj[j][i] >= 0.0 && s[j] >= 0.0
    ensures Share(adj, out, s, j, i) >= 0.0
  {
    if i != j && out[j] >= Eps {
      var q := adj[j][i] / out[j];
      assert q >= 0.0;
      assert q * s[j] >= 0.0;
    }
  }

  lemma {:induction false} InflowNonNegative(adj: seq<seq<real>>, out: seq<real>, s: seq<real>, i: nat, len: nat)
    requires Shaped(adj, out, |s|) && i < |s| && len <= |s|
    requires WeightsNonNegative(adj, |s|)
    requires forall j :: 0 <= j < |s| ==> s[j] >= 0.0
    ensures InflowUpTo(adj, out, s, i, len) >= 0.0
  {
    if len > 0 {
      InflowNonNegative(adj, out, s, i, len - 1);
      ShareNonNegative(adj, out, s, len - 1, i);
    }
  }

  /** With 0 <= d <= 1 and non-negative weights and scores, every score after
      a round is at least the restart floor 1 - d. */
  lemma RoundAboveFloor(adj: seq<seq<real>>, out: seq<real>, d: real, s: seq<real>)
    requires Shaped(adj, out, |s|) && 0.0 <= d <= 1.0
    requires WeightsNonNegative(adj, |s|)
    requires forall j :: 0 <= j < |s| ==> s[j] >= 0.0
    ensures forall i :: 0 <= i < |s| ==> Round(adj, out, d, s)[i] >= 1.0 - d
  {
    forall i | 0 <= i < |s| ensures Round(adj, out, d, s)[i] >= 1.0 - d {
      InflowNonNegative(adj, out, s, i, |s|);
      var w := Inflow(adj, out, s, i);
      assert d * w >= 0.0;
    }
  }

  /** Starting from scores at or above the floor, Rank never goes below it. */
  lemma {:induction false} RankAboveFloor(adj: seq<seq<real>>, out: seq<real>, d: real, tol: real,
                                          s: seq<real>, budget: int)
    requires Shaped(adj, out, |s|) && 0.0 <= d <= 1.0
    requires WeightsNonNegative(adj, |s|)
    requires forall j :: 0 <= j < |s| ==> s[j] >= 1.0 - d
    ensures forall i :: 0 <= i < |s| ==> Rank(adj, out, d, tol, s, budget)[i] >= 1.0 - d
    decreases budget
  {
    if budget > 0 {
      RoundAboveFloor(adj, out, d, s);
      var next := Round(adj, out, d, s);
      if MaxDelta(s, next) >= tol {
        RankAboveFloor(adj, out, d, tol, next, budget - 1);
      }
    }
  }

  /** A node that no other node links to receives nothing. */
  lemma {:induction false} NoInflowWithoutEdges(adj: seq<seq<real>>, out: seq<real>, s: seq<real>, i: nat, len: nat)
    requires Shaped(adj, out, |s|) && i < |s| && len <= |s|
    requires forall j :: 0 <= j < |s| && j != i ==> adj[j][i] == 0.0
    ensures InflowUpTo(adj, out, s, i, len) == 0.0
  {
    if len > 0 {
      NoInflowWithoutEdges(adj, out, s, i, len - 1);
    }
  }

  /** An isolated node ends at exactly the floor 1 - d once a round has run. */
  lemma {:induction false} IsolatedNodeGetsFloor(adj: seq<seq<real>>, out: seq<real>, d: real, tol: real,
                                                  s: seq<real>, budget: int, i: nat)
    requires Shaped(adj, out, |s|) && i < |s| && budget >= 1
    requires forall j :: 0 <= j < |s| && j != i ==> adj[j][i] == 0.0
    ensures Rank(adj, out, d, tol, s, budget)[i] == 1.0 - d
    decreases budget
  {
    var next := Round(adj, out, d, s);
    NoInflowWithoutEdges(adj, out, s, i, |s|);
    assert next[i] == 1.0 - d;
    if MaxDelta(s, next) >= tol && budget > 1 {
      IsolatedNodeGetsFloor(adj, out, d, tol, next, budget - 1, i);
    }
  }

  /** A node whose out-weight is below the threshold is dangling: its own
      score has no effect on the next round. */
  lemma {:induction false} DanglingInflow(adj: seq<seq<real>>, out: seq<real>, s: seq<real>, t: seq<real>,
                                          j: nat, i: nat, len: nat)
    requires |s| == |t| && Shaped(adj, out, |s|) && j < |s| && i < |s| && len <= |s|
    requires out[j] < Eps
    requires forall k :: 0 <= k < |s| && k != j ==> s[k] == t[k]
    ensures InflowUpTo(adj, out, s, i, len) == InflowUpTo(adj, out, t, i, len)
  {
    if len > 0 {
      DanglingInflow(adj, out, s, t, j, i, len - 1);
      if len - 1 != j {
        assert s[len - 1] == t[len - 1];
      }
      assert Share(adj, out, s, len - 1, i) == Share(adj, out, t, len - 1, i);
    }
  }

  lemma DanglingContributesNothing(adj: seq<seq<real>>, out: seq<real>, d: real, s: seq<real>, t: seq<real>, j: nat)
    requires |s| == |t| && Shaped(adj, out, |s|) && j < |s|
    requires out[j] < Eps
    requires forall k :: 0 <= k < |s| && k != j ==> s[k] == t[k]
    ensures Round(adj, out, d, s) == Round(adj, out, d, t)
  {
    forall i | 0 <= i < |s| ensures Round(adj, out, d, s)[i] == Round(adj, out, d, t)[i] {
      DanglingInflow(adj, out, s, t, j, i, |s|);
    }
  }

  /** One round of the iteration from `cur`, computed node by node: the new
      scores and the largest change. */
  method ScoreRound(adj: seq<seq<real>>, out: seq<real>, d: real, cur: seq<real>) returns (newScores: seq<real>, maxDelta: real)
    requires Shaped(adj, out, |cur|)
    ensures newScores == Round(adj, out, d, cur)
    ensures maxDelta == MaxDelta(cur, newScores)
  {
    var kDim := |cur|;
    maxDelta := 0.0;
    newScores := seq(kDim, _ => 0.0);
    ghost var next := Round(adj, out, d, cur);
    for i := 0 to kDim
      invariant |newScores| == kDim
      invariant forall k :: 0 <= k < i ==> newScores[k] == next[k]
      invariant maxDelta == MaxDeltaUpTo(cur, next, i)
    {
      var sumWeight := NodeInflow(adj, out, cur, i);
      var newScore := Damped(d, sumWeight);
      assert newScore == next[i];
      newScores := newScores[i := newScore];
      var delta := Abs(newScore - cur[i]);
      maxDelta := Max(maxDelta, delta);
      assert maxDelta == MaxDeltaUpTo(cur, next, i + 1);
    }
    assert newScores == next;
  }

  /** The weighted sum node `i` receives in one round from `cur`. */
  method NodeInflow(adj: seq<seq<real>>, out: seq<real>, cur: seq<real>, i: nat) returns (sumWeight: real)
    requires Shaped(adj, out, |cur|) && i < |cur|
    ensures sumWeight == Inflow(adj, out, cur, i)
  {
    sumWeight := 0.0;
    for j := 0 to |cur|
      invariant sumWeight == InflowUpTo(adj, out, cur, i, j)
    {
      if i == j || out[j] < Eps {
        continue;
      }
      var weight := adj[j][i];
      sumWeight := sumWeight + weight / out[j] * cur[j];
    }
  }
}
