/** Greedy list scheduling, as the continuous-integration sharder does it. */
module Scheduling {
  // Jobs are taken in order and each goes to the first shard whose load is least. Weights are whole tenths of a second.
  // An assignment `a` puts job i on shard a[i].

  function Sum(w: seq<nat>): nat {
    if w == [] then 0 else Sum(w[..|w| - 1]) + w[|w| - 1]
  }

  ghost predicate IsAssignment(a: seq<nat>, jobs: nat, m: nat) {
    |a| == jobs && forall i :: 0 <= i < |a| ==> a[i] < m
  }

  /** Total weight of the jobs that `a` puts on shard s. */
  function LoadOf(w: seq<nat>, a: seq<nat>, s: nat): nat
    requires |a| == |w|
  {
    if w == [] then 0
    else
      var n := |w| - 1;
      LoadOf(w[..n], a[..n], s) + if a[n] == s then w[n] else 0
  }

  /** Combined load of shards 0 to m - 1. */
  function TotalLoad(w: seq<nat>, a: seq<nat>, m: nat): nat
    requires |a| == |w|
  {
    if m == 0 then 0 else TotalLoad(w, a, m - 1) + LoadOf(w, a, m - 1)
  }

  /** The first of shards 0 to k - 1 with the least load. */
  function LeastLoaded(w: seq<nat>, a: seq<nat>, k: nat): (r: nat)
    requires |a| == |w| && k >= 1
    ensures r < k
    ensures forall s: nat :: s < k ==> LoadOf(w, a, r) <= LoadOf(w, a, s)
    ensures forall s: nat :: s < r ==> LoadOf(w, a, r) < LoadOf(w, a, s)
  {
    if k == 1 then 0
    else
      var b := LeastLoaded(w, a, k - 1);
      if LoadOf(w, a, k - 1) < LoadOf(w, a, b) then k - 1 else b
  }

  /** The shard chosen for each job, in order. */
  function Greedy(w: seq<nat>, m: nat): (a: seq<nat>)
    requires m >= 1
    ensures IsAssignment(a, |w|, m)
  {
    if w == [] then []
    else
      var before := w[..|w| - 1];
      var a := Greedy(before, m);
      a + [LeastLoaded(before, a, m)]
  }

  // ---------- nothing is lost: the loads add up ----------

  lemma {:induction false} TotalLoadStep(w: seq<nat>, a: seq<nat>, m: nat)
    requires |a| == |w| >= 1
    ensures TotalLoad(w, a, m)
         == TotalLoad(w[..|w| - 1], a[..|w| - 1], m) + if a[|w| - 1] < m then w[|w| - 1] else 0
  {
    if m > 0 {
      TotalLoadStep(w, a, m - 1);
    }
  }

  lemma {:induction false} NoJobsNoLoad(a: seq<nat>, m: nat)
    requires |a| == 0
    ensures TotalLoad([], a, m) == 0
  {
    if m > 0 {
      NoJobsNoLoad(a, m - 1);
    }
  }

  lemma {:induction false} LoadsAddUp(w: seq<nat>, a: seq<nat>, m: nat)
    requires IsAssignment(a, |w|, m)
    ensures TotalLoad(w, a, m) == Sum(w)
  {
    if w == [] {
      NoJobsNoLoad(a, m);
    } else {
      TotalLoadStep(w, a, m);
      LoadsAddUp(w[..|w| - 1], a[..|w| - 1], m);
    }
  }

  lemma {:induction false} TotalAtMost(w: seq<nat>, a: seq<nat>, m: nat, bound: nat)
    requires |a| == |w|
    requires forall s: nat :: s < m ==> LoadOf(w, a, s) <= bound
    ensures TotalLoad(w, a, m) <= m * bound
  {
    if m > 0 {
      TotalAtMost(w, a, m - 1, bound);
      assert m * bound == (m - 1) * bound + bound;
    }
  }

  lemma {:induction false} TotalAtLeast(w: seq<nat>, a: seq<nat>, m: nat, bound: nat)
    requires |a| == |w|
    requires forall s: nat :: s < m ==> LoadOf(w, a, s) >= bound
    ensures TotalLoad(w, a, m) >= m * bound
  {
    if m > 0 {
      TotalAtLeast(w, a, m - 1, bound);
      assert m * bound == (m - 1) * bound + bound;
    }
  }

  // ---------- the averaging bounds ----------

  /** The shard that receives the last job was least loaded, so it was no heavier than the average. */
  lemma {:induction false} AveragingBound(w: seq<nat>, m: nat)
    requires m >= 1 && w != []
    ensures var n := |w| - 1;
            m * LoadOf(w, Greedy(w, m), Greedy(w, m)[n]) <= Sum(w) + (m - 1) * w[n]
  {
    var n := |w| - 1;
    var before := w[..n];
    var a := Greedy(before, m);
    assert Greedy(w, m)[..n] == a;
    var least := LoadOf(before, a, LeastLoaded(before, a, m));
    TotalAtLeast(before, a, m, least);
    LoadsAddUp(before, a, m);
    AverageStep(m, least, w[n]);
  }

  lemma AverageStep(m: nat, least: nat, x: nat)
    ensures m * (least + x) == m * least + (m - 1) * x + x
  {
  }

  ghost predicate Within(w: seq<nat>, a: seq<nat>, m: nat, makespan: nat) {
    IsAssignment(a, |w|, m) && forall s: nat :: s < m ==> LoadOf(w, a, s) <= makespan
  }

  lemma {:induction false} WithinPrefix(w: seq<nat>, a: seq<nat>, m: nat, makespan: nat)
    requires Within(w, a, m, makespan) && w != []
    ensures Within(w[..|w| - 1], a[..|w| - 1], m, makespan)
    ensures w[|w| - 1] <= makespan
  {
    var n := |w| - 1;
    forall s: nat | s < m
      ensures LoadOf(w[..n], a[..n], s) <= makespan
    {
      assert LoadOf(w, a, s) <= makespan;
    }
    assert LoadOf(w, a, a[n]) <= makespan;
  }

  /** Graham's bound for list scheduling in any order: at most 2 - 1/m times the best makespan. */
  lemma {:induction false} ListSchedulingBound(w: seq<nat>, m: nat, best: seq<nat>, makespan: nat, s: nat)
    requires m >= 1 && s < m && Within(w, best, m, makespan)
    ensures m * LoadOf(w, Greedy(w, m), s) <= (2 * m - 1) * makespan
  {
    if w == [] {
      NoLoad(2 * m - 1, m, makespan);
    } else {
      var n := |w| - 1;
      WithinPrefix(w, best, m, makespan);
      assert Greedy(w, m)[..n] == Greedy(w[..n], m);
      if Greedy(w, m)[n] == s {
        AveragingBound(w, m);
        LoadsAddUp(w, best, m);
        TotalAtMost(w, best, m, makespan);
        OneOverAverage(m, LoadOf(w, Greedy(w, m), s), w[n], makespan);
      } else {
        ListSchedulingBound(w[..n], m, best[..n], makespan, s);
      }
    }
  }

  // ---------- longest first ----------

  ghost predicate LongestFirst(w: seq<nat>) {
    forall i, j :: 0 <= i < j < |w| ==> w[i] >= w[j]
  }

  /** Credits: 2 for a job too heavy to share a shard with a job of weight x, 1 for the others. */
  function Credits(w: seq<nat>, x: nat, makespan: nat): (c: seq<nat>)
    ensures |c| == |w|
  {
    seq(|w|, i requires 0 <= i < |w| => if w[i] + x > makespan then 2 else 1)
  }

  /** When every job weighs at least x and three such jobs overflow the makespan,
      a shard within the makespan holds at most two credits. */
  lemma {:induction false} CreditsOfAShard(w: seq<nat>, a: seq<nat>, s: nat, x: nat, makespan: nat)
    requires |a| == |w| && 3 * x > makespan
    requires forall i :: 0 <= i < |w| ==> w[i] >= x
    ensures var c := LoadOf(Credits(w, x, makespan), a, s);
            var l := LoadOf(w, a, s);
            && (c == 1 ==> l >= x)
            && (c == 2 ==> l >= 2 * x || l + x > makespan)
            && (c >= 3 ==> l > makespan)
  {
    if w != [] {
      var n := |w| - 1;
      CreditsOfAShard(w[..n], a[..n], s, x, makespan);
      assert Credits(w, x, makespan)[..n] == Credits(w[..n], x, makespan);
    }
  }

  /** A shard with fewer than two credits has room for one more job of weight x. */
  lemma {:induction false} FewCreditsLeaveRoom(w: seq<nat>, a: seq<nat>, s: nat, x: nat, makespan: nat)
    requires |a| == |w| && x <= makespan
    ensures LoadOf(Credits(w, x, makespan), a, s) <= 1 ==> LoadOf(w, a, s) + x <= makespan
    ensures LoadOf(Credits(w, x, makespan), a, s) == 0 ==> LoadOf(w, a, s) == 0
  {
    if w != [] {
      var n := |w| - 1;
      FewCreditsLeaveRoom(w[..n], a[..n], s, x, makespan);
      assert Credits(w, x, makespan)[..n] == Credits(w[..n], x, makespan);
    }
  }

  /** When the last job weighs more than a third of the makespan, its shard stays within the makespan:
      otherwise every greedy shard already held two credits, more than the assignment `best` can hold. */
  lemma {:induction false} HeavyLastJobFits(w: seq<nat>, m: nat, best: seq<nat>, makespan: nat)
    requires m >= 1 && w != [] && LongestFirst(w) && Within(w, best, m, makespan)
    requires 3 * w[|w| - 1] > makespan
    ensures LoadOf(w, Greedy(w, m), Greedy(w, m)[|w| - 1]) <= makespan
  {
    var n := |w| - 1;
    var x := w[n];
    var before := w[..n];
    var a := Greedy(before, m);
    assert Greedy(w, m)[..n] == a;
    WithinPrefix(w, best, m, makespan);
    var least := LeastLoaded(before, a, m);
    if LoadOf(before, a, least) + x > makespan {
      var c := Credits(w, x, makespan);
      assert c[..n] == Credits(before, x, makespan);
      forall s: nat | s < m
        ensures LoadOf(c[..n], a, s) >= 2
        ensures LoadOf(c, best, s) <= 2
      {
        assert LoadOf(before, a, least) <= LoadOf(before, a, s);
        FewCreditsLeaveRoom(before, a, s, x, makespan);
        CreditsOfAShard(w, best, s, x, makespan);
        assert LoadOf(w, best, s) <= makespan;
      }
      TotalAtLeast(c[..n], a, m, 2);
      LoadsAddUp(c[..n], a, m);
      TotalAtMost(c, best, m, 2);
      LoadsAddUp(c, best, m);
      assert false;
    }
  }

  /** Longest-first placement is within 4/3 - 1/(3m) of the best makespan over all assignments. */
  lemma {:induction false} LongestFirstBound(w: seq<nat>, m: nat, best: seq<nat>, makespan: nat, s: nat)
    requires m >= 1 && s < m && LongestFirst(w) && Within(w, best, m, makespan)
    ensures 3 * m * LoadOf(w, Greedy(w, m), s) <= (4 * m - 1) * makespan
  {
    var load := LoadOf(w, Greedy(w, m), s);
    if w == [] {
      NoLoad(4 * m - 1, 3 * m, makespan);
    } else {
      var n := |w| - 1;
      WithinPrefix(w, best, m, makespan);
      assert Greedy(w, m)[..n] == Greedy(w[..n], m);
      if Greedy(w, m)[n] != s {
        LongestFirstBound(w[..n], m, best[..n], makespan, s);
      } else if 3 * w[n] > makespan {
        HeavyLastJobFits(w, m, best, makespan);
        HeavyLastJob(m, load, makespan);
      } else {
        AveragingBound(w, m);
        LoadsAddUp(w, best, m);
        TotalAtMost(w, best, m, makespan);
        LightLastJob(m, load, w[n], makespan);
      }
    }
  }

  lemma NoLoad(k: nat, j: nat, makespan: nat)
    ensures j * 0 <= k * makespan
  {
  }

  lemma MulMonotone(k: nat, a: nat, b: nat)
    requires a <= b
    ensures k * a <= k * b
  {
  }

  lemma MulSplit(k: int, j: int, x: int)
    ensures (k + j) * x == k * x + j * x
  {
  }

  lemma MulAssociative(k: int, j: int, x: int)
    ensures k * j * x == k * (j * x)
  {
  }

  lemma OneOverAverage(m: nat, load: nat, last: nat, makespan: nat)
    requires m >= 1 && last <= makespan
    requires m * load <= m * makespan + (m - 1) * last
    ensures m * load <= (2 * m - 1) * makespan
  {
    MulMonotone(m - 1, last, makespan);
    MulSplit(m, m - 1, makespan);
  }

  lemma FourThirds(m: nat, makespan: nat)
    ensures (4 * m - 1) * makespan == 3 * (m * makespan) + (m - 1) * makespan
  {
    MulSplit(3 * m, m - 1, makespan);
    MulAssociative(3, m, makespan);
  }

  lemma HeavyLastJob(m: nat, load: nat, makespan: nat)
    requires m >= 1 && load <= makespan
    ensures 3 * m * load <= (4 * m - 1) * makespan
  {
    MulMonotone(m, load, makespan);
    MulAssociative(3, m, load);
    FourThirds(m, makespan);
    MulMonotone(m - 1, 0, makespan);
  }

  lemma LightLastJob(m: nat, load: nat, last: nat, makespan: nat)
    requires m >= 1 && 3 * last <= makespan
    requires m * load <= m * makespan + (m - 1) * last
    ensures 3 * m * load <= (4 * m - 1) * makespan
  {
    MulMonotone(m - 1, 3 * last, makespan);
    MulAssociative(m - 1, 3, last);
    MulAssociative(3, m - 1, last);
    MulAssociative(3, m, load);
    FourThirds(m, makespan);
  }

  lemma LoadAppend(w: seq<nat>, a: seq<nat>, x: nat, p: nat, s: nat)
    requires |a| == |w|
    ensures LoadOf(w + [x], a + [p], s) == LoadOf(w, a, s) + if p == s then x else 0
  {
    assert (w + [x])[..|w|] == w && (a + [p])[..|a|] == a;
  }
}
