/** Jobs on which the longest-first bound is reached. */
module TightSchedule {
  // For m shards they weigh 2m - 1, 2m - 1, 2m - 2, 2m - 2, down to m + 1, m + 1, m, m, and one more m.
  import opened Scheduling

  function Weight(m: nat, i: nat): nat
    requires i <= 2 * m
  {
    if i < 2 * m then 2 * m - 1 - i / 2 else m
  }

  function Jobs(m: nat): (w: seq<nat>)
    ensures |w| == 2 * m + 1
  {
    seq(2 * m + 1, i requires 0 <= i <= 2 * m => Weight(m, i))
  }

  // ---------- where the greedy placement puts them ----------

  /** The second job of shard s. */
  function Partner(m: nat, s: nat): (i: nat)
    requires s < m
    ensures m <= i < 2 * m && Weight(m, s) + Weight(m, i) == 3 * m - 1
  {
    if s == m - 1 && s % 2 == 0 then m else if s % 2 == 0 then 2 * m - 2 - s else 2 * m - s
  }

  /** The shard of job i. */
  function Target(m: nat, i: nat): (s: nat)
    requires m >= 1 && i <= 2 * m
    ensures s < m
    ensures m <= i < 2 * m ==> Partner(m, s) == i
  {
    if i < m then i
    else if i == 2 * m then 0
    else if i == m && i % 2 == 1 then m - 1
    else if i % 2 == 0 then 2 * m - 2 - i
    else 2 * m - i
  }

  /** The load of a shard once the first n jobs are placed. */
  function Load(m: nat, n: nat, s: nat): nat
    requires s < m && n <= 2 * m
  {
    (if s < n then Weight(m, s) else 0) + if Partner(m, s) < n then Weight(m, Partner(m, s)) else 0
  }

  lemma PartnersDiffer(m: nat, s: nat, t: nat)
    requires s < m && t < m && Partner(m, s) == Partner(m, t)
    ensures s == t
  {
  }

  lemma LoadNext(m: nat, n: nat, s: nat)
    requires s < m && n < 2 * m
    ensures Load(m, n + 1, s) == Load(m, n, s) + if s == Target(m, n) then Weight(m, n) else 0
  {
    if m <= n && Partner(m, s) == n {
      PartnersDiffer(m, s, Target(m, n));
    }
  }

  /** The target is the first shard with the least load. */
  lemma TargetIsLeast(m: nat, n: nat, s: nat)
    requires s < m && n < 2 * m
    ensures Load(m, n, Target(m, n)) <= Load(m, n, s)
    ensures s < Target(m, n) ==> Load(m, n, Target(m, n)) < Load(m, n, s)
  {
    if m <= n {
      var r := Target(m, n);
      assert Load(m, n, r) == Weight(m, r) == 2 * m - 1 - r / 2;
      if Partner(m, s) >= n {
        assert s / 2 <= r / 2 && (s < r ==> s / 2 < r / 2);
      }
    }
  }

  lemma {:induction false} GreedyLoads(m: nat, n: nat, s: nat)
    requires s < m && n <= 2 * m
    ensures LoadOf(Jobs(m)[..n], Greedy(Jobs(m)[..n], m), s) == Load(m, n, s)
    decreases n
  {
    var w := Jobs(m);
    if n == 0 {
      assert w[..0] == [];
    } else {
      var before := w[..n - 1];
      var a := Greedy(before, m);
      assert w[..n] == before + [Weight(m, n - 1)];
      assert w[..n][..n - 1] == before;
      forall t: nat | t < m
        ensures LoadOf(before, a, t) == Load(m, n - 1, t)
      {
        GreedyLoads(m, n - 1, t);
      }
      LeastIsTarget(m, n - 1, before, a);
      LoadAppend(before, a, Weight(m, n - 1), Target(m, n - 1), s);
      LoadNext(m, n - 1, s);
    }
  }

  lemma LeastIsTarget(m: nat, n: nat, w: seq<nat>, a: seq<nat>)
    requires m >= 1 && n < 2 * m && |a| == |w|
    requires forall t: nat :: t < m ==> LoadOf(w, a, t) == Load(m, n, t)
    ensures LeastLoaded(w, a, m) == Target(m, n)
  {
    hide Load, Target, LoadOf;
    var r, t := LeastLoaded(w, a, m), Target(m, n);
    TargetIsLeast(m, n, r);
    assert LoadOf(w, a, r) <= LoadOf(w, a, t);
  }

  /** All shards are at 3m - 1 when the last job comes, and it goes to the first. */
  lemma GreedyEnds(m: nat)
    requires m >= 1
    ensures LoadOf(Jobs(m), Greedy(Jobs(m), m), 0) == 4 * m - 1
  {
    var w := Jobs(m);
    var before := w[..2 * m];
    var a := Greedy(before, m);
    assert w == before + [m];
    forall s: nat | s < m
      ensures LoadOf(before, a, s) == 3 * m - 1
    {
      GreedyLoads(m, 2 * m, s);
    }
    assert LoadOf(before, a, 0) == LoadOf(before, a, LeastLoaded(before, a, m));
    LoadAppend(before, a, m, 0, 0);
  }

  // ---------- where they fit better ----------

  /** Job i beside job 2m - 3 - i, and the three jobs of weight m together. */
  function Better(m: nat, i: nat): (s: nat)
    requires m >= 1 && i <= 2 * m
    ensures s < m
  {
    if i < m - 1 then i else if i < 2 * m - 2 then 2 * m - 3 - i else m - 1
  }

  function BetterAssignment(m: nat): (a: seq<nat>)
    requires m >= 1
    ensures |a| == 2 * m + 1
  {
    seq(2 * m + 1, i requires 0 <= i <= 2 * m => Better(m, i))
  }

  function BetterLoad(m: nat, n: nat, s: nat): nat
    requires s < m && n <= 2 * m + 1
  {
    if s == m - 1 then (if n < 2 * m - 2 then 0 else n - (2 * m - 2)) * m
    else (if s < n then Weight(m, s) else 0) + if 2 * m - 3 - s < n then Weight(m, 2 * m - 3 - s) else 0
  }

  lemma BetterNext(m: nat, n: nat, s: nat)
    requires s < m && n <= 2 * m
    ensures BetterLoad(m, n + 1, s) == BetterLoad(m, n, s) + if s == Better(m, n) then Weight(m, n) else 0
  {
    if s == m - 1 && n >= 2 * m - 2 {
      assert n in {2 * m - 2, 2 * m - 1, 2 * m};
      assert Weight(m, n) == m;
      assert (n - (2 * m - 2) + 1) * m == (n - (2 * m - 2)) * m + m;
    }
  }

  lemma {:induction false} BetterLoads(m: nat, n: nat, s: nat)
    requires s < m && n <= 2 * m + 1
    ensures LoadOf(Jobs(m)[..n], BetterAssignment(m)[..n], s) == BetterLoad(m, n, s)
    decreases n
  {
    var w, a := Jobs(m), BetterAssignment(m);
    if n > 0 {
      BetterLoads(m, n - 1, s);
      assert w[..n] == w[..n - 1] + [Weight(m, n - 1)] && a[..n] == a[..n - 1] + [Better(m, n - 1)];
      LoadAppend(w[..n - 1], a[..n - 1], Weight(m, n - 1), Better(m, n - 1), s);
      BetterNext(m, n - 1, s);
    } else {
      assert (if s == m - 1 && n >= 2 * m - 2 then (n - (2 * m - 2)) * m else 0) == 0;
    }
  }

  lemma BetterFits(m: nat)
    requires m >= 1
    ensures Within(Jobs(m), BetterAssignment(m), m, 3 * m)
  {
    var w, a := Jobs(m), BetterAssignment(m);
    assert w[..2 * m + 1] == w && a[..2 * m + 1] == a;
    forall s: nat | s < m
      ensures LoadOf(w, a, s) <= 3 * m
    {
      BetterLoads(m, 2 * m + 1, s);
    }
  }

  /** The bound cannot be improved for any number of shards: on these jobs the greedy makespan is 4m - 1, while 3m
      would do. */
  lemma BoundIsReached(m: nat)
    requires m >= 1
    ensures LongestFirst(Jobs(m)) && Within(Jobs(m), BetterAssignment(m), m, 3 * m)
    ensures 3 * m * LoadOf(Jobs(m), Greedy(Jobs(m), m), 0) == (4 * m - 1) * (3 * m)
  {
    GreedyEnds(m);
    BetterFits(m);
  }
}
