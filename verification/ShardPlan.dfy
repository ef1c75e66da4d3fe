/** The partition that every continuous-integration runner computes for itself. */
module ShardPlan {
  import opened Wrappers
  import opened Scheduling
  import opened Sorting
  import opened Arithmetic

  /** One recorded duration, in tenths of a second. */
  datatype Timing = Timing(file: string, tenths: nat)

  ghost predicate DistinctFiles(timings: seq<Timing>) {
    forall i, j :: 0 <= i < j < |timings| ==> timings[i].file != timings[j].file
  }

  function Recorded(timings: seq<Timing>, file: string): Option<nat> {
    if timings == [] then None
    else if timings[0].file == file then Some(timings[0].tenths)
    else Recorded(timings[1..], file)
  }

  function Tenths(timings: seq<Timing>): (v: seq<nat>)
    ensures |v| == |timings|
  {
    seq(|timings|, i requires 0 <= i < |timings| => timings[i].tenths)
  }

  function ByValue(a: nat, b: nat): int {
    a - b
  }

  /** The weight of a file with no recorded time: the upper median, or one second when nothing is recorded. */
  function Fallback(timings: seq<Timing>): nat {
    var known := StableSort(ByValue, Tenths(timings));
    if |known| / 2 < |known| then known[|known| / 2] else 10
  }

  function Weight(timings: seq<Timing>, file: string): nat {
    Recorded(timings, file).GetOr(Fallback(timings))
  }

  /** Heavier first, ties by the locale's collation. */
  function LongestThenName(timings: seq<Timing>, collate: (string, string) -> int): (string, string) -> int {
    (a: string, b: string) =>
      var d := Weight(timings, b) - Weight(timings, a);
      if d != 0 then d else collate(a, b)
  }

  /** The order in which files are placed. The listing is first sorted by code units. */
  function PlacementOrder(listing: seq<string>, timings: seq<Timing>, collate: (string, string) -> int): seq<string> {
    StableSort(LongestThenName(timings, collate), StableSort(CompareCodeUnits, listing))
  }

  function Weights(timings: seq<Timing>, files: seq<string>): (w: seq<nat>)
    ensures |w| == |files|
  {
    seq(|files|, i requires 0 <= i < |files| => Weight(timings, files[i]))
  }

  /** The files that assignment `a` puts on shard s, in placement order. */
  function FilesOf(files: seq<string>, a: seq<nat>, s: nat): seq<string>
    requires |a| == |files|
  {
    if files == [] then []
    else
      var n := |files| - 1;
      FilesOf(files[..n], a[..n], s) + if a[n] == s then [files[n]] else []
  }

  datatype ShardView = ShardView(load: nat, files: seq<string>)

  /** Shard `index` of `total`, counted from 1, as one runner computes it. */
  function RunnerShard(listing: seq<string>, timings: seq<Timing>, collate: (string, string) -> int,
                       index: int, total: int): Result<ShardView, string>
  {
    if index < 1 || index > total then Failure("usage: bun scripts/vitest-shard.ts <index> <total>")
    else
      var files := PlacementOrder(listing, timings, collate);
      var w := Weights(timings, files);
      var a := Greedy(w, total);
      Success(ShardView(LoadOf(w, a, index - 1), FilesOf(files, a, index - 1)))
  }

  // ---------- the loop over mutable shards ----------

  class Shard {
    var load: nat
    var files: seq<string>

    constructor ()
      ensures load == 0 && files == []
    {
      load, files := 0, [];
    }
  }

  method EmptyShards(total: nat) returns (shards: array<Shard>)
    requires total >= 1
    ensures fresh(shards) && shards.Length == total
    ensures forall k :: 0 <= k < total ==> fresh(shards[k]) && shards[k].load == 0 && shards[k].files == []
    ensures Separate(shards)
  {
    var first := new Shard();
    shards := new Shard[total](_ => first);
    for n := 1 to total
      invariant forall k :: 0 <= k < total ==> fresh(shards[k]) && shards[k].load == 0 && shards[k].files == []
      invariant forall k :: n <= k < total ==> shards[k] == first
      invariant forall i, j :: 0 <= i < j < n ==> shards[i] != shards[j]
    {
      var shard := new Shard();
      shards[n] := shard;
    }
  }

  /** What one more placement changes, shard by shard. */
  lemma GreedyExtends(order: seq<string>, w: seq<nat>, i: nat, total: nat, k: nat)
    requires total >= 1 && |w| == |order| && i < |w|
    ensures var a := Greedy(w[..i], total);
            var b := Greedy(w[..i + 1], total);
            var min := LeastLoaded(w[..i], a, total);
            && LoadOf(w[..i + 1], b, k) == LoadOf(w[..i], a, k) + (if k == min then w[i] else 0)
            && FilesOf(order[..i + 1], b, k) == FilesOf(order[..i], a, k) + if k == min then [order[i]] else []
  {
    assert w[..i + 1][..i] == w[..i] && order[..i + 1][..i] == order[..i];
    assert Greedy(w[..i + 1], total)[..i] == Greedy(w[..i], total);
  }

  /** Shard k carries what assignment `a` of the weights w and the files gives it. */
  ghost predicate Carries(shards: array<Shard>, w: seq<nat>, files: seq<string>, a: seq<nat>)
    requires |w| == |files| == |a|
    reads shards, set k | 0 <= k < shards.Length :: shards[k]
  {
    forall k :: 0 <= k < shards.Length ==>
      shards[k].load == LoadOf(w, a, k) && shards[k].files == FilesOf(files, a, k)
  }

  ghost predicate Separate(shards: array<Shard>)
    reads shards
  {
    forall i, j :: 0 <= i < j < shards.Length ==> shards[i] != shards[j]
  }

  /** The first shard of least load. */
  method FindLeastLoaded(shards: array<Shard>, ghost w: seq<nat>, ghost files: seq<string>, ghost a: seq<nat>)
    returns (min: nat)
    requires shards.Length >= 1 && |w| == |files| == |a| && Carries(shards, w, files, a)
    ensures min < shards.Length && min == LeastLoaded(w, a, shards.Length)
  {
    min := 0;
    for k := 1 to shards.Length
      invariant min < shards.Length && min == LeastLoaded(w, a, k)
    {
      if shards[k].load < shards[min].load {
        min := k;
      }
    }
  }

  /** Longest first onto the least-loaded shard, updating the shard objects in place. */
  method PlaceFiles(order: seq<string>, w: seq<nat>, total: nat) returns (shards: array<Shard>)
    requires total >= 1 && |w| == |order|
    ensures fresh(shards) && shards.Length == total
    ensures Carries(shards, w, order, Greedy(w, total))
  {
    shards := EmptyShards(total);
    for i := 0 to |order|
      invariant forall k :: 0 <= k < total ==> fresh(shards[k])
      invariant Separate(shards)
      invariant Carries(shards, w[..i], order[..i], Greedy(w[..i], total))
    {
      var min := FindLeastLoaded(shards, w[..i], order[..i], Greedy(w[..i], total));
      var target := shards[min];
      label L:
      target.load := target.load + w[i];
      target.files := target.files + [order[i]];
      forall k | 0 <= k < total
        ensures shards[k].load == LoadOf(w[..i + 1], Greedy(w[..i + 1], total), k)
        ensures shards[k].files == FilesOf(order[..i + 1], Greedy(w[..i + 1], total), k)
      {
        GreedyExtends(order, w, i, total, k);
        assert k != min ==> shards[k] != target;
        assert old@L(shards[k].load) == LoadOf(w[..i], Greedy(w[..i], total), k);
      }
    }
    assert w[..|order|] == w && order[..|order|] == order;
  }

  /** What a runner computes before it starts its files. */
  method ComputeShard(listing: seq<string>, timings: seq<Timing>, collate: (string, string) -> int,
                      index: int, total: int) returns (mine: Result<ShardView, string>)
    ensures mine == RunnerShard(listing, timings, collate, index, total)
  {
    if index < 1 || index > total {
      return Failure("usage: bun scripts/vitest-shard.ts <index> <total>");
    }
    var files := PlacementOrder(listing, timings, collate);
    var w := Weights(timings, files);
    var shards := PlaceFiles(files, w, total);
    mine := Success(ShardView(shards[index - 1].load, shards[index - 1].files));
  }

  // ---------- the order of placement ----------

  lemma LongestThenNameIsComparator(timings: seq<Timing>, collate: (string, string) -> int)
    requires IsComparator(collate)
    ensures IsComparator(LongestThenName(timings, collate))
  {
  }

  ghost predicate CodeUnitLe(a: string, b: string) {
    CompareCodeUnits(a, b) <= 0
  }

  ghost function AnyTie<T>(): (T, T) -> bool {
    (a, b) => true
  }

  lemma PlacementOrderSorted(listing: seq<string>, timings: seq<Timing>, collate: (string, string) -> int)
    requires IsComparator(collate)
    ensures var files := PlacementOrder(listing, timings, collate);
            && multiset(files) == multiset(listing)
            && SortedBy(Then(LongestThenName(timings, collate), CodeUnitLe), files)
            && LongestFirst(Weights(timings, files))
  {
    var cmp := LongestThenName(timings, collate);
    LongestThenNameIsComparator(timings, collate);
    CodeUnitsIsComparator();
    var named := StableSort(CompareCodeUnits, listing);
    StableSortPermutes(CompareCodeUnits, listing);
    StableSortPermutes(cmp, named);
    StableSortSorts(CompareCodeUnits, AnyTie(), listing);
    assert SortedBy(CodeUnitLe, named) by {
      forall i, j | 0 <= i < j < |named|
        ensures CodeUnitLe(named[i], named[j])
      {
        assert Then(CompareCodeUnits, AnyTie())(named[i], named[j]);
      }
    }
    StableSortSorts(cmp, CodeUnitLe, named);
    var files := PlacementOrder(listing, timings, collate);
    forall i, j | 0 <= i < j < |files|
      ensures Weight(timings, files[i]) >= Weight(timings, files[j])
    {
      assert Then(cmp, CodeUnitLe)(files[i], files[j]);
    }
  }

  /** The collation may call different names equal; the code-unit pass still separates them. */
  lemma PlacedBeforeAntisymmetric(timings: seq<Timing>, collate: (string, string) -> int, a: string, b: string)
    requires IsComparator(collate)
    requires var le := Then(LongestThenName(timings, collate), CodeUnitLe); le(a, b) && le(b, a)
    ensures a == b
  {
    LongestThenNameIsComparator(timings, collate);
    CodeUnitsAntisymmetric(a, b);
  }

  // ---------- recorded timings do not depend on the order they are read in ----------

  lemma {:induction false} RecordedIsMembership(timings: seq<Timing>, file: string)
    requires DistinctFiles(timings)
    ensures forall t: nat :: Recorded(timings, file) == Some(t) <==> Timing(file, t) in timings
  {
    if timings != [] {
      RecordedIsMembership(timings[1..], file);
      forall t: nat
        ensures Recorded(timings, file) == Some(t) <==> Timing(file, t) in timings
      {
        assert Timing(file, t) in timings <==> timings[0] == Timing(file, t) || Timing(file, t) in timings[1..];
        if timings[0].file == file && Timing(file, t) in timings[1..] {
          assert false;
        }
      }
    }
  }

  lemma {:induction false} TenthsPermute(t1: seq<Timing>, t2: seq<Timing>)
    requires multiset(t1) == multiset(t2)
    ensures multiset(Tenths(t1)) == multiset(Tenths(t2))
  {
    SameLength(t1, t2);
    if t1 != [] {
      var k := Matching(t1, t2);
      TenthsPermute(t1[1..], t2[..k] + t2[k + 1..]);
      TenthsFirst(t1);
      TenthsRemoved(t2, k);
    }
  }

  lemma TenthsFirst(t: seq<Timing>)
    requires t != []
    ensures multiset(Tenths(t)) == multiset(Tenths(t[1..])) + multiset{t[0].tenths}
  {
    assert Tenths(t) == [t[0].tenths] + Tenths(t[1..]);
  }

  lemma TenthsRemoved(t: seq<Timing>, k: nat)
    requires k < |t|
    ensures multiset(Tenths(t)) == multiset(Tenths(t[..k] + t[k + 1..])) + multiset{t[k].tenths}
  {
    assert Tenths(t) == Tenths(t[..k]) + [t[k].tenths] + Tenths(t[k + 1..]);
    assert Tenths(t[..k] + t[k + 1..]) == Tenths(t[..k]) + Tenths(t[k + 1..]);
  }

  ghost predicate NatLe(a: nat, b: nat) {
    a <= b
  }

  lemma KnownSorted(timings: seq<Timing>)
    ensures var known := StableSort(ByValue, Tenths(timings));
            multiset(known) == multiset(Tenths(timings)) && SortedBy(NatLe, known) && |known| == |timings|
  {
    var known := StableSort(ByValue, Tenths(timings));
    StableSortPermutes(ByValue, Tenths(timings));
    StableSortSorts(ByValue, AnyTie(), Tenths(timings));
    forall i, j | 0 <= i < j < |known|
      ensures known[i] <= known[j]
    {
      assert Then(ByValue, AnyTie())(known[i], known[j]);
    }
    assert |multiset(known)| == |known| && |multiset(Tenths(timings))| == |timings|;
  }

  lemma FallbackIgnoresOrder(t1: seq<Timing>, t2: seq<Timing>)
    requires multiset(t1) == multiset(t2)
    ensures Fallback(t1) == Fallback(t2)
  {
    TenthsPermute(t1, t2);
    KnownSorted(t1);
    KnownSorted(t2);
    SortedUnique(NatLe, StableSort(ByValue, Tenths(t1)), StableSort(ByValue, Tenths(t2)));
  }

  lemma WeightIgnoresOrder(t1: seq<Timing>, t2: seq<Timing>, file: string)
    requires multiset(t1) == multiset(t2) && DistinctFiles(t1) && DistinctFiles(t2)
    ensures Weight(t1, file) == Weight(t2, file)
  {
    FallbackIgnoresOrder(t1, t2);
    RecordedIsMembership(t1, file);
    RecordedIsMembership(t2, file);
    forall x: Timing
      ensures x in t1 <==> x in t2
    {
      assert x in multiset(t1) <==> x in multiset(t2);
    }
    match Recorded(t1, file)
    case Some(t) =>
      assert Recorded(t2, file) == Some(t);
    case None =>
      forall t: nat
        ensures Recorded(t2, file) != Some(t)
      {
        assert Timing(file, t) in t1 <==> Timing(file, t) in t2;
      }
  }

  // ---------- same partition on every runner ----------

  /** The shard of a runner depends on which files and timings there are, never on the order they are listed in. */
  lemma SamePartitionOnEveryRunner(l1: seq<string>, l2: seq<string>, t1: seq<Timing>, t2: seq<Timing>,
                                   collate: (string, string) -> int, index: int, total: int)
    requires IsComparator(collate)
    requires multiset(l1) == multiset(l2)
    requires multiset(t1) == multiset(t2) && DistinctFiles(t1) && DistinctFiles(t2)
    ensures RunnerShard(l1, t1, collate, index, total) == RunnerShard(l2, t2, collate, index, total)
  {
    forall file
      ensures Weight(t1, file) == Weight(t2, file)
    {
      WeightIgnoresOrder(t1, t2, file);
    }
    var le := Then(LongestThenName(t1, collate), CodeUnitLe);
    PlacementOrderSorted(l1, t1, collate);
    PlacementOrderSorted(l2, t2, collate);
    var f1, f2 := PlacementOrder(l1, t1, collate), PlacementOrder(l2, t2, collate);
    assert SortedBy(le, f2) by {
      forall i, j | 0 <= i < j < |f2|
        ensures le(f2[i], f2[j])
      {
        assert Then(LongestThenName(t2, collate), CodeUnitLe)(f2[i], f2[j]);
      }
    }
    forall a, b | le(a, b) && le(b, a)
      ensures a == b
    {
      PlacedBeforeAntisymmetric(t1, collate, a, b);
    }
    SortedUnique(le, f1, f2);
    assert Weights(t1, f1) == Weights(t2, f2);
  }

  // ---------- the shards partition the files ----------

  /** The files of shards 0 to m - 1, one after the other. */
  function AllFiles(files: seq<string>, a: seq<nat>, m: nat): seq<string>
    requires |a| == |files|
  {
    if m == 0 then [] else AllFiles(files, a, m - 1) + FilesOf(files, a, m - 1)
  }

  function Occurrences(f: string, s: seq<string>): nat {
    multiset(s)[f]
  }

  lemma LastOccurrence(files: seq<string>, f: string)
    requires files != []
    ensures var n := |files| - 1;
            Occurrences(f, files) == Occurrences(f, files[..n]) + if files[n] == f then 1 else 0
  {
    assert files == files[..|files| - 1] + [files[|files| - 1]];
  }

  lemma FilesOfStep(files: seq<string>, a: seq<nat>, s: nat, f: string)
    requires |a| == |files| >= 1
    ensures var n := |files| - 1;
            Occurrences(f, FilesOf(files, a, s))
            == Occurrences(f, FilesOf(files[..n], a[..n], s)) + if a[n] == s && files[n] == f then 1 else 0
  {
  }

  lemma AllFilesSplit(files: seq<string>, a: seq<nat>, m: nat, f: string)
    requires |a| == |files| && m > 0
    ensures Occurrences(f, AllFiles(files, a, m))
         == Occurrences(f, AllFiles(files, a, m - 1)) + Occurrences(f, FilesOf(files, a, m - 1))
  {
  }

  lemma {:induction false} AllFilesStep(files: seq<string>, a: seq<nat>, m: nat, f: string)
    requires |a| == |files| >= 1
    ensures var n := |files| - 1;
            Occurrences(f, AllFiles(files, a, m))
            == Occurrences(f, AllFiles(files[..n], a[..n], m)) + if a[n] < m && files[n] == f then 1 else 0
  {
    hide FilesOf, AllFiles, Occurrences;
    var files', a' := files[..|files| - 1], a[..|files| - 1];
    if m == 0 {
      NoShards(files, a, f);
      NoShards(files', a', f);
    } else {
      AllFilesStep(files, a, m - 1, f);
      FilesOfStep(files, a, m - 1, f);
      AllFilesSplit(files, a, m, f);
      AllFilesSplit(files', a', m, f);
    }
  }

  lemma NoShards(files: seq<string>, a: seq<nat>, f: string)
    requires |a| == |files|
    ensures Occurrences(f, AllFiles(files, a, 0)) == 0
  {
  }

  lemma {:induction false} NoFiles(a: seq<nat>, m: nat)
    requires a == []
    ensures AllFiles([], a, m) == []
  {
    if m > 0 {
      NoFiles(a, m - 1);
    }
  }

  lemma {:induction false} EveryFileCounted(files: seq<string>, a: seq<nat>, m: nat, f: string)
    requires IsAssignment(a, |files|, m)
    ensures Occurrences(f, AllFiles(files, a, m)) == Occurrences(f, files)
  {
    if files == [] {
      NoFiles(a, m);
    } else {
      hide AllFiles, Occurrences;
      var n := |files| - 1;
      AllFilesStep(files, a, m, f);
      EveryFileCounted(files[..n], a[..n], m, f);
      LastOccurrence(files, f);
    }
  }

  /** The shards together hold every file as often as the list does. */
  lemma EveryFileOnce(files: seq<string>, a: seq<nat>, m: nat)
    requires IsAssignment(a, |files|, m)
    ensures multiset(AllFiles(files, a, m)) == multiset(files)
  {
    forall f
      ensures multiset(AllFiles(files, a, m))[f] == multiset(files)[f]
    {
      EveryFileCounted(files, a, m, f);
      assert Occurrences(f, AllFiles(files, a, m)) == Occurrences(f, files);
    }
  }

  lemma {:induction false} FilesOfMembers(files: seq<string>, a: seq<nat>, s: nat, f: string)
    requires |a| == |files|
    ensures f in FilesOf(files, a, s) <==> exists i :: 0 <= i < |files| && files[i] == f && a[i] == s
  {
    if files != [] {
      var n := |files| - 1;
      FilesOfMembers(files[..n], a[..n], s, f);
      if f in FilesOf(files[..n], a[..n], s) {
        var i :| 0 <= i < n && files[..n][i] == f && a[..n][i] == s;
        assert files[i] == f && a[i] == s;
      }
      if i :| 0 <= i < |files| && files[i] == f && a[i] == s {
        if i < n {
          assert files[..n][i] == f && a[..n][i] == s;
        }
      }
    }
  }

  lemma {:induction false} LoadIsSumOfFiles(timings: seq<Timing>, files: seq<string>, a: seq<nat>, s: nat)
    requires |a| == |files|
    ensures LoadOf(Weights(timings, files), a, s) == Sum(Weights(timings, FilesOf(files, a, s)))
  {
    if files != [] {
      var n := |files| - 1;
      LoadIsSumOfFiles(timings, files[..n], a[..n], s);
      assert Weights(timings, files)[..n] == Weights(timings, files[..n]);
      var rest := FilesOf(files[..n], a[..n], s);
      if a[n] == s {
        assert Weights(timings, rest + [files[n]])[..|rest|] == Weights(timings, rest);
      } else {
        assert rest + [] == rest;
      }
    }
  }

  /** The shards that the runners 1 to `total` compute, together. */
  function RunnerFiles(listing: seq<string>, timings: seq<Timing>, collate: (string, string) -> int,
                       upTo: nat, total: nat): seq<string>
    requires upTo <= total
  {
    if upTo == 0 then []
    else RunnerFiles(listing, timings, collate, upTo - 1, total)
         + RunnerShard(listing, timings, collate, upTo, total).value.files
  }

  lemma {:induction false} RunnerFilesAreAllFiles(listing: seq<string>, timings: seq<Timing>,
                                                  collate: (string, string) -> int, upTo: nat, total: nat)
    requires upTo <= total && total >= 1
    ensures var files := PlacementOrder(listing, timings, collate);
            RunnerFiles(listing, timings, collate, upTo, total)
            == AllFiles(files, Greedy(Weights(timings, files), total), upTo)
  {
    if upTo > 0 {
      RunnerFilesAreAllFiles(listing, timings, collate, upTo - 1, total);
    }
  }

  /** Together the runners execute exactly the listed files, each as often as it is listed. */
  lemma RunnersCoverTheListing(listing: seq<string>, timings: seq<Timing>,
                               collate: (string, string) -> int, total: nat)
    requires IsComparator(collate) && total >= 1
    ensures multiset(RunnerFiles(listing, timings, collate, total, total)) == multiset(listing)
  {
    var files := PlacementOrder(listing, timings, collate);
    PlacementOrderSorted(listing, timings, collate);
    RunnerFilesAreAllFiles(listing, timings, collate, total, total);
    EveryFileOnce(files, Greedy(Weights(timings, files), total), total);
  }

  /** The load that a runner reports is the sum over its own files. */
  lemma RunnerLoadIsItsFiles(listing: seq<string>, timings: seq<Timing>,
                             collate: (string, string) -> int, index: int, total: int)
    ensures var shard := RunnerShard(listing, timings, collate, index, total);
            && (shard.Success? <==> 1 <= index <= total)
            && (shard.Success? ==> shard.value.load == Sum(Weights(timings, shard.value.files)))
  {
    if 1 <= index <= total {
      var files := PlacementOrder(listing, timings, collate);
      LoadIsSumOfFiles(timings, files, Greedy(Weights(timings, files), total), index - 1);
    }
  }

  /** No listed file is executed by two runners. */
  lemma RunnersAreDisjoint(listing: seq<string>, timings: seq<Timing>,
                           collate: (string, string) -> int, i: int, j: int, total: int, f: string)
    requires IsComparator(collate) && 1 <= i <= total && 1 <= j <= total
    requires forall p, q :: 0 <= p < q < |listing| ==> listing[p] != listing[q]
    requires f in RunnerShard(listing, timings, collate, i, total).value.files
    requires f in RunnerShard(listing, timings, collate, j, total).value.files
    ensures i == j
  {
    var files := PlacementOrder(listing, timings, collate);
    var a := Greedy(Weights(timings, files), total);
    PlacementOrderSorted(listing, timings, collate);
    DistinctPermutes(listing, files);
    hide PlacementOrder, Greedy, Weights, FilesOf;
    FilesOfMembers(files, a, i - 1, f);
    FilesOfMembers(files, a, j - 1, f);
  }

  lemma {:induction false} DistinctCounts(s: seq<string>)
    ensures (forall p, q :: 0 <= p < q < |s| ==> s[p] != s[q]) <==> forall f :: f in multiset(s) ==> multiset(s)[f] == 1
  {
    if s != [] {
      var n := |s| - 1;
      DistinctCounts(s[..n]);
      assert s == s[..n] + [s[n]];
      assert multiset(s) == multiset(s[..n]) + multiset{s[n]};
      if forall f :: f in multiset(s) ==> multiset(s)[f] == 1 {
        assert s[n] !in multiset(s[..n]) by {
          assert multiset(s)[s[n]] == 1;
        }
        forall f | f in multiset(s[..n])
          ensures multiset(s[..n])[f] == 1
        {
          assert f in multiset(s);
        }
        forall p, q | 0 <= p < q < |s|
          ensures s[p] != s[q]
        {
          if q == n {
            assert s[..n][p] in multiset(s[..n]);
          } else {
            assert s[..n][p] != s[..n][q];
          }
        }
      }
      if forall p, q :: 0 <= p < q < |s| ==> s[p] != s[q] {
        assert s[n] !in s[..n];
      }
    }
  }

  lemma DistinctPermutes(s: seq<string>, t: seq<string>)
    requires multiset(s) == multiset(t)
    requires forall p, q :: 0 <= p < q < |s| ==> s[p] != s[q]
    ensures forall p, q :: 0 <= p < q < |t| ==> t[p] != t[q]
  {
    DistinctCounts(s);
    DistinctCounts(t);
  }

  /** The fullest shard of the plan against any other way to spread the same files. */
  lemma PlanIsNearlyOptimal(listing: seq<string>, timings: seq<Timing>, collate: (string, string) -> int,
                            index: int, total: nat, best: seq<nat>, makespan: nat)
    requires IsComparator(collate) && 1 <= index <= total
    requires Within(Weights(timings, PlacementOrder(listing, timings, collate)), best, total, makespan)
    ensures 3 * total * RunnerShard(listing, timings, collate, index, total).value.load <= (4 * total - 1) * makespan
  {
    PlacementOrderSorted(listing, timings, collate);
    LongestFirstBound(Weights(timings, PlacementOrder(listing, timings, collate)), total, best, makespan, index - 1);
  }

  // ---------- the fallback is a median ----------

  function CountAtMost(s: seq<nat>, v: nat): nat {
    if s == [] then 0 else CountAtMost(s[1..], v) + if s[0] <= v then 1 else 0
  }

  function CountAtLeast(s: seq<nat>, v: nat): nat {
    if s == [] then 0 else CountAtLeast(s[1..], v) + if s[0] >= v then 1 else 0
  }

  lemma {:induction false} CountsSplit(s: seq<nat>, t: seq<nat>, v: nat)
    ensures CountAtMost(s + t, v) == CountAtMost(s, v) + CountAtMost(t, v)
    ensures CountAtLeast(s + t, v) == CountAtLeast(s, v) + CountAtLeast(t, v)
  {
    if s == [] {
      assert s + t == t;
    } else {
      CountsSplit(s[1..], t, v);
      assert (s + t)[1..] == s[1..] + t;
    }
  }

  lemma {:induction false} CountsPermute(s: seq<nat>, t: seq<nat>, v: nat)
    requires multiset(s) == multiset(t)
    ensures CountAtMost(s, v) == CountAtMost(t, v) && CountAtLeast(s, v) == CountAtLeast(t, v)
  {
    SameLength(s, t);
    if s != [] {
      var k := Matching(s, t);
      CountsPermute(s[1..], t[..k] + t[k + 1..], v);
      assert t == t[..k] + ([t[k]] + t[k + 1..]);
      CountsSplit(t[..k], [t[k]] + t[k + 1..], v);
      CountsSplit(t[..k], t[k + 1..], v);
      assert ([t[k]] + t[k + 1..])[1..] == t[k + 1..];
    }
  }

  lemma {:induction false} CountsOfUniform(s: seq<nat>, v: nat)
    ensures (forall i :: 0 <= i < |s| ==> s[i] <= v) ==> CountAtMost(s, v) == |s|
    ensures (forall i :: 0 <= i < |s| ==> s[i] >= v) ==> CountAtLeast(s, v) == |s|
  {
    if s != [] {
      CountsOfUniform(s[1..], v);
    }
  }

  /** With any recorded times, more than half of them are at most the fallback and at least half are at least it. */
  lemma FallbackIsMedian(timings: seq<Timing>)
    requires timings != []
    ensures 2 * CountAtMost(Tenths(timings), Fallback(timings)) > |timings|
    ensures 2 * CountAtLeast(Tenths(timings), Fallback(timings)) >= |timings|
  {
    var known := StableSort(ByValue, Tenths(timings));
    KnownSorted(timings);
    var h := |known| / 2;
    CountsPermute(known, Tenths(timings), known[h]);
    MiddleOfSorted(known, h);
  }

  lemma MiddleOfSorted(known: seq<nat>, h: nat)
    requires SortedBy(NatLe, known) && h < |known|
    ensures CountAtMost(known, known[h]) >= h + 1 && CountAtLeast(known, known[h]) >= |known| - h
  {
    assert forall i :: 0 <= i < h ==> NatLe(known[i], known[h]);
    assert forall i :: h < i < |known| ==> NatLe(known[h], known[i]);
    LowerPart(known, h + 1, known[h]);
    UpperPart(known, h, known[h]);
  }

  lemma LowerPart(s: seq<nat>, k: nat, v: nat)
    requires k <= |s| && forall i :: 0 <= i < k ==> s[i] <= v
    ensures CountAtMost(s, v) >= k
  {
    assert s == s[..k] + s[k..];
    CountsSplit(s[..k], s[k..], v);
    CountsOfUniform(s[..k], v);
  }

  lemma UpperPart(s: seq<nat>, k: nat, v: nat)
    requires k <= |s| && forall i :: k <= i < |s| ==> s[i] >= v
    ensures CountAtLeast(s, v) >= |s| - k
  {
    assert s == s[..k] + s[k..];
    CountsSplit(s[..k], s[k..], v);
    CountsOfUniform(s[k..], v);
  }

  lemma {:induction false} CountsApart(s: seq<nat>, v: nat, w: nat)
    requires v < w
    ensures CountAtMost(s, v) + CountAtLeast(s, w) <= |s|
  {
    if s != [] {
      CountsApart(s[1..], v, w);
    }
  }

  // ---------- what a file counts for ----------

  /** The upper median of the recorded times, or one second when there are none. */
  predicate IsFallback(timings: seq<Timing>, t: nat) {
    if timings == [] then t == 10
    else
      && t in Tenths(timings)
      && 2 * CountAtMost(Tenths(timings), t) > |timings| && 2 * CountAtLeast(Tenths(timings), t) >= |timings|
  }

  lemma FallbackExactly(timings: seq<Timing>, t: nat)
    ensures IsFallback(timings, t) <==> t == Fallback(timings)
  {
    var f := Fallback(timings);
    if timings == [] {
      assert StableSort(ByValue, Tenths(timings)) == [];
    } else {
      FallbackIsMedian(timings);
      FallbackIsRecorded(timings);
      if IsFallback(timings, t) && t != f {
        CountsApart(Tenths(timings), Min(t, f), Max(t, f));
        assert false;
      }
    }
  }

  lemma FallbackIsRecorded(timings: seq<Timing>)
    requires timings != []
    ensures Fallback(timings) in Tenths(timings)
  {
    KnownSorted(timings);
    var known := StableSort(ByValue, Tenths(timings));
    assert Fallback(timings) in multiset(known);
  }

  /** A recorded time counts as it is; a file without one counts as much as the fallback. */
  ghost predicate CountsFor(timings: seq<Timing>, file: string, t: nat) {
    || Timing(file, t) in timings
    || ((forall u: nat :: Timing(file, u) !in timings) && IsFallback(timings, t))
  }

  lemma CountsForExactly(timings: seq<Timing>, file: string, t: nat)
    requires DistinctFiles(timings)
    ensures CountsFor(timings, file, t) <==> t == Weight(timings, file)
  {
    RecordedIsMembership(timings, file);
    FallbackExactly(timings, t);
    hide Recorded, Fallback, IsFallback;
    if Recorded(timings, file).Some? {
      assert Timing(file, Recorded(timings, file).value) in timings;
    }
  }

  ghost predicate IsTimes(timings: seq<Timing>, files: seq<string>, times: seq<nat>) {
    |times| == |files| && forall i :: 0 <= i < |files| ==> CountsFor(timings, files[i], times[i])
  }

  /** The weights that the partition balances are the times that count. */
  lemma WeightsAreTimes(timings: seq<Timing>, files: seq<string>, times: seq<nat>)
    requires DistinctFiles(timings)
    ensures IsTimes(timings, files, times) <==> times == Weights(timings, files)
  {
    hide CountsFor, Weight;
    forall i, t | 0 <= i < |files|
      ensures CountsFor(timings, files[i], t) <==> t == Weight(timings, files[i])
    {
      CountsForExactly(timings, files[i], t);
    }
    if IsTimes(timings, files, times) {
      assert times == Weights(timings, files);
    }
  }

  /** The load that a runner reports is the sum of the times its own files count for, of which there is one for each. */
  lemma RunnerLoadIsRecorded(listing: seq<string>, timings: seq<Timing>, collate: (string, string) -> int,
                             index: int, total: int)
    requires DistinctFiles(timings) && 1 <= index <= total
    ensures var shard := RunnerShard(listing, timings, collate, index, total).value;
            && (exists times :: IsTimes(timings, shard.files, times))
            && forall times :: IsTimes(timings, shard.files, times) ==> shard.load == Sum(times)
  {
    RunnerLoadIsItsFiles(listing, timings, collate, index, total);
    var shard := RunnerShard(listing, timings, collate, index, total).value;
    hide RunnerShard, IsTimes, Weights;
    WeightsAreTimes(timings, shard.files, Weights(timings, shard.files));
    forall times | IsTimes(timings, shard.files, times)
      ensures shard.load == Sum(times)
    {
      WeightsAreTimes(timings, shard.files, times);
    }
  }

  /** Of two files a runner gets, the earlier one counts for more, or for the same and is first by collation, or is not
      later by collation and first by code units. */
  lemma RunnerTakesLongestFirst(listing: seq<string>, timings: seq<Timing>, collate: (string, string) -> int,
                                index: int, total: int, i: nat, j: nat, s: nat, t: nat)
    requires IsComparator(collate) && DistinctFiles(timings) && 1 <= index <= total
    requires var files := RunnerShard(listing, timings, collate, index, total).value.files;
             i < j < |files| && CountsFor(timings, files[i], s) && CountsFor(timings, files[j], t)
    ensures var files := RunnerShard(listing, timings, collate, index, total).value.files;
            || s > t
            || (s == t && collate(files[i], files[j]) < 0)
            || (s == t && collate(files[i], files[j]) == 0 && CompareCodeUnits(files[i], files[j]) <= 0)
  {
    var order := PlacementOrder(listing, timings, collate);
    var a := Greedy(Weights(timings, order), total);
    var files := FilesOf(order, a, index - 1);
    hide Greedy, Weights, CountsFor, Weight;
    var p, q := PlacedInOrder(order, a, index - 1, i, j);
    PlacementOrderSorted(listing, timings, collate);
    assert Then(LongestThenName(timings, collate), CodeUnitLe)(order[p], order[q]);
    CountsForExactly(timings, files[i], s);
    CountsForExactly(timings, files[j], t);
    assert files == RunnerShard(listing, timings, collate, index, total).value.files;
    assert LongestThenName(timings, collate)(order[p], order[q])
        == if s != t then t - s else collate(files[i], files[j]);
  }

  /** A shard holds its files in the order of placement. */
  lemma {:induction false} PlacedInOrder(files: seq<string>, a: seq<nat>, s: nat, i: nat, j: nat)
    returns (p: nat, q: nat)
    requires |a| == |files| && i < j < |FilesOf(files, a, s)|
    ensures p < q < |files| && files[p] == FilesOf(files, a, s)[i] && files[q] == FilesOf(files, a, s)[j]
  {
    var n := |files| - 1;
    var before := FilesOf(files[..n], a[..n], s);
    if j < |before| {
      p, q := PlacedInOrder(files[..n], a[..n], s, i, j);
    } else {
      p := PlacedAt(files[..n], a[..n], s, i);
      q := n;
    }
  }

  lemma {:induction false} PlacedAt(files: seq<string>, a: seq<nat>, s: nat, i: nat) returns (p: nat)
    requires |a| == |files| && i < |FilesOf(files, a, s)|
    ensures p < |files| && files[p] == FilesOf(files, a, s)[i]
  {
    var n := |files| - 1;
    if i < |FilesOf(files[..n], a[..n], s)| {
      p := PlacedAt(files[..n], a[..n], s, i);
    } else {
      p := n;
    }
  }
}
