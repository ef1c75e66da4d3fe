/** Subscription time. */
module SubscriptionClock {
  // In milliseconds: renewals, traffic periods, days left and reminder points.
  import opened Wrappers
  import opened Arithmetic

  const DAY_MS: int := 86_400_000
  const TRAFFIC_PERIOD_MS: int := 30 * DAY_MS

  // ---------- renewals ----------

  function ExtendExpiry(expiresAt: Option<int>, now: int, days: int): int {
    Max(now, expiresAt.GetOr(now)) + days * DAY_MS
  }

  datatype Renewal = Renewal(at: int, days: nat)

  /** The expiry after a run of renewals, each read from the expiry the one before left. */
  function Expiry(start: Option<int>, run: seq<Renewal>): Option<int> {
    if run == [] then start
    else
      var last := run[|run| - 1];
      Some(ExtendExpiry(Expiry(start, run[..|run| - 1]), last.at, last.days))
  }

  /** The days bought from renewal i on, in milliseconds. */
  function Bought(run: seq<Renewal>, i: nat): (ms: nat)
    requires i <= |run|
    decreases |run|
  {
    if i == |run| then 0 else Bought(run[..|run| - 1], i) + run[|run| - 1].days * DAY_MS
  }

  /** The times the expiry cannot be earlier than: the start plus everything bought, and each renewal's own time
      plus everything bought from it on. */
  ghost predicate Promised(start: Option<int>, run: seq<Renewal>, time: int) {
    || (start.Some? && time == start.value + Bought(run, 0))
    || exists i: nat :: IsPromise(run, i, time)
  }

  predicate IsPromise(run: seq<Renewal>, i: nat, time: int) {
    i < |run| && time == run[i].at + Bought(run, i)
  }

  lemma PromisesGrow(start: Option<int>, run: seq<Renewal>, time: int)
    requires run != []
    ensures var last := run[|run| - 1];
            Promised(start, run, time) <==>
              || Promised(start, run[..|run| - 1], time - last.days * DAY_MS)
              || time == last.at + last.days * DAY_MS
  {
    var n := |run| - 1;
    var added := run[n].days * DAY_MS;
    var earlier := time - added;
    if Promised(start, run, time) && !(start.Some? && time == start.value + Bought(run, 0)) {
      var i: nat :| IsPromise(run, i, time);
      assert i < n ==> IsPromise(run[..n], i, earlier);
    }
    if exists i: nat :: IsPromise(run[..n], i, earlier) {
      var i: nat :| IsPromise(run[..n], i, earlier);
      assert IsPromise(run, i, time);
    }
    if time == run[n].at + added {
      assert Bought(run, n) == Bought(run[..n], n) + added;
      assert IsPromise(run, n, time);
    }
  }

  /** Whatever the order of the renewals' times, the expiry is the latest of the promised times. */
  lemma {:induction false} ExpiryIsLatestPromise(start: Option<int>, run: seq<Renewal>, time: int)
    ensures Expiry(start, run).Some? <==> start.Some? || run != []
    ensures Expiry(start, run).Some? ==> Promised(start, run, Expiry(start, run).value)
    ensures Promised(start, run, time) ==> Expiry(start, run).Some? && time <= Expiry(start, run).value
    decreases |run|
  {
    if run != [] {
      var n := |run| - 1;
      var added := run[n].days * DAY_MS;
      ExpiryIsLatestPromise(start, run[..n], time - added);
      PromisesGrow(start, run, time);
      PromisesGrow(start, run, Expiry(start, run).value);
    }
  }

  /** No renewal came after the expiry it extends. */
  ghost predicate NeverLapsed(start: int, run: seq<Renewal>) {
    forall i :: 0 <= i < |run| ==> run[i].at <= Expiry(Some(start), run[..i]).GetOr(start)
  }

  lemma PrefixOfPrefix<T>(s: seq<T>, k: nat)
    requires k < |s|
    ensures forall i :: 0 <= i <= k ==> s[..k][..i] == s[..i]
  {
  }

  /** Nothing bought is ever lost, and the expiry is the start plus what was bought exactly when it never lapsed. */
  lemma {:induction false} ExpiryIsTheSum(start: int, run: seq<Renewal>)
    ensures Expiry(Some(start), run).Some?
    ensures Expiry(Some(start), run).value >= start + Bought(run, 0)
    ensures Expiry(Some(start), run).value == start + Bought(run, 0) <==> NeverLapsed(start, run)
  {
    if run != [] {
      var n := |run| - 1;
      ExpiryIsTheSum(start, run[..n]);
      PrefixOfPrefix(run, n);
      if NeverLapsed(start, run) {
        assert forall i :: 0 <= i < n ==> run[..n][i] == run[i];
        assert NeverLapsed(start, run[..n]);
      }
      if NeverLapsed(start, run[..n]) && run[n].at <= Expiry(Some(start), run[..n]).value {
        forall i | 0 <= i < |run|
          ensures run[i].at <= Expiry(Some(start), run[..i]).GetOr(start)
        {
          assert i < n ==> run[..n][i] == run[i] && run[..n][..i] == run[..i];
        }
      }
    }
  }

  /** The stretch of time that renewal i pays for. */
  function PaidFrom(start: Option<int>, run: seq<Renewal>, i: nat): int
    requires i < |run|
  {
    Max(run[i].at, Expiry(start, run[..i]).GetOr(run[i].at))
  }

  function PaidUntil(start: Option<int>, run: seq<Renewal>, i: nat): int
    requires i < |run|
  {
    Expiry(start, run[..i + 1]).GetOr(0)
  }

  /** Each renewal pays for a stretch of exactly its own days that starts no earlier than the renewal and
      not before the stretch of any renewal before it has ended: renewing never shortens the expiry. */
  lemma {:induction false} PaidStretchesDoNotOverlap(start: Option<int>, run: seq<Renewal>, i: nat, j: nat)
    requires i <= j < |run|
    ensures PaidUntil(start, run, j) == PaidFrom(start, run, j) + run[j].days * DAY_MS
    ensures PaidFrom(start, run, j) >= run[j].at
    ensures i < j ==> PaidUntil(start, run, i) <= PaidFrom(start, run, j)
    ensures start.Some? ==> start.value <= PaidUntil(start, run, i) <= PaidUntil(start, run, j)
    decreases j
  {
    assert run[..j + 1][..j] == run[..j];
    if j > 0 {
      assert run[..j][..j - 1] == run[..j - 1];
      PaidStretchesDoNotOverlap(start, run, if i < j then i else j - 1, j - 1);
    }
  }

  /** Buying days in one piece or in several at the same moment comes to the same expiry. */
  lemma SplitPurchases(expiresAt: Option<int>, now: int, a: nat, b: nat)
    ensures ExtendExpiry(Some(ExtendExpiry(expiresAt, now, a)), now, b) == ExtendExpiry(expiresAt, now, a + b)
  {
    assert a * DAY_MS >= 0;
  }

  // ---------- renewals that overlap ----------

  /** A renewal reads the expiry, and writes one computed from it later, whatever is stored by then: `read` counts the
      writes that it had seen. */
  datatype Write = Write(renewal: Renewal, read: nat)

  type Writes = writes: seq<Write> | forall i :: 0 <= i < |writes| ==> writes[i].read <= i

  function Stored(start: Option<int>, writes: Writes): Option<int>
    decreases |writes|
  {
    if writes == [] then start
    else
      var last := writes[|writes| - 1];
      Some(ExtendExpiry(Stored(start, writes[..last.read]), last.renewal.at, last.renewal.days))
  }

  function Renewals(writes: seq<Write>): seq<Renewal> {
    if writes == [] then [] else Renewals(writes[..|writes| - 1]) + [writes[|writes| - 1].renewal]
  }

  /** The renewals that the last write builds on, by way of what it read. */
  function BuiltOn(writes: Writes): seq<Renewal>
    decreases |writes|
  {
    if writes == [] then []
    else
      var last := writes[|writes| - 1];
      BuiltOn(writes[..last.read]) + [last.renewal]
  }

  /** The stored expiry is what those renewals come to; the others are lost. */
  lemma {:induction false} StoredIsBuiltOn(start: Option<int>, writes: Writes)
    ensures Stored(start, writes) == Expiry(start, BuiltOn(writes))
    decreases |writes|
  {
    if writes != [] {
      var last := writes[|writes| - 1];
      StoredIsBuiltOn(start, writes[..last.read]);
      var before := BuiltOn(writes[..last.read]);
      assert (before + [last.renewal])[..|before|] == before;
    }
  }

  /** What the last write read is stored still, or both that and what is stored now lie in the past. */
  predicate ReadsCurrent(start: Option<int>, writes: Writes)
    requires writes != []
  {
    var last := writes[|writes| - 1];
    var read, stored := Stored(start, writes[..last.read]), Stored(start, writes[..|writes| - 1]);
    var at := last.renewal.at;
    read == stored || (read.GetOr(at) <= at && stored.GetOr(at) <= at)
  }

  /** Now and after every write before. */
  predicate CountsAll(start: Option<int>, writes: Writes)
    decreases |writes|
  {
    && Stored(start, writes) == Expiry(start, Renewals(writes))
    && (writes != [] ==> CountsAll(start, writes[..|writes| - 1]))
  }

  predicate AllReadCurrent(start: Option<int>, writes: Writes)
    decreases |writes|
  {
    writes != [] ==> ReadsCurrent(start, writes) && AllReadCurrent(start, writes[..|writes| - 1])
  }

  /** However renewals overlap: the stored expiry always counts every renewal so far exactly when each of them read
      what was stored as it wrote, or both had run out by then. */
  lemma {:induction false} OverlapCountsAll(start: Option<int>, writes: Writes)
    ensures CountsAll(start, writes) <==> AllReadCurrent(start, writes)
    decreases |writes|
  {
    if writes != [] {
      OverlapCountsAll(start, writes[..|writes| - 1]);
      if CountsAll(start, writes[..|writes| - 1]) {
        OneWrite(start, writes);
      }
    }
  }

  lemma OneWrite(start: Option<int>, writes: Writes)
    requires writes != []
    requires Stored(start, writes[..|writes| - 1]) == Expiry(start, Renewals(writes[..|writes| - 1]))
    ensures Stored(start, writes) == Expiry(start, Renewals(writes)) <==> ReadsCurrent(start, writes)
  {
    var last, all := writes[|writes| - 1], Renewals(writes[..|writes| - 1]);
    assert (all + [last.renewal])[..|all|] == all;
  }

  /** Two renewals in time that both read before either writes: all the days of the first one are lost. */
  lemma FirstOfTwoIsLost(start: int, first: Renewal, second: Renewal)
    requires first.at <= start && second.at <= start
    ensures Stored(Some(start), [Write(first, 0), Write(second, 0)]) == Some(start + second.days * DAY_MS)
    ensures Expiry(Some(start), [first, second]) == Some(start + first.days * DAY_MS + second.days * DAY_MS)
  {
    assert [Write(first, 0), Write(second, 0)][..0] == [];
    var both := [first, second];
    assert both[..1] == [first] && [first][..0] == [];
    assert Expiry(Some(start), both[..1]) == Some(start + first.days * DAY_MS);
    assert first.days * DAY_MS >= 0;
  }

  // ---------- traffic periods ----------

  /** Math.floor of the quotient: Dafny's division rounds down for a positive divisor. */
  function TrafficPeriodStart(activatedAt: int, now: int): int {
    if now <= activatedAt then activatedAt
    else activatedAt + (now - activatedAt) / TRAFFIC_PERIOD_MS * TRAFFIC_PERIOD_MS
  }

  predicate IsPeriodStart(activatedAt: int, k: nat, start: int) {
    start == activatedAt + k * TRAFFIC_PERIOD_MS
  }

  /** The periods [start, start + 30 days) counted from activation tile all time from activation on: every moment
      lies in exactly one, and the function names its start. */
  lemma PeriodsTile(activatedAt: int, now: int, start: int)
    requires now >= activatedAt
    ensures start == TrafficPeriodStart(activatedAt, now) <==>
              (exists k: nat :: IsPeriodStart(activatedAt, k, start)) && start <= now < start + TRAFFIC_PERIOD_MS
  {
    var gap := now - activatedAt;
    assert IsPeriodStart(activatedAt, gap / TRAFFIC_PERIOD_MS, TrafficPeriodStart(activatedAt, now)) by {
      QuotientUnique(gap, TRAFFIC_PERIOD_MS, gap / TRAFFIC_PERIOD_MS, gap % TRAFFIC_PERIOD_MS);
    }
    if (exists k: nat :: IsPeriodStart(activatedAt, k, start)) && start <= now < start + TRAFFIC_PERIOD_MS {
      var k: nat :| IsPeriodStart(activatedAt, k, start);
      QuotientUnique(gap, TRAFFIC_PERIOD_MS, k, now - start);
    }
  }

  /** Until activation the first period is meant. */
  lemma FirstPeriod(activatedAt: int, now: int)
    requires now < activatedAt + TRAFFIC_PERIOD_MS
    ensures TrafficPeriodStart(activatedAt, now) == activatedAt
  {
  }

  /** The end of one period is the start of the next. */
  lemma PeriodsAbut(activatedAt: int, now: int)
    ensures var end := TrafficPeriodStart(activatedAt, now) + TRAFFIC_PERIOD_MS;
            TrafficPeriodStart(activatedAt, end) == end
  {
    var at := Max(activatedAt, now);
    var start := TrafficPeriodStart(activatedAt, at);
    PeriodsTile(activatedAt, at, start);
    var k: nat :| IsPeriodStart(activatedAt, k, start);
    assert IsPeriodStart(activatedAt, k + 1, start + TRAFFIC_PERIOD_MS);
    PeriodsTile(activatedAt, start + TRAFFIC_PERIOD_MS, start + TRAFFIC_PERIOD_MS);
  }

  // ---------- reminders ----------

  const REMINDER_POINTS: seq<int> := [7, 5, 3]

  /** A point is reached when no more than that many days are left. */
  predicate Reached(point: int, expiresAt: int, now: int) {
    expiresAt - point * DAY_MS <= now
  }

  /** The nearest point reached, as long as the subscription has not expired. */
  predicate IsDue(due: Option<int>, expiresAt: int, now: int) {
    match due
    case None => expiresAt <= now || forall point :: point in REMINDER_POINTS ==> !Reached(point, expiresAt, now)
    case Some(p) =>
      && now < expiresAt
      && p in REMINDER_POINTS && Reached(p, expiresAt, now)
      && forall point :: point in REMINDER_POINTS && Reached(point, expiresAt, now) ==> p <= point
  }

  method DueReminderPoint(expiresAt: int, now: int) returns (due: Option<int>)
    ensures IsDue(due, expiresAt, now)
  {
    if expiresAt <= now {
      return None;
    }
    due := None;
    for i := 0 to |REMINDER_POINTS|
      invariant due.None? ==> forall j :: 0 <= j < i ==> !Reached(REMINDER_POINTS[j], expiresAt, now)
      invariant due.Some? ==> due.value in REMINDER_POINTS[..i] && Reached(due.value, expiresAt, now)
      invariant due.Some? ==>
                  forall j :: 0 <= j < i && Reached(REMINDER_POINTS[j], expiresAt, now) ==>
                        due.value <= REMINDER_POINTS[j]
    {
      if expiresAt - REMINDER_POINTS[i] * DAY_MS <= now {
        due := Some(REMINDER_POINTS[i]);
      }
    }
  }

  /** Whole days left, rounded up. */
  function DaysLeft(expiresAt: int, now: int): int {
    Max(0, -((now - expiresAt) / DAY_MS))
  }

  /** The number of days left is the least count of days that reaches the expiry. */
  lemma DaysLeftIsLeast(expiresAt: int, now: int, days: nat)
    ensures DaysLeft(expiresAt, now) <= days <==> expiresAt <= now + days * DAY_MS
  {
    var q, r := (now - expiresAt) / DAY_MS, (now - expiresAt) % DAY_MS;
    assert now - expiresAt == q * DAY_MS + r;
    MulGap(q, 0 - days, DAY_MS);
    MulGap(0 - days, q, DAY_MS);
  }

  /** The reminder that the number of days left calls for: 7 for 7 or 6, 5 for 5 or 4, 3 for 3 to 1. */
  function PointFor(daysLeft: int): Option<int> {
    if daysLeft in {6, 7} then Some(7)
    else if daysLeft in {4, 5} then Some(5)
    else if daysLeft in {1, 2, 3} then Some(3)
    else None
  }

  /** The due point is the one the days left call for, and there is one such point only. */
  lemma DueFollowsDaysLeft(due: Option<int>, expiresAt: int, now: int)
    ensures IsDue(due, expiresAt, now) <==> due == PointFor(DaysLeft(expiresAt, now))
  {
    forall days: nat
      ensures DaysLeft(expiresAt, now) <= days <==> expiresAt <= now + days * DAY_MS
    {
      DaysLeftIsLeast(expiresAt, now, days);
    }
    var left := DaysLeft(expiresAt, now);
    assert left <= 0 <==> expiresAt <= now + 0 * DAY_MS;
    assert left <= 3 <==> Reached(REMINDER_POINTS[2], expiresAt, now);
    assert left <= 5 <==> Reached(REMINDER_POINTS[1], expiresAt, now);
    assert left <= 7 <==> Reached(REMINDER_POINTS[0], expiresAt, now);
  }
}
