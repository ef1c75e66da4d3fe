/** The fixed-window rate limiter. Each claim is one atomic upsert on a table of counters. */
module RateLimit {
  import opened Arithmetic

  /** The unique key of a counter row. */
  datatype Key = Key(bucket: string, windowStart: int)

  datatype Row = Row(count: nat, expiresAt: int, updatedAt: int)

  datatype Claim = Claim(bucket: string, limit: int, windowMs: int, now: int) {
    predicate WellFormed() {
      windowMs > 0
    }

    /** The start of the window that contains `now`. */
    function WindowStart(): int
      requires WellFormed()
    {
      now / windowMs * windowMs
    }

    function RowKey(): Key
      requires WellFormed()
    {
      Key(bucket, WindowStart())
    }
  }

  datatype Verdict = Verdict(allowed: bool, count: int, windowStart: int)

  type Rows = map<Key, Row>

  /** The row after the upsert: inserted, incremented, or left alone at the limit. */
  function Upsert(rows: Rows, c: Claim): Rows
    requires c.WellFormed()
  {
    var key := c.RowKey();
    if key !in rows then rows[key := Row(1, c.WindowStart() + 2 * c.windowMs, c.now)]
    else if rows[key].count < c.limit then rows[key := rows[key].(count := rows[key].count + 1, updatedAt := c.now)]
    else rows
  }

  function Judge(rows: Rows, c: Claim): Verdict
    requires c.WellFormed()
  {
    var key := c.RowKey();
    if key !in rows then Verdict(true, 1, c.WindowStart())
    else if rows[key].count < c.limit then Verdict(true, rows[key].count + 1, c.WindowStart())
    else Verdict(false, c.limit, c.WindowStart())
  }

  /** The stored table. */
  class CounterTable {
    var rows: Rows

    constructor ()
      ensures rows == map[]
    {
      rows := map[];
    }

    method ClaimFixedWindow(c: Claim) returns (v: Verdict)
      requires c.WellFormed()
      modifies this
      ensures rows == Upsert(old(rows), c) && v == Judge(old(rows), c)
    {
      var windowStart := c.now / c.windowMs * c.windowMs;
      var key := Key(c.bucket, windowStart);
      if key !in rows {
        rows := rows[key := Row(1, windowStart + c.windowMs * 2, c.now)];
        v := Verdict(true, 1, windowStart);
      } else if rows[key].count < c.limit {
        rows := rows[key := Row(rows[key].count + 1, rows[key].expiresAt, c.now)];
        v := Verdict(true, rows[key].count, windowStart);
      } else {
        v := Verdict(false, c.limit, windowStart);
      }
    }

    /** Maintenance deletes rows that have expired, not necessarily all of them at once. */
    method DeleteExpired(now: int, chosen: set<Key>)
      modifies this
      ensures rows == Purged(old(rows), now, chosen)
    {
      rows := map key | key in rows && !(key in chosen && rows[key].expiresAt <= now) :: rows[key];
    }
  }

  function Purged(rows: Rows, now: int, chosen: set<Key>): Rows {
    map key | key in rows && !(key in chosen && rows[key].expiresAt <= now) :: rows[key]
  }

  /** Deleting twice is deleting once, and what is chosen is gone when it had expired; nothing else is touched. */
  lemma PurgedExactly(rows: Rows, now: int, chosen: set<Key>, key: Key)
    ensures key in Purged(rows, now, chosen) <==> key in rows && (key in chosen ==> rows[key].expiresAt > now)
    ensures key in Purged(rows, now, chosen) ==> Purged(rows, now, chosen)[key] == rows[key]
    ensures Purged(Purged(rows, now, chosen), now, chosen) == Purged(rows, now, chosen)
  {
  }

  // ---------- runs of claims, in the order the database serialises them ----------

  /** Each bucket has one limit and one window length. */
  datatype Policy = Policy(limit: string -> int, windowMs: string -> int) {
    predicate Governs(c: Claim) {
      c.limit == limit(c.bucket) && c.windowMs == windowMs(c.bucket) && c.windowMs > 0
    }

    /** What a window admits: the first claim is always admitted. */
    function Capacity(bucket: string): nat {
      if limit(bucket) < 1 then 1 else limit(bucket)
    }
  }

  ghost predicate Governed(policy: Policy, claims: seq<Claim>) {
    forall i :: 0 <= i < |claims| ==> policy.Governs(claims[i]) && claims[i].WellFormed()
  }

  function RowsAfter(claims: seq<Claim>): Rows
    requires forall i :: 0 <= i < |claims| ==> claims[i].WellFormed()
  {
    if claims == [] then map[]
    else Upsert(RowsAfter(claims[..|claims| - 1]), claims[|claims| - 1])
  }

  /** Claims made for a bucket and window, allowed or not. */
  function Attempts(claims: seq<Claim>, key: Key): nat
    requires forall i :: 0 <= i < |claims| ==> claims[i].WellFormed()
  {
    if claims == [] then 0
    else Attempts(claims[..|claims| - 1], key) + if claims[|claims| - 1].RowKey() == key then 1 else 0
  }

  function Allowed(claims: seq<Claim>, key: Key): nat
    requires forall i :: 0 <= i < |claims| ==> claims[i].WellFormed()
  {
    if claims == [] then 0
    else
      var n := |claims| - 1;
      Allowed(claims[..n], key)
      + if claims[n].RowKey() == key && Judge(RowsAfter(claims[..n]), claims[n]).allowed then 1 else 0
  }

  /** The stored count of a window is the number of claims made for it, up to the capacity. */
  lemma {:induction false} StoredCount(policy: Policy, claims: seq<Claim>, key: Key)
    requires Governed(policy, claims)
    ensures key in RowsAfter(claims) <==> Attempts(claims, key) > 0
    ensures key in RowsAfter(claims) ==>
              RowsAfter(claims)[key].count == Min(Attempts(claims, key), policy.Capacity(key.bucket))
  {
    if claims != [] {
      StoredCount(policy, claims[..|claims| - 1], key);
    }
  }

  /** A claim is allowed exactly when fewer claims than the capacity were made before it for the same bucket and
      window. Claims for other buckets or windows play no part. */
  lemma ClaimVerdict(policy: Policy, before: seq<Claim>, c: Claim)
    requires Governed(policy, before) && policy.Governs(c)
    ensures var n := Attempts(before, c.RowKey());
            var v := Judge(RowsAfter(before), c);
            && (v.allowed <==> n < policy.Capacity(c.bucket))
            && v.count == (if v.allowed then n + 1 else c.limit)
            && v.windowStart <= c.now < v.windowStart + c.windowMs && v.windowStart % c.windowMs == 0
  {
    StoredCount(policy, before, c.RowKey());
    QuotientUnique(c.WindowStart(), c.windowMs, c.now / c.windowMs, 0);
  }

  /** The time of the last allowed claim. */
  function LastAllowed(claims: seq<Claim>, key: Key): int
    requires forall i :: 0 <= i < |claims| ==> claims[i].WellFormed()
  {
    if claims == [] then 0
    else
      var n := |claims| - 1;
      if claims[n].RowKey() == key && Judge(RowsAfter(claims[..n]), claims[n]).allowed then claims[n].now
      else LastAllowed(claims[..n], key)
  }

  /** A row was last updated by its last allowed claim, and expires two windows after its own began. */
  lemma {:induction false} StoredTimes(claims: seq<Claim>, key: Key, windowMs: int)
    requires forall i :: 0 <= i < |claims| ==> claims[i].WellFormed()
    requires forall i :: 0 <= i < |claims| && claims[i].bucket == key.bucket ==> claims[i].windowMs == windowMs
    ensures key in RowsAfter(claims) ==>
              && RowsAfter(claims)[key].updatedAt == LastAllowed(claims, key)
              && RowsAfter(claims)[key].expiresAt == key.windowStart + 2 * windowMs
  {
    if claims != [] {
      StoredTimes(claims[..|claims| - 1], key, windowMs);
    }
  }

  /** Over any run the allowed claims of a window are exactly the lesser of its attempts and the capacity. */
  lemma {:induction false} AllowedIsExact(policy: Policy, claims: seq<Claim>, key: Key)
    requires Governed(policy, claims)
    ensures Allowed(claims, key) == Min(Attempts(claims, key), policy.Capacity(key.bucket))
  {
    if claims != [] {
      var n := |claims| - 1;
      AllowedIsExact(policy, claims[..n], key);
      ClaimVerdict(policy, claims[..n], claims[n]);
    }
  }

  // ---------- any interval as long as a window ----------

  /** Allowed claims of a bucket at times from `from` until `until`, both included. */
  function AllowedBetween(claims: seq<Claim>, bucket: string, from: int, until: int): nat
    requires forall i :: 0 <= i < |claims| ==> claims[i].WellFormed()
  {
    if claims == [] then 0
    else
      var n := |claims| - 1;
      AllowedBetween(claims[..n], bucket, from, until)
      + if claims[n].bucket == bucket && from <= claims[n].now <= until
           && Judge(RowsAfter(claims[..n]), claims[n]).allowed
        then 1 else 0
  }

  lemma WindowsOfInterval(from: int, now: int, windowMs: int)
    requires windowMs > 0 && from <= now <= from + windowMs
    ensures var start := from / windowMs * windowMs;
            now / windowMs * windowMs == start || now / windowMs * windowMs == start + windowMs
  {
    var q, p := from / windowMs, now / windowMs;
    assert from == q * windowMs + from % windowMs;
    assert now == p * windowMs + now % windowMs;
    MulGap(p, q, windowMs);
    MulGap(q + 1, p, windowMs);
    MulGap(q, q + 1, windowMs);
    NextMultiple(q, windowMs);
  }

  lemma {:induction false} IntervalWithinTwoWindows(policy: Policy, claims: seq<Claim>, bucket: string, from: int)
    requires Governed(policy, claims) && policy.windowMs(bucket) > 0
    ensures var w := policy.windowMs(bucket);
            var start := from / w * w;
            AllowedBetween(claims, bucket, from, from + w)
            <= Allowed(claims, Key(bucket, start)) + Allowed(claims, Key(bucket, start + w))
  {
    if claims != [] {
      var n := |claims| - 1;
      var w := policy.windowMs(bucket);
      IntervalWithinTwoWindows(policy, claims[..n], bucket, from);
      if claims[n].bucket == bucket && from <= claims[n].now <= from + w {
        WindowsOfInterval(from, claims[n].now, w);
      }
    }
  }

  /** Any interval of one window's length, ends included, holds at most twice the capacity. */
  lemma AnyIntervalBound(policy: Policy, claims: seq<Claim>, bucket: string, from: int)
    requires Governed(policy, claims) && policy.windowMs(bucket) > 0
    ensures AllowedBetween(claims, bucket, from, from + policy.windowMs(bucket)) <= 2 * policy.Capacity(bucket)
  {
    var w := policy.windowMs(bucket);
    var start := from / w * w;
    IntervalWithinTwoWindows(policy, claims, bucket, from);
    AllowedIsExact(policy, claims, Key(bucket, start));
    AllowedIsExact(policy, claims, Key(bucket, start + w));
  }

  // ---------- deleting expired rows ----------

  datatype Event = Claimed(claim: Claim) | Deleted(now: int, chosen: set<Key>)

  ghost predicate EventGoverned(policy: Policy, e: Event) {
    e.Claimed? ==> policy.Governs(e.claim) && e.claim.WellFormed()
  }

  /** The verdicts of a run in which maintenance deletes rows, from a given table on. */
  ghost function Verdicts(policy: Policy, rows: Rows, events: seq<Event>): seq<Verdict>
    requires forall i :: 0 <= i < |events| ==> EventGoverned(policy, events[i])
    decreases |events|
  {
    if events == [] then []
    else
      match events[0]
      case Claimed(c) =>
        assert EventGoverned(policy, events[0]);
        [Judge(rows, c)] + Verdicts(policy, Upsert(rows, c), events[1..])
      case Deleted(now, chosen) => Verdicts(policy, Purged(rows, now, chosen), events[1..])
  }

  function WithoutDeletions(events: seq<Event>): seq<Event> {
    if events == [] then []
    else if events[0].Claimed? then [events[0]] + WithoutDeletions(events[1..])
    else WithoutDeletions(events[1..])
  }

  /** Clocks may disagree by a window: no claim is timed more than one window before a deletion
      that has already happened. `latest` is the latest deletion so far. */
  ghost predicate ClocksAgree(events: seq<Event>, latest: int)
    decreases |events|
  {
    events == []
    || match events[0]
       case Claimed(c) => c.now >= latest - c.windowMs && ClocksAgree(events[1..], latest)
       case Deleted(now, _) => ClocksAgree(events[1..], if now > latest then now else latest)
  }

  /** The pruned table lacks only rows that had expired by `latest`. */
  ghost predicate Prunes(policy: Policy, full: Rows, pruned: Rows, latest: int) {
    && (forall key :: key in pruned ==> key in full && full[key] == pruned[key])
    && (forall key :: key in full && key !in pruned ==> full[key].expiresAt <= latest)
    && (forall key :: key in full ==> full[key].expiresAt == key.windowStart + 2 * policy.windowMs(key.bucket))
  }

  lemma {:induction false} WithoutDeletionsGoverned(policy: Policy, events: seq<Event>)
    requires forall i :: 0 <= i < |events| ==> EventGoverned(policy, events[i])
    ensures forall i :: 0 <= i < |WithoutDeletions(events)| ==> EventGoverned(policy, WithoutDeletions(events)[i])
  {
    if events != [] {
      assert EventGoverned(policy, events[0]);
      WithoutDeletionsGoverned(policy, events[1..]);
    }
  }

  lemma ClaimSeesItsRow(policy: Policy, full: Rows, pruned: Rows, latest: int, c: Claim)
    requires Prunes(policy, full, pruned, latest) && policy.Governs(c) && c.now >= latest - c.windowMs
    ensures Judge(full, c) == Judge(pruned, c)
    ensures Prunes(policy, Upsert(full, c), Upsert(pruned, c), latest)
  {
    var key := c.RowKey();
    assert c.WindowStart() + c.windowMs > c.now;
    assert key in full ==> key in pruned;
  }

  /** A row lives two windows from the start of its own, so deleting expired rows changes no verdict
      as long as the clocks agree to within one window. */
  lemma {:induction false} DeletionChangesNothing(policy: Policy, full: Rows, pruned: Rows, events: seq<Event>,
                                                  latest: int)
    requires forall i :: 0 <= i < |events| ==> EventGoverned(policy, events[i])
    requires Prunes(policy, full, pruned, latest) && ClocksAgree(events, latest)
    ensures forall i :: 0 <= i < |WithoutDeletions(events)| ==> EventGoverned(policy, WithoutDeletions(events)[i])
    ensures Verdicts(policy, pruned, events) == Verdicts(policy, full, WithoutDeletions(events))
    decreases |events|
  {
    WithoutDeletionsGoverned(policy, events);
    if events != [] {
      assert EventGoverned(policy, events[0]);
      WithoutDeletionsGoverned(policy, events[1..]);
      match events[0]
      case Claimed(c) =>
        ClaimSeesItsRow(policy, full, pruned, latest, c);
        DeletionChangesNothing(policy, Upsert(full, c), Upsert(pruned, c), events[1..], latest);
        var kept := WithoutDeletions(events);
        assert kept[0] == events[0] && kept[1..] == WithoutDeletions(events[1..]);
      case Deleted(now, chosen) =>
        DeletionChangesNothing(policy, full, Purged(pruned, now, chosen), events[1..],
                               if now > latest then now else latest);
    }
  }
}
