/** The counts of an entitlement. */
module EntitlementCounts {
  // Accesses and uses over any history: every one that is granted counts, and none is granted past a limit. What the
  // status says about them.
  import opened Arithmetic
  import opened Wrappers
  import opened EntitlementLedger
  import opened EntitlementHistory

  /** The accesses that were granted. */
  function Accesses(states: seq<Entitlement>, events: seq<Event>): nat
    requires |states| == |events| + 1
    decreases |events|
  {
    if events == [] then 0
    else
      var n := |events| - 1;
      Accesses(states[..n + 1], events[..n])
      + if events[n].step.Accessed? && MayAccess(states[n], events[n].now) then 1 else 0
  }

  /** The uses that were granted and not given back. */
  function Uses(states: seq<Entitlement>, events: seq<Event>): nat
    requires |states| == |events| + 1
    decreases |events|
  {
    if events == [] then 0
    else
      var n := |events| - 1;
      var before := Uses(states[..n + 1], events[..n]);
      if events[n].step.Used? && MayUse(states[n], events[n].now) then before + 1
      else if events[n].step.UseReturned? && before > 0 then before - 1
      else before
  }

  /** Over any history the stored counts are the accesses granted, and the uses granted and not given back. */
  lemma {:induction false} GrantsAreCounted(states: seq<Entitlement>, events: seq<Event>)
    requires IsHistory(states, events)
    ensures states[|events|].accessCount == Accesses(states, events)
    ensures states[|events|].usageCount == Uses(states, events)
    decreases |events|
  {
    if events != [] {
      var n := |events| - 1;
      AllButLast(states, events);
      hide *;
      GrantsAreCounted(states[..n + 1], events[..n]);
      LastCounts(states, events);
    }
  }

  lemma LastCounts(states: seq<Entitlement>, events: seq<Event>)
    requires |states| == |events| + 1 && events != []
    requires var n := |events| - 1;
             && Follows(states[..n + 1], events[n], states[n + 1]) && Present(states[..n + 1]) == states[n]
             && states[n].accessCount == Accesses(states[..n + 1], events[..n])
             && states[n].usageCount == Uses(states[..n + 1], events[..n])
    ensures states[|events|].accessCount == Accesses(states, events)
    ensures states[|events|].usageCount == Uses(states, events)
  {
    hide Follows, MayAccess, MayUse, Present;
    var n := |events| - 1;
    CountsStep(states[..n + 1], events[n], states[n + 1]);
  }

  lemma CountsStep(past: Past, event: Event, after: Entitlement)
    requires Follows(past, event, after)
    ensures var e := Present(past);
            && after.accessCount
               == e.accessCount + (if event.step.Accessed? && MayAccess(e, event.now) then 1 else 0)
            && after.usageCount
               == if event.step.Used? && MayUse(e, event.now) then e.usageCount + 1
                  else if event.step.UseReturned? && e.usageCount > 0 then e.usageCount - 1
                  else e.usageCount
  {
    hide MayAccess, MayUse, StackedLimit, StackedExpiry, HasActive, IsPrepared;
  }

  ghost predicate KeepsAccessLimit(states: seq<Entitlement>, i: nat, limit: nat) {
    forall k :: i <= k < |states| ==> states[k].accessLimit == Some(limit)
  }

  ghost predicate KeepsUsageLimit(states: seq<Entitlement>, i: nat, limit: nat) {
    forall k :: i <= k < |states| ==> states[k].usageLimit == Some(limit)
  }

  /** One more event: what it grants was left. */
  lemma LastGrant(states: seq<Entitlement>, events: seq<Event>)
    requires IsHistory(states, events) && events != []
    ensures var n := |events| - 1;
            var before, now := Accesses(states[..n + 1], events[..n]), Accesses(states, events);
            && before <= now
            && (now > before ==>
                  now == before + 1 && (states[n].accessLimit.Some? ==> now <= states[n].accessLimit.value))
    ensures var n := |events| - 1;
            var before, now := Uses(states[..n + 1], events[..n]), Uses(states, events);
            now > before ==> states[n].usageLimit.Some? ==> now <= states[n].usageLimit.value
  {
    AllButLast(states, events);
    hide IsHistory, Follows, IsRun, AllAgree, AllKeep, Keeps, ItemsMatched, ItemsMatch, Agrees;
    GrantsAreCounted(states[..|events|], events[..|events| - 1]);
  }

  /** A prefix of a prefix. */
  lemma ShorterPrefix(states: seq<Entitlement>, events: seq<Event>, i: nat)
    requires IsHistory(states, events) && i < |events|
    ensures var n := |events| - 1;
            && IsHistory(states[..n + 1], events[..n])
            && states[..n + 1][..i + 1] == states[..i + 1] && events[..n][..i] == events[..i]
  {
    AllButLast(states, events);
    hide Follows;
  }

  /** From any state on, as long as the limit stays what it is, no more accesses are granted than were left then. */
  lemma {:induction false} AccessesWithinLimit(states: seq<Entitlement>, events: seq<Event>, i: nat, limit: nat)
    requires IsHistory(states, events) && i <= |events| && KeepsAccessLimit(states, i, limit)
    ensures var before := Accesses(states[..i + 1], events[..i]);
            before <= Accesses(states, events) <= Max(before, limit)
    decreases |events|
  {
    var n := |events| - 1;
    if i == |events| {
      assert states[..i + 1] == states && events[..i] == events;
    } else {
      assert states[n].accessLimit == Some(limit) && KeepsAccessLimit(states[..n + 1], i, limit);
      hide IsHistory, Accesses, KeepsAccessLimit;
      ShorterPrefix(states, events, i);
      AccessesWithinLimit(states[..n + 1], events[..n], i, limit);
      LastGrant(states, events);
    }
  }

  /** The same for uses; giving one back allows one more. */
  lemma {:induction false} UsesWithinLimit(states: seq<Entitlement>, events: seq<Event>, i: nat, limit: nat)
    requires IsHistory(states, events) && i <= |events| && KeepsUsageLimit(states, i, limit)
    ensures Uses(states, events) <= Max(Uses(states[..i + 1], events[..i]), limit)
    decreases |events|
  {
    var n := |events| - 1;
    if i == |events| {
      assert states[..i + 1] == states && events[..i] == events;
    } else {
      assert states[n].usageLimit == Some(limit) && KeepsUsageLimit(states[..n + 1], i, limit);
      hide IsHistory, Uses, KeepsUsageLimit;
      ShorterPrefix(states, events, i);
      UsesWithinLimit(states[..n + 1], events[..n], i, limit);
      LastGrant(states, events);
    }
  }

  // ---------- what the status says ----------

  predicate NoAccessLeft(e: Entitlement) {
    e.accessLimit.Some? && e.accessCount >= e.accessLimit.value
  }

  predicate NoUseLeft(e: Entitlement) {
    e.usageLimit.Some? && e.usageCount >= e.usageLimit.value
  }

  predicate RunOut(e: Entitlement, now: nat) {
    e.expiresAt.Some? && e.expiresAt.value <= now
  }

  /** Nothing but the status and the counts differs. */
  predicate SameTerms(a: Entitlement, b: Entitlement) {
    b == a.(status := b.status, accessCount := b.accessCount, usageCount := b.usageCount)
  }

  /** Taking the last access exhausts the row at once; an earlier one leaves its status alone. */
  lemma AccessExhausts(e: Entitlement, now: nat)
    requires MayAccess(e, now)
    ensures var after := Access(e, now);
            && SameTerms(e, after) && after.usageCount == e.usageCount && after.status in {Active, Exhausted}
            && (after.status == Exhausted <==> e.status == Exhausted || NoAccessLeft(after))
            && (NoAccessLeft(after) ==> forall later :: !MayAccess(after, later))
  {
  }

  /** Taking a use exhausts the row exactly when no use is left, whatever its status was. */
  lemma UseExhausts(e: Entitlement, now: nat)
    requires MayUse(e, now)
    ensures var after := Use(e, now);
            && SameTerms(e, after) && after.accessCount == e.accessCount && after.status in {Active, Exhausted}
            && (after.status == Exhausted <==> NoUseLeft(after))
            && (NoUseLeft(after) ==> forall later :: !MayUse(after, later))
  {
  }

  /** Giving a use back makes a row active exactly when it was, or was exhausted and can be accessed and used again. */
  lemma GivingBackRevives(e: Entitlement, now: nat)
    requires e.usageCount > 0
    ensures var after := GiveBack(e, now);
            && SameTerms(e, after) && after.accessCount == e.accessCount
            && (after.status == Active <==>
                  e.status == Active || (e.status == Exhausted && MayAccess(after, now) && MayUse(after, now)))
            && (after.status != Active ==> after.status == e.status)
  {
  }

  /** Marking rows as expired takes nothing from anybody, at that time or later, and leaves no active row that has run
      out. No other row is touched. */
  lemma ExpiringTakesNothing(e: Entitlement, now: nat, later: nat)
    requires later >= now
    ensures var after := Expire(e, now);
            && SameTerms(e, after) && after.accessCount == e.accessCount && after.usageCount == e.usageCount
            && (MayAccess(after, later) <==> MayAccess(e, later)) && (MayUse(after, later) <==> MayUse(e, later))
            && !(after.status == Active && RunOut(after, now))
            && (e.status != Active ==> after == e)
  {
  }

  /** A row that a refund writes is revoked when no grant is left, expired when those left have run out, active when
      it can be both accessed and used, and exhausted otherwise. */
  lemma RefundedStatus(e: Entitlement, order: string, now: nat, rows: seq<Grant>)
    requires Affects(e.grants, order) && Arranges(rows, Refunded(e.grants, order))
    ensures var after := Refund(e, order, now, rows);
            && (after.status == Revoked <==> !HasActive(after.grants))
            && (after.status == Expired <==> HasActive(after.grants) && RunOut(after, now))
            && (after.status == Active <==> MayAccess(after, now) && MayUse(after, now))
            && after.status != Pending
  {
    hide RebuiltExpiry, SumGranted;
    ActiveMeansRows(rows, Refunded(e.grants, order));
    assert SumGranted(rows, UsageOf).Some? || SumGranted(rows, UsageOf).None?;
  }

  /** While row and grants agree, a use is granted exactly when the active grants, rebuilt, have time and uses left. */
  lemma UseIsPaidFor(e: Entitlement, clock: nat, now: nat, rows: seq<Grant>)
    requires Sound(e, clock) && Agrees(e) && Arranges(rows, e.grants)
    ensures MayUse(e, now) <==>
              && e.status in {Active, Exhausted} && rows != []
              && (Endless(rows, DurationOf) || Chained(rows) > now)
              && (Endless(rows, UsageOf) || e.usageCount < Total(rows, UsageOf))
  {
    ActiveMeansRows(rows, e.grants);
    AgreementOf(e, rows);
  }
}
