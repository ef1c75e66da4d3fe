/** Histories of an entitlement. */
module EntitlementHistory {
  // Every state after every event, with refunds whose reads lie further back than their writes.
  import opened Arithmetic
  import opened Wrappers
  import opened EntitlementLedger

  /** A refund is an event when it writes. Before that it asked whether the order has grants here, read the counts, and
      listed the grants, each at a state of its own; its time is that of the request. */
  datatype Step =
    | Purchased(grant: Grant)
    | Delivered(item: string, ready: bool)
    | Accessed
    | Used
    | UseReturned
    | Swept
    | RefundWritten(order: string, asked: nat, counted: nat, listed: nat)

  datatype Event = Event(now: nat, step: Step)

  /** The states up to now, the last one being the present. */
  type Past = states: seq<Entitlement> | states != [] witness [NewEntitlement()]

  function Present(past: Past): Entitlement {
    past[|past| - 1]
  }

  /** The refund's query may list ties in any order. */
  ghost predicate IsPrepared(past: Past, event: Event, read: seq<Grant>, p: Prepared)
    requires event.step.RefundWritten?
  {
    var RefundWritten(order, asked, counted, listed) := event.step;
    && asked <= counted <= listed < |past|
    && Arranges(read, Refunded(past[listed].grants, order))
    && p == Prepare(order, event.now, Affects(past[asked].grants, order), past[counted].usageCount,
                    past[counted].accessCount, read)
  }

  /** One event, as the database serialises them. */
  ghost predicate Follows(past: Past, event: Event, after: Entitlement) {
    var e := Present(past);
    match event.step
    case Purchased(g) => g.Valid() && after == Purchase(e, g)
    case Delivered(item, ready) => after == Activate(e, item, event.now, ready)
    case Accessed => after == Access(e, event.now)
    case Used => after == Use(e, event.now)
    case UseReturned => after == GiveBack(e, event.now)
    case Swept => after == Expire(e, event.now)
    case RefundWritten(_, _, _, _) => exists read, p :: IsPrepared(past, event, read, p) && after == Write(e, p)
  }

  /** No delivery that is not ready meets a row in use that has an end or a limit. */
  predicate Timely(e: Entitlement, event: Event) {
    event.step.Delivered? ==> !Unapplied(e, event.step.item, event.step.ready) || Unlimited(e)
  }

  /** What a refund listed, or the row when it found nothing, rebuilds like the grants it leaves. */
  ghost predicate Current(past: Past, event: Event) {
    event.step.RefundWritten? ==>
      forall read, p, current, left ::
        && IsPrepared(past, event, read, p)
        && Arranges(current, Present(past).grants) && Arranges(left, Refunded(Present(past).grants, p.order)) ==>
          SameRebuild(if p.affected then read else current, left)
  }

  /** Nothing that matters to a refund has changed between its reads and its writes. */
  predicate Undisturbed(past: Past, event: Event) {
    event.step.RefundWritten? ==>
      var RefundWritten(order, asked, counted, listed) := event.step;
      && asked < |past| && listed < |past|
      && (if Affects(past[asked].grants, order) then
            ActiveOthers(past[listed].grants, order) == ActiveOthers(Present(past).grants, order)
          else !HasActiveOf(Present(past).grants, order))
  }

  /** What a delivery or a refund must be like for the row to go on agreeing with its grants; every other step does no
      harm. */
  ghost predicate Keeps(past: Past, event: Event) {
    && Current(past, event)
    && (event.step.Delivered? ==>
          forall rows :: Arranges(rows, Present(past).grants) ==>
            DeliveryKeeps(Present(past), event.step.item, event.now, event.step.ready, rows))
  }

  /** Any sequence of events, whatever their times are. */
  ghost predicate IsHistory(states: seq<Entitlement>, events: seq<Event>) {
    && |states| == |events| + 1
    && states[0] == NewEntitlement()
    && forall i :: 0 <= i < |events| ==> Follows(states[..i + 1], events[i], states[i + 1])
  }

  /** The latest time of a delivery. */
  function Clock(events: seq<Event>): nat {
    if events == [] then 0
    else
      var last := events[|events| - 1];
      if last.step.Delivered? then Max(Clock(events[..|events| - 1]), last.now) else Clock(events[..|events| - 1])
  }

  /** A history in which the times of deliveries do not go back. */
  ghost predicate IsRun(states: seq<Entitlement>, events: seq<Event>) {
    && IsHistory(states, events)
    && forall i :: 0 <= i < |events| && events[i].step.Delivered? ==> Clock(events[..i]) <= events[i].now
  }

  lemma SoundLater(e: Entitlement, clock: nat, now: nat)
    requires Sound(e, clock) && clock <= now
    ensures Sound(e, now)
  {
  }

  /** Every step but a refund keeps a row in use exactly while a grant is active. */
  lemma WellKeptStep(past: Past, event: Event, after: Entitlement)
    requires WellKept(Present(past)) && Follows(past, event, after) && !event.step.RefundWritten?
    ensures WellKept(after)
  {
    hide StackedLimit, StackedExpiry, RebuiltExpiry, SumGranted, Arranges;
    match event.step
    case Purchased(g) => PurchaseWellKept(Present(past), g);
    case Delivered(item, ready) =>
      if IsPending(Present(past), item) && after.grants != Present(past).grants {
        assert after.grants[item].IsActive();
      }
    case Accessed =>
    case Used =>
    case UseReturned =>
    case Swept =>
  }

  lemma PurchaseWellKept(e: Entitlement, g: Grant)
    requires WellKept(e) && g.Valid()
    ensures WellKept(Purchase(e, g))
  {
    var after := Purchase(e, g);
    if g.item !in e.grants {
      assert forall item :: item in e.grants ==> after.grants[item] == e.grants[item];
      assert HasActive(after.grants) <==> HasActive(e.grants);
    }
  }

  ghost predicate ItemsMatched(past: seq<Entitlement>) {
    forall k :: 0 <= k < |past| ==> ItemsMatch(past[k])
  }

  /** Whatever its time is and whenever its reads were: a step keeps agreement exactly when it is of that kind, and a
      row that agrees is then well kept. */
  lemma StepAgreesExactly(past: Past, event: Event, after: Entitlement)
    requires ItemsMatched(past) && WellKept(Present(past)) && Agrees(Present(past)) && Follows(past, event, after)
    ensures Agrees(after) <==> Keeps(past, event)
    ensures Agrees(after) ==> WellKept(after)
  {
    hide Agrees, DeliveryKeeps, Arranges, SameRebuild, WellKept, Follows, ItemsMatched, Current;
    if event.step.RefundWritten? {
      RefundStep(past, event, after);
    } else {
      OtherStep(past, event, after);
      WellKeptStep(past, event, after);
    }
  }

  lemma RefundStep(past: Past, event: Event, after: Entitlement)
    requires ItemsMatched(past) && WellKept(Present(past)) && Agrees(Present(past))
    requires Follows(past, event, after) && event.step.RefundWritten?
    ensures Agrees(after) <==> Current(past, event)
    ensures Agrees(after) ==> WellKept(after)
  {
    var e, order := Present(past), event.step.order;
    assert ItemsMatch(e);
    RefundedKeepsItems(e, order);
    assert forall item :: item in e.grants ==> e.grants[item].item == item;
    assert forall item :: item in Refunded(e.grants, order) ==> Refunded(e.grants, order)[item].item == item;
    var read, p :| IsPrepared(past, event, read, p) && after == Write(e, p);
    hide Agrees, Arranges, SameRebuild, WellKept, Refunded, Write, ItemsMatched, ItemsMatch;
    var current := ArrangementExists(e.grants);
    var left := ArrangementExists(Refunded(e.grants, order));
    PreparedDecides(past, event, read, p, current, left);
    forall read', p', current', left' | IsPrepared(past, event, read', p') && Arranges(current', e.grants)
                                        && Arranges(left', Refunded(e.grants, p'.order))
      ensures SameRebuild(if p'.affected then read' else current', left') <==> Agrees(after)
    {
      OnePreparation(past, event, read, p, read', p');
      PreparedDecides(past, event, read', p', current', left');
    }
    if Agrees(after) {
      PreparedKeepsRow(past, event, read, p, left);
    }
  }

  lemma PreparedDecides(past: Past, event: Event, read: seq<Grant>, p: Prepared, current: seq<Grant>, left: seq<Grant>)
    requires ItemsMatch(Present(past)) && Agrees(Present(past))
    requires event.step.RefundWritten? && IsPrepared(past, event, read, p)
    requires Arranges(current, Present(past).grants) && Arranges(left, Refunded(Present(past).grants, p.order))
    ensures Agrees(Write(Present(past), p)) <==> SameRebuild(if p.affected then read else current, left)
  {
    hide Agrees, Arranges, SameRebuild, Refunded, Write, ItemsMatch, RebuiltExpiry, SumGranted, RefundStatus, FirstAt;
    var counted := past[event.step.counted];
    RefundAgreesExactly(Present(past), p, event.now, counted.usageCount, counted.accessCount, read, current, left);
  }

  lemma PreparedKeepsRow(past: Past, event: Event, read: seq<Grant>, p: Prepared, left: seq<Grant>)
    requires WellKept(Present(past)) && Agrees(Present(past)) && Agrees(Write(Present(past), p))
    requires event.step.RefundWritten? && IsPrepared(past, event, read, p)
    requires Arranges(left, Refunded(Present(past).grants, p.order))
    ensures WellKept(Write(Present(past), p))
  {
    hide Agrees, Arranges, Refunded, Write, WellKept, RebuiltExpiry, SumGranted, RefundStatus, FirstAt;
    var counted := past[event.step.counted];
    RefundWellKept(Present(past), p, event.now, counted.usageCount, counted.accessCount, read, left);
  }

  /** Ties listed in another order prepare the same. */
  lemma OnePreparation(past: Past, event: Event, read: seq<Grant>, p: Prepared, read': seq<Grant>, p': Prepared)
    requires ItemsMatched(past) && event.step.RefundWritten?
    requires IsPrepared(past, event, read, p) && IsPrepared(past, event, read', p')
    ensures p == p'
  {
    var listed, order := past[event.step.listed], event.step.order;
    var asked, counted := past[event.step.asked], past[event.step.counted];
    assert ItemsMatch(listed);
    hide Arranges, Refunded, Prepare, ItemsMatched, ItemsMatch, Affects, SameRebuild;
    ListedAlike(listed, order, read, read');
    PreparedAlike(order, event.now, Affects(asked.grants, order), counted, read, read');
  }

  lemma PreparedAlike(order: string, now: nat, affected: bool, counted: Entitlement, a: seq<Grant>, b: seq<Grant>)
    requires SameRebuild(a, b) && (a == [] <==> b == [])
    ensures Prepare(order, now, affected, counted.usageCount, counted.accessCount, a)
         == Prepare(order, now, affected, counted.usageCount, counted.accessCount, b)
  {
    hide RebuiltExpiry, SumGranted, FirstAt;
  }

  lemma ListedAlike(listed: Entitlement, order: string, read: seq<Grant>, read': seq<Grant>)
    requires ItemsMatch(listed)
    requires Arranges(read, Refunded(listed.grants, order)) && Arranges(read', Refunded(listed.grants, order))
    ensures SameRebuild(read, read') && (read == [] <==> read' == [])
  {
    RefundedKeepsItems(listed, order);
    var left := Refunded(listed.grants, order);
    assert forall item :: item in left ==> left[item].item == item;
    ActiveMeansRows(read, left);
    ActiveMeansRows(read', left);
    hide Arranges, Refunded, HasActive;
    ArrangementsRebuildAlike(read, read', left);
  }

  lemma OtherStep(past: Past, event: Event, after: Entitlement)
    requires WellKept(Present(past)) && Agrees(Present(past))
    requires Follows(past, event, after) && !event.step.RefundWritten?
    ensures Agrees(after) <==> Keeps(past, event)
  {
    var e := Present(past);
    assert forall item :: item in e.grants ==> e.grants[item].item == item;
    hide RebuiltExpiry, SumGranted, Agrees, DeliveryKeeps, Arranges, WellKept;
    match event.step
    case Purchased(g) => PurchaseAgrees(e, g);
    case Delivered(item, ready) =>
      var rows := ArrangementExists(e.grants);
      forall rows | Arranges(rows, e.grants)
        ensures Agrees(after) <==> DeliveryKeeps(e, item, event.now, ready, rows)
      {
        DeliveryAgreesExactly(e, item, event.now, ready, rows);
      }
    case Accessed => SameRowAgrees(e, after);
    case Used => SameRowAgrees(e, after);
    case UseReturned => SameRowAgrees(e, after);
    case Swept => SameRowAgrees(e, after);
  }

  lemma SameRowAgrees(e: Entitlement, after: Entitlement)
    requires Agrees(e)
    requires after.grants == e.grants && after.expiresAt == e.expiresAt && after.activatedAt == e.activatedAt
    requires after.usageLimit == e.usageLimit && after.accessLimit == e.accessLimit
    ensures Agrees(after)
  {
    forall rows | Arranges(rows, after.grants)
      ensures RowSays(after, rows)
    {
      assert RowSays(e, rows);
    }
  }

  lemma PurchaseAgrees(e: Entitlement, g: Grant)
    requires Agrees(e)
    requires forall item :: item in e.grants ==> e.grants[item].item == item
    ensures Agrees(Purchase(e, g))
  {
    hide RebuiltExpiry, SumGranted;
    var after := Purchase(e, g);
    forall rows | Arranges(rows, after.grants)
      ensures RowSays(after, rows)
    {
      forall i | 0 <= i < |rows|
        ensures Holds(e.grants, rows[i])
      {
        assert Holds(after.grants, rows[i]);
      }
      forall item | item in e.grants && e.grants[item].IsActive()
        ensures e.grants[item] in rows
      {
        assert after.grants[item] == e.grants[item];
      }
      assert RowSays(e, rows);
    }
  }

  lemma NewAgrees()
    ensures Sound(NewEntitlement(), 0) && Agrees(NewEntitlement())
  {
    var e := NewEntitlement();
    forall rows | Arranges(rows, e.grants)
      ensures RowSays(e, rows)
    {
      ActiveMeansRows(rows, e.grants);
    }
  }

  // ---------- any history ----------

  /** Grants are stored under their own items, always. */
  lemma ItemsStayMatched(past: Past, event: Event, after: Entitlement)
    requires ItemsMatch(Present(past)) && Follows(past, event, after)
    ensures ItemsMatch(after)
  {
    hide Arranges, RebuiltExpiry, SumGranted;
  }

  ghost predicate AllAgree(states: seq<Entitlement>) {
    forall k :: 0 <= k < |states| ==> Agrees(states[k])
  }

  ghost predicate AllKeep(states: seq<Entitlement>, events: seq<Event>)
    requires |states| == |events| + 1
  {
    forall i :: 0 <= i < |events| ==> Keeps(states[..i + 1], events[i])
  }

  /** A history without its last event. */
  lemma AllButLast(states: seq<Entitlement>, events: seq<Event>)
    requires |states| == |events| + 1 && events != []
    ensures var n := |events| - 1;
            && states == states[..n + 1] + [states[n + 1]] && events == events[..n] + [events[n]]
            && Present(states[..n + 1]) == states[n]
            && (AllAgree(states) <==> AllAgree(states[..n + 1]) && Agrees(states[n + 1]))
            && (ItemsMatched(states) <==> ItemsMatched(states[..n + 1]) && ItemsMatch(states[n + 1]))
            && (AllKeep(states, events) <==> AllKeep(states[..n + 1], events[..n]) && Keeps(states[..n + 1], events[n]))
            && (IsHistory(states, events) ==>
                  IsHistory(states[..n + 1], events[..n]) && Follows(states[..n + 1], events[n], states[n + 1]))
            && (IsRun(states, events) ==> IsRun(states[..n + 1], events[..n]))
  {
    hide Agrees, Keeps, Follows, ItemsMatch;
    var n := |events| - 1;
    forall i | 0 <= i < n
      ensures states[..n + 1][..i + 1] == states[..i + 1] && events[..n][i] == events[i]
      ensures states[..n + 1][i + 1] == states[i + 1] && events[..n][..i] == events[..i]
    {
    }
    assert forall k :: 0 <= k < n + 1 ==> states[..n + 1][k] == states[k];
    assert states[..n + 1] == states[..(n + 1)];
  }

  /** Over any history, whatever its clock did and wherever refunds had read: the row is at all times what its active
      grants come to exactly when every delivery and every refund was of the kind that keeps them in agreement. */
  lemma {:induction false} AlwaysAgreesExactly(states: seq<Entitlement>, events: seq<Event>)
    requires IsHistory(states, events)
    ensures AllAgree(states) <==> AllKeep(states, events)
    ensures ItemsMatched(states) && (AllAgree(states) ==> WellKept(states[|events|]))
    decreases |events|
  {
    if events == [] {
      NewAgrees();
    } else {
      var n := |events| - 1;
      AllButLast(states, events);
      hide *;
      AlwaysAgreesExactly(states[..n + 1], events[..n]);
      OneMoreAgrees(states[..n + 1], events[n], states[n + 1]);
    }
  }

  lemma OneMoreAgrees(past: Past, event: Event, after: Entitlement)
    requires Follows(past, event, after) && ItemsMatched(past) && (AllAgree(past) ==> WellKept(Present(past)))
    ensures ItemsMatch(after) && (AllAgree(past) && Agrees(after) ==> WellKept(after))
    ensures AllAgree(past) ==> (Agrees(after) <==> Keeps(past, event))
  {
    hide WellKept, Agrees, Follows, Keeps, AllAgree, ItemsMatch, ItemsMatched;
    LastItemsMatch(past);
    ItemsStayMatched(past, event, after);
    if AllAgree(past) {
      LastAgrees(past);
      StepAgreesExactly(past, event, after);
    }
  }

  lemma LastItemsMatch(past: Past)
    requires ItemsMatched(past)
    ensures ItemsMatch(Present(past))
  {
  }

  lemma LastAgrees(past: Past)
    requires AllAgree(past)
    ensures Agrees(Present(past))
  {
  }

  /** A refund with nothing in between that matters to it is of that kind. */
  lemma UndisturbedIsCurrent(past: Past, event: Event)
    requires ItemsMatched(past) && Agrees(Present(past)) && Undisturbed(past, event)
    ensures Current(past, event)
  {
    assert ItemsMatch(Present(past));
    hide Arranges, SameRebuild, Refunded, ItemsMatched, ItemsMatch, Agrees, ActiveOthers, Prepare, Write;
    if event.step.RefundWritten? {
      forall read, p, current, left | IsPrepared(past, event, read, p) && Arranges(current, Present(past).grants)
                                      && Arranges(left, Refunded(Present(past).grants, p.order))
        ensures SameRebuild(if p.affected then read else current, left)
      {
        UndisturbedPreparation(past, event, read, p);
        PreparedDecides(past, event, read, p, current, left);
      }
    }
  }

  lemma UndisturbedPreparation(past: Past, event: Event, read: seq<Grant>, p: Prepared)
    requires ItemsMatch(Present(past)) && Agrees(Present(past))
    requires event.step.RefundWritten? && Undisturbed(past, event) && IsPrepared(past, event, read, p)
    ensures Agrees(Write(Present(past), p))
  {
    hide Arranges, SameRebuild, Refunded, ItemsMatch, Agrees, ActiveOthers, Write, RebuiltExpiry, SumGranted;
    hide RefundStatus, FirstAt, Affects, HasActiveOf;
    var counted := past[event.step.counted];
    UndisturbedRefundAgrees(Present(past), past[event.step.listed].grants, p, event.now, counted.usageCount,
                            counted.accessCount, read);
  }

  // ---------- forward clocks ----------

  /** When no delivery was later, agreement comes down to deliveries being timely and refunds being current. */
  lemma AgreesStep(past: Past, event: Event, after: Entitlement, clock: nat)
    requires ItemsMatched(past) && Sound(Present(past), clock) && Agrees(Present(past)) && Follows(past, event, after)
    requires event.step.Delivered? ==> clock <= event.now
    ensures Agrees(after) <==> Timely(Present(past), event) && Current(past, event)
    ensures Agrees(after) ==> Sound(after, if event.step.Delivered? then event.now else clock)
  {
    StepAgreesExactly(past, event, after);
    if Agrees(after) {
      NoLaterGrant(past, event, after, clock);
    }
    if event.step.Delivered? {
      SoundLater(Present(past), clock, event.now);
      hide Agrees, Arranges, DeliveryKeeps, Unlimited, Sound, Activate, Follows;
      ActivationAgreesExactly(Present(past), event.step.item, event.now, event.step.ready);
      DeliveryFollows(past, event, after);
    }
  }

  lemma DeliveryFollows(past: Past, event: Event, after: Entitlement)
    requires Follows(past, event, after) && event.step.Delivered?
    ensures after == Activate(Present(past), event.step.item, event.now, event.step.ready)
  {
  }

  lemma NoLaterGrant(past: Past, event: Event, after: Entitlement, clock: nat)
    requires Sound(Present(past), clock) && Follows(past, event, after) && WellKept(after)
    requires event.step.Delivered? ==> clock <= event.now
    ensures Sound(after, if event.step.Delivered? then event.now else clock)
  {
    hide Arranges, RebuiltExpiry, SumGranted, StackedLimit, StackedExpiry, WellKept, Prepare, HasActive;
  }

  ghost predicate AllTimely(states: seq<Entitlement>, events: seq<Event>)
    requires |states| == |events| + 1
  {
    forall i :: 0 <= i < |events| ==> Timely(states[i], events[i]) && Current(states[..i + 1], events[i])
  }

  lemma AllButLastTimely(states: seq<Entitlement>, events: seq<Event>)
    requires |states| == |events| + 1 && events != [] && AllTimely(states, events)
    ensures var n := |events| - 1;
            && AllTimely(states[..n + 1], events[..n])
            && Timely(states[n], events[n]) && Current(states[..n + 1], events[n])
  {
    hide Timely, Current;
    var n := |events| - 1;
    forall i | 0 <= i < n
      ensures states[..n + 1][..i + 1] == states[..i + 1]
      ensures events[..n][i] == events[i] && states[..n + 1][i] == states[i]
    {
    }
  }

  /** Whatever the order of purchases, deliveries, accesses, uses and refunds, as long as delivery times never went
      back, every delivery was timely and every refund current: the stored expiry and limits are those of a rebuild. */
  lemma {:induction false} RowIsAlwaysTheRebuild(states: seq<Entitlement>, events: seq<Event>)
    requires IsRun(states, events) && AllTimely(states, events)
    ensures ItemsMatched(states) && Sound(states[|events|], Clock(events)) && Agrees(states[|events|])
    decreases |events|
  {
    if events == [] {
      NewAgrees();
    } else {
      var n := |events| - 1;
      LastOfRun(states, events);
      hide *;
      RowIsAlwaysTheRebuild(states[..n + 1], events[..n]);
      OneMoreSound(states[..n + 1], events[..n], events[n], states[n + 1]);
    }
  }

  lemma LastOfRun(states: seq<Entitlement>, events: seq<Event>)
    requires IsRun(states, events) && AllTimely(states, events) && events != []
    ensures var n := |events| - 1;
            && IsRun(states[..n + 1], events[..n]) && AllTimely(states[..n + 1], events[..n])
            && Follows(states[..n + 1], events[n], states[n + 1])
            && Timely(Present(states[..n + 1]), events[n]) && Current(states[..n + 1], events[n])
            && (events[n].step.Delivered? ==> Clock(events[..n]) <= events[n].now)
            && states == states[..n + 1] + [states[n + 1]] && events == events[..n] + [events[n]]
            && Present(states[..n + 1]) == states[n] && ItemsMatched(states)
  {
    hide *;
    RunIsHistory(states, events);
    AllButLast(states, events);
    AllButLastTimely(states, events);
    AlwaysAgreesExactly(states, events);
  }

  lemma OneMoreSound(past: Past, events: seq<Event>, event: Event, after: Entitlement)
    requires ItemsMatched(past) && Sound(Present(past), Clock(events)) && Agrees(Present(past))
    requires Follows(past, event, after) && Timely(Present(past), event) && Current(past, event)
    requires event.step.Delivered? ==> Clock(events) <= event.now
    ensures Sound(after, Clock(events + [event])) && Agrees(after)
  {
    assert (events + [event])[..|events|] == events;
    hide Agrees, Follows, Timely, Current, ItemsMatched;
    AgreesStep(past, event, after, Clock(events));
  }

  lemma RunIsHistory(states: seq<Entitlement>, events: seq<Event>)
    requires IsRun(states, events)
    ensures IsHistory(states, events)
    ensures events != [] && events[|events| - 1].step.Delivered? ==>
              Clock(events[..|events| - 1]) <= events[|events| - 1].now
  {
  }

  /** In such a state an access is granted exactly when the active grants, rebuilt, have time and accesses left. */
  lemma AccessIsPaidFor(e: Entitlement, clock: nat, now: nat, rows: seq<Grant>)
    requires Sound(e, clock) && Agrees(e) && Arranges(rows, e.grants)
    ensures MayAccess(e, now) <==>
              && e.status in {Active, Exhausted} && rows != []
              && (Endless(rows, DurationOf) || Chained(rows) > now)
              && (Endless(rows, AccessOf) || e.accessCount < Total(rows, AccessOf))
  {
    ActiveMeansRows(rows, e.grants);
    AgreementOf(e, rows);
  }

  // ---------- how row and grants part ways ----------

  /** A history with one more event. */
  lemma Extended(before: seq<Entitlement>, past: seq<Event>, event: Event, after: Entitlement)
    returns (states: seq<Entitlement>, events: seq<Event>)
    requires IsHistory(before, past) && Follows(before, event, after)
    ensures states == before + [after] && events == past + [event]
    ensures IsHistory(states, events)
    ensures IsRun(before, past) && (event.step.Delivered? ==> Clock(past) <= event.now) ==> IsRun(states, events)
    ensures Clock(events) == if event.step.Delivered? then Max(Clock(past), event.now) else Clock(past)
    ensures AllTimely(before, past) && Timely(Present(before), event) && Current(before, event) ==>
              AllTimely(states, events)
  {
    hide Follows, Timely, Current, NewEntitlement;
    states, events := before + [after], past + [event];
    forall i | 0 <= i < |past|
      ensures states[..i + 1] == before[..i + 1] && events[i] == past[i]
    {
    }
    forall i | 0 <= i < |past|
      ensures events[..i] == past[..i]
    {
    }
    assert states[..|past| + 1] == before && events[..|past|] == past;
  }

  /** A grant activated at 10 for 5, and a second one, also for 5, that is still pending. */
  function Early(): Entitlement {
    Entitlement(map["a" := Grant("a", "x", GrantActive(10), Some(5), None, None),
                    "b" := Grant("b", "y", GrantPending, Some(5), None, None)],
                Active, None, 0, None, 0, Some(10), Some(15))
  }

  lemma EarlyAgrees()
    ensures Sound(Early(), 10) && Agrees(Early())
  {
    var e := Early();
    var rows := [e.grants["a"]];
    assert e.grants["a"].IsActive();
    assert rows[..0] == [] && Chained(rows) == 15;
    assert UsageOf(rows[0]).None? && AccessOf(rows[0]).None? && DurationOf(rows[0]).Some?;
    OneArrangementDecides(e, rows);
  }

  /** Two purchases and a delivery come to that state. */
  lemma EarlyIsReached() returns (states: seq<Entitlement>, events: seq<Event>)
    ensures IsRun(states, events) && AllTimely(states, events) && Clock(events) == 10
    ensures |events| == 3 && Present(states) == Early()
  {
    var a := Grant("a", "x", GrantPending, Some(5), None, None);
    var b := Grant("b", "y", GrantPending, Some(5), None, None);
    var first := Purchase(NewEntitlement(), a);
    assert first.grants == map["a" := a] && !HasActive(first.grants);
    var second := Activate(first, "a", 10, true);
    assert second.grants == map["a" := Activated(a, 10)];
    assert Purchase(second, b) == Early();
    states, events := [NewEntitlement()], [];
    hide Early, NewEntitlement, Purchase, Activate, Current;
    NoRefund(states, Event(10, Purchased(a)));
    states, events := Extended(states, events, Event(10, Purchased(a)), first);
    NoRefund(states, Event(10, Delivered("a", true)));
    states, events := Extended(states, events, Event(10, Delivered("a", true)), second);
    NoRefund(states, Event(10, Purchased(b)));
    states, events := Extended(states, events, Event(10, Purchased(b)), Early());
  }

  lemma NoRefund(past: Past, event: Event)
    requires !event.step.RefundWritten?
    ensures Current(past, event)
  {
  }

  /** A run of which only the last delivery is not ready: its grant is active, but the row does not know of it. */
  lemma UntimelyDeliveryParts() returns (states: seq<Entitlement>, events: seq<Event>)
    ensures IsRun(states, events) && events != []
    ensures AllTimely(states[..|events|], events[..|events| - 1])
    ensures var after := Present(states);
            !Agrees(after) && "b" in after.grants && after.grants["b"].IsActive() && after.expiresAt == Some(15)
  {
    var before, past := EarlyIsReached();
    var after := Activate(Early(), "b", 10, false);
    EarlyAgrees();
    assert Unapplied(Early(), "b", false) && !Unlimited(Early());
    UnreadyActivation(Early(), "b", 10);
    hide Early, Agrees, Sound, AllTimely, IsRun, Activate;
    RunIsHistory(before, past);
    states, events := Extended(before, past, Event(10, Delivered("b", false)), after);
    assert states[..|events|] == before && events[..|events| - 1] == past;
  }

  /** A history of timely deliveries, of which only the last goes back in time: the row says 20, the grants come to
      15. */
  lemma ClockMustNotGoBack() returns (states: seq<Entitlement>, events: seq<Event>)
    ensures IsHistory(states, events) && AllTimely(states, events) && events != []
    ensures IsRun(states[..|events|], events[..|events| - 1])
    ensures var after := Present(states);
            && !Agrees(after) && after.expiresAt == Some(20)
            && forall rows :: Arranges(rows, after.grants) ==> RebuiltExpiry(rows) == Some(15)
  {
    var before, past := EarlyIsReached();
    var after := Activate(Early(), "b", 3, true);
    var last := Event(3, Delivered("b", true));
    BackdatedGrants(after);
    assert Timely(Early(), last);
    hide Early, Agrees, AllTimely, IsRun, Activate, Arranges, RebuiltExpiry, Current, Timely;
    RunIsHistory(before, past);
    NoRefund(before, last);
    states, events := Extended(before, past, last, after);
    assert states[..|events|] == before && events[..|events| - 1] == past;
  }

  lemma BackdatedGrants(after: Entitlement)
    requires after == Activate(Early(), "b", 3, true)
    ensures !Agrees(after) && after.expiresAt == Some(20)
    ensures forall rows :: Arranges(rows, after.grants) ==> RebuiltExpiry(rows) == Some(15)
  {
    assert Early().grants["a"].IsActive();
    var b, a := after.grants["b"], after.grants["a"];
    var rows := [b, a];
    BackdatedRows(b, a);
    assert Arranges(rows, after.grants);
    AgreementDecided(after, rows);
    hide Chained, Arranges;
    forall other | Arranges(other, after.grants)
      ensures RebuiltExpiry(other) == Some(15)
    {
      TiesDoNotMatter(rows, other, after.grants);
    }
  }

  lemma BackdatedRows(first: Grant, second: Grant)
    requires first.At() == 3 && second.At() == 10 && first.durationMs == second.durationMs == Some(5)
    ensures RebuiltExpiry([first, second]) == Some(15)
  {
    var rows := [first, second];
    assert rows[..1] == [first] && [first][..0] == [];
    assert Chained([first]) == 8;
    assert DurationOf(rows[0]).Some? && DurationOf(rows[1]).Some?;
  }

  // ---------- two refunds side by side ----------

  /** Both grants active: paid until 20. */
  function Both(): Entitlement {
    Entitlement(map["a" := Grant("a", "x", GrantActive(10), Some(5), None, None),
                    "b" := Grant("b", "y", GrantActive(10), Some(5), None, None)],
                Active, None, 0, None, 0, Some(10), Some(20))
  }

  lemma BothIsReached() returns (states: seq<Entitlement>, events: seq<Event>)
    ensures IsRun(states, events) && AllTimely(states, events)
    ensures |events| == 4 && Present(states) == Both()
  {
    var before, past := EarlyIsReached();
    BothFollows(before);
    hide *;
    states, events := Extended(before, past, Event(10, Delivered("b", true)), Both());
  }

  lemma BothFollows(past: Past)
    requires Present(past) == Early()
    ensures var event := Event(10, Delivered("b", true));
            Follows(past, event, Both()) && Timely(Early(), event) && Current(past, event)
  {
    assert Early().grants["a"].IsActive() && HasActive(Early().grants);
    assert Activate(Early(), "b", 10, true) == Both();
  }

  /** A refund that lists one grant of five prepares a row that ends at 15. */
  lemma OneGrantPrepares(g: Grant, order: string)
    requires g.At() == 10 && g.durationMs == Some(5) && g.usage.None? && g.access.None?
    ensures Prepare(order, 11, true, 0, 0, [g]) == Prepared(order, true, Active, None, None, Some(10), Some(15))
  {
    var rows := [g];
    assert rows[..0] == [] && Chained(rows) == 15;
    assert UsageOf(rows[0]).None? && AccessOf(rows[0]).None? && DurationOf(rows[0]).Some?;
  }

  lemma ListedBeside(item: string, other: string, order: string)
    requires (item == "a" && other == "b" && order == "x") || (item == "b" && other == "a" && order == "y")
    ensures Affects(Both().grants, order) && Arranges([Both().grants[other]], Refunded(Both().grants, order))
  {
    assert Both().grants[item].order == order;
  }

  /** A refund of one of the two orders, read while both grants were active, is an event from then on. */
  lemma RefundFollows(past: Past, order: string) returns (event: Event, after: Entitlement)
    requires |past| > 4 && past[4] == Both() && order in {"x", "y"}
    ensures event == Event(11, RefundWritten(order, 4, 4, 4)) && Follows(past, event, after)
    ensures after == Write(Present(past), Prepared(order, true, Active, None, None, Some(10), Some(15)))
  {
    var item, other := if order == "x" then "a" else "b", if order == "x" then "b" else "a";
    var g := Both().grants[other];
    var p := Prepared(order, true, Active, None, None, Some(10), Some(15));
    event, after := Event(11, RefundWritten(order, 4, 4, 4)), Write(Present(past), p);
    ListedBeside(item, other, order);
    OneGrantPrepares(g, order);
    hide Arranges, Refunded, Write, Prepare, Affects;
    assert IsPrepared(past, event, [g], p);
  }

  /** Two refunds that both read before either writes, in a run whose deliveries are timely and whose first refund is
      current: no grant is active any more, and the row still gives access until 15. */
  lemma RefundsSideBySide() returns (states: seq<Entitlement>, events: seq<Event>)
    ensures IsRun(states, events) && |events| == 6 && AllTimely(states[..6], events[..5])
    ensures events[4].step.RefundWritten? && events[5].step.RefundWritten?
    ensures Timely(states[5], events[5]) && !Current(states[..6], events[5])
    ensures var after := states[6];
            && !HasActive(after.grants) && after.status == Active && MayAccess(after, 12)
            && !Agrees(after) && !WellKept(after)
  {
    states, events := BothIsReached();
    var event, after := RefundFollows(states, "x");
    FirstIsCurrent(states, events, event);
    RunIsHistory(states, events);
    states, events := Extended(states, events, event, after);
    var event', after' := RefundFollows(states, "y");
    SecondParts(after, after');
    SecondIsNotCurrent(states, events, event', after');
    ghost var states5, events5 := states, events;
    RunIsHistory(states, events);
    hide Current, Agrees, WellKept, Both, Write, HasActive, Follows, IsRun, IsHistory, AllTimely;
    states, events := Extended(states, events, event', after');
    assert states[..6] == states5 && events[..5] == events5;
  }

  lemma FirstIsCurrent(states: seq<Entitlement>, events: seq<Event>, event: Event)
    requires IsRun(states, events) && AllTimely(states, events) && |events| == 4 && Present(states) == Both()
    requires event == Event(11, RefundWritten("x", 4, 4, 4))
    ensures Timely(Present(states), event) && Current(states, event)
  {
    hide Agrees, Sound, Current, ItemsMatched, AllTimely, Undisturbed, Both, Follows;
    RowIsAlwaysTheRebuild(states, events);
    FirstUndisturbed(states, event);
    UndisturbedIsCurrent(states, event);
  }

  lemma FirstUndisturbed(states: Past, event: Event)
    requires |states| == 5 && Present(states) == Both() && event == Event(11, RefundWritten("x", 4, 4, 4))
    ensures Undisturbed(states, event)
  {
    ListedBeside("a", "b", "x");
  }

  lemma SecondParts(after: Entitlement, after': Entitlement)
    requires after == Write(Both(), Prepared("x", true, Active, None, None, Some(10), Some(15)))
    requires after' == Write(after, Prepared("y", true, Active, None, None, Some(10), Some(15)))
    ensures !HasActive(after'.grants) && after'.status == Active && MayAccess(after', 12)
    ensures !Agrees(after') && !WellKept(after')
  {
    assert Arranges([], after'.grants);
    assert !RowSays(after', []);
  }

  /** By the exact condition, then, the second one was not current. */
  lemma SecondIsNotCurrent(states: seq<Entitlement>, events: seq<Event>, event: Event, after: Entitlement)
    requires IsRun(states, events) && AllTimely(states, events)
    requires event.step.RefundWritten? && Follows(states, event, after) && !Agrees(after)
    ensures Timely(Present(states), event) && !Current(states, event)
  {
    hide Agrees, Sound, Current, ItemsMatched, AllTimely, Follows;
    RowIsAlwaysTheRebuild(states, events);
    AgreesStep(states, event, after, Clock(events));
  }
}
