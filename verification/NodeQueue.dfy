/** The durable queue of the Node runtime. */
module NodeQueue {
  // Messages are leased under a token and settled with that token. Each statement is one atomic step on the table.
  import opened Arithmetic

  type Id = string
  type Token = string

  datatype Phase = Ready | Leased(token: Token, until: int) | Dead

  datatype Row = Row(phase: Phase, attempts: nat, availableAt: int, createdAt: int)

  type Rows = map<Id, Row>

  /** What a consumer is handed. */
  datatype Delivery = Delivery(id: Id, attempts: nat, token: Token)

  predicate Eligible(rows: Rows, id: Id, now: int) {
    && id in rows && rows[id].availableAt <= now
    && (rows[id].phase.Ready? || (rows[id].phase.Leased? && rows[id].phase.until <= now))
  }

  function Insert(rows: Rows, id: Id, delaySeconds: int, now: int): Rows {
    rows[id := Row(Ready, 0, now + Max(0, delaySeconds) * 1000, now)]
  }

  function Lease(rows: Rows, id: Id, token: Token, leaseMs: int, now: int): Rows
    requires id in rows
  {
    rows[id := rows[id].(phase := Leased(token, now + leaseMs), attempts := rows[id].attempts + 1)]
  }

  predicate HoldsLease(rows: Rows, d: Delivery) {
    d.id in rows && rows[d.id].phase.Leased? && rows[d.id].phase.token == d.token
  }

  function Acked(rows: Rows, d: Delivery): Rows {
    if HoldsLease(rows, d) then rows - {d.id} else rows
  }

  function Retried(rows: Rows, d: Delivery, maxAttempts: int, delayMs: int, now: int): Rows {
    if !HoldsLease(rows, d) then rows
    else
      var phase := if d.attempts >= maxAttempts then Dead else Ready;
      rows[d.id := rows[d.id].(phase := phase, availableAt := now + delayMs)]
  }

  // ---------- the table ----------

  /** Candidates in the order of the query: by availability, then age, then id. */
  ghost predicate Precedes(rows: Rows, a: Id, b: Id, idOrder: (Id, Id) -> bool)
    requires a in rows && b in rows
  {
    || rows[a].availableAt < rows[b].availableAt
    || (rows[a].availableAt == rows[b].availableAt && rows[a].createdAt < rows[b].createdAt)
    || (rows[a].availableAt == rows[b].availableAt && rows[a].createdAt == rows[b].createdAt && idOrder(a, b))
  }

  /** The first `limit` eligible messages. */
  ghost predicate Selects(rows: Rows, now: int, limit: nat, idOrder: (Id, Id) -> bool, chosen: seq<Id>) {
    && |chosen| <= limit
    && (forall i :: 0 <= i < |chosen| ==> Eligible(rows, chosen[i], now))
    && (forall i, j :: 0 <= i < j < |chosen| ==>
          chosen[i] != chosen[j] && Precedes(rows, chosen[i], chosen[j], idOrder))
    && (forall id :: Eligible(rows, id, now) && id !in chosen ==>
          |chosen| == limit && forall i :: 0 <= i < |chosen| ==> Precedes(rows, chosen[i], id, idOrder))
  }

  function LeaseAll(rows: Rows, chosen: seq<Id>, tokens: seq<Token>, leaseMs: int, now: int): (after: Rows)
    requires |tokens| == |chosen| && forall i :: 0 <= i < |chosen| ==> chosen[i] in rows
    ensures after.Keys == rows.Keys
  {
    if chosen == [] then rows
    else
      var n := |chosen| - 1;
      assert forall i :: 0 <= i < n ==> chosen[..n][i] == chosen[i];
      Lease(LeaseAll(rows, chosen[..n], tokens[..n], leaseMs, now), chosen[n], tokens[n], leaseMs, now)
  }

  lemma {:induction false} OthersUntouched(rows: Rows, chosen: seq<Id>, tokens: seq<Token>, leaseMs: int, now: int,
                                           id: Id)
    requires |tokens| == |chosen| && id in rows && forall i :: 0 <= i < |chosen| ==> chosen[i] in rows
    requires id !in chosen
    ensures LeaseAll(rows, chosen, tokens, leaseMs, now)[id] == rows[id]
  {
    if chosen != [] {
      OthersUntouched(rows, chosen[..|chosen| - 1], tokens[..|chosen| - 1], leaseMs, now, id);
    }
  }

  lemma {:induction false} EachLeased(rows: Rows, chosen: seq<Id>, tokens: seq<Token>, leaseMs: int, now: int, i: nat)
    requires |tokens| == |chosen| && i < |chosen| && forall j :: 0 <= j < |chosen| ==> chosen[j] in rows
    requires forall j, k :: 0 <= j < k < |chosen| ==> chosen[j] != chosen[k]
    ensures LeaseAll(rows, chosen, tokens, leaseMs, now)[chosen[i]]
         == Lease(rows, chosen[i], tokens[i], leaseMs, now)[chosen[i]]
  {
    var n := |chosen| - 1;
    if i < n {
      EachLeased(rows, chosen[..n], tokens[..n], leaseMs, now, i);
    } else {
      OthersUntouched(rows, chosen[..n], tokens[..n], leaseMs, now, chosen[n]);
    }
  }

  /** Ids are compared by some strict order. */
  ghost predicate IsStrictOrder(idOrder: (Id, Id) -> bool) {
    && (forall a, b :: idOrder(a, b) ==> !idOrder(b, a))
    && (forall a, b :: a == b || idOrder(a, b) || idOrder(b, a))
    && (forall a, b, c :: idOrder(a, b) && idOrder(b, c) ==> idOrder(a, c))
  }

  /** The messages that can be claimed and come before this one: available earlier, or at the same time and sent
      earlier, or both at the same time and with a smaller id. */
  ghost function Ahead(rows: Rows, id: Id, now: int, idOrder: (Id, Id) -> bool): set<Id>
    requires id in rows
  {
    set other | other in rows && Eligible(rows, other, now)
                && var a, b := rows[other], rows[id];
                   a.availableAt < b.availableAt
                   || (a.availableAt == b.availableAt
                       && (a.createdAt < b.createdAt || (a.createdAt == b.createdAt && idOrder(other, id))))
  }

  function Ids(chosen: seq<Id>): set<Id> {
    set i | 0 <= i < |chosen| :: chosen[i]
  }

  lemma {:induction false} DistinctIds(chosen: seq<Id>)
    requires forall i, j :: 0 <= i < j < |chosen| ==> chosen[i] != chosen[j]
    ensures |Ids(chosen)| == |chosen|
  {
    if chosen != [] {
      var n := |chosen| - 1;
      DistinctIds(chosen[..n]);
      assert Ids(chosen) == Ids(chosen[..n]) + {chosen[n]} by {
        assert forall i :: 0 <= i < n ==> chosen[..n][i] == chosen[i];
      }
    }
  }

  lemma FewerIds(a: set<Id>, b: set<Id>)
    requires a <= b
    ensures |a| <= |b|
  {
    assert b == a + (b - a);
  }

  /** No message is passed over: the i-th message claimed is the one with i messages before it. */
  lemma ClaimedInOrder(rows: Rows, now: int, limit: nat, idOrder: (Id, Id) -> bool, chosen: seq<Id>, i: nat)
    requires IsStrictOrder(idOrder) && Selects(rows, now, limit, idOrder, chosen) && i < |chosen|
    ensures Ahead(rows, chosen[i], now, idOrder) == Ids(chosen[..i])
    ensures |Ahead(rows, chosen[i], now, idOrder)| == i
  {
    assert Eligible(rows, chosen[i], now);
    var ahead := Ahead(rows, chosen[i], now, idOrder);
    forall other | other in ahead
      ensures other in Ids(chosen[..i])
    {
      assert Eligible(rows, other, now);
      if other in chosen {
        var j :| 0 <= j < |chosen| && chosen[j] == other;
        assert chosen[..i][j] == other;
      }
    }
    forall other | other in Ids(chosen[..i])
      ensures other in ahead
    {
      var j :| 0 <= j < i && chosen[..i][j] == other;
      assert Eligible(rows, chosen[j], now) && Precedes(rows, chosen[j], chosen[i], idOrder);
    }
    assert ahead == Ids(chosen[..i]);
    DistinctIds(chosen[..i]);
  }

  /** The one that comes before all others. */
  lemma {:induction false} FirstOf(rows: Rows, ids: set<Id>, idOrder: (Id, Id) -> bool) returns (first: Id)
    requires IsStrictOrder(idOrder) && ids != {} && ids <= rows.Keys
    ensures first in ids && forall id :: id in ids && id != first ==> Precedes(rows, first, id, idOrder)
    decreases |ids|
  {
    first :| first in ids;
    if ids != {first} {
      var other := FirstOf(rows, ids - {first}, idOrder);
      assert forall id :: id in ids ==> id == first || id in ids - {first};
      if Precedes(rows, other, first, idOrder) {
        first := other;
      } else {
        forall id | id in ids && id != first
          ensures Precedes(rows, first, id, idOrder)
        {
          assert id == other || Precedes(rows, other, id, idOrder);
        }
      }
    }
  }

  ghost predicate InQueueOrder(rows: Rows, ids: seq<Id>, idOrder: (Id, Id) -> bool)
    requires forall i :: 0 <= i < |ids| ==> ids[i] in rows
  {
    forall i, j :: 0 <= i < j < |ids| ==> ids[i] != ids[j] && Precedes(rows, ids[i], ids[j], idOrder)
  }

  lemma {:induction false} AllInOrder(rows: Rows, ids: set<Id>, idOrder: (Id, Id) -> bool) returns (all: seq<Id>)
    requires IsStrictOrder(idOrder) && ids <= rows.Keys
    ensures (forall id :: id in all <==> id in ids) && forall i :: 0 <= i < |all| ==> all[i] in rows
    ensures InQueueOrder(rows, all, idOrder)
    decreases |ids|
  {
    if ids == {} {
      all := [];
    } else {
      hide Precedes, IsStrictOrder;
      var first := FirstOf(rows, ids, idOrder);
      var rest := AllInOrder(rows, ids - {first}, idOrder);
      all := [first] + rest;
      assert forall i :: 0 <= i < |rest| ==> rest[i] in rest;
      assert forall i :: 0 < i < |all| ==> all[i] == rest[i - 1];
    }
  }

  /** The query has an answer, whatever is in the table. */
  lemma SelectionExists(rows: Rows, now: int, limit: nat, idOrder: (Id, Id) -> bool) returns (chosen: seq<Id>)
    requires IsStrictOrder(idOrder)
    ensures Selects(rows, now, limit, idOrder, chosen)
  {
    hide Precedes, IsStrictOrder;
    var candidates := set id | id in rows && Eligible(rows, id, now);
    var all := AllInOrder(rows, candidates, idOrder);
    chosen := if |all| <= limit then all else all[..limit];
    forall i | 0 <= i < |chosen|
      ensures chosen[i] == all[i] && Eligible(rows, chosen[i], now)
    {
      assert all[i] in all;
    }
    forall id | Eligible(rows, id, now) && id !in chosen
      ensures |chosen| == limit && forall i :: 0 <= i < |chosen| ==> Precedes(rows, chosen[i], id, idOrder)
    {
      assert id in candidates && id in all;
      var k :| 0 <= k < |all| && all[k] == id;
      assert all[..|chosen|] == chosen && id !in all[..|chosen|];
    }
  }

  /** A message that can be claimed is claimed exactly when fewer than the limit come before it. */
  lemma ClaimedByRank(rows: Rows, now: int, limit: nat, idOrder: (Id, Id) -> bool, chosen: seq<Id>, id: Id)
    requires IsStrictOrder(idOrder) && Selects(rows, now, limit, idOrder, chosen) && Eligible(rows, id, now)
    ensures id in chosen <==> |Ahead(rows, id, now, idOrder)| < limit
  {
    if id in chosen {
      var i :| 0 <= i < |chosen| && chosen[i] == id;
      ClaimedInOrder(rows, now, limit, idOrder, chosen, i);
    } else {
      forall other | other in Ids(chosen)
        ensures other in Ahead(rows, id, now, idOrder)
      {
        var i :| 0 <= i < |chosen| && chosen[i] == other;
        assert Eligible(rows, chosen[i], now) && Precedes(rows, chosen[i], id, idOrder);
      }
      DistinctIds(chosen);
      FewerIds(Ids(chosen), Ahead(rows, id, now, idOrder));
    }
  }

  lemma LeaseNone(rows: Rows, leaseMs: int, now: int)
    ensures LeaseAll(rows, [], [], leaseMs, now) == rows
  {
  }

  /** One turn of the claiming loop: the message is still as it was, and it is leased next. */
  lemma LeaseNext(rows: Rows, chosen: seq<Id>, tokens: seq<Token>, k: nat, leaseMs: int, now: int)
    requires |tokens| == |chosen| && k < |chosen| && forall i :: 0 <= i < |chosen| ==> chosen[i] in rows
    requires forall i, j :: 0 <= i < j < |chosen| ==> chosen[i] != chosen[j]
    ensures var done := LeaseAll(rows, chosen[..k], tokens[..k], leaseMs, now);
            && done[chosen[k]] == rows[chosen[k]]
            && LeaseAll(rows, chosen[..k + 1], tokens[..k + 1], leaseMs, now)
               == Lease(done, chosen[k], tokens[k], leaseMs, now)
  {
    OthersUntouched(rows, chosen[..k], tokens[..k], leaseMs, now, chosen[k]);
    assert chosen[..k + 1][..k] == chosen[..k] && tokens[..k + 1][..k] == tokens[..k];
  }

  class Table {
    var rows: Rows

    method Send(id: Id, delaySeconds: int, now: int)
      requires id !in rows
      modifies this
      ensures rows == Insert(old(rows), id, delaySeconds, now)
    {
      rows := rows[id := Row(Ready, 0, now + Max(0, delaySeconds) * 1000, now)];
    }

    /** Each selected message is leased under its own token and handed out with its count of attempts. */
    method Claim(chosen: seq<Id>, tokens: seq<Token>, limit: nat, idOrder: (Id, Id) -> bool, leaseMs: int, now: int)
      returns (deliveries: seq<Delivery>)
      requires Selects(rows, now, limit, idOrder, chosen) && |tokens| == |chosen|
      modifies this
      ensures rows == LeaseAll(old(rows), chosen, tokens, leaseMs, now)
      ensures |deliveries| == |chosen|
      ensures forall i :: 0 <= i < |chosen| ==>
                deliveries[i] == Delivery(chosen[i], old(rows)[chosen[i]].attempts + 1, tokens[i])
      ensures forall i :: 0 <= i < |deliveries| ==> HoldsLease(rows, deliveries[i])
    {
      hide LeaseAll, Precedes;
      deliveries := [];
      ghost var before := rows;
      assert chosen[..0] == [] && tokens[..0] == [];
      LeaseNone(before, leaseMs, now);
      for k := 0 to |chosen|
        invariant rows == LeaseAll(before, chosen[..k], tokens[..k], leaseMs, now)
        invariant |deliveries| == k
        invariant forall i :: 0 <= i < k ==>
                    deliveries[i] == Delivery(chosen[i], before[chosen[i]].attempts + 1, tokens[i])
      {
        LeaseNext(before, chosen, tokens, k, leaseMs, now);
        var id := chosen[k];
        assert Eligible(before, id, now);
        if rows[id].phase.Ready? || (rows[id].phase.Leased? && rows[id].phase.until <= now) {
          rows := Lease(rows, id, tokens[k], leaseMs, now);
          deliveries := deliveries + [Delivery(id, rows[id].attempts, tokens[k])];
        }
      }
      assert chosen[..|chosen|] == chosen && tokens[..|chosen|] == tokens;
      forall i | 0 <= i < |chosen|
        ensures HoldsLease(rows, deliveries[i])
      {
        EachLeased(before, chosen, tokens, leaseMs, now, i);
      }
    }

    method Ack(d: Delivery)
      modifies this
      ensures rows == Acked(old(rows), d)
    {
      if d.id in rows && rows[d.id].phase.Leased? && rows[d.id].phase.token == d.token {
        rows := rows - {d.id};
      }
    }

    method Retry(d: Delivery, maxAttempts: int, delayMs: int, now: int)
      modifies this
      ensures rows == Retried(old(rows), d, maxAttempts, delayMs, now)
    {
      var dead := d.attempts >= maxAttempts;
      if d.id in rows && rows[d.id].phase.Leased? && rows[d.id].phase.token == d.token {
        rows := rows[d.id := rows[d.id].(phase := if dead then Dead else Ready, availableAt := now + delayMs)];
      }
    }
  }

  // ---------- runs ----------

  /** Consumers settle with any delivery they were ever handed, as late and as often as they like, or never. */
  datatype Event =
    | Send(id: Id, delaySeconds: int, now: int)
    | Claim(id: Id, token: Token, leaseMs: int, now: int)
    | Ack(delivery: Delivery)
    | Retry(delivery: Delivery, delayMs: int, now: int)

  function Step(rows: Rows, e: Event, maxAttempts: int): Rows {
    match e
    case Send(id, delaySeconds, now) => Insert(rows, id, delaySeconds, now)
    case Claim(id, token, leaseMs, now) =>
      if Eligible(rows, id, now) then Lease(rows, id, token, leaseMs, now) else rows
    case Ack(d) => Acked(rows, d)
    case Retry(d, delayMs, now) => Retried(rows, d, maxAttempts, delayMs, now)
  }

  function After(events: seq<Event>, max: int): Rows {
    if events == [] then map[] else Step(After(events[..|events| - 1], max), events[|events| - 1], max)
  }

  /** The event at the end of a run hands a message out. */
  predicate HandsOut(events: seq<Event>, max: int, id: Id)
    requires events != []
  {
    var e := events[|events| - 1];
    e.Claim? && e.id == id && Eligible(After(events[..|events| - 1], max), id, e.now)
  }

  /** The deliveries of a message, in order. */
  function Deliveries(events: seq<Event>, max: int, id: Id): seq<Delivery> {
    if events == [] then []
    else
      var before := Deliveries(events[..|events| - 1], max, id);
      if HandsOut(events, max, id) then before + [Delivery(id, |before| + 1, events[|events| - 1].token)] else before
  }

  predicate WasSent(events: seq<Event>, id: Id) {
    exists i :: 0 <= i < |events| && events[i].Send? && events[i].id == id
  }

  predicate TokenUsed(events: seq<Event>, token: Token) {
    exists i :: 0 <= i < |events| && events[i].Claim? && events[i].token == token
  }

  /** Message ids and tokens are drawn afresh, and only a delivery that was handed out can be settled. */
  ghost predicate Possible(events: seq<Event>, e: Event, max: int) {
    match e
    case Send(id, _, _) => !WasSent(events, id)
    case Claim(_, token, _, _) => !TokenUsed(events, token)
    case Ack(d) => d in Deliveries(events, max, d.id)
    case Retry(d, _, _) => d in Deliveries(events, max, d.id)
  }

  ghost predicate IsRun(events: seq<Event>, max: int) {
    events != [] ==>
      IsRun(events[..|events| - 1], max) && Possible(events[..|events| - 1], events[|events| - 1], max)
  }

  predicate Latest(events: seq<Event>, max: int, d: Delivery) {
    var all := Deliveries(events, max, d.id);
    all != [] && all[|all| - 1] == d
  }

  /** How a message left the table: acknowledged with the latest delivery of it, and not handed out since. */
  ghost predicate AcknowledgedByLatest(events: seq<Event>, max: int, id: Id) {
    exists i :: 0 <= i < |events| && AckAt(events, max, id, i)
  }

  predicate AckAt(events: seq<Event>, max: int, id: Id, i: nat)
    requires i < |events|
  {
    events[i].Ack? && events[i].delivery.id == id && Latest(events, max, events[i].delivery)
  }

  /** What a run keeps about one message. */
  ghost predicate Kept(events: seq<Event>, max: int, id: Id) {
    var rows, all := After(events, max), Deliveries(events, max, id);
    && (id in rows ==> WasSent(events, id) && rows[id].attempts == |all|)
    && (id in rows && rows[id].phase.Leased? ==> all != [] && rows[id].phase.token == all[|all| - 1].token)
    && (id in rows && rows[id].phase.Ready? && max >= 1 && all != [] ==> |all| < max)
    && (id in rows && rows[id].phase.Dead? ==> |all| >= max)
    && (!WasSent(events, id) ==> all == [])
    && (WasSent(events, id) && id !in rows ==> AcknowledgedByLatest(events, max, id))
  }

  lemma WasSentLast(events: seq<Event>, id: Id)
    requires events != []
    ensures var n := |events| - 1;
            WasSent(events, id) <==> WasSent(events[..n], id) || (events[n].Send? && events[n].id == id)
  {
    var n := |events| - 1;
    if WasSent(events, id) {
      var i :| 0 <= i < |events| && events[i].Send? && events[i].id == id;
      assert i < n ==> events[..n][i] == events[i];
    }
    if WasSent(events[..n], id) {
      var i :| 0 <= i < n && events[..n][i].Send? && events[..n][i].id == id;
      assert events[i] == events[..n][i];
    }
  }

  /** The deliveries of a message are numbered from 1, and their tokens are those of claims. */
  lemma {:induction false} DeliveriesNumbered(events: seq<Event>, max: int, id: Id, k: nat)
    requires k < |Deliveries(events, max, id)|
    ensures Deliveries(events, max, id)[k].id == id && Deliveries(events, max, id)[k].attempts == k + 1
    ensures TokenUsed(events, Deliveries(events, max, id)[k].token)
    decreases |events|
  {
    var n := |events| - 1;
    var before := Deliveries(events[..n], max, id);
    if k < |before| {
      DeliveriesNumbered(events[..n], max, id, k);
      var i :| 0 <= i < n && events[..n][i].Claim? && events[..n][i].token == before[k].token;
      assert events[i] == events[..n][i];
    } else {
      assert events[n].Claim?;
    }
  }

  /** No two deliveries of a message share a token. */
  lemma {:induction false} TokensDistinct(events: seq<Event>, max: int, id: Id, j: nat, k: nat)
    requires IsRun(events, max) && j < k < |Deliveries(events, max, id)|
    ensures Deliveries(events, max, id)[j].token != Deliveries(events, max, id)[k].token
    decreases |events|
  {
    var n := |events| - 1;
    var before := Deliveries(events[..n], max, id);
    if k < |before| {
      TokensDistinct(events[..n], max, id, j, k);
    } else {
      DeliveriesNumbered(events[..n], max, id, j);
    }
  }

  /** A delivery whose token is the current one is the latest delivery. */
  lemma CurrentIsLatest(events: seq<Event>, max: int, d: Delivery)
    requires IsRun(events, max) && Kept(events, max, d.id)
    requires d in Deliveries(events, max, d.id)
    ensures HoldsLease(After(events, max), d) ==>
              Latest(events, max, d) && d.attempts == |Deliveries(events, max, d.id)|
  {
    var all := Deliveries(events, max, d.id);
    var k :| 0 <= k < |all| && all[k] == d;
    DeliveriesNumbered(events, max, d.id, k);
    if HoldsLease(After(events, max), d) && k < |all| - 1 {
      TokensDistinct(events, max, d.id, k, |all| - 1);
    }
  }

  lemma {:induction false} RunKeeps(events: seq<Event>, max: int, id: Id)
    requires IsRun(events, max)
    ensures Kept(events, max, id)
    decreases |events|
  {
    if events != [] {
      var n := |events| - 1;
      RunKeeps(events[..n], max, id);
      StepKeeps(events, max, id);
    }
  }

  lemma AcknowledgedStays(events: seq<Event>, max: int, id: Id)
    requires events != [] && AcknowledgedByLatest(events[..|events| - 1], max, id)
    requires Deliveries(events, max, id) == Deliveries(events[..|events| - 1], max, id)
    ensures AcknowledgedByLatest(events, max, id)
  {
    hide Deliveries, After;
    var n := |events| - 1;
    var i :| 0 <= i < n && AckAt(events[..n], max, id, i);
    assert events[i] == events[..n][i];
    assert AckAt(events, max, id, i);
  }

  lemma StepKeeps(events: seq<Event>, max: int, id: Id)
    requires events != [] && IsRun(events, max)
    requires Kept(events[..|events| - 1], max, id)
    ensures Kept(events, max, id)
  {
    hide IsRun, WasSent, TokenUsed, AcknowledgedByLatest;
    var n := |events| - 1;
    var before, e := events[..n], events[n];
    LastIsPossible(events, max);
    WasSentLast(events, id);
    if AcknowledgedByLatest(before, max, id) && !HandsOut(events, max, id) {
      AcknowledgedStays(events, max, id);
    }
    match e
    case Send(_, _, _) =>
    case Claim(_, _, _, _) =>
    case Ack(d) =>
      if d.id == id && HoldsLease(After(before, max), d) {
        CurrentIsLatest(before, max, d);
        assert AckAt(events, max, id, n);
        ShowAcknowledged(events, max, id, n);
      }
    case Retry(d, _, _) =>
      if d.id == id {
        CurrentIsLatest(before, max, d);
      }
  }

  lemma ShowAcknowledged(events: seq<Event>, max: int, id: Id, i: nat)
    requires i < |events| && AckAt(events, max, id, i)
    ensures AcknowledgedByLatest(events, max, id)
  {
  }

  lemma LastIsPossible(events: seq<Event>, max: int)
    requires events != [] && IsRun(events, max)
    ensures IsRun(events[..|events| - 1], max) && Possible(events[..|events| - 1], events[|events| - 1], max)
  {
  }

  // ---------- what a run guarantees ----------

  /** The claims of a batch, one event for each message. */
  function BatchClaims(chosen: seq<Id>, tokens: seq<Token>, leaseMs: int, now: int): (claims: seq<Event>)
    requires |tokens| == |chosen|
    ensures |claims| == |chosen|
  {
    seq(|chosen|, i requires 0 <= i < |chosen| => Claim(chosen[i], tokens[i], leaseMs, now))
  }

  /** The messages are different and can all be claimed, and the tokens are drawn afresh. */
  ghost predicate CanClaim(events: seq<Event>, max: int, chosen: seq<Id>, tokens: seq<Token>, now: int) {
    && |tokens| == |chosen|
    && (forall i :: 0 <= i < |chosen| ==> Eligible(After(events, max), chosen[i], now))
    && (forall i, j :: 0 <= i < j < |chosen| ==> chosen[i] != chosen[j] && tokens[i] != tokens[j])
    && (forall i :: 0 <= i < |tokens| ==> !TokenUsed(events, tokens[i]))
  }

  /** The batch without its last message. */
  lemma ShorterBatch(events: seq<Event>, chosen: seq<Id>, tokens: seq<Token>, leaseMs: int, now: int)
    requires |tokens| == |chosen| && chosen != []
    ensures var n := |chosen| - 1;
            && chosen == chosen[..n] + [chosen[n]] && tokens == tokens[..n] + [tokens[n]]
            && var longer := events + BatchClaims(chosen, tokens, leaseMs, now);
               && longer != []
               && longer[..|longer| - 1] == events + BatchClaims(chosen[..n], tokens[..n], leaseMs, now)
               && longer[|longer| - 1] == Claim(chosen[n], tokens[n], leaseMs, now)
  {
  }

  lemma FreshAfterBatch(events: seq<Event>, chosen: seq<Id>, tokens: seq<Token>, leaseMs: int, now: int, token: Token)
    requires |tokens| == |chosen| && token !in tokens && !TokenUsed(events, token)
    ensures !TokenUsed(events + BatchClaims(chosen, tokens, leaseMs, now), token)
  {
    var longer := events + BatchClaims(chosen, tokens, leaseMs, now);
    forall i | 0 <= i < |longer|
      ensures !(longer[i].Claim? && longer[i].token == token)
    {
      assert i < |events| ==> longer[i] == events[i];
      assert i >= |events| ==> longer[i].token == tokens[i - |events|];
    }
  }

  /** Claiming a batch at once is a run of single claims, so what holds over runs holds for batches too. */
  lemma {:induction false} BatchIsARun(events: seq<Event>, max: int, chosen: seq<Id>, tokens: seq<Token>,
                                       leaseMs: int, now: int)
    requires IsRun(events, max) && CanClaim(events, max, chosen, tokens, now)
    ensures var longer := events + BatchClaims(chosen, tokens, leaseMs, now);
            && IsRun(longer, max)
            && After(longer, max) == LeaseAll(After(events, max), chosen, tokens, leaseMs, now)
    decreases |chosen|
  {
    hide TokenUsed, BatchClaims;
    var longer := events + BatchClaims(chosen, tokens, leaseMs, now);
    if chosen == [] {
      assert longer == events;
    } else {
      var n := |chosen| - 1;
      ShorterBatch(events, chosen, tokens, leaseMs, now);
      BatchIsARun(events, max, chosen[..n], tokens[..n], leaseMs, now);
      OthersUntouched(After(events, max), chosen[..n], tokens[..n], leaseMs, now, chosen[n]);
      FreshAfterBatch(events, chosen[..n], tokens[..n], leaseMs, now, tokens[n]);
    }
  }

  /** The batch hands out each of its messages once, and no other. */
  lemma {:induction false} BatchHandsOut(events: seq<Event>, max: int, chosen: seq<Id>, tokens: seq<Token>,
                                         leaseMs: int, now: int, id: Id)
    requires IsRun(events, max) && CanClaim(events, max, chosen, tokens, now)
    ensures var before := Deliveries(events, max, id);
            var after := Deliveries(events + BatchClaims(chosen, tokens, leaseMs, now), max, id);
            && (id !in chosen ==> after == before)
            && forall i :: 0 <= i < |chosen| && chosen[i] == id ==>
                 after == before + [Delivery(id, |before| + 1, tokens[i])]
    decreases |chosen|
  {
    hide TokenUsed, BatchClaims, IsRun;
    var longer := events + BatchClaims(chosen, tokens, leaseMs, now);
    if chosen == [] {
      assert longer == events;
    } else {
      var n := |chosen| - 1;
      ShorterBatch(events, chosen, tokens, leaseMs, now);
      BatchHandsOut(events, max, chosen[..n], tokens[..n], leaseMs, now, id);
      BatchIsARun(events, max, chosen[..n], tokens[..n], leaseMs, now);
      OthersUntouched(After(events, max), chosen[..n], tokens[..n], leaseMs, now, chosen[n]);
    }
  }

  /** What a batch claim returns for a message is its one new delivery, numbered by the attempts stored in its row. */
  lemma BatchDeliveries(events: seq<Event>, max: int, chosen: seq<Id>, tokens: seq<Token>, leaseMs: int, now: int,
                        i: nat)
    requires IsRun(events, max) && CanClaim(events, max, chosen, tokens, now) && i < |chosen|
    ensures var before := Deliveries(events, max, chosen[i]);
            var attempts := After(events, max)[chosen[i]].attempts;
            Deliveries(events + BatchClaims(chosen, tokens, leaseMs, now), max, chosen[i])
            == before + [Delivery(chosen[i], attempts + 1, tokens[i])]
  {
    hide IsRun, Deliveries, After;
    RunKeeps(events, max, chosen[i]);
    BatchHandsOut(events, max, chosen, tokens, leaseMs, now, chosen[i]);
  }

  /** No message is lost: one that was sent is still in the table, or was acknowledged with its latest delivery. */
  lemma NoMessageIsLost(events: seq<Event>, max: int, id: Id)
    requires IsRun(events, max) && WasSent(events, id)
    ensures id in After(events, max) || AcknowledgedByLatest(events, max, id)
    ensures id in After(events, max) ==> After(events, max)[id].attempts == |Deliveries(events, max, id)|
  {
    hide IsRun, WasSent, AcknowledgedByLatest;
    RunKeeps(events, max, id);
  }

  /** Settling with a delivery that is not the latest of its message changes nothing, and settling twice is
      settling once. */
  lemma StaleSettlementsDoNothing(events: seq<Event>, max: int, d: Delivery, delayMs: int, now: int)
    requires IsRun(events, max) && d in Deliveries(events, max, d.id)
    ensures !Latest(events, max, d) ==> Step(After(events, max), Ack(d), max) == After(events, max)
    ensures !Latest(events, max, d) ==> Step(After(events, max), Retry(d, delayMs, now), max) == After(events, max)
    ensures var once := Step(After(events, max), Ack(d), max); !HoldsLease(once, d)
    ensures var once := Step(After(events, max), Retry(d, delayMs, now), max); !HoldsLease(once, d)
  {
    hide IsRun;
    RunKeeps(events, max, d.id);
    CurrentIsLatest(events, max, d);
  }

  /** The claims of a message that took over a lease that had run out. */
  function Takeovers(events: seq<Event>, max: int, id: Id): nat {
    if events == [] then 0
    else
      var n := |events| - 1;
      Takeovers(events[..n], max, id)
      + if HandsOut(events, max, id) && After(events[..n], max)[id].phase.Leased? then 1 else 0
  }

  /** The limit on attempts is passed only by taking over leases that have run out. */
  lemma {:induction false} AttemptsAreLimited(events: seq<Event>, max: int, id: Id)
    requires IsRun(events, max) && max >= 1
    ensures |Deliveries(events, max, id)| <= max + Takeovers(events, max, id)
    decreases |events|
  {
    if events != [] {
      var n := |events| - 1;
      hide Kept;
      AttemptsAreLimited(events[..n], max, id);
      if HandsOut(events, max, id) {
        ReadyIsBelow(events[..n], max, id);
      }
    }
  }

  lemma ReadyIsBelow(events: seq<Event>, max: int, id: Id)
    requires IsRun(events, max) && max >= 1
    ensures id in After(events, max) && After(events, max)[id].phase.Ready? ==> |Deliveries(events, max, id)| < max
  {
    hide IsRun;
    RunKeeps(events, max, id);
  }

  /** The message passes the limit at a claim exactly when the claim takes over a lease of its last attempt or later. */
  lemma LimitPassedByTakeover(events: seq<Event>, max: int, id: Id, now: int)
    requires IsRun(events, max) && max >= 1 && Eligible(After(events, max), id, now)
    ensures After(events, max)[id].attempts + 1 > max <==>
              After(events, max)[id].phase.Leased? && After(events, max)[id].attempts >= max
  {
    hide IsRun;
    RunKeeps(events, max, id);
  }

  /** Nothing hands out a dead message again, and it was delivered at least as often as the limit says. */
  lemma DeadStaysDead(events: seq<Event>, max: int, id: Id, e: Event)
    requires IsRun(events, max) && Possible(events, e, max)
    requires id in After(events, max) && After(events, max)[id].phase.Dead?
    ensures |Deliveries(events, max, id)| >= max
    ensures id in Step(After(events, max), e, max) && Step(After(events, max), e, max)[id] == After(events, max)[id]
  {
    hide IsRun;
    RunKeeps(events, max, id);
  }

  /** Since event i nothing has handed the message out again or given it back. */
  predicate Undisturbed(events: seq<Event>, max: int, id: Id, i: nat)
    requires i < |events|
  {
    forall j :: i < j < |events| ==> !Disturbs(events, max, id, j)
  }

  predicate Disturbs(events: seq<Event>, max: int, id: Id, j: nat)
    requires j < |events|
  {
    || HandsOut(events[..j + 1], max, id)
    || GivesBack(events, max, id, j)
  }

  /** A retry that presents the current lease of the message; one that comes too late gives nothing back. */
  predicate GivesBack(events: seq<Event>, max: int, id: Id, j: nat)
    requires j < |events|
  {
    events[j].Retry? && events[j].delivery.id == id && HoldsLease(After(events[..j], max), events[j].delivery)
  }

  /** After a claim the message stays leased under its token until it is settled or claimed again. */
  lemma {:induction false} LeaseHolds(events: seq<Event>, max: int, id: Id, i: nat)
    requires IsRun(events, max) && i < |events| && HandsOut(events[..i + 1], max, id) && Undisturbed(events, max, id, i)
    ensures id in After(events, max) ==>
              && After(events, max)[id].phase == Leased(events[i].token, events[i].now + events[i].leaseMs)
              && After(events, max)[id].availableAt <= events[i].now
    decreases |events|
  {
    hide IsRun, Possible;
    var n := |events| - 1;
    PrefixClaims(events, i);
    if i < n {
      ShorterIsUndisturbed(events, max, id, i);
      LastIsPossible(events, max);
      assert events[..n][..i + 1] == events[..i + 1];
      LeaseHolds(events[..n], max, id, i);
      assert events[..n + 1] == events;
      assert !Disturbs(events, max, id, n);
      NotSentAgain(events, max, id, i);
    } else {
      assert events[..n + 1] == events;
    }
  }

  lemma PrefixClaims(events: seq<Event>, i: nat)
    requires i < |events|
    ensures events[..i + 1][..i] == events[..i] && events[..i + 1][i] == events[i]
  {
  }

  lemma ShorterIsUndisturbed(events: seq<Event>, max: int, id: Id, i: nat)
    requires i < |events| - 1 && Undisturbed(events, max, id, i)
    ensures Undisturbed(events[..|events| - 1], max, id, i)
  {
    var n := |events| - 1;
    forall j | i < j < n
      ensures !Disturbs(events[..n], max, id, j)
    {
      assert events[..n][..j + 1] == events[..j + 1] && events[..n][..j] == events[..j];
      assert !Disturbs(events, max, id, j);
    }
  }

  lemma {:induction false} PrefixIsRun(events: seq<Event>, max: int, k: nat)
    requires IsRun(events, max) && k <= |events|
    ensures IsRun(events[..k], max)
    decreases |events|
  {
    if k < |events| {
      PrefixIsRun(events[..|events| - 1], max, k);
      assert events[..|events| - 1][..k] == events[..k];
    } else {
      assert events[..k] == events;
    }
  }

  /** A message that was handed out had been sent, so its id is not drawn again. */
  lemma NotSentAgain(events: seq<Event>, max: int, id: Id, i: nat)
    requires IsRun(events, max) && i < |events| - 1 && HandsOut(events[..i + 1], max, id)
    ensures var last := events[|events| - 1]; last.Send? ==> last.id != id
  {
    hide Kept;
    var n := |events| - 1;
    LastIsPossible(events, max);
    PrefixClaims(events, i);
    PrefixIsRun(events, max, i);
    RunKeeps(events[..i], max, id);
    SentBefore(events, max, id, i);
  }

  lemma SentBefore(events: seq<Event>, max: int, id: Id, i: nat)
    requires i < |events| - 1 && id in After(events[..i], max) && Kept(events[..i], max, id)
    ensures WasSent(events[..|events| - 1], id)
  {
    var k :| 0 <= k < i && events[..i][k].Send? && events[..i][k].id == id;
    assert events[..|events| - 1][k] == events[..i][k];
  }

  /** Deliveries of a message do not overlap in time: between a claim and the next one, unless the first was given
      back by a retry under its own lease, at least the first claim's lease has passed. Retries of earlier deliveries
      that come in between make no difference. */
  lemma LeasesDoNotOverlap(events: seq<Event>, max: int, id: Id, i: nat, j: nat)
    requires IsRun(events, max) && i < j < |events|
    requires HandsOut(events[..i + 1], max, id) && HandsOut(events[..j + 1], max, id)
    requires Undisturbed(events[..j], max, id, i)
    ensures events[j].now >= events[i].now + events[i].leaseMs
  {
    hide IsRun, Undisturbed;
    PrefixIsRun(events, max, j);
    PrefixClaims(events, j);
    assert events[..j][..i + 1] == events[..i + 1];
    assert events[..j][i] == events[i];
    LeaseHolds(events[..j], max, id, i);
  }

  /** While it is not settled, a message that was handed out can be claimed exactly from the end of its lease on. */
  lemma ClaimableAfterLease(events: seq<Event>, max: int, id: Id, i: nat, now: int)
    requires IsRun(events, max) && i < |events| && HandsOut(events[..i + 1], max, id) && Undisturbed(events, max, id, i)
    requires events[i].leaseMs >= 0 && id in After(events, max)
    ensures Eligible(After(events, max), id, now) <==> now >= events[i].now + events[i].leaseMs
  {
    hide IsRun, Undisturbed, HandsOut;
    LeaseHolds(events, max, id, i);
  }

  // ---------- when a message comes back ----------

  /** Nothing has handed the message out since event i. */
  predicate NotHandedOut(events: seq<Event>, max: int, id: Id, i: nat)
    requires i < |events|
  {
    forall j :: i < j < |events| ==> !HandsOutAt(events, max, id, j)
  }

  predicate HandsOutAt(events: seq<Event>, max: int, id: Id, j: nat)
    requires j < |events|
  {
    HandsOut(events[..j + 1], max, id)
  }

  lemma ShorterIsNotHandedOut(events: seq<Event>, max: int, id: Id, i: nat)
    requires i < |events| - 1 && NotHandedOut(events, max, id, i)
    ensures NotHandedOut(events[..|events| - 1], max, id, i) && !HandsOut(events, max, id)
  {
    var n := |events| - 1;
    assert events[..n + 1] == events && !HandsOutAt(events, max, id, n);
    forall j | i < j < n
      ensures !HandsOutAt(events[..n], max, id, j)
    {
      assert events[..n][..j + 1] == events[..j + 1] && !HandsOutAt(events, max, id, j);
    }
  }

  /** What waits in the table is left as it is until it is handed out. */
  lemma {:induction false} StaysWaiting(events: seq<Event>, max: int, id: Id, i: nat)
    requires IsRun(events, max) && i < |events| && NotHandedOut(events, max, id, i)
    requires id in After(events[..i + 1], max) && !After(events[..i + 1], max)[id].phase.Leased?
    ensures id in After(events, max) && After(events, max)[id] == After(events[..i + 1], max)[id]
    decreases |events|
  {
    var n := |events| - 1;
    assert events[..n + 1] == events;
    if i < n {
      hide IsRun, Possible, Kept;
      ShorterIsNotHandedOut(events, max, id, i);
      LastIsPossible(events, max);
      assert events[..n][..i + 1] == events[..i + 1];
      StaysWaiting(events[..n], max, id, i);
      RunKeeps(events[..n], max, id);
      NotSentTwice(events, max, id);
    }
  }

  lemma NotSentTwice(events: seq<Event>, max: int, id: Id)
    requires IsRun(events, max) && events != []
    requires id in After(events[..|events| - 1], max) && Kept(events[..|events| - 1], max, id)
    ensures var last := events[|events| - 1]; last.Send? ==> last.id != id
  {
    LastIsPossible(events, max);
  }

  /** A message that a consumer gave back can be claimed again exactly from the end of the delay on, unless that was its
      last attempt; then never. */
  lemma ClaimableAfterRetry(events: seq<Event>, max: int, id: Id, i: nat, now: int)
    requires IsRun(events, max) && i < |events| && GivesBack(events, max, id, i) && NotHandedOut(events, max, id, i)
    ensures id in After(events, max)
    ensures Eligible(After(events, max), id, now) <==>
              events[i].delivery.attempts < max && now >= events[i].now + events[i].delayMs
  {
    hide IsRun, NotHandedOut;
    assert events[..i + 1][..i] == events[..i] && events[..i + 1][i] == events[i];
    StaysWaiting(events, max, id, i);
  }

  /** So no attempt comes before the delay of the retry before it is over. */
  lemma RetryWaits(events: seq<Event>, max: int, id: Id, i: nat, j: nat)
    requires IsRun(events, max) && i < j < |events| && GivesBack(events, max, id, i)
    requires NotHandedOut(events[..j], max, id, i) && HandsOut(events[..j + 1], max, id)
    ensures events[j].now >= events[i].now + events[i].delayMs && events[i].delivery.attempts < max
  {
    hide IsRun, NotHandedOut;
    PrefixIsRun(events, max, j);
    PrefixClaims(events, j);
    assert events[..j][..i] == events[..i] && events[..j][i] == events[i];
    ClaimableAfterRetry(events[..j], max, id, i, events[j].now);
  }

  /** A message that was sent can be claimed exactly from the end of its delay on, which a negative one does not
      bring forward. */
  lemma ClaimableAfterSend(events: seq<Event>, max: int, id: Id, i: nat, now: int)
    requires IsRun(events, max) && i < |events| && events[i].Send? && events[i].id == id
    requires NotHandedOut(events, max, id, i)
    ensures id in After(events, max) && After(events, max)[id].createdAt == events[i].now
    ensures Eligible(After(events, max), id, now) <==>
              now >= events[i].now && now >= events[i].now + events[i].delaySeconds * 1000
  {
    hide IsRun, NotHandedOut;
    assert events[..i + 1][..i] == events[..i] && events[..i + 1][i] == events[i];
    StaysWaiting(events, max, id, i);
  }

  function ClaimableFrom(row: Row): int {
    if row.phase.Leased? then Max(row.availableAt, row.phase.until) else row.availableAt
  }

  /** Nothing is stuck: a message that is not dead can be claimed at every moment from some time on. */
  lemma NothingIsStuck(rows: Rows, id: Id, now: int)
    requires id in rows
    ensures Eligible(rows, id, now) <==> !rows[id].phase.Dead? && now >= ClaimableFrom(rows[id])
  {
    assert rows[id].phase.Dead? || rows[id].phase.Ready? || rows[id].phase.Leased?;
  }

  /** With a limit of one attempt a message can be delivered twice: its first consumer never came back. */
  lemma LimitCanBePassed()
    ensures exists events: seq<Event>, id: Id :: IsRun(events, 1) && |Deliveries(events, 1, id)| == 2
  {
    var one := [Send("m", 0, 0)];
    var two := one + [Claim("m", "s", 10, 0)];
    var three := two + [Claim("m", "t", 10, 10)];
    assert one[..0] == [] && two[..1] == one && three[..2] == two;
    assert IsRun([], 1) && IsRun(one, 1);
    assert Deliveries(one, 1, "m") == [];
    assert IsRun(two, 1) && HandsOut(two, 1, "m");
    assert |Deliveries(two, 1, "m")| == 1;
    assert IsRun(three, 1) && HandsOut(three, 1, "m");
    assert |Deliveries(three, 1, "m")| == 2;
  }

  // ---------- retry delays ----------

  function Doubled(base: int, times: nat): int {
    if times == 0 then base else 2 * Doubled(base, times - 1)
  }

  /** The delay before a message is tried again, unless the handler asked for one. */
  function RetryDelay(attempts: nat, base: int, cap: int): int {
    Min(cap, Doubled(base, if attempts >= 1 then attempts - 1 else 0))
  }

  /** The first delay is the base, and each is twice the one before, until the cap is reached; then it stays there. */
  lemma DelayDoubles(attempts: nat, base: int, cap: int)
    requires attempts >= 1 && base >= 0 && cap >= 0
    ensures RetryDelay(0, base, cap) == RetryDelay(1, base, cap) == Min(cap, base)
    ensures RetryDelay(attempts + 1, base, cap) == Min(cap, 2 * RetryDelay(attempts, base, cap))
  {
    DoubledPositive(base, attempts - 1);
  }

  lemma {:induction false} DoubledPositive(base: int, times: nat)
    requires base >= 0
    ensures Doubled(base, times) >= 0
  {
    if times > 0 {
      DoubledPositive(base, times - 1);
    }
  }
}
