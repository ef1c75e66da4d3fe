/** An entitlement and the grants that paid orders add to it. */
module EntitlementLedger {
  // Activating a grant stacks its days and limits onto the stored row; a refund recomputes the row from the grants
  // that are left.
  import opened Arithmetic
  import opened Wrappers

  datatype GrantStatus = GrantPending | GrantActive(at: nat) | GrantRefunded

  /** One purchase; a missing duration or limit means without end. */
  datatype Grant = Grant(item: string, order: string, status: GrantStatus,
                         durationMs: Option<nat>, usage: Option<nat>, access: Option<nat>) {
    /** The table's checks. */
    predicate Valid() {
      && (durationMs.Some? ==> durationMs.value > 0)
      && (usage.Some? ==> usage.value > 0)
      && (access.Some? ==> access.value > 0)
    }

    predicate IsActive() {
      status.GrantActive?
    }

    function At(): nat {
      if status.GrantActive? then status.at else 0
    }
  }

  datatype Status = Pending | Active | Expired | Exhausted | Revoked

  /** The grants by order item, which is unique, and the stored row. */
  datatype Entitlement = Entitlement(grants: map<string, Grant>, status: Status,
                                     usageLimit: Option<nat>, usageCount: nat,
                                     accessLimit: Option<nat>, accessCount: nat,
                                     activatedAt: Option<nat>, expiresAt: Option<nat>)

  // ---------- the steps ----------

  predicate HasActive(grants: map<string, Grant>) {
    exists item :: item in grants && grants[item].IsActive()
  }

  function StackedLimit(current: Option<nat>, granted: Option<nat>, prior: bool): Option<nat> {
    if granted.None? then None
    else if !prior then granted
    else if current.None? then None
    else Some(current.value + granted.value)
  }

  function StackedExpiry(current: Option<nat>, duration: Option<nat>, prior: bool, now: nat): Option<nat> {
    if duration.None? then None
    else if !prior then Some(now + duration.value)
    else if current.None? then None
    else if current.value > now then Some(current.value + duration.value)
    else Some(now + duration.value)
  }

  predicate IsPending(e: Entitlement, item: string) {
    item in e.grants && e.grants[item].status == GrantPending
  }

  /** A paid order item adds a pending grant; a second grant for the same item is refused. */
  function Purchase(e: Entitlement, g: Grant): Entitlement {
    if g.item in e.grants then e else e.(grants := e.grants[g.item := g.(status := GrantPending)])
  }

  /** The row takes the grant on when the delivery is ready; the grant turns active when the row is. */
  function Activate(e: Entitlement, item: string, now: nat, ready: bool): Entitlement {
    if !IsPending(e, item) then e
    else
      var g, prior := e.grants[item], HasActive(e.grants);
      var row := if !ready then e
                 else e.(status := Active,
                         usageLimit := StackedLimit(e.usageLimit, g.usage, prior),
                         accessLimit := StackedLimit(e.accessLimit, g.access, prior),
                         activatedAt := Some(e.activatedAt.GetOr(now)),
                         expiresAt := StackedExpiry(e.expiresAt, g.durationMs, prior, now));
      if row.status == Active then row.(grants := e.grants[item := Activated(g, now)]) else row
  }

  predicate MayAccess(e: Entitlement, now: nat) {
    && e.status in {Active, Exhausted}
    && (e.expiresAt.Some? ==> e.expiresAt.value > now)
    && (e.accessLimit.Some? ==> e.accessCount < e.accessLimit.value)
  }

  function Access(e: Entitlement, now: nat): Entitlement {
    if !MayAccess(e, now) then e
    else
      var spent := e.accessLimit.Some? && e.accessCount + 1 >= e.accessLimit.value;
      e.(accessCount := e.accessCount + 1, status := if spent then Exhausted else e.status)
  }

  predicate MayUse(e: Entitlement, now: nat) {
    && e.status in {Active, Exhausted}
    && (e.expiresAt.Some? ==> e.expiresAt.value > now)
    && (e.usageLimit.Some? ==> e.usageCount < e.usageLimit.value)
  }

  /** A build job takes one use. */
  function Use(e: Entitlement, now: nat): Entitlement {
    if !MayUse(e, now) then e
    else
      var spent := e.usageLimit.Some? && e.usageCount + 1 >= e.usageLimit.value;
      e.(usageCount := e.usageCount + 1, status := if spent then Exhausted else Active)
  }

  /** A cancelled job gives its use back. */
  function GiveBack(e: Entitlement, now: nat): Entitlement {
    if e.usageCount == 0 then e
    else
      var revived :=
        && e.status == Exhausted
        && (e.expiresAt.Some? ==> e.expiresAt.value > now)
        && (e.accessLimit.Some? ==> e.accessCount < e.accessLimit.value)
        && (e.usageLimit.Some? ==> e.usageCount - 1 < e.usageLimit.value);
      e.(usageCount := e.usageCount - 1, status := if revived then Active else e.status)
  }

  /** Maintenance marks rows that have run out. */
  function Expire(e: Entitlement, now: nat): Entitlement {
    if e.status == Active && e.expiresAt.Some? && e.expiresAt.value <= now then e.(status := Expired) else e
  }

  /** An expiry computed afresh, as a left fold over the active grants. */
  function Chained(rows: seq<Grant>): nat {
    if rows == [] then 0
    else
      var last := rows[|rows| - 1];
      Max(Chained(rows[..|rows| - 1]), last.At()) + last.durationMs.GetOr(0)
  }

  /** Some grant has no end. */
  predicate Endless(rows: seq<Grant>, limit: Grant -> Option<nat>) {
    exists i :: 0 <= i < |rows| && limit(rows[i]).None?
  }

  function RebuiltExpiry(rows: seq<Grant>): Option<nat> {
    if rows == [] || Endless(rows, DurationOf) then None else Some(Chained(rows))
  }

  function Total(rows: seq<Grant>, limit: Grant -> Option<nat>): nat {
    if rows == [] then 0 else Total(rows[..|rows| - 1], limit) + limit(rows[|rows| - 1]).GetOr(0)
  }

  function SumGranted(rows: seq<Grant>, limit: Grant -> Option<nat>): Option<nat> {
    if rows == [] || Endless(rows, limit) then None else Some(Total(rows, limit))
  }

  function DurationOf(g: Grant): Option<nat> {
    g.durationMs
  }

  function UsageOf(g: Grant): Option<nat> {
    g.usage
  }

  function AccessOf(g: Grant): Option<nat> {
    g.access
  }

  function Refunded(grants: map<string, Grant>, order: string): map<string, Grant> {
    map item | item in grants ::
      if grants[item].order == order && grants[item].status != GrantRefunded
      then grants[item].(status := GrantRefunded)
      else grants[item]
  }

  predicate Affects(grants: map<string, Grant>, order: string) {
    exists item :: item in grants && grants[item].order == order && grants[item].status != GrantRefunded
  }

  function RefundStatus(rows: seq<Grant>, expiresAt: Option<nat>, usageLimit: Option<nat>, usageCount: nat,
                        accessLimit: Option<nat>, accessCount: nat, now: nat): Status
  {
    if rows == [] then Revoked
    else if expiresAt.Some? && expiresAt.value <= now then Expired
    else if || (usageLimit.Some? && usageCount >= usageLimit.value)
            || (accessLimit.Some? && accessCount >= accessLimit.value)
    then Exhausted
    else Active
  }

  /** The rows are the active grants, each once, by activation time; ties come in any order. */
  ghost predicate Arranges(rows: seq<Grant>, grants: map<string, Grant>) {
    && (forall i :: 0 <= i < |rows| ==> Holds(grants, rows[i]))
    && (forall item :: item in grants && grants[item].IsActive() ==> grants[item] in rows)
    && Sorted(rows)
  }

  ghost predicate Sorted(rows: seq<Grant>) {
    forall i, j :: 0 <= i < j < |rows| ==> rows[i].item != rows[j].item && rows[i].At() <= rows[j].At()
  }

  predicate Holds(grants: map<string, Grant>, g: Grant) {
    g.item in grants && grants[g.item] == g && g.IsActive()
  }

  function FirstAt(rows: seq<Grant>): Option<nat> {
    if rows == [] then None else Some(rows[0].At())
  }

  /** What a refund is about to write. It is computed from what was read before; nothing is written to the row when no
      grant of the order was found. */
  datatype Prepared = Prepared(order: string, affected: bool, status: Status, usageLimit: Option<nat>,
                               accessLimit: Option<nat>, activatedAt: Option<nat>, expiresAt: Option<nat>)

  function Prepare(order: string, now: nat, affected: bool, usageCount: nat, accessCount: nat,
                   rows: seq<Grant>): Prepared
  {
    var expiresAt := RebuiltExpiry(rows);
    var usageLimit, accessLimit := SumGranted(rows, UsageOf), SumGranted(rows, AccessOf);
    Prepared(order, affected, RefundStatus(rows, expiresAt, usageLimit, usageCount, accessLimit, accessCount, now),
             usageLimit, accessLimit, FirstAt(rows), expiresAt)
  }

  /** The statements that run later, in one transaction: the grants of the order as they are then, and the row as it was
      prepared. */
  function Write(e: Entitlement, p: Prepared): Entitlement {
    var grants := Refunded(e.grants, p.order);
    if !p.affected then e.(grants := grants)
    else
      e.(grants := grants, status := p.status, usageLimit := p.usageLimit, accessLimit := p.accessLimit,
         activatedAt := p.activatedAt, expiresAt := p.expiresAt)
  }

  /** A refund whose reads and writes have nothing between them. */
  function Refund(e: Entitlement, order: string, now: nat, rows: seq<Grant>): Entitlement {
    Write(e, Prepare(order, now, Affects(e.grants, order), e.usageCount, e.accessCount, rows))
  }

  /** The stored row and its grants, updated in place. */
  class Ledger {
    var grants: map<string, Grant>
    var status: Status
    var usageLimit: Option<nat>
    var usageCount: nat
    var accessLimit: Option<nat>
    var accessCount: nat
    var activatedAt: Option<nat>
    var expiresAt: Option<nat>

    function State(): Entitlement
      reads this
    {
      Entitlement(grants, status, usageLimit, usageCount, accessLimit, accessCount, activatedAt, expiresAt)
    }

    constructor ()
      ensures State() == NewEntitlement()
    {
      grants, status, usageLimit, usageCount, accessLimit, accessCount := map[], Pending, None, 0, None, 0;
      activatedAt, expiresAt := None, None;
    }

    method AddGrant(g: Grant)
      modifies this
      ensures State() == Purchase(old(State()), g)
    {
      if g.item !in grants {
        grants := grants[g.item := g.(status := GrantPending)];
      }
    }

    method MarkExpired(now: nat)
      modifies this
      ensures State() == Expire(old(State()), now)
    {
      if status == Active && expiresAt.Some? && expiresAt.value <= now {
        status := Expired;
      }
    }

    method ActivateGrant(item: string, now: nat, ready: bool)
      modifies this
      ensures State() == Activate(old(State()), item, now, ready)
    {
      if ready && item in grants && grants[item].status == GrantPending {
        var g, prior := grants[item], HasActive(grants);
        status := Active;
        usageLimit := StackedLimit(usageLimit, g.usage, prior);
        accessLimit := StackedLimit(accessLimit, g.access, prior);
        if activatedAt.None? {
          activatedAt := Some(now);
        }
        expiresAt := StackedExpiry(expiresAt, g.durationMs, prior, now);
      }
      if item in grants && grants[item].status == GrantPending && status == Active {
        grants := grants[item := grants[item].(status := GrantActive(now))];
      }
    }

    method ConsumeAccess(now: nat) returns (ok: bool)
      modifies this
      ensures State() == Access(old(State()), now) && ok == MayAccess(old(State()), now)
    {
      ok := MayAccess(State(), now);
      if ok {
        accessCount := accessCount + 1;
        if accessLimit.Some? && accessCount >= accessLimit.value {
          status := Exhausted;
        }
      }
    }

    method TakeUse(now: nat) returns (ok: bool)
      modifies this
      ensures State() == Use(old(State()), now) && ok == MayUse(old(State()), now)
    {
      ok := MayUse(State(), now);
      if ok {
        usageCount := usageCount + 1;
        status := if usageLimit.Some? && usageCount >= usageLimit.value then Exhausted else Active;
      }
    }

    method ReturnUse(now: nat)
      modifies this
      ensures State() == GiveBack(old(State()), now)
    {
      if usageCount > 0 {
        usageCount := usageCount - 1;
        if && status == Exhausted
           && (expiresAt.Some? ==> expiresAt.value > now)
           && (accessLimit.Some? ==> accessCount < accessLimit.value)
           && (usageLimit.Some? ==> usageCount < usageLimit.value)
        {
          status := Active;
        }
      }
    }

    /** What was prepared is written whatever has happened since. */
    method WriteRefund(p: Prepared)
      modifies this
      ensures State() == Write(old(State()), p)
    {
      grants := Refunded(grants, p.order);
      if p.affected {
        status, usageLimit, accessLimit := p.status, p.usageLimit, p.accessLimit;
        activatedAt, expiresAt := p.activatedAt, p.expiresAt;
      }
    }
  }

  function NewEntitlement(): Entitlement {
    Entitlement(map[], Pending, None, 0, None, 0, None, None)
  }

  method RebuildExpiry(rows: seq<Grant>) returns (expiresAt: Option<nat>)
    ensures expiresAt == RebuiltExpiry(rows)
  {
    if rows == [] || Endless(rows, DurationOf) {
      return None;
    }
    var end := 0;
    for i := 0 to |rows|
      invariant end == Chained(rows[..i])
    {
      assert rows[..i + 1][..i] == rows[..i];
      end := Max(end, rows[i].At()) + rows[i].durationMs.GetOr(0);
    }
    assert rows[..|rows|] == rows;
    expiresAt := Some(end);
  }

  method PrepareRefund(order: string, now: nat, affected: bool, usageCount: nat, accessCount: nat, rows: seq<Grant>)
    returns (p: Prepared)
    ensures p == Prepare(order, now, affected, usageCount, accessCount, rows)
  {
    var expiresAt := RebuildExpiry(rows);
    var usageLimit, accessLimit := SumGranted(rows, UsageOf), SumGranted(rows, AccessOf);
    var activatedAt := if rows == [] then None else Some(rows[0].At());
    var status := RefundStatus(rows, expiresAt, usageLimit, usageCount, accessLimit, accessCount, now);
    p := Prepared(order, affected, status, usageLimit, accessLimit, activatedAt, expiresAt);
  }

  // ---------- moving a row among its ties ----------

  function Without(rows: seq<Grant>, k: nat): (rest: seq<Grant>)
    requires k < |rows|
    ensures |rest| == |rows| - 1
  {
    rows[..k] + rows[k + 1..]
  }

  lemma AtTheEnd(rows: seq<Grant>, g: Grant, limit: Grant -> Option<nat>)
    ensures Chained(rows + [g]) == Max(Chained(rows), g.At()) + g.durationMs.GetOr(0)
    ensures Total(rows + [g], limit) == Total(rows, limit) + limit(g).GetOr(0)
  {
    assert (rows + [g])[..|rows|] == rows;
  }

  /** Moving a row behind others activated at the same moment changes neither the expiry nor the totals. */
  lemma {:induction false} MoveToEnd(rows: seq<Grant>, k: nat, limit: Grant -> Option<nat>)
    requires k < |rows|
    requires forall j :: k <= j < |rows| ==> rows[j].At() == rows[k].At()
    ensures Chained(rows) == Max(Chained(Without(rows, k)), rows[k].At()) + rows[k].durationMs.GetOr(0)
    ensures Total(rows, limit) == Total(Without(rows, k), limit) + limit(rows[k]).GetOr(0)
    decreases |rows|
  {
    hide Chained, Total;
    var n := |rows| - 1;
    assert rows == rows[..n] + [rows[n]];
    AtTheEnd(rows[..n], rows[n], limit);
    if k == n {
      assert Without(rows, k) == rows[..n];
    } else {
      MoveToEnd(rows[..n], k, limit);
      assert Without(rows, k) == Without(rows[..n], k) + [rows[n]];
      AtTheEnd(Without(rows[..n], k), rows[n], limit);
    }
  }

  // ---------- agreement ----------

  /** The stored row says what the active grants come to. */
  ghost predicate RowSays(e: Entitlement, rows: seq<Grant>) {
    && e.expiresAt == RebuiltExpiry(rows)
    && e.usageLimit == SumGranted(rows, UsageOf)
    && e.accessLimit == SumGranted(rows, AccessOf)
    && e.activatedAt == FirstAt(rows)
  }

  ghost predicate Agrees(e: Entitlement) {
    forall rows :: Arranges(rows, e.grants) ==> RowSays(e, rows)
  }

  /** What a reachable state satisfies, whatever the clock did: every grant is stored under its own item, and a row
      in use has an active grant. */
  ghost predicate WellKept(e: Entitlement) {
    && (forall item :: item in e.grants ==> e.grants[item].item == item && e.grants[item].Valid())
    && (e.status in {Active, Expired, Exhausted} <==> HasActive(e.grants))
  }

  /** No grant was activated after this moment. */
  ghost predicate Sound(e: Entitlement, clock: nat) {
    WellKept(e) && forall item :: item in e.grants ==> e.grants[item].At() <= clock
  }

  /** The active grants can always be listed by activation time. */
  lemma {:induction false} ArrangementExists(grants: map<string, Grant>) returns (rows: seq<Grant>)
    requires forall item :: item in grants ==> grants[item].item == item
    ensures Arranges(rows, grants)
    decreases |grants|
  {
    if grants == map[] {
      rows := [];
    } else {
      var item :| item in grants;
      var others := grants - {item};
      assert grants.Keys == others.Keys + {item};
      var before := ArrangementExists(others);
      rows := if grants[item].IsActive() then Placed(before, grants[item]) else before;
      if grants[item].IsActive() {
        PlacedArranges(before, grants[item], others);
        assert others[item := grants[item]] == grants;
      }
    }
  }

  function Placed(rows: seq<Grant>, g: Grant): seq<Grant> {
    if rows == [] || rows[|rows| - 1].At() <= g.At() then rows + [g]
    else Placed(rows[..|rows| - 1], g) + [rows[|rows| - 1]]
  }

  lemma {:induction false} PlacedElements(rows: seq<Grant>, g: Grant)
    ensures |Placed(rows, g)| == |rows| + 1
    ensures forall x :: x in Placed(rows, g) <==> x == g || x in rows
  {
    if rows != [] && rows[|rows| - 1].At() > g.At() {
      PlacedElements(rows[..|rows| - 1], g);
      assert rows == rows[..|rows| - 1] + [rows[|rows| - 1]];
    }
  }

  lemma {:induction false} PlacedSorted(rows: seq<Grant>, g: Grant)
    requires Sorted(rows)
    requires forall i :: 0 <= i < |rows| ==> rows[i].item != g.item
    ensures Sorted(Placed(rows, g))
  {
    PlacedElements(rows, g);
    if rows != [] && rows[|rows| - 1].At() > g.At() {
      var n := |rows| - 1;
      PlacedSorted(rows[..n], g);
      PlacedElements(rows[..n], g);
      forall i | 0 <= i < n + 1
        ensures Placed(rows, g)[i].item != rows[n].item && Placed(rows, g)[i].At() <= rows[n].At()
      {
        assert Placed(rows, g)[i] in Placed(rows[..n], g);
      }
    }
  }

  lemma PlacedArranges(rows: seq<Grant>, g: Grant, others: map<string, Grant>)
    requires Arranges(rows, others) && g.IsActive() && g.item !in others
    ensures Arranges(Placed(rows, g), others[g.item := g])
  {
    var all := others[g.item := g];
    PlacedElements(rows, g);
    PlacedSorted(rows, g);
    forall i | 0 <= i < |Placed(rows, g)|
      ensures Holds(all, Placed(rows, g)[i])
    {
      assert Placed(rows, g)[i] in Placed(rows, g);
    }
  }

  // ---------- activation ----------

  function Activated(g: Grant, now: nat): Grant {
    g.(status := GrantActive(now))
  }

  /** Where row i of the shorter list was. */
  function Was(i: nat, k: nat): nat {
    if i < k then i else i + 1
  }

  lemma SortedWithout(rows: seq<Grant>, k: nat)
    requires k < |rows| && Sorted(rows)
    ensures Sorted(Without(rows, k))
    ensures forall i :: 0 <= i < |rows| - 1 ==> Without(rows, k)[i] == rows[Was(i, k)]
    ensures forall i :: 0 <= i < |rows| - 1 ==> Without(rows, k)[i].item != rows[k].item
  {
    forall i | 0 <= i < |rows| - 1
      ensures Without(rows, k)[i] == rows[Was(i, k)] && Without(rows, k)[i].item != rows[k].item
    {
    }
  }

  /** Taking one row out of an arrangement leaves an arrangement of the other active grants. */
  lemma WithoutRow(rows: seq<Grant>, k: nat, grants: map<string, Grant>, all: map<string, Grant>)
    requires k < |rows| && Arranges(rows, all)
    requires all == grants[rows[k].item := rows[k]]
    requires rows[k].item in grants && !grants[rows[k].item].IsActive()
    requires forall item :: item in grants ==> grants[item].item == item
    ensures Arranges(Without(rows, k), grants)
  {
    hide Without, Sorted;
    var rest := Without(rows, k);
    SortedWithout(rows, k);
    forall i | 0 <= i < |rest|
      ensures Holds(grants, rest[i])
    {
      assert Holds(all, rows[Was(i, k)]);
    }
    forall other | other in grants && grants[other].IsActive()
      ensures grants[other] in rest
    {
      assert all[other] in rows;
      var j :| 0 <= j < |rows| && rows[j] == all[other];
      var i := if j < k then j else j - 1;
      assert Was(i, k) == j && rest[i] == rows[j];
    }
  }

  lemma ActiveMeansRows(rows: seq<Grant>, grants: map<string, Grant>)
    requires Arranges(rows, grants)
    ensures HasActive(grants) <==> rows != []
  {
    if rows != [] {
      assert Holds(grants, rows[0]);
    }
  }

  lemma EndlessWithout(rows: seq<Grant>, k: nat, limit: Grant -> Option<nat>)
    requires k < |rows|
    ensures Endless(rows, limit) <==> limit(rows[k]).None? || Endless(Without(rows, k), limit)
  {
    var rest := Without(rows, k);
    if Endless(rows, limit) {
      var i :| 0 <= i < |rows| && limit(rows[i]).None?;
      assert i != k ==> rest[if i < k then i else i - 1] == rows[i];
    }
    if Endless(rest, limit) {
      var i :| 0 <= i < |rest| && limit(rest[i]).None?;
      assert rest[i] == rows[if i < k then i else i + 1];
    }
  }

  // ---------- any two arrangements come to the same ----------

  /** What a list of rows comes to. */
  ghost predicate SameWorth(a: seq<Grant>, b: seq<Grant>) {
    && Chained(a) == Chained(b) && Total(a, UsageOf) == Total(b, UsageOf) && Total(a, AccessOf) == Total(b, AccessOf)
    && (Endless(a, DurationOf) <==> Endless(b, DurationOf))
    && (Endless(a, UsageOf) <==> Endless(b, UsageOf))
    && (Endless(a, AccessOf) <==> Endless(b, AccessOf))
  }

  /** The last row of one arrangement, found in another, has only ties behind it. */
  lemma LastRowElsewhere(a: seq<Grant>, b: seq<Grant>, grants: map<string, Grant>) returns (k: nat)
    requires a != [] && Arranges(a, grants) && Arranges(b, grants)
    ensures k < |b| && b[k] == a[|a| - 1]
    ensures forall j :: k <= j < |b| ==> b[j].At() == b[k].At()
  {
    var g := a[|a| - 1];
    assert Holds(grants, g);
    assert grants[g.item] in b;
    k :| 0 <= k < |b| && b[k] == g;
    forall j | k <= j < |b|
      ensures b[j].At() == b[k].At()
    {
      assert Holds(grants, b[j]);
      assert grants[b[j].item] in a;
    }
  }

  lemma OneLess(rows: seq<Grant>, k: nat, grants: map<string, Grant>)
    requires k < |rows| && Arranges(rows, grants)
    requires forall item :: item in grants ==> grants[item].item == item
    ensures Arranges(Without(rows, k), grants[rows[k].item := rows[k].(status := GrantRefunded)])
  {
    var g := rows[k];
    assert Holds(grants, g);
    var fewer := grants[g.item := g.(status := GrantRefunded)];
    assert fewer[g.item := g] == grants;
    WithoutRow(rows, k, fewer, grants);
  }

  lemma {:induction false} TiesDoNotMatter(a: seq<Grant>, b: seq<Grant>, grants: map<string, Grant>)
    requires Arranges(a, grants) && Arranges(b, grants)
    requires forall item :: item in grants ==> grants[item].item == item
    ensures SameWorth(a, b)
    ensures a == [] <==> b == []
    decreases |a|
  {
    hide Chained, Total, Endless, Arranges, Without;
    ActiveMeansRows(a, grants);
    ActiveMeansRows(b, grants);
    if a != [] {
      var n := |a| - 1;
      var k := LastRowElsewhere(a, b, grants);
      OneLess(a, n, grants);
      OneLess(b, k, grants);
      TiesDoNotMatter(Without(a, n), Without(b, k), grants[a[n].item := a[n].(status := GrantRefunded)]);
      RowCounts(a, n);
      RowCounts(b, k);
    }
  }

  /** A row with only ties behind it adds to what the others come to. */
  lemma RowCounts(rows: seq<Grant>, k: nat)
    requires k < |rows|
    requires forall j :: k <= j < |rows| ==> rows[j].At() == rows[k].At()
    ensures Chained(rows) == Max(Chained(Without(rows, k)), rows[k].At()) + rows[k].durationMs.GetOr(0)
    ensures Total(rows, UsageOf) == Total(Without(rows, k), UsageOf) + rows[k].usage.GetOr(0)
    ensures Total(rows, AccessOf) == Total(Without(rows, k), AccessOf) + rows[k].access.GetOr(0)
    ensures Endless(rows, DurationOf) <==> rows[k].durationMs.None? || Endless(Without(rows, k), DurationOf)
    ensures Endless(rows, UsageOf) <==> rows[k].usage.None? || Endless(Without(rows, k), UsageOf)
    ensures Endless(rows, AccessOf) <==> rows[k].access.None? || Endless(Without(rows, k), AccessOf)
  {
    hide Chained, Total, Endless, Without;
    MoveToEnd(rows, k, UsageOf);
    MoveToEnd(rows, k, AccessOf);
    EndlessWithout(rows, k, DurationOf);
    EndlessWithout(rows, k, UsageOf);
    EndlessWithout(rows, k, AccessOf);
  }

  lemma SameFirst(a: seq<Grant>, b: seq<Grant>, grants: map<string, Grant>)
    requires Arranges(a, grants) && Arranges(b, grants) && a != [] && b != []
    ensures a[0].At() == b[0].At()
  {
    assert Holds(grants, a[0]) && Holds(grants, b[0]);
    assert grants[a[0].item] in b && grants[b[0].item] in a;
  }

  /** To agree with one arrangement is to agree with all. */
  lemma OneArrangementDecides(e: Entitlement, rows: seq<Grant>)
    requires forall item :: item in e.grants ==> e.grants[item].item == item
    requires Arranges(rows, e.grants) && RowSays(e, rows)
    ensures Agrees(e)
  {
    hide Chained, Total, Endless, Arranges;
    forall other | Arranges(other, e.grants)
      ensures RowSays(e, other)
    {
      TiesDoNotMatter(rows, other, e.grants);
      if rows != [] {
        SameFirst(rows, other, e.grants);
      }
    }
  }

  // ---------- activation at any time ----------

  /** The newly activated grant takes its place by activation time, behind ties. */
  lemma PlacedIsArranged(e: Entitlement, item: string, now: nat, rows: seq<Grant>)
    requires WellKept(e) && IsPending(e, item) && Arranges(rows, e.grants)
    ensures Arranges(Placed(rows, Activated(e.grants[item], now)), e.grants[item := Activated(e.grants[item], now)])
  {
    hide Sorted, Placed;
    var g := Activated(e.grants[item], now);
    var others := e.grants - {item};
    forall i | 0 <= i < |rows|
      ensures Holds(others, rows[i])
    {
      assert Holds(e.grants, rows[i]);
    }
    forall other | other in others && others[other].IsActive()
      ensures others[other] in rows
    {
      assert e.grants[other] in rows;
    }
    assert others[item := g] == e.grants[item := g];
    PlacedArranges(rows, g, others);
  }

  lemma {:induction false} PlacedTotal(rows: seq<Grant>, g: Grant, limit: Grant -> Option<nat>)
    ensures Total(Placed(rows, g), limit) == Total(rows, limit) + limit(g).GetOr(0)
  {
    if rows == [] || rows[|rows| - 1].At() <= g.At() {
      AtTheEnd(rows, g, limit);
    } else {
      var n := |rows| - 1;
      PlacedTotal(rows[..n], g, limit);
      AtTheEnd(Placed(rows[..n], g), rows[n], limit);
    }
  }

  lemma PlacedEndless(rows: seq<Grant>, g: Grant, limit: Grant -> Option<nat>)
    ensures Endless(Placed(rows, g), limit) <==> limit(g).None? || Endless(rows, limit)
  {
    PlacedElements(rows, g);
    hide Placed;
    var all := Placed(rows, g);
    if Endless(all, limit) {
      var i :| 0 <= i < |all| && limit(all[i]).None?;
      assert all[i] in all;
    }
    if Endless(rows, limit) {
      var i :| 0 <= i < |rows| && limit(rows[i]).None?;
      assert rows[i] in all;
    }
    assert g in all;
  }

  /** Of the grants activated after this time none began after what the earlier ones reach had run out. */
  predicate LateNeverLapsed(rows: seq<Grant>, now: nat) {
    forall i :: 0 <= i < |rows| && rows[i].At() > now ==> rows[i].At() <= Chained(rows[..i])
  }

  /** A later grant began only after everything before it, with the new grant in its place, had run out. */
  predicate Absorbed(rows: seq<Grant>, g: Grant) {
    exists i :: 0 <= i < |rows| && AbsorbedAt(rows, g, i)
  }

  predicate AbsorbedAt(rows: seq<Grant>, g: Grant, i: nat)
    requires i < |rows|
  {
    rows[i].At() > g.At() && Chained(Placed(rows[..i], g)) <= rows[i].At()
  }

  /** Behind all others the new grant chains on; otherwise the last one does so as before. */
  lemma PlacedChains(rows: seq<Grant>, g: Grant)
    ensures rows == [] || rows[|rows| - 1].At() <= g.At() ==>
              Chained(Placed(rows, g)) == Max(Chained(rows), g.At()) + g.durationMs.GetOr(0)
    ensures rows != [] ==>
              var last := rows[|rows| - 1];
              && Chained(rows) == Max(Chained(rows[..|rows| - 1]), last.At()) + last.durationMs.GetOr(0)
              && (last.At() > g.At() ==>
                    Chained(Placed(rows, g))
                    == Max(Chained(Placed(rows[..|rows| - 1], g)), last.At()) + last.durationMs.GetOr(0))
  {
    if rows == [] || rows[|rows| - 1].At() <= g.At() {
      AtTheEnd(rows, g, DurationOf);
    } else {
      AtTheEnd(Placed(rows[..|rows| - 1], g), rows[|rows| - 1], DurationOf);
    }
  }

  /** A grant placed at its time adds its whole duration exactly when no later grant found the others run out. */
  lemma {:induction false} PlacedStacks(rows: seq<Grant>, g: Grant)
    requires Sorted(rows) && g.durationMs.Some? && g.durationMs.value > 0
    ensures Chained(Placed(rows, g)) <= Max(Chained(rows), g.At()) + g.durationMs.value
    ensures Chained(Placed(rows, g)) == Max(Chained(rows), g.At()) + g.durationMs.value <==>
              LateNeverLapsed(rows, g.At())
  {
    hide LateNeverLapsed, Sorted, Chained, Placed;
    PlacedChains(rows, g);
    if rows == [] || rows[|rows| - 1].At() <= g.At() {
      NoneIsLate(rows, g.At());
    } else {
      SortedFront(rows);
      PlacedStacks(rows[..|rows| - 1], g);
      LastIsLate(rows, g.At());
    }
  }

  lemma SortedFront(rows: seq<Grant>)
    requires Sorted(rows) && rows != []
    ensures Sorted(rows[..|rows| - 1])
  {
  }

  lemma NoneIsLate(rows: seq<Grant>, now: nat)
    requires Sorted(rows) && (rows != [] ==> rows[|rows| - 1].At() <= now)
    ensures LateNeverLapsed(rows, now)
  {
  }

  lemma LastIsLate(rows: seq<Grant>, now: nat)
    requires rows != [] && rows[|rows| - 1].At() > now
    ensures var n := |rows| - 1;
            LateNeverLapsed(rows, now) <==> LateNeverLapsed(rows[..n], now) && rows[n].At() <= Chained(rows[..n])
  {
    hide Chained;
    var n := |rows| - 1;
    forall i | 0 <= i < n
      ensures rows[..n][i] == rows[i] && rows[..n][..i] == rows[..i]
    {
    }
  }

  /** A grant placed at its time adds nothing exactly when it lies before a grant that found everything run out. */
  lemma {:induction false} PlacedAbsorbed(rows: seq<Grant>, g: Grant)
    requires Sorted(rows) && g.durationMs.Some? && g.durationMs.value > 0
    ensures Chained(Placed(rows, g)) >= Chained(rows)
    ensures Chained(Placed(rows, g)) == Chained(rows) <==> Absorbed(rows, g)
  {
    hide Absorbed, Sorted, Chained, Placed;
    PlacedChains(rows, g);
    if rows == [] || rows[|rows| - 1].At() <= g.At() {
      NoneAbsorbs(rows, g);
    } else {
      SortedFront(rows);
      PlacedAbsorbed(rows[..|rows| - 1], g);
      LastAbsorbs(rows, g);
    }
  }

  lemma NoneAbsorbs(rows: seq<Grant>, g: Grant)
    requires Sorted(rows) && (rows != [] ==> rows[|rows| - 1].At() <= g.At())
    ensures !Absorbed(rows, g)
  {
    hide Chained, Placed;
  }

  lemma LastAbsorbs(rows: seq<Grant>, g: Grant)
    requires rows != []
    ensures var n := |rows| - 1;
            Absorbed(rows, g) <==> Absorbed(rows[..n], g) || AbsorbedAt(rows, g, n)
  {
    hide Chained, Placed;
    var n := |rows| - 1;
    forall i | 0 <= i < n
      ensures rows[..n][i] == rows[i] && rows[..n][..i] == rows[..i]
      ensures AbsorbedAt(rows[..n], g, i) <==> AbsorbedAt(rows, g, i)
    {
    }
  }

  /** The totals and the expiry with the new grant in its place, against those the two statements leave in the row. */
  lemma PlacedLimit(rows: seq<Grant>, g: Grant, limit: Grant -> Option<nat>)
    requires limit(g).Some? ==> limit(g).value > 0
    ensures SumGranted(Placed(rows, g), limit) == StackedLimit(SumGranted(rows, limit), limit(g), rows != [])
    ensures rows != [] ==>
              (SumGranted(Placed(rows, g), limit) == SumGranted(rows, limit) <==> SumGranted(rows, limit).None?)
  {
    hide Total, Endless, Placed;
    PlacedTotal(rows, g, limit);
    PlacedEndless(rows, g, limit);
    PlacedElements(rows, g);
    NothingAdds(limit);
  }

  lemma NothingAdds(limit: Grant -> Option<nat>)
    ensures Chained([]) == 0 && Total([], limit) == 0 && !Endless([], limit)
  {
  }

  lemma PlacedExpiry(rows: seq<Grant>, g: Grant)
    requires Sorted(rows) && g.IsActive() && g.Valid()
    ensures RebuiltExpiry(Placed(rows, g)) == StackedExpiry(RebuiltExpiry(rows), g.durationMs, rows != [], g.At()) <==>
              rows == [] || Endless(rows, DurationOf) || g.durationMs.None? || LateNeverLapsed(rows, g.At())
    ensures rows != [] ==>
              (RebuiltExpiry(Placed(rows, g)) == RebuiltExpiry(rows) <==>
                 Endless(rows, DurationOf) || (g.durationMs.Some? && Absorbed(rows, g)))
  {
    PlacedEndless(rows, g, DurationOf);
    PlacedElements(rows, g);
    NothingAdds(DurationOf);
    hide Chained, Endless, Placed, LateNeverLapsed, Absorbed, Sorted;
    assert DurationOf(g) == g.durationMs;
    if g.durationMs.Some? {
      PlacedStacks(rows, g);
      PlacedAbsorbed(rows, g);
      PlacedChains(rows, g);
    }
  }

  lemma {:induction false} PlacedStart(rows: seq<Grant>, g: Grant)
    requires Sorted(rows)
    ensures |Placed(rows, g)| > 0
    ensures Placed(rows, g)[0].At() == if rows == [] then g.At() else Min(rows[0].At(), g.At())
  {
    PlacedElements(rows, g);
    if rows != [] && rows[|rows| - 1].At() > g.At() {
      var n := |rows| - 1;
      PlacedElements(rows[..n], g);
      PlacedStart(rows[..n], g);
    }
  }

  /** When a delivery leaves row and grants in agreement, whatever its time is. A ready one does so when there is no
      active grant yet, or the earliest of them is not later than it and either there is no end or the later ones never
      lapsed. One that is not ready but meets a row in use, whose grant turns active all the same, does so when the row
      has no limits and either no end or a lapse that takes up the whole grant. */
  ghost predicate DeliveryKeeps(e: Entitlement, item: string, now: nat, ready: bool, rows: seq<Grant>) {
    IsPending(e, item) ==>
      var g := Activated(e.grants[item], now);
      if ready then
        || rows == []
        || (rows[0].At() <= now && (Endless(rows, DurationOf) || g.durationMs.None? || LateNeverLapsed(rows, now)))
      else
        e.status == Active ==>
          && e.usageLimit.None? && e.accessLimit.None?
          && rows != [] && rows[0].At() <= now
          && (Endless(rows, DurationOf) || (g.durationMs.Some? && Absorbed(rows, g)))
  }

  lemma DeliveryAgreesExactly(e: Entitlement, item: string, now: nat, ready: bool, rows: seq<Grant>)
    requires WellKept(e) && Agrees(e) && Arranges(rows, e.grants)
    ensures Agrees(Activate(e, item, now, ready)) <==> DeliveryKeeps(e, item, now, ready, rows)
  {
    hide SumGranted, RebuiltExpiry, Endless, LateNeverLapsed, Absorbed, Placed, StackedLimit, StackedExpiry, HasActive;
    assert RowSays(e, rows);
    if IsPending(e, item) && (ready || e.status == Active) {
      var g := Activated(e.grants[item], now);
      var after := Activate(e, item, now, ready);
      var placed := Placed(rows, g);
      assert UsageOf(g) == e.grants[item].usage && AccessOf(g) == e.grants[item].access;
      assert e.grants[item].Valid();
      ActiveMeansRows(rows, e.grants);
      PlacedIsArranged(e, item, now, rows);
      PlacedLimit(rows, g, UsageOf);
      PlacedLimit(rows, g, AccessOf);
      PlacedExpiry(rows, g);
      PlacedStart(rows, g);
      AgreementDecided(after, placed);
    }
  }

  lemma AgreementDecided(e: Entitlement, rows: seq<Grant>)
    requires forall item :: item in e.grants ==> e.grants[item].item == item
    requires Arranges(rows, e.grants)
    ensures Agrees(e) <==> RowSays(e, rows)
  {
    hide RowSays, Arranges;
    if RowSays(e, rows) {
      OneArrangementDecides(e, rows);
    }
  }

  // ---------- activation under a forward clock ----------

  /** The grant is one that the row has not taken on although the row is in use. */
  predicate Unapplied(e: Entitlement, item: string, ready: bool) {
    IsPending(e, item) && !ready && e.status == Active
  }

  predicate Unlimited(e: Entitlement) {
    e.expiresAt.None? && e.usageLimit.None? && e.accessLimit.None?
  }

  /** When no grant was activated later, the condition is about readiness alone. */
  lemma ForwardDelivery(e: Entitlement, item: string, now: nat, ready: bool, rows: seq<Grant>)
    requires Sound(e, now) && Agrees(e) && Arranges(rows, e.grants)
    ensures DeliveryKeeps(e, item, now, ready, rows) <==> !Unapplied(e, item, ready) || Unlimited(e)
  {
    hide Endless, Chained, HasActive, Placed;
    assert RowSays(e, rows);
    ActiveMeansRows(rows, e.grants);
    forall i | 0 <= i < |rows|
      ensures rows[i].At() <= now
    {
      assert Holds(e.grants, rows[i]);
    }
    if IsPending(e, item) {
      NoneIsLate(rows, now);
      NoneAbsorbs(rows, Activated(e.grants[item], now));
    }
  }

  /** Under a forward clock activation keeps the row and its grants in agreement exactly when it does not skip a row in
      use that has an end or a limit. */
  lemma ActivationAgreesExactly(e: Entitlement, item: string, now: nat, ready: bool)
    requires Sound(e, now) && Agrees(e)
    ensures Agrees(Activate(e, item, now, ready)) <==> !Unapplied(e, item, ready) || Unlimited(e)
  {
    assert forall other :: other in e.grants ==> e.grants[other].item == other;
    hide Agrees, Arranges, DeliveryKeeps, Unapplied, Unlimited, HasActive;
    var rows := ArrangementExists(e.grants);
    DeliveryAgreesExactly(e, item, now, ready, rows);
    ForwardDelivery(e, item, now, ready, rows);
  }

  /** Stacking a ready grant onto a row that agrees with its grants gives a row that agrees again. */
  lemma ReadyActivationAgrees(e: Entitlement, item: string, now: nat)
    requires Sound(e, now) && Agrees(e) && IsPending(e, item)
    ensures Agrees(Activate(e, item, now, true))
  {
    hide Agrees, Sound;
    ActivationAgreesExactly(e, item, now, true);
  }

  /** When a delivery is not ready, the grant of a row in use turns active all the same: the row still agrees
      with its grants only if it had no end and no limits. */
  lemma UnreadyActivation(e: Entitlement, item: string, now: nat)
    requires Sound(e, now) && Agrees(e) && Unapplied(e, item, false)
    ensures Agrees(Activate(e, item, now, false)) <==> Unlimited(e)
  {
    hide Agrees, Sound, Unlimited;
    ActivationAgreesExactly(e, item, now, false);
  }

  // ---------- refunds ----------

  /** Both lists rebuild to the same row. */
  ghost predicate SameRebuild(a: seq<Grant>, b: seq<Grant>) {
    && RebuiltExpiry(a) == RebuiltExpiry(b)
    && SumGranted(a, UsageOf) == SumGranted(b, UsageOf)
    && SumGranted(a, AccessOf) == SumGranted(b, AccessOf)
    && FirstAt(a) == FirstAt(b)
  }

  lemma ArrangementsRebuildAlike(a: seq<Grant>, b: seq<Grant>, grants: map<string, Grant>)
    requires Arranges(a, grants) && Arranges(b, grants)
    requires forall item :: item in grants ==> grants[item].item == item
    ensures SameRebuild(a, b)
  {
    hide Chained, Total, Endless, Arranges;
    TiesDoNotMatter(a, b, grants);
    if a != [] {
      SameFirst(a, b, grants);
    }
  }

  ghost predicate ItemsMatch(e: Entitlement) {
    forall item :: item in e.grants ==> e.grants[item].item == item && e.grants[item].Valid()
  }

  lemma RefundedKeepsItems(e: Entitlement, order: string)
    requires ItemsMatch(e)
    ensures ItemsMatch(e.(grants := Refunded(e.grants, order)))
  {
  }

  /** Whatever was listed and whenever: the row agrees with the grants after the writes exactly when what was written,
      or the row as it stood when nothing was, rebuilds like the grants that are left. `read` is the listing the refund
      was prepared from, `current` lists the active grants at the writes, and `left` those that remain. */
  lemma RefundAgreesExactly(e: Entitlement, p: Prepared, now: nat, usageCount: nat, accessCount: nat,
                            read: seq<Grant>, current: seq<Grant>, left: seq<Grant>)
    requires ItemsMatch(e) && Agrees(e)
    requires p == Prepare(p.order, now, p.affected, usageCount, accessCount, read)
    requires Arranges(current, e.grants) && Arranges(left, Refunded(e.grants, p.order))
    ensures Agrees(Write(e, p)) <==> SameRebuild(if p.affected then read else current, left)
  {
    hide RebuiltExpiry, SumGranted, Arranges, RefundStatus, FirstAt;
    RefundedKeepsItems(e, p.order);
    assert RowSays(e, current);
    AgreementDecided(Write(e, p), left);
  }

  /** A row that agrees after the writes is also in use exactly when a grant is active. */
  lemma RefundWellKept(e: Entitlement, p: Prepared, now: nat, usageCount: nat, accessCount: nat, read: seq<Grant>,
                       left: seq<Grant>)
    requires WellKept(e) && Agrees(e) && Agrees(Write(e, p))
    requires p == Prepare(p.order, now, p.affected, usageCount, accessCount, read)
    requires Arranges(left, Refunded(e.grants, p.order))
    ensures WellKept(Write(e, p))
  {
    hide RebuiltExpiry, SumGranted, Arranges;
    RefundedKeepsItems(e, p.order);
    assert RowSays(Write(e, p), left);
    ActiveMeansRows(left, Refunded(e.grants, p.order));
    assert forall item :: item in e.grants ==> e.grants[item].item == item;
    var current := ArrangementExists(e.grants);
    assert RowSays(e, current);
    ActiveMeansRows(current, e.grants);
  }

  /** The active grants of other orders. */
  function ActiveOthers(grants: map<string, Grant>, order: string): map<string, Grant> {
    map item | item in grants && grants[item].IsActive() && grants[item].order != order :: grants[item]
  }

  predicate HasActiveOf(grants: map<string, Grant>, order: string) {
    exists item :: item in grants && grants[item].IsActive() && grants[item].order == order
  }

  /** A listing of one moment is a listing of another when the active grants of other orders are the same. */
  lemma SameOthersListAlike(rows: seq<Grant>, g1: map<string, Grant>, g2: map<string, Grant>, order: string)
    requires ActiveOthers(g1, order) == ActiveOthers(g2, order) && Arranges(rows, Refunded(g1, order))
    ensures Arranges(rows, Refunded(g2, order))
  {
    hide Sorted;
    var r1, r2 := Refunded(g1, order), Refunded(g2, order);
    forall i | 0 <= i < |rows|
      ensures Holds(r2, rows[i])
    {
      assert Holds(r1, rows[i]);
      assert rows[i].item in ActiveOthers(g1, order) && ActiveOthers(g1, order)[rows[i].item] == rows[i];
    }
    forall item | item in r2 && r2[item].IsActive()
      ensures r2[item] in rows
    {
      assert item in ActiveOthers(g2, order) && ActiveOthers(g2, order)[item] == r2[item];
      assert r1[item] == r2[item];
    }
  }

  lemma NothingOfOrder(rows: seq<Grant>, grants: map<string, Grant>, order: string)
    requires Arranges(rows, grants) && !HasActiveOf(grants, order)
    ensures Arranges(rows, Refunded(grants, order))
  {
    hide Sorted;
    var left := Refunded(grants, order);
    forall i | 0 <= i < |rows|
      ensures Holds(left, rows[i])
    {
      assert Holds(grants, rows[i]);
    }
    forall item | item in left && left[item].IsActive()
      ensures left[item] in rows
    {
    }
  }

  /** It is enough that the active grants of other orders are the same at the writes as at the listing, and that the
      order had been found to hold a grant or has no active one. */
  lemma UndisturbedRefundAgrees(e: Entitlement, listed: map<string, Grant>, p: Prepared, now: nat, usageCount: nat,
                                accessCount: nat, read: seq<Grant>)
    requires ItemsMatch(e) && Agrees(e)
    requires p == Prepare(p.order, now, p.affected, usageCount, accessCount, read)
    requires Arranges(read, Refunded(listed, p.order))
    requires p.affected ==> ActiveOthers(listed, p.order) == ActiveOthers(e.grants, p.order)
    requires p.affected || !HasActiveOf(e.grants, p.order)
    ensures Agrees(Write(e, p))
  {
    RefundedKeepsItems(e, p.order);
    assert forall item :: item in e.grants ==> e.grants[item].item == item;
    hide RebuiltExpiry, SumGranted, Arranges, Agrees, Refunded, Write, FirstAt, ActiveOthers;
    var current := ArrangementExists(e.grants);
    var left := read;
    if p.affected {
      SameOthersListAlike(read, listed, e.grants, p.order);
    } else {
      NothingOfOrder(current, e.grants, p.order);
      left := current;
    }
    RefundAgreesExactly(e, p, now, usageCount, accessCount, read, current, left);
  }

  /** A grant that turns active between the listing and the writes is lost, unless there was no end and no limits before
      or a lapse takes it up. */
  lemma ActivationInBetween(read: seq<Grant>, g: Grant)
    requires Sorted(read) && g.IsActive() && g.Valid()
    ensures SameRebuild(read, Placed(read, g)) <==>
              && read != [] && read[0].At() <= g.At()
              && SumGranted(read, UsageOf).None? && SumGranted(read, AccessOf).None?
              && (Endless(read, DurationOf) || (g.durationMs.Some? && Absorbed(read, g)))
  {
    assert UsageOf(g) == g.usage && AccessOf(g) == g.access;
    hide SumGranted, RebuiltExpiry, Endless, Absorbed, Placed, StackedLimit, StackedExpiry, Sorted;
    PlacedStart(read, g);
    PlacedLimit(read, g, UsageOf);
    PlacedLimit(read, g, AccessOf);
    PlacedExpiry(read, g);
  }

  /** The counts may have moved since they were read. The status is then another than fresh counts would give exactly
      when some grant is left, it has not run out, and only one of the readings is at a limit. */
  lemma StatusFromStaleCounts(rows: seq<Grant>, now: nat, usageRead: nat, accessRead: nat,
                              usageNow: nat, accessNow: nat)
    ensures var expiresAt := RebuiltExpiry(rows);
            var u, a := SumGranted(rows, UsageOf), SumGranted(rows, AccessOf);
            Prepare("", now, true, usageRead, accessRead, rows).status
            != Prepare("", now, true, usageNow, accessNow, rows).status <==>
              && rows != [] && (expiresAt.Some? ==> expiresAt.value > now)
              && (((u.Some? && usageRead >= u.value) || (a.Some? && accessRead >= a.value)) !=
                  ((u.Some? && usageNow >= u.value) || (a.Some? && accessNow >= a.value)))
  {
    hide RebuiltExpiry, SumGranted;
  }

  /** Refunding a renewal takes back exactly what activating it gave. */
  lemma RefundUndoesActivation(e: Entitlement, item: string, now: nat, later: nat, rows: seq<Grant>)
    requires Sound(e, now) && Agrees(e) && IsPending(e, item)
    requires forall other :: other in e.grants && e.grants[other].IsActive() ==>
               e.grants[other].order != e.grants[item].order
    requires Arranges(rows, Refunded(Activate(e, item, now, true).grants, e.grants[item].order))
    ensures var after := Refund(Activate(e, item, now, true), e.grants[item].order, later, rows);
            && after.expiresAt == e.expiresAt && after.activatedAt == e.activatedAt
            && after.usageLimit == e.usageLimit && after.accessLimit == e.accessLimit
  {
    hide RebuiltExpiry, SumGranted, Agrees, StackedLimit, StackedExpiry;
    var order := e.grants[item].order;
    var active := Activate(e, item, now, true).grants;
    assert active[item].order == order && Affects(active, order);
    var left := Refunded(active, order);
    assert Arranges(rows, e.grants) by {
      forall i | 0 <= i < |rows|
        ensures Holds(e.grants, rows[i])
      {
        assert Holds(left, rows[i]);
      }
      forall other | other in e.grants && e.grants[other].IsActive()
        ensures e.grants[other] in rows
      {
        assert left[other] == e.grants[other];
      }
    }
    AgreementOf(e, rows);
  }

  lemma AgreementOf(e: Entitlement, rows: seq<Grant>)
    requires Agrees(e) && Arranges(rows, e.grants)
    ensures RowSays(e, rows)
  {
  }
}
