/** The job that reminds customers before a subscription expires. */
module Reminders {
  // A run looks at the first fifty subscriptions that expire within seven days. It checks the table of claims, then
  // claims the reminder by an insert that a unique key guards, and only then tries the mails. Runs may overlap: between
  // any two of these statements others may insert.
  import opened Arithmetic
  import opened Wrappers
  import opened SubscriptionClock

  const PAGE := 50

  datatype Subscription = Subscription(active: bool, expiresAt: Option<int>)

  /** A row of the table; `queued` tells whether some mail could be handed over. */
  datatype Claim = Claim(id: string, expiresAt: int, point: int, queued: bool)

  /** One run: its time, the subscriptions as they were for the query, those that the query lists, and those of them for
      which a mail could be handed over. */
  datatype Run = Run(now: int, subs: map<string, Subscription>, rows: seq<string>, queued: set<string>)

  predicate Candidate(subs: map<string, Subscription>, id: string, now: int) {
    && id in subs && subs[id].active && subs[id].expiresAt.Some?
    && now < subs[id].expiresAt.value <= now + 7 * DAY_MS
  }

  function DateOf(subs: map<string, Subscription>, id: string): int {
    if id in subs then subs[id].expiresAt.GetOr(0) else 0
  }

  /** The query: the candidates that expire first, at most fifty, ties in any order. */
  ghost predicate Lists(run: Run) {
    && |run.rows| <= PAGE
    && (forall i :: 0 <= i < |run.rows| ==> Candidate(run.subs, run.rows[i], run.now))
    && (forall i, j :: 0 <= i < j < |run.rows| ==>
          run.rows[i] != run.rows[j] && DateOf(run.subs, run.rows[i]) <= DateOf(run.subs, run.rows[j]))
    && (forall id :: Candidate(run.subs, id, run.now) && id !in run.rows ==>
          |run.rows| == PAGE && forall i :: 0 <= i < PAGE ==> DateOf(run.subs, run.rows[i]) <= DateOf(run.subs, id))
  }

  /** The point was claimed for this date or one less than a day from it. */
  predicate Nearby(claims: seq<Claim>, c: Claim) {
    exists i :: 0 <= i < |claims| && IsNear(claims[i], c)
  }

  predicate IsNear(a: Claim, b: Claim) {
    a.id == b.id && a.point == b.point && -DAY_MS < a.expiresAt - b.expiresAt < DAY_MS
  }

  predicate SameKey(a: Claim, b: Claim) {
    a.id == b.id && a.point == b.point && a.expiresAt == b.expiresAt
  }

  predicate HasKey(claims: seq<Claim>, c: Claim) {
    exists i :: 0 <= i < |claims| && SameKey(claims[i], c)
  }

  /** The insert, which does nothing when the key exists. */
  function Insert(claims: seq<Claim>, c: Claim): seq<Claim> {
    if HasKey(claims, c) then claims else claims + [c]
  }

  function InsertAll(claims: seq<Claim>, more: seq<Claim>): seq<Claim> {
    if more == [] then claims else Insert(InsertAll(claims, more[..|more| - 1]), more[|more| - 1])
  }

  /** What a run goes on to insert for a row, when it checks these claims. */
  function Attempt(checked: seq<Claim>, run: Run, id: string): seq<Claim> {
    var expiresAt := DateOf(run.subs, id);
    match PointFor(DaysLeft(expiresAt, run.now))
    case None => []
    case Some(point) =>
      var c := Claim(id, expiresAt, point, id in run.queued);
      if Nearby(checked, c) then [] else [c]
  }

  /** What an insert adds. */
  function Added(claims: seq<Claim>, attempt: seq<Claim>): seq<Claim> {
    if attempt == [] || HasKey(claims, attempt[0]) then [] else attempt
  }

  // ---------- one run among others ----------

  /** What others insert before the check of a row, and between its check and its insert. */
  datatype Meanwhile = Meanwhile(beforeCheck: seq<Claim>, beforeInsert: seq<Claim>)

  /** The claims as the next row is checked, and as its insert comes. */
  function Checked(claims: seq<Claim>, m: Meanwhile): seq<Claim> {
    InsertAll(claims, m.beforeCheck)
  }

  function Before(claims: seq<Claim>, m: Meanwhile): seq<Claim> {
    InsertAll(Checked(claims, m), m.beforeInsert)
  }

  /** The claims after as many rows as others are given for. */
  function RunAmong(claims: seq<Claim>, run: Run, others: seq<Meanwhile>): seq<Claim>
    requires |others| <= |run.rows|
    decreases |others|
  {
    if others == [] then claims
    else
      var n := |others| - 1;
      var so := RunAmong(claims, run, others[..n]);
      Before(so, others[n]) + Added(Before(so, others[n]), Attempt(Checked(so, others[n]), run, run.rows[n]))
  }

  /** The claims that the run itself added, for which it tries the mails. */
  function Won(claims: seq<Claim>, run: Run, others: seq<Meanwhile>): seq<Claim>
    requires |others| <= |run.rows|
    decreases |others|
  {
    if others == [] then []
    else
      var n := |others| - 1;
      var so := RunAmong(claims, run, others[..n]);
      Won(claims, run, others[..n]) + Added(Before(so, others[n]), Attempt(Checked(so, others[n]), run, run.rows[n]))
  }

  class ReminderTable {
    var claims: seq<Claim>

    method ClaimReminder(c: Claim) returns (won: bool)
      modifies this
      ensures claims == Insert(old(claims), c) && won == !HasKey(old(claims), c)
    {
      won := !HasKey(claims, c);
      if won {
        claims := claims + [c];
      }
    }

    method InsertByOthers(more: seq<Claim>)
      modifies this
      ensures claims == InsertAll(old(claims), more)
    {
      for i := 0 to |more|
        invariant claims == InsertAll(old(claims), more[..i])
      {
        assert more[..i + 1][..i] == more[..i];
        var _ := ClaimReminder(more[i]);
      }
      assert more[..|more|] == more;
    }

    /** One run, with the statements of others in between. */
    method SendExpiryReminders(run: Run, others: seq<Meanwhile>) returns (mailed: seq<Claim>)
      requires Lists(run) && |others| == |run.rows|
      modifies this
      ensures claims == RunAmong(old(claims), run, others)
      ensures mailed == Won(old(claims), run, others)
    {
      hide Lists, DaysLeft, PointFor;
      mailed := [];
      for k := 0 to |run.rows|
        invariant claims == RunAmong(old(claims), run, others[..k])
        invariant mailed == Won(old(claims), run, others[..k])
      {
        assert others[..k + 1][..k] == others[..k];
        var id := run.rows[k];
        var expiresAt := DateOf(run.subs, id);
        InsertByOthers(others[k].beforeCheck);
        var due := DueReminderPoint(expiresAt, run.now);
        DueFollowsDaysLeft(due, expiresAt, run.now);
        if due.Some? {
          var c := Claim(id, expiresAt, due.value, id in run.queued);
          var found := Nearby(claims, c);
          InsertByOthers(others[k].beforeInsert);
          if !found {
            var won := ClaimReminder(c);
            if won {
              mailed := mailed + [c];
            }
          }
        } else {
          InsertByOthers(others[k].beforeInsert);
        }
      }
      assert others[..|others|] == others;
    }
  }

  // ---------- runs that overlap ----------

  /** A run reaching the end of one row, after its insert if there was one; `checked` counts the looks, of all runs,
      that had ended when it made its check. */
  datatype Look = Look(run: Run, id: string, checked: nat)

  predicate Timed(looks: seq<Look>) {
    forall i :: 0 <= i < |looks| ==> looks[i].checked <= i
  }

  /** The looks of any number of runs, in the order in which they end. */
  type Schedule = looks: seq<Look> | Timed(looks)

  function After(start: seq<Claim>, looks: Schedule): seq<Claim>
    decreases |looks|, 0
  {
    if looks == [] then start
    else
      var n := |looks| - 1;
      After(start, looks[..n]) + Added(After(start, looks[..n]), Tried(start, looks, n))
  }

  /** What look i goes on to insert. */
  function Tried(start: seq<Claim>, looks: Schedule, i: nat): seq<Claim>
    requires i < |looks|
    decreases i, 1
  {
    Attempt(After(start, looks[..looks[i].checked]), looks[i].run, looks[i].id)
  }

  /** What look i adds. */
  function Inserted(start: seq<Claim>, looks: Schedule, i: nat): seq<Claim>
    requires i < |looks|
  {
    Added(After(start, looks[..i]), Tried(start, looks, i))
  }

  ghost predicate AreLooks(looks: Schedule) {
    forall i :: 0 <= i < |looks| ==> Lists(looks[i].run) && looks[i].id in looks[i].run.rows
  }

  /** These are the looks of a run, which takes its rows one after the other and may be cut off. */
  predicate IsRunOf(looks: Schedule, run: Run, at: seq<nat>) {
    && |at| <= |run.rows|
    && (forall k :: 0 <= k < |at| ==>
          at[k] < |looks| && looks[at[k]].run == run && looks[at[k]].id == run.rows[k])
    && (forall k :: 0 < k < |at| ==> at[k - 1] < looks[at[k]].checked)
  }

  lemma AfterPrefix(start: seq<Claim>, looks: Schedule, i: nat)
    requires i < |looks|
    ensures After(start, looks[..i + 1]) == After(start, looks[..i]) + Inserted(start, looks, i)
  {
    assert looks[..i + 1][..i] == looks[..i];
    assert looks[..i + 1][..looks[i].checked] == looks[..looks[i].checked];
    assert Tried(start, looks[..i + 1], i) == Tried(start, looks, i);
  }

  lemma InsertMore(claims: seq<Claim>, more: seq<Claim>, attempt: seq<Claim>)
    requires |attempt| <= 1
    ensures InsertAll(claims, more + attempt) == InsertAll(claims, more) + Added(InsertAll(claims, more), attempt)
  {
    if attempt == [] {
      assert more + attempt == more;
    } else {
      assert (more + attempt)[..|more|] == more;
    }
  }

  /** What happens from one look to another is a sequence of inserts. */
  lemma {:induction false} InsertsBetween(start: seq<Claim>, looks: Schedule, i: nat, j: nat)
    returns (more: seq<Claim>)
    requires i <= j <= |looks|
    ensures After(start, looks[..j]) == InsertAll(After(start, looks[..i]), more)
  {
    if i == j {
      more := [];
    } else {
      more := InsertsBetween(start, looks, i, j - 1);
      AfterPrefix(start, looks, j - 1);
      InsertMore(After(start, looks[..i]), more, Tried(start, looks, j - 1));
      more := more + Tried(start, looks, j - 1);
    }
  }

  /** What the looks of a run add. */
  function InsertedAt(start: seq<Claim>, looks: Schedule, at: seq<nat>): seq<Claim>
    requires forall k :: 0 <= k < |at| ==> at[k] < |looks|
  {
    if at == [] then []
    else InsertedAt(start, looks, at[..|at| - 1]) + Inserted(start, looks, at[|at| - 1])
  }

  /** The number of looks that have ended with the last of these. */
  function EndOf(at: seq<nat>): nat {
    if at == [] then 0 else at[|at| - 1] + 1
  }

  /** Whatever the runs beside it do: each run of a schedule is the job with some inserts of others in between. */
  lemma {:induction false} RunInSchedule(start: seq<Claim>, looks: Schedule, run: Run, at: seq<nat>)
    returns (others: seq<Meanwhile>)
    requires IsRunOf(looks, run, at)
    ensures |others| == |at| && Won(start, run, others) == InsertedAt(start, looks, at)
    ensures RunAmong(start, run, others) == After(start, looks[..EndOf(at)])
  {
    if at == [] {
      others := [];
    } else {
      var n := |at| - 1;
      RowsBefore(looks, run, at);
      assert InsertedAt(start, looks, at) == InsertedAt(start, looks, at[..n]) + Inserted(start, looks, at[n]);
      hide *;
      var before := RunInSchedule(start, looks, run, at[..n]);
      var m := OneMoreRow(start, looks, run, before, EndOf(at[..n]), at[n]);
      others := before + [m];
    }
  }

  lemma RowsBefore(looks: Schedule, run: Run, at: seq<nat>)
    requires at != [] && IsRunOf(looks, run, at)
    ensures var n := |at| - 1;
            && IsRunOf(looks, run, at[..n]) && at[n] < |looks| && n < |run.rows|
            && looks[at[n]].run == run && looks[at[n]].id == run.rows[n]
            && EndOf(at[..n]) <= looks[at[n]].checked && EndOf(at) == at[n] + 1
  {
  }

  lemma OneMoreRow(start: seq<Claim>, looks: Schedule, run: Run, before: seq<Meanwhile>, from: nat, i: nat)
    returns (m: Meanwhile)
    requires |before| < |run.rows| && i < |looks| && from <= looks[i].checked
    requires looks[i].run == run && looks[i].id == run.rows[|before|]
    requires RunAmong(start, run, before) == After(start, looks[..from])
    ensures RunAmong(start, run, before + [m]) == After(start, looks[..i + 1])
    ensures Won(start, run, before + [m]) == Won(start, run, before) + Inserted(start, looks, i)
  {
    hide After, InsertAll, Attempt, Added;
    var beforeCheck := InsertsBetween(start, looks, from, looks[i].checked);
    var beforeInsert := InsertsBetween(start, looks, looks[i].checked, i);
    m := Meanwhile(beforeCheck, beforeInsert);
    assert (before + [m])[..|before|] == before;
    AfterPrefix(start, looks, i);
  }
  // ---------- who is looked at ----------

  /** A candidate is active and has one to seven days left. */
  lemma CandidateByDaysLeft(subs: map<string, Subscription>, id: string, now: int)
    ensures Candidate(subs, id, now) <==>
              && id in subs && subs[id].active && subs[id].expiresAt.Some?
              && 1 <= DaysLeft(subs[id].expiresAt.value, now) <= 7
  {
    if id in subs && subs[id].expiresAt.Some? {
      DaysLeftIsLeast(subs[id].expiresAt.value, now, 0);
      DaysLeftIsLeast(subs[id].expiresAt.value, now, 7);
    }
  }

  /** The first of some ids by date. */
  lemma {:induction false} EarliestOf(subs: map<string, Subscription>, ids: set<string>) returns (first: string)
    requires ids != {}
    ensures first in ids && forall id :: id in ids ==> DateOf(subs, first) <= DateOf(subs, id)
    decreases |ids|
  {
    first :| first in ids;
    if ids != {first} {
      var other := EarliestOf(subs, ids - {first});
      assert forall id :: id in ids ==> id == first || id in ids - {first};
      if DateOf(subs, other) < DateOf(subs, first) {
        first := other;
      }
    }
  }

  ghost predicate ByDate(subs: map<string, Subscription>, rows: seq<string>) {
    forall i, j :: 0 <= i < j < |rows| ==> rows[i] != rows[j] && DateOf(subs, rows[i]) <= DateOf(subs, rows[j])
  }

  lemma {:induction false} SortedByDate(subs: map<string, Subscription>, ids: set<string>) returns (rows: seq<string>)
    ensures ByDate(subs, rows) && forall id :: id in rows <==> id in ids
    decreases |ids|
  {
    if ids == {} {
      rows := [];
    } else {
      hide DateOf;
      var first := EarliestOf(subs, ids);
      var rest := SortedByDate(subs, ids - {first});
      rows := [first] + rest;
      forall i, j | 0 <= i < j < |rows|
        ensures rows[i] != rows[j] && DateOf(subs, rows[i]) <= DateOf(subs, rows[j])
      {
        assert rows[j] == rest[j - 1] && rest[j - 1] in rest;
        assert i > 0 ==> rows[i] == rest[i - 1];
      }
    }
  }

  /** Whatever the subscriptions are, the query has an answer. */
  lemma ListingExists(now: int, subs: map<string, Subscription>, queued: set<string>) returns (run: Run)
    ensures run.now == now && run.subs == subs && run.queued == queued && Lists(run)
  {
    hide DateOf, Candidate;
    var candidates := set id | id in subs && Candidate(subs, id, now);
    var all := SortedByDate(subs, candidates);
    CandidatesAreKnown(subs, now);
    var rows := if |all| <= PAGE then all else all[..PAGE];
    run := Run(now, subs, rows, queued);
    forall i | 0 <= i < |rows|
      ensures Candidate(subs, rows[i], now)
    {
      assert rows[i] == all[i] && all[i] in all;
    }
    forall id | Candidate(subs, id, now) && id !in rows
      ensures |rows| == PAGE && forall i :: 0 <= i < PAGE ==> DateOf(subs, rows[i]) <= DateOf(subs, id)
    {
      assert id in candidates && id in all;
      var k :| 0 <= k < |all| && all[k] == id;
      assert all[..|rows|] == rows && id !in all[..|rows|];
    }
  }

  lemma CandidatesAreKnown(subs: map<string, Subscription>, now: int)
    ensures forall id :: Candidate(subs, id, now) ==> id in subs
  {
  }

  function Earlier(run: Run, date: int): set<string> {
    set id | id in run.subs && Candidate(run.subs, id, run.now) && DateOf(run.subs, id) < date
  }

  function NotLater(run: Run, id: string): set<string> {
    set other | other in run.subs && other != id && Candidate(run.subs, other, run.now)
                && DateOf(run.subs, other) <= DateOf(run.subs, id)
  }

  function Elements(rows: seq<string>): set<string> {
    set i | 0 <= i < |rows| :: rows[i]
  }

  lemma {:induction false} ElementCount(rows: seq<string>)
    ensures |Elements(rows)| <= |rows|
    ensures (forall i, j :: 0 <= i < j < |rows| ==> rows[i] != rows[j]) ==> |Elements(rows)| == |rows|
  {
    if rows != [] {
      var n := |rows| - 1;
      ElementCount(rows[..n]);
      assert Elements(rows) == Elements(rows[..n]) + {rows[n]} by {
        assert forall i :: 0 <= i < n ==> rows[..n][i] == rows[i];
      }
    }
  }

  lemma SubsetCount<T>(a: set<T>, b: set<T>)
    requires a <= b
    ensures |a| <= |b|
  {
    assert b == a + (b - a);
  }

  /** With fewer than fifty others that expire no later, a candidate is looked at. */
  lemma FewNotLater(run: Run, id: string)
    requires Lists(run) && Candidate(run.subs, id, run.now) && |NotLater(run, id)| < PAGE
    ensures id in run.rows
  {
    if id !in run.rows {
      ElementCount(run.rows);
      SubsetCount(Elements(run.rows), NotLater(run, id));
    }
  }

  /** Only a candidate with fewer than fifty others that expire earlier is looked at. */
  lemma FewEarlier(run: Run, id: string)
    requires Lists(run) && id in run.rows
    ensures |Earlier(run, DateOf(run.subs, id))| < PAGE
  {
    var k :| 0 <= k < |run.rows| && run.rows[k] == id;
    ElementCount(run.rows[..k]);
    forall other | other in Earlier(run, DateOf(run.subs, id))
      ensures other in Elements(run.rows[..k])
    {
      assert other in run.rows;
      var j :| 0 <= j < |run.rows| && run.rows[j] == other;
      assert run.rows[..k][j] == other;
    }
    SubsetCount(Earlier(run, DateOf(run.subs, id)), Elements(run.rows[..k]));
  }

  /** A run looks at a candidate when fewer than fifty others expire no later than it, and only when fewer than fifty
      expire earlier. */
  lemma LookedAtByRank(run: Run, id: string)
    requires Lists(run) && Candidate(run.subs, id, run.now)
    ensures |NotLater(run, id)| < PAGE ==> id in run.rows
    ensures id in run.rows ==> |Earlier(run, DateOf(run.subs, id))| < PAGE
  {
    hide Lists, NotLater, Earlier;
    if |NotLater(run, id)| < PAGE {
      FewNotLater(run, id);
    }
    if id in run.rows {
      FewEarlier(run, id);
    }
  }

  /** With no other candidate expiring at the same moment, it is looked at exactly when it is among the first fifty. */
  lemma LookedAtExactly(run: Run, id: string)
    requires Lists(run) && Candidate(run.subs, id, run.now)
    requires forall other :: Candidate(run.subs, other, run.now) && other != id ==>
               DateOf(run.subs, other) != DateOf(run.subs, id)
    ensures id in run.rows <==> |Earlier(run, DateOf(run.subs, id))| < PAGE
  {
    LookedAtByRank(run, id);
    assert NotLater(run, id) == Earlier(run, DateOf(run.subs, id));
  }

  // ---------- one expiry date ----------

  function Next(points: seq<int>, due: Option<int>): seq<int> {
    if due.Some? && due.value !in points then points + [due.value] else points
  }

  /** The points claimed for one expiry date when it is looked at these times. */
  function Claimed(expiresAt: int, looks: seq<int>): seq<int> {
    if looks == [] then []
    else Next(Claimed(expiresAt, looks[..|looks| - 1]), PointFor(DaysLeft(expiresAt, looks[|looks| - 1])))
  }

  /** One more look. */
  lemma ClaimedNext(expiresAt: int, looks: seq<int>, now: int)
    ensures Claimed(expiresAt, looks + [now]) == Next(Claimed(expiresAt, looks), PointFor(DaysLeft(expiresAt, now)))
  {
    assert (looks + [now])[..|looks|] == looks;
  }

  predicate InOrder(looks: seq<int>) {
    forall i :: 0 < i < |looks| ==> looks[i - 1] <= looks[i]
  }

  predicate Falling(points: seq<int>) {
    forall i, j :: 0 <= i < j < |points| ==> points[i] > points[j]
  }

  /** For one expiry date the reminders only move towards the expiry: no point is ever repeated or followed by an
      earlier one, and each was reached when it was claimed. */
  lemma {:induction false} RemindersFall(expiresAt: int, looks: seq<int>)
    requires InOrder(looks)
    ensures Falling(Claimed(expiresAt, looks))
    ensures forall point :: point in Claimed(expiresAt, looks) ==>
              point in REMINDER_POINTS && Reached(point, expiresAt, looks[|looks| - 1])
  {
    if looks != [] {
      hide DaysLeft, PointFor;
      var n := |looks| - 1;
      RemindersFall(expiresAt, looks[..n]);
      var due := PointFor(DaysLeft(expiresAt, looks[n]));
      DueFollowsDaysLeft(due, expiresAt, looks[n]);
      var before := Claimed(expiresAt, looks[..n]);
      assert forall point :: point in before ==> Reached(point, expiresAt, looks[n]);
      if due.Some? && due.value !in before {
        forall i | 0 <= i < |before|
          ensures before[i] > due.value
        {
          assert before[i] in before && Reached(before[i], expiresAt, looks[n]);
        }
      }
    }
  }

  /** Whatever the order of the looks, no point is claimed again. */
  lemma {:induction false} ClaimedOnce(expiresAt: int, looks: seq<int>)
    ensures Distinct(Claimed(expiresAt, looks))
  {
    if looks != [] {
      ClaimedOnce(expiresAt, looks[..|looks| - 1]);
    }
  }

  predicate Distinct(points: seq<int>) {
    forall i, j :: 0 <= i < j < |points| ==> points[i] != points[j]
  }

  // ---------- the claims of one subscription ----------

  /** The times of the runs that looked at the subscription, in the order in which the looks ended. */
  function Times(looks: seq<Look>, id: string): seq<int> {
    if looks == [] then []
    else
      var last, before := looks[|looks| - 1], Times(looks[..|looks| - 1], id);
      if last.id == id then before + [last.run.now] else before
  }

  /** The points claimed for a date of the subscription. */
  function PointsFor(claims: seq<Claim>, id: string, expiresAt: int): seq<int> {
    if claims == [] then []
    else
      var last := claims[|claims| - 1];
      PointsFor(claims[..|claims| - 1], id, expiresAt)
      + if last.id == id && last.expiresAt == expiresAt then [last.point] else []
  }

  lemma {:induction false} PointsHold(claims: seq<Claim>, id: string, expiresAt: int, point: int)
    ensures point in PointsFor(claims, id, expiresAt) <==>
              exists i :: 0 <= i < |claims| && SameKey(claims[i], Claim(id, expiresAt, point, true))
  {
    if claims != [] {
      var n := |claims| - 1;
      PointsHold(claims[..n], id, expiresAt, point);
      assert forall i :: 0 <= i < n ==> claims[..n][i] == claims[i];
    }
  }

  lemma {:induction false} PointsGrow(claims: seq<Claim>, more: seq<Claim>, id: string, expiresAt: int, point: int)
    requires point in PointsFor(claims, id, expiresAt)
    ensures point in PointsFor(claims + more, id, expiresAt)
  {
    PointsHold(claims, id, expiresAt, point);
    var i :| 0 <= i < |claims| && SameKey(claims[i], Claim(id, expiresAt, point, true));
    assert SameKey((claims + more)[i], Claim(id, expiresAt, point, true));
    PointsHold(claims + more, id, expiresAt, point);
  }

  /** Every claim of the subscription is for this date or for one at least a day away from it. */
  ghost predicate Apart(claims: seq<Claim>, id: string, expiresAt: int) {
    forall i :: 0 <= i < |claims| && claims[i].id == id ==>
      || claims[i].expiresAt == expiresAt
      || claims[i].expiresAt <= expiresAt - DAY_MS
      || claims[i].expiresAt >= expiresAt + DAY_MS
  }

  /** Every claim of the subscription is for another date, at least a day away. */
  ghost predicate OtherDates(claims: seq<Claim>, id: string, expiresAt: int) {
    forall i :: 0 <= i < |claims| && claims[i].id == id ==>
      claims[i].expiresAt <= expiresAt - DAY_MS || claims[i].expiresAt >= expiresAt + DAY_MS
  }

  lemma {:induction false} NothingForDate(start: seq<Claim>, id: string, expiresAt: int)
    requires OtherDates(start, id, expiresAt)
    ensures PointsFor(start, id, expiresAt) == [] && Apart(start, id, expiresAt)
  {
    if start != [] {
      NothingForDate(start[..|start| - 1], id, expiresAt);
    }
  }

  /** The date of the subscription in every look at it. */
  ghost predicate KeepsDate(looks: seq<Look>, id: string, expiresAt: int) {
    forall i :: 0 <= i < |looks| && looks[i].id == id ==> DateOf(looks[i].run.subs, id) == expiresAt
  }

  /** When all other dates are a day away, the check and the key both come down to the points claimed for this one. */
  lemma NearbyIsClaimed(claims: seq<Claim>, c: Claim)
    requires Apart(claims, c.id, c.expiresAt)
    ensures Nearby(claims, c) <==> c.point in PointsFor(claims, c.id, c.expiresAt)
    ensures HasKey(claims, c) <==> c.point in PointsFor(claims, c.id, c.expiresAt)
  {
    PointsHold(claims, c.id, c.expiresAt, c.point);
    if Nearby(claims, c) {
      var i :| 0 <= i < |claims| && IsNear(claims[i], c);
      assert SameKey(claims[i], c) && SameKey(claims[i], Claim(c.id, c.expiresAt, c.point, true));
    }
    if c.point in PointsFor(claims, c.id, c.expiresAt) {
      var i :| 0 <= i < |claims| && SameKey(claims[i], Claim(c.id, c.expiresAt, c.point, true));
      assert SameKey(claims[i], c) && IsNear(claims[i], c);
    }
  }

  /** One more look, checked some time before: what it adds depends on the points claimed by now. */
  lemma OneMoreLook(checked: seq<Claim>, more: seq<Claim>, run: Run, id: string, expiresAt: int)
    requires Apart(checked + more, id, expiresAt) && DateOf(run.subs, id) == expiresAt
    ensures var now := checked + more;
            var due := PointFor(DaysLeft(expiresAt, run.now));
            Added(now, Attempt(checked, run, id))
            == if due.None? || due.value in PointsFor(now, id, expiresAt) then []
               else [Claim(id, expiresAt, due.value, id in run.queued)]
  {
    hide DaysLeft, PointFor;
    var due := PointFor(DaysLeft(expiresAt, run.now));
    if due.Some? {
      var c := Claim(id, expiresAt, due.value, id in run.queued);
      assert forall i :: 0 <= i < |checked| ==> (checked + more)[i] == checked[i];
      NearbyIsClaimed(checked, c);
      NearbyIsClaimed(checked + more, c);
      if due.value in PointsFor(checked, id, expiresAt) {
        PointsGrow(checked, more, id, expiresAt, due.value);
      }
    }
  }

  lemma {:induction false} AfterGrows(start: seq<Claim>, looks: Schedule, i: nat)
    returns (more: seq<Claim>)
    requires i <= |looks|
    ensures After(start, looks) == After(start, looks[..i]) + more
    decreases |looks|
  {
    if i == |looks| {
      more := [];
      assert looks[..i] == looks;
    } else {
      var n := |looks| - 1;
      hide After, Inserted;
      more := AfterGrows(start, looks[..n], i);
      assert looks[..n][..i] == looks[..i] && looks[..n + 1] == looks;
      AfterPrefix(start, looks, n);
      more := more + Inserted(start, looks, n);
    }
  }

  lemma PointsNext(claims: seq<Claim>, more: seq<Claim>, id: string, expiresAt: int)
    requires |more| <= 1 && Apart(claims, id, expiresAt)
    requires more != [] && more[0].id == id ==> more[0].expiresAt == expiresAt
    ensures Apart(claims + more, id, expiresAt)
    ensures PointsFor(claims + more, id, expiresAt)
         == PointsFor(claims, id, expiresAt) + if more != [] && more[0].id == id then [more[0].point] else []
  {
    if more == [] {
      assert claims + more == claims;
    } else {
      assert (claims + more)[..|claims|] == claims;
    }
  }

  /** What the last look adds. */
  lemma LastLook(start: seq<Claim>, looks: Schedule, id: string, expiresAt: int)
    requires looks != [] && KeepsDate(looks, id, expiresAt) && Apart(After(start, looks[..|looks| - 1]), id, expiresAt)
    ensures var n := |looks| - 1;
            var added := Inserted(start, looks, n);
            var due := PointFor(DaysLeft(expiresAt, looks[n].run.now));
            && After(start, looks) == After(start, looks[..n]) + added && |added| <= 1
            && if looks[n].id != id then added == [] || added[0].id != id
               else
                 added == if due.None? || due.value in PointsFor(After(start, looks[..n]), id, expiresAt) then []
                          else [Claim(id, expiresAt, due.value, id in looks[n].run.queued)]
  {
    hide DaysLeft, PointFor, PointsFor, Apart;
    var n := |looks| - 1;
    var last := looks[n];
    var more := AfterGrows(start, looks[..n], last.checked);
    assert looks[..n][..last.checked] == looks[..last.checked];
    if last.id == id {
      OneMoreLook(After(start, looks[..last.checked]), more, last.run, id, expiresAt);
    }
  }

  lemma PointsAfterLook(start: seq<Claim>, looks: Schedule, id: string, expiresAt: int)
    requires looks != [] && KeepsDate(looks, id, expiresAt) && Apart(After(start, looks[..|looks| - 1]), id, expiresAt)
    ensures Apart(After(start, looks), id, expiresAt)
    ensures var n := |looks| - 1;
            var before := PointsFor(After(start, looks[..n]), id, expiresAt);
            PointsFor(After(start, looks), id, expiresAt)
            == if looks[n].id == id then Next(before, PointFor(DaysLeft(expiresAt, looks[n].run.now))) else before
  {
    hide DaysLeft, PointFor, PointsFor, KeepsDate, Apart, After, Inserted;
    var n := |looks| - 1;
    LastLook(start, looks, id, expiresAt);
    PointsNext(After(start, looks[..n]), Inserted(start, looks, n), id, expiresAt);
  }

  lemma KeptBefore(looks: Schedule, id: string, expiresAt: int)
    requires looks != [] && KeepsDate(looks, id, expiresAt)
    ensures KeepsDate(looks[..|looks| - 1], id, expiresAt)
  {
  }

  /** However the runs of the job overlap and whatever happens to other subscriptions: the reminders claimed for a date
      of a subscription are those of the looks at it, in the order in which they ended. Other dates, at least a day
      away, play no part. */
  lemma {:induction false} ClaimsFollowLooks(start: seq<Claim>, looks: Schedule, id: string, expiresAt: int)
    requires KeepsDate(looks, id, expiresAt) && OtherDates(start, id, expiresAt)
    ensures PointsFor(After(start, looks), id, expiresAt) == Claimed(expiresAt, Times(looks, id))
    ensures Apart(After(start, looks), id, expiresAt)
    decreases |looks|
  {
    if looks == [] {
      NothingForDate(start, id, expiresAt);
    } else {
      hide DaysLeft, PointFor, PointsFor, KeepsDate, OtherDates, Apart, After, Claimed, Next;
      var n := |looks| - 1;
      KeptBefore(looks, id, expiresAt);
      ClaimsFollowLooks(start, looks[..n], id, expiresAt);
      PointsAfterLook(start, looks, id, expiresAt);
      ClaimedNext(expiresAt, Times(looks[..n], id), looks[n].run.now);
    }
  }

  /** This point is due at the look. */
  predicate LooksFor(look: Look, id: string, expiresAt: int, point: int) {
    look.id == id && PointFor(DaysLeft(expiresAt, look.run.now)) == Some(point)
  }

  ghost predicate SomeLook(looks: seq<Look>, id: string, expiresAt: int, point: int) {
    exists i :: 0 <= i < |looks| && LooksFor(looks[i], id, expiresAt, point)
  }

  lemma AnyLook(looks: seq<Look>, id: string, expiresAt: int, point: int)
    requires looks != []
    ensures var n := |looks| - 1;
            SomeLook(looks, id, expiresAt, point) <==>
              SomeLook(looks[..n], id, expiresAt, point) || LooksFor(looks[n], id, expiresAt, point)
  {
    hide LooksFor;
    var n := |looks| - 1;
    if SomeLook(looks[..n], id, expiresAt, point) {
      var i :| 0 <= i < n && LooksFor(looks[..n][i], id, expiresAt, point);
      assert looks[i] == looks[..n][i];
    }
    if SomeLook(looks, id, expiresAt, point) {
      var i :| 0 <= i < |looks| && LooksFor(looks[i], id, expiresAt, point);
      assert i < n ==> looks[..n][i] == looks[i];
    }
  }

  lemma {:induction false} ClaimedByLooks(looks: seq<Look>, id: string, expiresAt: int, point: int)
    ensures point in Claimed(expiresAt, Times(looks, id)) <==> SomeLook(looks, id, expiresAt, point)
    decreases |looks|
  {
    if looks != [] {
      hide DaysLeft, PointFor, Claimed;
      var n := |looks| - 1;
      ClaimedByLooks(looks[..n], id, expiresAt, point);
      ClaimedNext(expiresAt, Times(looks[..n], id), looks[n].run.now);
      AnyLook(looks, id, expiresAt, point);
    }
  }

  /** A reminder is claimed exactly when some run looked at the subscription while it was due: with 7 or 6 days left for
      the first, 5 or 4 for the second, 3 to 1 for the third. It is claimed once, however the runs overlap. */
  lemma ClaimedExactly(start: seq<Claim>, looks: Schedule, id: string, expiresAt: int, point: int)
    requires KeepsDate(looks, id, expiresAt) && OtherDates(start, id, expiresAt)
    ensures point in PointsFor(After(start, looks), id, expiresAt) <==> SomeLook(looks, id, expiresAt, point)
    ensures Distinct(PointsFor(After(start, looks), id, expiresAt))
  {
    hide After, PointsFor, Claimed, Times, SomeLook, OtherDates;
    ClaimsFollowLooks(start, looks, id, expiresAt);
    ClaimedByLooks(looks, id, expiresAt, point);
    ClaimedOnce(expiresAt, Times(looks, id));
  }

  // ---------- mails ----------

  ghost predicate Queued(claims: seq<Claim>, id: string, expiresAt: int, point: int) {
    exists i :: 0 <= i < |claims| && claims[i] == Claim(id, expiresAt, point, true)
  }

  /** Look i is the first one while the point is due, and a mail can be handed over. */
  ghost predicate FirstSucceeds(looks: seq<Look>, id: string, expiresAt: int, point: int, i: nat)
    requires i < |looks|
  {
    && LooksFor(looks[i], id, expiresAt, point) && id in looks[i].run.queued
    && !SomeLook(looks[..i], id, expiresAt, point)
  }

  ghost predicate SomeFirst(looks: seq<Look>, id: string, expiresAt: int, point: int) {
    exists i :: 0 <= i < |looks| && FirstSucceeds(looks, id, expiresAt, point, i)
  }

  lemma QueuedByLook(start: seq<Claim>, looks: Schedule, id: string, expiresAt: int, point: int)
    requires looks != [] && KeepsDate(looks, id, expiresAt) && Apart(After(start, looks[..|looks| - 1]), id, expiresAt)
    ensures var n := |looks| - 1;
            var before := After(start, looks[..n]);
            Queued(After(start, looks), id, expiresAt, point) <==>
              || Queued(before, id, expiresAt, point)
              || (LooksFor(looks[n], id, expiresAt, point) && id in looks[n].run.queued
                  && point !in PointsFor(before, id, expiresAt))
  {
    hide DaysLeft, PointFor, PointsFor, Apart, KeepsDate, After, Inserted, Queued;
    var n := |looks| - 1;
    LastLook(start, looks, id, expiresAt);
    QueuedNext(After(start, looks[..n]), Inserted(start, looks, n), id, expiresAt, point);
  }

  lemma QueuedNext(claims: seq<Claim>, more: seq<Claim>, id: string, expiresAt: int, point: int)
    requires |more| <= 1
    ensures Queued(claims + more, id, expiresAt, point) <==>
              || Queued(claims, id, expiresAt, point)
              || (more != [] && more[0] == Claim(id, expiresAt, point, true))
  {
    var all := claims + more;
    assert forall i :: 0 <= i < |claims| ==> all[i] == claims[i];
    assert more != [] ==> all[|claims|] == more[0];
  }

  /** A mail for a reminder is handed over exactly when that works for the first look that ends while the reminder is
      due; a failure then is not made good by any later one. */
  lemma {:induction false} QueuedExactly(start: seq<Claim>, looks: Schedule, id: string, expiresAt: int, point: int)
    requires KeepsDate(looks, id, expiresAt) && OtherDates(start, id, expiresAt)
    ensures Queued(After(start, looks), id, expiresAt, point) <==> SomeFirst(looks, id, expiresAt, point)
    decreases |looks|
  {
    if looks != [] {
      hide DaysLeft, PointFor, PointsFor, KeepsDate, OtherDates, Apart, After, Queued;
      hide SomeFirst, FirstSucceeds, LooksFor, SomeLook, Times, Claimed;
      var n := |looks| - 1;
      KeptBefore(looks, id, expiresAt);
      QueuedExactly(start, looks[..n], id, expiresAt, point);
      ClaimsFollowLooks(start, looks[..n], id, expiresAt);
      ClaimedByLooks(looks[..n], id, expiresAt, point);
      QueuedByLook(start, looks, id, expiresAt, point);
      FirstSucceedsLater(looks, id, expiresAt, point);
    }
  }

  lemma FirstSucceedsLater(looks: seq<Look>, id: string, expiresAt: int, point: int)
    requires looks != []
    ensures var n := |looks| - 1;
            SomeFirst(looks, id, expiresAt, point) <==>
              || SomeFirst(looks[..n], id, expiresAt, point)
              || (LooksFor(looks[n], id, expiresAt, point) && id in looks[n].run.queued
                  && !SomeLook(looks[..n], id, expiresAt, point))
  {
    hide LooksFor, SomeLook;
    var n := |looks| - 1;
    forall i | 0 <= i < n
      ensures FirstSucceeds(looks[..n], id, expiresAt, point, i) <==> FirstSucceeds(looks, id, expiresAt, point, i)
    {
      assert looks[..n][i] == looks[i] && looks[..n][..i] == looks[..i];
    }
    assert FirstSucceeds(looks, id, expiresAt, point, n) <==>
        LooksFor(looks[n], id, expiresAt, point) && id in looks[n].run.queued
        && !SomeLook(looks[..n], id, expiresAt, point);
  }

  // ---------- when every reminder is claimed ----------

  function RunTimes(runs: seq<Run>): (times: seq<int>)
    ensures |times| == |runs| && forall i :: 0 <= i < |runs| ==> times[i] == runs[i].now
  {
    seq(|runs|, i requires 0 <= i < |runs| => runs[i].now)
  }

  /** The looks of these runs, each of which got to the end. */
  ghost predicate Complete(runs: seq<Run>, looks: Schedule) {
    && AreLooks(looks)
    && (forall i :: 0 <= i < |looks| ==> looks[i].run in runs)
    && (forall run, id :: run in runs && id in run.rows ==> HasLook(looks, run, id))
  }

  ghost predicate HasLook(looks: seq<Look>, run: Run, id: string) {
    exists i :: 0 <= i < |looks| && looks[i].run == run && looks[i].id == id
  }

  /** While the subscription can be listed it is active with this date, and fewer than fifty others expire by then. */
  ghost predicate Unhindered(runs: seq<Run>, id: string, expiresAt: int) {
    forall run :: run in runs && expiresAt - 7 * DAY_MS <= run.now < expiresAt ==>
      && Lists(run) && id in run.subs && run.subs[id] == Subscription(true, Some(expiresAt))
      && |NotLater(run, id)| < PAGE
  }

  lemma DueIsInRange(point: int, expiresAt: int, now: int)
    requires IsDue(Some(point), expiresAt, now)
    ensures expiresAt - 7 * DAY_MS <= now < expiresAt
  {
    assert point in [7, 5, 3];
  }

  lemma {:induction false} ClaimedWhenDue(expiresAt: int, times: seq<int>, point: int)
    ensures point in Claimed(expiresAt, times) <==>
              exists i :: 0 <= i < |times| && PointFor(DaysLeft(expiresAt, times[i])) == Some(point)
  {
    if times != [] {
      hide DaysLeft, PointFor;
      var n := |times| - 1;
      ClaimedWhenDue(expiresAt, times[..n], point);
      assert forall i :: 0 <= i < n ==> times[..n][i] == times[i];
    }
  }

  /** A run that does not look has nothing to claim. */
  lemma NothingMissed(runs: seq<Run>, looks: Schedule, id: string, expiresAt: int, point: int)
    requires Complete(runs, looks) && Unhindered(runs, id, expiresAt)
    ensures SomeLook(looks, id, expiresAt, point) <==> point in Claimed(expiresAt, RunTimes(runs))
  {
    hide DaysLeft, PointFor, NotLater, Lists, Claimed;
    ClaimedWhenDue(expiresAt, RunTimes(runs), point);
    if SomeLook(looks, id, expiresAt, point) {
      var i :| 0 <= i < |looks| && LooksFor(looks[i], id, expiresAt, point);
      var j :| 0 <= j < |runs| && runs[j] == looks[i].run;
      assert RunTimes(runs)[j] == runs[j].now;
    }
    if point in Claimed(expiresAt, RunTimes(runs)) {
      var j :| 0 <= j < |runs| && PointFor(DaysLeft(expiresAt, RunTimes(runs)[j])) == Some(point);
      DueFollowsDaysLeft(Some(point), expiresAt, runs[j].now);
      DueIsInRange(point, expiresAt, runs[j].now);
      assert runs[j] in runs;
      LookedAtByRank(runs[j], id);
      assert HasLook(looks, runs[j], id);
      var i :| 0 <= i < |looks| && looks[i].run == runs[j] && looks[i].id == id;
      assert LooksFor(looks[i], id, expiresAt, point);
    }
  }

  /** What must have been claimed by a given time. */
  function ClaimedBy(expiresAt: int, now: int): seq<int> {
    if !Reached(7, expiresAt, now) then []
    else if !Reached(5, expiresAt, now) then [7]
    else if !Reached(3, expiresAt, now) then [7, 5]
    else [7, 5, 3]
  }

  /** Looking at least every two days, from before the second point is reached, claims every point once and in order. */
  lemma {:induction false} EveryPointIsClaimed(expiresAt: int, looks: seq<int>)
    requires looks != [] && InOrder(looks)
    requires looks[0] < expiresAt - 5 * DAY_MS
    requires forall i :: 0 < i < |looks| ==> looks[i] <= looks[i - 1] + 2 * DAY_MS
    ensures Claimed(expiresAt, looks) == ClaimedBy(expiresAt, looks[|looks| - 1])
  {
    var n := |looks| - 1;
    var due := PointFor(DaysLeft(expiresAt, looks[n]));
    DueFollowsDaysLeft(due, expiresAt, looks[n]);
    assert 7 in REMINDER_POINTS && 5 in REMINDER_POINTS && 3 in REMINDER_POINTS by {
      assert REMINDER_POINTS[0] == 7 && REMINDER_POINTS[1] == 5 && REMINDER_POINTS[2] == 3;
    }
    if n > 0 {
      EveryPointIsClaimed(expiresAt, looks[..n]);
      assert looks[n] <= looks[n - 1] + 2 * DAY_MS;
    } else {
      assert Claimed(expiresAt, looks[..n]) == [];
    }
  }

  lemma LastIsLeast(points: seq<int>)
    requires points != [] && Falling(points)
    ensures var n := |points| - 1;
            && points[n] in points && (forall point :: point in points ==> point >= points[n])
            && Falling(points[..n]) && points == points[..n] + [points[n]]
            && forall point :: point in points[..n] <==> point in points && point != points[n]
  {
  }

  lemma {:induction false} FallingAlike(a: seq<int>, b: seq<int>)
    requires Falling(a) && Falling(b) && forall point :: point in a <==> point in b
    ensures a == b
  {
    assert a != [] ==> a[0] in a;
    assert b != [] ==> b[0] in b;
    if a != [] {
      hide Falling;
      LastIsLeast(a);
      LastIsLeast(b);
      FallingAlike(a[..|a| - 1], b[..|b| - 1]);
    }
  }

  /** When the job runs at least every two days and never lists fifty others first, every reminder is claimed once,
      whether runs overlap or not; and in order, when looks end in the order of their runs' times. */
  lemma EveryReminderIsClaimed(start: seq<Claim>, runs: seq<Run>, looks: Schedule, id: string, expiresAt: int)
    requires Complete(runs, looks) && OtherDates(start, id, expiresAt)
    requires KeepsDate(looks, id, expiresAt) && Unhindered(runs, id, expiresAt)
    requires runs != [] && InOrder(RunTimes(runs)) && runs[0].now < expiresAt - 5 * DAY_MS
    requires forall i :: 0 < i < |runs| ==> runs[i].now <= runs[i - 1].now + 2 * DAY_MS
    ensures var points := PointsFor(After(start, looks), id, expiresAt);
            var expected := ClaimedBy(expiresAt, runs[|runs| - 1].now);
            && (forall point :: point in points <==> point in expected) && Distinct(points)
            && (InOrder(Times(looks, id)) ==> points == expected)
  {
    hide Lists, Claimed, After, PointsFor, Unhindered, SomeLook, KeepsDate, OtherDates, Complete, Times, Reached;
    var points, expected := PointsFor(After(start, looks), id, expiresAt), ClaimedBy(expiresAt, runs[|runs| - 1].now);
    EveryPointIsClaimed(expiresAt, RunTimes(runs));
    ClaimedExactly(start, looks, id, expiresAt, 7);
    forall point
      ensures point in points <==> point in expected
    {
      ClaimedExactly(start, looks, id, expiresAt, point);
      NothingMissed(runs, looks, id, expiresAt, point);
    }
    if InOrder(Times(looks, id)) {
      ClaimsFollowLooks(start, looks, id, expiresAt);
      RemindersFall(expiresAt, Times(looks, id));
      FallingAlike(points, expected);
    }
  }

  /** When fifty others expire earlier in every run, no reminder is ever claimed, however often the job runs. */
  lemma {:induction false} CrowdedOut(start: seq<Claim>, looks: Schedule, id: string, expiresAt: int)
    requires AreLooks(looks) && KeepsDate(looks, id, expiresAt) && OtherDates(start, id, expiresAt)
    requires forall i :: 0 <= i < |looks| && Candidate(looks[i].run.subs, id, looks[i].run.now) ==>
               |Earlier(looks[i].run, DateOf(looks[i].run.subs, id))| >= PAGE
    ensures PointsFor(After(start, looks), id, expiresAt) == []
  {
    hide After, Earlier, PointsFor, OtherDates, DaysLeft, PointFor, Candidate;
    var points := PointsFor(After(start, looks), id, expiresAt);
    if points != [] {
      ClaimedExactly(start, looks, id, expiresAt, points[0]);
      var i :| 0 <= i < |looks| && LooksFor(looks[i], id, expiresAt, points[0]);
      ListedIsCandidate(looks[i].run, id);
      FewEarlier(looks[i].run, id);
    }
  }

  lemma ListedIsCandidate(run: Run, id: string)
    requires Lists(run) && id in run.rows
    ensures Candidate(run.subs, id, run.now)
  {
  }

  // ---------- never twice ----------

  /** No two rows share the key. */
  ghost predicate UniqueKeys(claims: seq<Claim>) {
    forall i, j :: 0 <= i < j < |claims| ==> !SameKey(claims[i], claims[j])
  }

  /** No two claims of one point are for dates less than a day apart. */
  ghost predicate NoTwins(claims: seq<Claim>) {
    forall i, j :: 0 <= i < j < |claims| ==> !IsNear(claims[i], claims[j])
  }

  /** Whatever runs at the same time and however dates move: one reminder for one date is claimed once, and so its mails
      are tried by one run only. */
  lemma {:induction false} OneClaimForOneDate(looks: Schedule)
    ensures UniqueKeys(After([], looks))
    decreases |looks|
  {
    if looks != [] {
      var n := |looks| - 1;
      OneClaimForOneDate(looks[..n]);
      hide Tried, After;
      AfterPrefix([], looks, n);
      assert looks[..n + 1] == looks;
    }
  }

  /** The claim at position k was added by a look. */
  lemma {:induction false} Origin(looks: Schedule, k: nat) returns (i: nat)
    requires k < |After([], looks)|
    ensures i < |looks| && |After([], looks[..i])| == k && Inserted([], looks, i) == [After([], looks)[k]]
    decreases |looks|
  {
    var n := |looks| - 1;
    AfterPrefix([], looks, n);
    assert looks[..n + 1] == looks;
    if k < |After([], looks[..n])| {
      i := Origin(looks[..n], k);
      SameInserted(looks, n, i);
    } else {
      i := n;
    }
  }

  lemma SameInserted(looks: Schedule, n: nat, i: nat)
    requires i < n <= |looks|
    ensures looks[..n][..i] == looks[..i] && Inserted([], looks[..n], i) == Inserted([], looks, i)
  {
    assert looks[..n][..looks[i].checked] == looks[..looks[i].checked];
  }

  /** Every claim was made by a run for which the subscription was active, expired at that date, and had the days left
      that call for this point. */
  lemma ClaimsAreDue(looks: Schedule, k: nat) returns (i: nat)
    requires AreLooks(looks) && k < |After([], looks)|
    ensures i < |looks|
    ensures var c, run := After([], looks)[k], looks[i].run;
            && looks[i].id == c.id && c.id in run.subs && run.subs[c.id] == Subscription(true, Some(c.expiresAt))
            && PointFor(DaysLeft(c.expiresAt, run.now)) == Some(c.point)
  {
    hide DaysLeft, PointFor, After;
    i := Origin(looks, k);
    var c, run := After([], looks)[k], looks[i].run;
    assert Inserted([], looks, i) == [c];
    ListedIsCandidate(run, looks[i].id);
  }

  /** Both looks insert, for dates of one subscription that are less than a day apart but not equal, and the first
      insert comes between the check and the insert of the second. */
  ghost predicate Crossed(looks: Schedule, i: nat, j: nat)
    requires i < |looks| && j < |looks|
  {
    var first, second := Inserted([], looks, i), Inserted([], looks, j);
    && looks[j].checked <= i < j
    && first != [] && second != [] && IsNear(first[0], second[0]) && first[0].expiresAt != second[0].expiresAt
  }

  lemma CrossedMakesTwins(looks: Schedule, i: nat, j: nat)
    requires i < |looks| && j < |looks| && Crossed(looks, i, j)
    ensures !NoTwins(After([], looks))
  {
    hide Inserted, After, IsNear;
    var claims := After([], looks);
    var first, second := |After([], looks[..i])|, |After([], looks[..j])|;
    AfterPrefix([], looks, i);
    AfterPrefix([], looks, j);
    var toSecond := AfterGrows([], looks[..j], i + 1);
    var toEnd := AfterGrows([], looks, j + 1);
    assert looks[..j][..i + 1] == looks[..i + 1];
    assert claims[first] == Inserted([], looks, i)[0] && claims[second] == Inserted([], looks, j)[0];
  }

  lemma SizeGrows(looks: Schedule, i: nat, j: nat)
    requires i <= j <= |looks|
    ensures |After([], looks[..i])| <= |After([], looks[..j])|
  {
    var more := AfterGrows([], looks[..j], i);
    assert looks[..j][..i] == looks[..i];
  }

  lemma TwinsAreCrossed(looks: Schedule, k: nat, l: nat) returns (i: nat, j: nat)
    requires k < l < |After([], looks)| && IsNear(After([], looks)[k], After([], looks)[l])
    ensures i < |looks| && j < |looks| && Crossed(looks, i, j)
    ensures Inserted([], looks, i) == [After([], looks)[k]] && Inserted([], looks, j) == [After([], looks)[l]]
  {
    var claims := After([], looks);
    i := Origin(looks, k);
    j := Origin(looks, l);
    if j <= i {
      SizeGrows(looks, j, i);
      assert false;
    }
    if i < looks[j].checked {
      CheckedLater(looks, i, j);
      assert false;
    }
    OneClaimForOneDate(looks);
  }

  /** A look that checks after an insert does not insert what is near to it. */
  lemma CheckedLater(looks: Schedule, i: nat, j: nat)
    requires j < |looks| && i < looks[j].checked
    requires Inserted([], looks, i) != [] && Inserted([], looks, j) != []
    ensures !IsNear(Inserted([], looks, i)[0], Inserted([], looks, j)[0])
  {
    hide After, DaysLeft, PointFor;
    var checked := looks[j].checked;
    AfterPrefix([], looks, i);
    var more := AfterGrows([], looks[..checked], i + 1);
    assert looks[..checked][..i + 1] == looks[..i + 1];
    var k := |After([], looks[..i])|;
    assert After([], looks[..checked])[k] == Inserted([], looks, i)[0];
  }

  /** Two claims of one point for dates less than a day apart come about exactly when an insert for the one date falls
      between a check and its insert for the other. */
  lemma TwinsExactly(looks: Schedule)
    ensures NoTwins(After([], looks)) <==> !exists i, j :: 0 <= i < |looks| && 0 <= j < |looks| && Crossed(looks, i, j)
  {
    hide After, Crossed, IsNear;
    if i, j :| 0 <= i < |looks| && 0 <= j < |looks| && Crossed(looks, i, j) {
      CrossedMakesTwins(looks, i, j);
    }
    if !NoTwins(After([], looks)) {
      var k, l :| 0 <= k < l < |After([], looks)| && IsNear(After([], looks)[k], After([], looks)[l]);
      var i, j := TwinsAreCrossed(looks, k, l);
    }
  }

  /** Whatever becomes of the subscriptions and their dates between runs: when no insert falls between a check and its
      insert, no reminder is claimed twice for dates less than a day apart. */
  lemma NeverTwice(looks: Schedule)
    requires forall i :: 0 <= i < |looks| ==> looks[i].checked == i
    ensures NoTwins(After([], looks))
  {
    TwinsExactly(looks);
  }

  /** Nor is it for a subscription that has one date in all looks at it, however they overlap. */
  lemma OneDateNeverTwice(looks: Schedule, id: string, expiresAt: int)
    requires KeepsDate(looks, id, expiresAt)
    ensures var claims := After([], looks);
            forall k, l :: 0 <= k < l < |claims| && claims[k].id == id ==> !IsNear(claims[k], claims[l])
  {
    hide After, Inserted;
    var claims := After([], looks);
    forall k, l | 0 <= k < l < |claims| && claims[k].id == id
      ensures !IsNear(claims[k], claims[l])
    {
      if IsNear(claims[k], claims[l]) {
        var i, j := TwinsAreCrossed(looks, k, l);
        InsertedIsOfLook(looks, i);
        InsertedIsOfLook(looks, j);
        assert false;
      }
    }
  }

  lemma InsertedIsOfLook(looks: Schedule, i: nat)
    requires i < |looks| && Inserted([], looks, i) != []
    ensures var c := Inserted([], looks, i)[0];
            c.id == looks[i].id && c.expiresAt == DateOf(looks[i].run.subs, c.id)
  {
    hide After, DaysLeft, PointFor;
  }

  /** Two runs a minute apart, the date moved by five seconds in between: both check before either inserts. */
  lemma MovedDateClaimedTwice() returns (looks: Schedule)
    ensures AreLooks(looks) && |looks| == 2 && looks[0].run.now < looks[1].run.now
    ensures IsRunOf(looks, looks[0].run, [0]) && IsRunOf(looks, looks[1].run, [1])
    ensures |After([], looks)| == 2 && !NoTwins(After([], looks))
  {
    var date, next := 6 * DAY_MS + 3_600_000, 6 * DAY_MS + 3_605_000;
    assert PointFor(DaysLeft(date, 0)) == PointFor(DaysLeft(next, 60_000)) == Some(7);
    hide After, DaysLeft, PointFor, Attempt, Lists;
    var first, a := OnlyOne(date, 0);
    var second, b := OnlyOne(next, 60_000);
    looks := [Look(first, "s", 0), Look(second, "s", 0)];
    TwoLooks(first, second, a, b);
    assert IsNear([a, b][0], [a, b][1]);
  }

  lemma OnlyOne(date: int, now: int) returns (run: Run, c: Claim)
    requires now < date <= now + 7 * DAY_MS && PointFor(DaysLeft(date, now)) == Some(7)
    ensures run == Run(now, map["s" := Subscription(true, Some(date))], ["s"], {}) && Lists(run)
    ensures c == Claim("s", date, 7, false) && Attempt([], run, "s") == [c]
  {
    hide DaysLeft, PointFor;
    run := Run(now, map["s" := Subscription(true, Some(date))], ["s"], {});
    c := Claim("s", date, 7, false);
    assert DateOf(run.subs, "s") == date;
  }

  lemma TwoLooks(first: Run, second: Run, a: Claim, b: Claim)
    requires Attempt([], first, "s") == [a] && Attempt([], second, "s") == [b] && !SameKey(a, b)
    ensures After([], [Look(first, "s", 0), Look(second, "s", 0)]) == [a, b]
  {
    hide Attempt;
    var looks: Schedule := [Look(first, "s", 0), Look(second, "s", 0)];
    AfterPrefix([], looks, 0);
    AfterPrefix([], looks, 1);
    assert looks[..0] == [] && looks[..2] == looks;
    assert After([], looks[..1]) == [a];
  }
}
