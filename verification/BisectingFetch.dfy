/** Reading every e-mail event of a time window from a source that answers with at most 500 rows. */
module BisectingFetch {
  import opened Wrappers
  import Words

  /** Times are whole milliseconds. */
  datatype Event = Event(time: int, messageId: string, status: string)

  datatype FetchError = TooManyEvents | WindowSaturated

  const PAGE: nat := 500
  const MAX_REQUESTS: nat := 128
  const SHORTEST: int := 1000
  const WEEK: int := 7 * 86_400_000

  // ---------- the source ----------

  /** The events of a closed window, in the order of the log (newest first). */
  function InWindow(log: seq<Event>, from: int, until: int): seq<Event> {
    if log == [] then []
    else (if from <= log[0].time <= until then [log[0]] else []) + InWindow(log[1..], from, until)
  }

  /** One query: at most 500 rows. */
  function Query(log: seq<Event>, from: int, until: int): seq<Event> {
    var all := InWindow(log, from, until);
    if |all| <= PAGE then all else all[..PAGE]
  }

  /** A query answers with the first 500 events of the window, or all of them when there are fewer. */
  lemma QueryAnswers(log: seq<Event>, from: int, until: int)
    ensures var all, answer := InWindow(log, from, until), Query(log, from, until);
            answer == all[..|answer|] && |answer| <= 500 && (|answer| < 500 ==> answer == all)
  {
  }

  // ---------- the recursion ----------

  datatype Outcome = Outcome(result: Result<seq<Event>, FetchError>, requests: nat)

  function Fetch(log: seq<Event>, from: int, until: int, requests: nat): Outcome
    decreases until - from
  {
    var used := requests + 1;
    if used > MAX_REQUESTS then Outcome(Failure(TooManyEvents), used)
    else
      var events := Query(log, from, until);
      if |events| < PAGE then Outcome(Success(events), used)
      else if until - from <= SHORTEST then Outcome(Failure(WindowSaturated), used)
      else
        var mid := (from + until) / 2;
        var left := Fetch(log, from, mid, used);
        if left.result.Failure? then left
        else
          var right := Fetch(log, mid, until, left.requests);
          if right.result.Failure? then right
          else Outcome(Success(left.result.value + right.result.value), right.requests)
  }

  /** The reader with its request counter; `issued` counts the queries that were really sent. */
  class Reader {
    const log: seq<Event>
    var analyticsRequests: nat
    ghost var issued: nat

    constructor (log: seq<Event>)
      ensures this.log == log && analyticsRequests == 0 && issued == 0
    {
      this.log := log;
      analyticsRequests, issued := 0, 0;
    }

    method EventsBetween(from: int, until: int) returns (r: Result<seq<Event>, FetchError>)
      requires issued == (if analyticsRequests <= MAX_REQUESTS then analyticsRequests else MAX_REQUESTS)
      modifies this
      ensures r == Fetch(log, from, until, old(analyticsRequests)).result
      ensures analyticsRequests == Fetch(log, from, until, old(analyticsRequests)).requests
      ensures issued == (if analyticsRequests <= MAX_REQUESTS then analyticsRequests else MAX_REQUESTS)
      decreases until - from
    {
      analyticsRequests := analyticsRequests + 1;
      if analyticsRequests > MAX_REQUESTS {
        return Failure(TooManyEvents);
      }
      var events := Query(log, from, until);
      issued := issued + 1;
      if |events| < PAGE {
        return Success(events);
      }
      if until - from <= SHORTEST {
        return Failure(WindowSaturated);
      }
      var mid := (from + until) / 2;
      var left := EventsBetween(from, mid);
      if left.Failure? {
        return left;
      }
      var right := EventsBetween(mid, until);
      if right.Failure? {
        return right;
      }
      return Success(left.value + right.value);
    }
  }

  /** The windows the command accepts: in the past, of positive length and at most a week. */
  predicate AcceptsWindow(start: int, end: int, now: int) {
    !(end <= start || end - start > WEEK || end > now + 60_000)
  }

  /** Seconds may be lost to the clock, but no more than sixty. */
  lemma WindowAcceptedExactly(start: int, end: int, now: int)
    ensures AcceptsWindow(start, end, now) <==> start < end <= start + 7 * 24 * 60 * 60 * 1000 && end - now <= 60 * 1000
  {
  }

  // ---------- the shape of the recursion ----------

  predicate IsLeaf(log: seq<Event>, from: int, until: int) {
    |Query(log, from, until)| < PAGE
  }

  /** The times at which windows were halved. */
  function Splits(log: seq<Event>, from: int, until: int): (s: set<int>)
    ensures forall t: int :: t in s ==> from < t && t < until
    decreases until - from
  {
    if IsLeaf(log, from, until) || until - from <= SHORTEST then {}
    else
      var mid := (from + until) / 2;
      {mid} + Splits(log, from, mid) + Splits(log, mid, until)
  }

  /** The queries a complete reading takes; none when some window of a second or less is still full. */
  function QueriesNeeded(log: seq<Event>, from: int, until: int): Option<nat>
    decreases until - from
  {
    if IsLeaf(log, from, until) then Some(1)
    else if until - from <= SHORTEST then None
    else
      var mid := (from + until) / 2;
      match (QueriesNeeded(log, from, mid), QueriesNeeded(log, mid, until))
      case (Some(a), Some(b)) => Some(1 + a + b)
      case _ => None
  }

  function Depth(log: seq<Event>, from: int, until: int): nat
    decreases until - from
  {
    if IsLeaf(log, from, until) || until - from <= SHORTEST then 0
    else
      var mid := (from + until) / 2;
      var left, right := Depth(log, from, mid), Depth(log, mid, until);
      1 + if left > right then left else right
  }

  // ---------- completeness ----------

  /** How often an event occurs. */
  function Times(events: seq<Event>, e: Event): nat {
    multiset(events)[e]
  }

  lemma {:induction false} WindowCounts(log: seq<Event>, from: int, until: int, e: Event)
    ensures Times(InWindow(log, from, until), e) == if from <= e.time <= until then Times(log, e) else 0
  {
    if log != [] {
      WindowCounts(log[1..], from, until, e);
      assert log == [log[0]] + log[1..];
    }
  }

  lemma SumOfCounts(a: seq<Event>, b: seq<Event>, e: Event)
    ensures Times(a + b, e) == Times(a, e) + Times(b, e)
  {
  }

  /** What a complete reading returns of an event: all its occurrences, twice when it lies on a time
      at which a window was halved. */
  function Expected(log: seq<Event>, from: int, until: int, e: Event): nat {
    if !(from <= e.time <= until) then 0
    else if e.time in Splits(log, from, until) then 2 * Times(log, e)
    else Times(log, e)
  }

  lemma HalvesAddUp(log: seq<Event>, from: int, until: int, e: Event)
    requires !IsLeaf(log, from, until) && until - from > SHORTEST
    ensures var mid := (from + until) / 2;
            Expected(log, from, until, e) == Expected(log, from, mid, e) + Expected(log, mid, until, e)
  {
    hide IsLeaf, Times;
  }

  lemma LeafIsWhole(log: seq<Event>, from: int, until: int, e: Event)
    requires IsLeaf(log, from, until)
    ensures Times(Query(log, from, until), e) == Expected(log, from, until, e)
  {
    hide Times;
    WindowCounts(log, from, until, e);
  }

  /** A normal return holds every event of the window as often as the log does,
      and twice as often when the event lies on a time at which a window was halved. */
  lemma {:induction false} FetchIsComplete(log: seq<Event>, from: int, until: int, requests: nat, e: Event)
    requires Fetch(log, from, until, requests).result.Success?
    ensures Times(Fetch(log, from, until, requests).result.value, e) == Expected(log, from, until, e)
    decreases until - from
  {
    hide Times, Expected;
    if IsLeaf(log, from, until) {
      LeafIsWhole(log, from, until, e);
    } else {
      var mid := (from + until) / 2;
      var left := Fetch(log, from, mid, requests + 1);
      var right := Fetch(log, mid, until, left.requests);
      FetchIsComplete(log, from, mid, requests + 1, e);
      FetchIsComplete(log, mid, until, left.requests, e);
      SumOfCounts(left.result.value, right.result.value, e);
      HalvesAddUp(log, from, until, e);
    }
  }

  /** The reading returns normally exactly when every window of a second or less is below the page size
      and the queries needed fit in what is left of 128; then it uses exactly that many. */
  lemma {:induction false} FetchSucceedsExactly(log: seq<Event>, from: int, until: int, requests: nat)
    requires requests <= MAX_REQUESTS
    ensures var out := Fetch(log, from, until, requests);
            var needed := QueriesNeeded(log, from, until);
            (out.result.Success? <==> needed.Some? && requests + needed.value <= MAX_REQUESTS)
            && (out.result.Success? ==> out.requests == requests + needed.value)
            && out.requests <= MAX_REQUESTS + 1
    decreases until - from
  {
    if requests < MAX_REQUESTS && !IsLeaf(log, from, until) && until - from > SHORTEST {
      var mid := (from + until) / 2;
      FetchSucceedsExactly(log, from, mid, requests + 1);
      var left := Fetch(log, from, mid, requests + 1);
      if left.result.Success? {
        FetchSucceedsExactly(log, mid, until, left.requests);
      }
      NeededIsPositive(log, mid, until);
      NeededIsPositive(log, from, mid);
    } else {
      NeededIsPositive(log, from, until);
    }
  }

  lemma NeededIsPositive(log: seq<Event>, from: int, until: int)
    ensures QueriesNeeded(log, from, until).Some? ==> QueriesNeeded(log, from, until).value >= 1
  {
  }

  /** The queries of a complete reading are twice its halvings and one. */
  lemma {:induction false} QueriesAreSplits(log: seq<Event>, from: int, until: int)
    requires QueriesNeeded(log, from, until).Some?
    ensures QueriesNeeded(log, from, until).value == 1 + 2 * |Splits(log, from, until)|
    decreases until - from
  {
    if !IsLeaf(log, from, until) {
      var mid := (from + until) / 2;
      QueriesAreSplits(log, from, mid);
      QueriesAreSplits(log, mid, until);
      DisjointSize({mid}, Splits(log, from, mid));
      DisjointSize({mid} + Splits(log, from, mid), Splits(log, mid, until));
    }
  }

  lemma DisjointSize(a: set<int>, b: set<int>)
    requires a !! b
    ensures |a + b| == |a| + |b|
  {
  }

  // ---------- depth ----------

  lemma {:induction false} DepthBound(log: seq<Event>, from: int, until: int, d: nat)
    requires until - from <= SHORTEST * Words.Power2(d)
    ensures Depth(log, from, until) <= d
    decreases d
  {
    if d > 0 && !IsLeaf(log, from, until) && until - from > SHORTEST {
      var mid := (from + until) / 2;
      assert SHORTEST * Words.Power2(d) == 2 * (SHORTEST * Words.Power2(d - 1));
      DepthBound(log, from, mid, d - 1);
      DepthBound(log, mid, until, d - 1);
    }
  }

  /** In every accepted window the recursion is at most 20 deep. */
  lemma WeekDepth(log: seq<Event>, start: int, end: int, now: int)
    requires AcceptsWindow(start, end, now)
    ensures Depth(log, start, end) <= 20
  {
    assert Words.Power2(5) == 32;
    assert Words.Power2(10) == 1024;
    assert Words.Power2(15) == 32768;
    assert Words.Power2(20) == 1_048_576;
    DepthBound(log, start, end, 20);
  }
}
