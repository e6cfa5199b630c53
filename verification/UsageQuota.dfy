/**
 The usage quotas kept in a table of usage events.  A request reads its clock before it takes
 the write lock, so events may commit out of timestamp order; the count under the lock has a
 lower time bound but no upper one.  Times are microseconds since the epoch, in UTC.
 */
module UsageQuota {

  const SECOND := 1_000_000
  const DAY := 86_400_000_000

  datatype Scope = Scope(scopeType: string, scopeId: string, endpoint: string)

  datatype Event = Event(scope: Scope, amount: nat, createdAt: int)

  datatype Kind = Daily | Window(seconds: int)

  datatype Request = Request(scope: Scope, limit: int, kind: Kind, now: int)

  function Midnight(now: int): int {
    now - now % DAY
  }

  function WindowStart(r: Request): int {
    match r.kind
    case Daily => Midnight(r.now)
    case Window(seconds) => r.now - seconds * SECOND
  }

  /** `SUM(amount)` over one scope's events from `start` on. */
  function Used(events: seq<Event>, scope: Scope, start: int): nat {
    if events == [] then 0
    else
      var e := events[|events| - 1];
      Used(events[..|events| - 1], scope, start) + if e.scope == scope && e.createdAt >= start then e.amount else 0
  }

  predicate Admits(events: seq<Event>, r: Request) {
    r.limit <= 0 || Used(events, r.scope, WindowStart(r)) < r.limit
  }

  function Record(events: seq<Event>, r: Request): seq<Event> {
    if r.limit > 0 && Admits(events, r) then events + [Event(r.scope, 1, r.now)] else events
  }

  class UsageLog {
    var events: seq<Event>

    constructor ()
      ensures events == []
    {
      events := [];
    }

    /** The transaction both quotas share. */
    method Consume(scope: Scope, limit: int, windowStart: int, now: int) returns (ok: bool)
      requires limit > 0
      modifies this
      ensures ok == (Used(old(events), scope, windowStart) < limit)
      ensures events == if ok then old(events) + [Event(scope, 1, now)] else old(events)
    {
      var count := 0;
      for k := 0 to |events|
        invariant count == Used(events[..k], scope, windowStart)
      {
        assert events[..k + 1][..k] == events[..k];
        if events[k].scope == scope && events[k].createdAt >= windowStart {
          count := count + events[k].amount;
        }
      }
      assert events[..|events|] == events;
      if count >= limit {
        return false;
      }
      events := events + [Event(scope, 1, now)];
      return true;
    }

    method ConsumeDailyQuota(scope: Scope, limit: int, now: int) returns (ok: bool)
      modifies this
      ensures var r := Request(scope, limit, Daily, now);
              ok == Admits(old(events), r) && events == Record(old(events), r)
    {
      if limit <= 0 {
        return true;
      }
      ok := Consume(scope, limit, Midnight(now), now);
    }

    method ConsumeWindowQuota(scope: Scope, limit: int, windowSeconds: int, now: int) returns (ok: bool)
      modifies this
      ensures var r := Request(scope, limit, Window(windowSeconds), now);
              ok == Admits(old(events), r) && events == Record(old(events), r)
    {
      if limit <= 0 {
        return true;
      }
      ok := Consume(scope, limit, now - windowSeconds * SECOND, now);
    }
  }

  // ---------- Runs, in commit order ----------

  function After(requests: seq<Request>): seq<Event> {
    if requests == [] then [] else Record(After(requests[..|requests| - 1]), requests[|requests| - 1])
  }

  /** `SUM(amount)` over one scope's events in [low, high]. */
  function UsedBetween(events: seq<Event>, scope: Scope, low: int, high: int): nat {
    if events == [] then 0
    else
      var e := events[|events| - 1];
      UsedBetween(events[..|events| - 1], scope, low, high) +
      if e.scope == scope && low <= e.createdAt <= high then e.amount else 0
  }

  lemma {:induction false} BetweenWithinUsed(events: seq<Event>, scope: Scope, low: int, high: int, start: int)
    requires start <= low
    ensures UsedBetween(events, scope, low, high) <= Used(events, scope, start)
  {
    if events == [] {
    } else {
      BetweenWithinUsed(events[..|events| - 1], scope, low, high, start);
    }
  }

  /** Every recording request of the scope counts from no later than `low` whenever its own
      time lies in [low, high], and has a limit of at most `limit`. */
  ghost predicate CountsFrom(requests: seq<Request>, scope: Scope, limit: nat, low: int, high: int) {
    forall k :: 0 <= k < |requests| && requests[k].scope == scope && requests[k].limit > 0 ==>
      && requests[k].limit <= limit
      && (low <= requests[k].now <= high ==> WindowStart(requests[k]) <= low)
  }

  lemma {:induction false} IntervalIsBounded(requests: seq<Request>, scope: Scope, limit: nat, low: int, high: int)
    requires CountsFrom(requests, scope, limit, low, high)
    ensures UsedBetween(After(requests), scope, low, high) <= limit
  {
    if requests == [] {
    } else {
      var before, r := requests[..|requests| - 1], requests[|requests| - 1];
      IntervalIsBounded(before, scope, limit, low, high);
      var events := After(before);
      assert (events + [Event(r.scope, 1, r.now)])[..|events|] == events;
      if r.scope == scope && r.limit > 0 && low <= r.now <= high {
        BetweenWithinUsed(events, scope, low, high, WindowStart(r));
      }
    }
  }

  /** In whatever timestamp order requests commit, no closed window of the configured length
      holds more than `limit` admitted events of a scope. */
  lemma ClosedWindowIsBounded(requests: seq<Request>, scope: Scope, limit: nat, seconds: int, low: int)
    requires forall k :: 0 <= k < |requests| && requests[k].scope == scope && requests[k].limit > 0 ==>
               requests[k].limit <= limit && requests[k].kind.Window? && requests[k].kind.seconds >= seconds
    ensures UsedBetween(After(requests), scope, low, low + seconds * SECOND) <= limit
  {
    IntervalIsBounded(requests, scope, limit, low, low + seconds * SECOND);
  }

  /** In whatever timestamp order requests commit, no UTC day holds more than `limit` admitted
      events of a scope. */
  lemma UtcDayIsBounded(requests: seq<Request>, scope: Scope, limit: nat, day: int)
    requires forall k :: 0 <= k < |requests| && requests[k].scope == scope && requests[k].limit > 0 ==>
               requests[k].limit <= limit && requests[k].kind.Daily?
    ensures UsedBetween(After(requests), scope, day * DAY, day * DAY + DAY - 1) <= limit
  {
    forall k | 0 <= k < |requests| && day * DAY <= requests[k].now <= day * DAY + DAY - 1
      ensures Midnight(requests[k].now) == day * DAY
    {
      MidnightOfDay(requests[k].now, day);
    }
    IntervalIsBounded(requests, scope, limit, day * DAY, day * DAY + DAY - 1);
  }

  lemma MidnightOfDay(now: int, day: int)
    requires day * DAY <= now <= day * DAY + DAY - 1
    ensures Midnight(now) == day * DAY
  {
    assert now == now / DAY * DAY + now % DAY;
    assert now / DAY == day;
  }

  function EventsOf(events: seq<Event>, scope: Scope): seq<Event> {
    if events == [] then []
    else
      EventsOf(events[..|events| - 1], scope) +
      if events[|events| - 1].scope == scope then [events[|events| - 1]] else []
  }

  function RequestsOf(requests: seq<Request>, scope: Scope): seq<Request> {
    if requests == [] then []
    else
      RequestsOf(requests[..|requests| - 1], scope) +
      if requests[|requests| - 1].scope == scope then [requests[|requests| - 1]] else []
  }

  lemma UsedAppend(events: seq<Event>, e: Event, scope: Scope, start: int)
    ensures Used(events + [e], scope, start) ==
            Used(events, scope, start) + if e.scope == scope && e.createdAt >= start then e.amount else 0
  {
    assert (events + [e])[..|events|] == events;
  }

  lemma {:induction false} UsedOfScope(events: seq<Event>, scope: Scope, start: int)
    ensures Used(EventsOf(events, scope), scope, start) == Used(events, scope, start)
  {
    if events == [] {
    } else {
      var before, e := events[..|events| - 1], events[|events| - 1];
      UsedOfScope(before, scope, start);
      if e.scope == scope {
        UsedAppend(EventsOf(before, scope), e, scope, start);
      } else {
        assert EventsOf(events, scope) == EventsOf(before, scope);
      }
    }
  }

  /** One scope does not consume another's quota: dropping all other scopes' requests from a
      run changes nothing for this one. */
  lemma {:induction false} ScopesAreIndependent(requests: seq<Request>, scope: Scope)
    ensures EventsOf(After(requests), scope) == After(RequestsOf(requests, scope))
  {
    if requests == [] {
    } else {
      var before, r := requests[..|requests| - 1], requests[|requests| - 1];
      var events := After(before);
      ScopesAreIndependent(before, scope);
      UsedOfScope(events, scope, WindowStart(r));
      assert (events + [Event(r.scope, 1, r.now)])[..|events|] == events;
      if r.scope == scope {
        assert (RequestsOf(before, scope) + [r])[..|RequestsOf(before, scope)|] == RequestsOf(before, scope);
      } else {
        assert RequestsOf(requests, scope) == RequestsOf(before, scope);
      }
    }
  }

  /** The count sees the closed window ending at the request and, besides, exactly the events
      stamped after it: those are what can make the quota refuse early. */
  lemma {:induction false} CountIncludesLaterStamps(events: seq<Event>, scope: Scope, start: int, now: int)
    requires start <= now
    ensures Used(events, scope, start) == UsedBetween(events, scope, start, now) + Used(events, scope, now + 1)
  {
    if events == [] {
    } else {
      CountIncludesLaterStamps(events[..|events| - 1], scope, start, now);
    }
  }

  lemma {:induction false} NothingLater(events: seq<Event>, scope: Scope, now: int)
    requires forall k :: 0 <= k < |events| && events[k].scope == scope ==> events[k].createdAt <= now
    ensures Used(events, scope, now + 1) == 0
  {
    if events == [] {
    } else {
      NothingLater(events[..|events| - 1], scope, now);
    }
  }

  ghost predicate NoneLater(events: seq<Event>, r: Request) {
    forall k :: 0 <= k < |events| && events[k].scope == r.scope ==> events[k].createdAt <= r.now
  }

  lemma AdmittedFrom(events: seq<Event>, r: Request, start: int)
    requires r.limit > 0 && WindowStart(r) == start <= r.now
    ensures Admits(events, r) <==>
            UsedBetween(events, r.scope, start, r.now) + Used(events, r.scope, r.now + 1) < r.limit
    ensures NoneLater(events, r) ==> (Admits(events, r) <==> UsedBetween(events, r.scope, start, r.now) < r.limit)
  {
    CountIncludesLaterStamps(events, r.scope, start, r.now);
    if NoneLater(events, r) {
      NothingLater(events, r.scope, r.now);
    }
  }

  /** Exactly which requests of a day are admitted: those for whose scope less than the limit was used
      since that day began in UTC, counting what is stamped later than the request as well. */
  lemma DailyAdmittedExactly(events: seq<Event>, r: Request, day: int)
    requires r.kind.Daily? && r.limit > 0
    requires day * 86_400_000_000 <= r.now < (day + 1) * 86_400_000_000
    ensures var start := day * 86_400_000_000;
            && (Admits(events, r) <==>
                  UsedBetween(events, r.scope, start, r.now) + Used(events, r.scope, r.now + 1) < r.limit)
            && (NoneLater(events, r) ==> (Admits(events, r) <==> UsedBetween(events, r.scope, start, r.now) < r.limit))
  {
    MidnightOfDay(r.now, day);
    hide Admits, NoneLater, Used, UsedBetween;
    AdmittedFrom(events, r, day * 86_400_000_000);
  }

  /** The same for a window of seconds that ends at the request. */
  lemma WindowAdmittedExactly(events: seq<Event>, r: Request)
    requires r.kind.Window? && r.kind.seconds >= 0 && r.limit > 0
    ensures var start := r.now - r.kind.seconds * 1_000_000;
            && (Admits(events, r) <==>
                  UsedBetween(events, r.scope, start, r.now) + Used(events, r.scope, r.now + 1) < r.limit)
            && (NoneLater(events, r) ==> (Admits(events, r) <==> UsedBetween(events, r.scope, start, r.now) < r.limit))
  {
    hide Admits, NoneLater, Used, UsedBetween;
    AdmittedFrom(events, r, r.now - r.kind.seconds * 1_000_000);
  }

  /** Without a limit every request is admitted, and none is recorded. */
  lemma NoLimitNoRecord(events: seq<Event>, r: Request)
    requires r.limit <= 0
    ensures Admits(events, r) && Record(events, r) == events
  {
  }

  /** A request whose clock is a second behind is refused although its own window is empty. */
  lemma LateCommitIsRefusedEarly(events: seq<Event>, scope: Scope, late: Request)
    requires events == [Event(scope, 1, 2 * SECOND)] && late == Request(scope, 1, Window(60), SECOND)
    ensures events == Record([], Request(scope, 1, Window(60), 2 * SECOND))
    ensures !Admits(events, late) && UsedBetween(events, scope, WindowStart(late), late.now) == 0
  {
    assert events == [] + events;
    UsedAppend([], events[0], scope, WindowStart(late));
    UsedAppend([], events[0], scope, late.now + 1);
    CountIncludesLaterStamps(events, scope, WindowStart(late), late.now);
  }
}
