/**
 The sliding-window rate limiter with its lazy sweep, and the limiter it refines: one that
 keeps every admitted event and counts those inside the window.
 */
module RateLimiter {
  import opened Arithmetic
  import opened Sorting

  function AtLeastOne(n: int): nat {
    if n > 1 then n else 1
  }

  datatype Config = Config(limit: nat, window: nat, sweepInterval: nat)

  ghost predicate ValidConfig(c: Config) {
    c.limit >= 1 && c.window >= 1 && c.sweepInterval >= 1
  }

  datatype Limiter = Limiter(events: map<string, seq<real>>, untilSweep: int)

  datatype Call = Call(key: string, now: real)

  // ---------- One call ----------

  predicate Expired(deque: seq<real>, cutoff: real) {
    deque == [] || deque[|deque| - 1] <= cutoff
  }

  function Swept(events: map<string, seq<real>>, cutoff: real): map<string, seq<real>> {
    map key | key in events && !Expired(events[key], cutoff) :: events[key]
  }

  function DropFront(deque: seq<real>, cutoff: real): seq<real> {
    if deque != [] && deque[0] <= cutoff then DropFront(deque[1..], cutoff) else deque
  }

  function Deque(events: map<string, seq<real>>, key: string): seq<real> {
    if key in events then events[key] else []
  }

  /** Every `sweepInterval`-th call sweeps the clients whose newest event has expired. */
  function AfterSweep(s: Limiter, cutoff: real): map<string, seq<real>> {
    if s.untilSweep - 1 <= 0 then Swept(s.events, cutoff) else s.events
  }

  function Step(c: Config, s: Limiter, call: Call): (Limiter, bool) {
    var cutoff := call.now - c.window as real;
    var events := AfterSweep(s, cutoff);
    var live := DropFront(Deque(events, call.key), cutoff);
    var ok := |live| < c.limit;
    (Limiter(events[call.key := if ok then live + [call.now] else live],
             if s.untilSweep - 1 <= 0 then c.sweepInterval else s.untilSweep - 1),
     ok)
  }

  class SlidingWindowRateLimiter {
    const limit: nat
    const windowSeconds: nat
    const sweepInterval: nat
    var events: map<string, seq<real>>
    var operationsUntilSweep: int

    ghost function AsConfig(): Config {
      Config(limit, windowSeconds, sweepInterval)
    }

    ghost function AsLimiter(): Limiter
      reads this
    {
      Limiter(events, operationsUntilSweep)
    }

    constructor (limit: int, windowSeconds: int, sweepInterval: int)
      ensures ValidConfig(AsConfig()) && AsLimiter() == Fresh(AsConfig())
      ensures this.limit == if limit >= 1 then limit else 1
      ensures this.windowSeconds == if windowSeconds >= 1 then windowSeconds else 1
      ensures this.sweepInterval == if sweepInterval >= 1 then sweepInterval else 1
    {
      this.limit := AtLeastOne(limit);
      this.windowSeconds := AtLeastOne(windowSeconds);
      this.sweepInterval := AtLeastOne(sweepInterval);
      events := map[];
      operationsUntilSweep := AtLeastOne(sweepInterval);
    }

    method SweepExpired(cutoff: real)
      modifies this
      ensures events == Swept(old(events), cutoff) && operationsUntilSweep == old(operationsUntilSweep)
    {
      var expired := set key | key in events && (events[key] == [] || events[key][|events[key]| - 1] <= cutoff);
      events := events - expired;
    }

    /** Pops the expired front of one client's deque, and leaves the client a deque. */
    method PopExpired(key: string, cutoff: real)
      modifies this
      ensures events == old(events)[key := DropFront(Deque(old(events), key), cutoff)]
      ensures operationsUntilSweep == old(operationsUntilSweep)
    {
      if key in events {
        while events[key] != [] && events[key][0] <= cutoff
          invariant operationsUntilSweep == old(operationsUntilSweep)
          invariant key in events && events == old(events)[key := events[key]]
          invariant DropFront(old(events)[key], cutoff) == DropFront(events[key], cutoff)
          decreases |events[key]|
        {
          events := events[key := events[key][1..]];
        }
        if events[key] == [] {
          events := events - {key};
        }
      }
      if key !in events {
        events := events[key := []];
      }
    }

    method Allow(key: string, now: real) returns (ok: bool)
      modifies this
      ensures AsLimiter() == Step(AsConfig(), old(AsLimiter()), Call(key, now)).0
      ensures ok == Step(AsConfig(), old(AsLimiter()), Call(key, now)).1
    {
      hide DropFront, Swept;
      var cutoff := now - windowSeconds as real;
      operationsUntilSweep := operationsUntilSweep - 1;
      if operationsUntilSweep <= 0 {
        operationsUntilSweep := sweepInterval;
        SweepExpired(cutoff);
      }
      ghost var swept := events;
      PopExpired(key, cutoff);
      if |events[key]| >= limit {
        return false;
      }
      events := events[key := events[key] + [now]];
      assert events == swept[key := DropFront(Deque(swept, key), cutoff) + [now]];
      return true;
    }
  }

  // ---------- Runs, and the limiter that keeps all history ----------

  function Fresh(c: Config): Limiter {
    Limiter(map[], c.sweepInterval)
  }

  function After(c: Config, calls: seq<Call>): Limiter {
    if calls == [] then Fresh(c)
    else Step(c, After(c, calls[..|calls| - 1]), calls[|calls| - 1]).0
  }

  /** The calls the limiter admits, in order. */
  function Admitted(c: Config, calls: seq<Call>): seq<Call> {
    if calls == [] then []
    else
      var before, call := calls[..|calls| - 1], calls[|calls| - 1];
      Admitted(c, before) + if Step(c, After(c, before), call).1 then [call] else []
  }

  /** The times of one key's events. */
  function Times(history: seq<Call>, key: string): seq<real> {
    if history == [] then []
    else
      Times(history[..|history| - 1], key) +
      if history[|history| - 1].key == key then [history[|history| - 1].now] else []
  }

  /** The events later than the cutoff. */
  function Above(times: seq<real>, cutoff: real): seq<real> {
    if times == [] then []
    else
      Above(times[..|times| - 1], cutoff) +
      if times[|times| - 1] > cutoff then [times[|times| - 1]] else []
  }

  predicate NaiveAdmits(c: Config, history: seq<Call>, call: Call) {
    |Above(Times(history, call.key), call.now - c.window as real)| < c.limit
  }

  /** The calls admitted by the limiter that forgets nothing and never sweeps. */
  function NaiveAdmitted(c: Config, calls: seq<Call>): seq<Call> {
    if calls == [] then []
    else
      var history, call := NaiveAdmitted(c, calls[..|calls| - 1]), calls[|calls| - 1];
      history + if NaiveAdmits(c, history, call) then [call] else []
  }

  ghost predicate NonDecreasing(calls: seq<Call>) {
    forall i, j :: 0 <= i < j < |calls| ==> calls[i].now <= calls[j].now
  }

  // ---------- The refinement ----------

  lemma {:induction false} AboveConcat(a: seq<real>, b: seq<real>, cutoff: real)
    ensures Above(a + b, cutoff) == Above(a, cutoff) + Above(b, cutoff)
    decreases |b|
  {
    if b == [] {
      assert a + b == a;
    } else {
      assert (a + b)[..|a + b| - 1] == a + b[..|b| - 1];
      AboveConcat(a, b[..|b| - 1], cutoff);
    }
  }

  lemma {:induction false} AboveAll(times: seq<real>, cutoff: real)
    ensures (forall k :: 0 <= k < |times| ==> times[k] > cutoff) ==> Above(times, cutoff) == times
    ensures (forall k :: 0 <= k < |times| ==> times[k] <= cutoff) ==> Above(times, cutoff) == []
    ensures |Above(times, cutoff)| <= |times|
  {
    if times == [] {
    } else {
      AboveAll(times[..|times| - 1], cutoff);
    }
  }

  lemma AboveFront(first: real, rest: seq<real>, cutoff: real)
    ensures Above([first] + rest, cutoff) == (if first > cutoff then [first] else []) + Above(rest, cutoff)
  {
    AboveConcat([first], rest, cutoff);
    AboveAll([first], cutoff);
  }

  lemma {:induction false} DropFrontKeeps(deque: seq<real>, cutoff: real, later: real)
    requires cutoff <= later
    ensures Above(DropFront(deque, cutoff), later) == Above(deque, later)
    decreases |deque|
  {
    if deque == [] || deque[0] > cutoff {
    } else {
      DropFrontKeeps(deque[1..], cutoff, later);
      assert deque == [deque[0]] + deque[1..];
      AboveFront(deque[0], deque[1..], later);
    }
  }

  lemma {:induction false} DropFrontTidy(deque: seq<real>, cutoff: real)
    requires Ascending(deque)
    ensures Ascending(DropFront(deque, cutoff)) && |DropFront(deque, cutoff)| <= |deque|
    ensures forall k :: 0 <= k < |DropFront(deque, cutoff)| ==>
              DropFront(deque, cutoff)[k] > cutoff && DropFront(deque, cutoff)[k] in deque
    decreases |deque|
  {
    if deque == [] || deque[0] > cutoff {
    } else {
      DropFrontTidy(deque[1..], cutoff);
    }
  }

  /** On a sorted deque, dropping from the front is filtering. */
  lemma DropFrontFilters(deque: seq<real>, cutoff: real)
    requires Ascending(deque)
    ensures DropFront(deque, cutoff) == Above(deque, cutoff)
  {
    DropFrontTidy(deque, cutoff);
    AboveAll(DropFront(deque, cutoff), cutoff);
    DropFrontKeeps(deque, cutoff, cutoff);
  }

  /** What the stored deques look like between calls. */
  ghost predicate Tidy(c: Config, events: map<string, seq<real>>, clock: real) {
    forall key :: key in events ==> TidyDeque(c, events[key], clock)
  }

  ghost predicate TidyDeque(c: Config, deque: seq<real>, clock: real) {
    && 0 < |deque| <= c.limit
    && Ascending(deque)
    && forall t :: t in deque ==> t <= clock
  }

  /** The deques hold, of each key's history, everything above the cutoff. */
  ghost predicate Remembers(events: map<string, seq<real>>, history: seq<Call>, cutoff: real) {
    forall key, later :: later >= cutoff ==> SameAbove(events, history, key, later)
  }

  ghost predicate SameAbove(events: map<string, seq<real>>, history: seq<Call>, key: string, cutoff: real) {
    Above(Deque(events, key), cutoff) == Above(Times(history, key), cutoff)
  }

  lemma TimesAppend(history: seq<Call>, call: Call, key: string)
    ensures Times(history + [call], key) == Times(history, key) + if call.key == key then [call.now] else []
  {
    assert (history + [call])[..|history|] == history;
  }

  lemma SweepRefines(c: Config, s: Limiter, history: seq<Call>, clock: real, earlier: real,
                     now: real, cutoff: real)
    requires Tidy(c, s.events, clock) && clock <= now
    requires Remembers(s.events, history, earlier) && earlier <= cutoff
    ensures Tidy(c, AfterSweep(s, cutoff), now)
    ensures Remembers(AfterSweep(s, cutoff), history, cutoff)
  {
    var events := AfterSweep(s, cutoff);
    forall key | key in events ensures TidyDeque(c, events[key], now) {
      assert TidyDeque(c, s.events[key], clock);
    }
    forall key, later | later >= cutoff ensures SameAbove(events, history, key, later) {
      assert SameAbove(s.events, history, key, later);
      assert key in s.events ==> TidyDeque(c, s.events[key], clock);
      SweepKeeps(s.events, key, cutoff, later);
    }
  }

  /** What serving one key does to its deque. */
  lemma ServeRefines(c: Config, events: map<string, seq<real>>, history: seq<Call>, call: Call,
                     cutoff: real, live: seq<real>, ok: bool)
    requires ValidConfig(c) && Tidy(c, events, call.now) && Remembers(events, history, cutoff)
    requires cutoff == call.now - c.window as real
    requires live == DropFront(Deque(events, call.key), cutoff) && ok == (|live| < c.limit)
    ensures ok == NaiveAdmits(c, history, call)
    ensures TidyDeque(c, if ok then live + [call.now] else live, call.now)
  {
    var deque := Deque(events, call.key);
    assert call.key in events ==> TidyDeque(c, events[call.key], call.now);
    assert Ascending(deque) && |deque| <= c.limit && forall t :: t in deque ==> t <= call.now;
    assert SameAbove(events, history, call.key, cutoff);
    hide Remembers, Tidy, Above, Times, DropFront;
    DropFrontFilters(deque, cutoff);
    DropFrontTidy(deque, cutoff);
    if ok {
      ServedTidy(c, live, call.now);
    } else {
      assert |live| <= c.limit && live != [];
    }
  }

  lemma ServedTidy(c: Config, live: seq<real>, now: real)
    requires Ascending(live) && |live| < c.limit && forall k :: 0 <= k < |live| ==> live[k] <= now
    ensures TidyDeque(c, live + [now], now)
  {
  }

  /** Serving one key changes what is later than some point alike in its deque and in its history. */
  lemma ServeKeepsAbove(deque: seq<real>, history: seq<Call>, call: Call, cutoff: real, later: real, ok: bool)
    requires cutoff <= later && Above(deque, later) == Above(Times(history, call.key), later)
    ensures var live := DropFront(deque, cutoff);
            Above(if ok then live + [call.now] else live, later)
            == Above(Times(history + if ok then [call] else [], call.key), later)
  {
    var live := DropFront(deque, cutoff);
    DropFrontKeeps(deque, cutoff, later);
    hide DropFront, Times, Above;
    if ok {
      TimesAppend(history, call, call.key);
      AboveConcat(live, [call.now], later);
      AboveConcat(Times(history, call.key), [call.now], later);
    } else {
      assert history + [] == history;
    }
  }

  lemma ServeRemembers(c: Config, events: map<string, seq<real>>, history: seq<Call>, call: Call,
                       cutoff: real, from: real, live: seq<real>, ok: bool)
    requires Remembers(events, history, from) && cutoff <= from
    requires live == DropFront(Deque(events, call.key), cutoff)
    ensures Remembers(events[call.key := if ok then live + [call.now] else live],
                      history + if ok then [call] else [], from)
  {
    var events' := events[call.key := if ok then live + [call.now] else live];
    var history' := history + if ok then [call] else [];
    hide DropFront, Times, Above;
    forall key, later | later >= from ensures SameAbove(events', history', key, later) {
      assert SameAbove(events, history, key, later);
      if key == call.key {
        ServeKeepsAbove(Deque(events, key), history, call, cutoff, later, ok);
      } else {
        TimesOfOther(history, call, ok, key);
      }
    }
  }

  lemma TimesOfOther(history: seq<Call>, call: Call, ok: bool, key: string)
    requires key != call.key
    ensures Times(history + if ok then [call] else [], key) == Times(history, key)
  {
    TimesAppend(history, call, key);
    assert Times(history, key) + [] == Times(history, key);
    assert history + [] == history;
  }

  lemma StepRefines(c: Config, s: Limiter, history: seq<Call>, clock: real, call: Call)
    requires ValidConfig(c) && Tidy(c, s.events, clock) && clock <= call.now
    requires Remembers(s.events, history, clock - c.window as real)
    ensures Step(c, s, call).1 == NaiveAdmits(c, history, call)
    ensures Tidy(c, Step(c, s, call).0.events, call.now)
    ensures Remembers(Step(c, s, call).0.events, history + if Step(c, s, call).1 then [call] else [],
                      call.now - c.window as real)
  {
    hide Above, Times, DropFront, TidyDeque, Remembers, NaiveAdmits, AfterSweep;
    var (s', ok) := Step(c, s, call);
    var cutoff := call.now - c.window as real;
    var events := AfterSweep(s, cutoff);
    var live := DropFront(Deque(events, call.key), cutoff);
    SweepRefines(c, s, history, clock, clock - c.window as real, call.now, cutoff);
    ServeRefines(c, events, history, call, cutoff, live, ok);
    ServeRemembers(c, events, history, call, cutoff, cutoff, live, ok);
  }

  lemma SweepKeeps(events: map<string, seq<real>>, key: string, cutoff: real, later: real)
    requires key in events ==> Ascending(events[key])
    requires cutoff <= later
    ensures Above(Deque(Swept(events, cutoff), key), later) == Above(Deque(events, key), later)
  {
    AboveAll(Deque(events, key), later);
  }

  ghost function Clock(calls: seq<Call>): real {
    if calls == [] then 0.0 else calls[|calls| - 1].now
  }

  /** For non-decreasing times the limiter with deques and sweeps admits exactly the calls that
      the limiter with full history admits; its deques stay non-empty, sorted and no longer
      than the limit. */
  lemma {:induction false} LimiterRefinesNaive(c: Config, calls: seq<Call>)
    requires ValidConfig(c) && NonDecreasing(calls)
    ensures Admitted(c, calls) == NaiveAdmitted(c, calls)
    ensures Tidy(c, After(c, calls).events, Clock(calls))
    ensures Remembers(After(c, calls).events, Admitted(c, calls), Clock(calls) - c.window as real)
  {
    if calls == [] {
    } else {
      var before, call := calls[..|calls| - 1], calls[|calls| - 1];
      LimiterRefinesNaive(c, before);
      var clock := if before == [] then call.now else Clock(before);
      assert before == [] ==> After(c, before).events == map[] && Admitted(c, before) == [];
      assert Remembers(After(c, before).events, Admitted(c, before), clock - c.window as real);
      StepRefines(c, After(c, before), Admitted(c, before), clock, call);
    }
  }

  // ---------- The bound ----------

  /** How many times lie in (low, high]. */
  function CountIn(times: seq<real>, low: real, high: real): nat {
    if times == [] then 0
    else
      CountIn(times[..|times| - 1], low, high) +
      if low < times[|times| - 1] <= high then 1 else 0
  }

  lemma {:induction false} CountInAbove(times: seq<real>, low: real, high: real)
    ensures CountIn(times, low, high) <= |Above(times, low)|
    ensures (forall k :: 0 <= k < |times| ==> times[k] <= high) ==> CountIn(times, low, high) == |Above(times, low)|
  {
    if times == [] {
    } else {
      CountInAbove(times[..|times| - 1], low, high);
    }
  }

  lemma {:induction false} AboveMonotone(times: seq<real>, low: real, lower: real)
    requires lower <= low
    ensures |Above(times, low)| <= |Above(times, lower)|
  {
    if times == [] {
    } else {
      AboveMonotone(times[..|times| - 1], low, lower);
    }
  }

  lemma {:induction false} AdmittedAreCalls(c: Config, calls: seq<Call>, bound: real)
    requires forall i :: 0 <= i < |calls| ==> calls[i].now <= bound
    ensures forall i :: 0 <= i < |Admitted(c, calls)| ==> Admitted(c, calls)[i].now <= bound
  {
    if calls == [] {
    } else {
      AdmittedAreCalls(c, calls[..|calls| - 1], bound);
    }
  }

  lemma {:induction false} TimesBounded(history: seq<Call>, key: string, bound: real)
    requires forall i :: 0 <= i < |history| ==> history[i].now <= bound
    ensures forall k :: 0 <= k < |Times(history, key)| ==> Times(history, key)[k] <= bound
  {
    if history == [] {
    } else {
      TimesBounded(history[..|history| - 1], key, bound);
    }
  }

  lemma AdmitsNext(c: Config, calls: seq<Call>, call: Call)
    ensures After(c, calls + [call]) == Step(c, After(c, calls), call).0
    ensures Admitted(c, calls + [call]) == Admitted(c, calls) + if Step(c, After(c, calls), call).1 then [call] else []
  {
    assert (calls + [call])[..|calls|] == calls;
  }

  /** A call is admitted exactly when fewer than `limit` admitted events of its key lie in the
      half-open window that ends with it. */
  lemma AdmittedIffRoomInWindow(c: Config, calls: seq<Call>, call: Call)
    requires ValidConfig(c) && NonDecreasing(calls + [call])
    ensures Step(c, After(c, calls), call).1 <==>
            CountIn(Times(Admitted(c, calls), call.key), call.now - c.window as real, call.now) < c.limit
  {
    hide *;
    NextIsNaive(c, calls, call);
    WindowIsAbove(c, calls, call);
    RoomIsNaive(c, Admitted(c, calls), call);
  }

  lemma WindowIsAbove(c: Config, calls: seq<Call>, call: Call)
    requires NonDecreasing(calls + [call])
    ensures var times, cutoff := Times(Admitted(c, calls), call.key), call.now - c.window as real;
            CountIn(times, cutoff, call.now) == |Above(times, cutoff)|
  {
    CallsAreBefore(calls, call);
    hide *;
    AdmittedAreCalls(c, calls, call.now);
    TimesBounded(Admitted(c, calls), call.key, call.now);
    CountInAbove(Times(Admitted(c, calls), call.key), call.now - c.window as real, call.now);
  }

  lemma CallsAreBefore(calls: seq<Call>, call: Call)
    requires NonDecreasing(calls + [call])
    ensures NonDecreasing(calls) && forall i :: 0 <= i < |calls| ==> calls[i].now <= call.now
  {
    var all := calls + [call];
    assert call == all[|calls|] && forall i :: 0 <= i < |calls| ==> calls[i] == all[i];
  }

  lemma NextIsNaive(c: Config, calls: seq<Call>, call: Call)
    requires ValidConfig(c) && NonDecreasing(calls + [call])
    ensures Step(c, After(c, calls), call).1 == NaiveAdmits(c, Admitted(c, calls), call)
  {
    CallsAreBefore(calls, call);
    hide *;
    LimiterRefinesNaive(c, calls + [call]);
    LimiterRefinesNaive(c, calls);
    AdmitsNext(c, calls, call);
    NaiveAdmitsNext(c, calls, call);
  }

  lemma RoomIsNaive(c: Config, history: seq<Call>, call: Call)
    ensures NaiveAdmits(c, history, call) == (|Above(Times(history, call.key), call.now - c.window as real)| < c.limit)
  {
  }

  lemma NaiveAdmitsNext(c: Config, calls: seq<Call>, call: Call)
    ensures |NaiveAdmitted(c, calls + [call])| ==
            |NaiveAdmitted(c, calls)| + if NaiveAdmits(c, NaiveAdmitted(c, calls), call) then 1 else 0
  {
    assert (calls + [call])[..|calls|] == calls;
  }

  lemma CountAppend(times: seq<real>, t: real, low: real, high: real)
    ensures CountIn(times + [t], low, high) == CountIn(times, low, high) + if low < t <= high then 1 else 0
  {
    assert (times + [t])[..|times|] == times;
  }

  // ---------- Clocks that are read before the lock is taken ----------

  /** No call is more than `delta` earlier than one served before it. */
  ghost predicate Skewed(calls: seq<Call>, delta: real) {
    forall i, j :: 0 <= i < j < |calls| ==> calls[i].now <= calls[j].now + delta
  }

  /** By how much a stored deque can be out of order; one entry cannot be. */
  function Spread(c: Config, delta: real): real {
    if c.limit >= 2 then delta else 0.0
  }

  /** By how much the window shrinks: a pop can lose `delta`, and a sweep the spread besides. */
  function Loss(c: Config, delta: real): real {
    delta + Spread(c, delta)
  }

  /** A stored deque under such calls: all of it at most `spread` later than any later entry. */
  ghost predicate SkewedDeque(deque: seq<real>, latest: real, spread: real) {
    && (forall i, j :: 0 <= i < j < |deque| ==> deque[i] <= deque[j] + spread)
    && forall t :: t in deque ==> t <= latest
  }

  /** What the limiter still knows after the latest reading: of every key all that is later than
      the window, shortened by the spread, before that reading. */
  ghost predicate SkewInv(c: Config, events: map<string, seq<real>>, history: seq<Call>, latest: real, delta: real) {
    && (forall key :: key in events ==> SkewedDeque(events[key], latest, Spread(c, delta)))
    && Remembers(events, history, latest - c.window as real + Spread(c, delta))
  }

  lemma {:induction false} DropFrontSkewed(deque: seq<real>, cutoff: real, latest: real, spread: real)
    requires SkewedDeque(deque, latest, spread)
    ensures SkewedDeque(DropFront(deque, cutoff), latest, spread)
    decreases |deque|
  {
    if deque == [] || deque[0] > cutoff {
    } else {
      assert forall t :: t in deque[1..] ==> t in deque;
      DropFrontSkewed(deque[1..], cutoff, latest, spread);
    }
  }

  /** Sweeping a client away loses nothing later than the cutoff plus the spread. */
  lemma SweepKeepsSkewed(events: map<string, seq<real>>, key: string, cutoff: real, latest: real,
                         spread: real, later: real)
    requires key in events ==> SkewedDeque(events[key], latest, spread)
    requires cutoff + spread <= later && spread >= 0.0
    ensures Above(Deque(Swept(events, cutoff), key), later) == Above(Deque(events, key), later)
  {
    var deque := Deque(events, key);
    AboveAll(deque, later);
    if deque != [] && deque[|deque| - 1] <= cutoff {
      forall k | 0 <= k < |deque| ensures deque[k] <= later {
        assert k < |deque| - 1 ==> deque[k] <= deque[|deque| - 1] + spread;
      }
    }
  }

  lemma SweepSkewed(c: Config, s: Limiter, history: seq<Call>, latest: real, call: Call, delta: real)
    requires SkewInv(c, s.events, history, latest, delta) && delta >= 0.0 && latest <= call.now + delta
    ensures SkewInv(c, AfterSweep(s, call.now - c.window as real), history, RealMax(latest, call.now), delta)
  {
    var cutoff, spread := call.now - c.window as real, Spread(c, delta);
    var events, latest' := AfterSweep(s, cutoff), RealMax(latest, call.now);
    forall key | key in events ensures SkewedDeque(events[key], latest', spread) {
      assert SkewedDeque(s.events[key], latest, spread);
    }
    hide Above, Times;
    forall key, later | later >= latest' - c.window as real + spread ensures SameAbove(events, history, key, later) {
      assert SameAbove(s.events, history, key, later);
      SweepKeepsSkewed(s.events, key, cutoff, latest, spread, later);
    }
  }

  /** Serving one key keeps the invariant. */
  lemma ServeSkewed(c: Config, events: map<string, seq<real>>, history: seq<Call>, call: Call,
                    latest: real, delta: real, live: seq<real>, ok: bool)
    requires SkewInv(c, events, history, latest, delta) && delta >= 0.0 && call.now <= latest <= call.now + delta
    requires live == DropFront(Deque(events, call.key), call.now - c.window as real) && ok == (|live| < c.limit)
    ensures SkewInv(c, events[call.key := if ok then live + [call.now] else live],
                    history + if ok then [call] else [], latest, delta)
  {
    var cutoff, spread := call.now - c.window as real, Spread(c, delta);
    assert call.key in events ==> SkewedDeque(events[call.key], latest, spread);
    DropFrontSkewed(Deque(events, call.key), cutoff, latest, spread);
    if ok {
      LiveAppendSkewed(live, call.now, latest, spread);
    }
    hide Remembers, SkewedDeque, DropFront;
    ServeRemembers(c, events, history, call, cutoff, latest - c.window as real + spread, live, ok);
  }

  /** An admitted call finds room among all its key's admitted events in the window before it,
      shortened by the loss. */
  lemma RoomSkewed(c: Config, events: map<string, seq<real>>, history: seq<Call>, call: Call,
                   latest: real, delta: real, live: seq<real>)
    requires Remembers(events, history, latest - c.window as real + Spread(c, delta))
    requires delta >= 0.0 && latest <= call.now + delta
    requires live == DropFront(Deque(events, call.key), call.now - c.window as real) && |live| < c.limit
    ensures |Above(Times(history, call.key), call.now - c.window as real + Loss(c, delta))| < c.limit
  {
    hide Above, Times, DropFront;
    var cutoff, shortened := call.now - c.window as real, call.now - c.window as real + Loss(c, delta);
    assert SameAbove(events, history, call.key, shortened);
    DropFrontKeeps(Deque(events, call.key), cutoff, shortened);
    AboveAll(live, shortened);
  }

  lemma SkewRemembers(c: Config, events: map<string, seq<real>>, history: seq<Call>, latest: real,
                      delta: real)
    requires SkewInv(c, events, history, latest, delta)
    ensures Remembers(events, history, latest - c.window as real + Spread(c, delta))
  {
  }

  /** One more entry keeps a deque in order up to the spread, and so does a single entry. */
  lemma LiveAppendSkewed(live: seq<real>, now: real, latest: real, spread: real)
    requires SkewedDeque(live, latest, spread) && now <= latest && (live == [] || latest <= now + spread)
    ensures SkewedDeque(live + [now], latest, spread)
  {
    var longer := live + [now];
    forall i, j | 0 <= i < j < |longer| ensures longer[i] <= longer[j] + spread {
      assert longer[i] == live[i] && live[i] in live;
    }
  }

  lemma StepSkewed(c: Config, s: Limiter, history: seq<Call>, latest: real, call: Call, delta: real)
    requires SkewInv(c, s.events, history, latest, delta) && delta >= 0.0 && latest <= call.now + delta
    ensures var (s', ok) := Step(c, s, call);
            && SkewInv(c, s'.events, history + if ok then [call] else [], RealMax(latest, call.now), delta)
            && (ok ==> |Above(Times(history, call.key), call.now - c.window as real + Loss(c, delta))| < c.limit)
  {
    hide SkewInv, AfterSweep, DropFront, Above, Times, Loss, Spread;
    var cutoff := call.now - c.window as real;
    var events := AfterSweep(s, cutoff);
    var live := DropFront(Deque(events, call.key), cutoff);
    SweepSkewed(c, s, history, latest, call, delta);
    ServeSkewed(c, events, history, call, RealMax(latest, call.now), delta, live, |live| < c.limit);
    if |live| < c.limit {
      SkewRemembers(c, events, history, RealMax(latest, call.now), delta);
      RoomSkewed(c, events, history, call, RealMax(latest, call.now), delta, live);
    }
  }

  ghost function Latest(calls: seq<Call>): real
    requires calls != []
  {
    var n := |calls| - 1;
    if n == 0 then calls[0].now else RealMax(Latest(calls[..n]), calls[n].now)
  }

  lemma {:induction false} LatestIsACall(calls: seq<Call>)
    requires calls != []
    ensures exists k :: 0 <= k < |calls| && calls[k].now == Latest(calls)
  {
    var n := |calls| - 1;
    if n == 0 {
      assert calls[0].now == Latest(calls);
    } else {
      LatestIsACall(calls[..n]);
      var k :| 0 <= k < n && calls[..n][k].now == Latest(calls[..n]);
      assert calls[k].now == Latest(calls) || calls[n].now == Latest(calls);
    }
  }

  lemma NothingRemembered(c: Config, latest: real, delta: real)
    ensures SkewInv(c, Fresh(c).events, [], latest, delta)
  {
  }

  /** The reading the invariant of a run stands at when one more call is served. */
  lemma {:induction false} SkewBefore(c: Config, calls: seq<Call>, delta: real) returns (latest: real)
    requires calls != [] && Skewed(calls, delta) && delta >= 0.0
    ensures var n := |calls| - 1;
            && latest <= calls[n].now + delta && Latest(calls) == RealMax(latest, calls[n].now)
            && SkewInv(c, After(c, calls[..n]).events, Admitted(c, calls[..n]), latest, delta)
    decreases |calls|, 0
  {
    var n := |calls| - 1;
    if n == 0 {
      latest := calls[0].now;
      NothingRemembered(c, latest, delta);
    } else {
      latest := Latest(calls[..n]);
      LatestIsACall(calls[..n]);
      var k :| 0 <= k < n && calls[..n][k].now == latest;
      assert calls[k].now <= calls[n].now + delta;
      assert Skewed(calls[..n], delta);
      SkewRun(c, calls[..n], delta);
    }
  }

  lemma {:induction false} SkewRun(c: Config, calls: seq<Call>, delta: real)
    requires calls != [] && Skewed(calls, delta) && delta >= 0.0
    ensures SkewInv(c, After(c, calls).events, Admitted(c, calls), Latest(calls), delta)
    decreases |calls|, 1
  {
    var n := |calls| - 1;
    var latest := SkewBefore(c, calls, delta);
    hide SkewInv, Skewed, Latest, Step;
    StepSkewed(c, After(c, calls[..n]), Admitted(c, calls[..n]), latest, calls[n], delta);
  }

  lemma WindowStaysBounded(c: Config, history: seq<Call>, call: Call, key: string, low: real, delta: real)
    requires |Above(Times(history, call.key), call.now - c.window as real + Loss(c, delta))| < c.limit
    requires CountIn(Times(history, key), low, low + c.window as real - Loss(c, delta)) <= c.limit
    ensures CountIn(Times(history + [call], key), low, low + c.window as real - Loss(c, delta)) <= c.limit
  {
    hide Above, Times, CountIn, Loss;
    var high := low + c.window as real - Loss(c, delta);
    TimesAppend(history, call, key);
    if call.key == key {
      CountAppend(Times(history, key), call.now, low, high);
      if low < call.now <= high {
        CountInAbove(Times(history, key), low, high);
        AboveMonotone(Times(history, key), low, call.now - c.window as real + Loss(c, delta));
      }
    } else {
      assert Times(history, key) + [] == Times(history, key);
    }
  }

  /** However the clock readings and the lock interleave: if no call is more than `delta` earlier than
      one served before it, no half-open window shorter than the configured one by the loss (twice
      `delta`, or `delta` for a limit of one) holds more than `limit` admitted events of one key. */
  lemma {:induction false} SkewedWindowIsBounded(c: Config, calls: seq<Call>, key: string, low: real, delta: real)
    requires ValidConfig(c) && Skewed(calls, delta) && delta >= 0.0
    ensures CountIn(Times(Admitted(c, calls), key), low, low + c.window as real - Loss(c, delta)) <= c.limit
  {
    hide Step, After, Above, Times, CountIn, SkewInv, Latest, Loss;
    if calls == [] {
      NoEventsNoCount(key, low, low + c.window as real - Loss(c, delta));
    } else {
      var n := |calls| - 1;
      var before, call := calls[..n], calls[n];
      assert Skewed(before, delta);
      SkewedWindowIsBounded(c, before, key, low, delta);
      var history := Admitted(c, before);
      var latest := SkewBefore(c, calls, delta);
      hide Skewed;
      StepSkewed(c, After(c, before), history, latest, call, delta);
      if Step(c, After(c, before), call).1 {
        WindowStaysBounded(c, history, call, key, low, delta);
      } else {
        assert history + [] == history;
      }
    }
  }

  /** With non-decreasing times no half-open window of the configured length holds more than `limit`
      admitted events of one key. */
  lemma EveryWindowIsBounded(c: Config, calls: seq<Call>, key: string, low: real)
    requires ValidConfig(c) && NonDecreasing(calls)
    ensures CountIn(Times(Admitted(c, calls), key), low, low + c.window as real) <= c.limit
  {
    SkewedWindowIsBounded(c, calls, key, low, 0.0);
  }

  lemma NoEventsNoCount(key: string, low: real, high: real)
    ensures CountIn(Times([], key), low, high) == 0
  {
  }

  lemma StepWithoutSweep(c: Config, events: map<string, seq<real>>, until: int, call: Call, live: seq<real>)
    requires until > 1 && |live| < c.limit
    requires live == DropFront(Deque(events, call.key), call.now - c.window as real)
    ensures Step(c, Limiter(events, until), call) == (Limiter(events[call.key := live + [call.now]], until - 1), true)
  {
  }

  /** The limiter has served the calls of one key, admitted them all, and holds this deque of it. */
  ghost predicate Serving(c: Config, calls: seq<Call>, key: string, deque: seq<real>) {
    var s := After(c, calls);
    && s.untilSweep == c.sweepInterval - |calls|
    && s.events.Keys <= {key}
    && Deque(s.events, key) == deque
    && Admitted(c, calls) == calls
  }

  lemma ServingNone(c: Config, key: string)
    ensures Serving(c, [], key, [])
  {
  }

  /** One more call that finds room, before the first sweep. */
  lemma ServeOneMore(c: Config, calls: seq<Call>, key: string, deque: seq<real>, now: real, live: seq<real>)
    requires Serving(c, calls, key, deque) && |calls| < c.sweepInterval - 1
    requires live == DropFront(deque, now - c.window as real) && |live| < c.limit
    ensures Serving(c, calls + [Call(key, now)], key, live + [now])
  {
    hide After, Admitted, DropFront;
    AdmitsNext(c, calls, Call(key, now));
    StepWithoutSweep(c, After(c, calls).events, After(c, calls).untilSweep, Call(key, now), live);
  }

  /** Times that run backwards break the bound: a caller with an early clock is admitted after
      a later call has emptied the deque that its window still counts on. */
  lemma BackwardTimesBreakTheBound(c: Config, key: string)
    requires c == Config(2, 10, 1024)
    ensures var calls := [] + [Call(key, 5.0)] + [Call(key, 6.0)] + [Call(key, 16.0)] + [Call(key, 14.0)];
            Admitted(c, calls) == calls && CountIn(Times(calls, key), 4.0, 14.0) == 3
  {
    var q: seq<real> := [] + [5.0];
    BackwardDeques(q, [] + [16.0]);
    ServingNone(c, key);
    hide Serving, DropFront, CountIn, Times;
    var c1, c2, c3, c4 := Call(key, 5.0), Call(key, 6.0), Call(key, 16.0), Call(key, 14.0);
    ServeOneMore(c, [], key, [], 5.0, []);
    ServeOneMore(c, [] + [c1], key, q, 6.0, q);
    ServeOneMore(c, [] + [c1] + [c2], key, q + [6.0], 16.0, []);
    ServeOneMore(c, [] + [c1] + [c2] + [c3], key, [] + [16.0], 14.0, [] + [16.0]);
    ServingAdmits(c, [] + [c1] + [c2] + [c3] + [c4], key, [] + [16.0] + [14.0]);
    TimesAppend([], c1, key);
    TimesAppend([] + [c1], c2, key);
    TimesAppend([] + [c1] + [c2], c3, key);
    TimesAppend([] + [c1] + [c2] + [c3], c4, key);
    NoEventsNoCount(key, 4.0, 14.0);
    CountAppend(Times([], key), 5.0, 4.0, 14.0);
    CountAppend(Times([] + [c1], key), 6.0, 4.0, 14.0);
    CountAppend(Times([] + [c1] + [c2], key), 16.0, 4.0, 14.0);
    CountAppend(Times([] + [c1] + [c2] + [c3], key), 14.0, 4.0, 14.0);
  }

  lemma ServingAdmits(c: Config, calls: seq<Call>, key: string, deque: seq<real>)
    requires Serving(c, calls, key, deque)
    ensures Admitted(c, calls) == calls
  {
  }

  lemma BackwardDeques(q: seq<real>, r: seq<real>)
    requires q == [5.0] && r == [16.0]
    ensures DropFront([], -5.0) == [] && DropFront(q, -4.0) == q
    ensures DropFront(q + [6.0], 6.0) == [] && DropFront(r, 4.0) == r
  {
    var both := q + [6.0];
    assert both[1..] == [6.0] && both[1..][1..] == [];
    assert DropFront(both, 6.0) == DropFront(both[1..], 6.0) == DropFront(both[1..][1..], 6.0);
  }

  // ---------- How long a window one may rely on ----------

  ghost predicate WindowHolds(c: Config, calls: seq<Call>, key: string, low: real, length: real) {
    CountIn(Times(Admitted(c, calls), key), low, low + length) <= c.limit
  }

  /** Whatever the sweep interval and the calls, if they are out of order by at most `delta`, every
      half-open window of this length holds at most `limit` admitted events of one key. */
  ghost predicate Guaranteed(limit: nat, window: nat, delta: real, length: real) {
    forall sweep: nat, calls, key, low :: sweep >= 1 && Skewed(calls, delta) ==>
      WindowHolds(Config(limit, window, sweep), calls, key, low, length)
  }

  lemma {:induction false} CountMonotone(times: seq<real>, low: real, high: real, higher: real)
    requires high <= higher
    ensures CountIn(times, low, high) <= CountIn(times, low, higher)
    ensures high <= low ==> CountIn(times, low, high) == 0
  {
    if times == [] {
    } else {
      CountMonotone(times[..|times| - 1], low, high, higher);
    }
  }

  lemma ShortWindowsHold(c: Config, calls: seq<Call>, key: string, low: real, length: real, delta: real)
    requires ValidConfig(c) && Skewed(calls, delta) && delta >= 0.0
    requires length <= RealMax(0.0, c.window as real - Loss(c, delta))
    ensures WindowHolds(c, calls, key, low, length)
  {
    var times := Times(Admitted(c, calls), key);
    SkewedWindowIsBounded(c, calls, key, low, delta);
    hide CountIn, Times, Admitted, Loss, Skewed;
    CountMonotone(times, low, low + length, low + RealMax(length, c.window as real - Loss(c, delta)));
    if length > c.window as real - Loss(c, delta) {
      assert length <= 0.0;
    }
  }

  /** A limiter that sweeps at every call has admitted these calls, and holds these two deques. */
  ghost predicate Sweeping(c: Config, calls: seq<Call>, key: string, deque: seq<real>, other: string,
                           otherDeque: seq<real>)
  {
    var s := After(c, calls);
    && s.untilSweep == 1
    && Deque(s.events, key) == deque && Deque(s.events, other) == otherDeque
    && Admitted(c, calls) == calls
  }

  function SweptDeque(deque: seq<real>, cutoff: real): seq<real> {
    if Expired(deque, cutoff) then [] else deque
  }

  lemma DequeSwept(events: map<string, seq<real>>, key: string, cutoff: real)
    ensures Deque(Swept(events, cutoff), key) == SweptDeque(Deque(events, key), cutoff)
  {
  }

  lemma SweepingStart(c: Config, key: string, other: string)
    requires c.sweepInterval == 1
    ensures Sweeping(c, [], key, [], other, [])
  {
  }

  lemma SweepingSwapped(c: Config, calls: seq<Call>, key: string, deque: seq<real>, other: string,
                        otherDeque: seq<real>)
    requires Sweeping(c, calls, key, deque, other, otherDeque)
    ensures Sweeping(c, calls, other, otherDeque, key, deque)
  {
  }

  lemma SweepingStep(c: Config, calls: seq<Call>, key: string, deque: seq<real>, other: string, otherDeque: seq<real>,
                     now: real, live: seq<real>)
    requires c.sweepInterval == 1 && key != other && Sweeping(c, calls, key, deque, other, otherDeque)
    requires live == DropFront(SweptDeque(deque, now - c.window as real), now - c.window as real) && |live| < c.limit
    ensures Sweeping(c, calls + [Call(key, now)], key, live + [now], other,
                     SweptDeque(otherDeque, now - c.window as real))
  {
    var cutoff := now - c.window as real;
    var s := After(c, calls);
    DequeSwept(s.events, key, cutoff);
    DequeSwept(s.events, other, cutoff);
    hide After, Admitted, DropFront, Swept, SweptDeque;
    AdmitsNext(c, calls, Call(key, now));
  }

  /** The calls before the burst: an event or two of the key, and then one of another key, whose
      sweep takes them away. */
  function Opening(c: Config, key: string, other: string, delta: real): seq<Call> {
    var w := c.window as real;
    if c.limit >= 2 then [] + [Call(key, delta)] + [Call(key, 0.0)] + [Call(other, w)]
    else [] + [Call(key, 0.0)] + [Call(other, w)]
  }

  lemma OpeningSweeps(c: Config, key: string, other: string, delta: real)
    requires ValidConfig(c) && c.sweepInterval == 1 && key != other
    requires delta >= 0.0 && Loss(c, delta) <= c.window as real
    ensures Sweeping(c, Opening(c, key, other, delta), key, [], other, [c.window as real])
  {
    var w := c.window as real;
    hide Sweeping;
    SweepingStart(c, key, other);
    if c.limit >= 2 {
      var first, second := [] + [Call(key, delta)], [] + [Call(key, delta)] + [Call(key, 0.0)];
      SweepingStep(c, [], key, [], other, [], delta, []);
      assert [] + [delta] == [delta] && SweptDeque([delta], 0.0 - w) == [delta];
      SweepingStep(c, first, key, [delta], other, [], 0.0, [delta]);
      assert [delta] + [0.0] == [delta, 0.0];
      SweepingSwapped(c, second, key, [delta, 0.0], other, []);
      SweepingStep(c, second, other, [], key, [delta, 0.0], w, []);
      SweepingSwapped(c, second + [Call(other, w)], other, [] + [w], key, []);
    } else {
      var first := [] + [Call(key, 0.0)];
      SweepingStep(c, [], key, [], other, [], 0.0, []);
      assert [] + [0.0] == [0.0];
      SweepingSwapped(c, first, key, [0.0], other, []);
      SweepingStep(c, first, other, [], key, [0.0], w, []);
      SweepingSwapped(c, first + [Call(other, w)], other, [] + [w], key, []);
    }
    assert [] + [w] == [w];
  }

  function Repeated<T>(x: T, n: nat): seq<T> {
    if n == 0 then [] else Repeated(x, n - 1) + [x]
  }

  lemma {:induction false} RepeatedMeans<T>(x: T, n: nat)
    ensures |Repeated(x, n)| == n && forall k :: 0 <= k < n ==> Repeated(x, n)[k] == x
  {
    if n == 0 {
    } else {
      RepeatedMeans(x, n - 1);
    }
  }

  lemma BurstStep(c: Config, start: seq<Call>, key: string, other: string, now: real, deque: seq<real>)
    requires ValidConfig(c) && c.sweepInterval == 1 && key != other && |deque| < c.limit
    requires Sweeping(c, start, key, deque, other, [c.window as real]) && 0.0 <= now <= c.window as real
    requires forall k :: 0 <= k < |deque| ==> deque[k] == now
    ensures Sweeping(c, start + [Call(key, now)], key, deque + [now], other, [c.window as real])
  {
    var cutoff := now - c.window as real;
    assert SweptDeque(deque, cutoff) == deque && DropFront(deque, cutoff) == deque;
    assert SweptDeque([c.window as real], cutoff) == [c.window as real];
    hide *;
    SweepingStep(c, start, key, deque, other, [c.window as real], now, deque);
  }

  lemma RepeatedAppends<T>(start: seq<T>, x: T, n: nat)
    requires n > 0
    ensures start + Repeated(x, n) == start + Repeated(x, n - 1) + [x]
    ensures start + Repeated(x, 0) == start
  {
  }

  /** The burst: calls of the key, at a time just out of the swept window. */
  lemma {:induction false} BurstIsAdmitted(c: Config, start: seq<Call>, key: string, other: string, now: real, n: nat)
    requires ValidConfig(c) && c.sweepInterval == 1 && key != other && n <= c.limit
    requires Sweeping(c, start, key, [], other, [c.window as real]) && 0.0 <= now <= c.window as real
    ensures Sweeping(c, start + Repeated(Call(key, now), n), key, Repeated(now, n), other, [c.window as real])
  {
    hide Sweeping;
    if n == 0 {
      assert Repeated(now, 0) == [];
      RepeatedAppends(start, Call(key, now), 1);
    } else {
      hide Repeated;
      BurstIsAdmitted(c, start, key, other, now, n - 1);
      RepeatedMeans(now, n - 1);
      BurstStep(c, start + Repeated(Call(key, now), n - 1), key, other, now, Repeated(now, n - 1));
      RepeatedAppends(start, Call(key, now), n);
      RepeatedAppends([], now, n);
      assert [] + Repeated(now, n) == Repeated(now, n) && [] + Repeated(now, n - 1) == Repeated(now, n - 1);
    }
  }

  lemma {:induction false} BurstCounted(start: seq<Call>, key: string, now: real, n: nat, low: real, high: real)
    requires low < now <= high
    ensures CountIn(Times(start + Repeated(Call(key, now), n), key), low, high)
            == CountIn(Times(start, key), low, high) + n
  {
    hide CountIn, Times, Repeated;
    RepeatedAppends(start, Call(key, now), if n == 0 then 1 else n);
    if n == 0 {
    } else {
      BurstCounted(start, key, now, n - 1, low, high);
      var before := start + Repeated(Call(key, now), n - 1);
      TimesAppend(before, Call(key, now), key);
      CountAppend(Times(before, key), now, low, high);
    }
  }

  /** The first event of the opening. */
  function FirstEvent(c: Config, delta: real): real {
    if c.limit >= 2 then delta else 0.0
  }

  lemma OpeningCounted(c: Config, key: string, other: string, delta: real, low: real, high: real)
    requires key != other && low < FirstEvent(c, delta) <= high
    ensures CountIn(Times(Opening(c, key, other, delta), key), low, high) >= 1
  {
    hide CountIn, Times;
    NoEventsNoCount(key, low, high);
    var first := [] + [Call(key, FirstEvent(c, delta))];
    TimesAppend([], Call(key, FirstEvent(c, delta)), key);
    CountAppend(Times([], key), FirstEvent(c, delta), low, high);
    if c.limit >= 2 {
      TimesAppend(first, Call(key, 0.0), key);
      CountAppend(Times(first, key), 0.0, low, high);
      TimesAppend(first + [Call(key, 0.0)], Call(other, c.window as real), key);
      assert Times(first + [Call(key, 0.0)], key) + [] == Times(first + [Call(key, 0.0)], key);
    } else {
      TimesAppend(first, Call(other, c.window as real), key);
      assert Times(first, key) + [] == Times(first, key);
    }
  }

  function Run(c: Config, key: string, other: string, delta: real): seq<Call> {
    Opening(c, key, other, delta) + Repeated(Call(key, c.window as real - delta), c.limit)
  }

  lemma RunIsSkewed(c: Config, key: string, other: string, delta: real)
    requires c.limit >= 1 && delta >= 0.0 && Loss(c, delta) <= c.window as real
    ensures Skewed(Run(c, key, other, delta), delta)
  {
    var calls, opening := Run(c, key, other, delta), Opening(c, key, other, delta);
    var late := c.window as real - delta;
    RepeatedMeans(Call(key, late), c.limit);
    hide Repeated;
    assert forall k :: 0 <= k < |opening| ==> calls[k] == opening[k] && opening[k].now <= c.window as real;
    assert forall k :: |opening| <= k < |calls| ==> calls[k] == Call(key, late);
  }

  lemma LateFits(c: Config, delta: real)
    requires ValidConfig(c) && delta >= 0.0 && Loss(c, delta) <= c.window as real
    ensures 0.0 <= c.window as real - delta <= c.window as real
  {
  }

  lemma RunIsBurst(c: Config, key: string, other: string, delta: real)
    ensures Run(c, key, other, delta) ==
            Opening(c, key, other, delta) + Repeated(Call(key, c.window as real - delta), c.limit)
  {
  }

  lemma RunAdmitted(c: Config, key: string, other: string, delta: real)
    requires ValidConfig(c) && c.sweepInterval == 1 && delta >= 0.0 && Loss(c, delta) <= c.window as real
    requires key != other
    ensures Admitted(c, Run(c, key, other, delta)) == Run(c, key, other, delta)
  {
    hide *;
    var late := c.window as real - delta;
    LateFits(c, delta);
    RunIsBurst(c, key, other, delta);
    OpeningSweeps(c, key, other, delta);
    BurstIsAdmitted(c, Opening(c, key, other, delta), key, other, late, c.limit);
    SweepingAdmits(c, Run(c, key, other, delta), key, Repeated(late, c.limit), other, [c.window as real]);
  }

  lemma RunCounted(c: Config, key: string, other: string, delta: real, low: real, late: real)
    requires key != other && late == c.window as real - delta && low < FirstEvent(c, delta) <= late
    ensures CountIn(Times(Run(c, key, other, delta), key), low, late) > c.limit
  {
    var opening := Opening(c, key, other, delta);
    assert low < late && Run(c, key, other, delta) == opening + Repeated(Call(key, late), c.limit);
    hide *;
    OpeningCounted(c, key, other, delta, low, late);
    BurstCounted(opening, key, late, c.limit, low, late);
  }

  /** A run out of order by `delta` puts more than `limit` events into any longer window. */
  lemma LongWindowFails(c: Config, key: string, other: string, delta: real, length: real)
    requires ValidConfig(c) && c.sweepInterval == 1 && delta >= 0.0 && Loss(c, delta) <= c.window as real
    requires length > c.window as real - Loss(c, delta) && key != other
    ensures Skewed(Run(c, key, other, delta), delta)
    ensures !WindowHolds(c, Run(c, key, other, delta), key, c.window as real - delta - length, length)
  {
    var late := c.window as real - delta;
    var low := late - length;
    assert low < FirstEvent(c, delta) <= late && low + length == late;
    hide *;
    RunIsSkewed(c, key, other, delta);
    RunAdmitted(c, key, other, delta);
    RunCounted(c, key, other, delta, low, late);
    WindowFails(c, Run(c, key, other, delta), key, low, length, late);
  }

  lemma WindowFails(c: Config, calls: seq<Call>, key: string, low: real, length: real, high: real)
    requires Admitted(c, calls) == calls && low + length == high && CountIn(Times(calls, key), low, high) > c.limit
    ensures !WindowHolds(c, calls, key, low, length)
  {
    hide Admitted, CountIn, Times;
  }

  lemma SweepingAdmits(c: Config, calls: seq<Call>, key: string, deque: seq<real>, other: string, otherDeque: seq<real>)
    requires Sweeping(c, calls, key, deque, other, otherDeque)
    ensures Admitted(c, calls) == calls
  {
  }

  /** The skew that loses the whole window, if `delta` is greater than that. */
  function Effective(c: Config, delta: real): real {
    if Loss(c, delta) <= c.window as real then delta
    else if c.limit >= 2 then c.window as real / 2.0
    else c.window as real
  }

  lemma EffectiveSkew(c: Config, delta: real, calls: seq<Call>)
    requires ValidConfig(c) && delta >= 0.0
    ensures 0.0 <= Effective(c, delta) <= delta && Loss(c, Effective(c, delta)) <= c.window as real
    ensures c.window as real - Loss(c, Effective(c, delta)) == RealMax(0.0, c.window as real - Loss(c, delta))
    ensures Skewed(calls, Effective(c, delta)) ==> Skewed(calls, delta)
  {
  }

  /** Exactly which windows one may rely on, for clock readings out of order by at most `delta`: those
      shorter than the configured one by the loss, which is twice `delta`, or `delta` if the limit is
      one; and the empty ones. */
  lemma WindowGuaranteedIff(limit: nat, window: nat, delta: real, length: real)
    requires limit >= 1 && window >= 1 && delta >= 0.0
    ensures Guaranteed(limit, window, delta, length) <==>
            length <= RealMax(0.0, window as real - if limit >= 2 then 2.0 * delta else delta)
  {
    var c := Config(limit, window, 1);
    var loss := if limit >= 2 then 2.0 * delta else delta;
    assert Loss(c, delta) == loss;
    if length <= RealMax(0.0, window as real - loss) {
      forall sweep: nat, calls, key, low | sweep >= 1 && Skewed(calls, delta)
        ensures WindowHolds(Config(limit, window, sweep), calls, key, low, length)
      {
        ShortWindowsHold(Config(limit, window, sweep), calls, key, low, length, delta);
      }
    } else {
      var d := Effective(c, delta);
      var calls := Run(c, "a", "b", d);
      EffectiveSkew(c, delta, calls);
      LongWindowFails(c, "a", "b", d, length);
      hide *;
      NotGuaranteed(limit, window, delta, length, c, calls, "a", window as real - d - length);
    }
  }

  lemma NotGuaranteed(limit: nat, window: nat, delta: real, length: real, c: Config, calls: seq<Call>, key: string,
                      low: real)
    requires c == Config(limit, window, 1) && Skewed(calls, delta) && !WindowHolds(c, calls, key, low, length)
    ensures !Guaranteed(limit, window, delta, length)
  {
  }
}
