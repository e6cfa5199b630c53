/**
 The cost ledger that cloud attempts reserve from before they run and settle afterwards.  Page
 threads interleave at the granularity of the two locked closures, which are the steps here.
 Money is real-valued.
 */
module BudgetLedger {
  import opened Arithmetic
  import opened Options

  type Thread = nat

  /** What the caller says an attempt may cost: None, something `float` cannot convert, NaN,
      infinity, or an amount.  Negative infinity behaves as a negative amount does. */
  datatype Estimate = NotGiven | NotConvertible | NaN | Infinite | Amount(value: real)

  datatype Config = Config(
    documentCostStart: real,
    dailyCostStart: real,
    fileCostLimit: real,
    dailyCostLimit: real,
    accumulatedStart: real)

  datatype Ledger = Ledger(accumulated: real, reserved: real, reservations: map<Thread, seq<real>>)

  /** An attempt asks the worker's gate, or the local gate, which reads today's cost anew. */
  datatype Op =
    | Telemetry(thread: Thread, cost: real)
    | WorkerAttempt(thread: Thread, estimate: Estimate)
    | LocalAttempt(thread: Thread, estimate: Estimate, dailyCost: real)

  /** `max(0.0, _finite_float(estimate, -1.0))`: a malformed estimate counts as zero. */
  function Reservation(e: Estimate): real {
    if e.Amount? then RealMax(0.0, e.value) else 0.0
  }

  function Pending(l: Ledger, thread: Thread): seq<real> {
    if thread in l.reservations then l.reservations[thread] else []
  }

  predicate Over(limit: real, spent: real, estimate: real) {
    limit > 0.0 && (spent >= limit || spent + estimate > limit)
  }

  predicate Allows(c: Config, l: Ledger, op: Op)
    requires !op.Telemetry?
  {
    && !op.estimate.NotGiven?
    && !Over(c.fileCostLimit, c.documentCostStart + l.accumulated + l.reserved, Reservation(op.estimate))
    && match op
       case WorkerAttempt(_, e) =>
         && c.fileCostLimit >= 0.0 && c.dailyCostLimit >= 0.0
         && !Over(c.dailyCostLimit, c.dailyCostStart + l.accumulated + l.reserved, Reservation(e))
       case LocalAttempt(_, e, dailyCost) =>
         && !e.NotConvertible?
         && !(e.Infinite? && (c.fileCostLimit > 0.0 || c.dailyCostLimit > 0.0))
         && !Over(c.dailyCostLimit, dailyCost + l.reserved, Reservation(e))
  }

  /** The local gate converts the estimate itself, without a fallback. */
  predicate Raises(op: Op) {
    op.LocalAttempt? && op.estimate.NotConvertible?
  }

  /** The reservation a telemetry event settles: the oldest of its thread, if there is one. */
  function Popped(l: Ledger, thread: Thread): real {
    if Pending(l, thread) == [] then 0.0 else Pending(l, thread)[0]
  }

  function Apply(c: Config, l: Ledger, op: Op): Ledger {
    match op
    case Telemetry(thread, cost) =>
      if Pending(l, thread) == [] then l.(accumulated := l.accumulated + cost)
      else Ledger(l.accumulated + cost, RealMax(0.0, l.reserved - Popped(l, thread)),
                  l.reservations[thread := Pending(l, thread)[1..]])
    case _ =>
      var amount := Reservation(op.estimate);
      if Allows(c, l, op) && amount > 0.0 then
        l.(reserved := l.reserved + amount,
           reservations := l.reservations[op.thread := Pending(l, op.thread) + [amount]])
      else l
  }

  // ---------- The closures ----------

  class Budget {
    const config: Config
    var accumulatedCost: real
    var reservedCost: real
    var reservations: map<Thread, seq<real>>

    ghost function AsLedger(): Ledger
      reads this
    {
      Ledger(accumulatedCost, reservedCost, reservations)
    }

    constructor (config: Config)
      ensures this.config == config && AsLedger() == Empty(config)
    {
      this.config := config;
      accumulatedCost, reservedCost, reservations := config.accumulatedStart, 0.0, map[];
    }

    method RecordTelemetry(thread: Thread, cost: real)
      modifies this
      ensures AsLedger() == Apply(config, old(AsLedger()), Telemetry(thread, cost))
    {
      var threadReservations := if thread in reservations then reservations[thread] else [];
      if threadReservations != [] {
        reservedCost := RealMax(0.0, reservedCost - threadReservations[0]);
        reservations := reservations[thread := threadReservations[1..]];
      }
      accumulatedCost := accumulatedCost + cost;
    }

    method Reserve(thread: Thread, amount: real)
      modifies this
      ensures accumulatedCost == old(accumulatedCost) && reservedCost == old(reservedCost) + amount
      ensures reservations == old(reservations)[thread := Pending(old(AsLedger()), thread) + [amount]]
    {
      reservedCost := reservedCost + amount;
      reservations := reservations[thread := (if thread in reservations then reservations[thread] else []) + [amount]];
    }

    method CloudAttemptAllowed(thread: Thread, estimatedCost: Estimate) returns (allowed: bool)
      modifies this
      ensures var op := WorkerAttempt(thread, estimatedCost);
              allowed == Allows(config, old(AsLedger()), op) && AsLedger() == Apply(config, old(AsLedger()), op)
    {
      if estimatedCost.NotGiven? {
        return false;
      }
      if config.fileCostLimit < 0.0 || config.dailyCostLimit < 0.0 {
        return false;
      }
      var estimate := RealMax(0.0, if estimatedCost.Amount? then estimatedCost.value else -1.0);
      var projectedCost := accumulatedCost + reservedCost + estimate;
      var overFile := config.fileCostLimit > 0.0 &&
        (config.documentCostStart + accumulatedCost + reservedCost >= config.fileCostLimit
         || config.documentCostStart + projectedCost > config.fileCostLimit);
      var overDaily := config.dailyCostLimit > 0.0 &&
        (config.dailyCostStart + accumulatedCost + reservedCost >= config.dailyCostLimit
         || config.dailyCostStart + projectedCost > config.dailyCostLimit);
      allowed := !(overFile || overDaily);
      if allowed && estimate > 0.0 {
        Reserve(thread, estimate);
      }
    }

    /** The local gate: `config.documentCostStart` is zero there.  None when the conversion raises. */
    method LocalCloudAttemptAllowed(thread: Thread, estimatedCost: Estimate, dailyCost: real)
      returns (allowed: Option<bool>)
      requires config.documentCostStart == 0.0
      modifies this
      ensures var op := LocalAttempt(thread, estimatedCost, dailyCost);
              && allowed == (if Raises(op) then None else Some(Allows(config, old(AsLedger()), op)))
              && AsLedger() == Apply(config, old(AsLedger()), op)
    {
      if estimatedCost.NotGiven? {
        return Some(false);
      }
      if estimatedCost.NotConvertible? {
        return None;
      }
      var estimate := if estimatedCost.Amount? then RealMax(0.0, estimatedCost.value) else 0.0;
      var overFile := config.fileCostLimit > 0.0 &&
        (estimatedCost.Infinite?
         || accumulatedCost + reservedCost >= config.fileCostLimit
         || accumulatedCost + reservedCost + estimate > config.fileCostLimit);
      var overDaily := config.dailyCostLimit > 0.0 &&
        (estimatedCost.Infinite?
         || dailyCost + reservedCost >= config.dailyCostLimit
         || dailyCost + reservedCost + estimate > config.dailyCostLimit);
      var passes := !(overFile || overDaily);
      if passes && estimate > 0.0 {
        Reserve(thread, estimate);
      }
      return Some(passes);
    }
  }

  // ---------- What the gates admit ----------

  /** Under this limit, if it is one, there is room for the amount, and some before it. */
  predicate Fits(limit: real, spent: real, amount: real) {
    limit > 0.0 ==> spent < limit && spent + amount <= limit
  }

  /** What an attempt is taken to cost: the amount announced, but not less than nothing; and nothing if
      none is announced that makes sense. */
  function Announced(e: Estimate): (amount: real)
    ensures amount >= 0.0
    ensures e.Amount? && e.value > 0.0 ==> amount == e.value
    ensures !e.Amount? || e.value <= 0.0 ==> amount == 0.0
  {
    if e.Amount? && e.value > 0.0 then e.value else 0.0
  }

  /** Exactly which attempts are admitted.  The worker's gate wants both limits set, and counts what was
      spent before, what this job has spent, and what is reserved; the local gate wants an estimate
      that converts, a finite one if there is a limit, and counts today's cost as read anew. */
  lemma AdmittedExactly(c: Config, l: Ledger, op: Op)
    requires !op.Telemetry?
    ensures var amount := Announced(op.estimate);
            var onFile := c.documentCostStart + l.accumulated + l.reserved;
            Allows(c, l, op) <==>
            && op.estimate != NotGiven && Fits(c.fileCostLimit, onFile, amount)
            && match op
               case WorkerAttempt(_, _) =>
                 && c.fileCostLimit >= 0.0 && c.dailyCostLimit >= 0.0
                 && Fits(c.dailyCostLimit, c.dailyCostStart + l.accumulated + l.reserved, amount)
               case LocalAttempt(_, e, dailyCost) =>
                 && e != NotConvertible
                 && (e == Infinite ==> c.fileCostLimit <= 0.0 && c.dailyCostLimit <= 0.0)
                 && Fits(c.dailyCostLimit, dailyCost + l.reserved, amount)
  {
  }

  /** What an attempt reserves: its announced cost, in the line of its thread, if it is admitted. */
  lemma ReservedExactly(c: Config, l: Ledger, op: Op)
    requires !op.Telemetry?
    ensures var amount := if Allows(c, l, op) then Announced(op.estimate) else 0.0;
            var after := Apply(c, l, op);
            && after.accumulated == l.accumulated && after.reserved == l.reserved + amount
            && (forall t :: t != op.thread ==> Pending(after, t) == Pending(l, t))
            && Pending(after, op.thread) == Pending(l, op.thread) + if amount > 0.0 then [amount] else []
  {
  }

  // ---------- What is outstanding ----------

  function SumOf(amounts: seq<real>): real {
    if amounts == [] then 0.0 else amounts[0] + SumOf(amounts[1..])
  }

  ghost function Outstanding(reservations: map<Thread, seq<real>>): real {
    if reservations == map[] then 0.0
    else
      var t :| t in reservations;
      SumOf(reservations[t]) + Outstanding(reservations - {t})
  }

  lemma {:induction false} SumAppend(amounts: seq<real>, amount: real)
    ensures SumOf(amounts + [amount]) == SumOf(amounts) + amount
  {
    if amounts == [] {
    } else {
      assert (amounts + [amount])[1..] == amounts[1..] + [amount];
      SumAppend(amounts[1..], amount);
    }
  }

  lemma {:induction false} SumNonNegative(amounts: seq<real>)
    requires forall k :: 0 <= k < |amounts| ==> amounts[k] > 0.0
    ensures SumOf(amounts) >= 0.0
  {
    if amounts == [] {
    } else {
      SumNonNegative(amounts[1..]);
    }
  }

  lemma {:induction false} OutstandingWithout(reservations: map<Thread, seq<real>>, thread: Thread)
    requires thread in reservations
    ensures Outstanding(reservations) == SumOf(reservations[thread]) + Outstanding(reservations - {thread})
    decreases |reservations|
  {
    var t :| t in reservations &&
             Outstanding(reservations) == SumOf(reservations[t]) + Outstanding(reservations - {t});
    if t == thread {
    } else {
      OutstandingWithout(reservations - {t}, thread);
      OutstandingWithout(reservations - {thread}, t);
      assert reservations - {t} - {thread} == reservations - {thread} - {t};
    }
  }

  lemma OutstandingUpdate(l: Ledger, thread: Thread, amounts: seq<real>)
    ensures Outstanding(l.reservations[thread := amounts]) ==
            Outstanding(l.reservations) - SumOf(Pending(l, thread)) + SumOf(amounts)
  {
    var after := l.reservations[thread := amounts];
    OutstandingWithout(after, thread);
    if thread in l.reservations {
      OutstandingWithout(l.reservations, thread);
      assert after - {thread} == l.reservations - {thread};
    } else {
      assert after - {thread} == l.reservations;
    }
  }

  ghost predicate AllPositive(reservations: map<Thread, seq<real>>) {
    forall t :: t in reservations ==> forall k :: 0 <= k < |reservations[t]| ==> reservations[t][k] > 0.0
  }

  lemma {:induction false} OutstandingNonNegative(reservations: map<Thread, seq<real>>)
    requires AllPositive(reservations)
    ensures Outstanding(reservations) >= 0.0
    decreases |reservations|
  {
    if reservations == map[] {
    } else {
      var t :| t in reservations &&
               Outstanding(reservations) == SumOf(reservations[t]) + Outstanding(reservations - {t});
      SumNonNegative(reservations[t]);
      OutstandingNonNegative(reservations - {t});
    }
  }

  // ---------- Runs ----------

  function Empty(c: Config): Ledger {
    Ledger(c.accumulatedStart, 0.0, map[])
  }

  function Run(c: Config, ops: seq<Op>): Ledger {
    if ops == [] then Empty(c) else Apply(c, Run(c, ops[..|ops| - 1]), ops[|ops| - 1])
  }

  ghost predicate Balanced(l: Ledger) {
    AllPositive(l.reservations) && l.reserved == Outstanding(l.reservations)
  }

  lemma ApplyKeepsBalance(c: Config, l: Ledger, op: Op)
    requires Balanced(l)
    ensures Balanced(Apply(c, l, op))
    ensures op.Telemetry? ==> Popped(l, op.thread) >= 0.0 && l.reserved - Popped(l, op.thread) >= 0.0
  {
    var pending := Pending(l, op.thread);
    if op.Telemetry? {
      if pending != [] {
        OutstandingUpdate(l, op.thread, pending[1..]);
        var after := l.reservations[op.thread := pending[1..]];
        assert AllPositive(after);
        OutstandingNonNegative(after);
      } else {
        OutstandingNonNegative(l.reservations);
      }
    } else {
      var amount := Reservation(op.estimate);
      OutstandingUpdate(l, op.thread, pending + [amount]);
      SumAppend(pending, amount);
    }
  }

  /** In every interleaving the reserved cost is exactly the sum of the reservations still
      outstanding, so it is never negative. */
  lemma {:induction false} ReservedIsOutstanding(c: Config, ops: seq<Op>)
    ensures Balanced(Run(c, ops)) && Run(c, ops).reserved >= 0.0
  {
    if ops == [] {
    } else {
      ReservedIsOutstanding(c, ops[..|ops| - 1]);
      ApplyKeepsBalance(c, Run(c, ops[..|ops| - 1]), ops[|ops| - 1]);
    }
    OutstandingNonNegative(Run(c, ops).reservations);
  }

  /** The clamp at zero never bites. */
  lemma ClampNeverBites(c: Config, ops: seq<Op>, thread: Thread)
    ensures var l := Run(c, ops);
            RealMax(0.0, l.reserved - Popped(l, thread)) == l.reserved - Popped(l, thread)
  {
    ReservedIsOutstanding(c, ops);
    ApplyKeepsBalance(c, Run(c, ops), Telemetry(thread, 0.0));
  }

  /** By how much actual costs exceeded the reservations they settled. */
  function Overrun(c: Config, ops: seq<Op>): real {
    if ops == [] then 0.0
    else
      var before, op := ops[..|ops| - 1], ops[|ops| - 1];
      Overrun(c, before) + if op.Telemetry? then RealMax(0.0, op.cost - Popped(Run(c, before), op.thread)) else 0.0
  }

  lemma {:induction false} OverrunNonNegative(c: Config, ops: seq<Op>)
    ensures Overrun(c, ops) >= 0.0
  {
    if ops == [] {
    } else {
      OverrunNonNegative(c, ops[..|ops| - 1]);
    }
  }

  /** Every attempt of the run was checked against this limit with this start.  The local gate reads
      today's cost anew, and may read one that lags behind what this job has spent. */
  predicate Guarded(c: Config, ops: seq<Op>, limit: real, start: real, lag: real) {
    && limit > 0.0 && lag >= 0.0
    && (|| (limit == c.fileCostLimit && start == c.documentCostStart)
        || (limit == c.dailyCostLimit && start == c.dailyCostStart
            && forall k :: 0 <= k < |ops| && ops[k].LocalAttempt? ==>
                 ops[k].dailyCost >= start + Run(c, ops[..k]).accumulated - lag))
  }

  lemma GuardedBefore(c: Config, ops: seq<Op>, limit: real, start: real, lag: real)
    requires ops != [] && Guarded(c, ops, limit, start, lag)
    ensures Guarded(c, ops[..|ops| - 1], limit, start, lag)
  {
    var before := ops[..|ops| - 1];
    forall k | 0 <= k < |before| ensures before[k] == ops[k] && Run(c, before[..k]) == Run(c, ops[..k]) {
      assert before[..k] == ops[..k];
    }
    hide Run;
  }

  /** The budget holds: what was spent and what is reserved stay within the limit, or within the start
      when that was already over it, up to the sum of the overruns and up to the lag. */
  lemma {:induction false} BudgetHolds(c: Config, ops: seq<Op>, limit: real, start: real, lag: real)
    requires Guarded(c, ops, limit, start, lag)
    ensures var l := Run(c, ops);
            start + l.accumulated + l.reserved <= RealMax(limit, start + c.accumulatedStart) + lag + Overrun(c, ops)
  {
    if ops == [] {
    } else {
      var before, op := ops[..|ops| - 1], ops[|ops| - 1];
      GuardedBefore(c, ops, limit, start, lag);
      BudgetHolds(c, before, limit, start, lag);
      OverrunNonNegative(c, before);
      ReservedIsOutstanding(c, before);
      ApplyKeepsBalance(c, Run(c, before), op);
    }
  }

  /** A run whose costs never exceed their reservations cannot overspend by more than the lag. */
  lemma NoOverrunNoOverspend(c: Config, ops: seq<Op>, limit: real, start: real, lag: real)
    requires Guarded(c, ops, limit, start, lag)
    requires forall k :: 0 <= k < |ops| && ops[k].Telemetry? ==> ops[k].cost <= Popped(Run(c, ops[..k]), ops[k].thread)
    ensures start + Run(c, ops).accumulated <= RealMax(limit, start + c.accumulatedStart) + lag
  {
    BudgetHolds(c, ops, limit, start, lag);
    ReservedIsOutstanding(c, ops);
    NoOverrun(c, ops);
  }

  /** With a daily limit of 1, two local attempts that announce and cost 1 are both admitted if the second
      does not yet read the cost of the first: the lag is all spent. */
  lemma StaleDailyCostOverspends(c: Config, ops: seq<Op>)
    requires c == Config(0.0, 0.0, 0.0, 1.0, 0.0)
    requires ops == [LocalAttempt(0, Amount(1.0), 0.0), Telemetry(0, 1.0), LocalAttempt(0, Amount(1.0), 0.0)]
    ensures Guarded(c, ops, c.dailyCostLimit, c.dailyCostStart, 1.0) && Overrun(c, ops) == 0.0
    ensures Run(c, ops).accumulated + Run(c, ops).reserved == 2.0 == c.dailyCostLimit + 1.0
  {
    var a, b := [ops[0]], [ops[0], ops[1]];
    assert ops == b + [ops[2]] && b == a + [ops[1]] && a == [] + [ops[0]];
    assert ops[..0] == [] && ops[..2] == b;
    OneMoreOp(c, [], ops[0]);
    OneMoreOp(c, a, ops[1]);
    OneMoreOp(c, b, ops[2]);
    hide Run, Overrun, Apply;
    StaleSteps(c, Empty(c), Run(c, a), Run(c, b));
  }

  lemma StaleSteps(c: Config, l0: Ledger, l1: Ledger, l2: Ledger)
    requires c == Config(0.0, 0.0, 0.0, 1.0, 0.0) && l0 == Empty(c)
    requires l1 == Apply(c, l0, LocalAttempt(0, Amount(1.0), 0.0)) && l2 == Apply(c, l1, Telemetry(0, 1.0))
    ensures Popped(l1, 0) == 1.0 && l1.accumulated == 0.0 && l2.accumulated == 1.0
    ensures var l3 := Apply(c, l2, LocalAttempt(0, Amount(1.0), 0.0)); l3.accumulated == 1.0 && l3.reserved == 1.0
  {
    assert Pending(l0, 0) + [1.0] == [1.0];
    assert Pending(l1, 0) == [1.0] && l1.reserved == 1.0;
  }

  lemma OneMoreOp(c: Config, ops: seq<Op>, op: Op)
    ensures Run(c, ops + [op]) == Apply(c, Run(c, ops), op)
    ensures Overrun(c, ops + [op]) ==
            Overrun(c, ops) + if op.Telemetry? then RealMax(0.0, op.cost - Popped(Run(c, ops), op.thread)) else 0.0
    ensures Run(c, []) == Empty(c) && Overrun(c, []) == 0.0
  {
    assert (ops + [op])[..|ops|] == ops;
  }

  lemma GuardedAppend(c: Config, ops: seq<Op>, op: Op, start: real, lag: real)
    requires start == c.dailyCostStart && c.dailyCostLimit > 0.0 && lag >= 0.0
    requires forall k :: 0 <= k < |ops| && ops[k].LocalAttempt? ==>
               ops[k].dailyCost >= start + Run(c, ops[..k]).accumulated - lag
    requires op.LocalAttempt? ==> op.dailyCost >= start + Run(c, ops).accumulated - lag
    ensures forall k :: 0 <= k < |ops + [op]| && (ops + [op])[k].LocalAttempt? ==>
              (ops + [op])[k].dailyCost >= start + Run(c, (ops + [op])[..k]).accumulated - lag
  {
    var all := ops + [op];
    hide Run;
    forall k | 0 <= k < |all| && all[k].LocalAttempt?
      ensures all[k].dailyCost >= start + Run(c, all[..k]).accumulated - lag
    {
      assert all[..k] == if k < |ops| then ops[..k] else ops;
    }
  }

  /** Attempts that announce and cost the same amount, one after the other, with no cost ever read. */
  function Rounds(n: nat, amount: real): seq<Op> {
    if n == 0 then []
    else Rounds(n - 1, amount) + [LocalAttempt(0, Amount(amount), 0.0)] + [Telemetry(0, amount)]
  }

  /** The local path of a job with a daily limit only. */
  function DailyOnly(limit: real): Config {
    Config(0.0, 0.0, 0.0, limit, 0.0)
  }

  lemma OneRound(c: Config, l: Ledger, amount: real)
    requires c == DailyOnly(c.dailyCostLimit) && 0.0 <= amount <= c.dailyCostLimit && c.dailyCostLimit > 0.0
    requires l.reserved == 0.0 && Pending(l, 0) == []
    ensures var reserved := Apply(c, l, LocalAttempt(0, Amount(amount), 0.0));
            var after := Apply(c, reserved, Telemetry(0, amount));
            && reserved.accumulated == l.accumulated && reserved.reserved == amount
            && (amount > 0.0 ==> Popped(reserved, 0) == amount)
            && after.accumulated == l.accumulated + amount && after.reserved == 0.0 && Pending(after, 0) == []
  {
    assert Pending(l, 0) + [amount] == [amount];
  }

  /** A run of the local path after which nothing is reserved, and this much was spent. */
  ghost predicate Settled(c: Config, ops: seq<Op>, spent: real, lag: real) {
    && Run(c, ops).accumulated == spent && Run(c, ops).reserved == 0.0 && Pending(Run(c, ops), 0) == []
    && Overrun(c, ops) == 0.0 && Guarded(c, ops, c.dailyCostLimit, 0.0, lag)
  }

  lemma SettledRound(c: Config, ops: seq<Op>, spent: real, amount: real, lag: real)
    requires c == DailyOnly(c.dailyCostLimit) && 0.0 <= amount <= c.dailyCostLimit
    requires Settled(c, ops, spent, lag) && spent <= lag
    ensures Settled(c, ops + [LocalAttempt(0, Amount(amount), 0.0)] + [Telemetry(0, amount)], spent + amount, lag)
  {
    var attempt, telemetry := LocalAttempt(0, Amount(amount), 0.0), Telemetry(0, amount);
    OneRound(c, Run(c, ops), amount);
    OneMoreOp(c, ops, attempt);
    OneMoreOp(c, ops + [attempt], telemetry);
    GuardedAppend(c, ops, attempt, 0.0, lag);
    GuardedAppend(c, ops + [attempt], telemetry, 0.0, lag);
    hide Run, Overrun, Apply;
  }

  lemma SettledNone(c: Config, lag: real)
    requires c == DailyOnly(c.dailyCostLimit) && c.dailyCostLimit > 0.0 && lag >= 0.0
    ensures Settled(c, [], 0.0, lag)
  {
  }

  lemma RoundsUnfold(n: nat, amount: real)
    ensures n == 0 ==> Rounds(n, amount) == []
    ensures n > 0 ==> Rounds(n, amount) ==
                      Rounds(n - 1, amount) + [LocalAttempt(0, Amount(amount), 0.0)] + [Telemetry(0, amount)]
  {
  }

  lemma Multiple(n: nat, amount: real, spent: real)
    requires amount >= 0.0 && spent == n as real * amount
    ensures n > 0 ==> spent - amount == (n - 1) as real * amount
    ensures n == 0 ==> spent == 0.0
  {
    assert n > 0 ==> (n - 1) as real == n as real - 1.0;
  }

  /** As long as what they cost stays within the lag, all of the attempts are admitted. */
  lemma {:induction false} RoundsAreAdmitted(c: Config, n: nat, amount: real, spent: real, lag: real)
    requires c == DailyOnly(c.dailyCostLimit) && 0.0 <= amount <= c.dailyCostLimit && c.dailyCostLimit > 0.0
    requires spent == n as real * amount && spent <= lag && lag >= 0.0
    ensures Settled(c, Rounds(n, amount), spent, lag)
  {
    Multiple(n, amount, spent);
    RoundsUnfold(n, amount);
    hide *;
    if n == 0 {
      SettledNone(c, lag);
    } else {
      RoundsAreAdmitted(c, n - 1, amount, spent - amount, lag);
      SettledRound(c, Rounds(n - 1, amount), spent - amount, amount, lag);
    }
  }

  /** The lag can all be spent, whatever it is: a run without overruns that exceeds the limit by it. */
  lemma LagIsSpent(limit: real, lag: real) returns (ops: seq<Op>)
    requires limit > 0.0 && lag >= 0.0
    ensures var c := DailyOnly(limit);
            && Guarded(c, ops, limit, 0.0, lag) && Overrun(c, ops) == 0.0
            && Run(c, ops).accumulated + Run(c, ops).reserved == limit + lag
  {
    var c := DailyOnly(limit);
    var n, amount := EvenShares(limit, lag);
    var rounds, last := Rounds(n, amount), LocalAttempt(0, Amount(limit), 0.0);
    RoundsAreAdmitted(c, n, amount, lag, lag);
    hide Rounds;
    OneRound(c, Run(c, rounds), limit);
    OneMoreOp(c, rounds, last);
    GuardedAppend(c, rounds, last, 0.0, lag);
    hide Run, Overrun, Apply;
    ops := rounds + [last];
  }

  lemma EvenShares(limit: real, lag: real) returns (n: nat, amount: real)
    requires limit > 0.0 && lag >= 0.0
    ensures 0.0 <= amount <= limit && n as real * amount == lag
  {
    var ratio := lag / limit;
    Quotient(lag, limit);
    n := ratio.Floor + 1;
    var shares := n as real;
    amount := lag / shares;
    Quotient(lag, shares);
    assert shares > ratio;
    Product(shares, ratio, limit);
    NoMoreThan(shares, amount, limit, lag);
  }

  lemma NoMoreThan(shares: real, amount: real, limit: real, lag: real)
    requires shares > 0.0 && shares * amount == lag < shares * limit
    ensures amount <= limit
  {
    if amount > limit {
      Product(amount, limit, shares);
    }
  }

  lemma Quotient(x: real, y: real)
    requires x >= 0.0 && y > 0.0
    ensures y * (x / y) == x && x / y >= 0.0
  {
  }

  lemma Product(x: real, y: real, z: real)
    requires x > y && z > 0.0
    ensures x * z > y * z
  {
    assert (x - y) * z > 0.0;
    assert (x - y) * z == x * z - y * z;
  }

  ghost predicate DailyBound(limit: real, lag: real, bound: real) {
    forall ops :: Guarded(DailyOnly(limit), ops, limit, 0.0, lag) && Overrun(DailyOnly(limit), ops) == 0.0 ==>
                    Run(DailyOnly(limit), ops).accumulated + Run(DailyOnly(limit), ops).reserved <= bound
  }

  /** Exactly which bound a daily limit gives the local path, over all runs without overruns in which the
      day's total lags by no more than this: the limit plus the lag. */
  lemma DailyBoundIff(limit: real, lag: real, bound: real)
    requires limit > 0.0 && lag >= 0.0
    ensures DailyBound(limit, lag, bound) <==> bound >= limit + lag
  {
    var c := DailyOnly(limit);
    if bound >= limit + lag {
      forall ops | Guarded(c, ops, limit, 0.0, lag) && Overrun(c, ops) == 0.0
        ensures Run(c, ops).accumulated + Run(c, ops).reserved <= bound
      {
        BudgetHolds(c, ops, limit, 0.0, lag);
      }
    } else {
      var ops := LagIsSpent(limit, lag);
      hide Run, Overrun, Guarded;
      assert Run(c, ops).accumulated + Run(c, ops).reserved > bound;
    }
  }

  lemma {:induction false} NoOverrun(c: Config, ops: seq<Op>)
    requires forall k :: 0 <= k < |ops| && ops[k].Telemetry? ==> ops[k].cost <= Popped(Run(c, ops[..k]), ops[k].thread)
    ensures Overrun(c, ops) == 0.0
  {
    if ops == [] {
    } else {
      var n := |ops| - 1;
      var before := ops[..n];
      forall k | 0 <= k < n && before[k].Telemetry?
        ensures before[k].cost <= Popped(Run(c, before[..k]), before[k].thread)
      {
        assert before[..k] == ops[..k];
        assert ops[k].Telemetry?;
      }
      NoOverrun(c, before);
    }
  }

  /** A malformed estimate is not refused: the worker's gate admits it wherever a free attempt would
      be, it reserves nothing, and so leaves all of its actual cost as overrun. */
  lemma MalformedEstimateIsFree(c: Config, l: Ledger, thread: Thread, e: Estimate)
    requires e.NotConvertible? || e.NaN? || e.Infinite?
    ensures Allows(c, l, WorkerAttempt(thread, e)) == Allows(c, l, WorkerAttempt(thread, Amount(0.0)))
    ensures Apply(c, l, WorkerAttempt(thread, e)) == l
  {
  }

  /** With a limit of 1, an attempt that announces NaN is admitted and spends 5; one that announces 5
      is refused. */
  lemma MalformedEstimateOverspends(c: Config, ops: seq<Op>)
    requires c == Config(0.0, 0.0, 1.0, 0.0, 0.0)
    requires ops == [WorkerAttempt(0, NaN), Telemetry(0, 5.0)]
    ensures Allows(c, Empty(c), ops[0]) && Run(c, ops).accumulated == 5.0 > c.fileCostLimit
    ensures !Allows(c, Empty(c), WorkerAttempt(0, Amount(5.0)))
  {
    assert ops[..1][..0] == [];
    assert Run(c, ops[..0]) == Empty(c);
    assert Run(c, ops[..1]) == Empty(c);
  }
}
