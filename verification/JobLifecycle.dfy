/**
 The lifecycle of one conversion job: workers, heartbeats, stale-job sweepers and two-phase
 finalization interleave on one database row.  Each operation is one atomic step.

 A step carries the clock reading its operation took before entering its transaction, so
 the stamps of a run are not ordered by commit; a claim also carries the token it would draw.
 */
module JobLifecycle {
  import opened Options
  import opened Sorting

  datatype Status = Pending | Processing | Finalizing | Completed | Failed | ManualReview | Cancelled

  predicate IsFinal(status: Status) {
    status == Completed || status == Failed || status == ManualReview || status == Cancelled
  }

  /** The table of status transitions. */
  function Allowed(status: Status): set<Status> {
    match status
    case Pending => {Processing, Failed, Cancelled}
    case Processing => {Pending, Finalizing, Completed, Failed, ManualReview, Cancelled}
    case Finalizing => {Processing, Completed, ManualReview, Failed}
    case Failed => {Pending}
    case Cancelled => {Pending}
    case ManualReview => {}
    case Completed => {}
  }

  datatype Row = Row(
    status: Status,
    workerName: Option<string>,
    claimToken: string,
    attemptCount: nat,
    updatedAt: int,
    startedAt: Option<int>,
    lastHeartbeat: Option<int>,
    completedAt: Option<int>,
    intendedFinalStatus: Option<Status>)

  datatype Op =
    | Transition(target: Status, workerName: Option<string>, uuid: string, extraToken: Option<string>,
                 extraHeartbeat: Option<int>, now: int)
    | Finalize(target: Status, worker: string, token: Option<string>, now: int)
    | Prepare(target: Status, worker: string, token: Option<string>, now: int)
    | Complete(target: Status, worker: string, token: Option<string>, now: int)
    | Rollback(worker: string, token: Option<string>, now: int)
    | AbandonFinalization(observed: int, now: int)
    | AbandonStale(observed: int, now: int)
    | Heartbeat(worker: string, now: int)

  function OrEmpty(s: Option<string>): string {
    if s.Some? then s.value else ""
  }

  predicate Owns(row: Row, worker: string, token: Option<string>) {
    row.workerName == Some(worker) && row.claimToken == OrEmpty(token)
  }

  // ---------- Which steps write, and what they write ----------

  predicate Takeover(row: Row, worker: Option<string>) {
    worker.Some? && OrEmpty(row.workerName) != "" && worker.value != OrEmpty(row.workerName)
  }

  /** The guard of each operation: a rejected operation leaves the row alone. */
  predicate Accepts(row: Row, op: Op) {
    match op
    case Transition(target, worker, _, _, _, _) =>
      && (row.status == target || target in Allowed(row.status))
      && !(target == Processing && row.status == Processing && Takeover(row, worker))
    case Finalize(target, worker, token, _) =>
      IsFinal(target) && row.status == Processing && Owns(row, worker, token)
    case Prepare(target, worker, token, _) =>
      (target == Completed || target == ManualReview) && row.status == Processing && Owns(row, worker, token)
    case Complete(target, worker, token, _) =>
      (target == Completed || target == ManualReview) && row.status == Finalizing && Owns(row, worker, token)
    case Rollback(worker, token, _) =>
      row.status == Finalizing && Owns(row, worker, token)
    case AbandonFinalization(observed, _) =>
      row.status == Finalizing && row.updatedAt == observed
    case AbandonStale(observed, _) =>
      row.status == Processing && row.updatedAt == observed
    case Heartbeat(worker, _) =>
      row.status == Processing && (OrEmpty(row.workerName) == "" || row.workerName == Some(worker))
  }

  predicate IsClaim(row: Row, op: Op) {
    op.Transition? && op.target == Processing && row.status != Processing && Accepts(row, op)
  }

  function Apply(row: Row, op: Op): Row {
    if !Accepts(row, op) then row
    else
      match op
      case Transition(target, worker, uuid, extraToken, extraHeartbeat, now) =>
        var claim := target == Processing && row.status != Processing;
        row.(status := target,
             updatedAt := now,
             workerName := if worker.Some? then worker else row.workerName,
             startedAt := if claim then Some(now) else row.startedAt,
             lastHeartbeat := if extraHeartbeat.Some? then extraHeartbeat
                              else if claim then Some(now) else row.lastHeartbeat,
             attemptCount := if claim then row.attemptCount + 1 else row.attemptCount,
             claimToken := if extraToken.Some? then extraToken.value else if claim then uuid else row.claimToken,
             completedAt := if IsFinal(target) then Some(now) else row.completedAt)
      case Finalize(target, _, _, now) =>
        row.(status := target, updatedAt := now, completedAt := Some(now))
      case Prepare(target, _, _, now) =>
        row.(status := Finalizing, updatedAt := now, completedAt := None, intendedFinalStatus := Some(target))
      case Complete(target, _, _, now) =>
        row.(status := target, updatedAt := now, completedAt := Some(now), intendedFinalStatus := None)
      case Rollback(_, _, now) =>
        row.(status := Processing, updatedAt := now, completedAt := None, intendedFinalStatus := None)
      case AbandonFinalization(_, now) =>
        row.(status := Pending, updatedAt := now, completedAt := None, workerName := None,
             lastHeartbeat := None, claimToken := "", intendedFinalStatus := None)
      case AbandonStale(_, now) =>
        row.(status := Pending, updatedAt := now, workerName := None, lastHeartbeat := None, claimToken := "")
      case Heartbeat(worker, now) =>
        row.(lastHeartbeat := Some(now), updatedAt := now, workerName := Some(worker))
  }

  // ---------- The row as the methods update it ----------

  class Conversion {
    var status: Status
    var workerName: Option<string>
    var claimToken: string
    var attemptCount: nat
    var updatedAt: int
    var startedAt: Option<int>
    var lastHeartbeat: Option<int>
    var completedAt: Option<int>
    var intendedFinalStatus: Option<Status>

    ghost function AsRow(): Row
      reads this
    {
      Row.Row(status, workerName, claimToken, attemptCount, updatedAt, startedAt, lastHeartbeat, completedAt,
              intendedFinalStatus)
    }

    constructor (now: int)
      ensures AsRow() == NewRow(now)
    {
      status, workerName, claimToken, attemptCount := Pending, None, "", 0;
      updatedAt, startedAt, lastHeartbeat, completedAt, intendedFinalStatus := now, None, None, None, None;
    }

    method TransitionConversion(target: Status, worker: Option<string>, uuid: string, extraToken: Option<string>,
                                extraHeartbeat: Option<int>, now: int)
      returns (ok: bool)
      modifies this
      ensures var op := Transition(target, worker, uuid, extraToken, extraHeartbeat, now);
              ok == Accepts(old(AsRow()), op) && AsRow() == Apply(old(AsRow()), op)
    {
      hide Allowed, IsFinal, Held;
      var current := status;
      if current != target && target !in Allowed(current) {
        return false;
      }
      if target == Processing && current == Processing {
        var currentOwner := OrEmpty(workerName);
        if worker.Some? && currentOwner != "" && worker.value != currentOwner {
          return false;
        }
      }
      status := target;
      updatedAt := now;
      if worker.Some? {
        workerName := worker;
      }
      if target == Processing && current != Processing {
        startedAt := Some(now);
        lastHeartbeat := Some(now);
        attemptCount := attemptCount + 1;
        claimToken := uuid;
      }
      if IsFinal(target) {
        completedAt := Some(now);
      }
      if extraToken.Some? {
        claimToken := extraToken.value;
      }
      if extraHeartbeat.Some? {
        lastHeartbeat := extraHeartbeat;
      }
      return true;
    }

    method FinalizeIfOwned(target: Status, worker: string, token: Option<string>, now: int) returns (ok: bool)
      modifies this
      ensures var op := Finalize(target, worker, token, now);
              ok == Accepts(old(AsRow()), op) && AsRow() == Apply(old(AsRow()), op)
    {
      if !IsFinal(target) {
        return false;
      }
      var expectedToken := OrEmpty(token);
      if status == Processing && workerName == Some(worker) && claimToken == expectedToken {
        status := target;
        updatedAt := now;
        completedAt := Some(now);
        workerName := Some(worker);
        return true;
      }
      return false;
    }

    method PrepareFinalization(target: Status, worker: string, token: Option<string>, now: int) returns (ok: bool)
      modifies this
      ensures var op := Prepare(target, worker, token, now);
              ok == Accepts(old(AsRow()), op) && AsRow() == Apply(old(AsRow()), op)
    {
      if target != Completed && target != ManualReview {
        return false;
      }
      var expectedToken := OrEmpty(token);
      if status == Processing && workerName == Some(worker) && claimToken == expectedToken {
        status := Finalizing;
        updatedAt := now;
        completedAt := None;
        workerName := Some(worker);
        intendedFinalStatus := Some(target);
        return true;
      }
      return false;
    }

    method CompleteFinalization(target: Status, worker: string, token: Option<string>, now: int) returns (ok: bool)
      modifies this
      ensures var op := Complete(target, worker, token, now);
              ok == Accepts(old(AsRow()), op) && AsRow() == Apply(old(AsRow()), op)
    {
      if target != Completed && target != ManualReview {
        return false;
      }
      var expectedToken := OrEmpty(token);
      if status == Finalizing && workerName == Some(worker) && claimToken == expectedToken {
        status := target;
        updatedAt := now;
        completedAt := Some(now);
        intendedFinalStatus := None;
        return true;
      }
      return false;
    }

    /** Reports nothing to its caller, whether or not it matched the row. */
    method RollbackFinalization(worker: string, token: Option<string>, now: int)
      modifies this
      ensures AsRow() == Apply(old(AsRow()), Rollback(worker, token, now))
    {
      var expectedToken := OrEmpty(token);
      if status == Finalizing && workerName == Some(worker) && claimToken == expectedToken {
        status := Processing;
        updatedAt := now;
        completedAt := None;
        intendedFinalStatus := None;
      }
    }

    method AbandonConversionFinalization(observed: int, now: int) returns (abandoned: bool)
      modifies this
      ensures var op := AbandonFinalization(observed, now);
              abandoned == Accepts(old(AsRow()), op) && AsRow() == Apply(old(AsRow()), op)
    {
      if status == Finalizing && updatedAt == observed {
        status := Pending;
        updatedAt := now;
        completedAt := None;
        workerName := None;
        lastHeartbeat := None;
        claimToken := "";
        intendedFinalStatus := None;
        return true;
      }
      return false;
    }

    method AbandonStaleProcessing(observed: int, now: int) returns (abandoned: bool)
      modifies this
      ensures var op := AbandonStale(observed, now);
              abandoned == Accepts(old(AsRow()), op) && AsRow() == Apply(old(AsRow()), op)
    {
      if status == Processing && updatedAt == observed {
        status := Pending;
        updatedAt := now;
        workerName := None;
        lastHeartbeat := None;
        claimToken := "";
        return true;
      }
      return false;
    }

    method RecordHeartbeat(worker: string, now: int) returns (ok: bool)
      modifies this
      ensures var op := Heartbeat(worker, now);
              ok == Accepts(old(AsRow()), op) && AsRow() == Apply(old(AsRow()), op)
    {
      if status == Processing && (workerName == None || workerName == Some("") || workerName == Some(worker)) {
        lastHeartbeat := Some(now);
        updatedAt := now;
        workerName := Some(worker);
        return true;
      }
      return false;
    }
  }

  // ---------- Runs ----------

  /** A new job: pending, never claimed. */
  function NewRow(now: int): Row {
    Row.Row(Pending, None, "", 0, now, None, None, None, None)
  }

  /** The row with what a run remembers about it: the tokens issued by claims, and the tokens
      under which a finalize or a complete succeeded, both in order. */
  datatype World = World(row: Row, issued: seq<string>, spent: seq<string>)

  function Step(w: World, op: Op): World {
    World(Apply(w.row, op),
          if IsClaim(w.row, op) then w.issued + [op.uuid] else w.issued,
          if (op.Finalize? || op.Complete?) && Accepts(w.row, op) then w.spent + [OrEmpty(op.token)] else w.spent)
  }

  function Run(start: int, ops: seq<Op>): World {
    if ops == [] then World(NewRow(start), [], [])
    else Step(Run(start, ops[..|ops| - 1]), ops[|ops| - 1])
  }

  /** uuid4 never repeats and is never empty, and `extra` carries no claim token. */
  ghost predicate Fresh(w: World, op: Op) {
    op.Transition? ==> op.uuid != "" && op.uuid !in w.issued && op.extraToken == None
  }

  ghost predicate FreshRun(start: int, ops: seq<Op>) {
    forall k :: 0 <= k < |ops| ==> Fresh(Run(start, ops[..k]), ops[k])
  }

  predicate Held(status: Status) {
    status == Processing || status == Finalizing
  }

  predicate HoldsLatest(w: World) {
    Held(w.row.status) ==> w.issued != [] && w.row.claimToken == w.issued[|w.issued| - 1]
  }

  ghost predicate Inv(w: World) {
    && HoldsLatest(w)
    && (Held(w.row.status) ==> w.row.claimToken !in w.spent)
    && Distinct(w.issued) && "" !in w.issued
    && Distinct(w.spent) && (forall t :: t in w.spent ==> t in w.issued)
    && w.row.attemptCount == |w.issued|
  }

  lemma StepKeepsInv(w: World, op: Op)
    requires Inv(w) && Fresh(w, op)
    ensures Inv(Step(w, op))
  {
  }

  lemma {:induction false} RunKeepsInv(start: int, ops: seq<Op>)
    requires FreshRun(start, ops)
    ensures Inv(Run(start, ops))
  {
    if ops == [] {
    } else {
      var before := ops[..|ops| - 1];
      forall k | 0 <= k < |before| ensures Fresh(Run(start, before[..k]), before[k]) {
        assert before[..k] == ops[..k];
        assert Fresh(Run(start, ops[..k]), ops[k]);
      }
      RunKeepsInv(start, before);
      StepKeepsInv(Run(start, before), ops[|ops| - 1]);
    }
  }

  lemma HeldByLatest(w: World, op: Op)
    requires Inv(w) && (op.Finalize? || op.Prepare? || op.Complete? || op.Rollback?) && Accepts(w.row, op)
    ensures w.issued != [] && op.token == Some(w.issued[|w.issued| - 1])
    ensures forall k :: 0 <= k < |w.issued| - 1 ==> op.token != Some(w.issued[k])
  {
    assert w.issued[|w.issued| - 1] in w.issued;
  }

  /** Fencing.  In every interleaving, a finalize, prepare, complete or rollback that takes
      effect carries the token of the latest claim; any other token, and no token, fails. */
  lemma Fencing(start: int, ops: seq<Op>, op: Op)
    requires FreshRun(start, ops)
    requires op.Finalize? || op.Prepare? || op.Complete? || op.Rollback?
    requires Accepts(Run(start, ops).row, op)
    ensures var issued := Run(start, ops).issued;
            issued != [] && op.token == Some(issued[|issued| - 1])
    ensures forall k :: 0 <= k < |Run(start, ops).issued| - 1 ==> op.token != Some(Run(start, ops).issued[k])
  {
    hide *;
    RunKeepsInv(start, ops);
    HeldByLatest(Run(start, ops), op);
  }

  lemma FreshPrefix(start: int, ops: seq<Op>, k: nat)
    requires FreshRun(start, ops) && k <= |ops|
    ensures FreshRun(start, ops[..k])
    ensures k < |ops| ==> Fresh(Run(start, ops[..k]), ops[k])
  {
    forall i | 0 <= i < k ensures Fresh(Run(start, ops[..k][..i]), ops[..k][i]) {
      assert ops[..k][..i] == ops[..i];
    }
  }

  /** Operation k ends the job under its token. */
  predicate Spends(start: int, ops: seq<Op>, k: nat)
    requires k < |ops|
  {
    (ops[k].Finalize? || ops[k].Complete?) && Accepts(Run(start, ops[..k]).row, ops[k])
  }

  lemma {:induction false} SpentToken(start: int, ops: seq<Op>, i: nat, j: nat)
    requires i < j <= |ops| && Spends(start, ops, i)
    ensures OrEmpty(ops[i].token) in Run(start, ops[..j]).spent
    decreases j
  {
    assert ops[..j][..j - 1] == ops[..j - 1];
    if j == i + 1 {
    } else {
      SpentToken(start, ops, i, j - 1);
    }
  }

  /** Each token leads to at most one successful finalize or complete: two of them in a run carry
      different tokens. */
  lemma TokensSpentAtMostOnce(start: int, ops: seq<Op>, i: nat, j: nat)
    requires FreshRun(start, ops) && i < j < |ops|
    requires (ops[i].Finalize? || ops[i].Complete?) && Accepts(Run(start, ops[..i]).row, ops[i])
    requires (ops[j].Finalize? || ops[j].Complete?) && Accepts(Run(start, ops[..j]).row, ops[j])
    ensures OrEmpty(ops[i].token) != OrEmpty(ops[j].token)
  {
    FreshPrefix(start, ops, j);
    RunKeepsInv(start, ops[..j]);
    SpentToken(start, ops, i, j);
  }

  /** How many operations of a run were claims. */
  function Claims(start: int, ops: seq<Op>): nat {
    if ops == [] then 0
    else
      var n := |ops| - 1;
      Claims(start, ops[..n]) + if IsClaim(Run(start, ops[..n]).row, ops[n]) then 1 else 0
  }

  /** The attempt count is the number of claims, with or without fresh tokens. */
  lemma {:induction false} AttemptsAreClaims(start: int, ops: seq<Op>)
    ensures Run(start, ops).row.attemptCount == Claims(start, ops) == |Run(start, ops).issued|
  {
    if ops == [] {
    } else {
      AttemptsAreClaims(start, ops[..|ops| - 1]);
    }
  }

  /** `completed` and `manual_review` are absorbing. */
  lemma {:induction false} TerminalStatusesAbsorb(start: int, ops: seq<Op>, more: seq<Op>)
    requires var status := Run(start, ops).row.status; status == Completed || status == ManualReview
    ensures Run(start, ops + more).row.status == Run(start, ops).row.status
    ensures Run(start, ops + more).issued == Run(start, ops).issued
    decreases |more|
  {
    if more == [] {
      assert ops + more == ops;
    } else {
      var all := ops + more;
      assert all[..|all| - 1] == ops + more[..|more| - 1];
      TerminalStatusesAbsorb(start, ops, more[..|more| - 1]);
    }
  }

  /** The status moves only along the table, except that abandoning a finalization takes the
      edge from finalizing to pending, which the table lacks. */
  lemma StatusChangesFollowTable(row: Row, op: Op)
    ensures var after := Apply(row, op).status;
            || after == row.status
            || after in Allowed(row.status)
            || (op.AbandonFinalization? && row.status == Finalizing && after == Pending)
    ensures op.AbandonFinalization? && Accepts(row, op) ==> Apply(row, op).status !in Allowed(row.status)
  {
  }

  /** Exactly which transitions are accepted, by their target: from where a job can get there, or stay
      there, except that another worker cannot re-affirm an active claim. */
  lemma TransitionAcceptedExactly(row: Row, op: Op)
    requires op.Transition?
    ensures var from := row.status;
            Accepts(row, op) <==>
            match op.target
            case Pending => from == Pending || from == Processing || from == Failed || from == Cancelled
            case Processing =>
              || from == Pending || from == Finalizing
              || (from == Processing && (|| op.workerName.None? || row.workerName.None? || row.workerName == Some("")
                                         || op.workerName == row.workerName))
            case Finalizing => from == Processing || from == Finalizing
            case Completed => from == Processing || from == Finalizing || from == Completed
            case ManualReview => from == Processing || from == Finalizing || from == ManualReview
            case Failed => from == Pending || from == Processing || from == Finalizing || from == Failed
            case Cancelled => from == Pending || from == Processing || from == Cancelled
  {
  }

  /** Exactly which finalizations are accepted: of the job that this worker processes under this
      token, where no token stands for an empty one. */
  lemma FinalizationAcceptedExactly(row: Row, op: Op)
    requires op.Finalize? || op.Prepare? || op.Complete?
    ensures Accepts(row, op) <==>
            && row.status == (if op.Complete? then Finalizing else Processing)
            && row.workerName == Some(op.worker)
            && (op.token == Some(row.claimToken) || (op.token.None? && row.claimToken == ""))
            && (|| op.target == Completed || op.target == ManualReview
                || (op.Finalize? && (op.target == Failed || op.target == Cancelled)))
  {
  }

  /** Where an accepted operation leaves the job, and when that counts as the job's completion. */
  lemma AcceptedReachesItsTarget(row: Row, op: Op)
    requires Accepts(row, op)
    ensures var after := Apply(row, op);
            match op
            case Transition(target, _, _, _, _, now) =>
              && after.status == target
              && (target == Completed || target == Failed || target == ManualReview || target == Cancelled ==>
                    after.completedAt == Some(now))
              && (target == Pending || target == Processing || target == Finalizing ==>
                    after.completedAt == row.completedAt)
            case Finalize(target, _, _, now) => after.status == target && after.completedAt == Some(now)
            case Prepare(target, _, _, _) => after.status == Finalizing && after.intendedFinalStatus == Some(target)
            case Complete(target, _, _, now) => after.status == target && after.completedAt == Some(now)
            case Rollback(_, _, _) => after.status == Processing
            case AbandonFinalization(_, _) => after.status == Pending
            case AbandonStale(_, _) => after.status == Pending
            case Heartbeat(_, _) => after.status == Processing
  {
  }

  // ---------- No job is stuck ----------

  lemma RunOn(start: int, ops: seq<Op>, op: Op)
    requires FreshRun(start, ops) && Fresh(Run(start, ops), op)
    ensures FreshRun(start, ops + [op]) && Run(start, ops + [op]) == Step(Run(start, ops), op)
  {
    var more := ops + [op];
    assert more[..|ops|] == ops;
    forall k | 0 <= k < |more| ensures Fresh(Run(start, more[..k]), more[k]) {
      assert k < |ops| ==> more[..k] == ops[..k];
    }
  }

  /** A final status that both ways of ending a job can give it, or, in one step, any. */
  predicate CanEndAs(target: Status, prepared: bool) {
    || target == Completed || target == ManualReview
    || (!prepared && (target == Failed || target == Cancelled))
  }

  /** The worker that processes the job can end it, in one step or in two. */
  lemma OwnerEndsTheJob(start: int, ops: seq<Op>, worker: string, target: Status, prepared: bool, now: int)
    returns (more: seq<Op>)
    requires FreshRun(start, ops) && CanEndAs(target, prepared)
    requires Run(start, ops).row.status == Processing && Run(start, ops).row.workerName == Some(worker)
    ensures FreshRun(start, ops + more) && Run(start, ops + more).row.status == target
    ensures |more| <= 2 && forall op :: op in more ==> op.Finalize? || op.Prepare? || op.Complete?
  {
    hide Run, FreshRun;
    var token := Some(Run(start, ops).row.claimToken);
    if prepared {
      var prepare, complete := Prepare(target, worker, token, now), Complete(target, worker, token, now);
      RunOn(start, ops, prepare);
      RunOn(start, ops + [prepare], complete);
      more := [prepare, complete];
      assert ops + [prepare] + [complete] == ops + more;
    } else {
      var finalize := Finalize(target, worker, token, now);
      RunOn(start, ops, finalize);
      more := [finalize];
    }
  }

  /** Any worker can claim a job that is pending or under finalization. */
  lemma AnyWorkerClaims(start: int, ops: seq<Op>, worker: string, uuid: string, now: int) returns (claim: Op)
    requires FreshRun(start, ops) && uuid != "" && uuid !in Run(start, ops).issued
    requires var status := Run(start, ops).row.status; status == Pending || status == Finalizing
    ensures claim == Transition(Processing, Some(worker), uuid, None, None, now)
    ensures FreshRun(start, ops + [claim])
    ensures var row := Run(start, ops + [claim]).row; row.status == Processing && row.workerName == Some(worker)
  {
    hide Run, FreshRun;
    claim := Transition(Processing, Some(worker), uuid, None, None, now);
    RunOn(start, ops, claim);
  }

  /** A job that is not open for claims can be returned to pending. */
  lemma MadeReady(start: int, ops: seq<Op>, uuid: string, now: int) returns (first: seq<Op>)
    requires FreshRun(start, ops) && uuid != "" && uuid !in Run(start, ops).issued
    requires var status := Run(start, ops).row.status; status != Completed && status != ManualReview
    ensures |first| <= 1 && FreshRun(start, ops + first) && uuid !in Run(start, ops + first).issued
    ensures var status := Run(start, ops + first).row.status; status == Pending || status == Finalizing
  {
    hide Run, FreshRun;
    var status := Run(start, ops).row.status;
    if status == Pending || status == Finalizing {
      first := [];
      assert ops + first == ops;
    } else {
      var back := Transition(Pending, None, uuid, None, None, now);
      RunOn(start, ops, back);
      first := [back];
    }
  }

  /** No job is stuck: from every state of every run, but for the two that absorb, any worker can bring
      the job to any final status, with a claim of its own and a finalization, in one step or in
      two; a job that is not open for claims is first returned to pending. */
  lemma NoJobIsStuck(start: int, ops: seq<Op>, worker: string, uuid: string, target: Status, prepared: bool, now: int)
    returns (more: seq<Op>)
    requires FreshRun(start, ops) && uuid != "" && uuid !in Run(start, ops).issued
    requires || target == Completed || target == ManualReview
             || (!prepared && target == Failed) || (!prepared && target == Cancelled)
    requires var status := Run(start, ops).row.status; status != Completed && status != ManualReview
    ensures FreshRun(start, ops + more) && Run(start, ops + more).row.status == target
    ensures |more| <= 4
  {
    assert CanEndAs(target, prepared);
    hide *;
    var first := MadeReady(start, ops, uuid, now);
    var ready := ops + first;
    var claim := AnyWorkerClaims(start, ready, worker, uuid, now);
    var ending := OwnerEndsTheJob(start, ready + [claim], worker, target, prepared, now);
    more := first + [claim] + ending;
    Appended(ops, first, claim, ending);
  }

  lemma Appended(ops: seq<Op>, first: seq<Op>, claim: Op, ending: seq<Op>)
    ensures ops + (first + [claim] + ending) == ops + first + [claim] + ending
  {
  }

  /** While a row stays in `processing` its token does not change, nor does a non-empty owner. */
  lemma {:induction false} ProcessingKeepsItsOwner(start: int, ops: seq<Op>, more: seq<Op>)
    requires forall k :: 0 <= k < |more| && more[k].Transition? ==> more[k].extraToken == None
    requires forall k :: 0 <= k <= |more| ==> Run(start, ops + more[..k]).row.status == Processing
    ensures var before, after := Run(start, ops).row, Run(start, ops + more).row;
            && after.claimToken == before.claimToken
            && after.attemptCount == before.attemptCount
            && (OrEmpty(before.workerName) != "" ==> after.workerName == before.workerName)
    decreases |more|
  {
    if more == [] {
      assert ops + more == ops;
    } else {
      var n := |more| - 1;
      var shorter := more[..n];
      forall k | 0 <= k <= |shorter| ensures Run(start, ops + shorter[..k]).row.status == Processing {
        assert shorter[..k] == more[..k];
      }
      ProcessingKeepsItsOwner(start, ops, shorter);
      assert (ops + more)[..|ops + more| - 1] == ops + shorter && (ops + more)[|ops + more| - 1] == more[n];
      assert more[..|more|] == more;
      assert Run(start, ops + more[..n]).row.status == Processing;
    }
  }

  // ---------- Stale recovery ----------

  /** The row before operation k of a run. */
  function RowAt(start: int, ops: seq<Op>, k: nat): Row
    requires k <= |ops|
  {
    Run(start, ops[..k]).row
  }

  /** Operation k of the run wrote the row. */
  predicate Writes(start: int, ops: seq<Op>, k: nat)
    requires k < |ops|
  {
    Accepts(RowAt(start, ops, k), ops[k])
  }

  /** No two operations read the same clock value, nor the one the row was created with. */
  ghost predicate DistinctStamps(start: int, ops: seq<Op>) {
    && (forall i, j :: 0 <= i < j < |ops| ==> ops[i].now != ops[j].now)
    && (forall i :: 0 <= i < |ops| ==> ops[i].now != start)
  }

  lemma RowStep(start: int, ops: seq<Op>, k: nat)
    requires k < |ops|
    ensures RowAt(start, ops, k + 1) == Apply(RowAt(start, ops, k), ops[k])
  {
    assert ops[..k + 1][..k] == ops[..k];
  }

  /** The stamp on a row is the creation stamp or that of an earlier operation. */
  lemma {:induction false} StampComesFromAWrite(start: int, ops: seq<Op>, k: nat) returns (source: int)
    requires k <= |ops|
    ensures -1 <= source < k
    ensures RowAt(start, ops, k).updatedAt == if source == -1 then start else ops[source].now
    ensures source >= 0 ==> Writes(start, ops, source)
    ensures forall j :: source < j < k ==> !Writes(start, ops, j)
  {
    if k == 0 {
      source := -1;
    } else {
      RowStep(start, ops, k - 1);
      if Writes(start, ops, k - 1) {
        source := k - 1;
      } else {
        source := StampComesFromAWrite(start, ops, k - 1);
      }
    }
  }

  lemma {:induction false} NoWriteNoChange(start: int, ops: seq<Op>, i: nat, j: nat)
    requires i <= j <= |ops|
    requires forall k :: i <= k < j ==> !Writes(start, ops, k)
    ensures RowAt(start, ops, i) == RowAt(start, ops, j)
  {
    if i == j {
    } else {
      NoWriteNoChange(start, ops, i, j - 1);
      RowStep(start, ops, j - 1);
      assert !Writes(start, ops, j - 1);
    }
  }

  /** Stale recovery is safe: a sweeper that read the row at point i and abandons it at point
      j succeeds exactly when the row it read was processing (or finalizing) and nothing
      (heartbeat, claim, prepare, rollback, ...) has written the row since. */
  lemma StaleRecoveryIsSafe(start: int, ops: seq<Op>, i: nat, j: nat, sweep: Op)
    requires i <= j <= |ops| && DistinctStamps(start, ops)
    requires sweep.AbandonStale? || sweep.AbandonFinalization?
    requires sweep.observed == RowAt(start, ops, i).updatedAt
    ensures Accepts(RowAt(start, ops, j), sweep) <==>
            && RowAt(start, ops, i).status == (if sweep.AbandonStale? then Processing else Finalizing)
            && forall k :: i <= k < j ==> !Writes(start, ops, k)
  {
    var a := StampComesFromAWrite(start, ops, i);
    var b := StampComesFromAWrite(start, ops, j);
    if RowAt(start, ops, j).updatedAt == sweep.observed {
      assert a == b;
      NoWriteNoChange(start, ops, i, j);
    }
    if forall k :: i <= k < j ==> !Writes(start, ops, k) {
      NoWriteNoChange(start, ops, i, j);
    }
  }

  /** Without any assumption on the clock: a sweep is accepted exactly when the row has the expected
      status and the stamp of the last write (or of the creation) is the one it observed. */
  lemma SweepAcceptedExactly(start: int, ops: seq<Op>, j: nat, sweep: Op) returns (last: int)
    requires j <= |ops| && (sweep.AbandonStale? || sweep.AbandonFinalization?)
    ensures -1 <= last < j && (last >= 0 ==> Writes(start, ops, last))
    ensures forall k :: last < k < j ==> !Writes(start, ops, k)
    ensures Accepts(RowAt(start, ops, j), sweep) <==>
            && RowAt(start, ops, j).status == (if sweep.AbandonStale? then Processing else Finalizing)
            && sweep.observed == if last == -1 then start else ops[last].now
  {
    last := StampComesFromAWrite(start, ops, j);
  }

  /** So a sweep takes a row that was written since the sweeper read it exactly when the last of
      those writes left the expected status and used again the stamp that the sweeper had read. */
  lemma SweepTakesWrittenRowExactly(start: int, ops: seq<Op>, i: nat, j: nat, sweep: Op)
    returns (last: int)
    requires i <= j <= |ops| && (sweep.AbandonStale? || sweep.AbandonFinalization?)
    requires sweep.observed == RowAt(start, ops, i).updatedAt
    ensures -1 <= last < j && (last >= 0 ==> Writes(start, ops, last))
    ensures forall k :: last < k < j ==> !Writes(start, ops, k)
    ensures (Accepts(RowAt(start, ops, j), sweep) && exists k :: i <= k < j && Writes(start, ops, k)) <==>
            && RowAt(start, ops, j).status == (if sweep.AbandonStale? then Processing else Finalizing)
            && i <= last && ops[last].now == RowAt(start, ops, i).updatedAt
  {
    last := SweepAcceptedExactly(start, ops, j, sweep);
  }

  /** Distinct stamps are needed: when a heartbeat reads the clock value already on the row,
      a sweeper that saw the row before it takes the job from a live worker. */
  lemma EqualStampsLoseAHeartbeat(ops: seq<Op>)
    requires ops == [Transition(Processing, Some("w"), "t", None, None, 1), Heartbeat("w", 1)]
    ensures FreshRun(0, ops) && Writes(0, ops, 1)
    ensures Accepts(RowAt(0, ops, 2), AbandonStale(RowAt(0, ops, 1).updatedAt, 2))
  {
    assert ops[..0] == [] && ops[..1] == [ops[0]] && ops[..2] == ops;
    assert Run(0, []) == World(NewRow(0), [], []);
    assert ops[..1][..0] == [] && ops[..2][..1] == ops[..1];
  }

  // ---------- What the methods do not check ----------

  /** Completing takes the caller's target: the job ends as `prepare` intended exactly when
      the caller repeats that target. */
  lemma CompleteTrustsItsTarget(row: Row, prepare: Op, complete: Op)
    requires prepare.Prepare? && Accepts(row, prepare)
    requires complete.Complete? && Accepts(Apply(row, prepare), complete)
    ensures Some(Apply(Apply(row, prepare), complete).status) == Apply(row, prepare).intendedFinalStatus
            <==> complete.target == prepare.target
  {
  }

  /** A prepare followed by its owner's rollback restores the claim: the same worker and token
      can prepare again. */
  lemma RollbackRestoresClaim(row: Row, prepare: Op, now: int, retry: Op)
    requires prepare.Prepare? && Accepts(row, prepare)
    requires retry.Prepare? && (retry.target == Completed || retry.target == ManualReview)
    ensures var back := Apply(Apply(row, prepare), Rollback(prepare.worker, prepare.token, now));
            && back == row.(updatedAt := now, completedAt := None, intendedFinalStatus := None)
            && (Accepts(back, retry) <==>
                  retry.worker == prepare.worker && OrEmpty(retry.token) == OrEmpty(prepare.token))
  {
  }

  /** `extra` may carry a claim token, and the code lets it override the drawn one: a
      transition keeps the held token the latest issued one exactly when it leaves the job
      unheld, carries no override, or overrides with that very token. */
  lemma OverrideBreaksFencingUnless(w: World, op: Op)
    requires Inv(w) && op.Transition? && Accepts(w.row, op)
    requires op.uuid != "" && op.uuid !in w.issued
    ensures var after := Step(w, op);
            HoldsLatest(after) <==>
            !Held(op.target)
            || op.extraToken == None
            || (after.issued != [] && op.extraToken == Some(after.issued[|after.issued| - 1]))
  {
  }

  /** Operation k of the run was a claim. */
  predicate ClaimsAt(start: int, ops: seq<Op>, k: nat)
    requires k < |ops|
  {
    IsClaim(RowAt(start, ops, k), ops[k])
  }

  /** Operation k of the run put a token from `extra` on the row. */
  predicate OverridesAt(start: int, ops: seq<Op>, k: nat)
    requires k < |ops|
  {
    ops[k].Transition? && ops[k].extraToken.Some? && Writes(start, ops, k)
  }

  /** The last claim of a run, and the last override at or after it (-1 if there is none). */
  ghost predicate LastClaimAndOverride(start: int, ops: seq<Op>, claim: int, override: int) {
    && 0 <= claim < |ops| && ClaimsAt(start, ops, claim)
    && (forall k :: claim < k < |ops| ==> !ClaimsAt(start, ops, k))
    && (override == -1 || (claim <= override < |ops| && OverridesAt(start, ops, override)))
    && (forall k :: claim <= k < |ops| && override < k ==> !OverridesAt(start, ops, k))
  }

  lemma SameEvents(start: int, ops: seq<Op>, n: nat)
    requires n <= |ops|
    ensures forall k :: 0 <= k < n ==> (ClaimsAt(start, ops[..n], k) <==> ClaimsAt(start, ops, k))
    ensures forall k :: 0 <= k < n ==>
              ops[..n][k] == ops[k] && (OverridesAt(start, ops[..n], k) <==> OverridesAt(start, ops, k))
  {
    forall k | 0 <= k < n ensures RowAt(start, ops[..n], k) == RowAt(start, ops, k) && ops[..n][k] == ops[k] {
      assert ops[..n][..k] == ops[..k];
    }
  }

  /** A run that ends with a claim. */
  lemma LastIsClaim(start: int, ops: seq<Op>) returns (override: int)
    requires ops != [] && ClaimsAt(start, ops, |ops| - 1)
    ensures LastClaimAndOverride(start, ops, |ops| - 1, override)
    ensures override == if OverridesAt(start, ops, |ops| - 1) then |ops| - 1 else -1
  {
    hide ClaimsAt, OverridesAt;
    override := if OverridesAt(start, ops, |ops| - 1) then |ops| - 1 else -1;
  }

  /** A run that ends with something else, after a run with a claim. */
  lemma LastIsNoClaim(start: int, ops: seq<Op>, claim: int, before: int) returns (override: int)
    requires ops != [] && !ClaimsAt(start, ops, |ops| - 1)
    requires LastClaimAndOverride(start, ops[..|ops| - 1], claim, before)
    ensures LastClaimAndOverride(start, ops, claim, override)
    ensures override == if OverridesAt(start, ops, |ops| - 1) then |ops| - 1 else before
  {
    var n := |ops| - 1;
    SameEvents(start, ops, n);
    hide ClaimsAt, OverridesAt;
    override := if OverridesAt(start, ops, n) then n else before;
    forall k | claim < k < |ops| ensures !ClaimsAt(start, ops, k) {
      assert k < n ==> !ClaimsAt(start, ops[..n], k);
    }
    forall k | claim <= k < |ops| && override < k ensures !OverridesAt(start, ops, k) {
      assert k < n ==> !OverridesAt(start, ops[..n], k);
    }
  }

  /** Where the token of a held row comes from, in any run, whatever tokens were drawn or passed:
      from the last claim, or from the last override since. */
  lemma {:induction false} HeldTokenComesFrom(start: int, ops: seq<Op>) returns (claim: int, override: int)
    requires Held(Run(start, ops).row.status)
    ensures LastClaimAndOverride(start, ops, claim, override)
    ensures var w := Run(start, ops);
            && w.issued != [] && w.issued[|w.issued| - 1] == ops[claim].uuid
            && w.row.claimToken == if override == -1 then ops[claim].uuid else ops[override].extraToken.value
  {
    var n := |ops| - 1;
    var before := Run(start, ops[..n]);
    if ClaimsAt(start, ops, n) {
      claim := n;
      override := LastIsClaim(start, ops);
    } else {
      assert Held(before.row.status);
      var last;
      claim, last := HeldTokenComesFrom(start, ops[..n]);
      override := LastIsNoClaim(start, ops, claim, last);
    }
  }

  /** For every run, with any overrides: a held row carries the latest issued token, and a finalize,
      prepare, complete or rollback takes effect under that token only, if and only if the last
      claim has not been overridden since, or last with its own token. */
  lemma FencingUnlessOverridden(start: int, ops: seq<Op>, op: Op) returns (claim: int, override: int)
    requires op.Finalize? || op.Prepare? || op.Complete? || op.Rollback?
    requires Accepts(Run(start, ops).row, op)
    ensures LastClaimAndOverride(start, ops, claim, override)
    ensures HoldsLatest(Run(start, ops)) <==> override == -1 || ops[override].extraToken == Some(ops[claim].uuid)
    ensures OrEmpty(op.token) == ops[claim].uuid <==>
            override == -1 || ops[override].extraToken == Some(ops[claim].uuid)
  {
    claim, override := HeldTokenComesFrom(start, ops);
  }

  // ---------- Runs in which that shows ----------

  lemma RunOfTwo(start: int, ops: seq<Op>)
    requires |ops| == 2
    ensures Run(start, ops) == Step(Step(World(NewRow(start), [], []), ops[0]), ops[1])
    ensures FreshRun(start, ops) <==>
            && Fresh(World(NewRow(start), [], []), ops[0])
            && Fresh(Step(World(NewRow(start), [], []), ops[0]), ops[1])
  {
    assert ops[..0] == [] && ops[..1][..0] == [] && ops[..1][0] == ops[0];
    assert Run(start, ops[..0]) == World(NewRow(start), [], []);
    assert Run(start, ops[..1]) == Step(World(NewRow(start), [], []), ops[0]);
    assert FreshRun(start, ops) <==> Fresh(Run(start, ops[..0]), ops[0]) && Fresh(Run(start, ops[..1]), ops[1]);
  }

  /** A job prepared to complete ends in manual review when its owner completes it so. */
  lemma PreparedCompletedEndsInReview(ops: seq<Op>, complete: Op)
    requires ops == [Transition(Processing, Some("w"), "t", None, None, 1), Prepare(Completed, "w", Some("t"), 2)]
    requires complete == Complete(ManualReview, "w", Some("t"), 3)
    ensures FreshRun(0, ops) && Run(0, ops).row.intendedFinalStatus == Some(Completed)
    ensures Accepts(Run(0, ops).row, complete) && Apply(Run(0, ops).row, complete).status == ManualReview
  {
    RunOfTwo(0, ops);
  }

  /** A job under finalization, abandoned, goes back to pending, which the table does not allow. */
  lemma AbandonmentLeavesTheTable(ops: seq<Op>, abandon: Op)
    requires ops == [Transition(Processing, Some("w"), "t", None, None, 1), Prepare(Completed, "w", Some("t"), 2)]
    requires abandon == AbandonFinalization(2, 3)
    ensures FreshRun(0, ops) && Accepts(Run(0, ops).row, abandon)
    ensures Run(0, ops).row.status == Finalizing && Apply(Run(0, ops).row, abandon).status == Pending
    ensures Pending !in Allowed(Finalizing)
  {
    RunOfTwo(0, ops);
  }

  /** After a self-loop that carries a claim token in `extra`, a finalize under that token takes
      effect although no claim ever issued it, and the issued one is refused. */
  lemma OverrideDefeatsFencing(ops: seq<Op>, finalize: Op)
    requires ops == [Transition(Processing, Some("w"), "t", None, None, 1),
                     Transition(Processing, Some("w"), "u", Some("x"), None, 2)]
    requires finalize == Finalize(Completed, "w", Some("x"), 3)
    ensures Accepts(Run(0, ops).row, finalize) && Run(0, ops).issued == ["t"]
    ensures !Accepts(Run(0, ops).row, Finalize(Completed, "w", Some("t"), 3))
  {
    RunOfTwo(0, ops);
  }
}
