/**
 Instance leases and deployment attempts of veridex/store.py and veridex/deploy/attempt.py: insert-only
 claims that afterwards only move forward, under any calls by any number of workers.
 */
module Leases {
  import opened Prelude

  // ---------------------------------------------------------------- leases

  datatype LeaseStatus = Starting | Active | Released | Failed

  datatype Lease = Lease(instanceId: string, runtimeAgentId: string, sessionId: string, runId: string,
                         status: LeaseStatus, operatorId: string, createdAt: string, updatedAt: string)

  datatype LeaseFault = DuplicateLease | NoLease | IllegalTransition

  type LeaseTable = map<string, Lease>

  function Rank(s: LeaseStatus): nat {
    match s case Starting => 0 case Active => 1 case Released => 2 case Failed => 2
  }

  predicate Terminal(s: LeaseStatus) {
    s == Released || s == Failed
  }

  /** _lease_transition: forward only, and the same status again is a no-op that keeps updated_at. */
  function Transition(current: Lease, status: LeaseStatus, updatedAt: string): Result<Lease, LeaseFault> {
    if status == current.status then Ok(current)
    else if Rank(status) <= Rank(current.status) then Err(IllegalTransition)
    else Ok(current.(status := status, updatedAt := updatedAt))
  }

  /** A lease starts, may be active, and ends; the same status again changes nothing, and nothing leads back. */
  lemma TransitionMeans(current: Lease, status: LeaseStatus, updatedAt: string)
    ensures Transition(current, status, updatedAt)
         == if status == current.status then Ok(current)
            else if current.status == Starting || (current.status == Active && status != Starting) then
              Ok(current.(status := status, updatedAt := updatedAt))
            else Err(IllegalTransition)
  {
  }

  datatype LeaseCall = Acquire(lease: Lease) | Move(instanceId: string, status: LeaseStatus, updatedAt: string)

  function LeaseStep(table: LeaseTable, call: LeaseCall): (LeaseTable, Option<LeaseFault>) {
    match call
    case Acquire(lease) =>
      if lease.instanceId in table then (table, Some(DuplicateLease)) else (table[lease.instanceId := lease], None)
    case Move(id, status, updatedAt) =>
      if id !in table then (table, Some(NoLease))
      else
        match Transition(table[id], status, updatedAt)
        case Err(fault) => (table, Some(fault))
        case Ok(lease) => (table[id := lease], None)
  }

  function LeaseRun(table: LeaseTable, calls: seq<LeaseCall>): LeaseTable {
    if calls == [] then table else LeaseStep(LeaseRun(table, calls[..|calls| - 1]), calls[|calls| - 1]).0
  }

  /** How many of the calls acquired the lease of id. */
  function Acquired(table: LeaseTable, calls: seq<LeaseCall>, id: string): nat {
    if calls == [] then 0
    else
      var before, call := calls[..|calls| - 1], calls[|calls| - 1];
      Acquired(table, before, id)
      + if call.Acquire? && call.lease.instanceId == id && LeaseStep(LeaseRun(table, before), call).1 == None then 1
        else 0
  }

  /** The identity a lease pins: everything but its status and the time of the last transition. */
  function Pinned(l: Lease): Lease {
    l.(status := Starting, updatedAt := "")
  }

  /** At most one acquire per instance ever succeeds, and none if the instance already holds a lease. */
  lemma {:induction false} OneAcquireEver(table: LeaseTable, calls: seq<LeaseCall>, id: string)
    ensures Acquired(table, calls, id)
         == if id !in table && id in LeaseRun(table, calls) then 1 else 0
    ensures id in table ==> id in LeaseRun(table, calls)
  {
    if calls != [] {
      OneAcquireEver(table, calls[..|calls| - 1], id);
    }
  }

  /** A lease keeps its ids, never falls in rank, and never changes at all once terminal. */
  lemma {:induction false} LeaseOnlyAdvances(table: LeaseTable, calls: seq<LeaseCall>, id: string)
    requires id in table
    ensures id in LeaseRun(table, calls)
    ensures var after := LeaseRun(table, calls)[id];
            && Pinned(after) == Pinned(table[id]) && Rank(after.status) >= Rank(table[id].status)
            && (Terminal(table[id].status) ==> after == table[id])
  {
    if calls != [] {
      LeaseOnlyAdvances(table, calls[..|calls| - 1], id);
    }
  }

  // ---------------------------------------------------------------- deployment attempts

  datatype AttemptStatus =
    | Pending | WalletRequested | WalletCreateUncertain | WalletCreated | WalletBound
    | BindingPersistFailed | BindingPersisted | InstanceCreated | RuntimeLaunchFailed
    | FailedRecoverable | Succeeded | FailedTerminal

  /** Declaration order is the order of the saga. */
  function Stage(s: AttemptStatus): nat {
    match s
    case Pending => 0 case WalletRequested => 1 case WalletCreateUncertain => 2 case WalletCreated => 3
    case WalletBound => 4 case BindingPersistFailed => 5 case BindingPersisted => 6
    case InstanceCreated => 7 case RuntimeLaunchFailed => 8 case FailedRecoverable => 9
    case Succeeded => 10 case FailedTerminal => 11
  }

  /** The saga, first to last. */
  function Saga(): seq<AttemptStatus> {
    [Pending, WalletRequested, WalletCreateUncertain, WalletCreated, WalletBound, BindingPersistFailed,
     BindingPersisted, InstanceCreated, RuntimeLaunchFailed, FailedRecoverable, Succeeded, FailedTerminal]
  }

  /** s comes after t in the saga. */
  predicate Later(s: AttemptStatus, t: AttemptStatus) {
    exists i, j | 0 <= i < j < |Saga()| :: Saga()[i] == t && Saga()[j] == s
  }

  lemma StageInSaga(s: AttemptStatus)
    ensures Stage(s) < |Saga()| && Saga()[Stage(s)] == s
  {
  }

  lemma SagaOnce(i: nat, s: AttemptStatus)
    requires i < |Saga()| && Saga()[i] == s
    ensures Stage(s) == i
  {
  }

  lemma StagesInOrder(s: AttemptStatus, t: AttemptStatus)
    ensures Later(s, t) <==> Stage(s) > Stage(t)
  {
    hide Stage, Saga, Later;
    StageInSaga(s);
    StageInSaga(t);
    if Stage(s) > Stage(t) {
      LaterBy(s, t, Stage(t), Stage(s));
    }
    if Later(s, t) {
      var i, j := LaterAt(s, t);
      SagaOnce(i, t);
      SagaOnce(j, s);
    }
  }

  lemma LaterBy(s: AttemptStatus, t: AttemptStatus, i: nat, j: nat)
    requires i < j < |Saga()| && Saga()[i] == t && Saga()[j] == s
    ensures Later(s, t)
  {
    hide Saga;
  }

  lemma LaterAt(s: AttemptStatus, t: AttemptStatus) returns (i: nat, j: nat)
    requires Later(s, t)
    ensures i < j < |Saga()| && Saga()[i] == t && Saga()[j] == s
  {
    hide Saga;
    i, j :| 0 <= i < j < |Saga()| && Saga()[i] == t && Saga()[j] == s;
  }

  /** claim stands for the config fingerprint, creation time and target instance pinned at insertion. */
  datatype Attempt = Attempt(attemptId: string, operatorId: string, idempotencyKey: string, claim: string,
                             status: AttemptStatus, externalId: Option<string>)

  datatype AttemptFault = DuplicateAttempt | NoAttempt | CasConflict | Rewind | ExternalIdTaken

  /** The ledger dictionary, as its values in insertion order. */
  type Ledger = seq<Attempt>

  predicate Claimed(ledger: Ledger, operatorId: string, key: string) {
    exists i | 0 <= i < |ledger| :: ledger[i].operatorId == operatorId && ledger[i].idempotencyKey == key
  }

  /** _find_attempt_key: the first entry with this attempt id, or the length of the ledger. */
  function Find(ledger: Ledger, attemptId: string): (k: nat)
    ensures k <= |ledger|
    ensures k < |ledger| ==> ledger[k].attemptId == attemptId
    ensures forall i | 0 <= i < k :: ledger[i].attemptId != attemptId
  {
    if ledger == [] then 0
    else
      var k := Find(ledger[..|ledger| - 1], attemptId);
      if k < |ledger| - 1 then k
      else if ledger[|ledger| - 1].attemptId == attemptId then |ledger| - 1
      else |ledger|
  }

  /** The first entry with this attempt id. */
  predicate IsFirst(ledger: Ledger, attemptId: string, k: nat) {
    k < |ledger| && ledger[k].attemptId == attemptId && forall i | 0 <= i < k :: ledger[i].attemptId != attemptId
  }

  /** The compare-and-set, the forward check and the write-once check, in that order. */
  function Advanced(current: Attempt, expected: AttemptStatus, next: AttemptStatus, externalId: Option<string>):
    Result<Attempt, AttemptFault>
  {
    if current.status != expected then Err(CasConflict)
    else if Stage(next) <= Stage(current.status) then Err(Rewind)
    else if externalId.Some? && current.externalId.Some? && current.externalId != externalId then Err(ExternalIdTaken)
    else Ok(current.(status := next,
                     externalId := if current.externalId.Some? then current.externalId else externalId))
  }

  /** A successful advance sets the status and stores a first external id; nothing else of the entry changes. */
  lemma AdvancedMeans(current: Attempt, expected: AttemptStatus, next: AttemptStatus, externalId: Option<string>)
    ensures var r := Advanced(current, expected, next, externalId);
            if current.status != expected then r == Err(CasConflict)
            else if !Later(next, expected) then r == Err(Rewind)
            else if externalId.Some? && current.externalId.Some? && externalId != current.externalId then
              r == Err(ExternalIdTaken)
            else
              && r.Ok? && r.value.status == next
              && r.value.externalId == (if current.externalId.Some? then current.externalId else externalId)
              && r.value.(status := current.status, externalId := current.externalId) == current
  {
    hide Stage, Later;
    StagesInOrder(next, expected);
  }

  datatype AttemptCall =
    | Persist(attempt: Attempt)
    | Advance(attemptId: string, expected: AttemptStatus, next: AttemptStatus, externalId: Option<string>)

  function AttemptStep(ledger: Ledger, call: AttemptCall): (Ledger, Option<AttemptFault>) {
    match call
    case Persist(a) =>
      if Claimed(ledger, a.operatorId, a.idempotencyKey) then (ledger, Some(DuplicateAttempt)) else (ledger + [a], None)
    case Advance(attemptId, expected, next, externalId) =>
      var k := Find(ledger, attemptId);
      if k == |ledger| then (ledger, Some(NoAttempt))
      else
        match Advanced(ledger[k], expected, next, externalId)
        case Err(fault) => (ledger, Some(fault))
        case Ok(a) => (ledger[k := a], None)
  }

  function AttemptRun(ledger: Ledger, calls: seq<AttemptCall>): Ledger {
    if calls == [] then ledger else AttemptStep(AttemptRun(ledger, calls[..|calls| - 1]), calls[|calls| - 1]).0
  }

  predicate OneClaimPerKey(ledger: Ledger) {
    forall i, j | 0 <= i < j < |ledger| ::
      ledger[i].operatorId != ledger[j].operatorId || ledger[i].idempotencyKey != ledger[j].idempotencyKey
  }

  /** What may happen to one entry between two points of a run. */
  predicate MovedForward(before: Attempt, after: Attempt) {
    && after == before.(status := after.status, externalId := after.externalId)
    && Stage(before.status) <= Stage(after.status)
    && (before.externalId.Some? ==> after.externalId == before.externalId)
  }

  /**
   Over any run: entries are never removed or reordered, each keeps its claim, its status only moves
   later in the saga, its external id is written at most once, and every idempotency key has one claim.
   */
  lemma {:induction false} LedgerOnlyAdvances(ledger: Ledger, calls: seq<AttemptCall>)
    requires OneClaimPerKey(ledger)
    ensures OneClaimPerKey(AttemptRun(ledger, calls)) && |ledger| <= |AttemptRun(ledger, calls)|
    ensures forall i | 0 <= i < |ledger| :: MovedForward(ledger[i], AttemptRun(ledger, calls)[i])
  {
    hide AttemptStep, OneClaimPerKey;
    if calls != [] {
      var before, call := AttemptRun(ledger, calls[..|calls| - 1]), calls[|calls| - 1];
      LedgerOnlyAdvances(ledger, calls[..|calls| - 1]);
      StepMoves(before, call);
    }
  }

  lemma StepMoves(ledger: Ledger, call: AttemptCall)
    requires OneClaimPerKey(ledger)
    ensures var after := AttemptStep(ledger, call).0;
            && OneClaimPerKey(after) && |ledger| <= |after|
            && forall i | 0 <= i < |ledger| :: MovedForward(ledger[i], after[i])
  {
    hide Find, Stage;
  }

  predicate Won(ledger: Ledger, call: AttemptCall, attemptId: string, expected: AttemptStatus) {
    call.Advance? && call.attemptId == attemptId && call.expected == expected && AttemptStep(ledger, call).1 == None
  }

  /** How many advances of attemptId from `expected` succeeded. */
  function Wins(ledger: Ledger, calls: seq<AttemptCall>, attemptId: string, expected: AttemptStatus): nat {
    if calls == [] then 0
    else
      var before := calls[..|calls| - 1];
      Wins(ledger, before, attemptId, expected)
      + if Won(AttemptRun(ledger, before), calls[|calls| - 1], attemptId, expected) then 1 else 0
  }

  lemma FindStable(ledger: Ledger, call: AttemptCall, attemptId: string)
    requires Find(ledger, attemptId) < |ledger|
    ensures Find(AttemptStep(ledger, call).0, attemptId) == Find(ledger, attemptId)
  {
    var k, after := Find(ledger, attemptId), AttemptStep(ledger, call).0;
    assert forall i | 0 <= i <= k :: after[i].attemptId == ledger[i].attemptId;
  }

  /** The stage the attempt has reached, or -1 when there is none. */
  function Reached(ledger: Ledger, attemptId: string): int {
    var k := Find(ledger, attemptId);
    if k < |ledger| then Stage(ledger[k].status) else -1
  }

  lemma WinStep(ledger: Ledger, call: AttemptCall, attemptId: string, expected: AttemptStatus)
    ensures Reached(ledger, attemptId) <= Reached(AttemptStep(ledger, call).0, attemptId)
    ensures Won(ledger, call, attemptId, expected) ==>
              Reached(ledger, attemptId) == Stage(expected) < Reached(AttemptStep(ledger, call).0, attemptId)
  {
    if Find(ledger, attemptId) < |ledger| {
      FindStable(ledger, call, attemptId);
    }
  }

  /** Of any workers racing to advance an attempt from one status, at most one ever wins. */
  lemma {:induction false} AtMostOneWinner(ledger: Ledger, calls: seq<AttemptCall>,
                                           attemptId: string, expected: AttemptStatus)
    ensures Wins(ledger, calls, attemptId, expected) <= 1
    ensures Wins(ledger, calls, attemptId, expected) == 1 ==>
              Reached(AttemptRun(ledger, calls), attemptId) > Stage(expected)
  {
    if calls != [] {
      AtMostOneWinner(ledger, calls[..|calls| - 1], attemptId, expected);
      WinStep(AttemptRun(ledger, calls[..|calls| - 1]), calls[|calls| - 1], attemptId, expected);
    }
  }
}
