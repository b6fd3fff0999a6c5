/**
 InMemoryStore of veridex/store.py: the object whose dictionaries, lists and counters the methods
 update in place. A method has no await inside, so each call is one atomic step, and each is proved to
 be the step of the module that reasons about runs. A raised exception is a returned fault.
 */
module InMemoryStore {
  import opened Prelude
  import C = Competitions
  import R = RuntimeEvents
  import L = Leases
  import I = PublicAgents
  import P = Projection
  import S = Sorting

  class Store {
    var competitions: C.Table
    var runtimeEvents: seq<R.Event>
    var runtimeEventId: nat
    var runtimeEventUuids: set<string>
    var agentInstances: map<string, I.Instance>
    var publicAgents: map<string, I.PublicAgent>
    var instancePublicAgent: map<string, string>
    var projectedRows: P.RowTable
    var deploymentAttempts: L.Ledger
    var instanceLeases: L.LeaseTable

    /** Every instance and every projected row is filed under its own key. */
    ghost predicate Valid()
      reads this`agentInstances, this`projectedRows
    {
      && P.WellKeyed(projectedRows)
      && forall id | id in agentInstances :: agentInstances[id].instanceId == id
    }

    constructor ()
      ensures Valid()
      ensures competitions == map[] && Log() == R.EMPTY && projectedRows == map[]
      ensures Identities() == I.Identities(map[], map[], map[])
      ensures deploymentAttempts == [] && instanceLeases == map[]
    {
      competitions, projectedRows, deploymentAttempts, instanceLeases := map[], map[], [], map[];
      runtimeEvents, runtimeEventId, runtimeEventUuids := [], 0, {};
      agentInstances, publicAgents, instancePublicAgent := map[], map[], map[];
    }

    function Log(): R.Log
      reads this
    {
      R.Log(runtimeEvents, runtimeEventId, runtimeEventUuids)
    }

    function Identities(): I.Identities
      reads this
    {
      I.Identities(agentInstances, publicAgents, instancePublicAgent)
    }

    // -------------------------------------------------------------- competitions

    method CreateCompetition(competition: C.Competition) returns (fault: Option<C.Fault>)
      modifies this`competitions
      ensures (competitions, fault) == C.Step(old(competitions), C.Create(competition))
      ensures competition.id in old(competitions) ==>
                fault == Some(C.AlreadyExists) && competitions == old(competitions)
      ensures competition.id !in old(competitions) ==>
                fault == None && competitions == old(competitions)[competition.id := competition]
    {
      if competition.id in competitions { return Some(C.AlreadyExists); }
      competitions := competitions[competition.id := competition];
      return None;
    }

    method AddAgentEntryGuarded(id: string, entry: C.Entry, mutable: set<C.Status>) returns (fault: Option<C.Fault>)
      modifies this`competitions
      ensures (competitions, fault) == C.Step(old(competitions), C.AddEntry(id, entry, mutable))
      ensures fault.Some? ==> competitions == old(competitions)
      ensures id !in old(competitions) ==> fault == Some(C.NoCompetition)
      ensures id in old(competitions) ==>
                var c := old(competitions)[id];
                var known := exists i | 0 <= i < |c.entries| :: c.entries[i].agentId == entry.agentId;
                if c.status !in mutable then fault == Some(C.RosterFrozen)
                else if known then fault == Some(C.AlreadyRegistered)
                else if |c.entries| >= c.config["roster_size"].n then fault == Some(C.RosterFull)
                else fault == None && competitions == old(competitions)[id := c.(entries := c.entries + [entry])]
    {
      if id !in competitions { return Some(C.NoCompetition); }
      var competition := competitions[id];
      if competition.status !in mutable { return Some(C.RosterFrozen); }
      if exists i | 0 <= i < |competition.entries| :: competition.entries[i].agentId == entry.agentId {
        return Some(C.AlreadyRegistered);
      }
      if |competition.entries| >= C.RosterSize(competition.config) { return Some(C.RosterFull); }
      competitions := competitions[id := competition.(entries := competition.entries + [entry])];
      return None;
    }

    method UpdateCompetitionStatus(id: string, status: C.Status) returns (fault: Option<C.Fault>)
      modifies this`competitions
      ensures (competitions, fault) == C.Step(old(competitions), C.UpdateStatus(id, status))
      ensures id !in old(competitions) ==> fault == Some(C.NoCompetition) && competitions == old(competitions)
      ensures id in old(competitions) ==>
                fault == None && competitions == old(competitions)[id := old(competitions)[id].(status := status)]
    {
      if id !in competitions { return Some(C.NoCompetition); }
      competitions := competitions[id := competitions[id].(status := status)];
      return None;
    }

    method ClaimCompetitionRun(id: string, expected: C.Status, next: C.Status, runId: string)
      returns (fault: Option<C.Fault>)
      modifies this`competitions
      ensures (competitions, fault) == C.Step(old(competitions), C.Claim(id, expected, next, runId))
      ensures fault.Some? ==> competitions == old(competitions)
      ensures id !in old(competitions) ==> fault == Some(C.NoCompetition)
      ensures id in old(competitions) && old(competitions)[id].status != expected ==> fault == Some(C.StatusConflict)
      ensures id in old(competitions) && old(competitions)[id].status == expected ==>
                && fault == None
                && competitions == old(competitions)[id := old(competitions)[id].(status := next, runId := Some(runId))]
    {
      if id !in competitions { return Some(C.NoCompetition); }
      var competition := competitions[id];
      if competition.status != expected { return Some(C.StatusConflict); }
      competition := competition.(status := next);
      competition := competition.(runId := Some(runId));
      competitions := competitions[id := competition];
      return None;
    }

    method ReleaseCompetitionRun(id: string, expected: C.Status, next: C.Status) returns (fault: Option<C.Fault>)
      modifies this`competitions
      ensures (competitions, fault) == C.Step(old(competitions), C.Release(id, expected, next))
      ensures fault.Some? ==> competitions == old(competitions)
      ensures id !in old(competitions) ==> fault == Some(C.NoCompetition)
      ensures id in old(competitions) && old(competitions)[id].status != expected ==> fault == Some(C.StatusConflict)
      ensures id in old(competitions) && old(competitions)[id].status == expected ==>
                && fault == None
                && competitions == old(competitions)[id := old(competitions)[id].(status := next, runId := None)]
    {
      if id !in competitions { return Some(C.NoCompetition); }
      var competition := competitions[id];
      if competition.status != expected { return Some(C.StatusConflict); }
      competition := competition.(status := next);
      competition := competition.(runId := None);
      competitions := competitions[id := competition];
      return None;
    }

    method UpdateCompetitionRunId(id: string, runId: string) returns (fault: Option<C.Fault>)
      modifies this`competitions
      ensures (competitions, fault) == C.Step(old(competitions), C.UpdateRunId(id, runId))
      ensures id !in old(competitions) ==> fault == Some(C.NoCompetition) && competitions == old(competitions)
      ensures id in old(competitions) ==>
                fault == None && competitions == old(competitions)[id := old(competitions)[id].(runId := Some(runId))]
    {
      if id !in competitions { return Some(C.NoCompetition); }
      competitions := competitions[id := competitions[id].(runId := Some(runId))];
      return None;
    }

    method UpdateCompetitionConfig(id: string, config: C.Config) returns (fault: Option<C.Fault>)
      modifies this`competitions
      ensures (competitions, fault) == C.Step(old(competitions), C.UpdateConfig(id, config))
      ensures id !in old(competitions) ==> fault == Some(C.NoCompetition) && competitions == old(competitions)
      ensures id in old(competitions) ==>
                fault == None && competitions == old(competitions)[id := old(competitions)[id].(config := config)]
    {
      if id !in competitions { return Some(C.NoCompetition); }
      competitions := competitions[id := competitions[id].(config := config)];
      return None;
    }

    method UpdateCompetitionReplayBinding(id: string, binding: C.Binding) returns (fault: Option<C.Fault>)
      modifies this`competitions
      ensures (competitions, fault) == C.Step(old(competitions), C.FreezeBinding(id, binding))
      ensures id !in old(competitions) ==> fault == Some(C.NoCompetition) && competitions == old(competitions)
      ensures id in old(competitions) ==>
                var c := old(competitions)[id];
                && fault == None
                && competitions == if c.binding.Some? then old(competitions)
                                   else old(competitions)[id := c.(binding := Some(binding))]
    {
      if id !in competitions { return Some(C.NoCompetition); }
      if competitions[id].binding == None {
        competitions := competitions[id := competitions[id].(binding := Some(binding))];
      }
      assert competitions == old(competitions)[id := competitions[id]];
      return None;
    }

    // -------------------------------------------------------------- runtime events

    method AppendRuntimeEvents(rows: seq<R.Event>) returns (inserted: nat)
      modifies this`runtimeEvents, this`runtimeEventId, this`runtimeEventUuids
      ensures Log() == R.Append(old(Log()), rows)
      ensures inserted == |runtimeEvents| - |old(runtimeEvents)|
    {
      inserted := 0;
      assert rows[..0] == [];
      for k := 0 to |rows|
        invariant Log() == R.Append(old(Log()), rows[..k])
        invariant inserted == |runtimeEvents| - |old(runtimeEvents)|
      {
        assert rows[..k + 1][..k] == rows[..k];
        var row := rows[k];
        if row.uuid in runtimeEventUuids { continue; }
        runtimeEventUuids := runtimeEventUuids + {row.uuid};
        runtimeEventId := runtimeEventId + 1;
        runtimeEvents := runtimeEvents + [R.Event(runtimeEventId, row.uuid, row.agentId, row.runId, row.detail)];
        inserted := inserted + 1;
      }
      assert rows[..|rows|] == rows;
    }

    /** list_runtime_events and list_runtime_events_for_run: filter, sort by id, slice. */
    method ListRuntimeEvents(scope: R.Scope, since: int, limit: Option<int>) returns (page: seq<R.Event>)
      ensures page == R.List(Log(), scope, since, limit)
      ensures forall e | e in page :: e in runtimeEvents && e.id > since && R.Asked(e, scope)
      ensures forall i, j | 0 <= i < j < |page| :: page[i].id <= page[j].id
      ensures limit == None ==> forall e | e in runtimeEvents && e.id > since && R.Asked(e, scope) :: e in page
    {
      page := [];
      for k := 0 to |runtimeEvents|
        invariant page == R.Selected(runtimeEvents[..k], scope, since)
      {
        assert runtimeEvents[..k + 1][..k] == runtimeEvents[..k];
        if R.InScope(runtimeEvents[k], scope) && runtimeEvents[k].id > since {
          page := page + [runtimeEvents[k]];
        }
      }
      assert runtimeEvents[..|runtimeEvents|] == runtimeEvents;
      page := S.Sort(page, R.ById());
      page := R.Slice(page, limit);
      R.ListExactly(Log(), scope, since, limit);
    }

    // -------------------------------------------------------------- leases and attempts

    method AcquireInstanceLease(lease: L.Lease) returns (fault: Option<L.LeaseFault>)
      modifies this`instanceLeases
      ensures (instanceLeases, fault) == L.LeaseStep(old(instanceLeases), L.Acquire(lease))
      ensures lease.instanceId in old(instanceLeases) ==>
                fault == Some(L.DuplicateLease) && instanceLeases == old(instanceLeases)
      ensures lease.instanceId !in old(instanceLeases) ==>
                fault == None && instanceLeases == old(instanceLeases)[lease.instanceId := lease]
    {
      if lease.instanceId in instanceLeases { return Some(L.DuplicateLease); }
      instanceLeases := instanceLeases[lease.instanceId := lease];
      return None;
    }

    method ReleaseInstanceLease(instanceId: string, status: L.LeaseStatus, updatedAt: string)
      returns (r: Result<L.Lease, L.LeaseFault>)
      modifies this`instanceLeases
      ensures var (after, fault) := L.LeaseStep(old(instanceLeases), L.Move(instanceId, status, updatedAt));
              instanceLeases == after
              && r == if fault.Some? then Err(fault.value) else Ok(after[instanceId])
      ensures r.Err? ==> instanceLeases == old(instanceLeases)
      ensures instanceId !in old(instanceLeases) ==> r == Err(L.NoLease)
      ensures instanceId in old(instanceLeases) ==>
                var was := old(instanceLeases)[instanceId];
                if status == was.status then r == Ok(was) && instanceLeases == old(instanceLeases)
                else if was.status == L.Starting || (was.status == L.Active && status != L.Starting) then
                  && r == Ok(was.(status := status, updatedAt := updatedAt))
                  && instanceLeases == old(instanceLeases)[instanceId := r.value]
                else r == Err(L.IllegalTransition)
    {
      if instanceId !in instanceLeases { return Err(L.NoLease); }
      r := L.Transition(instanceLeases[instanceId], status, updatedAt);
      if r.Ok? {
        instanceLeases := instanceLeases[instanceId := r.value];
      }
    }

    method PersistDeploymentAttempt(attempt: L.Attempt) returns (fault: Option<L.AttemptFault>)
      modifies this`deploymentAttempts
      ensures (deploymentAttempts, fault) == L.AttemptStep(old(deploymentAttempts), L.Persist(attempt))
      ensures var taken := exists i | 0 <= i < |old(deploymentAttempts)| ::
                             old(deploymentAttempts)[i].operatorId == attempt.operatorId
                             && old(deploymentAttempts)[i].idempotencyKey == attempt.idempotencyKey;
              if taken then fault == Some(L.DuplicateAttempt) && deploymentAttempts == old(deploymentAttempts)
              else fault == None && deploymentAttempts == old(deploymentAttempts) + [attempt]
    {
      for k := 0 to |deploymentAttempts|
        invariant deploymentAttempts == old(deploymentAttempts)
        invariant !L.Claimed(deploymentAttempts[..k], attempt.operatorId, attempt.idempotencyKey)
      {
        var other := deploymentAttempts[k];
        if other.operatorId == attempt.operatorId && other.idempotencyKey == attempt.idempotencyKey {
          return Some(L.DuplicateAttempt);
        }
      }
      assert deploymentAttempts[..|deploymentAttempts|] == deploymentAttempts;
      deploymentAttempts := deploymentAttempts + [attempt];
      return None;
    }

    method FindAttempt(attemptId: string) returns (k: nat)
      ensures k == L.Find(deploymentAttempts, attemptId)
    {
      k := 0;
      while k < |deploymentAttempts| && deploymentAttempts[k].attemptId != attemptId
        invariant k <= |deploymentAttempts|
        invariant forall i | 0 <= i < k :: deploymentAttempts[i].attemptId != attemptId
      {
        k := k + 1;
      }
    }

    method AdvanceDeploymentAttempt(attemptId: string, expected: L.AttemptStatus, next: L.AttemptStatus,
                                    externalId: Option<string>)
      returns (r: Result<L.Attempt, L.AttemptFault>)
      modifies this`deploymentAttempts
      ensures var call := L.Advance(attemptId, expected, next, externalId);
              var (after, fault) := L.AttemptStep(old(deploymentAttempts), call);
              deploymentAttempts == after
              && (if fault.Some? then r == Err(fault.value)
                  else L.Find(old(deploymentAttempts), attemptId) < |after|
                       && r == Ok(after[L.Find(old(deploymentAttempts), attemptId)]))
      ensures r.Err? ==> deploymentAttempts == old(deploymentAttempts)
      ensures (forall i | 0 <= i < |old(deploymentAttempts)| :: old(deploymentAttempts)[i].attemptId != attemptId) ==>
                r == Err(L.NoAttempt)
      ensures forall k: nat | L.IsFirst(old(deploymentAttempts), attemptId, k) ::
                var was := old(deploymentAttempts)[k];
                if was.status != expected then r == Err(L.CasConflict)
                else if !L.Later(next, expected) then r == Err(L.Rewind)
                else if externalId.Some? && was.externalId.Some? && externalId != was.externalId then
                  r == Err(L.ExternalIdTaken)
                else
                  && r == Ok(was.(status := next,
                                  externalId := if was.externalId.Some? then was.externalId else externalId))
                  && deploymentAttempts == old(deploymentAttempts)[k := r.value]
    {
      hide L.Find, L.Stage, L.Later;
      var k := FindAttempt(attemptId);
      L.StagesInOrder(next, expected);
      if k == |deploymentAttempts| { return Err(L.NoAttempt); }
      var current := deploymentAttempts[k];
      if current.status != expected { return Err(L.CasConflict); }
      if L.Stage(next) <= L.Stage(current.status) { return Err(L.Rewind); }
      var advanced := current.(status := next);
      if externalId.Some? && current.externalId.Some? && current.externalId != externalId {
        return Err(L.ExternalIdTaken);
      }
      var pinned := if current.externalId.Some? then current.externalId else externalId;
      advanced := advanced.(externalId := pinned);
      deploymentAttempts := deploymentAttempts[k := advanced];
      return Ok(advanced);
    }

    // -------------------------------------------------------------- instances and public agents

    method PersistAgentInstance(instance: I.Instance)
      modifies this`agentInstances
      ensures agentInstances == old(agentInstances)[instance.instanceId := instance]
      ensures old(Valid()) ==> Valid()
    {
      agentInstances := agentInstances[instance.instanceId := instance];
    }

    method ListAgentInstances() returns (order: seq<I.Instance>)
      requires Valid()
      ensures I.IsListing(order, agentInstances)
    {
      order := [];
      var left := agentInstances.Keys;
      while left != {}
        invariant left <= agentInstances.Keys
        invariant forall i | 0 <= i < |order| ::
                    order[i].instanceId in agentInstances && order[i].instanceId !in left
                    && agentInstances[order[i].instanceId] == order[i]
        invariant forall i, j | 0 <= i < j < |order| :: order[i].instanceId != order[j].instanceId
        invariant forall id | id in agentInstances && id !in left :: agentInstances[id] in order
        decreases left
      {
        var id :| id in left;
        order := order + [agentInstances[id]];
        left := left - {id};
      }
    }

    method PersistPublicAgent(agent: I.PublicAgent)
      modifies this`publicAgents
      ensures Identities() == I.PersistAgent(old(Identities()), agent)
      ensures publicAgents == old(publicAgents)[agent.publicAgentId := agent]
    {
      publicAgents := publicAgents[agent.publicAgentId := agent];
    }

    method SetPublicAgentVisibility(id: string, visibility: I.Visibility, updatedAt: string) returns (found: bool)
      modifies this`publicAgents
      ensures found <==> id in old(publicAgents)
      ensures publicAgents == if found then P.WithVisibility(old(publicAgents), id, visibility, updatedAt)
                              else old(publicAgents)
      ensures found ==>
                var was := old(publicAgents)[id];
                && publicAgents.Keys == old(publicAgents).Keys
                && publicAgents[id]
                   == was.(visibility := visibility, updatedAt := updatedAt, version := was.version + 1)
                && forall other | other in publicAgents && other != id ::
                     publicAgents[other] == old(publicAgents)[other]
    {
      if id !in publicAgents { return false; }
      var stored := publicAgents[id];
      publicAgents := publicAgents[id := stored.(visibility := visibility, updatedAt := updatedAt,
                                                 version := stored.version + 1)];
      return true;
    }

    method LinkInstancePublicAgent(instanceId: string, publicAgentId: string) returns (fault: Option<I.LinkFault>)
      modifies this`instancePublicAgent
      ensures match I.Link(old(Identities()), instanceId, publicAgentId)
              case Err(f) => fault == Some(f) && Identities() == old(Identities())
              case Ok(after) => fault == None && Identities() == after
      ensures fault == if instanceId !in agentInstances then Some(I.NoInstance)
                       else if publicAgentId !in publicAgents then Some(I.NoAgent) else None
      ensures instancePublicAgent == if fault == None then old(instancePublicAgent)[instanceId := publicAgentId]
                                     else old(instancePublicAgent)
    {
      if instanceId !in agentInstances { return Some(I.NoInstance); }
      if publicAgentId !in publicAgents { return Some(I.NoAgent); }
      instancePublicAgent := instancePublicAgent[instanceId := publicAgentId];
      return None;
    }

    // -------------------------------------------------------------- projected rows

    method PersistProjectedRows(rows: seq<P.PublicRow>)
      modifies this`projectedRows
      ensures projectedRows == P.Persist(old(projectedRows), rows)
      ensures old(Valid()) ==> Valid()
    {
      assert rows[..0] == [];
      for k := 0 to |rows|
        invariant projectedRows == P.Persist(old(projectedRows), rows[..k])
      {
        assert rows[..k + 1][..k] == rows[..k];
        projectedRows := projectedRows[P.RowKey(rows[k]) := rows[k]];
      }
      assert rows[..|rows|] == rows;
      if P.WellKeyed(old(projectedRows)) {
        P.PersistWellKeyed(old(projectedRows), rows);
      }
    }

    method ListProjectedRows() returns (order: seq<P.PublicRow>)
      requires Valid()
      ensures P.IsRowListing(order, projectedRows)
    {
      order := [];
      var left := projectedRows.Keys;
      while left != {}
        invariant left <= projectedRows.Keys
        invariant forall i | 0 <= i < |order| ::
                    P.RowKey(order[i]) in projectedRows && P.RowKey(order[i]) !in left
                    && projectedRows[P.RowKey(order[i])] == order[i]
        invariant forall i, j | 0 <= i < j < |order| :: P.RowKey(order[i]) != P.RowKey(order[j])
        invariant forall k | k in projectedRows && k !in left :: projectedRows[k] in order
        decreases left
      {
        var k :| k in left;
        order := order + [projectedRows[k]];
        left := left - {k};
      }
    }
  }
}
