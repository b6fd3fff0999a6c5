/**
 Competition records of veridex/store.py and what runs of their calls keep: admission, claim, release,
 status and run-id writes, config rewrite and replay-binding freeze, by any number of callers. Each store
 method has no await inside, so one call is one atomic step. Each result is exact: it names the calls under
 which it holds, and the ones the program makes on both sides of that line.
 */
module Competitions {
  import opened Prelude

  datatype Json =
    | JNull | JInt(n: int) | JStr(s: string) | JArr(items: seq<Json>) | JObj(fields: map<string, Json>)

  datatype Status = Draft | Open | Running | Finalized

  const CONFIG_FIELDS: set<string> := {
    "competition_type", "source_mode", "execution_mode", "market_scope", "scoring_window",
    "roster_size", "division", "reward_policy", "prize_vault_ref", "operator_id",
    "policy_envelope", "pack_id", "fixture_id"
  }

  /** CompetitionConfig, as its validated fields; only roster_size (at least 2) is looked into. */
  type Config = m: map<string, Json> | ValidConfig(m)
    witness map k | k in CONFIG_FIELDS :: if k == "roster_size" then JInt(2) else JNull

  predicate ValidConfig(m: map<string, Json>) {
    m.Keys == CONFIG_FIELDS && m["roster_size"].JInt? && m["roster_size"].n >= 2
  }

  function RosterSize(c: Config): nat {
    c["roster_size"].n
  }

  datatype Binding = Binding(packId: string, fixtureId: int, contentHash: string)

  /** AgentEntry: the id the roster is keyed on, and the other declared fields. */
  datatype Entry = Entry(agentId: string, declared: Json)

  datatype Competition = Competition(
    id: string, config: Config, status: Status, entries: seq<Entry>,
    runId: Option<string>, ownerId: Option<string>, binding: Option<Binding>)

  type Table = map<string, Competition>

  datatype Fault = AlreadyExists | NoCompetition | RosterFrozen | AlreadyRegistered | RosterFull | StatusConflict

  datatype Call =
    | Create(competition: Competition)
    | AddEntry(id: string, entry: Entry, mutable: set<Status>)
    | UpdateStatus(id: string, status: Status)
    | Claim(id: string, expected: Status, next: Status, runId: string)
    | Release(id: string, expected: Status, next: Status)
    | UpdateRunId(id: string, runId: string)
    | UpdateConfig(id: string, config: Config)
    | FreezeBinding(id: string, binding: Binding)

  predicate Registered(entries: seq<Entry>, agentId: string) {
    exists i | 0 <= i < |entries| :: entries[i].agentId == agentId
  }

  function Target(call: Call): string {
    if call.Create? then call.competition.id else call.id
  }

  /** The record after a call that found it, or the refusal. */
  function Apply(c: Competition, call: Call): Result<Competition, Fault>
    requires !call.Create?
  {
    match call
    case AddEntry(_, entry, mutable) =>
      if c.status !in mutable then Err(RosterFrozen)
      else if Registered(c.entries, entry.agentId) then Err(AlreadyRegistered)
      else if |c.entries| >= RosterSize(c.config) then Err(RosterFull)
      else Ok(c.(entries := c.entries + [entry]))
    case UpdateStatus(_, status) => Ok(c.(status := status))
    case Claim(_, expected, next, runId) =>
      if c.status != expected then Err(StatusConflict) else Ok(c.(status := next, runId := Some(runId)))
    case Release(_, expected, next) =>
      if c.status != expected then Err(StatusConflict) else Ok(c.(status := next, runId := None))
    case UpdateRunId(_, runId) => Ok(c.(runId := Some(runId)))
    case UpdateConfig(_, config) => Ok(c.(config := config))
    case FreezeBinding(_, binding) => Ok(if c.binding == None then c.(binding := Some(binding)) else c)
  }

  /** One call on the whole table: a refused call changes nothing. */
  function Step(table: Table, call: Call): (Table, Option<Fault>) {
    var id := Target(call);
    if call.Create? then
      if id in table then (table, Some(AlreadyExists)) else (table[id := call.competition], None)
    else if id !in table then (table, Some(NoCompetition))
    else
      match Apply(table[id], call)
      case Err(fault) => (table, Some(fault))
      case Ok(c) => (table[id := c], None)
  }

  function Run(table: Table, calls: seq<Call>): Table {
    if calls == [] then table else Step(Run(table, calls[..|calls| - 1]), calls[|calls| - 1]).0
  }

  // ---------------------------------------------------------------- runs, call by call

  /** p holds at the start and after every call. */
  ghost predicate Throughout(calls: seq<Call>, p: seq<Call> -> bool) {
    forall k | 0 <= k <= |calls| :: p(calls[..k])
  }

  /** Every call meets g in the state it finds. */
  ghost predicate EachCall(table: Table, calls: seq<Call>, g: (Table, Call) -> bool) {
    forall k | 0 <= k < |calls| :: g(Run(table, calls[..k]), calls[k])
  }

  lemma EachCallSnoc(table: Table, calls: seq<Call>, call: Call, g: (Table, Call) -> bool)
    ensures EachCall(table, calls + [call], g) <==> EachCall(table, calls, g) && g(Run(table, calls), call)
  {
    hide Run;
    var all := calls + [call];
    assert all[..|calls|] == calls && all[|calls|] == call;
    assert forall k | 0 <= k < |calls| :: all[..k] == calls[..k] && all[k] == calls[k];
  }

  lemma ThroughoutSnoc(calls: seq<Call>, call: Call, p: seq<Call> -> bool)
    ensures Throughout(calls + [call], p) <==> Throughout(calls, p) && p(calls + [call])
  {
    var all := calls + [call];
    assert all[..|all|] == all;
    assert forall k | 0 <= k <= |calls| :: all[..k] == calls[..k];
  }

  /** What each single step keeps exactly when g holds, a whole run keeps exactly when g holds of every call. */
  lemma {:induction false} StepwiseExactly(table: Table, calls: seq<Call>, p: seq<Call> -> bool,
                                          g: (Table, Call) -> bool)
    requires p([])
    requires forall before, call | p(before) :: p(before + [call]) <==> g(Run(table, before), call)
    ensures Throughout(calls, p) <==> EachCall(table, calls, g)
  {
    hide Run;
    if calls == [] {
      assert calls[..0] == [];
    } else {
      var before, call := calls[..|calls| - 1], calls[|calls| - 1];
      assert calls == before + [call];
      StepwiseExactly(table, before, p, g);
      ThroughoutSnoc(before, call, p);
      EachCallSnoc(table, before, call, g);
      assert Throughout(before, p) ==> p(before) by {
        assert before[..|before|] == before;
      }
    }
  }

  lemma RunSnoc(table: Table, calls: seq<Call>, call: Call)
    ensures Run(table, calls + [call]) == Step(Run(table, calls), call).0
  {
    assert (calls + [call])[..|calls|] == calls;
  }

  // ---------------------------------------------------------------- well-kept records

  const MUTABLE: set<Status> := {Draft, Open}

  /** A roster of distinct agents within its cap, and a run id exactly while claimed. */
  predicate Kept(c: Competition) {
    && (c.runId.Some? <==> c.status !in MUTABLE)
    && |c.entries| <= RosterSize(c.config)
    && forall i, j | 0 <= i < j < |c.entries| :: c.entries[i].agentId != c.entries[j].agentId
  }

  predicate AllKept(table: Table) {
    forall id | id in table :: Kept(table[id])
  }

  /** What a caller can check before the call: the record stays well kept. */
  predicate HarmlessTo(c: Competition, call: Call) {
    match call
    case Create(_) => true
    case Claim(_, expected, next, _) => c.status == expected ==> next !in MUTABLE
    case Release(_, expected, next) => c.status == expected ==> next in MUTABLE
    case UpdateStatus(_, status) => status in MUTABLE <==> c.runId == None
    case UpdateRunId(_, _) => c.status !in MUTABLE
    case UpdateConfig(_, config) => |c.entries| <= RosterSize(config)
    case AddEntry(_, _, _) => true
    case FreezeBinding(_, _) => true
  }

  predicate Harmless(table: Table, call: Call) {
    var id := Target(call);
    if id in table then HarmlessTo(table[id], call) else call.Create? ==> Kept(call.competition)
  }

  lemma ApplyKeepsExactly(c: Competition, call: Call)
    requires Kept(c) && !call.Create? && Apply(c, call).Ok?
    ensures Kept(Apply(c, call).value) <==> HarmlessTo(c, call)
  {
    if call.AddEntry? {
      AdmittedIsKept(c, call.entry, call.mutable);
    }
  }

  lemma AdmittedIsKept(c: Competition, entry: Entry, mutable: set<Status>)
    requires Kept(c) && Apply(c, AddEntry(c.id, entry, mutable)).Ok?
    ensures Kept(c.(entries := c.entries + [entry]))
  {
  }

  /** A refused call harms nothing. */
  lemma RefusedIsHarmless(c: Competition, call: Call)
    requires !call.Create? && Apply(c, call).Err?
    ensures HarmlessTo(c, call)
  {
  }

  lemma StepKeepsExactly(table: Table, call: Call)
    requires AllKept(table)
    ensures AllKept(Step(table, call).0) <==> Harmless(table, call)
  {
    hide Kept, Apply, HarmlessTo;
    var id := Target(call);
    if call.Create? {
      if id in table {
        CreateAgainIsHarmless(table[id], call);
      } else {
        OneRecordChanged(table, id, call.competition);
      }
    } else if id in table {
      if Apply(table[id], call).Ok? {
        ApplyKeepsExactly(table[id], call);
        OneRecordChanged(table, id, Apply(table[id], call).value);
      } else {
        RefusedIsHarmless(table[id], call);
      }
    }
  }

  lemma CreateAgainIsHarmless(c: Competition, call: Call)
    requires call.Create?
    ensures HarmlessTo(c, call)
  {
  }

  lemma OneRecordChanged(table: Table, id: string, c: Competition)
    requires AllKept(table)
    ensures AllKept(table[id := c]) <==> Kept(c)
  {
    hide Kept;
    assert id in table[id := c] && table[id := c][id] == c;
  }

  function KeptAfter(table: Table): seq<Call> -> bool {
    calls => AllKept(Run(table, calls))
  }

  /** Over any calls at all, every record stays well kept throughout exactly when every call is harmless. */
  lemma RunKeepsExactly(table: Table, calls: seq<Call>)
    requires AllKept(table)
    ensures Throughout(calls, KeptAfter(table)) <==> EachCall(table, calls, Harmless)
  {
    hide AllKept, Harmless, Step, Throughout, EachCall;
    forall before, call | KeptAfter(table)(before)
      ensures KeptAfter(table)(before + [call]) <==> Harmless(Run(table, before), call)
    {
      RunSnoc(table, before, call);
      StepKeepsExactly(Run(table, before), call);
    }
    StepwiseExactly(table, calls, KeptAfter(table), Harmless);
  }

  // ---------------------------------------------------------------- claims and releases alternate

  datatype Mark = Won(runId: string) | GaveBack

  /** The claim or release of id that this call made, if it made one. */
  function MarkOf(table: Table, call: Call, id: string): Option<Mark> {
    if Target(call) != id || Step(table, call).1.Some? then None
    else if call.Claim? then Some(Won(call.runId))
    else if call.Release? then Some(GaveBack)
    else None
  }

  /** The claims and releases of one competition that succeeded, in order. */
  function Marks(table: Table, calls: seq<Call>, id: string): seq<Mark> {
    if calls == [] then []
    else
      var earlier := Marks(table, calls[..|calls| - 1], id);
      match MarkOf(Run(table, calls[..|calls| - 1]), calls[|calls| - 1], id)
      case None => earlier
      case Some(mark) => earlier + [mark]
  }

  predicate Alternating(marks: seq<Mark>) {
    forall i | 0 <= i < |marks| :: marks[i].Won? <==> i % 2 == 0
  }

  /** The run id a competition stores, given its marks. */
  function Holder(marks: seq<Mark>): Option<string> {
    if marks == [] || marks[|marks| - 1] == GaveBack then None else Some(marks[|marks| - 1].runId)
  }

  lemma MarksSnoc(table: Table, calls: seq<Call>, call: Call, id: string)
    ensures Marks(table, calls + [call], id)
         == match MarkOf(Run(table, calls), call, id)
            case None => Marks(table, calls, id)
            case Some(mark) => Marks(table, calls, id) + [mark]
  {
    assert (calls + [call])[..|calls|] == calls;
  }

  /** The call wins only a competition nobody holds, gives back only a held one, and never writes a run id otherwise. */
  predicate Fair(table: Table, call: Call, id: string) {
    Target(call) != id
    || (if call.Create? then id in table || call.competition.runId == None
        else
          id in table ==>
            var c := table[id];
            match call
            case Claim(_, expected, _, _) => c.status == expected ==> c.runId == None
            case Release(_, expected, _) => c.status == expected ==> c.runId.Some?
            case UpdateRunId(_, runId) => c.runId == Some(runId)
            case _ => true)
  }

  function FairTo(id: string): (Table, Call) -> bool {
    (table, call) => Fair(table, call, id)
  }

  /** Wins and give-backs alternate, starting with a win, and the stored run id is that of the last winner. */
  predicate Tracked(after: Table, marks: seq<Mark>, id: string) {
    Alternating(marks) && if id in after then after[id].runId == Holder(marks) else marks == []
  }

  function TrackedAfter(table: Table, id: string): seq<Call> -> bool {
    calls => Tracked(Run(table, calls), Marks(table, calls, id), id)
  }

  lemma AppendMark(marks: seq<Mark>, mark: Mark)
    requires Alternating(marks)
    ensures Alternating(marks + [mark]) <==> (mark.Won? <==> Holder(marks) == None)
    ensures Holder(marks + [mark]) == if mark.Won? then Some(mark.runId) else None
  {
    var more := marks + [mark];
    assert forall i | 0 <= i < |marks| :: more[i] == marks[i];
    assert more[|marks|] == mark;
    if marks != [] {
      assert marks[|marks| - 1].Won? <==> (|marks| - 1) % 2 == 0;
    }
  }

  lemma StepTracksExactly(table: Table, marks: seq<Mark>, call: Call, id: string)
    requires Tracked(table, marks, id)
    ensures var more := match MarkOf(table, call, id) case None => marks case Some(mark) => marks + [mark];
            Tracked(Step(table, call).0, more, id) <==> Fair(table, call, id)
  {
    hide Alternating, Holder;
    NothingTracked();
    var mark := MarkOf(table, call, id);
    if mark.Some? {
      AppendMark(marks, mark.value);
    }
  }

  lemma NothingTracked()
    ensures Alternating([]) && Holder([]) == None
  {
  }

  /**
   Over any calls at all, wins and give-backs of a competition alternate and its stored run id is always that
   of the last winner, exactly when every call is fair to it.
   */
  lemma ClaimsAlternateExactly(table: Table, calls: seq<Call>, id: string)
    requires id in table ==> table[id].runId == None
    ensures Throughout(calls, TrackedAfter(table, id)) <==> EachCall(table, calls, FairTo(id))
  {
    hide Tracked, Fair, Step, Throughout, EachCall, MarkOf;
    assert TrackedAfter(table, id)([]) by {
      NoCallsTracked(table, id);
    }
    forall before, call | TrackedAfter(table, id)(before)
      ensures TrackedAfter(table, id)(before + [call]) <==> FairTo(id)(Run(table, before), call)
    {
      RunSnoc(table, before, call);
      MarksSnoc(table, before, call, id);
      StepTracksExactly(Run(table, before), Marks(table, before, id), call, id);
    }
    StepwiseExactly(table, calls, TrackedAfter(table, id), FairTo(id));
  }

  lemma NoCallsTracked(table: Table, id: string)
    requires id in table ==> table[id].runId == None
    ensures Tracked(Run(table, []), Marks(table, [], id), id)
  {
  }

  // ---------------------------------------------------------------- what stays frozen

  /** Since `table`, the competition stayed out of the mutable statuses with its roster and its run id. */
  predicate FrozenSince(table: Table, after: Table, id: string)
    requires id in table
  {
    && id in after && after[id].status !in MUTABLE
    && after[id].entries == table[id].entries && after[id].runId == table[id].runId
  }

  function FrozenAfter(table: Table, id: string): seq<Call> -> bool
    requires id in table
  {
    calls => FrozenSince(table, Run(table, calls), id)
  }

  /** What a caller can check before the call: it neither reopens a claimed competition nor takes it over. */
  predicate Respects(table: Table, call: Call, id: string) {
    Target(call) != id || call.Create? || id !in table
    || var c := table[id];
       match call
       case AddEntry(_, entry, mutable) =>
         c.status !in mutable || Registered(c.entries, entry.agentId) || |c.entries| >= RosterSize(c.config)
       case UpdateStatus(_, status) => status !in MUTABLE
       case Claim(_, expected, next, runId) => c.status == expected ==> next !in MUTABLE && c.runId == Some(runId)
       case Release(_, expected, next) => c.status == expected ==> next !in MUTABLE && c.runId == None
       case UpdateRunId(_, runId) => c.runId == Some(runId)
       case UpdateConfig(_, _) => true
       case FreezeBinding(_, _) => true
  }

  function RespectsClaimOf(id: string): (Table, Call) -> bool {
    (table, call) => Respects(table, call, id)
  }

  lemma StepFreezesExactly(table: Table, now: Table, call: Call, id: string)
    requires id in table && FrozenSince(table, now, id)
    ensures FrozenSince(table, Step(now, call).0, id) <==> Respects(now, call, id)
  {
    var c := now[id];
    if call.AddEntry? {
      assert |c.entries + [call.entry]| != |c.entries|;
    }
  }

  /** From a claim on, roster, run id and closed status are kept throughout exactly when every call respects it. */
  lemma RosterFrozenExactly(table: Table, calls: seq<Call>, id: string)
    requires id in table && table[id].status !in MUTABLE
    ensures Throughout(calls, FrozenAfter(table, id)) <==> EachCall(table, calls, RespectsClaimOf(id))
  {
    hide FrozenSince, Respects, Step, Throughout, EachCall;
    assert FrozenAfter(table, id)([]) by {
      FrozenAtOnce(table, id);
    }
    forall before, call | FrozenAfter(table, id)(before)
      ensures FrozenAfter(table, id)(before + [call]) <==> RespectsClaimOf(id)(Run(table, before), call)
    {
      RunSnoc(table, before, call);
      StepFreezesExactly(table, Run(table, before), call, id);
    }
    StepwiseExactly(table, calls, FrozenAfter(table, id), RespectsClaimOf(id));
  }

  lemma FrozenAtOnce(table: Table, id: string)
    requires id in table && table[id].status !in MUTABLE
    ensures FrozenSince(table, Run(table, []), id)
  {
  }

  // ---------------------------------------------------------------- the program's own callers

  /**
   How creation, registration, the arena and the draft editor call the store: claims and releases compare
   and set, finalizing happens while the claim is held, and a config rewrite keeps the roster size.
   */
  predicate Guarded(table: Table, call: Call) {
    match call
    case Create(c) => c.status in MUTABLE && c.runId == None && c.entries == []
    case AddEntry(_, _, mutable) => mutable <= MUTABLE
    case Claim(_, expected, next, _) => expected in MUTABLE && next == Running
    case Release(_, expected, next) => expected == Running && next in MUTABLE
    case UpdateStatus(id, status) => status == Finalized && id in table && table[id].status == Running
    case UpdateConfig(id, config) => id in table ==> RosterSize(config) == RosterSize(table[id].config)
    case FreezeBinding(_, _) => true
    case UpdateRunId(_, _) => false
  }

  /** On a well-kept store a guarded call meets all three conditions, but for a give-back of the claim itself. */
  lemma GuardedMeetsAll(table: Table, call: Call, id: string)
    requires AllKept(table) && Guarded(table, call)
    ensures Harmless(table, call) && Fair(table, call, id)
    ensures id in table && table[id].status !in MUTABLE ==>
              (Respects(table, call, id) <==> MarkOf(table, call, id) != Some(GaveBack))
  {
    if Target(call) in table {
      assert Kept(table[Target(call)]);
    }
  }

  /** A guarded run is harmless and fair from first to last. */
  lemma {:induction false} GuardedRunMeetsAll(table: Table, calls: seq<Call>, id: string)
    requires AllKept(table) && EachCall(table, calls, Guarded)
    ensures AllKept(Run(table, calls)) && EachCall(table, calls, Harmless) && EachCall(table, calls, FairTo(id))
  {
    hide AllKept, Guarded, Harmless, Fair, EachCall, Step;
    if calls == [] {
      NoCalls(table, Harmless);
      NoCalls(table, FairTo(id));
    } else {
      var before, call := calls[..|calls| - 1], calls[|calls| - 1];
      assert calls == before + [call];
      EachCallSnoc(table, before, call, Guarded);
      GuardedRunMeetsAll(table, before, id);
      GuardedMeetsAll(Run(table, before), call, id);
      StepKeepsExactly(Run(table, before), call);
      EachCallSnoc(table, before, call, Harmless);
      EachCallSnoc(table, before, call, FairTo(id));
    }
  }

  /**
   However many guarded callers race, at every moment every record is well kept, and wins and give-backs of
   every competition alternate with the last winner's run id stored.
   */
  lemma GuardedCallersRaceSafely(table: Table, calls: seq<Call>, id: string)
    requires AllKept(table) && EachCall(table, calls, Guarded)
    requires id in table ==> table[id].runId == None
    ensures Throughout(calls, KeptAfter(table)) && Throughout(calls, TrackedAfter(table, id))
  {
    hide Throughout, EachCall, Run;
    GuardedRunMeetsAll(table, calls, id);
    RunKeepsExactly(table, calls);
    ClaimsAlternateExactly(table, calls, id);
  }

  /** From a claim on, guarded callers respect it to the end exactly when none of them gives it back. */
  lemma {:induction false} GuardedRunRespects(table: Table, calls: seq<Call>, id: string)
    requires AllKept(table) && EachCall(table, calls, Guarded)
    requires id in table && table[id].status !in MUTABLE
    ensures EachCall(table, calls, RespectsClaimOf(id)) <==> GaveBack !in Marks(table, calls, id)
  {
    hide AllKept, Guarded, Respects, EachCall, Step, Throughout, MarkOf, Marks, Run;
    if calls == [] {
      NoCalls(table, RespectsClaimOf(id));
      NothingRun(table, id);
    } else {
      var before, call := calls[..|calls| - 1], calls[|calls| - 1];
      assert calls == before + [call];
      EachCallSnoc(table, before, call, Guarded);
      EachCallSnoc(table, before, call, RespectsClaimOf(id));
      MarksSnoc(table, before, call, id);
      GuardedRunRespects(table, before, id);
      if EachCall(table, before, RespectsClaimOf(id)) {
        RosterFrozenExactly(table, before, id);
        AtTheEnd(before, FrozenAfter(table, id));
        GuardedRunMeetsAll(table, before, id);
        GuardedMeetsAll(Run(table, before), call, id);
      }
    }
  }

  lemma AtTheEnd(calls: seq<Call>, p: seq<Call> -> bool)
    requires Throughout(calls, p)
    ensures p(calls)
  {
    assert calls[..|calls|] == calls;
  }

  /** Among guarded callers a claim freezes roster, run id and status throughout exactly when nobody gives it back. */
  lemma GuardedClaimFreezesExactly(table: Table, calls: seq<Call>, id: string)
    requires AllKept(table) && EachCall(table, calls, Guarded)
    requires id in table && table[id].status !in MUTABLE
    ensures Throughout(calls, FrozenAfter(table, id)) <==> GaveBack !in Marks(table, calls, id)
  {
    hide Throughout, EachCall, Run, Marks;
    GuardedRunRespects(table, calls, id);
    RosterFrozenExactly(table, calls, id);
  }

  lemma NoCalls(table: Table, g: (Table, Call) -> bool)
    ensures EachCall(table, [], g) && Run(table, []) == table
  {
  }

  /** The start route's status write leaves a well-kept unclaimed competition running with no run id. */
  lemma StartLeavesNoRunId(table: Table, id: string)
    requires AllKept(table) && id in table && table[id].status in MUTABLE
    ensures var after := Run(table, [UpdateStatus(id, Running)]);
            && id in after && after[id].status == Running && after[id].runId == None && !AllKept(after)
            && !Harmless(table, UpdateStatus(id, Running))
  {
    assert Kept(table[id]);
    RunSnoc(table, [], UpdateStatus(id, Running));
    assert [] + [UpdateStatus(id, Running)] == [UpdateStatus(id, Running)];
  }

  /** Racing an arena claim, the start route overwrites the run id of the caller that won. */
  lemma StartOverwritesTheWinner(table: Table, id: string, won: string, started: string)
    requires AllKept(table) && id in table && table[id].status in MUTABLE && won != started
    ensures var claim := Claim(id, table[id].status, Running, won);
            var calls := [claim, UpdateStatus(id, Running), UpdateRunId(id, started)];
            && Marks(table, calls, id) == [Won(won)]
            && id in Run(table, calls) && Run(table, calls)[id].runId == Some(started)
            && !Fair(Run(table, calls[..2]), calls[2], id)
  {
    hide Run, Marks, Step, MarkOf, Fair;
    var (a, b, c) := (Claim(id, table[id].status, Running, won), UpdateStatus(id, Running), UpdateRunId(id, started));
    assert [] + [a] == [a] && [a] + [b] == [a, b] && [a, b] + [c] == [a, b, c] && [a, b, c][..2] == [a, b];
    RaceStepByStep(table, id, won, started);
    NothingRun(table, id);
    RunSnoc(table, [], a);
    MarksSnoc(table, [], a, id);
    RunSnoc(table, [a], b);
    MarksSnoc(table, [a], b, id);
    RunSnoc(table, [a, b], c);
    MarksSnoc(table, [a, b], c, id);
  }

  lemma RaceStepByStep(table: Table, id: string, won: string, started: string)
    requires id in table && table[id].status in MUTABLE && won != started
    ensures var claimed := table[id := table[id].(status := Running, runId := Some(won))];
            var a := Claim(id, table[id].status, Running, won);
            var (b, c) := (UpdateStatus(id, Running), UpdateRunId(id, started));
            && Step(table, a).0 == claimed == Step(claimed, b).0
            && id in Step(claimed, c).0 && Step(claimed, c).0[id].runId == Some(started)
            && MarkOf(table, a, id) == Some(Won(won)) && MarkOf(claimed, b, id) == None == MarkOf(claimed, c, id)
            && !Fair(claimed, c, id)
  {
    var was := table[id];
    var claimed := table[id := was.(status := Running, runId := Some(won))];
    assert claimed[id := claimed[id]] == claimed;
  }

  lemma NothingRun(table: Table, id: string)
    ensures Run(table, []) == table && Marks(table, [], id) == []
  {
  }

  /** The first binding frozen onto id, if any. */
  function FirstFrozen(calls: seq<Call>, id: string): Option<Binding> {
    if calls == [] then None
    else
      match FirstFrozen(calls[..|calls| - 1], id)
      case Some(b) => Some(b)
      case None =>
        var call := calls[|calls| - 1];
        if call.FreezeBinding? && call.id == id then Some(call.binding) else None
  }

  lemma BindingStep(table: Table, call: Call, id: string)
    requires id in table
    ensures id in Step(table, call).0
    ensures var after := Step(table, call).0[id];
            && after.ownerId == table[id].ownerId
            && after.binding == if table[id].binding.None? && call.FreezeBinding? && call.id == id
                                then Some(call.binding) else table[id].binding
  {
  }

  /**
   Over any calls at all, a binding once stored never changes, and an unbound
   competition ends with exactly the first binding any caller froze. Its owner never changes.
   */
  lemma {:induction false} FirstBindingWinsForever(table: Table, calls: seq<Call>, id: string)
    requires id in table
    ensures id in Run(table, calls) && Run(table, calls)[id].ownerId == table[id].ownerId
    ensures Run(table, calls)[id].binding
         == if table[id].binding.Some? then table[id].binding else FirstFrozen(calls, id)
  {
    hide Step;
    if calls != [] {
      var before := calls[..|calls| - 1];
      FirstBindingWinsForever(table, before, id);
      BindingStep(Run(table, before), calls[|calls| - 1], id);
    }
  }
}
