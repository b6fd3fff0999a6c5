/**
 Identity edits beside the backfill of veridex/public_agent_backfill.py: an agent's visibility and display
 name may be changed while passes run. Edits never disturb the protocol, but a pass that has looked at an
 instance and not yet persisted it writes the legacy identity over whatever was edited meanwhile.
 */
module BackfillEdits {
  import opened Prelude
  import opened PublicAgents

  datatype Edited =
    | Protocol(event: Event)
    | SetVisibility(agentId: string, visibility: Visibility, updatedAt: string)
    | SetDisplayName(agentId: string, displayName: string, updatedAt: string)

  /** The agent after an edit of it: the field, the time and the next version. */
  function EditAgent(a: PublicAgent, e: Edited): PublicAgent {
    match e
    case Protocol(_) => a
    case SetVisibility(_, v, at) => a.(visibility := v, updatedAt := at, version := a.version + 1)
    case SetDisplayName(_, name, at) => a.(displayName := name, updatedAt := at, version := a.version + 1)
  }

  /** Editing an agent that is not there changes nothing. */
  function StepEdited(w: World, e: Edited, mint: Mint): World {
    if e.Protocol? then Step(w, e.event, mint)
    else if e.agentId !in w.store.agents then w
    else
      w.(store := w.store.(agents := w.store.agents[e.agentId := EditAgent(w.store.agents[e.agentId], e)]))
  }

  function PlayEdited(w: World, events: seq<Edited>, mint: Mint): World {
    if events == [] then w
    else StepEdited(PlayEdited(w, events[..|events| - 1], mint), events[|events| - 1], mint)
  }

  // ---------------------------------------------------------------- edits do not disturb the protocol

  /** The events with the edits taken out. */
  function Erased(events: seq<Edited>): seq<Event> {
    if events == [] then []
    else
      var last := events[|events| - 1];
      if last.Protocol? then Erased(events[..|events| - 1]) + [last.event] else Erased(events[..|events| - 1])
  }

  /** The same but for what the agents say. */
  predicate Alike(w: World, v: World) {
    && w.passes == v.passes && w.raised == v.raised
    && w.store.instances == v.store.instances && w.store.links == v.store.links
    && w.store.agents.Keys == v.store.agents.Keys
  }

  lemma StepAlike(w: World, v: World, e: Event, mint: Mint)
    requires Alike(w, v)
    ensures Alike(Step(w, e, mint), Step(v, e, mint))
  {
  }

  lemma EditAlike(w: World, e: Edited, mint: Mint)
    requires !e.Protocol?
    ensures Alike(StepEdited(w, e, mint), w)
  {
  }

  /** With edits or without them, the passes, the links and the set of agents evolve the same. */
  lemma {:induction false} EditsDoNotDisturb(w: World, events: seq<Edited>, mint: Mint)
    ensures Alike(PlayEdited(w, events, mint), Play(w, Erased(events), mint))
  {
    hide Step, StepEdited;
    if events != [] {
      var before, last := events[..|events| - 1], events[|events| - 1];
      EditsDoNotDisturb(w, before, mint);
      if last.Protocol? {
        StepAlike(PlayEdited(w, before, mint), Play(w, Erased(before), mint), last.event, mint);
        assert (Erased(before) + [last.event])[..|Erased(before)|] == Erased(before);
        ProtocolStep(PlayEdited(w, before, mint), last.event, mint);
      } else {
        EditAlike(PlayEdited(w, before, mint), last, mint);
      }
    }
  }

  lemma ProtocolStep(w: World, e: Event, mint: Mint)
    ensures StepEdited(w, Protocol(e), mint) == Step(w, e, mint)
  {
  }

  /** So, edits or no edits, no pass ever raises, and a link is an earlier one or goes to the minted agent. */
  lemma EditedRunsKeepLinks(s0: Identities, events: seq<Edited>, mint: Mint)
    requires Injective(mint) && Clean(s0, mint)
    ensures var w := PlayEdited(World(s0, map[], 0), events, mint);
            && w.raised == 0
            && (forall id | id in s0.links :: id in w.store.links && w.store.links[id] == s0.links[id])
            && forall id | id in w.store.links && id !in s0.links ::
                 w.store.links[id] == mint(id) && mint(id) in w.store.agents
  {
    hide Play, PlayEdited, Clean, Injective;
    EditsDoNotDisturb(World(s0, map[], 0), events, mint);
    InterleavingsKeep(s0, Erased(events), mint);
    var s := Play(World(s0, map[], 0), Erased(events), mint).store;
    assert forall id | id !in s0.links :: Untouched(s, id, mint);
  }

  // ---------------------------------------------------------------- which edits survive

  /** A pass has looked at the instance of agent a, found no link, and has not persisted the agent yet. */
  predicate AboutToMint(p: Pass, a: string, mint: Mint) {
    p.next < |p.listed| && p.phase == Persisting && mint(p.listed[p.next].instanceId) == a
  }

  predicate Threatened(w: World, a: string, mint: Mint) {
    exists p | p in w.passes :: AboutToMint(w.passes[p], a, mint)
  }

  /** The event is no edit of a. */
  predicate Spares(e: Edited, a: string) {
    e.Protocol? || e.agentId != a
  }

  predicate AllSpare(events: seq<Edited>, a: string) {
    forall i | 0 <= i < |events| :: Spares(events[i], a)
  }

  /** Agent a is there, as x says, its instance is linked, and no pass is about to mint it. */
  predicate Safe(w: World, id: string, x: PublicAgent, mint: Mint) {
    && mint(id) in w.store.agents && w.store.agents[mint(id)] == x
    && id in w.store.links && !Threatened(w, mint(id), mint)
  }

  /** A pass that moves on is not about to mint an agent whose instance is linked. */
  lemma AdvanceIsNoThreat(s: Identities, p: Pass, id: string, mint: Mint)
    requires Injective(mint) && id in s.links && p.next < |p.listed| && AdvancePass(s, p, mint).Ok?
    ensures !AboutToMint(AdvancePass(s, p, mint).value.1, mint(id), mint)
    ensures !AboutToMint(p, mint(id), mint) && mint(id) in s.agents ==>
              var (s', _) := AdvancePass(s, p, mint).value;
              mint(id) in s'.agents && s'.agents[mint(id)] == s.agents[mint(id)]
    ensures id in AdvancePass(s, p, mint).value.0.links
  {
  }

  lemma SafeStep(w: World, e: Event, id: string, x: PublicAgent, mint: Mint)
    requires Injective(mint) && Safe(w, id, x, mint)
    ensures Safe(Step(w, e, mint), id, x, mint)
  {
    hide AdvancePass, Injective;
    if e.Advance? && e.pass in w.passes && w.passes[e.pass].next < |w.passes[e.pass].listed| {
      var p := w.passes[e.pass];
      if AdvancePass(w.store, p, mint).Ok? {
        AdvanceIsNoThreat(w.store, p, id, mint);
      }
    }
  }

  lemma SafeEdit(w: World, e: Edited, id: string, x: PublicAgent, mint: Mint)
    requires !e.Protocol? && e.agentId != mint(id) && Safe(w, id, x, mint)
    ensures Safe(StepEdited(w, e, mint), id, x, mint)
  {
  }

  lemma {:induction false} SafeStays(w: World, events: seq<Edited>, id: string, x: PublicAgent, mint: Mint)
    requires Injective(mint) && Safe(w, id, x, mint) && AllSpare(events, mint(id))
    ensures Safe(PlayEdited(w, events, mint), id, x, mint)
  {
    hide Safe, Step, StepEdited, Injective;
    if events != [] {
      var before, last := events[..|events| - 1], events[|events| - 1];
      assert Spares(last, mint(id)) && AllSpare(before, mint(id));
      SafeStays(w, before, id, x, mint);
      if last.Protocol? {
        SafeStep(PlayEdited(w, before, mint), last.event, id, x, mint);
        ProtocolStep(PlayEdited(w, before, mint), last.event, mint);
      } else {
        SafeEdit(PlayEdited(w, before, mint), last, id, x, mint);
      }
    }
  }

  /** A pass about to mint the agent writes the legacy identity over it at its next step. */
  lemma ThreatReverts(w: World, p: nat, a: string, mint: Mint)
    requires p in w.passes && AboutToMint(w.passes[p], a, mint)
    ensures var after := PlayEdited(w, [Protocol(Advance(p))], mint).store.agents;
            a in after && after[a] == Legacy(w.passes[p].listed[w.passes[p].next], w.passes[p].now, mint)
  {
    assert [Protocol(Advance(p))][..0] == [];
    assert PlayEdited(w, [], mint) == w;
  }

  lemma EditedStaysExactly(w: World, id: string, mint: Mint)
    requires Injective(mint) && id in w.store.links && mint(id) in w.store.agents
    requires w.store.agents[mint(id)].version > 1
    ensures (forall events | AllSpare(events, mint(id)) ::
               var after := PlayEdited(w, events, mint).store.agents;
               mint(id) in after && after[mint(id)] == w.store.agents[mint(id)])
       <==> !Threatened(w, mint(id), mint)
  {
    hide PlayEdited, Injective, AboutToMint;
    var x := w.store.agents[mint(id)];
    if p :| p in w.passes && AboutToMint(w.passes[p], mint(id), mint) {
      ThreatReverts(w, p, mint(id), mint);
      assert AllSpare([Protocol(Advance(p))], mint(id));
      assert PlayEdited(w, [Protocol(Advance(p))], mint).store.agents[mint(id)].version == 1;
    } else {
      forall events | AllSpare(events, mint(id))
        ensures var after := PlayEdited(w, events, mint).store.agents; mint(id) in after && after[mint(id)] == x
      {
        SafeStays(w, events, id, x, mint);
      }
    }
  }

  /** An edit gives the agent a version no minted agent has. */
  lemma EditedIsNotLegacy(w: World, e: Edited, mint: Mint)
    requires !e.Protocol? && e.agentId in w.store.agents && w.store.agents[e.agentId].version >= 1
    ensures var after := StepEdited(w, e, mint).store.agents; e.agentId in after && after[e.agentId].version > 1
  {
  }

  /**
   An edit of a linked instance's agent stays, whatever passes and edits of other agents follow, exactly when
   no pass is about to mint that agent: one that looked before the link was made and has not persisted yet. A
   later pass finds the link and leaves the agent alone.
   */
  lemma EditSurvivesExactly(w: World, e: Edited, id: string, mint: Mint)
    requires Injective(mint) && id in w.store.links && mint(id) in w.store.agents
    requires !e.Protocol? && e.agentId == mint(id) && w.store.agents[mint(id)].version >= 1
    ensures (forall events | AllSpare(events, mint(id)) ::
               var after := PlayEdited(StepEdited(w, e, mint), events, mint).store.agents;
               mint(id) in after && after[mint(id)] == EditAgent(w.store.agents[mint(id)], e))
       <==> !Threatened(w, mint(id), mint)
  {
    hide PlayEdited, Injective, AboutToMint;
    EditedIsNotLegacy(w, e, mint);
    EditedStaysExactly(StepEdited(w, e, mint), id, mint);
  }

  /** Two passes over an unlinked instance: the first looks, the second looks, persists and links. */
  function TwoPasses(order: seq<Instance>, now: string): seq<Event> {
    [Begin(0, order, now), Begin(1, order, now), Advance(0), Advance(1), Advance(1), Advance(1)]
  }

  /**
   The reverting state is reached from any clean store with an unlinked instance at the head of a listing: the
   second pass has linked it, and the first is still about to mint it.
   */
  lemma ThreatIsReached(s0: Identities, order: seq<Instance>, now: string, mint: Mint)
    requires IsListing(order, s0.instances) && order != [] && order[0].instanceId !in s0.links
    ensures var w := Play(World(s0, map[], 0), TwoPasses(order, now), mint);
            var id := order[0].instanceId;
            && id in w.store.links && w.store.links[id] == mint(id) && mint(id) in w.store.agents
            && Threatened(w, mint(id), mint)
  {
    hide Play, Step, AboutToMint;
    var start, id := World(s0, map[], 0), order[0].instanceId;
    var looking, minting := Pass(order, 0, Looking, 0, now), Pass(order, 0, Persisting, 0, now);
    PlaySix(start, Begin(0, order, now), Begin(1, order, now), Advance(0), Advance(1), Advance(1), Advance(1), mint);
    BeginStep(start, 0, order, now, mint);
    BeginStep(World(s0, map[0 := looking], 0), 1, order, now, mint);
    LookStep(World(s0, map[0 := looking][1 := looking], 0), 0, mint);
    LookStep(World(s0, map[0 := looking][1 := looking][0 := minting], 0), 1, mint);
    var w := World(s0, map[0 := looking][1 := looking][0 := minting][1 := minting], 0);
    MintSteps(w, 1, mint);
    var after := Step(Step(w, Advance(1), mint), Advance(1), mint);
    assert 0 in after.passes && after.passes[0] == minting;
    assert AboutToMint(minting, mint(id), mint) by {
      AboutTo(minting, mint);
    }
  }

  lemma AboutTo(p: Pass, mint: Mint)
    requires p.next < |p.listed| && p.phase == Persisting
    ensures AboutToMint(p, mint(p.listed[p.next].instanceId), mint)
  {
  }

  lemma BeginStep(w: World, p: nat, order: seq<Instance>, now: string, mint: Mint)
    requires p !in w.passes && IsListing(order, w.store.instances)
    ensures Step(w, Begin(p, order, now), mint) == w.(passes := w.passes[p := Pass(order, 0, Looking, 0, now)])
  {
  }

  /** A pass that looks at an unlinked instance is about to mint it. */
  lemma LookStep(w: World, p: nat, mint: Mint)
    requires p in w.passes && w.passes[p].next < |w.passes[p].listed| && w.passes[p].phase == Looking
    requires w.passes[p].listed[w.passes[p].next].instanceId !in w.store.links
    ensures Step(w, Advance(p), mint) == w.(passes := w.passes[p := w.passes[p].(phase := Persisting)])
  {
  }

  /** A pass about to mint an instance persists and links it in its next two steps. */
  lemma MintSteps(w: World, p: nat, mint: Mint)
    requires p in w.passes && w.passes[p].next < |w.passes[p].listed| && w.passes[p].phase == Persisting
    requires w.passes[p].listed[w.passes[p].next].instanceId in w.store.instances
    ensures var after := Step(Step(w, Advance(p), mint), Advance(p), mint);
            var id := w.passes[p].listed[w.passes[p].next].instanceId;
            && id in after.store.links && after.store.links[id] == mint(id) && mint(id) in after.store.agents
            && forall q | q in w.passes && q != p :: q in after.passes && after.passes[q] == w.passes[q]
  {
    hide Step;
    PersistStep(w, p, mint);
    LinkStep(Step(w, Advance(p), mint), p, mint);
  }

  lemma PersistStep(w: World, p: nat, mint: Mint)
    requires p in w.passes && w.passes[p].next < |w.passes[p].listed| && w.passes[p].phase == Persisting
    ensures var instance := w.passes[p].listed[w.passes[p].next];
            var after := Step(w, Advance(p), mint);
            && after == w.(store := PersistAgent(w.store, Legacy(instance, w.passes[p].now, mint)),
                           passes := w.passes[p := w.passes[p].(phase := Linking)])
            && mint(instance.instanceId) in after.store.agents
  {
  }

  lemma LinkStep(w: World, p: nat, mint: Mint)
    requires p in w.passes && w.passes[p].next < |w.passes[p].listed| && w.passes[p].phase == Linking
    requires var id := w.passes[p].listed[w.passes[p].next].instanceId;
             id in w.store.instances && mint(id) in w.store.agents
    ensures var id := w.passes[p].listed[w.passes[p].next].instanceId;
            var after := Step(w, Advance(p), mint);
            && after.store == w.store.(links := w.store.links[id := mint(id)])
            && after.passes.Keys == w.passes.Keys
            && forall q | q in w.passes && q != p :: after.passes[q] == w.passes[q]
  {
  }

  lemma PlaySix(w: World, a: Event, b: Event, c: Event, d: Event, e: Event, f: Event, mint: Mint)
    ensures Play(w, [a, b, c, d, e, f], mint)
         == Step(Step(Step(Step(Step(Step(w, a, mint), b, mint), c, mint), d, mint), e, mint), f, mint)
  {
    hide Play, Step;
    NothingPlayed(w, mint);
    OneMoreEvent(w, [], a, mint);
    OneMoreEvent(w, [a], b, mint);
    OneMoreEvent(w, [a, b], c, mint);
    OneMoreEvent(w, [a, b, c], d, mint);
    OneMoreEvent(w, [a, b, c, d], e, mint);
    OneMoreEvent(w, [a, b, c, d, e], f, mint);
    assert [] + [a] == [a] && [a] + [b] == [a, b] && [a, b] + [c] == [a, b, c];
    assert [a, b, c] + [d] == [a, b, c, d] && [a, b, c, d] + [e] == [a, b, c, d, e];
    assert [a, b, c, d, e] + [f] == [a, b, c, d, e, f];
  }

  lemma NothingPlayed(w: World, mint: Mint)
    ensures Play(w, [], mint) == w
  {
  }

  lemma OneMoreEvent(w: World, events: seq<Event>, e: Event, mint: Mint)
    ensures Play(w, events + [e], mint) == Step(Play(w, events, mint), e, mint)
  {
    assert (events + [e])[..|events|] == events;
  }
}
