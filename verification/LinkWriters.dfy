/**
 Other writers of instance links beside the backfill of veridex/public_agent_backfill.py: the league seed of
 veridex/seed/official_replay_league.py links instances to its official agents itself. No pass raises for it,
 but a pass that looked at an instance before it was linked still links it to the legacy agent.
 */
module LinkWriters {
  import opened Prelude
  import opened PublicAgents
  import opened BackfillEdits

  datatype Write = Beside(event: Edited) | LinkInstance(instanceId: string, publicAgentId: string)

  /** A refused link changes nothing. */
  function StepWrite(w: World, e: Write, mint: Mint): World {
    match e
    case Beside(b) => StepEdited(w, b, mint)
    case LinkInstance(id, agent) =>
      match Link(w.store, id, agent)
      case Err(_) => w
      case Ok(s) => w.(store := s)
  }

  function PlayWrites(w: World, events: seq<Write>, mint: Mint): World {
    if events == [] then w
    else StepWrite(PlayWrites(w, events[..|events| - 1], mint), events[|events| - 1], mint)
  }

  // ---------------------------------------------------------------- no pass raises

  /** What the next step of the pass relies on. */
  predicate PassReady(s: Identities, p: Pass, mint: Mint) {
    && (forall i | 0 <= i < |p.listed| :: p.listed[i].instanceId in s.instances)
    && (p.phase != Looking ==> p.next < |p.listed|)
    && (p.phase == Linking ==> mint(p.listed[p.next].instanceId) in s.agents)
  }

  predicate Ready(w: World, mint: Mint) {
    forall p | p in w.passes :: PassReady(w.store, w.passes[p], mint)
  }

  /** No instance, agent or link goes away. */
  predicate KeysGrow(s: Identities, s': Identities) {
    s.instances.Keys <= s'.instances.Keys && s.agents.Keys <= s'.agents.Keys && s.links.Keys <= s'.links.Keys
  }

  lemma PassStaysReady(s: Identities, s': Identities, p: Pass, mint: Mint)
    requires PassReady(s, p, mint) && KeysGrow(s, s')
    ensures PassReady(s', p, mint)
  {
  }

  lemma AdvanceIsReady(s: Identities, p: Pass, mint: Mint)
    requires PassReady(s, p, mint) && p.next < |p.listed|
    ensures AdvancePass(s, p, mint).Ok?
    ensures var (s', p') := AdvancePass(s, p, mint).value; KeysGrow(s, s') && PassReady(s', p', mint)
  {
  }

  lemma ProtocolIsReady(w: World, e: Event, mint: Mint)
    requires Ready(w, mint)
    ensures var after := Step(w, e, mint);
            KeysGrow(w.store, after.store) && after.raised == w.raised && Ready(after, mint)
  {
    hide AdvancePass, PassReady;
    match e
    case Begin(p, order, now) => ListedIsReady(w, order, now, mint);
    case Crash(_) =>
    case Deploy(_) => AllStayReady(w, Step(w, e, mint).store, mint);
    case UpdateDetails(_, _) => AllStayReady(w, Step(w, e, mint).store, mint);
    case Advance(p) =>
      if p in w.passes && w.passes[p].next < |w.passes[p].listed| {
        AdvanceIsReady(w.store, w.passes[p], mint);
        AllStayReady(w, AdvancePass(w.store, w.passes[p], mint).value.0, mint);
      }
  }

  lemma ListedIsReady(w: World, order: seq<Instance>, now: string, mint: Mint)
    ensures IsListing(order, w.store.instances) ==> PassReady(w.store, Pass(order, 0, Looking, 0, now), mint)
  {
  }

  lemma AllStayReady(w: World, s: Identities, mint: Mint)
    requires Ready(w, mint) && KeysGrow(w.store, s)
    ensures Ready(w.(store := s), mint)
  {
    hide PassReady;
    forall p | p in w.passes
      ensures PassReady(s, w.passes[p], mint)
    {
      PassStaysReady(w.store, s, w.passes[p], mint);
    }
  }

  lemma WriteIsReady(w: World, e: Write, mint: Mint)
    requires Ready(w, mint)
    ensures var after := StepWrite(w, e, mint);
            KeysGrow(w.store, after.store) && after.raised == w.raised && Ready(after, mint)
  {
    hide Ready, Step;
    if e.Beside? && e.event.Protocol? {
      ProtocolIsReady(w, e.event.event, mint);
    } else {
      AllStayReady(w, StepWrite(w, e, mint).store, mint);
    }
  }

  /** Whoever edits agents, updates instances or links them meanwhile, no pass ever raises. */
  lemma {:induction false} WritersMakeNoPassRaise(w: World, events: seq<Write>, mint: Mint)
    requires Ready(w, mint)
    ensures Ready(PlayWrites(w, events, mint), mint) && PlayWrites(w, events, mint).raised == w.raised
  {
    hide Ready, StepWrite;
    if events != [] {
      WritersMakeNoPassRaise(w, events[..|events| - 1], mint);
      WriteIsReady(PlayWrites(w, events[..|events| - 1], mint), events[|events| - 1], mint);
    }
  }

  // ---------------------------------------------------------------- which links survive

  /** The pass has looked at the instance, found no link, and has not linked it yet. */
  predicate BetweenLookAndLink(p: Pass, id: string) {
    p.next < |p.listed| && p.phase != Looking && p.listed[p.next].instanceId == id
  }

  predicate Contested(w: World, id: string) {
    exists p | p in w.passes :: BetweenLookAndLink(w.passes[p], id)
  }

  /** The event is no other writer's link of id. */
  predicate Leaves(e: Write, id: string) {
    e.Beside? || e.instanceId != id
  }

  predicate AllLeave(events: seq<Write>, id: string) {
    forall i | 0 <= i < |events| :: Leaves(events[i], id)
  }

  predicate Uncontested(w: World, id: string, agent: string) {
    id in w.store.links && w.store.links[id] == agent && !Contested(w, id)
  }

  lemma AdvanceLeavesLink(s: Identities, p: Pass, id: string, mint: Mint)
    requires id in s.links && p.next < |p.listed| && AdvancePass(s, p, mint).Ok? && !BetweenLookAndLink(p, id)
    ensures var (s', p') := AdvancePass(s, p, mint).value;
            id in s'.links && s'.links[id] == s.links[id] && !BetweenLookAndLink(p', id)
  {
  }

  lemma ProtocolLeavesLink(w: World, e: Event, id: string, agent: string, mint: Mint)
    requires Uncontested(w, id, agent)
    ensures Uncontested(Step(w, e, mint), id, agent)
  {
    hide AdvancePass;
    if e.Advance? && e.pass in w.passes && w.passes[e.pass].next < |w.passes[e.pass].listed| {
      if AdvancePass(w.store, w.passes[e.pass], mint).Ok? {
        AdvanceLeavesLink(w.store, w.passes[e.pass], id, mint);
      }
    }
  }

  lemma WriteLeavesLink(w: World, e: Write, id: string, agent: string, mint: Mint)
    requires Uncontested(w, id, agent) && Leaves(e, id)
    ensures Uncontested(StepWrite(w, e, mint), id, agent)
  {
    hide Step;
    if e.Beside? && e.event.Protocol? {
      ProtocolLeavesLink(w, e.event.event, id, agent, mint);
    }
  }

  lemma {:induction false} LinkStays(w: World, events: seq<Write>, id: string, agent: string, mint: Mint)
    requires Uncontested(w, id, agent) && AllLeave(events, id)
    ensures Uncontested(PlayWrites(w, events, mint), id, agent)
  {
    hide Uncontested, StepWrite;
    if events != [] {
      var before := events[..|events| - 1];
      assert AllLeave(before, id) && Leaves(events[|events| - 1], id);
      LinkStays(w, before, id, agent, mint);
      WriteLeavesLink(PlayWrites(w, before, mint), events[|events| - 1], id, agent, mint);
    }
  }

  lemma PlayedOne(w: World, e: Write, mint: Mint)
    ensures PlayWrites(w, [e], mint) == StepWrite(w, e, mint)
  {
    assert [e][..0] == [];
    assert PlayWrites(w, [], mint) == w;
  }

  lemma PlayedTwo(w: World, e: Write, f: Write, mint: Mint)
    ensures PlayWrites(w, [e, f], mint) == StepWrite(StepWrite(w, e, mint), f, mint)
  {
    assert [e, f][..1] == [e];
    PlayedOne(w, e, mint);
  }

  /** A pass between its look and its link of the instance links it to the legacy agent, whoever linked it first. */
  lemma ContestedIsOverwritten(w: World, p: nat, id: string, mint: Mint) returns (events: seq<Write>)
    requires Ready(w, mint) && p in w.passes && BetweenLookAndLink(w.passes[p], id)
    ensures AllLeave(events, id)
    ensures var links := PlayWrites(w, events, mint).store.links; id in links && links[id] == mint(id)
  {
    hide Step, PlayWrites;
    assert PassReady(w.store, w.passes[p], mint);
    var step := Beside(Protocol(Advance(p)));
    if w.passes[p].phase == Linking {
      events := [step];
      PlayedOne(w, step, mint);
      LinkStep(w, p, mint);
    } else {
      events := [step, step];
      PlayedTwo(w, step, step, mint);
      MintSteps(w, p, mint);
    }
  }

  /**
   A link made by another writer survives every continuation without another such link of the instance exactly
   when no pass stands between its look and its link of that instance.
   */
  lemma LinkSurvivesExactly(w: World, id: string, mint: Mint)
    requires Ready(w, mint) && id in w.store.links && w.store.links[id] != mint(id)
    ensures (forall events | AllLeave(events, id) ::
               var links := PlayWrites(w, events, mint).store.links;
               id in links && links[id] == w.store.links[id])
       <==> !Contested(w, id)
  {
    hide PlayWrites, BetweenLookAndLink, Ready;
    if p :| p in w.passes && BetweenLookAndLink(w.passes[p], id) {
      var events := ContestedIsOverwritten(w, p, id, mint);
      assert AllLeave(events, id);
    } else {
      forall events | AllLeave(events, id)
        ensures var links := PlayWrites(w, events, mint).store.links; id in links && links[id] == w.store.links[id]
      {
        LinkStays(w, events, id, w.store.links[id], mint);
      }
    }
  }

  /** The contested state is reached: a pass looks at an unlinked instance, and then the seed links it. */
  lemma SeedLinkIsContested(s0: Identities, order: seq<Instance>, now: string, official: string, mint: Mint)
    requires IsListing(order, s0.instances) && order != [] && order[0].instanceId !in s0.links && official in s0.agents
    ensures var events := [Beside(Protocol(Begin(0, order, now))), Beside(Protocol(Advance(0))),
                           LinkInstance(order[0].instanceId, official)];
            var (w, id) := (PlayWrites(World(s0, map[], 0), events, mint), order[0].instanceId);
            && id in w.store.links && w.store.links[id] == official && Ready(w, mint) && Contested(w, id)
  {
    hide PlayWrites, Step;
    var (a, b) := (Beside(Protocol(Begin(0, order, now))), Beside(Protocol(Advance(0))));
    var c := LinkInstance(order[0].instanceId, official);
    var w0 := World(s0, map[], 0);
    PlayedThree(w0, a, b, c, mint);
    BeginStep(w0, 0, order, now, mint);
    LookStep(Step(w0, Begin(0, order, now), mint), 0, mint);
    WritersMakeNoPassRaise(w0, [a, b, c], mint);
    var w := PlayWrites(w0, [a, b, c], mint);
    assert 0 in w.passes && w.passes[0] == Pass(order, 0, Persisting, 0, now);
  }

  lemma PlayedThree(w: World, e: Write, f: Write, g: Write, mint: Mint)
    ensures PlayWrites(w, [e, f, g], mint) == StepWrite(StepWrite(StepWrite(w, e, mint), f, mint), g, mint)
  {
    hide StepWrite;
    assert [e, f, g][..2] == [e, f];
    PlayedTwo(w, e, f, mint);
  }
}
