/**
 Public-agent identities and instance links of veridex/store.py and veridex/public_agent.py, and the
 crash-and-retry backfill of veridex/public_agent_backfill.py over them. The store part gives the
 atomic steps; the protocol part lets any number of passes interleave at every await and crash there.
 */
module PublicAgents {
  import opened Prelude

  datatype Visibility = Private | Public
  datatype OperatorClass = Official | User
  datatype Origin = OfficialOrigin | Studio | Byoa | Unknown

  datatype PublicAgent = PublicAgent(
    publicAgentId: string, displayName: string, operatorClass: OperatorClass, origin: Origin,
    visibility: Visibility, ownerRef: Option<string>, createdAt: string, updatedAt: string, version: nat)

  /** A deployed instance; details stands for every field the backfill does not read. */
  datatype Instance = Instance(instanceId: string, agentId: string, operatorId: Option<string>, details: string)

  /** The same deployment, whatever its status and other details have become. */
  predicate SameIdentity(a: Instance, b: Instance) {
    a.(details := b.details) == b
  }

  datatype Identities = Identities(
    instances: map<string, Instance>, agents: map<string, PublicAgent>, links: map<string, string>)

  datatype LinkFault = NoInstance | NoAgent

  function PersistAgent(s: Identities, a: PublicAgent): Identities {
    s.(agents := s.agents[a.publicAgentId := a])
  }

  function Link(s: Identities, instanceId: string, publicAgentId: string): Result<Identities, LinkFault> {
    if instanceId !in s.instances then Err(NoInstance)
    else if publicAgentId !in s.agents then Err(NoAgent)
    else Ok(s.(links := s.links[instanceId := publicAgentId]))
  }

  /** list_agent_instances: every stored instance once, in any order. */
  predicate IsListing(order: seq<Instance>, instances: map<string, Instance>) {
    && (forall i | 0 <= i < |order| ::
          order[i].instanceId in instances && instances[order[i].instanceId] == order[i])
    && (forall i, j | 0 <= i < j < |order| :: order[i].instanceId != order[j].instanceId)
    && forall id | id in instances :: instances[id] in order
  }

  type Mint = string -> string

  ghost predicate Injective(mint: Mint) {
    forall i, j :: mint(i) == mint(j) ==> i == j
  }

  /** The honest legacy identity of an instance. */
  function Legacy(instance: Instance, now: string, mint: Mint): PublicAgent {
    PublicAgent(mint(instance.instanceId), instance.agentId, User, Unknown, Private, instance.operatorId, now, now, 1)
  }

  /** What an instance that never had an identity may claim: private, of unknown origin, its operator's own. */
  predicate IsLegacy(a: PublicAgent, instance: Instance, mint: Mint) {
    && a.publicAgentId == mint(instance.instanceId) && a.displayName == instance.agentId
    && a.operatorClass == User && a.origin == Unknown && a.visibility == Private
    && a.ownerRef == instance.operatorId && a.createdAt == a.updatedAt && a.version == 1
  }

  // ---------------------------------------------------------------- one pass, step by step

  datatype Phase = Looking | Persisting | Linking

  /** A pass over the listing it took when it began; next is the instance it is working on. */
  datatype Pass = Pass(listed: seq<Instance>, next: nat, phase: Phase, minted: nat, now: string)

  /** The store and the passes in flight; raised counts passes that died on a link fault. */
  datatype World = World(store: Identities, passes: map<nat, Pass>, raised: nat)

  datatype Event =
    | Begin(pass: nat, order: seq<Instance>, now: string)
    | Advance(pass: nat)
    | Crash(pass: nat)
    | Deploy(instance: Instance)
    | UpdateDetails(instanceId: string, details: string)

  /** One pass up to its next await. */
  function AdvancePass(s: Identities, p: Pass, mint: Mint): Result<(Identities, Pass), LinkFault>
    requires p.next < |p.listed|
  {
    var instance := p.listed[p.next];
    match p.phase
    case Looking =>
      if instance.instanceId in s.links then Ok((s, p.(next := p.next + 1)))
      else Ok((s, p.(phase := Persisting)))
    case Persisting => Ok((PersistAgent(s, Legacy(instance, p.now, mint)), p.(phase := Linking)))
    case Linking =>
      match Link(s, instance.instanceId, mint(instance.instanceId))
      case Err(fault) => Err(fault)
      case Ok(s') => Ok((s', p.(next := p.next + 1, phase := Looking, minted := p.minted + 1)))
  }

  /** update_agent_instance_status and the like: a write to a field no pass reads. */
  function Redetailed(s: Identities, id: string, details: string): Identities
    requires id in s.instances
  {
    s.(instances := s.instances[id := s.instances[id].(details := details)])
  }

  /** Events that cannot happen (a number in use, a wrong listing, an id deployed twice) change nothing. */
  function Step(w: World, e: Event, mint: Mint): World {
    match e
    case Begin(p, order, now) =>
      if p !in w.passes && IsListing(order, w.store.instances)
      then w.(passes := w.passes[p := Pass(order, 0, Looking, 0, now)]) else w
    case Crash(p) => w.(passes := w.passes - {p})
    case Deploy(instance) =>
      if instance.instanceId in w.store.instances then w
      else w.(store := w.store.(instances := w.store.instances[instance.instanceId := instance]))
    case UpdateDetails(id, details) =>
      if id !in w.store.instances then w
      else w.(store := Redetailed(w.store, id, details))
    case Advance(p) =>
      if p !in w.passes then w
      else if w.passes[p].next >= |w.passes[p].listed| then w
      else
        match AdvancePass(w.store, w.passes[p], mint)
        case Err(_) => w.(passes := w.passes - {p}, raised := w.raised + 1)
        case Ok((s, pass)) => w.(store := s, passes := w.passes[p := pass])
  }

  function Play(w: World, events: seq<Event>, mint: Mint): World {
    if events == [] then w else Step(Play(w, events[..|events| - 1], mint), events[|events| - 1], mint)
  }

  // ---------------------------------------------------------------- what every interleaving keeps

  /** Before any pass: links point from deployed instances, and minted ids are free or orphans of a crash. */
  ghost predicate Clean(s: Identities, mint: Mint) {
    && (forall id | id in s.instances :: s.instances[id].instanceId == id)
    && s.links.Keys <= s.instances.Keys
    && (forall id :: id !in s.links && mint(id) in s.agents ==>
          id in s.instances && IsLegacy(s.agents[mint(id)], s.instances[id], mint))
  }

  /** What has become of an initially unlinked instance. */
  predicate Untouched(now: Identities, id: string, mint: Mint) {
    && (mint(id) in now.agents ==> id in now.instances && IsLegacy(now.agents[mint(id)], now.instances[id], mint))
    && (id in now.links ==> now.links[id] == mint(id) && mint(id) in now.agents)
  }

  /** What the store may look like, having started as s0. */
  ghost predicate StoreKept(s0: Identities, now: Identities, mint: Mint) {
    && (forall id | id in now.instances :: now.instances[id].instanceId == id)
    && (forall id | id in s0.instances :: id in now.instances && SameIdentity(s0.instances[id], now.instances[id]))
    && (forall id | id in s0.links :: id in now.links && now.links[id] == s0.links[id])
    && now.links.Keys <= now.instances.Keys
    && (forall id :: id !in s0.links ==> Untouched(now, id, mint))
    && (forall a | a in s0.agents :: a in now.agents)
    && (forall a | a in now.agents ::
          (a in s0.agents && now.agents[a] == s0.agents[a])
          || (exists id :: id in now.instances && id !in s0.links && a == mint(id)))
  }

  /** Every instance the pass is through with is linked, and its current step cannot fail. */
  ghost predicate PassKept(s0: Identities, now: Identities, p: Pass, mint: Mint) {
    && p.next <= |p.listed|
    && (forall i | 0 <= i < |p.listed| ::
          p.listed[i].instanceId in now.instances && SameIdentity(p.listed[i], now.instances[p.listed[i].instanceId]))
    && (forall i | 0 <= i < p.next :: p.listed[i].instanceId in now.links)
    && (p.phase != Looking ==> p.next < |p.listed| && p.listed[p.next].instanceId !in s0.links)
    && (p.phase == Linking ==> mint(p.listed[p.next].instanceId) in now.agents)
  }

  ghost predicate Kept(s0: Identities, w: World, mint: Mint) {
    && StoreKept(s0, w.store, mint) && w.raised == 0
    && forall p | p in w.passes :: PassKept(s0, w.store, w.passes[p], mint)
  }

  /** A store step that only adds: no instance changes but in its details, no agent or link key goes away. */
  predicate Grows(s: Identities, s': Identities) {
    && (forall id | id in s.instances :: id in s'.instances && SameIdentity(s.instances[id], s'.instances[id]))
    && s.agents.Keys <= s'.agents.Keys && s.links.Keys <= s'.links.Keys
  }

  lemma GrowsReflexive(s: Identities)
    ensures Grows(s, s)
  {
  }

  lemma CleanIsKept(s0: Identities, mint: Mint)
    requires Clean(s0, mint)
    ensures StoreKept(s0, s0, mint)
  {
  }

  lemma PersistKeeps(s0: Identities, s: Identities, instance: Instance, now: string, mint: Mint)
    requires Injective(mint) && StoreKept(s0, s, mint)
    requires instance.instanceId in s.instances && SameIdentity(instance, s.instances[instance.instanceId])
    requires instance.instanceId !in s0.links
    ensures var s' := PersistAgent(s, Legacy(instance, now, mint));
            StoreKept(s0, s', mint) && Grows(s, s') && mint(instance.instanceId) in s'.agents
  {
    var s' := PersistAgent(s, Legacy(instance, now, mint));
    forall id | id !in s0.links
      ensures Untouched(s', id, mint)
    {
      assert Untouched(s, id, mint);
    }
  }

  lemma {:induction false} LinkKeeps(s0: Identities, s: Identities, id: string, mint: Mint)
    requires Injective(mint) && StoreKept(s0, s, mint)
    requires id in s.instances && id !in s0.links && mint(id) in s.agents
    ensures Link(s, id, mint(id)).Ok?
    ensures var s' := Link(s, id, mint(id)).value; StoreKept(s0, s', mint) && Grows(s, s') && id in s'.links
  {
    hide IsLegacy, Injective;
    var s' := Link(s, id, mint(id)).value;
    forall k | k !in s0.links
      ensures Untouched(s', k, mint)
    {
      assert Untouched(s, k, mint);
    }
  }

  /** ... and so it keeps every other pass in flight. */
  lemma PassStaysKept(s0: Identities, s: Identities, s': Identities, p: Pass, mint: Mint)
    requires PassKept(s0, s, p, mint)
    requires Grows(s, s')
    ensures PassKept(s0, s', p, mint)
  {
  }

  /** What a kept pass knows about the instance it is working on. */
  lemma {:induction false} CurrentInstance(s0: Identities, s: Identities, p: Pass, mint: Mint)
    requires StoreKept(s0, s, mint) && PassKept(s0, s, p, mint) && p.next < |p.listed|
    ensures var id := p.listed[p.next].instanceId;
            && id in s.instances && SameIdentity(p.listed[p.next], s.instances[id])
            && (id in s0.links ==> id in s.links)
            && (p.phase != Looking ==> id !in s0.links)
            && (p.phase == Linking ==> mint(id) in s.agents)
  {
  }

  /** The next step of the pass does not fail, keeps the invariants and only adds to the store. */
  ghost predicate AdvancesSafely(s0: Identities, s: Identities, p: Pass, mint: Mint)
    requires p.next < |p.listed|
  {
    && AdvancePass(s, p, mint).Ok?
    && var (s', p') := AdvancePass(s, p, mint).value;
       StoreKept(s0, s', mint) && PassKept(s0, s', p', mint) && Grows(s, s')
  }

  lemma LookingKeeps(s0: Identities, s: Identities, p: Pass, mint: Mint)
    requires StoreKept(s0, s, mint) && PassKept(s0, s, p, mint) && p.next < |p.listed| && p.phase == Looking
    ensures AdvancesSafely(s0, s, p, mint)
  {
    CurrentInstance(s0, s, p, mint);
    GrowsReflexive(s);
    hide StoreKept, PassKept, Grows;
    if p.listed[p.next].instanceId in s.links {
      StepPast(s0, s, p, p.minted, mint);
    } else {
      StepInto(s0, s, p, Persisting, mint);
    }
  }

  lemma {:induction false} PersistingKeeps(s0: Identities, s: Identities, p: Pass, mint: Mint)
    requires Injective(mint) && StoreKept(s0, s, mint) && PassKept(s0, s, p, mint)
    requires p.next < |p.listed| && p.phase == Persisting
    ensures AdvancesSafely(s0, s, p, mint)
  {
    CurrentInstance(s0, s, p, mint);
    hide StoreKept, PassKept, Injective, Legacy, PersistAgent, Grows;
    var instance := p.listed[p.next];
    var s' := PersistAgent(s, Legacy(instance, p.now, mint));
    PersistKeeps(s0, s, instance, p.now, mint);
    PassStaysKept(s0, s, s', p, mint);
    StepInto(s0, s', p, Linking, mint);
  }

  lemma {:induction false} LinkingKeeps(s0: Identities, s: Identities, p: Pass, mint: Mint)
    requires Injective(mint) && StoreKept(s0, s, mint) && PassKept(s0, s, p, mint)
    requires p.next < |p.listed| && p.phase == Linking
    ensures AdvancesSafely(s0, s, p, mint)
  {
    CurrentInstance(s0, s, p, mint);
    hide StoreKept, PassKept, Injective, Link, Grows, AdvancePass;
    var id := p.listed[p.next].instanceId;
    LinkKeeps(s0, s, id, mint);
    var s' := Link(s, id, mint(id)).value;
    AfterLinking(s, p, s', mint);
    PassStaysKept(s0, s, s', p, mint);
    StepPast(s0, s', p, p.minted + 1, mint);
  }

  lemma AfterLinking(s: Identities, p: Pass, s': Identities, mint: Mint)
    requires p.next < |p.listed| && p.phase == Linking
    requires Link(s, p.listed[p.next].instanceId, mint(p.listed[p.next].instanceId)) == Ok(s')
    ensures AdvancePass(s, p, mint) == Ok((s', p.(next := p.next + 1, phase := Looking, minted := p.minted + 1)))
  {
  }

  lemma {:induction false} AdvanceKeeps(s0: Identities, s: Identities, p: Pass, mint: Mint)
    requires Injective(mint) && StoreKept(s0, s, mint) && PassKept(s0, s, p, mint) && p.next < |p.listed|
    ensures AdvancesSafely(s0, s, p, mint)
  {
    hide *;
    match p.phase
    case Looking => LookingKeeps(s0, s, p, mint);
    case Persisting => PersistingKeeps(s0, s, p, mint);
    case Linking => LinkingKeeps(s0, s, p, mint);
  }

  lemma StepInto(s0: Identities, s: Identities, p: Pass, phase: Phase, mint: Mint)
    requires PassKept(s0, s, p, mint) && p.next < |p.listed| && phase != Looking
    requires p.listed[p.next].instanceId !in s0.links
    requires phase == Linking ==> mint(p.listed[p.next].instanceId) in s.agents
    ensures PassKept(s0, s, p.(phase := phase), mint)
  {
  }

  lemma StepPast(s0: Identities, s: Identities, p: Pass, minted: nat, mint: Mint)
    requires PassKept(s0, s, p, mint) && p.next < |p.listed| && p.listed[p.next].instanceId in s.links
    ensures PassKept(s0, s, p.(next := p.next + 1, phase := Looking, minted := minted), mint)
  {
  }

  lemma DeployKeeps(s0: Identities, s: Identities, instance: Instance, mint: Mint)
    requires StoreKept(s0, s, mint) && instance.instanceId !in s.instances
    ensures var s' := s.(instances := s.instances[instance.instanceId := instance]);
            StoreKept(s0, s', mint) && Grows(s, s')
  {
    var s' := s.(instances := s.instances[instance.instanceId := instance]);
    forall k | k !in s0.links
      ensures Untouched(s', k, mint)
    {
      assert Untouched(s, k, mint);
    }
  }

  lemma UpdateKeeps(s0: Identities, s: Identities, id: string, details: string, mint: Mint)
    requires StoreKept(s0, s, mint) && id in s.instances
    ensures var s' := Redetailed(s, id, details); StoreKept(s0, s', mint) && Grows(s, s')
  {
    var s' := Redetailed(s, id, details);
    forall k | k !in s0.links
      ensures Untouched(s', k, mint)
    {
      assert Untouched(s, k, mint);
    }
  }

  lemma {:induction false} StepKeeps(s0: Identities, w: World, e: Event, mint: Mint)
    requires Injective(mint) && Kept(s0, w, mint)
    ensures Kept(s0, Step(w, e, mint), mint)
  {
    hide StoreKept, PassKept, Grows, AdvancePass, Redetailed, Injective, IsListing;
    match e
    case Begin(_, order, now) =>
      if IsListing(order, w.store.instances) {
        BeginKeeps(s0, w.store, order, now, mint);
      }
    case Crash(_) =>
    case Deploy(instance) =>
      if instance.instanceId !in w.store.instances {
        DeployKeeps(s0, w.store, instance, mint);
        OthersStayKept(s0, w, Step(w, e, mint), mint);
      }
    case UpdateDetails(id, details) =>
      if id in w.store.instances {
        UpdateKeeps(s0, w.store, id, details, mint);
        OthersStayKept(s0, w, Step(w, e, mint), mint);
      }
    case Advance(p) =>
      if p in w.passes && w.passes[p].next < |w.passes[p].listed| {
        AdvanceKeeps(s0, w.store, w.passes[p], mint);
        OthersStayKept(s0, w, Step(w, e, mint), mint);
      }
  }

  lemma BeginKeeps(s0: Identities, s: Identities, order: seq<Instance>, now: string, mint: Mint)
    requires IsListing(order, s.instances)
    ensures PassKept(s0, s, Pass(order, 0, Looking, 0, now), mint)
  {
  }

  lemma OthersStayKept(s0: Identities, w: World, w': World, mint: Mint)
    requires Kept(s0, w, mint) && Grows(w.store, w'.store)
    ensures forall q | q in w.passes :: PassKept(s0, w'.store, w.passes[q], mint)
  {
    forall q | q in w.passes
      ensures PassKept(s0, w'.store, w.passes[q], mint)
    {
      PassStaysKept(s0, w.store, w'.store, w.passes[q], mint);
    }
  }

  /** A pass in flight is lost only to a crash or to a refused link, and a refused link is counted as raised. */
  lemma StepLosesOnlyRaised(w: World, e: Event, mint: Mint)
    ensures var after := Step(w, e, mint);
            var refused := e.Advance? && e.pass in w.passes && w.passes[e.pass].next < |w.passes[e.pass].listed|
                           && w.passes[e.pass].phase == Linking
                           && var id := w.passes[e.pass].listed[w.passes[e.pass].next].instanceId;
                              id !in w.store.instances || mint(id) !in w.store.agents;
            && after.raised == w.raised + (if refused then 1 else 0)
            && forall p | p in w.passes && p !in after.passes :: e == Crash(p) || (refused && e == Advance(p))
  {
  }

  /** However passes start, interleave and crash, and instances are deployed and updated meanwhile: Kept holds. */
  lemma {:induction false} InterleavingsKeep(s0: Identities, events: seq<Event>, mint: Mint)
    requires Injective(mint) && Clean(s0, mint)
    ensures Kept(s0, Play(World(s0, map[], 0), events, mint), mint)
  {
    if events == [] {
      CleanIsKept(s0, mint);
    } else {
      InterleavingsKeep(s0, events[..|events| - 1], mint);
      StepKeeps(s0, Play(World(s0, map[], 0), events[..|events| - 1], mint), events[|events| - 1], mint);
    }
  }

  /** A pass that reaches its end, interleaved with anything, has linked every instance it listed. */
  lemma {:induction false} FinishedPassHasLinked(s0: Identities, events: seq<Event>, pass: nat, mint: Mint)
    requires Injective(mint) && Clean(s0, mint)
    requires var w := Play(World(s0, map[], 0), events, mint);
             pass in w.passes && w.passes[pass].next >= |w.passes[pass].listed|
    ensures var w := Play(World(s0, map[], 0), events, mint);
            forall instance | instance in w.passes[pass].listed :: instance.instanceId in w.store.links
  {
    InterleavingsKeep(s0, events, mint);
  }

  // ---------------------------------------------------------------- one complete pass

  /** backfill_public_agents over a fixed listing, run without interruption. */
  function Backfill(s: Identities, todo: seq<Instance>, now: string, mint: Mint): Result<(Identities, nat), LinkFault> {
    if todo == [] then Ok((s, 0))
    else
      match Backfill(s, todo[..|todo| - 1], now, mint)
      case Err(fault) => Err(fault)
      case Ok((before, minted)) =>
        var instance := todo[|todo| - 1];
        if instance.instanceId in before.links then Ok((before, minted))
        else
          match Link(PersistAgent(before, Legacy(instance, now, mint)), instance.instanceId, mint(instance.instanceId))
          case Err(fault) => Err(fault)
          case Ok(after) => Ok((after, minted + 1))
  }

  /** The listed instances that had no link. */
  function Unlinked(todo: seq<Instance>, links: map<string, string>): seq<Instance> {
    if todo == [] then []
    else
      var instance := todo[|todo| - 1];
      Unlinked(todo[..|todo| - 1], links) + if instance.instanceId in links then [] else [instance]
  }

  /** What a pass over todo has done to the links. */
  ghost predicate LinkedAll(s: Identities, todo: seq<Instance>, after: Identities) {
    && after.instances == s.instances
    && (forall id | id in s.links :: id in after.links && after.links[id] == s.links[id])
    && (forall id | id in after.links :: id in s.links || exists i | 0 <= i < |todo| :: todo[i].instanceId == id)
    && (forall i | 0 <= i < |todo| :: todo[i].instanceId in after.links)
  }

  lemma LinkedOneMore(s: Identities, todo: seq<Instance>, instance: Instance, before: Identities, after: Identities)
    requires LinkedAll(s, todo, before) && after.instances == before.instances
    requires instance.instanceId in after.links
    requires forall id | id in before.links :: id in after.links && after.links[id] == before.links[id]
    requires forall id | id in after.links :: id in before.links || id == instance.instanceId
    ensures LinkedAll(s, todo + [instance], after)
  {
    var all := todo + [instance];
    forall id | id in after.links
      ensures id in s.links || exists i | 0 <= i < |all| :: all[i].instanceId == id
    {
      if id == instance.instanceId {
        assert all[|todo|].instanceId == id;
      } else if id !in s.links {
        var i :| 0 <= i < |todo| && todo[i].instanceId == id;
        assert all[i].instanceId == id;
      }
    }
  }

  lemma NotLinkedMeanwhile(s: Identities, todo: seq<Instance>, after: Identities, id: string)
    requires LinkedAll(s, todo, after)
    requires forall i | 0 <= i < |todo| :: todo[i].instanceId != id
    ensures id in after.links <==> id in s.links
  {
  }

  /** What a pass over todo has achieved. */
  ghost predicate Achieved(s0: Identities, s: Identities, todo: seq<Instance>, now: string, mint: Mint) {
    && Backfill(s, todo, now, mint).Ok?
    && var (after, minted) := Backfill(s, todo, now, mint).value;
       StoreKept(s0, after, mint) && minted == |Unlinked(todo, s.links)| && LinkedAll(s, todo, after)
  }

  /** A pass never raises, keeps the store, links what it lists and counts what was unlinked. */
  lemma {:induction false} BackfillLinks(s0: Identities, s: Identities, todo: seq<Instance>, now: string, mint: Mint)
    requires Injective(mint) && StoreKept(s0, s, mint)
    requires forall i | 0 <= i < |todo| ::
               todo[i].instanceId in s.instances && s.instances[todo[i].instanceId] == todo[i]
    requires forall i, j | 0 <= i < j < |todo| :: todo[i].instanceId != todo[j].instanceId
    ensures Achieved(s0, s, todo, now, mint)
  {
    if todo != [] {
      hide *;
      var n := |todo| - 1;
      BackfillLinks(s0, s, todo[..n], now, mint);
      AchievedOneMore(s0, s, todo, now, mint);
    }
  }

  lemma {:induction false} AchievedOneMore(s0: Identities, s: Identities, todo: seq<Instance>, now: string, mint: Mint)
    requires todo != [] && Injective(mint) && Achieved(s0, s, todo[..|todo| - 1], now, mint)
    requires var instance := todo[|todo| - 1];
             instance.instanceId in s.instances && s.instances[instance.instanceId] == instance
             && forall i | 0 <= i < |todo| - 1 :: todo[i].instanceId != instance.instanceId
    ensures Achieved(s0, s, todo, now, mint)
  {
    hide StoreKept, LinkedAll, Injective, Legacy, PersistAgent, Link, Grows;
    var front, instance := todo[..|todo| - 1], todo[|todo| - 1];
    var (before, minted) := Backfill(s, front, now, mint).value;
    NotLinkedMeanwhile(s, front, before, instance.instanceId);
    TakeDropAt(todo, |todo| - 1);
    assert todo[|todo| - 1..] == [instance];
    if instance.instanceId in before.links {
      LinkedOneMoreKnown(s, front, instance, before);
    } else {
      BackfillOne(s0, s, front, instance, before, now, mint);
    }
  }

  lemma LinkedOneMoreKnown(s: Identities, todo: seq<Instance>, instance: Instance, before: Identities)
    requires LinkedAll(s, todo, before) && instance.instanceId in before.links
    ensures LinkedAll(s, todo + [instance], before)
  {
    LinkedOneMore(s, todo, instance, before, before);
  }

  lemma NotLinkedAtFirst(s0: Identities, now: Identities, id: string, mint: Mint)
    requires StoreKept(s0, now, mint) && id !in now.links
    ensures id !in s0.links
  {
  }

  lemma {:induction false} BackfillOne(s0: Identities, s: Identities, todo: seq<Instance>, instance: Instance,
                                      before: Identities, now: string, mint: Mint)
    requires Injective(mint) && StoreKept(s0, before, mint) && LinkedAll(s, todo, before)
    requires instance.instanceId in s.instances && s.instances[instance.instanceId] == instance
    requires instance.instanceId !in before.links
    ensures var persisted := PersistAgent(before, Legacy(instance, now, mint));
            var linked := Link(persisted, instance.instanceId, mint(instance.instanceId));
            linked.Ok? && StoreKept(s0, linked.value, mint) && LinkedAll(s, todo + [instance], linked.value)
  {
    hide StoreKept, Injective, Grows;
    var id := instance.instanceId;
    NotLinkedAtFirst(s0, before, id, mint);
    PersistKeeps(s0, before, instance, now, mint);
    var persisted := PersistAgent(before, Legacy(instance, now, mint));
    LinkKeeps(s0, persisted, id, mint);
    LinkedOneMore(s, todo, instance, before, Link(persisted, id, mint(id)).value);
  }

  /** Every instance linked: the earlier ones as they were, the rest to their own legacy agent. */
  ghost predicate FullyBackfilled(s0: Identities, s: Identities, mint: Mint) {
    && (forall id | id in s.instances :: id in s.links)
    && (forall id | id in s0.links :: id in s.links && s.links[id] == s0.links[id])
    && (forall id | id in s.instances && id !in s0.links ::
          && s.links[id] == mint(id)
          && mint(id) in s.agents && IsLegacy(s.agents[mint(id)], s.instances[id], mint))
    && s.agents.Keys == s0.agents.Keys + set id | id in s.instances && id !in s0.links :: mint(id)
  }

  /**
   Whatever crashed or is still in flight, one complete pass leaves every instance linked, mints no
   duplicate and no orphan, and touches no earlier link; a further pass changes nothing and returns 0.
   */
  lemma {:induction false} CompletePassFinishes(s0: Identities, events: seq<Event>, order: seq<Instance>, now: string,
                             again: seq<Instance>, later: string, mint: Mint)
    requires Injective(mint) && Clean(s0, mint)
    requires IsListing(order, Play(World(s0, map[], 0), events, mint).store.instances)
    requires IsListing(again, Play(World(s0, map[], 0), events, mint).store.instances)
    ensures var s := Play(World(s0, map[], 0), events, mint).store;
            && Backfill(s, order, now, mint).Ok?
            && var (after, minted) := Backfill(s, order, now, mint).value;
               && FullyBackfilled(s0, after, mint)
               && minted == |Unlinked(order, s.links)|
               && Backfill(after, again, later, mint) == Ok((after, 0))
  {
    var s := Play(World(s0, map[], 0), events, mint).store;
    InterleavingsKeep(s0, events, mint);
    BackfillLinks(s0, s, order, now, mint);
    var after := Backfill(s, order, now, mint).value.0;
    AllLinkedIsFull(s0, s, order, after, mint);
    NothingLeftToDo(after, again, later, mint);
  }

  lemma AllLinkedIsFull(s0: Identities, s: Identities, order: seq<Instance>, after: Identities, mint: Mint)
    requires StoreKept(s0, after, mint) && after.instances == s.instances && IsListing(order, s.instances)
    requires forall i | 0 <= i < |order| :: order[i].instanceId in after.links
    ensures FullyBackfilled(s0, after, mint)
  {
    forall id | id in after.instances
      ensures id in after.links
    {
      assert after.instances[id] in order;
    }
    forall id | id in after.instances && id !in s0.links
      ensures after.links[id] == mint(id) && mint(id) in after.agents
      ensures IsLegacy(after.agents[mint(id)], after.instances[id], mint)
    {
      assert Untouched(after, id, mint);
    }
  }

  lemma {:induction false} NothingLeftToDo(s: Identities, todo: seq<Instance>, now: string, mint: Mint)
    requires forall i | 0 <= i < |todo| :: todo[i].instanceId in s.links
    ensures Backfill(s, todo, now, mint) == Ok((s, 0))
  {
    if todo != [] {
      NothingLeftToDo(s, todo[..|todo| - 1], now, mint);
    }
  }

  // ---------------------------------------------------------------- the two forms of a pass

  function StepsLeft(p: Pass): nat {
    if p.next >= |p.listed| then 0
    else 3 * (|p.listed| - p.next) - match p.phase case Looking => 0 case Persisting => 1 case Linking => 2
  }

  /** The steps of one pass with nothing in between, to its end. */
  function RunPass(s: Identities, p: Pass, mint: Mint): Result<(Identities, Pass), LinkFault>
    decreases StepsLeft(p)
  {
    if p.next >= |p.listed| then Ok((s, p))
    else
      match AdvancePass(s, p, mint)
      case Err(fault) => Err(fault)
      case Ok((s', p')) => RunPass(s', p', mint)
  }

  /** Up to the k-th instance the steps do what the loop does, and count what it counts. */
  lemma {:induction false} StepsFollowLoop(s: Identities, todo: seq<Instance>, k: nat, now: string, mint: Mint)
    requires k <= |todo|
    ensures match Backfill(s, todo[..k], now, mint)
            case Err(fault) => RunPass(s, Pass(todo, 0, Looking, 0, now), mint) == Err(fault)
            case Ok((after, minted)) =>
              RunPass(s, Pass(todo, 0, Looking, 0, now), mint)
              == RunPass(after, Pass(todo, k, Looking, minted, now), mint)
  {
    hide RunPass, PersistAgent, Legacy, Link;
    if k > 0 {
      StepsFollowLoop(s, todo, k - 1, now, mint);
      assert todo[..k][..k - 1] == todo[..k - 1];
      if Backfill(s, todo[..k - 1], now, mint).Ok? {
        var (before, minted) := Backfill(s, todo[..k - 1], now, mint).value;
        ThreeSteps(before, todo, k - 1, minted, now, mint);
      }
    }
  }

  lemma ThreeSteps(s: Identities, todo: seq<Instance>, k: nat, minted: nat, now: string, mint: Mint)
    requires k < |todo|
    ensures var p := Pass(todo, k, Looking, minted, now);
            var id := todo[k].instanceId;
            RunPass(s, p, mint)
            == if id in s.links then RunPass(s, Pass(todo, k + 1, Looking, minted, now), mint)
               else
                 match Link(PersistAgent(s, Legacy(todo[k], now, mint)), id, mint(id))
                 case Err(fault) => Err(fault)
                 case Ok(after) => RunPass(after, Pass(todo, k + 1, Looking, minted + 1, now), mint)
  {
    hide PersistAgent, Legacy, Link;
    var p := Pass(todo, k, Looking, minted, now);
    var persisting, linking := p.(phase := Persisting), p.(phase := Linking);
    if todo[k].instanceId !in s.links {
      assert RunPass(s, p, mint) == RunPass(s, persisting, mint);
      assert RunPass(s, persisting, mint) == RunPass(PersistAgent(s, Legacy(todo[k], now, mint)), linking, mint);
    }
  }

  /** Step by step with nothing in between, a pass is the loop: same store, same count, same fault. */
  lemma UninterruptedPassIsTheLoop(s: Identities, todo: seq<Instance>, now: string, mint: Mint)
    ensures match Backfill(s, todo, now, mint)
            case Err(fault) => RunPass(s, Pass(todo, 0, Looking, 0, now), mint) == Err(fault)
            case Ok((after, minted)) =>
              RunPass(s, Pass(todo, 0, Looking, 0, now), mint)
              == Ok((after, Pass(todo, |todo|, Looking, minted, now)))
  {
    hide AdvancePass, Backfill;
    StepsFollowLoop(s, todo, |todo|, now, mint);
    assert todo[..|todo|] == todo;
  }
}
