/**
 The two callers of the store that are modelled as code: backfill_public_agents of
 veridex/public_agent_backfill.py and directional_board of veridex/public_projection.py.
 */
module StoreClients {
  import opened Prelude
  import I = PublicAgents
  import P = Projection
  import B = PublicBoards
  import opened InMemoryStore
  import Leaderboard
  import Ranking

  /**
   Persist, then link, every instance that has no link yet. `listed` is the listing the pass took. An
   uninterrupted pass never raises: it is the specification on that listing, with its count.
   */
  method BackfillPublicAgents(store: Store, now: string, mint: I.Mint)
    returns (minted: nat, ghost listed: seq<I.Instance>)
    requires store.Valid()
    modifies store`publicAgents, store`instancePublicAgent
    ensures I.IsListing(listed, old(store.agentInstances))
    ensures I.Backfill(old(store.Identities()), listed, now, mint) == Ok((store.Identities(), minted))
  {
    var order := store.ListAgentInstances();
    listed := order;
    minted := 0;
    ghost var before := store.Identities();
    hide I.PersistAgent, I.Link, I.Legacy, I.Backfill;
    NoPassYet(before, now, mint);
    for k := 0 to |order|
      invariant store.agentInstances == before.instances
      invariant I.Backfill(before, order[..k], now, mint) == Ok((store.Identities(), minted))
    {
      PassStep(before, order, k, now, mint, store.Identities(), minted);
      var instance := order[k];
      if instance.instanceId !in store.instancePublicAgent {
        MintAndLink(store, instance, now, mint);
        minted := minted + 1;
      }
    }
    assert order[..|order|] == order;
  }

  lemma NoPassYet(s: I.Identities, now: string, mint: I.Mint)
    ensures I.Backfill(s, [], now, mint) == Ok((s, 0))
  {
  }

  lemma {:induction false} PassStep(s: I.Identities, todo: seq<I.Instance>, k: nat, now: string, mint: I.Mint,
                 before: I.Identities, minted: nat)
    requires k < |todo| && I.Backfill(s, todo[..k], now, mint) == Ok((before, minted))
    ensures todo[k].instanceId in before.links ==> I.Backfill(s, todo[..k + 1], now, mint) == Ok((before, minted))
    ensures todo[k].instanceId !in before.links ==>
              var persisted := I.PersistAgent(before, I.Legacy(todo[k], now, mint));
              var linked := I.Link(persisted, todo[k].instanceId, mint(todo[k].instanceId));
              linked.Ok? ==> I.Backfill(s, todo[..k + 1], now, mint) == Ok((linked.value, minted + 1))
  {
    assert todo[..k + 1][..k] == todo[..k];
  }

  /** The two writes for one instance, which cannot fail back to back. */
  method MintAndLink(store: Store, instance: I.Instance, now: string, mint: I.Mint)
    requires instance.instanceId in store.agentInstances
    modifies store`publicAgents, store`instancePublicAgent
    ensures I.Link(I.PersistAgent(old(store.Identities()), I.Legacy(instance, now, mint)),
                   instance.instanceId, mint(instance.instanceId)) == Ok(store.Identities())
    ensures var pid := mint(instance.instanceId);
            && store.instancePublicAgent == old(store.instancePublicAgent)[instance.instanceId := pid]
            && store.publicAgents.Keys == old(store.publicAgents.Keys) + {pid}
            && (forall id | id in old(store.publicAgents) && id != pid ::
                  store.publicAgents[id] == old(store.publicAgents)[id])
            && var agent := store.publicAgents[pid];
               && agent.publicAgentId == pid && agent.displayName == instance.agentId
               && agent.operatorClass == I.User && agent.origin == I.Unknown && agent.visibility == I.Private
               && agent.ownerRef == instance.operatorId && agent.createdAt == now == agent.updatedAt
               && agent.version == 1
  {
    var pid := mint(instance.instanceId);
    store.PersistPublicAgent(
      I.PublicAgent(pid, instance.agentId, I.User, I.Unknown, I.Private, instance.operatorId, now, now, 1));
    var fault := store.LinkInstancePublicAgent(instance.instanceId, pid);
    assert fault == None;
  }

  /**
   Each public agent is resolved once; rows of absent, hidden or (on the benchmark) unofficial agents
   are dropped; the rest are aggregated, ranked and named. `listed` is the listing the read took. Each lookup
   is awaited, so it finds what other callers have made of the agents by then: during(k) at row k.
   */
  method DirectionalBoard(store: Store, kind: P.BoardKind, during: B.During)
    returns (board: Option<seq<P.DirectionalRow>>, ghost listed: seq<P.PublicRow>)
    requires store.Valid()
    ensures P.IsRowListing(listed, store.projectedRows)
    ensures board == P.DirectionalBoard(B.Resolution(listed, during), kind, listed)
  {
    var rows := store.ListProjectedRows();
    listed := rows;
    var kept, names := KeepListed(kind, rows, during);
    var ranked := Leaderboard.BuildLeaderboard(Map(kept, P.RecordOf));
    board := Dress(names, ranked, P.PublicBoard(B.Resolution(rows, during), kind, rows));
  }

  /** agg["public_agent_id"] and agg["display_name"] = names[agg["agent_id"]], or the missing name. */
  method Dress(names: map<string, string>, ranked: seq<Ranking.Ranked<Leaderboard.BoardRow>>,
               ghost rows: seq<Leaderboard.BoardRow>)
    returns (out: Option<seq<P.DirectionalRow>>)
    requires ranked == Ranking.WithRanks(rows)
    ensures out == P.Dressed(names, rows)
  {
    var dressed: seq<P.DirectionalRow> := [];
    for k := 0 to |ranked|
      invariant |dressed| == k
      invariant forall i | 0 <= i < k :: rows[i].agentId in names
      invariant forall i | 0 <= i < k ::
                  dressed[i] == P.DirectionalRow(i + 1, rows[i], rows[i].agentId, names[rows[i].agentId])
    {
      var agg := ranked[k].row;
      if agg.agentId !in names {
        assert rows[k].agentId !in names;
        return None;
      }
      dressed := dressed + [P.DirectionalRow(ranked[k].rank, agg, agg.agentId, names[agg.agentId])];
    }
    out := Some(dressed);
    assert P.Dressed(names, rows).Some? && P.Dressed(names, rows).value == dressed;
  }

  method KeepListed(kind: P.BoardKind, rows: seq<P.PublicRow>, during: B.During)
    returns (kept: seq<P.PublicRow>, names: map<string, string>)
    ensures kept == P.KeptRows(B.Resolution(rows, during), kind, rows)
    ensures names == P.Names(B.Resolution(rows, during), kind, rows)
  {
    hide Filter, P.Names, P.PublicIds, P.KeptRows, P.IsListed, B.Resolution;
    ghost var found := B.Resolution(rows, during);
    var resolved: map<string, Option<I.PublicAgent>> := map[];
    kept, names := [], map[];
    NothingKept(found, kind);
    assert rows[..0] == [];
    for k := 0 to |rows|
      invariant forall i | 0 <= i < k :: rows[i].publicAgentId in resolved
      invariant forall id | id in resolved :: exists i | 0 <= i < k :: rows[i].publicAgentId == id
      invariant forall id | id in resolved :: resolved[id] == if id in found then Some(found[id]) else None
      invariant kept == P.KeptRows(found, kind, rows[..k])
      invariant names == P.Names(found, kind, rows[..k])
    {
      assert rows[..k + 1] == rows[..k] + [rows[k]];
      KeptOfMore(found, kind, rows[..k], rows[k]);
      NamesOfMore(found, kind, rows[..k], rows[k]);
      var id := rows[k].publicAgentId;
      if id !in resolved {
        B.ResolvedAtFirstRow(rows, during, k);
        resolved := resolved[id := if id in during(k) then Some(during(k)[id]) else None];
      }
      var agent := resolved[id];
      if agent == None || agent.value.visibility != I.Public { continue; }
      if kind == P.OfficialBenchmark && agent.value.operatorClass != I.Official { continue; }
      names := names[id := agent.value.displayName];
      kept := kept + [rows[k]];
    }
    assert rows[..|rows|] == rows;
  }

  lemma NothingKept(agents: map<string, I.PublicAgent>, kind: P.BoardKind)
    ensures P.KeptRows(agents, kind, []) == [] && P.Names(agents, kind, []) == map[]
  {
  }

  lemma KeptOfMore(agents: map<string, I.PublicAgent>, kind: P.BoardKind, rows: seq<P.PublicRow>, r: P.PublicRow)
    ensures P.KeptRows(agents, kind, rows + [r])
         == if P.Listed(agents, kind, r.publicAgentId) then P.KeptRows(agents, kind, rows) + [r]
            else P.KeptRows(agents, kind, rows)
  {
    hide Filter, P.Listed;
    FilterSnoc(rows, r, P.IsListed(agents, kind));
  }

  lemma NamesOfMore(agents: map<string, I.PublicAgent>, kind: P.BoardKind, rows: seq<P.PublicRow>, r: P.PublicRow)
    ensures P.Names(agents, kind, rows + [r])
         == if P.Listed(agents, kind, r.publicAgentId)
            then P.Names(agents, kind, rows)[r.publicAgentId := agents[r.publicAgentId].displayName]
            else P.Names(agents, kind, rows)
  {
    var ids, more := P.PublicIds(rows), P.PublicIds(rows + [r]);
    assert forall x :: x in rows + [r] <==> x in rows || x == r;
    assert more == ids + {r.publicAgentId};
    hide P.Listed, P.PublicIds;
  }
}
