/**
 The public board end to end: runs projected by veridex/public_projection.py and persisted into
 veridex/store.py, then read back by a loop that awaits one agent lookup per public id, so that other
 callers may change an agent's visibility between the lookups.
 */
module PublicBoards {
  import opened Prelude
  import opened Leaderboard
  import opened PublicAgents
  import opened Projection

  // ---------------------------------------------------------------- published runs

  /** One call of project_public_rows. */
  datatype Publication =
    Publication(sealed: seq<Record>, bindings: map<string, PublicBinding>, runId: string, mode: string)

  /** The call succeeds: the mode is known and every sealed row is bound. */
  predicate Accepted(p: Publication) {
    ValidSourceMode(p.mode) && forall i | 0 <= i < |p.sealed| :: p.sealed[i].metrics.agentId in p.bindings
  }

  /** The rows it returns. */
  function RowsOfPublication(p: Publication): (rows: seq<PublicRow>)
    requires Accepted(p)
    ensures |rows| == |p.sealed|
    ensures forall i | 0 <= i < |rows| ::
              rows[i] == ProjectRow(p.sealed[i], p.bindings[p.sealed[i].metrics.agentId], p.runId, p.mode)
  {
    seq(|p.sealed|, i requires 0 <= i < |p.sealed| =>
      ProjectRow(p.sealed[i], p.bindings[p.sealed[i].metrics.agentId], p.runId, p.mode))
  }

  /** The table after publishing runs one after the other; a refused projection persists nothing. */
  function Published(publications: seq<Publication>): RowTable {
    if publications == [] then map[]
    else
      var last, before := publications[|publications| - 1], Published(publications[..|publications| - 1]);
      if Accepted(last) then Persist(before, RowsOfPublication(last)) else before
  }

  ghost predicate AllProjected(table: RowTable) {
    forall k | k in table :: Projected(table[k])
  }

  lemma {:induction false} PersistKeepsProjected(table: RowTable, rows: seq<PublicRow>)
    requires AllProjected(table) && forall i | 0 <= i < |rows| :: Projected(rows[i])
    ensures AllProjected(Persist(table, rows))
  {
    if rows != [] {
      PersistKeepsProjected(table, rows[..|rows| - 1]);
    }
  }

  lemma {:induction false} PublishedIsProjected(publications: seq<Publication>)
    ensures WellKeyed(Published(publications)) && AllProjected(Published(publications))
  {
    hide WellKeyed, Persist;
    if publications == [] {
      NothingPublished();
    } else {
      var last, front := publications[|publications| - 1], publications[..|publications| - 1];
      PublishedIsProjected(front);
      if Accepted(last) {
        PersistWellKeyed(Published(front), RowsOfPublication(last));
        PersistKeepsProjected(Published(front), RowsOfPublication(last));
      }
    }
  }

  lemma NothingPublished()
    ensures WellKeyed(map[]) && AllProjected(map[])
  {
  }

  /** Row i of the run has a row of the run under its key. */
  ghost predicate Holds(now: RowTable, p: Publication, i: nat)
    requires i < |p.sealed| && forall j | 0 <= j < |p.sealed| :: p.sealed[j].metrics.agentId in p.bindings
  {
    var key := (p.runId, p.bindings[p.sealed[i].metrics.agentId].publicAgentId);
    && key in now
    && exists j | 0 <= j < |p.sealed| ::
         now[key] == ProjectRow(p.sealed[j], p.bindings[p.sealed[j].metrics.agentId], p.runId, p.mode)
  }

  /** The rows of other runs are as they were. */
  ghost predicate OthersKept(was: RowTable, now: RowTable, runId: string) {
    forall k | k in was.Keys + now.Keys && k.0 != runId :: k in was && k in now && now[k] == was[k]
  }

  /**
   A run whose mode is known and whose rows are all bound is stored, every row under its run and public id, and no
   other run is touched. Any other run changes nothing.
   */
  lemma PublishedHolds(publications: seq<Publication>, p: Publication)
    ensures var (was, now) := (Published(publications), Published(publications + [p]));
            if (p.mode == "replay" || p.mode == "live")
               && forall i | 0 <= i < |p.sealed| :: p.sealed[i].metrics.agentId in p.bindings
            then OthersKept(was, now, p.runId) && forall i | 0 <= i < |p.sealed| :: Holds(now, p, i)
            else now == was
  {
    hide Persist, Holds, OthersKept;
    assert (publications + [p])[..|publications|] == publications;
    if Accepted(p) {
      var was := Published(publications);
      OtherRunsKept(was, p);
      forall i | 0 <= i < |p.sealed|
        ensures Holds(Persist(was, RowsOfPublication(p)), p, i)
      {
        RowHeld(was, p, i);
      }
    }
  }

  lemma RowHeld(table: RowTable, p: Publication, i: nat)
    requires Accepted(p) && i < |p.sealed|
    ensures Holds(Persist(table, RowsOfPublication(p)), p, i)
  {
    hide Persist, ProjectRow, RowKey;
    var rows := RowsOfPublication(p);
    PersistHasRows(table, rows);
    ProjectedKey(p, i);
    var held := Persist(table, rows)[RowKey(rows[i])];
    var j :| 0 <= j < |rows| && rows[j] == held;
  }

  lemma OtherRunsKept(table: RowTable, p: Publication)
    requires Accepted(p)
    ensures OthersKept(table, Persist(table, RowsOfPublication(p)), p.runId)
  {
    hide Persist, ProjectRow, RowKey;
    var rows := RowsOfPublication(p);
    var now := Persist(table, rows);
    PersistHasRows(table, rows);
    forall k | k in table.Keys + now.Keys && k.0 != p.runId
      ensures k in table && k in now && now[k] == table[k]
    {
      forall j | 0 <= j < |rows|
        ensures RowKey(rows[j]) != k
      {
        ProjectedKey(p, j);
      }
    }
  }

  lemma ProjectedKey(p: Publication, i: nat)
    requires Accepted(p) && i < |p.sealed|
    ensures RowKey(RowsOfPublication(p)[i]) == (p.runId, p.bindings[p.sealed[i].metrics.agentId].publicAgentId)
  {
  }

  /** Every row persisted leaves one of them under its key, and other keys are left alone. */
  lemma {:induction false} PersistHasRows(table: RowTable, rows: seq<PublicRow>)
    ensures forall i | 0 <= i < |rows| ::
              RowKey(rows[i]) in Persist(table, rows) && Persist(table, rows)[RowKey(rows[i])] in rows
    ensures forall k | (forall j | 0 <= j < |rows| :: RowKey(rows[j]) != k) ::
              (k in Persist(table, rows) <==> k in table) && (k in table ==> Persist(table, rows)[k] == table[k])
  {
    hide RowKey;
    if rows != [] {
      var n := |rows| - 1;
      PersistHasRows(table, rows[..n]);
      assert rows == rows[..n] + [rows[n]];
    }
  }

  /**
   Whatever runs were published, the board over any listing of the store is never refused and shows exactly the
   public agents with a row (the official ones on the benchmark), each once, under its current name.
   */
  lemma PublishedBoard(publications: seq<Publication>, rows: seq<PublicRow>, agents: map<string, PublicAgent>,
                       kind: BoardKind)
    requires IsRowListing(rows, Published(publications))
    ensures DirectionalBoard(agents, kind, rows).Some?
    ensures ShowsExactly(DirectionalBoard(agents, kind, rows).value, agents, kind, rows)
  {
    hide DirectionalBoard, Published, ShowsExactly;
    PublishedIsProjected(publications);
    assert forall r | r in rows :: Projected(r);
    BoardShowsListedAgents(agents, kind, rows);
  }

  /**
   Where re-persisting does harm: two runtime agents of a run bound to one public agent. Projecting them
   gives two rows under one key, and persisting the first again takes the place of the second.
   */
  lemma TwoRuntimeAgentsClash(p: Publication, table: RowTable)
    requires Accepted(p) && |p.sealed| == 2 && p.sealed[0].metrics.agentId != p.sealed[1].metrics.agentId
    requires var (a, b) := (p.sealed[0].metrics.agentId, p.sealed[1].metrics.agentId);
             p.bindings[a].publicAgentId == p.bindings[b].publicAgentId
    ensures var rows := RowsOfPublication(p);
            && !NoKeyClash(rows) && RowKey(rows[0]) == RowKey(rows[1])
            && Persist(table, rows)[RowKey(rows[0])] == rows[1]
            && Persist(Persist(table, rows), [rows[0]])[RowKey(rows[0])] == rows[0] != rows[1]
  {
    var rows := RowsOfPublication(p);
    assert rows[0].runtimeAgentId != rows[1].runtimeAgentId;
    PersistOne(Persist(table, rows), rows[0]);
  }

  // ---------------------------------------------------------------- the interleaved read

  /** The public agents in the store when the lookup for row k is made. */
  type During = nat -> map<string, PublicAgent>

  /** The first row of its public id, where the id is looked up. */
  predicate FirstOfItsId(rows: seq<PublicRow>, k: nat) {
    k < |rows| && forall i | 0 <= i < k :: rows[i].publicAgentId != rows[k].publicAgentId
  }

  /** Every public id with the agent its one lookup found. */
  function Resolution(rows: seq<PublicRow>, during: During): map<string, PublicAgent> {
    if rows == [] then map[]
    else
      var n := |rows| - 1;
      var id := rows[n].publicAgentId;
      if FirstOfItsId(rows, n) && id in during(n) then Resolution(rows[..n], during)[id := during(n)[id]]
      else Resolution(rows[..n], during)
  }

  lemma {:induction false} ResolvedIdsAreListed(rows: seq<PublicRow>, during: During, id: string)
    requires id in Resolution(rows, during)
    ensures exists k | 0 <= k < |rows| :: rows[k].publicAgentId == id && FirstOfItsId(rows, k)
  {
    var n := |rows| - 1;
    if id in Resolution(rows[..n], during) {
      ResolvedIdsAreListed(rows[..n], during, id);
      var k :| 0 <= k < n && rows[..n][k].publicAgentId == id && FirstOfItsId(rows[..n], k);
      assert forall i | 0 <= i <= k :: rows[i] == rows[..n][i];
      assert FirstOfItsId(rows, k);
    } else {
      assert FirstOfItsId(rows, n);
    }
  }

  lemma {:induction false} UnlistedIsUnresolved(rows: seq<PublicRow>, during: During, id: string)
    requires forall i | 0 <= i < |rows| :: rows[i].publicAgentId != id
    ensures id !in Resolution(rows, during)
  {
    if rows != [] {
      UnlistedIsUnresolved(rows[..|rows| - 1], during, id);
    }
  }

  /** The resolution holds what each lookup found. */
  lemma {:induction false} ResolvedAtFirstRow(rows: seq<PublicRow>, during: During, k: nat)
    requires FirstOfItsId(rows, k)
    ensures var id := rows[k].publicAgentId;
            && (id in Resolution(rows, during) <==> id in during(k))
            && (id in during(k) ==> Resolution(rows, during)[id] == during(k)[id])
  {
    var n, id := |rows| - 1, rows[k].publicAgentId;
    if k < n {
      assert forall i | 0 <= i <= k :: rows[..n][i] == rows[i];
      ResolvedAtFirstRow(rows[..n], during, k);
      assert rows[n].publicAgentId == id ==> !FirstOfItsId(rows, n);
    } else {
      UnlistedIsUnresolved(rows[..n], during, id);
    }
  }

  /**
   However agents change while the board is read: every agent shown was public (official, on the benchmark)
   when it was looked up, and stands under the name it had then.
   */
  lemma ShownAgentsWerePublicWhenLookedUp(rows: seq<PublicRow>, during: During, kind: BoardKind)
    requires forall r | r in rows :: Projected(r)
    ensures DirectionalBoard(Resolution(rows, during), kind, rows).Some?
    ensures forall row | row in DirectionalBoard(Resolution(rows, during), kind, rows).value ::
              exists k | 0 <= k < |rows| ::
                && rows[k].publicAgentId == row.publicAgentId && FirstOfItsId(rows, k)
                && row.publicAgentId in during(k)
                && var agent := during(k)[row.publicAgentId];
                   && agent.visibility == Public && (kind == OfficialBenchmark ==> agent.operatorClass == Official)
                   && row.displayName == agent.displayName
  {
    hide DirectionalBoard, Resolution;
    BoardShowsListedAgents(Resolution(rows, during), kind, rows);
    var board := DirectionalBoard(Resolution(rows, during), kind, rows).value;
    forall row | row in board
      ensures exists k | 0 <= k < |rows| ::
                && rows[k].publicAgentId == row.publicAgentId && FirstOfItsId(rows, k)
                && row.publicAgentId in during(k)
                && var agent := during(k)[row.publicAgentId];
                   && agent.visibility == Public && (kind == OfficialBenchmark ==> agent.operatorClass == Official)
                   && row.displayName == agent.displayName
    {
      var i :| 0 <= i < |board| && board[i] == row;
      ResolvedIdsAreListed(rows, during, row.publicAgentId);
      var k :| 0 <= k < |rows| && rows[k].publicAgentId == row.publicAgentId && FirstOfItsId(rows, k);
      ResolvedAtFirstRow(rows, during, k);
    }
  }

  /** Agents that stay as they are while the board is read give the board on those agents. */
  lemma SteadyAgentsGiveTheirBoard(rows: seq<PublicRow>, during: During, agents: map<string, PublicAgent>,
                                   kind: BoardKind)
    requires forall k | 0 <= k < |rows| :: during(k) == agents
    ensures DirectionalBoard(Resolution(rows, during), kind, rows) == DirectionalBoard(agents, kind, rows)
  {
    hide Resolution, Board;
    forall r | r in rows
      ensures Listed(Resolution(rows, during), kind, r.publicAgentId) <==> Listed(agents, kind, r.publicAgentId)
      ensures Listed(agents, kind, r.publicAgentId) ==>
                Resolution(rows, during)[r.publicAgentId] == agents[r.publicAgentId]
    {
      var k := FirstRowOf(rows, r.publicAgentId);
      ResolvedAtFirstRow(rows, during, k);
    }
    BoardReadsListedIds(Resolution(rows, during), agents, kind, rows);
  }

  lemma FirstRowOf(rows: seq<PublicRow>, id: string) returns (k: nat)
    requires exists r | r in rows :: r.publicAgentId == id
    ensures FirstOfItsId(rows, k) && rows[k].publicAgentId == id
  {
    var r :| r in rows && r.publicAgentId == id;
    k := 0;
    while rows[k].publicAgentId != id
      invariant k < |rows| && forall i | 0 <= i < k :: rows[i].publicAgentId != id
      decreases |rows| - k
    {
      assert exists i | k < i < |rows| :: rows[i] == r;
      k := k + 1;
    }
  }

  /** The board reads no agent but those of its rows. */
  lemma BoardReadsListedIds(a: map<string, PublicAgent>, b: map<string, PublicAgent>, kind: BoardKind,
                            rows: seq<PublicRow>)
    requires forall r | r in rows :: Listed(a, kind, r.publicAgentId) <==> Listed(b, kind, r.publicAgentId)
    requires forall r | r in rows && Listed(a, kind, r.publicAgentId) && Listed(b, kind, r.publicAgentId) ::
               a[r.publicAgentId] == b[r.publicAgentId]
    ensures DirectionalBoard(a, kind, rows) == DirectionalBoard(b, kind, rows)
  {
    hide Board, Listed;
    SameRowsKept(a, b, kind, rows);
    assert Names(a, kind, rows) == Names(b, kind, rows);
  }

  lemma {:induction false} SameRowsKept(a: map<string, PublicAgent>, b: map<string, PublicAgent>, kind: BoardKind,
                                        rows: seq<PublicRow>)
    requires forall r | r in rows :: Listed(a, kind, r.publicAgentId) <==> Listed(b, kind, r.publicAgentId)
    ensures KeptRows(a, kind, rows) == KeptRows(b, kind, rows)
  {
    hide Listed;
    if rows != [] {
      SameRowsKept(a, b, kind, rows[..|rows| - 1]);
    }
  }
}
