/**
 veridex/public_projection.py over the projected rows of veridex/store.py: sealed score rows become
 public leaderboard rows, are upserted per (run, public agent), and are read back as a board joined
 with the current visibility of each agent.
 */
module Projection {
  import opened Prelude
  import opened Folds
  import opened Grouping
  import opened Ranking
  import opened Scoring
  import opened Leaderboard
  import opened PublicAgents

  datatype PublicBinding = PublicBinding(publicAgentId: string, instanceId: string, configHash: string)

  datatype PublicRow = PublicRow(record: Record, publicAgentId: string, runtimeAgentId: string,
                                 instanceId: string, configHash: string, runId: string)

  datatype ProjectionError = InvalidSourceMode | Unbound(runtimeAgentId: string)

  // ---------------------------------------------------------------- projecting a run

  predicate ValidSourceMode(mode: string) {
    mode == "replay" || mode == "live"
  }

  /** The row copied under its public id, with its provenance. */
  function ProjectRow(sealed: Record, b: PublicBinding, runId: string, mode: string): PublicRow {
    PublicRow(sealed.(metrics := sealed.metrics.(agentId := b.publicAgentId), sourceMode := Some(mode)),
              b.publicAgentId, sealed.metrics.agentId, b.instanceId, b.configHash, runId)
  }

  /** Fail-closed: either every row is bound and projected in order, or nothing is. */
  method ProjectPublicRows(sealed: seq<Record>, bindings: map<string, PublicBinding>, runId: string, mode: string)
    returns (r: Result<seq<PublicRow>, ProjectionError>)
    ensures r.Ok? <==> ValidSourceMode(mode) && forall i | 0 <= i < |sealed| :: sealed[i].metrics.agentId in bindings
    ensures r.Ok? ==>
              |r.value| == |sealed|
              && forall i | 0 <= i < |sealed| ::
                   r.value[i] == ProjectRow(sealed[i], bindings[sealed[i].metrics.agentId], runId, mode)
    ensures mode != "replay" && mode != "live" <==> r == Err(InvalidSourceMode)
    ensures r.Err? && r.error.Unbound? ==>
              exists i | 0 <= i < |sealed| ::
                && sealed[i].metrics.agentId == r.error.runtimeAgentId && r.error.runtimeAgentId !in bindings
                && forall j | 0 <= j < i :: sealed[j].metrics.agentId in bindings
    ensures r.Ok? ==>
              forall i | 0 <= i < |sealed| ::
                var (row, b) := (r.value[i], bindings[sealed[i].metrics.agentId]);
                && row.publicAgentId == row.record.metrics.agentId == b.publicAgentId
                && row.runtimeAgentId == sealed[i].metrics.agentId
                && row.instanceId == b.instanceId && row.configHash == b.configHash
                && row.runId == runId && row.record.sourceMode == Some(mode)
                && row.record.anchorStatus == sealed[i].anchorStatus
                && row.record.metrics.(agentId := row.runtimeAgentId) == sealed[i].metrics
  {
    if !ValidSourceMode(mode) { return Err(InvalidSourceMode); }
    var rows: seq<PublicRow> := [];
    for k := 0 to |sealed|
      invariant |rows| == k
      invariant forall i | 0 <= i < k :: sealed[i].metrics.agentId in bindings
      invariant forall i | 0 <= i < k ::
                  rows[i] == ProjectRow(sealed[i], bindings[sealed[i].metrics.agentId], runId, mode)
    {
      var runtimeAgentId := sealed[k].metrics.agentId;
      if runtimeAgentId !in bindings { return Err(Unbound(runtimeAgentId)); }
      rows := rows + [ProjectRow(sealed[k], bindings[runtimeAgentId], runId, mode)];
    }
    return Ok(rows);
  }

  // ---------------------------------------------------------------- the stored rows

  type RowTable = map<(string, string), PublicRow>

  function RowKey(r: PublicRow): (string, string) {
    (r.runId, r.publicAgentId)
  }

  /** persist_projected_rows: an upsert per row, the later row winning. */
  function Persist(table: RowTable, rows: seq<PublicRow>): RowTable {
    if rows == [] then table
    else Persist(table, rows[..|rows| - 1])[RowKey(rows[|rows| - 1]) := rows[|rows| - 1]]
  }

  ghost predicate WellKeyed(table: RowTable) {
    forall k | k in table :: RowKey(table[k]) == k
  }

  lemma {:induction false} PersistWellKeyed(table: RowTable, rows: seq<PublicRow>)
    requires WellKeyed(table)
    ensures WellKeyed(Persist(table, rows))
  {
    if rows != [] {
      PersistWellKeyed(table, rows[..|rows| - 1]);
    }
  }

  /** Rows that the table already holds change nothing when persisted again. */
  lemma {:induction false} PersistStored(table: RowTable, rows: seq<PublicRow>)
    requires forall i | 0 <= i < |rows| :: RowKey(rows[i]) in table && table[RowKey(rows[i])] == rows[i]
    ensures Persist(table, rows) == table
  {
    if rows != [] {
      PersistStored(table, rows[..|rows| - 1]);
    }
  }

  /** Rows of one upsert that share a key are the same row. */
  predicate NoKeyClash(rows: seq<PublicRow>) {
    forall i, j | 0 <= i < j < |rows| && RowKey(rows[i]) == RowKey(rows[j]) :: rows[i] == rows[j]
  }

  lemma {:induction false} PersistHolds(table: RowTable, rows: seq<PublicRow>, i: nat)
    requires NoKeyClash(rows) && i < |rows|
    ensures RowKey(rows[i]) in Persist(table, rows) && Persist(table, rows)[RowKey(rows[i])] == rows[i]
  {
    var n := |rows| - 1;
    if i < n {
      PersistHolds(table, rows[..n], i);
    }
  }

  predicate DrawnFrom(again: seq<PublicRow>, rows: seq<PublicRow>) {
    forall i | 0 <= i < |again| :: again[i] in rows
  }

  /**
   Re-persisting already persisted rows, in any order and any number of times, is harmless exactly when
   no two of them clash: two runtime agents bound to one public agent in one run overwrite each other.
   */
  lemma RepersistIsHarmlessExactly(table: RowTable, rows: seq<PublicRow>)
    ensures (forall again: seq<PublicRow> :: DrawnFrom(again, rows) ==>
               Persist(Persist(table, rows), again) == Persist(table, rows))
        <==> NoKeyClash(rows)
  {
    var after := Persist(table, rows);
    if NoKeyClash(rows) {
      forall again: seq<PublicRow> | DrawnFrom(again, rows)
        ensures Persist(after, again) == after
      {
        forall i | 0 <= i < |again|
          ensures RowKey(again[i]) in after && after[RowKey(again[i])] == again[i]
        {
          var j :| 0 <= j < |rows| && rows[j] == again[i];
          PersistHolds(table, rows, j);
        }
        PersistStored(after, again);
      }
    }
    if forall again: seq<PublicRow> :: DrawnFrom(again, rows) ==> Persist(after, again) == after {
      forall i, j | 0 <= i < j < |rows| && RowKey(rows[i]) == RowKey(rows[j])
        ensures rows[i] == rows[j]
      {
        StableHolds(after, rows, i);
        StableHolds(after, rows, j);
      }
    }
  }

  lemma StableHolds(after: RowTable, rows: seq<PublicRow>, i: nat)
    requires i < |rows|
    requires forall again: seq<PublicRow> :: DrawnFrom(again, rows) ==> Persist(after, again) == after
    ensures RowKey(rows[i]) in after && after[RowKey(rows[i])] == rows[i]
  {
    PersistOne(after, rows[i]);
    assert DrawnFrom([rows[i]], rows);
    assert after[RowKey(rows[i]) := rows[i]] == after;
    assert after[RowKey(rows[i]) := rows[i]][RowKey(rows[i])] == rows[i];
  }

  lemma PersistOne(table: RowTable, row: PublicRow)
    ensures Persist(table, [row]) == table[RowKey(row) := row]
  {
    assert Persist(table, []) == table;
  }

  /** list_projected_rows: every stored row once, in any order. */
  predicate IsRowListing(order: seq<PublicRow>, table: RowTable) {
    && (forall i | 0 <= i < |order| :: RowKey(order[i]) in table && table[RowKey(order[i])] == order[i])
    && (forall i, j | 0 <= i < j < |order| :: RowKey(order[i]) != RowKey(order[j]))
    && forall k | k in table :: table[k] in order
  }

  lemma ListingsPermute(a: seq<PublicRow>, b: seq<PublicRow>, table: RowTable)
    requires IsRowListing(a, table) && IsRowListing(b, table)
    ensures multiset(a) == multiset(b)
  {
    forall x
      ensures multiset(a)[x] == multiset(b)[x]
    {
      assert forall i, j | 0 <= i < j < |a| :: a[i] != a[j];
      assert forall i, j | 0 <= i < j < |b| :: b[i] != b[j];
      CountOfDistinct(a, x);
      CountOfDistinct(b, x);
      assert x in a ==> table[RowKey(x)] == x && table[RowKey(x)] in b;
      assert x in b ==> table[RowKey(x)] == x && table[RowKey(x)] in a;
    }
  }

  // ---------------------------------------------------------------- the board

  datatype BoardKind = OfficialBenchmark | AllPublicAgents

  /** The agent is there, public now, and official if the board asks for it. */
  predicate Listed(agents: map<string, PublicAgent>, kind: BoardKind, id: string) {
    && id in agents && agents[id].visibility == Public
    && (kind == OfficialBenchmark ==> agents[id].operatorClass == Official)
  }

  function IsListed(agents: map<string, PublicAgent>, kind: BoardKind): PublicRow -> bool {
    (r: PublicRow) => Listed(agents, kind, r.publicAgentId)
  }

  function RecordOf(r: PublicRow): Record {
    r.record
  }

  datatype DirectionalRow = DirectionalRow(rank: nat, row: BoardRow, publicAgentId: string, displayName: string)

  function KeptRows(agents: map<string, PublicAgent>, kind: BoardKind, rows: seq<PublicRow>): seq<PublicRow> {
    Filter(rows, IsListed(agents, kind))
  }

  function PublicIds(rows: seq<PublicRow>): (ids: set<string>)
    ensures forall r | r in rows :: r.publicAgentId in ids
  {
    set r | r in rows :: r.publicAgentId
  }

  /** The display names resolved for the kept rows. */
  function Names(agents: map<string, PublicAgent>, kind: BoardKind, rows: seq<PublicRow>): map<string, string> {
    map id | id in PublicIds(rows) && Listed(agents, kind, id) :: agents[id].displayName
  }

  function PublicBoard(agents: map<string, PublicAgent>, kind: BoardKind, rows: seq<PublicRow>): seq<BoardRow> {
    Board(Map(KeptRows(agents, kind, rows), RecordOf))
  }

  /** The rows dressed with their names; None is the KeyError of a name that was never resolved. */
  function Dressed(names: map<string, string>, board: seq<BoardRow>): Option<seq<DirectionalRow>> {
    if forall i | 0 <= i < |board| :: board[i].agentId in names then
      Some(seq(|board|, i requires 0 <= i < |board| =>
        DirectionalRow(i + 1, board[i], board[i].agentId, names[board[i].agentId])))
    else None
  }

  function DirectionalBoard(agents: map<string, PublicAgent>, kind: BoardKind, rows: seq<PublicRow>):
    Option<seq<DirectionalRow>>
  {
    Dressed(Names(agents, kind, rows), PublicBoard(agents, kind, rows))
  }

  /** A row as project_public_rows makes it: grouped under its public id. */
  predicate Projected(r: PublicRow) {
    r.record.metrics.agentId == r.publicAgentId
  }

  /** The agents on a board are the agents of its records. */
  lemma {:induction false} BoardAgents(records: seq<Record>, i: nat)
    requires i < |Board(records)|
    ensures exists r | r in records :: AgentOf(r) == Board(records)[i].agentId
  {
    BoardIsTheRankedRows(records);
    var rows, board := Aggregated(records), Board(records);
    SameMembers(rows, board);
    assert board[i] in rows;
    var j :| 0 <= j < |rows| && rows[j] == board[i];
    var a := Agents(records)[j];
    assert a in Map(records, AgentOf);
  }

  lemma RecordHasBoardRow(records: seq<Record>, r: Record)
    requires r in records
    ensures exists i | 0 <= i < |Board(records)| :: Board(records)[i].agentId == AgentOf(r)
  {
    BoardIsTheRankedRows(records);
    SameMembers(Aggregated(records), Board(records));
    var j := AgentPosition(records, r);
    hide Board, Aggregated, Agents, Aggregate;
    var row := Aggregated(records)[j];
    assert row in Board(records);
    var i :| 0 <= i < |Board(records)| && Board(records)[i] == row;
  }

  lemma {:induction false} AgentPosition(records: seq<Record>, r: Record) returns (j: nat)
    requires r in records
    ensures j < |Aggregated(records)| && Aggregated(records)[j].agentId == AgentOf(r)
  {
    hide Distinct, Filter;
    var k :| 0 <= k < |records| && records[k] == r;
    assert Map(records, AgentOf)[k] == AgentOf(r);
    assert AgentOf(r) in Map(records, AgentOf);
    assert AgentOf(r) in Agents(records);
    j :| 0 <= j < |Agents(records)| && Agents(records)[j] == AgentOf(r);
  }

  /** The name lookup succeeds exactly when every kept row is grouped under a kept public id. */
  lemma {:induction false} NameLookupSucceedsExactly(agents: map<string, PublicAgent>, kind: BoardKind,
                                                    rows: seq<PublicRow>)
    ensures DirectionalBoard(agents, kind, rows).Some?
        <==> forall r | r in KeptRows(agents, kind, rows) :: AgentOf(RecordOf(r)) in Names(agents, kind, rows)
  {
    var kept, names := KeptRows(agents, kind, rows), Names(agents, kind, rows);
    var records := Map(kept, RecordOf);
    var board := Board(records);
    hide Board, Filter, KeptRows, Names;
    if forall i | 0 <= i < |board| :: board[i].agentId in names {
      forall r | r in kept
        ensures AgentOf(RecordOf(r)) in names
      {
        var k :| 0 <= k < |kept| && kept[k] == r;
        assert records[k] == RecordOf(r);
        RecordHasBoardRow(records, RecordOf(r));
      }
    }
    if forall r | r in kept :: AgentOf(RecordOf(r)) in names {
      forall i | 0 <= i < |board|
        ensures board[i].agentId in names
      {
        BoardAgents(records, i);
        var x :| x in records && AgentOf(x) == board[i].agentId;
        var k :| 0 <= k < |records| && records[k] == x;
        assert kept[k] in kept;
      }
    }
  }

  /**
   The agents with a row that are public, and official if the board asks for it: each once, under its name, in rank
   order, and no others.
   */
  ghost predicate ShowsExactly(board: seq<DirectionalRow>, agents: map<string, PublicAgent>, kind: BoardKind,
                               rows: seq<PublicRow>)
  {
    && (forall i | 0 <= i < |board| ::
          && board[i].rank == i + 1
          && board[i].row.agentId == board[i].publicAgentId && board[i].publicAgentId in agents
          && var agent := agents[board[i].publicAgentId];
             && agent.visibility == Public && (kind == OfficialBenchmark ==> agent.operatorClass == Official)
             && board[i].displayName == agent.displayName)
    && (forall i, j | 0 <= i < j < |board| ::
          board[i].publicAgentId != board[j].publicAgentId && Above(board[i].row, board[j].row))
    && forall r | r in rows && r.publicAgentId in agents && agents[r.publicAgentId].visibility == Public
                  && (kind == OfficialBenchmark ==> agents[r.publicAgentId].operatorClass == Official) ::
         exists i | 0 <= i < |board| :: board[i].publicAgentId == r.publicAgentId
  }

  /** For projected rows the board is never refused and shows exactly the listed agents. */
  lemma {:induction false} BoardShowsListedAgents(agents: map<string, PublicAgent>, kind: BoardKind,
                                                 rows: seq<PublicRow>)
    requires forall r | r in rows :: Projected(r)
    ensures DirectionalBoard(agents, kind, rows).Some?
    ensures ShowsExactly(DirectionalBoard(agents, kind, rows).value, agents, kind, rows)
  {
    hide PublicBoard, Above, Listed, Names, KeptRows;
    var shown, names := PublicBoard(agents, kind, rows), Names(agents, kind, rows);
    BoardIsNamed(agents, kind, rows);
    var board := DirectionalBoard(agents, kind, rows).value;
    assert |board| == |shown| && forall i | 0 <= i < |board| ::
        board[i] == DirectionalRow(i + 1, shown[i], shown[i].agentId, names[shown[i].agentId]);
    assert forall i | 0 <= i < |board| :: shown[i].agentId in names;
    BoardInOrder(agents, kind, rows);
    NamesAreCurrent(agents, kind, rows);
    forall id
      ensures Listed(agents, kind, id) <==>
                && id in agents && agents[id].visibility == Public
                && (kind == OfficialBenchmark ==> agents[id].operatorClass == Official)
    {
      ListedMeans(agents, kind, id);
    }
    forall r | r in rows && Listed(agents, kind, r.publicAgentId)
      ensures exists i | 0 <= i < |board| :: board[i].publicAgentId == r.publicAgentId
    {
      ListedIsShown(agents, kind, rows, r);
      var i :| 0 <= i < |shown| && shown[i].agentId == r.publicAgentId;
      assert board[i].publicAgentId == r.publicAgentId;
    }
  }

  lemma ListedMeans(agents: map<string, PublicAgent>, kind: BoardKind, id: string)
    ensures Listed(agents, kind, id) <==>
              && id in agents && agents[id].visibility == Public
              && (kind == OfficialBenchmark ==> agents[id].operatorClass == Official)
  {
  }

  lemma BoardIsNamed(agents: map<string, PublicAgent>, kind: BoardKind, rows: seq<PublicRow>)
    requires forall r | r in rows :: Projected(r)
    ensures DirectionalBoard(agents, kind, rows).Some?
  {
    hide Board, KeptRows, Names, Listed;
    KeptRowsAreListed(agents, kind, rows);
    NameLookupSucceedsExactly(agents, kind, rows);
  }

  lemma BoardInOrder(agents: map<string, PublicAgent>, kind: BoardKind, rows: seq<PublicRow>)
    ensures var shown := PublicBoard(agents, kind, rows);
            forall i, j | 0 <= i < j < |shown| :: Above(shown[i], shown[j]) && shown[i].agentId != shown[j].agentId
  {
    hide Board, KeptRows, Above;
    BoardIsTheRankedRows(Map(KeptRows(agents, kind, rows), RecordOf));
  }

  lemma ListedIsShown(agents: map<string, PublicAgent>, kind: BoardKind, rows: seq<PublicRow>, r: PublicRow)
    requires r in rows && Projected(r) && Listed(agents, kind, r.publicAgentId)
    ensures var shown := PublicBoard(agents, kind, rows);
            exists i | 0 <= i < |shown| :: shown[i].agentId == r.publicAgentId
  {
    hide Board, KeptRows, Listed;
    var records := Map(KeptRows(agents, kind, rows), RecordOf);
    ListedRowIsKept(agents, kind, rows, r);
    RecordHasBoardRow(records, RecordOf(r));
    var i :| 0 <= i < |Board(records)| && Board(records)[i].agentId == AgentOf(RecordOf(r));
    assert PublicBoard(agents, kind, rows)[i].agentId == r.publicAgentId;
  }

  lemma ListedRowIsKept(agents: map<string, PublicAgent>, kind: BoardKind, rows: seq<PublicRow>, r: PublicRow)
    requires r in rows && Listed(agents, kind, r.publicAgentId)
    ensures RecordOf(r) in Map(KeptRows(agents, kind, rows), RecordOf)
  {
    var kept := KeptRows(agents, kind, rows);
    assert IsListed(agents, kind)(r);
    var k :| 0 <= k < |kept| && kept[k] == r;
    assert Map(kept, RecordOf)[k] == RecordOf(r);
  }


  lemma KeptRowsAreListed(agents: map<string, PublicAgent>, kind: BoardKind, rows: seq<PublicRow>)
    ensures forall r | r in KeptRows(agents, kind, rows) :: r in rows && r.publicAgentId in Names(agents, kind, rows)
  {
  }

  lemma NamesAreCurrent(agents: map<string, PublicAgent>, kind: BoardKind, rows: seq<PublicRow>)
    ensures forall id | id in Names(agents, kind, rows) ::
              Listed(agents, kind, id) && Names(agents, kind, rows)[id] == agents[id].displayName
  {
  }

  /** The board is a function of the stored rows: the order they are listed in does not matter. */
  lemma {:induction false} BoardIgnoresListingOrder(agents: map<string, PublicAgent>, kind: BoardKind, table: RowTable,
                                 a: seq<PublicRow>, b: seq<PublicRow>)
    requires IsRowListing(a, table) && IsRowListing(b, table)
    ensures DirectionalBoard(agents, kind, a) == DirectionalBoard(agents, kind, b)
  {
    ListingsPermute(a, b, table);
    SameRowsSameBoard(agents, kind, a, b);
  }

  lemma {:induction false} SameRowsSameBoard(agents: map<string, PublicAgent>, kind: BoardKind,
                                            a: seq<PublicRow>, b: seq<PublicRow>)
    requires multiset(a) == multiset(b)
    ensures DirectionalBoard(agents, kind, a) == DirectionalBoard(agents, kind, b)
  {
    hide Board, Filter, Listed;
    SameMembers(a, b);
    FilterPermutation(a, b, IsListed(agents, kind));
    var ka, kb := KeptRows(agents, kind, a), KeptRows(agents, kind, b);
    MapPermutation(ka, kb, RecordOf);
    BoardIgnoresRecordOrder(Map(ka, RecordOf), Map(kb, RecordOf));
    SameMembersSameNames(agents, kind, a, b);
  }

  lemma SameMembersSameNames(agents: map<string, PublicAgent>, kind: BoardKind, a: seq<PublicRow>, b: seq<PublicRow>)
    requires forall x :: x in a <==> x in b
    ensures Names(agents, kind, a) == Names(agents, kind, b)
  {
    assert PublicIds(a) == PublicIds(b);
  }

  // ---------------------------------------------------------------- hiding and unhiding

  function WithVisibility(agents: map<string, PublicAgent>, id: string, v: Visibility, updatedAt: string):
    map<string, PublicAgent>
    requires id in agents
  {
    var a := agents[id];
    agents[id := a.(visibility := v, updatedAt := updatedAt, version := a.version + 1)]
  }

  function NotOf(id: string): PublicRow -> bool {
    (r: PublicRow) => r.publicAgentId != id
  }

  lemma {:induction false} HiddenIsFiltered(agents: map<string, PublicAgent>, kind: BoardKind, rows: seq<PublicRow>,
                                            id: string, updatedAt: string)
    requires id in agents
    ensures KeptRows(WithVisibility(agents, id, Private, updatedAt), kind, rows)
         == KeptRows(agents, kind, Filter(rows, NotOf(id)))
  {
    if rows != [] {
      var front, r := rows[..|rows| - 1], rows[|rows| - 1];
      HiddenIsFiltered(agents, kind, front, id, updatedAt);
      assert Listed(WithVisibility(agents, id, Private, updatedAt), kind, r.publicAgentId)
         <==> NotOf(id)(r) && Listed(agents, kind, r.publicAgentId);
      if NotOf(id)(r) {
        FilterSnoc(Filter(front, NotOf(id)), r, IsListed(agents, kind));
      }
    }
  }

  /** Hiding an agent gives the board that deleting its rows would give; the rows stay stored. */
  lemma {:induction false} HidingIsDeleting(agents: map<string, PublicAgent>, kind: BoardKind, rows: seq<PublicRow>,
                         id: string, updatedAt: string)
    requires id in agents
    ensures DirectionalBoard(WithVisibility(agents, id, Private, updatedAt), kind, rows)
         == DirectionalBoard(agents, kind, Filter(rows, NotOf(id)))
  {
    hide Board, KeptRows;
    HiddenIsFiltered(agents, kind, rows, id, updatedAt);
    HiddenNames(agents, kind, rows, id, updatedAt);
    hide Names, WithVisibility, Filter;
  }

  lemma HiddenNames(agents: map<string, PublicAgent>, kind: BoardKind, rows: seq<PublicRow>,
                    id: string, updatedAt: string)
    requires id in agents
    ensures Names(WithVisibility(agents, id, Private, updatedAt), kind, rows)
         == Names(agents, kind, Filter(rows, NotOf(id)))
  {
    IdsWithout(rows, id);
  }

  lemma IdsWithout(rows: seq<PublicRow>, id: string)
    ensures PublicIds(Filter(rows, NotOf(id))) == PublicIds(rows) - {id}
  {
    var rest := Filter(rows, NotOf(id));
    assert forall r :: r in rest <==> r in rows && r.publicAgentId != id;
  }

  lemma {:induction false} SameListedSameRows(a: map<string, PublicAgent>, b: map<string, PublicAgent>, kind: BoardKind,
                                              rows: seq<PublicRow>)
    requires forall id :: Listed(a, kind, id) <==> Listed(b, kind, id)
    ensures KeptRows(a, kind, rows) == KeptRows(b, kind, rows)
  {
    if rows != [] {
      SameListedSameRows(a, b, kind, rows[..|rows| - 1]);
    }
  }

  /** Making the agent public again restores the board exactly. */
  lemma {:induction false} UnhidingRestores(agents: map<string, PublicAgent>, kind: BoardKind, rows: seq<PublicRow>,
                         id: string, hiddenAt: string, shownAt: string)
    requires id in agents && agents[id].visibility == Public
    ensures var hidden := WithVisibility(agents, id, Private, hiddenAt);
            var shown := WithVisibility(hidden, id, Public, shownAt);
            DirectionalBoard(shown, kind, rows) == DirectionalBoard(agents, kind, rows)
  {
    hide Board, KeptRows;
    var restored := WithVisibility(WithVisibility(agents, id, Private, hiddenAt), id, Public, shownAt);
    SameListedSameRows(restored, agents, kind, rows);
    assert Names(restored, kind, rows) == Names(agents, kind, rows);
  }
}
