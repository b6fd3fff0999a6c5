/**
 veridex/leaderboard.py: pooling per-run rows into one row per agent and ranking the board. The main
 lemmas: the order of the records is irrelevant, and only the rank fields decide the order.
 */
module Leaderboard {
  import opened Prelude
  import opened Sorting
  import opened Folds
  import opened Grouping
  import opened Ranking
  import opened Scoring

  /** A score_run row, tagged with the anchor status and source mode of its run when known. */
  datatype Record = Record(metrics: Metrics, anchorStatus: Option<string>, sourceMode: Option<string>)

  datatype BoardRow = BoardRow(
    agentId: string, runs: nat, avgClv: Option<real>, totalClv: int, simPnl: int, brier: Option<real>,
    maxDrawdown: int, actionCount: int, validPct: real, proofMode: string, eligibilityBadge: string,
    anchorStatus: string, sourceMode: string, validCount: int,
    avgWindowClv: Option<real>, totalWindowClv: int, windowActionCount: int)

  function BoardKey(r: BoardRow): Key {
    Key(r.avgClv, r.totalClv, r.brier, r.maxDrawdown, r.actionCount, r.agentId)
  }

  // ---------------------------------------------------------------- aggregation

  function AgentOf(r: Record): string { r.metrics.agentId }
  function TotalClvOf(r: Record): int { r.metrics.totalClv }
  function SimPnlOf(r: Record): int { r.metrics.simPnl }
  function ActionsOf(r: Record): int { r.metrics.actionCount }
  function ValidOf(r: Record): int { r.metrics.validCount }
  function TotalWindowOf(r: Record): int { r.metrics.totalWindowClv }
  function WindowActionsOf(r: Record): int { r.metrics.windowActionCount }
  function ValidPctOf(r: Record): real { r.metrics.validPct }
  function DrawdownOf(r: Record): Option<int> { Some(r.metrics.maxDrawdown) }
  function BrierOf(r: Record): real { if r.metrics.brier.Some? then r.metrics.brier.value else 0.0 }
  function BrierCount(r: Record): int { if r.metrics.brier.Some? then 1 else 0 }
  predicate Anchored(r: Record) { r.anchorStatus == Some("anchored") }

  /** The mean of the values that are there, or None. */
  function MeanOfPresent(total: real, count: int): Option<real> {
    if count > 0 then Some(total / count as real) else None
  }

  function Summary(rows: seq<Record>, all: string, some: string, none: string): string {
    var confirmed := |Filter(rows, Anchored)|;
    if confirmed == |rows| && confirmed > 0 then all else if confirmed > 0 then some else none
  }

  function SourceModes(rows: seq<Record>): set<string> {
    set r | r in rows && r.sourceMode.Some? :: r.sourceMode.value
  }

  function SourceModeSummary(rows: seq<Record>): string {
    var modes := SourceModes(rows);
    if modes == {} then "unknown"
    else if modes == {"replay"} then "all-replay"
    else if modes == {"live"} then "all-live"
    else "mixed"
  }

  function ProofModes(rows: seq<Record>): set<string> {
    set r | r in rows :: r.metrics.proofMode
  }

  function ProofModeSummary(rows: seq<Record>): string
    requires rows != []
  {
    var first := rows[0].metrics.proofMode;
    if ProofModes(rows) == {first} then first else "mixed"
  }

  /** Sums and pooled means; the unweighted valid_pct and brier; the worst drawdown. */
  function Aggregate(agentId: string, rows: seq<Record>): BoardRow
    requires rows != []
  {
    var totalClv, actionCount := Total(rows, TotalClvOf), Total(rows, ActionsOf);
    var totalWindow, windowCount := Total(rows, TotalWindowOf), Total(rows, WindowActionsOf);
    LowestIsSome(rows);
    BoardRow(
      agentId, |rows|, Mean(totalClv, actionCount), totalClv, Total(rows, SimPnlOf),
      MeanOfPresent(TotalReal(rows, BrierOf), Total(rows, BrierCount)),
      Lowest(rows, DrawdownOf).value, actionCount, TotalReal(rows, ValidPctOf) / |rows| as real,
      ProofModeSummary(rows),
      Summary(rows, "fully-proven", "partially-proven", "unproven"),
      Summary(rows, "all-anchored", "some-pending", "none-anchored"),
      SourceModeSummary(rows), Total(rows, ValidOf), Mean(totalWindow, windowCount), totalWindow, windowCount)
  }

  lemma LowestIsSome(rows: seq<Record>)
    ensures rows != [] ==> Lowest(rows, DrawdownOf).Some?
  {
  }

  // ---------------------------------------------------------------- the board

  function Agents(records: seq<Record>): seq<string> {
    Distinct(Map(records, AgentOf))
  }

  function RecordsOf(records: seq<Record>, a: string): seq<Record> {
    Filter(records, HasId(AgentOf, a))
  }

  lemma {:induction false} AgentsHaveRecords(records: seq<Record>, a: string)
    ensures a in Agents(records) <==> RecordsOf(records, a) != []
  {
    if records != [] {
      var front, last := records[..|records| - 1], records[|records| - 1];
      AgentsHaveRecords(front, a);
      assert Map(records, AgentOf)[..|records| - 1] == Map(front, AgentOf);
    }
  }

  /** One row per agent, in first-seen order. */
  function Aggregated(records: seq<Record>): (r: seq<BoardRow>)
    ensures |r| == |Agents(records)|
    ensures forall i | 0 <= i < |r| ::
              RecordsOf(records, Agents(records)[i]) != []
              && r[i] == Aggregate(Agents(records)[i], RecordsOf(records, Agents(records)[i]))
  {
    var agents := Agents(records);
    AllAgentsHaveRecords(records);
    seq(|agents|, i requires 0 <= i < |agents| => Aggregate(agents[i], RecordsOf(records, agents[i])))
  }

  lemma AllAgentsHaveRecords(records: seq<Record>)
    ensures forall i | 0 <= i < |Agents(records)| :: RecordsOf(records, Agents(records)[i]) != []
  {
    forall i | 0 <= i < |Agents(records)|
      ensures RecordsOf(records, Agents(records)[i]) != []
    {
      AgentsHaveRecords(records, Agents(records)[i]);
    }
  }

  function Board(records: seq<Record>): seq<BoardRow> {
    Sort(Aggregated(records), ByKey(BoardKey))
  }

  /** a stands above b on the board by its own figures. */
  predicate Above(a: BoardRow, b: BoardRow) {
    Ahead(Key(a.avgClv, a.totalClv, a.brier, a.maxDrawdown, a.actionCount, a.agentId),
          Key(b.avgClv, b.totalClv, b.brier, b.maxDrawdown, b.actionCount, b.agentId))
  }

  lemma {:induction false} BoardBestFirst(records: seq<Record>)
    ensures forall i, j | 0 <= i < j < |Board(records)| :: Above(Board(records)[i], Board(records)[j])
  {
    hide Aggregated, Sort, KeyLe, Ahead, TotalPreorder;
    ByKeyIsPreorder(BoardKey);
    SortSorts(Aggregated(records), ByKey(BoardKey));
    var board := Board(records);
    forall i, j | 0 <= i < j < |board|
      ensures Above(board[i], board[j])
    {
      assert ByKey(BoardKey)(board[i], board[j]);
      KeyLeIsAhead(BoardKey(board[i]), BoardKey(board[j]));
    }
  }

  method BuildLeaderboard(records: seq<Record>) returns (board: seq<Ranked<BoardRow>>)
    ensures board == WithRanks(Board(records))
    ensures forall i | 0 <= i < |board| :: board[i].rank == i + 1
    ensures forall i, j | 0 <= i < j < |board| :: Above(board[i].row, board[j].row)
  {
    BoardBestFirst(records);
    var order, groups := GroupBy([], records, AgentOf);
    var aggregated := AggregateGroups(records, order, groups);
    var sorted := Sort(aggregated, ByKey(BoardKey));
    board := AssignRanks(sorted);
  }

  method AggregateGroups(records: seq<Record>, order: seq<string>, groups: map<string, seq<Record>>)
    returns (aggregated: seq<BoardRow>)
    requires Grouped([], records, AgentOf, order, groups)
    ensures aggregated == Aggregated(records)
  {
    hide Aggregate, Filter, Distinct;
    assert [] + Map(records, AgentOf) == Map(records, AgentOf);
    aggregated := [];
    for k := 0 to |order|
      invariant aggregated == Aggregated(records)[..k]
    {
      assert groups[order[k]] == RecordsOf(records, order[k]);
      assert Aggregated(records)[k] == Aggregate(order[k], RecordsOf(records, order[k]));
      aggregated := aggregated + [Aggregate(order[k], groups[order[k]])];
    }
  }

  // ---------------------------------------------------------------- record order is irrelevant

  lemma {:induction false} AggregatePermutation(agentId: string, a: seq<Record>, b: seq<Record>)
    requires a != [] && b != [] && multiset(a) == multiset(b)
    ensures Aggregate(agentId, a) == Aggregate(agentId, b)
  {
    SameMembers(a, b);
    FilterPermutation(a, b, Anchored);
    SameMembers(Filter(a, Anchored), Filter(b, Anchored));
    SummariesPermute(a, b);
    SumsPermute(a, b);
    hide Filter, ProofModeSummary, SourceModeSummary, Fold;
  }

  lemma SummariesPermute(a: seq<Record>, b: seq<Record>)
    requires a != [] && b != []
    requires forall x :: x in a <==> x in b
    ensures ProofModeSummary(a) == ProofModeSummary(b) && SourceModeSummary(a) == SourceModeSummary(b)
  {
    assert SourceModes(a) == SourceModes(b);
    assert ProofModes(a) == ProofModes(b);
    assert a[0].metrics.proofMode in ProofModes(a) && b[0].metrics.proofMode in ProofModes(b);
  }

  lemma SumsPermute(a: seq<Record>, b: seq<Record>)
    requires multiset(a) == multiset(b)
    ensures Total(a, TotalClvOf) == Total(b, TotalClvOf) && Total(a, ActionsOf) == Total(b, ActionsOf)
    ensures Total(a, TotalWindowOf) == Total(b, TotalWindowOf) && Total(a, WindowActionsOf) == Total(b, WindowActionsOf)
    ensures Total(a, SimPnlOf) == Total(b, SimPnlOf) && Total(a, ValidOf) == Total(b, ValidOf)
    ensures Total(a, BrierCount) == Total(b, BrierCount) && TotalReal(a, BrierOf) == TotalReal(b, BrierOf)
    ensures TotalReal(a, ValidPctOf) == TotalReal(b, ValidPctOf) && Lowest(a, DrawdownOf) == Lowest(b, DrawdownOf)
  {
    Monoids();
    hide Fold, CommutativeMonoid;
    FoldPermutation(a, b, TotalClvOf, AddInt, 0);
    FoldPermutation(a, b, ActionsOf, AddInt, 0);
    FoldPermutation(a, b, TotalWindowOf, AddInt, 0);
    FoldPermutation(a, b, WindowActionsOf, AddInt, 0);
    FoldPermutation(a, b, SimPnlOf, AddInt, 0);
    FoldPermutation(a, b, ValidOf, AddInt, 0);
    FoldPermutation(a, b, BrierCount, AddInt, 0);
    FoldPermutation(a, b, BrierOf, AddReal, 0.0);
    FoldPermutation(a, b, ValidPctOf, AddReal, 0.0);
    FoldPermutation(a, b, DrawdownOf, Least, None);
  }

  lemma AgentsPermute(a: seq<Record>, b: seq<Record>, x: string)
    requires multiset(a) == multiset(b)
    ensures multiset(RecordsOf(a, x)) == multiset(RecordsOf(b, x))
    ensures x in Agents(a) <==> x in Agents(b)
  {
    FilterPermutation(a, b, HasId(AgentOf, x));
    SameMembers(RecordsOf(a, x), RecordsOf(b, x));
    AgentsHaveRecords(a, x);
    AgentsHaveRecords(b, x);
  }

  /** The aggregated row of every agent of a is an aggregated row of b. */
  lemma {:induction false} AggregatedIncluded(a: seq<Record>, b: seq<Record>, i: nat)
    requires multiset(a) == multiset(b) && i < |Aggregated(a)|
    ensures Aggregated(a)[i] in Aggregated(b)
  {
    hide Aggregate, Distinct, Filter;
    var x := Agents(a)[i];
    AgentsPermute(a, b, x);
    var j :| 0 <= j < |Agents(b)| && Agents(b)[j] == x;
    AggregatePermutation(x, RecordsOf(a, x), RecordsOf(b, x));
    assert Aggregated(b)[j] == Aggregated(a)[i];
  }

  lemma AggregatedDistinct(records: seq<Record>, i: nat, j: nat)
    requires i < |Aggregated(records)| && j < |Aggregated(records)|
    ensures Aggregated(records)[i].agentId == Aggregated(records)[j].agentId <==> i == j
  {
    assert Aggregated(records)[i].agentId == Agents(records)[i];
    assert Aggregated(records)[j].agentId == Agents(records)[j];
  }

  lemma CountOfDistinct<T>(s: seq<T>, x: T)
    requires forall i, j | 0 <= i < j < |s| :: s[i] != s[j]
    ensures multiset(s)[x] == if x in s then 1 else 0
  {
    if s != [] {
      CountOfDistinct(s[..|s| - 1], x);
      assert s == s[..|s| - 1] + [s[|s| - 1]];
    }
  }

  lemma {:induction false} AggregatedPermutes(a: seq<Record>, b: seq<Record>)
    requires multiset(a) == multiset(b)
    ensures multiset(Aggregated(a)) == multiset(Aggregated(b))
  {
    var p, q := Aggregated(a), Aggregated(b);
    hide Aggregate, Distinct;
    forall x
      ensures multiset(p)[x] == multiset(q)[x]
    {
      RowsDistinct(a);
      RowsDistinct(b);
      CountOfDistinct(p, x);
      CountOfDistinct(q, x);
      if x in p {
        var i :| 0 <= i < |p| && p[i] == x;
        AggregatedIncluded(a, b, i);
      }
      if x in q {
        var i :| 0 <= i < |q| && q[i] == x;
        AggregatedIncluded(b, a, i);
      }
    }
  }

  lemma RowsDistinct(records: seq<Record>)
    ensures forall i, j | 0 <= i < j < |Aggregated(records)| :: Aggregated(records)[i] != Aggregated(records)[j]
  {
    forall i, j | 0 <= i < j < |Aggregated(records)|
      ensures Aggregated(records)[i] != Aggregated(records)[j]
    {
      AggregatedDistinct(records, i, j);
    }
  }

  lemma KeysDistinct(records: seq<Record>)
    ensures forall x, y | x in Aggregated(records) && y in Aggregated(records) && BoardKey(x) == BoardKey(y) :: x == y
  {
    var rows := Aggregated(records);
    forall x, y | x in rows && y in rows && BoardKey(x) == BoardKey(y)
      ensures x == y
    {
      var i :| 0 <= i < |rows| && rows[i] == x;
      var j :| 0 <= j < |rows| && rows[j] == y;
      AggregatedDistinct(records, i, j);
    }
  }

  /** In exact arithmetic any permutation of the records gives the same board, rows, order and ranks. */
  lemma {:induction false} BoardIgnoresRecordOrder(a: seq<Record>, b: seq<Record>)
    requires multiset(a) == multiset(b)
    ensures Board(a) == Board(b)
  {
    AggregatedPermutes(a, b);
    KeysDistinct(a);
    SortedByKeyIsUnique(Aggregated(a), Aggregated(b), BoardKey);
  }

  /** The board holds exactly one row per agent, best first in the strict rank order. */
  lemma {:induction false} BoardIsTheRankedRows(records: seq<Record>)
    ensures multiset(Board(records)) == multiset(Aggregated(records))
    ensures forall i, j | 0 <= i < j < |Board(records)| ::
              Above(Board(records)[i], Board(records)[j]) && Board(records)[i].agentId != Board(records)[j].agentId
  {
    hide Aggregate, Agents, RecordsOf, Sort, Ahead, TotalPreorder;
    BoardBestFirst(records);
    ByKeyIsPreorder(BoardKey);
    var rows, board := Aggregated(records), Board(records);
    SortSorts(rows, ByKey(BoardKey));
    IdsDistinct(records);
    DistinctIdsPermute(rows, board, RowId);
    assert forall k | 0 <= k < |board| :: RowId(board[k]) == board[k].agentId;
  }

  function RowId(r: BoardRow): string {
    r.agentId
  }

  lemma IdsDistinct(records: seq<Record>)
    ensures forall i, j | 0 <= i < j < |Aggregated(records)| ::
              RowId(Aggregated(records)[i]) != RowId(Aggregated(records)[j])
  {
    forall i, j | 0 <= i < j < |Aggregated(records)|
      ensures RowId(Aggregated(records)[i]) != RowId(Aggregated(records)[j])
    {
      AggregatedDistinct(records, i, j);
    }
  }

  /** Distinct ids stay distinct under permutation. */
  lemma DistinctIdsPermute<T>(a: seq<T>, b: seq<T>, id: T -> string)
    requires multiset(a) == multiset(b)
    requires forall i, j | 0 <= i < j < |a| :: id(a[i]) != id(a[j])
    ensures forall i, j | 0 <= i < j < |b| :: id(b[i]) != id(b[j])
  {
    SameMembers(a, b);
    forall x
      ensures multiset(b)[x] <= 1
    {
      CountOfDistinct(a, x);
    }
    OnceEach(b);
    forall i, j | 0 <= i < j < |b|
      ensures id(b[i]) != id(b[j])
    {
      assert b[i] in a && b[j] in a;
      var k :| 0 <= k < |a| && a[k] == b[i];
      var l :| 0 <= l < |a| && a[l] == b[j];
    }
  }

  lemma OnceEach<T>(s: seq<T>)
    requires forall x :: multiset(s)[x] <= 1
    ensures forall i, j | 0 <= i < j < |s| :: s[i] != s[j]
  {
    forall i, j | 0 <= i < j < |s|
      ensures s[i] != s[j]
    {
      assert s == s[..j] + [s[j]] + s[j + 1..];
      assert multiset(s)[s[i]] <= 1 && multiset(s[..j])[s[..j][i]] >= 1;
    }
  }

  // ---------------------------------------------------------------- only the rank fields matter

  datatype RankView = RankView(agentId: string, totalClv: int, brier: Option<real>, maxDrawdown: int, actionCount: int)

  function ViewOf(r: Record): RankView {
    RankView(r.metrics.agentId, r.metrics.totalClv, r.metrics.brier, r.metrics.maxDrawdown, r.metrics.actionCount)
  }

  function ViewAgent(v: RankView): string { v.agentId }
  function ViewTotal(v: RankView): int { v.totalClv }
  function ViewActions(v: RankView): int { v.actionCount }
  function ViewBrier(v: RankView): real { if v.brier.Some? then v.brier.value else 0.0 }
  function ViewBrierCount(v: RankView): int { if v.brier.Some? then 1 else 0 }
  function ViewDrawdown(v: RankView): Option<int> { Some(v.maxDrawdown) }

  function KeyOfViews(agentId: string, views: seq<RankView>): Key {
    var total, actions := Total(views, ViewTotal), Total(views, ViewActions);
    var lowest := Lowest(views, ViewDrawdown);
    Key(Mean(total, actions), total, MeanOfPresent(TotalReal(views, ViewBrier), Total(views, ViewBrierCount)),
        if lowest.Some? then lowest.value else 0, actions, agentId)
  }

  lemma {:induction false} AggregateKey(agentId: string, rows: seq<Record>)
    requires rows != []
    ensures BoardKey(Aggregate(agentId, rows)) == KeyOfViews(agentId, Map(rows, ViewOf))
  {
    FoldOfMap(rows, ViewOf, ViewTotal, TotalClvOf, AddInt, 0);
    FoldOfMap(rows, ViewOf, ViewActions, ActionsOf, AddInt, 0);
    FoldOfMap(rows, ViewOf, ViewBrier, BrierOf, AddReal, 0.0);
    FoldOfMap(rows, ViewOf, ViewBrierCount, BrierCount, AddInt, 0);
    FoldOfMap(rows, ViewOf, ViewDrawdown, DrawdownOf, Least, None);
    LowestIsSome(rows);
  }

  lemma {:induction false} AggregatedKeys(records: seq<Record>)
    ensures var views, agents := Map(records, ViewOf), Agents(records);
            agents == Distinct(Map(views, ViewAgent)) && |Aggregated(records)| == |agents|
            && forall i | 0 <= i < |agents| ::
                 BoardKey(Aggregated(records)[i]) == KeyOfViews(agents[i], Filter(views, HasId(ViewAgent, agents[i])))
  {
    var views, agents := Map(records, ViewOf), Agents(records);
    assert Map(views, ViewAgent) == Map(records, AgentOf);
    hide Aggregate, KeyOfViews, Distinct, Filter;
    forall i | 0 <= i < |agents|
      ensures BoardKey(Aggregated(records)[i]) == KeyOfViews(agents[i], Filter(views, HasId(ViewAgent, agents[i])))
    {
      FilterOfMap(records, ViewOf, HasId(ViewAgent, agents[i]), HasId(AgentOf, agents[i]));
      assert Aggregated(records)[i] == Aggregate(agents[i], RecordsOf(records, agents[i]));
      AggregateKey(agents[i], RecordsOf(records, agents[i]));
    }
  }

  /**
   Records that agree on id, total CLV, Brier, drawdown and action count rank alike: anchor status,
   proof mode, source mode, validity and window figures never move an agent.
   */
  lemma {:induction false} OnlyRankFieldsDecideTheOrder(a: seq<Record>, b: seq<Record>)
    requires Map(a, ViewOf) == Map(b, ViewOf)
    ensures Map(Board(a), BoardKey) == Map(Board(b), BoardKey)
  {
    AggregatedKeys(a);
    AggregatedKeys(b);
    hide Aggregate, KeyOfViews, Distinct, Filter;
    assert Map(Aggregated(a), BoardKey) == Map(Aggregated(b), BoardKey);
    SortKeys(Aggregated(a), BoardKey);
    SortKeys(Aggregated(b), BoardKey);
  }
}
