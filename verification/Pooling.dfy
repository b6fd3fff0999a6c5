/**
 The board over per-run score rows against scoring all the runs at once: pooling is a homomorphism for
 every figure the board sums (veridex/leaderboard.py over veridex/scoring.py).
 */
module Pooling {
  import opened Prelude
  import opened Sorting
  import opened Folds
  import opened Grouping
  import opened Ranking
  import opened Scoring
  import opened Leaderboard

  /** The score rows of all the runs, run after run. */
  function AllScores(runs: seq<Run>): seq<Metrics> {
    if runs == [] then [] else AllScores(runs[..|runs| - 1]) + Scores(runs[|runs| - 1])
  }

  function AllRows(runs: seq<Run>): seq<ScoreRow> {
    if runs == [] then [] else AllRows(runs[..|runs| - 1]) + runs[|runs| - 1].rows
  }

  function MetricsOfRecord(r: Record): Metrics {
    r.metrics
  }

  function Of(metrics: seq<Metrics>, a: string): seq<Metrics> {
    Filter(metrics, HasId(MetricsAgent, a))
  }

  // ---------------------------------------------------------------- one run

  lemma {:induction false} OnlyOwnRow(metrics: seq<Metrics>, agents: seq<string>, a: string)
    requires |metrics| == |agents|
    requires forall i | 0 <= i < |agents| :: metrics[i].agentId == agents[i]
    requires forall i, j | 0 <= i < j < |agents| :: agents[i] != agents[j]
    ensures a !in agents ==> Of(metrics, a) == []
    ensures forall i | 0 <= i < |agents| && agents[i] == a :: Of(metrics, a) == [metrics[i]]
  {
    hide Of;
    if metrics == [] {
      NoneOf(a);
    } else {
      var front, last, n := metrics[..|metrics| - 1], metrics[|metrics| - 1], |metrics| - 1;
      assert metrics == front + [last] && agents == agents[..n] + [agents[n]];
      OnlyOwnRow(front, agents[..n], a);
      OfSnoc(front, last, a);
      if agents[n] == a {
        assert a !in agents[..n];
        assert [] + [last] == [last];
      }
    }
  }

  lemma NoneOf(a: string)
    ensures Of([], a) == []
  {
  }

  lemma OfSnoc(metrics: seq<Metrics>, m: Metrics, a: string)
    ensures Of(metrics + [m], a) == if m.agentId == a then Of(metrics, a) + [m] else Of(metrics, a)
  {
    hide Filter;
    assert MetricsAgent(m) == m.agentId;
    FilterSnoc(metrics, m, HasId(MetricsAgent, a));
  }

  /** A run's scores hold exactly one row for a participant, and none for anyone else. */
  lemma {:induction false} ScoresOf(run: Run, a: string)
    ensures Of(Scores(run), a) == if a in Participants(run) then [MetricsIn(run, a)] else []
  {
    hide AgentMetrics, Distinct, Filter, Sort, TotalPreorder;
    var agents, unranked := Participants(run), Unranked(run);
    ByKeyIsPreorder(MetricsKey);
    SortSorts(unranked, ByKey(MetricsKey));
    FilterPermutation(Scores(run), unranked, HasId(MetricsAgent, a));
    UnrankedIds(run);
    OnlyOwnRow(unranked, agents, a);
    if a in agents {
      var i :| 0 <= i < |agents| && agents[i] == a;
      Singleton(Of(Scores(run), a), unranked[i]);
    } else {
      assert |multiset(Of(Scores(run), a))| == 0;
    }
  }

  lemma Singleton<T>(s: seq<T>, x: T)
    requires multiset(s) == multiset([x])
    ensures s == [x]
  {
    assert |multiset(s)| == 1;
    assert s[0] in multiset(s);
  }

  lemma {:induction false} NoRowsUnlessParticipant(ids: seq<string>, rows: seq<ScoreRow>, a: string)
    requires a !in Distinct(ids + Map(rows, RowAgent))
    ensures RowsOf(rows, a) == []
  {
    NoneWithId(ids, rows, RowAgent, a);
  }

  // ---------------------------------------------------------------- all runs

  function MTotal(m: Metrics): int { m.totalClv }
  function MPnl(m: Metrics): int { m.simPnl }
  function MActions(m: Metrics): int { m.actionCount }
  function MValid(m: Metrics): int { m.validCount }
  function MWindow(m: Metrics): int { m.totalWindowClv }
  function MWindowActions(m: Metrics): int { m.windowActionCount }

  /** A metric that is a sum of one contribution per row, zero for no rows. */
  ghost predicate Additive(f: Metrics -> int, part: ScoreRow -> int) {
    forall a, p, rows :: f(AgentMetrics(a, p, rows)) == Total(rows, part)
  }

  lemma AdditiveMetrics()
    ensures Additive(MTotal, ClvPart) && Additive(MPnl, ClvPart) && Additive(MActions, ActionPart)
    ensures Additive(MValid, ValidPart) && Additive(MWindow, WindowPart) && Additive(MWindowActions, WindowActionPart)
  {
    forall a, p, rows
      ensures MTotal(AgentMetrics(a, p, rows)) == MPnl(AgentMetrics(a, p, rows)) == Total(rows, ClvPart)
      ensures MActions(AgentMetrics(a, p, rows)) == Total(rows, ActionPart)
      ensures MValid(AgentMetrics(a, p, rows)) == Total(rows, ValidPart)
      ensures MWindow(AgentMetrics(a, p, rows)) == Total(rows, WindowPart)
      ensures MWindowActions(AgentMetrics(a, p, rows)) == Total(rows, WindowActionPart)
    {
      MetricsAreTotals(a, p, rows);
    }
    hide AgentMetrics, Total;
  }

  lemma RunContributes(run: Run, a: string, f: Metrics -> int, part: ScoreRow -> int)
    requires Additive(f, part)
    ensures Total(Of(Scores(run), a), f) == Total(RowsOf(run.rows, a), part)
  {
    hide Scores, Filter, AgentMetrics, Distinct;
    ScoresOf(run, a);
    if a in Participants(run) {
      FoldSnoc([], MetricsIn(run, a), f, AddInt, 0);
      assert [] + [MetricsIn(run, a)] == [MetricsIn(run, a)];
    } else {
      NoRowsUnlessParticipant(run.agentIds, run.rows, a);
    }
  }

  /** Summing a metric over the runs is summing its contributions over all rows. */
  lemma {:induction false} PoolsToTotal(runs: seq<Run>, a: string, f: Metrics -> int, part: ScoreRow -> int)
    requires Additive(f, part)
    ensures Total(Of(AllScores(runs), a), f) == Total(RowsOf(AllRows(runs), a), part)
  {
    if runs != [] {
      var front, run := runs[..|runs| - 1], runs[|runs| - 1];
      PoolsToTotal(front, a, f, part);
      RunContributes(run, a, f, part);
      hide Additive, Scores, Filter, Fold;
      FilterConcat(AllScores(front), Scores(run), HasId(MetricsAgent, a));
      FilterConcat(AllRows(front), run.rows, HasId(RowAgent, a));
      TotalConcat(Of(AllScores(front), a), Of(Scores(run), a), f);
      TotalConcat(RowsOf(AllRows(front), a), RowsOf(run.rows, a), part);
    }
  }

  lemma SameId(a: string)
    ensures forall r :: HasId(AgentOf, a)(r) == HasId(MetricsAgent, a)(MetricsOfRecord(r))
  {
    forall r
      ensures HasId(AgentOf, a)(r) == HasId(MetricsAgent, a)(MetricsOfRecord(r))
    {
      assert MetricsAgent(MetricsOfRecord(r)) == AgentOf(r);
      assert HasId(AgentOf, a)(r) <==> AgentOf(r) == a;
    }
  }

  lemma RecordTotal(runs: seq<Run>, records: seq<Record>, a: string,
                    g: Record -> int, f: Metrics -> int, part: ScoreRow -> int)
    requires Map(records, MetricsOfRecord) == AllScores(runs) && Additive(f, part)
    requires forall r :: g(r) == f(MetricsOfRecord(r))
    ensures Total(RecordsOf(records, a), g) == Total(RowsOf(AllRows(runs), a), part)
  {
    hide Additive, Filter, Fold, AllScores, AllRows, HasId;
    PoolsToTotal(runs, a, f, part);
    SameId(a);
    FilterOfMap(records, MetricsOfRecord, HasId(MetricsAgent, a), HasId(AgentOf, a));
    FoldOfMap(RecordsOf(records, a), MetricsOfRecord, f, g, AddInt, 0);
  }

  /**
   The board row of an agent, over the score_run outputs of any runs under any tags, carries the same
   CLV, action, validity and window figures as scoring the concatenated rows of all the runs at once.
   */
  lemma {:induction false} PoolingIsHomomorphic(runs: seq<Run>, records: seq<Record>, a: string, proofMode: string)
    requires Map(records, MetricsOfRecord) == AllScores(runs)
    requires RecordsOf(records, a) != []
    ensures var pooled := Aggregate(a, RecordsOf(records, a));
            var whole := AgentMetrics(a, proofMode, RowsOf(AllRows(runs), a));
            && pooled.avgClv == whole.avgClv && pooled.totalClv == whole.totalClv && pooled.simPnl == whole.simPnl
            && pooled.actionCount == whole.actionCount && pooled.validCount == whole.validCount
            && pooled.avgWindowClv == whole.avgWindowClv && pooled.totalWindowClv == whole.totalWindowClv
            && pooled.windowActionCount == whole.windowActionCount
  {
    AdditiveMetrics();
    RecordTotal(runs, records, a, TotalClvOf, MTotal, ClvPart);
    RecordTotal(runs, records, a, SimPnlOf, MPnl, ClvPart);
    RecordTotal(runs, records, a, ActionsOf, MActions, ActionPart);
    RecordTotal(runs, records, a, ValidOf, MValid, ValidPart);
    RecordTotal(runs, records, a, TotalWindowOf, MWindow, WindowPart);
    RecordTotal(runs, records, a, WindowActionsOf, MWindowActions, WindowActionPart);
    MetricsAreTotals(a, proofMode, RowsOf(AllRows(runs), a));
    hide Additive, AgentMetrics, Fold, Filter, AllRows, AllScores;
  }

  // ---------------------------------------------------------------- rows of the board, rows of score_run

  /** The scores hold one row per participant, best first in the strict rank order. */
  lemma {:induction false} ScoresAreRanked(run: Run)
    ensures multiset(Scores(run)) == multiset(Unranked(run))
    ensures BestFirst(Scores(run))
  {
    hide AgentMetrics, Sort, Distinct, Ahead;
    var unranked, scores := Unranked(run), Scores(run);
    ScoresBestFirst(run);
    ByKeyIsPreorder(MetricsKey);
    SortSorts(unranked, ByKey(MetricsKey));
    UnrankedIds(run);
    assert forall k | 0 <= k < |unranked| :: MetricsAgent(unranked[k]) == Participants(run)[k];
    DistinctIdsPermute(unranked, scores, MetricsAgent);
    assert forall k | 0 <= k < |scores| :: MetricsAgent(scores[k]) == scores[k].agentId;
  }

  predicate BestFirst(scores: seq<Metrics>) {
    forall i, j | 0 <= i < j < |scores| ::
      Outranks(scores[i], scores[j]) && scores[i].agentId != scores[j].agentId
  }

  lemma UnrankedIds(run: Run)
    ensures forall k | 0 <= k < |Unranked(run)| :: Unranked(run)[k].agentId == Participants(run)[k]
  {
  }

  /** A row of the board is what its agent's records aggregate to. */
  lemma {:induction false} BoardRowIsAggregate(records: seq<Record>, row: BoardRow)
    requires row in Board(records)
    ensures RecordsOf(records, row.agentId) != [] && row == Aggregate(row.agentId, RecordsOf(records, row.agentId))
  {
    hide Board, RecordsOf, Agents;
    BoardIsTheRankedRows(records);
    SameMembers(Board(records), Aggregated(records));
    var k :| 0 <= k < |Aggregated(records)| && Aggregated(records)[k] == row;
    assert row.agentId == Agents(records)[k];
  }

  predicate IsOf(r: Record, a: string, records: seq<Record>) {
    r in records && r.metrics.agentId == a
  }

  /** The labels of a board row, by the records of its agent: proven by how many of its runs are anchored, ... */
  lemma BoardRowIsProven(records: seq<Record>, row: BoardRow)
    requires row in Board(records)
    ensures var a := row.agentId;
            var every := forall r | IsOf(r, a, records) :: r.anchorStatus == Some("anchored");
            var some := exists r | IsOf(r, a, records) :: r.anchorStatus == Some("anchored");
            && row.runs > 0
            && row.eligibilityBadge
               == (if every then "fully-proven" else if some then "partially-proven" else "unproven")
            && row.anchorStatus == (if every then "all-anchored" else if some then "some-pending" else "none-anchored")
  {
    hide RecordsOf, Summary, Board, IsOf, Aggregate;
    var rows := RecordsOf(records, row.agentId);
    BoardRowIsAggregate(records, row);
    RowLabels(row.agentId, rows);
    RecordsOfAgent(records, row.agentId);
    AnchoredSummary(rows);
  }

  /** ... replayed or live by the runs that say so, ... */
  lemma BoardRowSource(records: seq<Record>, row: BoardRow)
    requires row in Board(records)
    ensures var a := row.agentId;
            var known := exists r | IsOf(r, a, records) :: r.sourceMode.Some?;
            row.sourceMode
            == if !known then "unknown"
               else if forall r | IsOf(r, a, records) && r.sourceMode.Some? :: r.sourceMode.value == "replay" then
                 "all-replay"
               else if forall r | IsOf(r, a, records) && r.sourceMode.Some? :: r.sourceMode.value == "live" then
                 "all-live"
               else "mixed"
  {
    hide RecordsOf, SourceModeSummary, Board, IsOf, Aggregate;
    var rows := RecordsOf(records, row.agentId);
    BoardRowIsAggregate(records, row);
    RowLabels(row.agentId, rows);
    RecordsOfAgent(records, row.agentId);
    SourceSummary(rows);
  }

  /** ... and with the proof mode its runs agree on. */
  lemma BoardRowProofMode(records: seq<Record>, row: BoardRow)
    requires row in Board(records)
    ensures var a := row.agentId;
            forall r | IsOf(r, a, records) ::
              row.proofMode
              == if forall s | IsOf(s, a, records) :: s.metrics.proofMode == r.metrics.proofMode
                 then r.metrics.proofMode else "mixed"
  {
    hide RecordsOf, ProofModeSummary, Board, IsOf, Aggregate;
    var rows := RecordsOf(records, row.agentId);
    BoardRowIsAggregate(records, row);
    RowLabels(row.agentId, rows);
    RecordsOfAgent(records, row.agentId);
    ProofSummary(rows);
  }

  lemma RowLabels(a: string, rows: seq<Record>)
    requires rows != []
    ensures var row := Aggregate(a, rows);
            && row.runs == |rows|
            && row.eligibilityBadge == Summary(rows, "fully-proven", "partially-proven", "unproven")
            && row.anchorStatus == Summary(rows, "all-anchored", "some-pending", "none-anchored")
            && row.sourceMode == SourceModeSummary(rows) && row.proofMode == ProofModeSummary(rows)
  {
    hide Summary, SourceModeSummary, ProofModeSummary, Fold;
  }

  lemma RecordsOfAgent(records: seq<Record>, a: string)
    ensures forall r :: r in RecordsOf(records, a) <==> IsOf(r, a, records)
  {
    hide Filter;
    forall r
      ensures r in RecordsOf(records, a) <==> IsOf(r, a, records)
    {
      assert HasId(AgentOf, a)(r) <==> AgentOf(r) == a;
    }
  }

  lemma AnchoredSummary(rows: seq<Record>)
    requires rows != []
    ensures forall all, some, none ::
              Summary(rows, all, some, none)
              == if forall r | r in rows :: r.anchorStatus == Some("anchored") then all
                 else if exists r | r in rows :: r.anchorStatus == Some("anchored") then some else none
  {
    assert rows[0] in rows;
    AllPass(rows, Anchored);
    hide Filter;
    var confirmed := Filter(rows, Anchored);
    if confirmed != [] {
      assert confirmed[0] in confirmed;
    }
    assert forall r | r in rows && Anchored(r) :: r in confirmed;
  }

  lemma {:induction false} AllPass(rows: seq<Record>, p: Record -> bool)
    ensures |Filter(rows, p)| <= |rows|
    ensures |Filter(rows, p)| == |rows| <==> forall r | r in rows :: p(r)
  {
    if rows != [] {
      var front, last := rows[..|rows| - 1], rows[|rows| - 1];
      assert rows == front + [last];
      AllPass(front, p);
    }
  }

  lemma SourceSummary(rows: seq<Record>)
    ensures SourceModeSummary(rows)
         == if !exists r | r in rows :: r.sourceMode.Some? then "unknown"
            else if forall r | r in rows && r.sourceMode.Some? :: r.sourceMode.value == "replay" then "all-replay"
            else if forall r | r in rows && r.sourceMode.Some? :: r.sourceMode.value == "live" then "all-live"
            else "mixed"
  {
    var modes := SourceModes(rows);
    assert forall r | r in rows && r.sourceMode.Some? :: r.sourceMode.value in modes;
    assert forall m | m in modes :: exists r | r in rows && r.sourceMode.Some? :: r.sourceMode.value == m;
    forall m
      ensures modes == {m} <==>
                modes != {} && forall r | r in rows && r.sourceMode.Some? :: r.sourceMode.value == m
    {
      if modes != {} && forall r | r in rows && r.sourceMode.Some? :: r.sourceMode.value == m {
        var some := MemberOf(modes);
        assert some == m;
      }
    }
  }

  lemma ProofSummary(rows: seq<Record>)
    requires rows != []
    ensures forall r | r in rows ::
              ProofModeSummary(rows)
              == if forall s | s in rows :: s.metrics.proofMode == r.metrics.proofMode
                 then r.metrics.proofMode else "mixed"
  {
    var modes, first := ProofModes(rows), rows[0].metrics.proofMode;
    assert rows[0] in rows;
    forall r | r in rows
      ensures modes == {first} <==> forall s | s in rows :: s.metrics.proofMode == r.metrics.proofMode
    {
      assert r.metrics.proofMode in modes;
      if modes == {first} {
        assert forall s | s in rows :: s.metrics.proofMode in modes;
      }
    }
  }

  lemma {:induction false} ScoreOfSomeRun(runs: seq<Run>, m: Metrics) returns (k: nat)
    requires m in AllScores(runs)
    ensures k < |runs| && m in Scores(runs[k])
  {
    hide Scores;
    var n := |runs| - 1;
    if m in Scores(runs[n]) {
      k := n;
    } else {
      k := ScoreOfSomeRun(runs[..n], m);
    }
  }

  lemma InOf(metrics: seq<Metrics>, m: Metrics)
    requires m in metrics
    ensures m in Of(metrics, m.agentId)
  {
    assert HasId(MetricsAgent, m.agentId)(m);
  }

  /** Every pooled record is what one of the runs measured for its agent. */
  lemma {:induction false} RecordOfSomeRun(runs: seq<Run>, records: seq<Record>, r: Record) returns (k: nat)
    requires Map(records, MetricsOfRecord) == AllScores(runs) && r in records
    ensures k < |runs| && AgentOf(r) in Participants(runs[k]) && r.metrics == MetricsIn(runs[k], AgentOf(r))
  {
    hide AllScores, Scores, Filter, Participants, MetricsIn;
    var i :| 0 <= i < |records| && records[i] == r;
    assert Map(records, MetricsOfRecord)[i] == r.metrics;
    k := ScoreOfSomeRun(runs, r.metrics);
    ScoresOf(runs[k], AgentOf(r));
    InOf(Scores(runs[k]), r.metrics);
  }

  function AllIds(runs: seq<Run>): seq<string> {
    if runs == [] then [] else AllIds(runs[..|runs| - 1]) + runs[|runs| - 1].agentIds
  }

  /** All the runs scored as one. */
  function WholeRun(runs: seq<Run>, proofModes: map<string, string>): Run {
    Run(AllIds(runs), AllRows(runs), proofModes)
  }

  lemma {:induction false} ParticipatesInWhole(runs: seq<Run>, k: nat, a: string)
    requires k < |runs| && a in runs[k].agentIds + Map(runs[k].rows, RowAgent)
    ensures a in AllIds(runs) || a in Map(AllRows(runs), RowAgent)
  {
    var n := |runs| - 1;
    MapOfConcat(AllRows(runs[..n]), runs[n].rows);
    if k < n {
      ParticipatesInWhole(runs[..n], k, a);
    }
  }

  lemma MapOfConcat(x: seq<ScoreRow>, y: seq<ScoreRow>)
    ensures Map(x + y, RowAgent) == Map(x, RowAgent) + Map(y, RowAgent)
  {
  }

  /** The figures the board pools. */
  predicate SameFigures(row: BoardRow, m: Metrics) {
    && row.agentId == m.agentId
    && row.avgClv == m.avgClv && row.totalClv == m.totalClv && row.simPnl == m.simPnl
    && row.actionCount == m.actionCount && row.validCount == m.validCount
    && row.avgWindowClv == m.avgWindowClv && row.totalWindowClv == m.totalWindowClv
    && row.windowActionCount == m.windowActionCount
  }

  /** Every board row over the runs' score_run outputs is, in these figures, a row of score_run over all of them. */
  lemma {:induction false} BoardPoolsTheWholeRun(runs: seq<Run>, records: seq<Record>, proofModes: map<string, string>,
                                                row: BoardRow) returns (m: Metrics)
    requires Map(records, MetricsOfRecord) == AllScores(runs) && row in Board(records)
    ensures m in Scores(WholeRun(runs, proofModes)) && SameFigures(row, m)
  {
    hide Board, AllScores, Scores, Aggregate, AgentMetrics, Filter, Distinct;
    var a, whole := row.agentId, WholeRun(runs, proofModes);
    BoardRowIsAggregate(records, row);
    var r := RecordsOf(records, a)[0];
    assert r in RecordsOf(records, a);
    var k := RecordOfSomeRun(runs, records, r);
    ParticipatesInWhole(runs, k, a);
    m := MetricsIn(whole, a);
    ScoresOf(whole, a);
    assert m in Of(Scores(whole), a);
    PoolingIsHomomorphic(runs, records, a, if a in proofModes then proofModes[a] else "");
    AggregateId(a, RecordsOf(records, a));
    MetricsId(whole, a);
  }

  lemma AggregateId(a: string, rows: seq<Record>)
    requires rows != []
    ensures Aggregate(a, rows).agentId == a
  {
  }

  lemma MetricsId(run: Run, a: string)
    ensures MetricsIn(run, a).agentId == a
  {
  }

  // ---------------------------------------------------------------- the board's drawdown

  /** An agent's scored closing-line series, run by run. */
  function SeriesPerRun(runs: seq<Run>, a: string): (r: seq<seq<int>>)
    ensures |r| == |runs|
    ensures forall k | 0 <= k < |runs| :: r[k] == Map(Scored(RowsOf(runs[k].rows, a)), ClvOf)
  {
    seq(|runs|, k requires 0 <= k < |runs| => Map(Scored(RowsOf(runs[k].rows, a)), ClvOf))
  }

  lemma {:induction false} LowestIsReached(rows: seq<Record>) returns (r: Record)
    requires rows != []
    ensures r in rows && Lowest(rows, DrawdownOf) == Some(r.metrics.maxDrawdown)
    ensures forall other | other in rows :: r.metrics.maxDrawdown <= other.metrics.maxDrawdown
  {
    var n := |rows| - 1;
    r := rows[n];
    assert n == 0 ==> rows[..n] == [];
    assert rows == rows[..n] + [rows[n]];
    FoldSnoc(rows[..n], rows[n], DrawdownOf, Least, None);
    assert DrawdownOf(r) == Some(r.metrics.maxDrawdown);
    if n > 0 {
      var low := LowestIsReached(rows[..n]);
      if low.metrics.maxDrawdown < r.metrics.maxDrawdown {
        r := low;
      }
    }
  }

  lemma AggregateDrawdown(a: string, rows: seq<Record>)
    requires rows != []
    ensures Some(Aggregate(a, rows).maxDrawdown) == Lowest(rows, DrawdownOf)
  {
  }

  lemma MetricsDrawdown(run: Run, a: string)
    ensures MetricsIn(run, a).maxDrawdown == Drawdown(Map(Scored(RowsOf(run.rows, a)), ClvOf))
  {
  }

  /**
   The drawdown the board shows is one of the runs' own, and the agent's series of all the runs end to end
   never has a milder one.
   */
  lemma {:induction false} BoardDrawdownIsNoWorse(runs: seq<Run>, records: seq<Record>, row: BoardRow) returns (k: nat)
    requires Map(records, MetricsOfRecord) == AllScores(runs) && row in Board(records)
    ensures k < |runs| && row.maxDrawdown == Drawdown(SeriesPerRun(runs, row.agentId)[k])
    ensures forall other | 0 <= other < |runs| :: row.maxDrawdown <= Drawdown(SeriesPerRun(runs, row.agentId)[other])
    ensures Drawdown(Joined(SeriesPerRun(runs, row.agentId))) <= row.maxDrawdown
  {
    hide Board, AllScores, Aggregate, AgentMetrics, Filter, Lowest, Drawdown, Joined, Scored;
    var a := row.agentId;
    BoardRowIsAggregate(records, row);
    AggregateDrawdown(a, RecordsOf(records, a));
    var r := LowestIsReached(RecordsOf(records, a));
    k := RecordOfSomeRun(runs, records, r);
    MetricsDrawdown(runs[k], a);
    JoinedDrawdownIsWorse(SeriesPerRun(runs, a), k);
    forall other | 0 <= other < |runs|
      ensures row.maxDrawdown <= Drawdown(SeriesPerRun(runs, a)[other])
    {
      MetricsDrawdown(runs[other], a);
      DrawdownIsAFall(r.metrics.maxDrawdown, SeriesPerRun(runs, a)[k]);
      if a in Participants(runs[other]) {
        var its := RunHasRecord(runs, records, other, a);
        assert its in RecordsOf(records, a);
      } else {
        NothingScored(runs[other], a);
      }
    }
  }

  lemma DrawdownIsAFall(d: int, series: seq<int>)
    requires d == Drawdown(series)
    ensures d <= 0
  {
    var _, _ := DrawdownIsWorstChange(series);
    assert Change(series, 0, 0) == 0;
  }

  lemma NothingScored(run: Run, a: string)
    requires a !in Participants(run)
    ensures Drawdown(Map(Scored(RowsOf(run.rows, a)), ClvOf)) == 0
  {
    hide Filter, Distinct;
    NoRowsUnlessParticipant(run.agentIds, run.rows, a);
    EmptyFilter(IsScored);
  }

  /** A run an agent played has its record among the pooled ones. */
  lemma RunHasRecord(runs: seq<Run>, records: seq<Record>, k: nat, a: string) returns (r: Record)
    requires Map(records, MetricsOfRecord) == AllScores(runs) && k < |runs| && a in Participants(runs[k])
    ensures r in RecordsOf(records, a) && r.metrics == MetricsIn(runs[k], a)
  {
    hide AllScores, Scores, Filter, Participants, MetricsIn;
    ScoresOf(runs[k], a);
    var m := MetricsIn(runs[k], a);
    assert m in Of(Scores(runs[k]), a);
    ScoreIsPooled(runs, k, m);
    var i :| 0 <= i < |AllScores(runs)| && AllScores(runs)[i] == m;
    r := records[i];
    assert Map(records, MetricsOfRecord)[i] == r.metrics;
    MetricsId(runs[k], a);
    SameId(a);
    assert HasId(AgentOf, a)(r);
  }

  lemma {:induction false} ScoreIsPooled(runs: seq<Run>, k: nat, m: Metrics)
    requires k < |runs| && m in Scores(runs[k])
    ensures m in AllScores(runs)
  {
    hide Scores;
    if k < |runs| - 1 {
      ScoreIsPooled(runs[..|runs| - 1], k, m);
    }
  }
}
