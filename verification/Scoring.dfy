/**
 veridex/scoring.py: which score rows count, the drawdown of a closing-line series, one agent's metric
 stack and the ranked rows of a run. CLV figures are integers (basis points); means are exact reals.
 */
module Scoring {
  import opened Prelude
  import opened Sorting
  import opened Folds
  import opened Grouping
  import opened Ranking

  /** What a key of an untyped row may hold; a bool is never a number here. */
  datatype Value = Absent | Int(n: int) | Float(r: real) | Bool(b: bool) | Text(s: string)

  datatype ScoreRow = ScoreRow(agentId: string, tickSeq: int, valid: Value, clvBps: Value,
                               windowClvBps: Value, confidence: Value)

  predicate IsScored(r: ScoreRow) {
    r.valid == Bool(true) && r.clvBps.Int?
  }

  predicate IsWindowScored(r: ScoreRow) {
    r.windowClvBps.Int?
  }

  function Confidence(r: ScoreRow): Option<real> {
    var c := match r.confidence case Int(n) => n as real case Float(f) => f case _ => -1.0;
    if 0.0 <= c <= 1.0 then Some(c) else None
  }

  // ---------------------------------------------------------------- drawdown

  /** The greatest cumulative sum of a prefix, the empty one included. */
  function Peak(s: seq<int>): int {
    if s == [] then 0 else Max(Peak(s[..|s| - 1]), Sum(s))
  }

  /** The steepest fall of the cumulative sum from a peak before it. */
  function Drawdown(s: seq<int>): int {
    if s == [] then 0 else Min(Drawdown(s[..|s| - 1]), Sum(s) - Peak(s))
  }

  method MaxDrawdown(scoredClv: seq<int>) returns (maxDd: int)
    ensures maxDd == Drawdown(scoredClv)
  {
    var cumulative, peak := 0, 0;
    maxDd := 0;
    for k := 0 to |scoredClv|
      invariant cumulative == Sum(scoredClv[..k]) && peak == Peak(scoredClv[..k])
      invariant maxDd == Drawdown(scoredClv[..k])
    {
      assert scoredClv[..k + 1][..k] == scoredClv[..k];
      cumulative := cumulative + scoredClv[k];
      peak := Max(peak, cumulative);
      maxDd := Min(maxDd, cumulative - peak);
    }
    assert scoredClv[..|scoredClv|] == scoredClv;
  }

  /** The rise (or fall, when negative) between two points of the cumulative series. */
  function Change(s: seq<int>, i: nat, j: nat): int
    requires i <= |s| && j <= |s|
  {
    Sum(s[..j]) - Sum(s[..i])
  }

  lemma {:induction false} PeakIsReached(s: seq<int>) returns (at: nat)
    ensures at <= |s| && Sum(s[..at]) == Peak(s)
    ensures forall i | 0 <= i <= |s| :: Sum(s[..i]) <= Peak(s)
  {
    if s == [] {
      at := 0;
    } else {
      var n := |s| - 1;
      var before := PeakIsReached(s[..n]);
      at := if Peak(s[..n]) >= Sum(s) then before else |s|;
      assert s[..|s|] == s;
      assert forall i | 0 <= i <= n :: s[..n][..i] == s[..i];
    }
  }

  /** One pass finds the worst change over every pair of points i <= j, and some pair has it. */
  lemma {:induction false} DrawdownIsWorstChange(s: seq<int>) returns (from: nat, to: nat)
    ensures from <= to <= |s| && Change(s, from, to) == Drawdown(s)
    ensures forall i, j | 0 <= i <= j <= |s| :: Change(s, i, j) >= Drawdown(s)
  {
    if s == [] {
      from, to := 0, 0;
    } else {
      var n := |s| - 1;
      from, to := DrawdownIsWorstChange(s[..n]);
      var top := PeakIsReached(s);
      assert s[..|s|] == s;
      assert forall i | 0 <= i <= n :: s[..n][..i] == s[..i];
      forall i, j | 0 <= i <= j <= |s|
        ensures Change(s, i, j) >= Drawdown(s)
      {
        if j <= n {
          assert Change(s, i, j) == Change(s[..n], i, j);
        }
      }
      if Drawdown(s) < Drawdown(s[..n]) {
        from, to := top, |s|;
      } else {
        assert Change(s, from, to) == Change(s[..n], from, to);
      }
    }
  }

  /** Joining two runs can only deepen the drawdown of each. */
  lemma DrawdownOfConcat(a: seq<int>, b: seq<int>)
    ensures Drawdown(a + b) <= Drawdown(a) && Drawdown(a + b) <= Drawdown(b)
  {
    hide Drawdown, Sum;
    var i, j := DrawdownIsWorstChange(a);
    var k, l := DrawdownIsWorstChange(b);
    var _, _ := DrawdownIsWorstChange(a + b);
    ChangeInFront(a, b, i, j);
    ChangeBehind(a, b, k, l);
  }

  lemma ChangeInFront(a: seq<int>, b: seq<int>, i: nat, j: nat)
    requires i <= |a| && j <= |a|
    ensures Change(a + b, i, j) == Change(a, i, j)
  {
    assert (a + b)[..i] == a[..i] && (a + b)[..j] == a[..j];
  }

  lemma ChangeBehind(a: seq<int>, b: seq<int>, k: nat, l: nat)
    requires k <= |b| && l <= |b|
    ensures Change(a + b, |a| + k, |a| + l) == Change(b, k, l)
  {
    hide Sum;
    assert (a + b)[..|a| + k] == a + b[..k] && (a + b)[..|a| + l] == a + b[..l];
    SumConcat(a, b[..k]);
    SumConcat(a, b[..l]);
  }

  function Joined(runs: seq<seq<int>>): seq<int> {
    if runs == [] then [] else Joined(runs[..|runs| - 1]) + runs[|runs| - 1]
  }

  /** The drawdown of several runs end to end is never less severe than the worst single run. */
  lemma {:induction false} JoinedDrawdownIsWorse(runs: seq<seq<int>>, k: nat)
    requires k < |runs|
    ensures Drawdown(Joined(runs)) <= Drawdown(runs[k])
  {
    var n := |runs| - 1;
    DrawdownOfConcat(Joined(runs[..n]), runs[n]);
    if k < n {
      JoinedDrawdownIsWorse(runs[..n], k);
    }
  }

  // ---------------------------------------------------------------- one agent's metrics

  datatype Metrics = Metrics(
    agentId: string, avgClv: Option<real>, totalClv: int, simPnl: int, brier: Option<real>,
    maxDrawdown: int, actionCount: int, validPct: real, validCount: int,
    avgWindowClv: Option<real>, totalWindowClv: int, windowActionCount: int, proofMode: string)

  function MetricsKey(m: Metrics): Key {
    Key(m.avgClv, m.totalClv, m.brier, m.maxDrawdown, m.actionCount, m.agentId)
  }

  function ByTick(): (ScoreRow, ScoreRow) -> bool {
    (a: ScoreRow, b: ScoreRow) => a.tickSeq <= b.tickSeq
  }

  function ClvOf(r: ScoreRow): int {
    if r.clvBps.Int? then r.clvBps.n else 0
  }

  function WindowOf(r: ScoreRow): int {
    if r.windowClvBps.Int? then r.windowClvBps.n else 0
  }

  function Mean(total: int, count: int): Option<real> {
    if count > 0 then Some(total as real / count as real) else None
  }

  /** (confidence - indicator) ** 2, the indicator being the direction of the closing line. */
  function ErrorAgainst(confidence: real, clv: int): real {
    var e := confidence - if clv > 0 then 1.0 else 0.0;
    e * e
  }

  function SquaredError(r: ScoreRow): real {
    match Confidence(r)
    case None => 0.0
    case Some(c) => ErrorAgainst(c, ClvOf(r))
  }

  predicate HasConfidence(r: ScoreRow) {
    Confidence(r).Some?
  }

  /** Mean squared error over the scored rows that carry a usable confidence. */
  function Brier(scored: seq<ScoreRow>): Option<real> {
    var rows := Filter(scored, HasConfidence);
    if rows == [] then None else Some(TotalReal(rows, SquaredError) / |rows| as real)
  }

  lemma EmptyFilter<T(!new)>(p: T -> bool)
    ensures Filter([], p) == []
  {
  }

  method BrierLoop(scored: seq<ScoreRow>) returns (brier: Option<real>)
    ensures brier == Brier(scored)
  {
    hide Filter, ErrorAgainst;
    var errors: seq<real> := [];
    var sum := 0.0;
    assert Filter(scored[..0], HasConfidence) == [] by { EmptyFilter(HasConfidence); }
    for k := 0 to |scored|
      invariant |errors| == |Filter(scored[..k], HasConfidence)|
      invariant sum == TotalReal(Filter(scored[..k], HasConfidence), SquaredError)
    {
      assert scored[..k + 1] == scored[..k] + [scored[k]];
      FilterSnoc(scored[..k], scored[k], HasConfidence);
      var confidence := Confidence(scored[k]);
      if confidence == None { continue; }
      var error := ErrorAgainst(confidence.value, ClvOf(scored[k]));
      FoldSnoc(Filter(scored[..k], HasConfidence), scored[k], SquaredError, AddReal, 0.0);
      errors := errors + [error];
      sum := sum + error;
    }
    assert scored[..|scored|] == scored;
    if errors == [] { return None; }
    return Some(sum / |errors| as real);
  }

  predicate IsValid(r: ScoreRow) {
    r.valid == Bool(true)
  }

  /** The scored rows in tick order. */
  function Scored(rows: seq<ScoreRow>): seq<ScoreRow> {
    Sort(Filter(rows, IsScored), ByTick())
  }

  function AgentMetrics(agentId: string, proofMode: string, rows: seq<ScoreRow>): Metrics {
    var scored := Scored(rows);
    var series := Map(scored, ClvOf);
    var window := Filter(rows, IsWindowScored);
    var total, windowTotal := Sum(series), Sum(Map(window, WindowOf));
    var validCount := |Filter(rows, IsValid)|;
    Metrics(agentId, Mean(total, |scored|), total, total, Brier(scored), Drawdown(series), |scored|,
            if rows == [] then 0.0 else validCount as real / |rows| as real * 100.0, validCount,
            Mean(windowTotal, |window|), windowTotal, |window|, proofMode)
  }

  // ---------------------------------------------------------------- the ranked rows of a run

  datatype Run = Run(agentIds: seq<string>, rows: seq<ScoreRow>, proofModes: map<string, string>)

  function RowAgent(r: ScoreRow): string {
    r.agentId
  }

  function MetricsAgent(m: Metrics): string {
    m.agentId
  }

  function Participants(run: Run): seq<string> {
    Distinct(run.agentIds + Map(run.rows, RowAgent))
  }

  function RowsOf(rows: seq<ScoreRow>, a: string): seq<ScoreRow> {
    Filter(rows, HasId(RowAgent, a))
  }

  function MetricsIn(run: Run, a: string): Metrics {
    AgentMetrics(a, if a in run.proofModes then run.proofModes[a] else "", RowsOf(run.rows, a))
  }

  function Unranked(run: Run): (r: seq<Metrics>)
    ensures |r| == |Participants(run)|
    ensures forall i | 0 <= i < |r| :: r[i] == MetricsIn(run, Participants(run)[i])
  {
    var agents := Participants(run);
    seq(|agents|, i requires 0 <= i < |agents| => MetricsIn(run, agents[i]))
  }

  /** One row per participant, best first. */
  function Scores(run: Run): seq<Metrics> {
    Sort(Unranked(run), ByKey(MetricsKey))
  }

  /** a stands above b by its own figures. */
  predicate Outranks(a: Metrics, b: Metrics) {
    Ahead(Key(a.avgClv, a.totalClv, a.brier, a.maxDrawdown, a.actionCount, a.agentId),
          Key(b.avgClv, b.totalClv, b.brier, b.maxDrawdown, b.actionCount, b.agentId))
  }

  lemma {:induction false} ScoresBestFirst(run: Run)
    ensures forall i, j | 0 <= i < j < |Scores(run)| :: Outranks(Scores(run)[i], Scores(run)[j])
  {
    hide Unranked, Sort, KeyLe, Ahead, TotalPreorder;
    ByKeyIsPreorder(MetricsKey);
    SortSorts(Unranked(run), ByKey(MetricsKey));
    var scores := Scores(run);
    forall i, j | 0 <= i < j < |scores|
      ensures Outranks(scores[i], scores[j])
    {
      assert ByKey(MetricsKey)(scores[i], scores[j]);
      KeyLeIsAhead(MetricsKey(scores[i]), MetricsKey(scores[j]));
    }
  }

  method ScoreRun(run: Run) returns (ranked: seq<Ranked<Metrics>>)
    ensures ranked == WithRanks(Scores(run))
    ensures forall i | 0 <= i < |ranked| :: ranked[i].rank == i + 1
    ensures forall i, j | 0 <= i < j < |ranked| :: Outranks(ranked[i].row, ranked[j].row)
  {
    ScoresBestFirst(run);
    var order, groups := GroupBy(run.agentIds, run.rows, RowAgent);
    var metrics := MetricsOfGroups(run, order, groups);
    metrics := Sort(metrics, ByKey(MetricsKey));
    ranked := AssignRanks(metrics);
  }

  method MetricsOfGroups(run: Run, order: seq<string>, groups: map<string, seq<ScoreRow>>)
    returns (metrics: seq<Metrics>)
    requires Grouped(run.agentIds, run.rows, RowAgent, order, groups)
    ensures metrics == Unranked(run)
  {
    hide AgentMetrics, Filter, Distinct;
    metrics := [];
    for k := 0 to |order|
      invariant metrics == Unranked(run)[..k]
    {
      var a := order[k];
      var proofMode := if a in run.proofModes then run.proofModes[a] else "";
      assert AgentMetrics(a, proofMode, groups[a]) == MetricsIn(run, a);
      metrics := metrics + [AgentMetrics(a, proofMode, groups[a])];
    }
  }

  // ---------------------------------------------------------------- metrics are sums over rows

  function ClvPart(r: ScoreRow): int { if IsScored(r) then ClvOf(r) else 0 }
  function ActionPart(r: ScoreRow): int { if IsScored(r) then 1 else 0 }
  function WindowPart(r: ScoreRow): int { WindowOf(r) }
  function WindowActionPart(r: ScoreRow): int { if IsWindowScored(r) then 1 else 0 }
  function ValidPart(r: ScoreRow): int { if IsValid(r) then 1 else 0 }

  lemma {:induction false} SumIsTotal<T>(s: seq<T>, f: T -> int)
    ensures Sum(Map(s, f)) == Total(s, f)
  {
    if s != [] {
      SumIsTotal(s[..|s| - 1], f);
      assert Map(s, f)[..|s| - 1] == Map(s[..|s| - 1], f);
    }
  }

  lemma FilterIsParts(rows: seq<ScoreRow>)
    ensures Total(Filter(rows, IsScored), ClvOf) == Total(rows, ClvPart)
    ensures |Filter(rows, IsScored)| == Total(rows, ActionPart)
    ensures Total(Filter(rows, IsWindowScored), WindowOf) == Total(rows, WindowPart)
    ensures |Filter(rows, IsWindowScored)| == Total(rows, WindowActionPart)
    ensures |Filter(rows, IsValid)| == Total(rows, ValidPart)
  {
    FilterTotal(rows, IsScored, ClvOf, ClvPart);
    FilterCount(rows, IsScored, ActionPart);
    FilterTotal(rows, IsWindowScored, WindowOf, WindowPart);
    FilterCount(rows, IsWindowScored, WindowActionPart);
    FilterCount(rows, IsValid, ValidPart);
  }

  lemma ScoredTotal(rows: seq<ScoreRow>)
    ensures Sum(Map(Scored(rows), ClvOf)) == Total(rows, ClvPart)
  {
    var scored := Filter(rows, IsScored);
    SumIsTotal(Scored(rows), ClvOf);
    SortSorts(scored, ByTick());
    Monoids();
    FoldPermutation(Scored(rows), scored, ClvOf, AddInt, 0);
    FilterIsParts(rows);
  }

  /** The pooled figures of a metric stack are sums of one contribution per row, whatever the row order. */
  lemma MetricsAreTotals(a: string, proofMode: string, rows: seq<ScoreRow>)
    ensures var m := AgentMetrics(a, proofMode, rows);
            && m.totalClv == m.simPnl == Total(rows, ClvPart) && m.actionCount == Total(rows, ActionPart)
            && m.totalWindowClv == Total(rows, WindowPart) && m.windowActionCount == Total(rows, WindowActionPart)
            && m.validCount == Total(rows, ValidPart)
            && m.avgClv == Mean(m.totalClv, m.actionCount)
            && m.avgWindowClv == Mean(m.totalWindowClv, m.windowActionCount)
  {
    ScoredTotal(rows);
    FilterIsParts(rows);
    SumIsTotal(Filter(rows, IsWindowScored), WindowOf);
  }

  /** What one more row does to the sums and counts: valid rows with a whole CLV count, and windows by themselves. */
  lemma OneMoreRow(a: string, proofMode: string, rows: seq<ScoreRow>, r: ScoreRow)
    ensures var (m, n) := (AgentMetrics(a, proofMode, rows), AgentMetrics(a, proofMode, rows + [r]));
            var counts := r.valid == Bool(true) && r.clvBps.Int?;
            && n.totalClv == n.simPnl == m.totalClv + (if counts then r.clvBps.n else 0)
            && n.actionCount == m.actionCount + (if counts then 1 else 0)
            && n.validCount == m.validCount + (if r.valid == Bool(true) then 1 else 0)
            && n.totalWindowClv == m.totalWindowClv + (if r.windowClvBps.Int? then r.windowClvBps.n else 0)
            && n.windowActionCount == m.windowActionCount + (if r.windowClvBps.Int? then 1 else 0)
  {
    hide Fold, AgentMetrics;
    MetricsAreTotals(a, proofMode, rows);
    MetricsAreTotals(a, proofMode, rows + [r]);
    FoldSnoc(rows, r, ClvPart, AddInt, 0);
    FoldSnoc(rows, r, ActionPart, AddInt, 0);
    FoldSnoc(rows, r, ValidPart, AddInt, 0);
    FoldSnoc(rows, r, WindowPart, AddInt, 0);
    FoldSnoc(rows, r, WindowActionPart, AddInt, 0);
  }

  lemma NoRowsYet(a: string, proofMode: string)
    ensures AgentMetrics(a, proofMode, []) == Metrics(a, None, 0, 0, None, 0, 0, 0.0, 0, None, 0, 0, proofMode)
  {
  }

  /** The means are the sums over the counts, and None for none; the percentage is of all rows. */
  lemma MeansOfSums(a: string, proofMode: string, rows: seq<ScoreRow>)
    ensures var m := AgentMetrics(a, proofMode, rows);
            && m.agentId == a && m.proofMode == proofMode
            && (m.avgClv == None <==> m.actionCount == 0) && (m.avgWindowClv == None <==> m.windowActionCount == 0)
            && (m.avgClv.Some? ==> m.avgClv.value * m.actionCount as real == m.totalClv as real)
            && (m.avgWindowClv.Some? ==>
                  m.avgWindowClv.value * m.windowActionCount as real == m.totalWindowClv as real)
            && m.validPct * |rows| as real == 100.0 * m.validCount as real
  {
    MetricsAreTotals(a, proofMode, rows);
    hide Fold, Filter, Drawdown, Brier, Scored;
    var m := AgentMetrics(a, proofMode, rows);
    if rows != [] {
      Percentage(m.validCount as real, |rows| as real);
    } else {
      NoRowsYet(a, proofMode);
    }
  }

  lemma Percentage(v: real, n: real)
    requires n > 0.0
    ensures v / n * 100.0 * n == 100.0 * v
  {
    var x := v / n;
    assert v == x * n;
  }

  /** The drawdown runs over the scored rows in tick order, all of them and no others. */
  lemma ScoredInTickOrder(rows: seq<ScoreRow>)
    ensures forall i, j | 0 <= i < j < |Scored(rows)| :: Scored(rows)[i].tickSeq <= Scored(rows)[j].tickSeq
    ensures forall r :: multiset(Scored(rows))[r]
                        == if r.valid == Bool(true) && r.clvBps.Int? then multiset(rows)[r] else 0
  {
    SortSorts(Filter(rows, IsScored), ByTick());
    hide Filter;
    assert forall i, j | 0 <= i < j < |Scored(rows)| :: ByTick()(Scored(rows)[i], Scored(rows)[j]);
    forall r
      ensures multiset(Scored(rows))[r] == if r.valid == Bool(true) && r.clvBps.Int? then multiset(rows)[r] else 0
    {
      FilterMultiset(rows, IsScored, r);
    }
  }
}
