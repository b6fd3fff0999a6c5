/**
 The two figures veridex/leaderboard.py averages over runs without weights, the valid percentage and the
 Brier score, against the same figures over all the rows at once. They agree exactly when, across the
 agent's runs, the figure of a run does not vary with the number of rows behind it.
 */
module PooledMeans {
  import opened Prelude
  import opened Sorting
  import opened Folds
  import opened Grouping
  import opened Scoring
  import opened Leaderboard
  import opened Pooling

  // ---------------------------------------------------------------- means with and without weights

  /** One run's figure and how many rows it is a mean of. */
  datatype Share = Share(weight: real, value: real)

  function WeightOf(s: Share): real { s.weight }
  function ValueOf(s: Share): real { s.value }
  function MomentOf(s: Share): real { s.weight * s.value }

  function PlainMean(shares: seq<Share>): real {
    if shares == [] then 0.0 else TotalReal(shares, ValueOf) / |shares| as real
  }

  function WeightedMean(shares: seq<Share>): real {
    var w := TotalReal(shares, WeightOf);
    if w == 0.0 then 0.0 else TotalReal(shares, MomentOf) / w
  }

  function Deviation(weight: real, value: real): Share -> real {
    (s: Share) => (s.weight - weight) * (s.value - value)
  }

  /** How weight and value vary together (not divided by the number of shares). */
  function Covariation(shares: seq<Share>): real {
    if shares == [] then 0.0
    else TotalReal(shares, Deviation(TotalReal(shares, WeightOf) / |shares| as real, PlainMean(shares)))
  }

  /** Weights are not negative, and a mean of nothing is 0. */
  predicate Proper(shares: seq<Share>) {
    forall s | s in shares :: s.weight >= 0.0 && (s.weight == 0.0 ==> s.value == 0.0)
  }

  lemma {:induction false} DeviationTotal(shares: seq<Share>, w: real, v: real)
    ensures TotalReal(shares, Deviation(w, v))
         == TotalReal(shares, MomentOf) - w * TotalReal(shares, ValueOf) - v * TotalReal(shares, WeightOf)
            + |shares| as real * (w * v)
  {
    hide Fold, Deviation;
    if shares == [] {
      NoShares(w, v);
    } else {
      var front, s := shares[..|shares| - 1], shares[|shares| - 1];
      assert shares == front + [s];
      DeviationTotal(front, w, v);
      FoldSnoc(front, s, Deviation(w, v), AddReal, 0.0);
      FoldSnoc(front, s, MomentOf, AddReal, 0.0);
      FoldSnoc(front, s, ValueOf, AddReal, 0.0);
      FoldSnoc(front, s, WeightOf, AddReal, 0.0);
      Expand(s, w, v);
      Regroup(TotalReal(front, ValueOf), TotalReal(front, WeightOf), |front| as real, s, w, v);
    }
  }

  lemma NoShares(w: real, v: real)
    ensures TotalReal([], Deviation(w, v)) == TotalReal([], MomentOf) == 0.0
    ensures TotalReal([], ValueOf) == TotalReal([], WeightOf) == 0.0
  {
  }

  lemma Expand(s: Share, w: real, v: real)
    ensures Deviation(w, v)(s) == MomentOf(s) - w * s.value - v * s.weight + w * v
  {
  }

  lemma Regroup(values: real, weights: real, n: real, s: Share, w: real, v: real)
    ensures w * (values + s.value) == w * values + w * s.value
    ensures v * (weights + s.weight) == v * weights + v * s.weight
    ensures (n + 1.0) * (w * v) == n * (w * v) + w * v
  {
  }

  lemma CovariationIs(shares: seq<Share>)
    requires shares != []
    ensures Covariation(shares) == TotalReal(shares, MomentOf) - TotalReal(shares, WeightOf) * PlainMean(shares)
  {
    hide Fold;
    var n, w, v := |shares| as real, TotalReal(shares, WeightOf), TotalReal(shares, ValueOf);
    DeviationTotal(shares, w / n, PlainMean(shares));
    Divided(n, w, v);
  }

  lemma Divided(n: real, w: real, v: real)
    requires n > 0.0
    ensures w / n * v == w * (v / n) && n * (w / n * (v / n)) == w * (v / n)
    ensures v / n * w == w * (v / n)
  {
    var x, y := w / n, v / n;
    assert w == n * x && v == n * y;
    assert x * (n * y) == n * x * y;
    assert n * (x * y) == n * x * y;
  }

  lemma {:induction false} NoWeight(shares: seq<Share>)
    requires Proper(shares)
    ensures TotalReal(shares, WeightOf) >= 0.0
    ensures TotalReal(shares, WeightOf) == 0.0 ==>
              TotalReal(shares, ValueOf) == 0.0 && TotalReal(shares, MomentOf) == 0.0
  {
    if shares != [] {
      var n := |shares| - 1;
      assert shares[n] in shares;
      NoWeight(shares[..n]);
    }
  }

  /** The plain mean is the weighted one exactly when weight and value do not vary together. */
  lemma MeansAgreeExactly(shares: seq<Share>)
    requires Proper(shares)
    ensures PlainMean(shares) == WeightedMean(shares) <==> Covariation(shares) == 0.0
  {
    hide Fold, Proper, Covariation;
    NoWeight(shares);
    var w, m := TotalReal(shares, WeightOf), TotalReal(shares, MomentOf);
    if shares == [] {
      NothingToAverage();
    } else {
      CovariationIs(shares);
      if w > 0.0 {
        QuotientIs(m, w, PlainMean(shares));
      }
    }
  }

  lemma NothingToAverage()
    ensures PlainMean([]) == WeightedMean([]) == Covariation([]) == 0.0
  {
  }

  lemma QuotientIs(m: real, w: real, x: real)
    requires w > 0.0
    ensures x == m / w <==> m - w * x == 0.0
  {
    var y := m / w;
    assert m == w * y;
    assert w * (y - x) == m - w * x;
    if x != y {
      assert w * (y - x) != 0.0;
    }
  }

  /** Over two runs: when they are as long as each other or have the same figure, and in no other case. */
  lemma TwoRunsAgreeExactly(s: Share, t: Share)
    requires Proper([s, t])
    ensures PlainMean([s, t]) == WeightedMean([s, t]) <==> s.weight == t.weight || s.value == t.value
  {
    hide Fold, Covariation;
    MeansAgreeExactly([s, t]);
    CovariationIs([s, t]);
    TotalOfTwo(s, t, WeightOf);
    TotalOfTwo(s, t, ValueOf);
    TotalOfTwo(s, t, MomentOf);
    CrossProduct(s.weight, t.weight, s.value, t.value);
  }

  lemma TotalOfTwo(s: Share, t: Share, f: Share -> real)
    ensures TotalReal([s, t], f) == f(s) + f(t)
  {
    assert [s, t] == [] + [s] + [t];
    FoldSnoc([], s, f, AddReal, 0.0);
    FoldSnoc([] + [s], t, f, AddReal, 0.0);
  }

  lemma CrossProduct(a: real, b: real, x: real, y: real)
    ensures 2.0 * (a * x + b * y - (a + b) * ((x + y) / 2.0)) == (a - b) * (x - y)
    ensures (a - b) * (x - y) == 0.0 <==> a == b || x == y
  {
    var mean := (x + y) / 2.0;
    assert x == 2.0 * mean - y;
    Doubled(a, b, mean, y);
    if a != b && x != y {
      NonZeroProduct(a - b, x - y);
    }
  }

  lemma Doubled(a: real, b: real, mean: real, y: real)
    ensures 2.0 * (a * (2.0 * mean - y) + b * y - (a + b) * mean) == (a - b) * (2.0 * mean - y - y)
  {
    assert a * (2.0 * mean - y) == 2.0 * (a * mean) - a * y;
    assert (a + b) * mean == a * mean + b * mean;
    assert (a - b) * (2.0 * mean - y - y) == 2.0 * (a * mean) - 2.0 * (a * y) - 2.0 * (b * mean) + 2.0 * (b * y);
  }

  lemma NonZeroProduct(a: real, b: real)
    requires a != 0.0 && b != 0.0
    ensures a * b != 0.0
  {
  }

  // ---------------------------------------------------------------- records and rows, run by run

  function Plays(a: string): Run -> bool {
    (run: Run) => a in Participants(run)
  }

  function MetricsFor(a: string): Run -> Metrics {
    (run: Run) => MetricsIn(run, a)
  }

  lemma {:induction false} ScoresByRun(runs: seq<Run>, a: string)
    ensures Of(AllScores(runs), a) == Map(Filter(runs, Plays(a)), MetricsFor(a))
  {
    hide Scores, Participants, MetricsIn;
    if runs != [] {
      var front, run := runs[..|runs| - 1], runs[|runs| - 1];
      ScoresByRun(front, a);
      FilterConcat(AllScores(front), Scores(run), HasId(MetricsAgent, a));
      ScoresOf(run, a);
      assert Map(Filter(front, Plays(a)) + [run], MetricsFor(a))
          == Map(Filter(front, Plays(a)), MetricsFor(a)) + [MetricsIn(run, a)];
      assert Of(AllScores(front), a) + [] == Of(AllScores(front), a);
    }
  }

  /** An agent's records are its score rows of the runs it played, in order. */
  lemma RecordsByRun(runs: seq<Run>, records: seq<Record>, a: string)
    requires Map(records, MetricsOfRecord) == AllScores(runs)
    ensures Map(RecordsOf(records, a), MetricsOfRecord) == Map(Filter(runs, Plays(a)), MetricsFor(a))
  {
    hide Filter, AllScores, HasId, MetricsFor;
    SameId(a);
    FilterOfMap(records, MetricsOfRecord, HasId(MetricsAgent, a), HasId(AgentOf, a));
    ScoresByRun(runs, a);
  }

  function RunTotal(a: string, part: ScoreRow -> real): Run -> real {
    (run: Run) => TotalReal(RowsOf(run.rows, a), part)
  }

  /** A total over all an agent's rows is the sum of its runs' totals, leaving out runs that add nothing. */
  lemma {:induction false} RowsByRun(runs: seq<Run>, a: string, part: ScoreRow -> real, q: Run -> bool)
    requires forall run | !q(run) :: RunTotal(a, part)(run) == 0.0
    ensures TotalReal(RowsOf(AllRows(runs), a), part) == TotalReal(Filter(runs, q), RunTotal(a, part))
  {
    hide CommutativeMonoid, Fold, Filter, HasId;
    if runs == [] {
      NothingByRun(a, part, q);
    } else {
      var front, run := runs[..|runs| - 1], runs[|runs| - 1];
      assert runs == front + [run];
      RowsByRun(front, a, part, q);
      FilterConcat(AllRows(front), run.rows, HasId(RowAgent, a));
      Monoids();
      FoldConcat(RowsOf(AllRows(front), a), RowsOf(run.rows, a), part, AddReal, 0.0);
      FoldSnoc(Filter(front, q), run, RunTotal(a, part), AddReal, 0.0);
      FilterSnoc(front, run, q);
      assert RunTotal(a, part)(run) == TotalReal(RowsOf(run.rows, a), part);
    }
  }

  lemma NothingByRun(a: string, part: ScoreRow -> real, q: Run -> bool)
    ensures TotalReal(RowsOf(AllRows([]), a), part) == TotalReal(Filter([], q), RunTotal(a, part)) == 0.0
  {
  }

  lemma {:induction false} ConstantTotal<T(!new)>(s: seq<T>, f: T -> real, c: real)
    requires forall x :: f(x) == c
    ensures TotalReal(s, f) == c * |s| as real
  {
    if s != [] {
      ConstantTotal(s[..|s| - 1], f, c);
    }
  }

  lemma {:induction false} FilterTotalReal<T(!new)>(s: seq<T>, p: T -> bool, f: T -> real, part: T -> real)
    requires forall x :: part(x) == if p(x) then f(x) else 0.0
    ensures TotalReal(Filter(s, p), f) == TotalReal(s, part)
  {
    if s != [] {
      FilterTotalReal(s[..|s| - 1], p, f, part);
      FoldSnoc(Filter(s[..|s| - 1], p), s[|s| - 1], f, AddReal, 0.0);
    }
  }

  // ---------------------------------------------------------------- the valid percentage

  function One(r: ScoreRow): real { 1.0 }
  function Hundred(r: ScoreRow): real { 100.0 }
  function PctPart(r: ScoreRow): real { if IsValid(r) then 100.0 else 0.0 }

  function ValidShare(a: string): Run -> Share {
    (run: Run) => Share(|RowsOf(run.rows, a)| as real, MetricsIn(run, a).validPct)
  }

  /** For each run the agent played: its rows there, and its valid percentage. */
  function ValidShares(runs: seq<Run>, a: string): seq<Share> {
    Map(Filter(runs, Plays(a)), ValidShare(a))
  }

  lemma ValidPctIsQuotient(a: string, proofMode: string, rows: seq<ScoreRow>)
    ensures var m := AgentMetrics(a, proofMode, rows);
            && TotalReal(rows, One) == |rows| as real
            && m.validPct == (if rows == [] then 0.0 else TotalReal(rows, PctPart) / |rows| as real)
            && TotalReal(rows, PctPart) == |rows| as real * m.validPct
  {
    hide Fold, Filter;
    ConstantTotal(rows, One, 1.0);
    ConstantTotal(Filter(rows, IsValid), Hundred, 100.0);
    FilterTotalReal(rows, IsValid, Hundred, PctPart);
    if rows != [] {
      PercentOf(|Filter(rows, IsValid)| as real, |rows| as real);
    }
    if rows == [] {
      NoTotal(PctPart);
    }
  }

  lemma NoTotal(part: ScoreRow -> real)
    ensures TotalReal([], part) == 0.0
  {
  }

  lemma PercentOf(v: real, n: real)
    requires n > 0.0
    ensures v / n * 100.0 == 100.0 * v / n && n * (v / n * 100.0) == 100.0 * v
  {
    var x := v / n;
    assert v == n * x;
  }

  lemma WeightsOfValidShares(runs: seq<Run>, a: string)
    ensures var shares := ValidShares(runs, a);
            && TotalReal(shares, WeightOf) == TotalReal(Filter(runs, Plays(a)), RunTotal(a, One))
            && TotalReal(shares, MomentOf) == TotalReal(Filter(runs, Plays(a)), RunTotal(a, PctPart))
            && Proper(shares)
  {
    hide Fold, Filter, AgentMetrics, Participants;
    forall run
      ensures WeightOf(ValidShare(a)(run)) == RunTotal(a, One)(run)
      ensures MomentOf(ValidShare(a)(run)) == RunTotal(a, PctPart)(run)
      ensures ValidShare(a)(run).weight >= 0.0 && (ValidShare(a)(run).weight == 0.0 ==> ValidShare(a)(run).value == 0.0)
    {
      ValidPctIsQuotient(a, if a in run.proofModes then run.proofModes[a] else "", RowsOf(run.rows, a));
    }
    FoldOfMap(Filter(runs, Plays(a)), ValidShare(a), WeightOf, RunTotal(a, One), AddReal, 0.0);
    FoldOfMap(Filter(runs, Plays(a)), ValidShare(a), MomentOf, RunTotal(a, PctPart), AddReal, 0.0);
  }

  /** A run the agent did not play has no rows of its own. */
  lemma NoRowsNoTotal(run: Run, a: string, part: ScoreRow -> real)
    requires !Plays(a)(run)
    ensures RunTotal(a, part)(run) == 0.0
  {
    hide Filter, Distinct;
    NoRowsUnlessParticipant(run.agentIds, run.rows, a);
    NoTotal(part);
  }

  lemma WholeValidPct(runs: seq<Run>, a: string, proofMode: string)
    ensures AgentMetrics(a, proofMode, RowsOf(AllRows(runs), a)).validPct == WeightedMean(ValidShares(runs, a))
  {
    hide Fold, Filter, AgentMetrics, Plays, RunTotal, HasId, Proper;
    forall run | !Plays(a)(run)
      ensures RunTotal(a, One)(run) == 0.0 == RunTotal(a, PctPart)(run)
    {
      NoRowsNoTotal(run, a, One);
      NoRowsNoTotal(run, a, PctPart);
    }
    RowsByRun(runs, a, One, Plays(a));
    RowsByRun(runs, a, PctPart, Plays(a));
    WeightsOfValidShares(runs, a);
    ValidPctIsQuotient(a, proofMode, RowsOf(AllRows(runs), a));
  }

  lemma BoardValidPct(runs: seq<Run>, records: seq<Record>, a: string)
    requires Map(records, MetricsOfRecord) == AllScores(runs) && RecordsOf(records, a) != []
    ensures Aggregate(a, RecordsOf(records, a)).validPct == PlainMean(ValidShares(runs, a))
  {
    hide Fold, Filter, AgentMetrics, AllScores, HasId, Participants;
    var rows, played := RecordsOf(records, a), Filter(runs, Plays(a));
    RecordsByRun(runs, records, a);
    FoldOfMap(rows, MetricsOfRecord, MetricValidPct, ValidPctOf, AddReal, 0.0);
    forall i | 0 <= i < |played|
      ensures ValueOf(ValidShare(a)(played[i])) == MetricValidPct(MetricsFor(a)(played[i]))
    {
    }
    FoldOfMap(played, MetricsFor(a), MetricValidPct, ShareValue(a), AddReal, 0.0);
    FoldOfMap(played, ValidShare(a), ValueOf, ShareValue(a), AddReal, 0.0);
    assert |rows| == |Map(rows, MetricsOfRecord)| == |played|;
  }

  function MetricValidPct(m: Metrics): real { m.validPct }

  function ShareValue(a: string): Run -> real {
    (run: Run) => MetricsIn(run, a).validPct
  }

  /**
   The valid percentage the board shows for an agent is that of all its rows at once exactly when, across the
   runs it played, the percentage does not vary with the number of its rows.
   */
  lemma ValidPctPoolsExactly(runs: seq<Run>, records: seq<Record>, a: string, proofMode: string)
    requires Map(records, MetricsOfRecord) == AllScores(runs) && RecordsOf(records, a) != []
    ensures Aggregate(a, RecordsOf(records, a)).validPct
            == AgentMetrics(a, proofMode, RowsOf(AllRows(runs), a)).validPct
       <==> Covariation(ValidShares(runs, a)) == 0.0
  {
    hide Fold, Filter, AgentMetrics, Aggregate, AllScores, ValidShares, Covariation, PlainMean, WeightedMean;
    BoardValidPct(runs, records, a);
    WholeValidPct(runs, a, proofMode);
    WeightsOfValidShares(runs, a);
    MeansAgreeExactly(ValidShares(runs, a));
  }

  // ---------------------------------------------------------------- the Brier score

  function ConfidencePart(r: ScoreRow): real { if HasConfidence(r) then 1.0 else 0.0 }
  function RatedPart(r: ScoreRow): real { if IsScored(r) then ConfidencePart(r) else 0.0 }
  function ErrorPart(r: ScoreRow): real { if IsScored(r) then SquaredError(r) else 0.0 }

  /** Rows with a usable confidence, and their squared errors, over an agent's scored rows in any order. */
  lemma RatedTotals(rows: seq<ScoreRow>)
    ensures var rated := Filter(Scored(rows), HasConfidence);
            && |rated| as real == TotalReal(rows, RatedPart)
            && TotalReal(rated, SquaredError) == TotalReal(rows, ErrorPart)
  {
    hide Fold, Filter, CommutativeMonoid, Confidence, IsScored, Sort;
    var scored := Filter(rows, IsScored);
    var rated := Filter(scored, HasConfidence);
    SortSorts(scored, ByTick());
    FilterPermutation(Scored(rows), scored, HasConfidence);
    SameMembers(Filter(Scored(rows), HasConfidence), rated);
    Monoids();
    FoldPermutation(Filter(Scored(rows), HasConfidence), rated, SquaredError, AddReal, 0.0);
    ConstantTotal(rated, One, 1.0);
    FilterTotalReal(scored, HasConfidence, One, ConfidencePart);
    FilterTotalReal(rows, IsScored, ConfidencePart, RatedPart);
    FilterTotalReal(scored, HasConfidence, SquaredError, SquaredError);
    FilterTotalReal(rows, IsScored, SquaredError, ErrorPart);
  }

  lemma BrierIsQuotient(rows: seq<ScoreRow>)
    ensures var (w, e) := (TotalReal(rows, RatedPart), TotalReal(rows, ErrorPart));
            && w >= 0.0 && (w == 0.0 ==> e == 0.0)
            && Brier(Scored(rows)) == (if w == 0.0 then None else Some(e / w))
  {
    hide Filter, Scored, SquaredError;
    RatedTotals(rows);
  }

  /** The row is scored, and says with a number in [0, 1] how sure it is. */
  predicate Rates(r: ScoreRow, c: real) {
    && r.valid == Bool(true) && r.clvBps.Int? && 0.0 <= c <= 1.0
    && (r.confidence == Float(c) || (r.confidence.Int? && r.confidence.n as real == c))
  }

  /** How far it was off: from 1 when the closing line rose, and from 0 otherwise. */
  function Miss(r: ScoreRow, c: real): real
    requires Rates(r, c)
  {
    if r.clvBps.n > 0 then 1.0 - c else c
  }

  /** A row adds the square of its miss, and nothing if it rates nothing. */
  lemma PartsOfRow(r: ScoreRow)
    ensures (forall c :: !Rates(r, c)) ==> RatedPart(r) == 0.0 == ErrorPart(r)
    ensures forall c | Rates(r, c) :: RatedPart(r) == 1.0 && ErrorPart(r) == Square(Miss(r, c))
    ensures RatedPart(r) >= 0.0 && ErrorPart(r) >= 0.0
  {
    if IsScored(r) && Confidence(r).Some? {
      var c := Confidence(r).value;
      assert Rates(r, c) && forall d | Rates(r, d) :: d == c;
      SquareOfMiss(c, r.clvBps.n);
      SquareZero(Miss(r, c));
    } else {
      assert forall c :: !Rates(r, c);
    }
  }

  lemma SquareOfMiss(c: real, clv: int)
    ensures ErrorAgainst(c, clv) == if clv > 0 then (1.0 - c) * (1.0 - c) else c * c
  {
    if clv > 0 {
      assert (c - 1.0) * (c - 1.0) == (1.0 - c) * (1.0 - c);
    }
  }

  /** One more row moves the Brier score, a mean of w squares that sum to e, by the square of its miss. */
  lemma BrierOneMore(rows: seq<ScoreRow>, r: ScoreRow) returns (w: real, e: real)
    ensures w >= 0.0 && Brier(Scored(rows)) == (if w == 0.0 then None else Some(e / w)) && (w == 0.0 ==> e == 0.0)
    ensures (forall c :: !Rates(r, c)) ==> Brier(Scored(rows + [r])) == Brier(Scored(rows))
    ensures forall c | Rates(r, c) :: Brier(Scored(rows + [r])) == Some((e + Miss(r, c) * Miss(r, c)) / (w + 1.0))
  {
    hide Fold, Scored, Brier, RatedPart, ErrorPart, Rates, Miss;
    w, e := TotalReal(rows, RatedPart), TotalReal(rows, ErrorPart);
    BrierIsQuotient(rows);
    BrierIsQuotient(rows + [r]);
    FoldSnoc(rows, r, RatedPart, AddReal, 0.0);
    FoldSnoc(rows, r, ErrorPart, AddReal, 0.0);
    PartsOfRow(r);
  }

  lemma {:induction false} ErrorsVanishExactly(rows: seq<ScoreRow>)
    ensures TotalReal(rows, RatedPart) >= 0.0 && TotalReal(rows, ErrorPart) >= 0.0
    ensures TotalReal(rows, RatedPart) == 0.0 <==> forall r, c | r in rows :: !Rates(r, c)
    ensures TotalReal(rows, ErrorPart) == 0.0 <==> forall r, c | r in rows && Rates(r, c) :: Miss(r, c) == 0.0
  {
    hide Fold, RatedPart, ErrorPart, Rates, Miss;
    if rows == [] {
      NoTotal(RatedPart);
      NoTotal(ErrorPart);
    } else {
      var front, r := rows[..|rows| - 1], rows[|rows| - 1];
      assert rows == front + [r];
      ErrorsVanishExactly(front);
      FoldSnoc(front, r, RatedPart, AddReal, 0.0);
      FoldSnoc(front, r, ErrorPart, AddReal, 0.0);
      PartsOfRow(r);
      RowVanishes(r);
    }
  }

  lemma RowVanishes(r: ScoreRow)
    ensures RatedPart(r) == 0.0 <==> forall c :: !Rates(r, c)
    ensures ErrorPart(r) == 0.0 <==> forall c | Rates(r, c) :: Miss(r, c) == 0.0
  {
    hide RatedPart, ErrorPart, Rates, Miss, Square;
    PartsOfRow(r);
    forall c | Rates(r, c)
      ensures Square(Miss(r, c)) == 0.0 <==> Miss(r, c) == 0.0
    {
      SquareZero(Miss(r, c));
    }
  }

  /** A Brier score of 0 is perfect foresight: 1 on every rated row that rose, and 0 on every other. */
  lemma BrierZeroExactly(rows: seq<ScoreRow>)
    ensures Brier(Scored(rows)) == Some(0.0)
       <==> (exists r, c :: r in rows && Rates(r, c))
            && forall r, c | r in rows && Rates(r, c) :: c == if r.clvBps.n > 0 then 1.0 else 0.0
  {
    hide Fold, Scored, Brier, RatedPart, ErrorPart;
    BrierIsQuotient(rows);
    ErrorsVanishExactly(rows);
    var (w, e) := (TotalReal(rows, RatedPart), TotalReal(rows, ErrorPart));
    assert w == 0.0 <==> !exists r, c :: r in rows && Rates(r, c);
    assert e == 0.0 <==> forall r, c | r in rows && Rates(r, c) :: c == if r.clvBps.n > 0 then 1.0 else 0.0 by {
      assert forall r, c | Rates(r, c) :: Miss(r, c) == 0.0 <==> c == if r.clvBps.n > 0 then 1.0 else 0.0;
    }
    if w > 0.0 {
      QuotientIs(e, w, 0.0);
    }
  }

  function Product(x: real, y: real): real { x * y }

  function Square(x: real): real { Product(x, x) }

  lemma SquareZero(x: real)
    ensures Square(x) >= 0.0 && (Square(x) == 0.0 <==> x == 0.0)
  {
    hide Product;
    SquareOfZero();
    SquareOfOpposite(x);
    if x > 0.0 {
      PositiveProduct(x, x);
    } else if x < 0.0 {
      PositiveProduct(-x, -x);
    }
  }

  lemma SquareOfZero()
    ensures Square(0.0) == 0.0
  {
  }

  lemma SquareOfOpposite(x: real)
    ensures Square(-x) == Square(x)
  {
  }

  lemma PositiveProduct(x: real, y: real)
    requires x > 0.0 && y > 0.0
    ensures Product(x, y) > 0.0
  {
  }

  function BrierIn(a: string): Run -> Option<real> {
    (run: Run) => MetricsIn(run, a).brier
  }

  function BrierValue(a: string): Run -> real {
    (run: Run) => if BrierIn(a)(run).Some? then BrierIn(a)(run).value else 0.0
  }

  /** The agent played the run and has a Brier score there. */
  function Rated(a: string): Run -> bool {
    (run: Run) => Plays(a)(run) && BrierIn(a)(run).Some?
  }

  function BrierShare(a: string): Run -> Share {
    (run: Run) => Share(RunTotal(a, RatedPart)(run), BrierValue(a)(run))
  }

  /** For each run with a Brier score: the rows it is a mean of, and the score. */
  function BrierShares(runs: seq<Run>, a: string): seq<Share> {
    Map(Filter(runs, Rated(a)), BrierShare(a))
  }

  lemma BrierOfRun(run: Run, a: string)
    ensures var (w, e) := (RunTotal(a, RatedPart)(run), RunTotal(a, ErrorPart)(run));
            && (Rated(a)(run) ==> w > 0.0 && w * BrierValue(a)(run) == e)
            && (!Rated(a)(run) ==> w == 0.0 && e == 0.0)
  {
    hide Fold, Filter, Participants, Brier, Scored, Drawdown, Sum;
    BrierIsQuotient(RowsOf(run.rows, a));
    if !Plays(a)(run) {
      NoRowsNoTotal(run, a, RatedPart);
      NoRowsNoTotal(run, a, ErrorPart);
    } else if Rated(a)(run) {
      var (w, e) := (RunTotal(a, RatedPart)(run), RunTotal(a, ErrorPart)(run));
      assert BrierValue(a)(run) == e / w;
    }
  }

  lemma WeightsOfBrierShares(runs: seq<Run>, a: string)
    ensures var (shares, rated) := (BrierShares(runs, a), Filter(runs, Rated(a)));
            && TotalReal(shares, WeightOf) == TotalReal(rated, RunTotal(a, RatedPart))
            && TotalReal(shares, MomentOf) == TotalReal(rated, RunTotal(a, ErrorPart))
            && forall s | s in shares :: s.weight > 0.0
  {
    hide Fold, Filter, RunTotal, Rated, BrierValue;
    var rated := Filter(runs, Rated(a));
    forall i | 0 <= i < |rated|
      ensures WeightOf(BrierShare(a)(rated[i])) == RunTotal(a, RatedPart)(rated[i]) > 0.0
      ensures MomentOf(BrierShare(a)(rated[i])) == RunTotal(a, ErrorPart)(rated[i])
    {
      assert rated[i] in rated;
      BrierOfRun(rated[i], a);
    }
    FoldOfMap(rated, BrierShare(a), WeightOf, RunTotal(a, RatedPart), AddReal, 0.0);
    FoldOfMap(rated, BrierShare(a), MomentOf, RunTotal(a, ErrorPart), AddReal, 0.0);
  }

  lemma {:induction false} PositiveWeights(shares: seq<Share>)
    requires forall s | s in shares :: s.weight > 0.0
    ensures Proper(shares)
    ensures if shares == [] then TotalReal(shares, WeightOf) == 0.0 else TotalReal(shares, WeightOf) > 0.0
  {
    if shares != [] {
      var n := |shares| - 1;
      assert shares[n] in shares;
      PositiveWeights(shares[..n]);
    }
  }

  lemma WholeBrier(runs: seq<Run>, a: string, proofMode: string)
    ensures AgentMetrics(a, proofMode, RowsOf(AllRows(runs), a)).brier
         == if BrierShares(runs, a) == [] then None else Some(WeightedMean(BrierShares(runs, a)))
  {
    hide Fold, Filter, Rated, RunTotal, HasId, Brier, Scored, Drawdown, Sum, BrierShares;
    forall run | !Rated(a)(run)
      ensures RunTotal(a, RatedPart)(run) == 0.0 == RunTotal(a, ErrorPart)(run)
    {
      BrierOfRun(run, a);
    }
    RowsByRun(runs, a, RatedPart, Rated(a));
    RowsByRun(runs, a, ErrorPart, Rated(a));
    WeightsOfBrierShares(runs, a);
    PositiveWeights(BrierShares(runs, a));
    BrierIsQuotient(RowsOf(AllRows(runs), a));
  }

  function MetricBrier(m: Metrics): real { if m.brier.Some? then m.brier.value else 0.0 }
  function MetricHasBrier(m: Metrics): int { if m.brier.Some? then 1 else 0 }

  function HasBrierIn(a: string): Run -> int {
    (run: Run) => if BrierIn(a)(run).Some? then 1 else 0
  }

  function RatedValue(a: string): Run -> real {
    (run: Run) => if Rated(a)(run) then BrierValue(a)(run) else 0.0
  }

  function RatedCount(a: string): Run -> int {
    (run: Run) => if Rated(a)(run) then 1 else 0
  }

  lemma BoardBrierParts(runs: seq<Run>, records: seq<Record>, a: string)
    requires Map(records, MetricsOfRecord) == AllScores(runs)
    ensures TotalReal(RecordsOf(records, a), BrierOf) == TotalReal(BrierShares(runs, a), ValueOf)
    ensures Total(RecordsOf(records, a), BrierCount) == |BrierShares(runs, a)|
  {
    hide Fold, Filter, AgentMetrics, AllScores, HasId, Participants, RunTotal;
    var rows, played, rated := RecordsOf(records, a), Filter(runs, Plays(a)), Filter(runs, Rated(a));
    RecordsByRun(runs, records, a);
    FoldOfMap(rows, MetricsOfRecord, MetricBrier, BrierOf, AddReal, 0.0);
    FoldOfMap(rows, MetricsOfRecord, MetricHasBrier, BrierCount, AddInt, 0);
    FoldOfMap(played, MetricsFor(a), MetricBrier, BrierValue(a), AddReal, 0.0);
    FoldOfMap(played, MetricsFor(a), MetricHasBrier, HasBrierIn(a), AddInt, 0);
    FoldOfMap(rated, BrierShare(a), ValueOf, BrierValue(a), AddReal, 0.0);
    FilterTotalReal(runs, Plays(a), BrierValue(a), RatedValue(a));
    FilterTotalReal(runs, Rated(a), BrierValue(a), RatedValue(a));
    FilterTotal(runs, Plays(a), HasBrierIn(a), RatedCount(a));
    FilterCount(runs, Rated(a), RatedCount(a));
  }

  /**
   So it is with the Brier score: the board's is that of all the agent's rows at once exactly when, across the
   runs that have one, it does not vary with the number of rows it is a mean of. Without any, both are None.
   */
  lemma BrierPoolsExactly(runs: seq<Run>, records: seq<Record>, a: string, proofMode: string)
    requires Map(records, MetricsOfRecord) == AllScores(runs) && RecordsOf(records, a) != []
    ensures Aggregate(a, RecordsOf(records, a)).brier == AgentMetrics(a, proofMode, RowsOf(AllRows(runs), a)).brier
       <==> Covariation(BrierShares(runs, a)) == 0.0
  {
    hide Fold, Filter, AgentMetrics, AllScores, BrierShares, WeightedMean, HasId;
    BoardBrierParts(runs, records, a);
    WholeBrier(runs, a, proofMode);
    WeightsOfBrierShares(runs, a);
    PositiveWeights(BrierShares(runs, a));
    MeansAgreeExactly(BrierShares(runs, a));
  }
}
