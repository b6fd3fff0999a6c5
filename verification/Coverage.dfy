/**
 The coverage arithmetic of summarize_outcome in scripts/maker/pmxt_archive_pull.py over a top-of-book
 series: counts of distinct buckets against the observed span and against the requested window.
 */
module Coverage {
  import opened Prelude
  import opened T = TopOfBook

  datatype Window = Window(startMs: int, endMs: int)

  datatype Summary = Summary(okBuckets: nat, spanBuckets: int, spanCoverage: real, windowBuckets: Option<int>,
                             windowCoverage: Option<real>)

  function Largest(s: seq<int>): (m: int)
    requires s != []
    ensures m in s && forall i | 0 <= i < |s| :: s[i] <= m
  {
    if |s| == 1 then s[0] else Max(Largest(s[..|s| - 1]), s[|s| - 1])
  }

  function Smallest(s: seq<int>): (m: int)
    requires s != []
    ensures m in s && forall i | 0 <= i < |s| :: m <= s[i]
  {
    if |s| == 1 then s[0] else Min(Smallest(s[..|s| - 1]), s[|s| - 1])
  }

  function BucketIds<P>(quotes: seq<Quote<P>>, step: int): seq<int>
    requires step > 0
  {
    Map(quotes, (q: Quote<P>) => BucketOf(q, step))
  }

  /** The distinct buckets with an ok quote. */
  function OkBuckets<P>(quotes: seq<Quote<P>>, step: int): set<int>
    requires step > 0
  {
    set i | 0 <= i < |quotes| && quotes[i].status == QuoteOk :: BucketOf(quotes[i], step)
  }

  predicate Within<P>(q: Quote<P>, w: Window) {
    w.startMs <= q.recvTs <= w.endMs
  }

  function OkInWindow<P>(quotes: seq<Quote<P>>, step: int, w: Window): set<int>
    requires step > 0
  {
    set i | 0 <= i < |quotes| && quotes[i].status == QuoteOk && Within(quotes[i], w) :: BucketOf(quotes[i], step)
  }

  function WindowBuckets(w: Window, step: int): int
    requires step > 0
  {
    Max(0, w.endMs / step - w.startMs / step + 1)
  }

  function Fraction(n: nat, of: int): real {
    if of != 0 then n as real / of as real else 0.0
  }

  function SpanOf(ids: seq<int>): int {
    if ids == [] then 0 else Largest(ids) - Smallest(ids) + 1
  }

  function SummarizeOutcome<P>(quotes: seq<Quote<P>>, intervalMs: int, window: Option<Window>): Summary {
    var step := Max(1, intervalMs);
    var ok, span := |OkBuckets(quotes, step)|, SpanOf(BucketIds(quotes, step));
    match window
    case None => Summary(ok, span, Fraction(ok, span), None, None)
    case Some(w) =>
      Summary(ok, span, Fraction(ok, span), Some(WindowBuckets(w, step)),
              Some(Fraction(|OkInWindow(quotes, step, w)|, WindowBuckets(w, step))))
  }

  // ---------------------------------------------------------------- counting buckets

  function Between(lo: int, hi: int): (r: set<int>)
    ensures forall b :: (b in r <==> lo <= b <= hi)
    decreases hi - lo + 1
  {
    if lo > hi then {} else Between(lo, hi - 1) + {hi}
  }

  lemma {:induction false} BetweenSize(lo: int, hi: int)
    requires lo <= hi + 1
    ensures |Between(lo, hi)| == hi - lo + 1
    decreases hi - lo + 1
  {
    if lo <= hi {
      BetweenSize(lo, hi - 1);
    }
  }

  lemma {:induction false} SubsetSize(a: set<int>, b: set<int>)
    requires a <= b
    ensures |a| <= |b| && (|a| == |b| <==> a == b)
  {
    assert b == a + (b - a) && a * (b - a) == {};
  }

  /** A count of distinct buckets out of a range is a fraction, and is whole exactly when none is missing. */
  lemma CountedBuckets(buckets: set<int>, lo: int, hi: int)
    requires lo <= hi && buckets <= Between(lo, hi)
    ensures 0.0 <= Fraction(|buckets|, hi - lo + 1) <= 1.0
    ensures Fraction(|buckets|, hi - lo + 1) == 1.0 <==> forall b | lo <= b <= hi :: b in buckets
  {
    hide Fraction;
    BetweenSize(lo, hi);
    SubsetSize(buckets, Between(lo, hi));
    FractionOf(|buckets|, hi - lo + 1);
    assert buckets == Between(lo, hi) <==> forall b | lo <= b <= hi :: b in buckets;
  }

  lemma FractionOf(n: nat, of: int)
    requires 0 < of && n <= of
    ensures 0.0 <= Fraction(n, of) <= 1.0 && (Fraction(n, of) == 1.0 <==> n == of)
  {
    Ratio(n as real, of as real);
  }

  lemma Ratio(x: real, y: real)
    requires 0.0 <= x <= y && 0.0 < y
    ensures 0.0 <= x / y <= 1.0 && (x / y == 1.0 <==> x == y)
  {
    var r := x / y;
    assert r * y == x;
    Scale(r, 1.0, y);
    Scale(0.0, r, y);
  }

  lemma Scale(a: real, b: real, y: real)
    requires 0.0 < y
    ensures a <= b <==> a * y <= b * y
    ensures a == b <==> a * y == b * y
  {
  }

  // ---------------------------------------------------------------- coverage

  /** Span coverage is a fraction, and is 1 exactly when every bucket between the first and last row is ok. */
  lemma SpanCoverageIsAFraction<P>(quotes: seq<Quote<P>>, intervalMs: int, window: Option<Window>)
    ensures 0.0 <= SummarizeOutcome(quotes, intervalMs, window).spanCoverage <= 1.0
    ensures var step := Max(1, intervalMs);
            var ids := BucketIds(quotes, step);
            (SummarizeOutcome(quotes, intervalMs, window).spanCoverage == 1.0
             <==> ids != [] && forall b | Smallest(ids) <= b <= Largest(ids) :: b in OkBuckets(quotes, step))
  {
    hide Largest, Smallest, Fraction, OkBuckets;
    var step := Max(1, intervalMs);
    var ids := BucketIds(quotes, step);
    if quotes == [] {
      NoFraction();
    } else {
      OkWithinSpan(quotes, step);
      CountedBuckets(OkBuckets(quotes, step), Smallest(ids), Largest(ids));
    }
  }

  lemma WholeTimesFraction(n: nat, of: int)
    requires of != 0
    ensures Fraction(n, of) * of as real == n as real
  {
  }

  /** b is the bucket of some ok quote. */
  predicate HasOk<P>(quotes: seq<Quote<P>>, step: int, b: int)
    requires step > 0
  {
    exists i | 0 <= i < |quotes| :: quotes[i].status == QuoteOk && quotes[i].bucketTs / step == b
  }

  predicate HasOkWithin<P>(quotes: seq<Quote<P>>, step: int, w: Window, b: int)
    requires step > 0
  {
    exists i | 0 <= i < |quotes| ::
      quotes[i].status == QuoteOk && w.startMs <= quotes[i].recvTs <= w.endMs && quotes[i].bucketTs / step == b
  }

  /** The span runs from the first bucket that has a row to the last. */
  lemma SpanIs<P>(quotes: seq<Quote<P>>, step: int) returns (i: nat, j: nat)
    requires step > 0 && quotes != []
    ensures i < |quotes| && j < |quotes|
    ensures SpanOf(BucketIds(quotes, step)) == quotes[j].bucketTs / step - quotes[i].bucketTs / step + 1 > 0
    ensures forall k | 0 <= k < |quotes| ::
              quotes[i].bucketTs / step <= quotes[k].bucketTs / step <= quotes[j].bucketTs / step
  {
    hide Largest, Smallest;
    var ids := BucketIds(quotes, step);
    assert forall k | 0 <= k < |quotes| :: ids[k] == quotes[k].bucketTs / step;
    i :| 0 <= i < |ids| && ids[i] == Smallest(ids);
    j :| 0 <= j < |ids| && ids[j] == Largest(ids);
  }

  /** Span coverage is the share of ok buckets among those from the first row's to the last's. */
  lemma SpanCoverageIsTheShare<P>(quotes: seq<Quote<P>>, intervalMs: int, window: Option<Window>) returns (ok: set<int>)
    ensures var (s, step) := (SummarizeOutcome(quotes, intervalMs, window), Max(1, intervalMs));
            && (forall b :: b in ok <==> HasOk(quotes, step, b)) && s.okBuckets == |ok|
            && s.spanCoverage * s.spanBuckets as real == |ok| as real
            && s.spanBuckets == SpanOf(BucketIds(quotes, step)) && (quotes == [] ==> s.spanBuckets == 0)
  {
    hide Fraction, SpanOf, OkInWindow;
    var step := Max(1, intervalMs);
    ok := OkBuckets(quotes, step);
    NoFraction();
    if quotes != [] {
      var _, _ := SpanIs(quotes, step);
      WholeTimesFraction(|ok|, SpanOf(BucketIds(quotes, step)));
    } else {
      assert ok == {} && SpanOf(BucketIds(quotes, step)) == 0 by {
        NothingSpanned<P>(step);
      }
    }
  }

  lemma NothingSpanned<P>(step: int)
    requires step > 0
    ensures OkBuckets<P>([], step) == {} && SpanOf(BucketIds<P>([], step)) == 0
  {
  }

  /** Window coverage is the share of buckets of the requested window with an ok quote received in it. */
  lemma WindowCoverageIsTheShare<P>(quotes: seq<Quote<P>>, intervalMs: int, w: Window) returns (ok: set<int>)
    ensures var (s, step) := (SummarizeOutcome(quotes, intervalMs, Some(w)), Max(1, intervalMs));
            && (forall b :: b in ok <==> HasOkWithin(quotes, step, w, b))
            && s.windowBuckets == Some(Max(0, w.endMs / step - w.startMs / step + 1)) && s.windowCoverage.Some?
            && if s.windowBuckets.value == 0 then s.windowCoverage.value == 0.0
               else s.windowCoverage.value * s.windowBuckets.value as real == |ok| as real
  {
    hide Fraction, SpanOf, OkBuckets;
    var step := Max(1, intervalMs);
    ok := OkInWindow(quotes, step, w);
    NoFraction();
    if WindowBuckets(w, step) != 0 {
      WholeTimesFraction(|ok|, WindowBuckets(w, step));
    }
  }

  lemma OkWithinSpan<P>(quotes: seq<Quote<P>>, step: int)
    requires step > 0 && quotes != []
    ensures OkBuckets(quotes, step) <= Between(Smallest(BucketIds(quotes, step)), Largest(BucketIds(quotes, step)))
  {
    hide Smallest, Largest, BucketOf;
    var ids := BucketIds(quotes, step);
    forall b | b in OkBuckets(quotes, step)
      ensures b in Between(Smallest(ids), Largest(ids))
    {
      var i :| 0 <= i < |quotes| && BucketOf(quotes[i], step) == b;
      assert ids[i] == b;
    }
  }

  lemma NoFraction()
    ensures forall n: nat :: Fraction(n, 0) == 0.0
  {
  }

  /** Every quote the series holds is stamped with the bucket it was received in. */
  predicate Stamped<P>(quotes: seq<Quote<P>>, step: int)
    requires step > 0
  {
    forall i | 0 <= i < |quotes| :: quotes[i].bucketTs == quotes[i].recvTs / step * step
  }

  /**
   Window coverage is a fraction, and is 1 exactly when the window is not reversed past a bucket and every
   bucket it touches has an ok quote received inside it.
   */
  lemma WindowCoverageIsAFraction<P>(quotes: seq<Quote<P>>, intervalMs: int, w: Window)
    requires Stamped(quotes, Max(1, intervalMs))
    ensures 0.0 <= SummarizeOutcome(quotes, intervalMs, Some(w)).windowCoverage.value <= 1.0
    ensures var step := Max(1, intervalMs);
            (SummarizeOutcome(quotes, intervalMs, Some(w)).windowCoverage.value == 1.0
             <==> w.startMs / step <= w.endMs / step
                  && forall b | w.startMs / step <= b <= w.endMs / step :: b in OkInWindow(quotes, step, w))
  {
    hide Fraction, SpanOf;
    var step := Max(1, intervalMs);
    var (lo, hi) := (w.startMs / step, w.endMs / step);
    forall b | b in OkInWindow(quotes, step, w)
      ensures lo <= b <= hi
    {
      var i :| 0 <= i < |quotes| && quotes[i].status == QuoteOk && Within(quotes[i], w)
               && BucketOf(quotes[i], step) == b;
      var q := quotes[i];
      BucketOfBuilt(q.recvTs, step);
      B.BucketsMonotone(w.startMs, q.recvTs, step);
      B.BucketsMonotone(q.recvTs, w.endMs, step);
    }
    if lo <= hi {
      CountedBuckets(OkInWindow(quotes, step, w), lo, hi);
    } else {
      NoFraction();
    }
  }

  lemma {:induction false} QuotesStamped<P>(rows: seq<B.RawRow<P>>, token: B.Token, step: int, extract: P -> Status)
    requires step > 0
    ensures Stamped(Quotes(rows, token, step, extract), step)
  {
    if rows != [] {
      QuotesStamped(rows[..|rows| - 1], token, step, extract);
    }
  }

  /** The series the builder makes is stamped. */
  lemma SeriesStamped<P>(series: seq<Quote<P>>, rows: seq<B.RawRow<P>>, token: B.Token, step: int, extract: P -> Status)
    requires step > 0 && Downsamples(series, Quotes(rows, token, step, extract), step)
    ensures Stamped(series, step)
  {
    hide Quotes, Winner;
    QuotesStamped(rows, token, step, extract);
    forall i | 0 <= i < |series|
      ensures series[i] in Quotes(rows, token, step, extract)
    {
      WinnerInBucket(Quotes(rows, token, step, extract), BucketOf(series[i], step), step);
    }
  }

  predicate IsOk<P>(q: Quote<P>) {
    q.status == QuoteOk
  }

  predicate DistinctBuckets<P>(series: seq<Quote<P>>, step: int)
    requires step > 0
  {
    forall i, j | 0 <= i < j < |series| :: BucketOf(series[i], step) < BucketOf(series[j], step)
  }

  lemma OkBucketsSnoc<P>(series: seq<Quote<P>>, q: Quote<P>, step: int)
    requires step > 0
    ensures OkBuckets(series + [q], step) == OkBuckets(series, step) + if IsOk(q) then {BucketOf(q, step)} else {}
  {
    hide BucketOf;
    var after := series + [q];
    forall b | b in OkBuckets(series, step)
      ensures b in OkBuckets(after, step)
    {
      var i :| 0 <= i < |series| && series[i].status == QuoteOk && BucketOf(series[i], step) == b;
      assert after[i] == series[i];
    }
    assert after[|series|] == q;
  }

  lemma LaterBucketIsNew<P>(series: seq<Quote<P>>, q: Quote<P>, step: int)
    requires step > 0 && DistinctBuckets(series + [q], step)
    ensures DistinctBuckets(series, step) && BucketOf(q, step) !in OkBuckets(series, step)
  {
    hide BucketOf;
    var after := series + [q];
    assert forall i | 0 <= i < |series| :: after[i] == series[i];
    assert after[|series|] == q;
  }

  /** With one row per bucket, the ok buckets are counted by the ok rows. */
  lemma {:induction false} OkBucketsAreOkRows<P(!new)>(series: seq<Quote<P>>, step: int)
    requires step > 0 && DistinctBuckets(series, step)
    ensures |OkBuckets(series, step)| == |Filter(series, IsOk)|
  {
    hide OkBuckets, DistinctBuckets, Filter;
    if series == [] {
      NothingOk<P>(step);
    } else {
      var n := |series| - 1;
      var front, q := series[..n], series[n];
      assert series == front + [q];
      LaterBucketIsNew(front, q, step);
      OkBucketsAreOkRows(front, step);
      OkBucketsSnoc(front, q, step);
      FilterSnoc(front, q, IsOk);
    }
  }

  lemma NothingOk<P(!new)>(step: int)
    requires step > 0
    ensures OkBuckets<P>([], step) == {} && Filter<Quote<P>>([], IsOk) == []
  {
  }
}
