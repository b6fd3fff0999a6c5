/**
 The cadence analysis of analyze_samples in scripts/maker/live_monitor.py: one market's rows split into
 liquid segments at gaps and illiquid rows, and the time between change events of a segment. No delta
 spans a break, and the segments are exactly the maximal liquid runs.
 */
module Cadence {
  import opened Prelude
  import opened Sorting
  import L = LeadLagProbe

  /** One recorded row of a market. */
  datatype Sample = Sample(ts: int, gap: bool, fv: Option<real>, mid: Option<real>)

  predicate Liquid(s: Sample) {
    !s.gap && s.mid.Some? && s.fv.Some?
  }

  function ToLive(s: Sample): L.Live {
    if s.fv.Some? && s.mid.Some? then L.Live(s.ts, s.fv.value, s.mid.value) else L.Live(s.ts, 0.0, 0.0)
  }

  predicate ByTime(a: Sample, b: Sample) {
    a.ts <= b.ts
  }

  // ---------------------------------------------------------------- segments

  datatype Block = Block(lo: nat, hi: nat)

  predicate AllLiquid(rows: seq<Sample>, lo: nat, hi: nat)
    requires lo <= hi <= |rows|
  {
    forall i | lo <= i < hi :: Liquid(rows[i])
  }

  /** A maximal run of liquid rows. */
  predicate IsBlock(rows: seq<Sample>, b: Block) {
    && b.lo < b.hi <= |rows| && AllLiquid(rows, b.lo, b.hi)
    && (b.lo > 0 ==> !Liquid(rows[b.lo - 1])) && (b.hi < |rows| ==> !Liquid(rows[b.hi]))
  }

  /** Where the liquid run that ends at k starts. */
  function RunStart(rows: seq<Sample>, k: nat): (lo: nat)
    requires k <= |rows|
    ensures lo <= k && AllLiquid(rows, lo, k) && (lo > 0 ==> !Liquid(rows[lo - 1]))
  {
    if k == 0 || !Liquid(rows[k - 1]) then k else RunStart(rows, k - 1)
  }

  /** The runs closed by a break among the first k rows. */
  function Closed(rows: seq<Sample>, k: nat): seq<Block>
    requires k <= |rows|
  {
    if k == 0 then []
    else if !Liquid(rows[k - 1]) && RunStart(rows, k - 1) < k - 1 then
      Closed(rows, k - 1) + [Block(RunStart(rows, k - 1), k - 1)]
    else Closed(rows, k - 1)
  }

  function Blocks(rows: seq<Sample>): seq<Block> {
    var lo := RunStart(rows, |rows|);
    if lo < |rows| then Closed(rows, |rows|) + [Block(lo, |rows|)] else Closed(rows, |rows|)
  }

  function Slice(rows: seq<Sample>, b: Block): seq<Sample> {
    if b.lo <= b.hi <= |rows| then rows[b.lo..b.hi] else []
  }

  function Segments(rows: seq<Sample>, blocks: seq<Block>): (r: seq<seq<Sample>>)
    ensures |r| == |blocks| && forall i | 0 <= i < |r| :: r[i] == Slice(rows, blocks[i])
  {
    seq(|blocks|, i requires 0 <= i < |blocks| => Slice(rows, blocks[i]))
  }

  method SplitSegments(rows: seq<Sample>) returns (segments: seq<seq<Sample>>)
    ensures segments == Segments(rows, Blocks(rows))
  {
    segments := [];
    var cur: seq<Sample> := [];
    for k := 0 to |rows|
      invariant segments == Segments(rows, Closed(rows, k))
      invariant cur == rows[RunStart(rows, k)..k]
    {
      var r := rows[k];
      if r.gap || r.mid == None || r.fv == None {
        if cur != [] {
          segments := segments + [cur];
          cur := [];
        }
        continue;
      }
      cur := cur + [r];
    }
    if cur != [] {
      segments := segments + [cur];
    }
  }

  lemma {:induction false} StartIsUnique(rows: seq<Sample>, lo: nat, k: nat)
    requires lo <= k <= |rows| && AllLiquid(rows, lo, k) && (lo > 0 ==> !Liquid(rows[lo - 1]))
    ensures RunStart(rows, k) == lo
  {
    if lo < k {
      StartIsUnique(rows, lo, k - 1);
    }
  }

  lemma {:induction false} ClosedAre(rows: seq<Sample>, k: nat, b: Block)
    requires k <= |rows|
    ensures b in Closed(rows, k) <==> IsBlock(rows, b) && b.hi < k
  {
    if k > 0 {
      ClosedAre(rows, k - 1, b);
      if IsBlock(rows, b) && b.hi == k - 1 {
        StartIsUnique(rows, b.lo, k - 1);
      }
    }
  }

  predicate InOrder(blocks: seq<Block>) {
    forall i, j | 0 <= i < j < |blocks| :: blocks[i].hi < blocks[j].lo
  }

  lemma {:induction false} ClosedInOrder(rows: seq<Sample>, k: nat)
    requires k <= |rows|
    ensures InOrder(Closed(rows, k))
    ensures forall i | 0 <= i < |Closed(rows, k)| :: Closed(rows, k)[i].hi < k
  {
    if k > 0 {
      ClosedInOrder(rows, k - 1);
      if !Liquid(rows[k - 1]) && RunStart(rows, k - 1) < k - 1 {
        var before, lo := Closed(rows, k - 1), RunStart(rows, k - 1);
        forall i | 0 <= i < |before|
          ensures before[i].hi < lo
        {
          ClosedAre(rows, k - 1, before[i]);
          BreakBefore(rows, before[i], lo, k - 1);
        }
      }
    }
  }

  /** The break that closes a block lies before the next run. */
  lemma BreakBefore(rows: seq<Sample>, b: Block, lo: nat, k: nat)
    requires IsBlock(rows, b) && b.hi < k && lo <= k <= |rows| && AllLiquid(rows, lo, k)
    ensures b.hi < lo
  {
  }

  /** The segments are exactly the maximal liquid runs, in order. */
  lemma SegmentsAreTheLiquidRuns(rows: seq<Sample>)
    ensures forall b :: (b in Blocks(rows) <==> IsBlock(rows, b))
    ensures InOrder(Blocks(rows))
  {
    var n, lo := |rows|, RunStart(rows, |rows|);
    forall b
      ensures b in Blocks(rows) <==> IsBlock(rows, b)
    {
      ClosedAre(rows, n, b);
      if IsBlock(rows, b) && b.hi == n {
        StartIsUnique(rows, b.lo, n);
      }
    }
    ClosedInOrder(rows, n);
    var before := Closed(rows, n);
    forall i | 0 <= i < |before|
      ensures before[i].hi < lo
    {
      ClosedAre(rows, n, before[i]);
      BreakBefore(rows, before[i], lo, n);
    }
  }

  // ---------------------------------------------------------------- deltas

  function Lives(rows: seq<Sample>): (r: seq<L.Live>)
    ensures |r| == |rows| && forall i | 0 <= i < |rows| :: r[i] == ToLive(rows[i])
  {
    seq(|rows|, i requires 0 <= i < |rows| => ToLive(rows[i]))
  }

  /** The time between consecutive change events. */
  function Deltas(events: seq<L.ChangeEvent>): seq<int> {
    if |events| < 2 then []
    else
      var n := |events| - 1;
      Deltas(events[..n]) + [events[n].ts - events[n - 1].ts]
  }

  function AllDeltas(segments: seq<seq<Sample>>): seq<int> {
    if segments == [] then []
    else
      var n := |segments| - 1;
      AllDeltas(segments[..n]) + Deltas(L.Changes(Lives(segments[n])))
  }

  /** The cadence deltas of one market. */
  method CadenceDeltas(samples: seq<Sample>) returns (deltas: seq<int>)
    ensures var rows := Sort(samples, ByTime); deltas == AllDeltas(Segments(rows, Blocks(rows)))
  {
    hide L.Changes, Blocks, Sort, Deltas, Segments;
    var rows := Sort(samples, ByTime);
    var segments := SplitSegments(rows);
    deltas := [];
    for s := 0 to |segments|
      invariant deltas == AllDeltas(segments[..s])
    {
      assert segments[..s + 1][..s] == segments[..s];
      var within := DeltasWithin(segments[s]);
      deltas := deltas + within;
    }
    assert segments[..|segments|] == segments;
  }

  method DeltasWithin(seg: seq<Sample>) returns (within: seq<int>)
    ensures within == Deltas(L.Changes(Lives(seg)))
  {
    hide L.Changes;
    var events := L.Changes(Lives(seg));
    within := [];
    NoDeltas(events);
    var i := 1;
    while i < |events|
      invariant 1 <= i
      invariant within == Deltas(events[..Min(i, |events|)])
    {
      assert events[..i + 1][..i] == events[..i];
      within := within + [events[i].ts - events[i - 1].ts];
      i := i + 1;
    }
    assert events[..|events|] == events;
  }

  lemma NoDeltas(events: seq<L.ChangeEvent>)
    ensures Deltas(events[..Min(1, |events|)]) == []
  {
  }

  /** The row a change event comes from. */
  lemma {:induction false} Origin(rows: seq<L.Live>, k: nat) returns (i: nat)
    requires k < |L.Changes(rows)|
    ensures i < |rows| && rows[i].ts == L.Changes(rows)[k].ts
  {
    var n := |rows| - 1;
    if k < |L.Changes(rows[..n])| {
      i := Origin(rows[..n], k);
    } else {
      i := n;
    }
  }

  /** Consecutive change events come from two rows in order. */
  lemma {:induction false} Origins(rows: seq<L.Live>, k: nat) returns (i: nat, j: nat)
    requires k + 1 < |L.Changes(rows)|
    ensures i < j < |rows| && rows[i].ts == L.Changes(rows)[k].ts && rows[j].ts == L.Changes(rows)[k + 1].ts
  {
    var n := |rows| - 1;
    if k + 1 < |L.Changes(rows[..n])| {
      i, j := Origins(rows[..n], k);
    } else {
      i := Origin(rows[..n], k);
      j := n;
    }
  }

  /** Both values are there and the row is no gap marker, from row i to before row j. */
  predicate AllThere(rows: seq<Sample>, i: nat, j: nat)
    requires i <= j <= |rows|
  {
    forall k | i <= k < j :: !rows[k].gap && rows[k].fv.Some? && rows[k].mid.Some?
  }

  lemma ThereIsLiquid(rows: seq<Sample>, i: nat, j: nat)
    requires i <= j <= |rows|
    ensures AllThere(rows, i, j) <==> AllLiquid(rows, i, j)
  {
  }

  /** A delta is the time between two rows of one run, in order: what lies between them is all liquid. */
  ghost predicate Spans(rows: seq<Sample>, delta: int, i: nat, j: nat) {
    i < j < |rows| && AllThere(rows, i, j + 1) && delta == rows[j].ts - rows[i].ts
  }

  lemma {:induction false} DeltaOfEvents(events: seq<L.ChangeEvent>, k: nat)
    requires k < |Deltas(events)|
    ensures k + 1 < |events| && Deltas(events)[k] == events[k + 1].ts - events[k].ts
  {
    var n := |events| - 1;
    DeltasCount(events[..n]);
    if k < |Deltas(events[..n])| {
      DeltaOfEvents(events[..n], k);
    }
  }

  lemma {:induction false} DeltasCount(events: seq<L.ChangeEvent>)
    ensures |Deltas(events)| == if events == [] then 0 else |events| - 1
  {
    if |events| >= 2 {
      DeltasCount(events[..|events| - 1]);
    }
  }

  lemma DeltaWithinBlock(rows: seq<Sample>, b: Block, d: int) returns (i: nat, j: nat)
    requires IsBlock(rows, b) && d in Deltas(L.Changes(Lives(rows[b.lo..b.hi])))
    ensures Spans(rows, d, i, j)
  {
    hide L.Changes, Deltas, Liquid;
    var lives := Lives(rows[b.lo..b.hi]);
    var events := L.Changes(lives);
    var k :| 0 <= k < |Deltas(events)| && Deltas(events)[k] == d;
    DeltaOfEvents(events, k);
    i, j := Origins(lives, k);
    i, j := b.lo + i, b.lo + j;
    ThereIsLiquid(rows, i, j + 1);
  }

  lemma {:induction false} DeltaOfSomeSegment(segments: seq<seq<Sample>>, d: int) returns (s: nat)
    requires d in AllDeltas(segments)
    ensures s < |segments| && d in Deltas(L.Changes(Lives(segments[s])))
  {
    hide L.Changes, Deltas;
    var n := |segments| - 1;
    if d in AllDeltas(segments[..n]) {
      s := DeltaOfSomeSegment(segments[..n], d);
    } else {
      s := n;
    }
  }

  /** Every cadence delta is the non-negative time between two rows with no gap and no illiquid row between. */
  lemma NoDeltaSpansABreak(samples: seq<Sample>, d: int) returns (i: nat, j: nat)
    requires var rows := Sort(samples, ByTime); d in AllDeltas(Segments(rows, Blocks(rows)))
    ensures Spans(Sort(samples, ByTime), d, i, j) && d >= 0
  {
    hide Sort, AllDeltas, Deltas, Blocks, IsBlock;
    var rows := Sort(samples, ByTime);
    SortSorts(samples, ByTime);
    var s := DeltaOfSomeSegment(Segments(rows, Blocks(rows)), d);
    SegmentsAreTheLiquidRuns(rows);
    var b := Blocks(rows)[s];
    assert b in Blocks(rows);
    SliceOfBlock(rows, b);
    i, j := DeltaWithinBlock(rows, b, d);
    assert ByTime(rows[i], rows[j]);
  }

  // ---------------------------------------------------------------- and every step has its delta

  /** The mid changes at row i, within a run that reaches back to the row before it. */
  predicate Moves(rows: seq<Sample>, i: nat)
    requires 0 < i < |rows|
  {
    rows[i].mid != rows[i - 1].mid
  }

  lemma {:induction false} RunReachesBack(rows: seq<Sample>, i: nat, j: nat)
    requires i <= j <= |rows| && AllLiquid(rows, i, j)
    ensures RunStart(rows, j) <= i
  {
    if i < j {
      RunReachesBack(rows, i, j - 1);
    }
  }

  lemma {:induction false} RunReachesOn(rows: seq<Sample>, i: nat, j: nat) returns (hi: nat)
    requires i < j <= |rows| && AllLiquid(rows, i, j)
    ensures j <= hi <= |rows| && AllLiquid(rows, i, hi) && (hi < |rows| ==> !Liquid(rows[hi]))
    decreases |rows| - j
  {
    hi := j;
    if j < |rows| && Liquid(rows[j]) {
      hi := RunReachesOn(rows, i, j + 1);
    }
  }

  /** A stretch of liquid rows lies within one block. */
  lemma BlockAround(rows: seq<Sample>, i: nat, j: nat) returns (b: Block)
    requires i < j <= |rows| && AllLiquid(rows, i, j)
    ensures IsBlock(rows, b) && b.lo <= i && j <= b.hi
  {
    var hi := RunReachesOn(rows, i, j);
    RunReachesBack(rows, i, hi);
    b := Block(RunStart(rows, hi), hi);
  }

  /** The last change of a series is at its last moving row. */
  lemma {:induction false} LastChange(rows: seq<L.Live>, i: nat)
    requires 0 < i < |rows| && rows[i].mid != rows[i - 1].mid
    requires forall k | i < k < |rows| :: rows[k].mid == rows[k - 1].mid
    ensures L.Changes(rows) != [] && L.Changes(rows)[|L.Changes(rows)| - 1].ts == rows[i].ts
  {
    var n := |rows| - 1;
    if i < n {
      LastChange(rows[..n], i);
    }
  }

  lemma ConsecutiveChanges(rows: seq<L.Live>, i: nat, j: nat) returns (k: nat)
    requires 0 < i < j < |rows| && rows[i].mid != rows[i - 1].mid && rows[j].mid != rows[j - 1].mid
    requires forall m | i < m < j :: rows[m].mid == rows[m - 1].mid
    ensures k + 1 < |L.Changes(rows)|
    ensures L.Changes(rows)[k].ts == rows[i].ts && L.Changes(rows)[k + 1].ts == rows[j].ts
  {
    var upTo, past := rows[..j], rows[..j + 1];
    LastChange(upTo, i);
    assert past[..j] == upTo;
    assert L.Changes(past) == L.Changes(upTo) + [L.ChangeEvent(rows[j].ts, rows[j].fv, rows[j].mid, rows[j - 1].mid)];
    L.ChangesPrefix(rows, j + 1);
    k := |L.Changes(upTo)| - 1;
  }

  lemma DeltaOfChanges(events: seq<L.ChangeEvent>, k: nat)
    requires k + 1 < |events|
    ensures events[k + 1].ts - events[k].ts in Deltas(events)
  {
    DeltasCount(events);
    DeltaOfEvents(events, k);
    assert Deltas(events)[k] in Deltas(events);
  }

  lemma {:induction false} SegmentDeltas(segments: seq<seq<Sample>>, s: nat, d: int)
    requires s < |segments| && d in Deltas(L.Changes(Lives(segments[s])))
    ensures d in AllDeltas(segments)
  {
    hide L.Changes, Deltas;
    if s < |segments| - 1 {
      SegmentDeltas(segments[..|segments| - 1], s, d);
    }
  }

  /** The row of a block, as the probe sees it. */
  lemma LiveOfBlock(rows: seq<Sample>, b: Block, i: nat)
    requires IsBlock(rows, b) && b.lo <= i < b.hi
    ensures rows[i].mid.Some? && Lives(rows[b.lo..b.hi])[i - b.lo].mid == rows[i].mid.value
    ensures Lives(rows[b.lo..b.hi])[i - b.lo].ts == rows[i].ts
  {
    assert rows[b.lo..b.hi][i - b.lo] == rows[i];
  }

  /** From row i to row j, both within the block, the mid moves at i and at j and nowhere between. */
  predicate Step(rows: seq<Sample>, i: nat, j: nat) {
    0 < i < j < |rows| && Moves(rows, i) && Moves(rows, j) && forall m | i < m < j :: !Moves(rows, m)
  }

  lemma StepInBlock(rows: seq<Sample>, b: Block, i: nat, j: nat)
    requires IsBlock(rows, b) && Step(rows, i, j) && b.lo < i && j < b.hi
    ensures rows[j].ts - rows[i].ts in Deltas(L.Changes(Lives(rows[b.lo..b.hi])))
  {
    hide L.Changes, Deltas, IsBlock, Lives;
    SliceOfBlock(rows, b);
    var lives := Lives(rows[b.lo..b.hi]);
    forall m | b.lo < m < b.hi
      ensures Moves(rows, m) <==> lives[m - b.lo].mid != lives[m - b.lo - 1].mid
    {
      LiveOfBlock(rows, b, m);
      LiveOfBlock(rows, b, m - 1);
    }
    forall m | i - b.lo < m < j - b.lo
      ensures lives[m].mid == lives[m - 1].mid
    {
      assert !Moves(rows, m + b.lo);
    }
    LiveOfBlock(rows, b, i);
    LiveOfBlock(rows, b, j);
    var k := ConsecutiveChanges(lives, i - b.lo, j - b.lo);
    DeltaOfChanges(L.Changes(lives), k);
  }

  /** Within one run of rows that are all there, the time from each change of the mid to the next is a cadence delta. */
  lemma EveryStepHasItsDelta(samples: seq<Sample>, i: nat, j: nat)
    requires var rows := Sort(samples, ByTime); 0 < i < j < |rows| && Step(rows, i, j) && AllThere(rows, i - 1, j + 1)
    ensures var rows := Sort(samples, ByTime);
            rows[j].ts - rows[i].ts in AllDeltas(Segments(rows, Blocks(rows)))
  {
    hide Sort, L.Changes, Deltas, AllDeltas, Blocks, IsBlock, Step, InOrder;
    var rows := Sort(samples, ByTime);
    ThereIsLiquid(rows, i - 1, j + 1);
    var b := BlockAround(rows, i - 1, j + 1);
    SegmentsAreTheLiquidRuns(rows);
    var s: nat :| s < |Blocks(rows)| && Blocks(rows)[s] == b;
    SliceOfBlock(rows, b);
    StepInBlock(rows, b, i, j);
    SegmentDeltas(Segments(rows, Blocks(rows)), s, rows[j].ts - rows[i].ts);
  }

  lemma SliceOfBlock(rows: seq<Sample>, b: Block)
    requires IsBlock(rows, b)
    ensures b.lo <= b.hi <= |rows| && Slice(rows, b) == rows[b.lo..b.hi]
  {
  }

  /** The lists end to end. */
  function Concat<T>(lists: seq<seq<T>>): seq<T> {
    if lists == [] then [] else Concat(lists[..|lists| - 1]) + lists[|lists| - 1]
  }

  lemma {:induction false} JoinedClosed(rows: seq<Sample>, k: nat)
    requires k <= |rows|
    ensures Concat(Segments(rows, Closed(rows, k))) + rows[RunStart(rows, k)..k] == Filter(rows[..k], Liquid)
  {
    hide Closed, RunStart, Concat, Filter, Liquid;
    if k == 0 {
      JoinedNothing(rows);
    } else {
      JoinedClosed(rows, k - 1);
      assert rows[..k] == rows[..k - 1] + [rows[k - 1]];
      FilterSnoc(rows[..k - 1], rows[k - 1], Liquid);
      JoinedStep(rows, k);
    }
  }

  lemma JoinedNothing(rows: seq<Sample>)
    ensures Concat(Segments(rows, Closed(rows, 0))) + rows[RunStart(rows, 0)..0] == [] == Filter(rows[..0], Liquid)
  {
  }

  lemma JoinedStep(rows: seq<Sample>, k: nat)
    requires 0 < k <= |rows|
    ensures Concat(Segments(rows, Closed(rows, k))) + rows[RunStart(rows, k)..k]
         == Concat(Segments(rows, Closed(rows, k - 1))) + rows[RunStart(rows, k - 1)..k - 1]
            + if Liquid(rows[k - 1]) then [rows[k - 1]] else []
  {
    hide Concat, Segments, Liquid;
    var before, lo := Closed(rows, k - 1), RunStart(rows, k - 1);
    if Liquid(rows[k - 1]) {
      assert rows[lo..k] == rows[lo..k - 1] + [rows[k - 1]];
      ConcatAssociative(Concat(Segments(rows, before)), rows[lo..k - 1], [rows[k - 1]]);
    } else if lo < k - 1 {
      SegmentsSnoc(rows, before, Block(lo, k - 1));
    }
  }

  lemma SegmentsSnoc(rows: seq<Sample>, before: seq<Block>, b: Block)
    ensures Concat(Segments(rows, before + [b])) == Concat(Segments(rows, before)) + Slice(rows, b)
  {
    assert Segments(rows, before + [b])[..|before|] == Segments(rows, before);
  }

  /** No liquid row is lost or repeated by the split, and their order is kept. */
  lemma {:induction false} SegmentsHoldTheLiquidRows(rows: seq<Sample>)
    ensures Concat(Segments(rows, Blocks(rows))) == Filter(rows, Liquid)
  {
    hide Filter;
    var n, lo := |rows|, RunStart(rows, |rows|);
    JoinedClosed(rows, n);
    assert rows[..n] == rows;
    if lo < n {
      var after := Segments(rows, Blocks(rows));
      assert after[..|after| - 1] == Segments(rows, Closed(rows, n));
    }
  }

  // ---------------------------------------------------------------- the series the probe is given

  /** The change events of each segment on its own, one segment after the other. */
  function OwnChanges(segments: seq<seq<L.Live>>): seq<L.ChangeEvent> {
    if segments == [] then []
    else OwnChanges(segments[..|segments| - 1]) + L.Changes(segments[|segments| - 1])
  }

  predicate NoneEmpty(segments: seq<seq<L.Live>>) {
    forall i | 0 <= i < |segments| :: segments[i] != []
  }

  /** The mid did not move while the market was dark. */
  predicate Seamless(a: seq<L.Live>, b: seq<L.Live>)
    requires a != [] && b != []
  {
    a[|a| - 1].mid == b[0].mid
  }

  predicate AllSeamless(segments: seq<seq<L.Live>>)
    requires NoneEmpty(segments)
  {
    forall i | 0 < i < |segments| :: Seamless(segments[i - 1], segments[i])
  }

  /** Running two series together adds exactly one change event, across the join, unless they join seamlessly. */
  lemma {:induction false} ChangesOfConcat(a: seq<L.Live>, b: seq<L.Live>)
    requires a != [] && b != []
    ensures L.Changes(a + b)
         == L.Changes(a)
            + (if Seamless(a, b) then [] else [L.ChangeEvent(b[0].ts, b[0].fv, b[0].mid, a[|a| - 1].mid)])
            + L.Changes(b)
  {
    var n := |b| - 1;
    assert (a + b)[..|a| + n] == a + b[..n];
    if n == 0 {
      assert a + b[..0] == a;
    } else {
      ChangesOfConcat(a, b[..n]);
    }
  }

  lemma ConcatEnds(segments: seq<seq<L.Live>>)
    requires NoneEmpty(segments) && segments != []
    ensures var all := Concat(segments);
            all != [] && all[|all| - 1] == segments[|segments| - 1][|segments[|segments| - 1]| - 1]
  {
  }

  /** Running segments together never loses a change event, and loses none in between exactly when all are seamless. */
  lemma {:induction false} JoinedChanges(segments: seq<seq<L.Live>>)
    requires NoneEmpty(segments)
    ensures |OwnChanges(segments)| <= |L.Changes(Concat(segments))|
    ensures |OwnChanges(segments)| == |L.Changes(Concat(segments))| ==> AllSeamless(segments)
    ensures AllSeamless(segments) ==> OwnChanges(segments) == L.Changes(Concat(segments))
  {
    hide L.Changes;
    if segments == [] {
      NoChanges();
    } else {
      var n := |segments| - 1;
      var front, last := segments[..n], segments[n];
      JoinedChanges(front);
      if n == 0 {
        assert Concat(front) + last == last && OwnChanges(front) + L.Changes(last) == L.Changes(last);
      } else {
        ConcatEnds(front);
        ChangesOfConcat(Concat(front), last);
        assert Seamless(Concat(front), last) <==> Seamless(segments[n - 1], segments[n]);
        AllSeamlessSnoc(front, last);
        assert front + [last] == segments;
      }
    }
  }

  lemma NoChanges()
    ensures L.Changes([]) == []
  {
  }

  lemma AllSeamlessSnoc(front: seq<seq<L.Live>>, last: seq<L.Live>)
    requires NoneEmpty(front) && front != [] && last != []
    ensures AllSeamless(front + [last]) <==> AllSeamless(front) && Seamless(front[|front| - 1], last)
  {
    var all := front + [last];
    assert forall i | 0 <= i < |front| :: all[i] == front[i];
    assert Seamless(all[|front| - 1], all[|front|]) <==> Seamless(front[|front| - 1], last);
  }

  function LiveSegments(rows: seq<Sample>): (r: seq<seq<L.Live>>)
    ensures |r| == |Blocks(rows)|
    ensures forall i | 0 <= i < |r| :: r[i] == Lives(Segments(rows, Blocks(rows))[i])
  {
    var segments := Segments(rows, Blocks(rows));
    seq(|segments|, i requires 0 <= i < |segments| => Lives(segments[i]))
  }

  /**
   The series handed to the probe runs the segments together, so the claim that no change event spans a gap
   holds of it exactly when the mid is the same on both sides of every break.
   */
  lemma {:induction false} ProbeSeriesSpansNoBreakExactly(rows: seq<Sample>)
    ensures NoneEmpty(LiveSegments(rows))
    ensures L.Changes(Concat(LiveSegments(rows))) == OwnChanges(LiveSegments(rows)) <==> AllSeamless(LiveSegments(rows))
  {
    hide L.Changes, Concat, OwnChanges, Blocks, AllSeamless;
    SegmentsAreTheLiquidRuns(rows);
    forall i | 0 <= i < |LiveSegments(rows)|
      ensures LiveSegments(rows)[i] != []
    {
      var b := Blocks(rows)[i];
      assert b in Blocks(rows);
      SliceOfBlock(rows, b);
      assert |Segments(rows, Blocks(rows))[i]| == b.hi - b.lo;
    }
    JoinedChanges(LiveSegments(rows));
  }

  /** It does not hold of this tape: the change at 3 is measured against the mid from before the gap at 2. */
  lemma ProbeSeriesMaySpanABreak()
    ensures var rows := [Sample(1, false, Some(0.5), Some(0.25)), Sample(2, true, None, None),
                         Sample(3, false, Some(0.5), Some(0.75))];
            LiveSegments(rows) == [[L.Live(1, 0.5, 0.25)], [L.Live(3, 0.5, 0.75)]]
            && L.Changes(Concat(LiveSegments(rows))) == [L.ChangeEvent(3, 0.5, 0.75, 0.25)]
            && OwnChanges(LiveSegments(rows)) == []
  {
    hide Concat, L.Changes, OwnChanges;
    var rows := [Sample(1, false, Some(0.5), Some(0.25)), Sample(2, true, None, None),
                 Sample(3, false, Some(0.5), Some(0.75))];
    StartIsUnique(rows, 2, 3);
    StartIsUnique(rows, 0, 1);
    StartIsUnique(rows, 2, 2);
    StartIsUnique(rows, 0, 0);
    assert Closed(rows, 0) == [] && Closed(rows, 1) == [] && Closed(rows, 2) == [Block(0, 1)] == Closed(rows, 3);
    assert Blocks(rows) == [Block(0, 1), Block(2, 3)];
    var (a, b) := (L.Live(1, 0.5, 0.25), L.Live(3, 0.5, 0.75));
    assert Lives(rows[0..1]) == [a] && Lives(rows[2..3]) == [b];
    assert LiveSegments(rows) == [[a], [b]];
    TwoRows(a, b);
    assert [a] + [b] == [a, b];
  }

  lemma TwoRows(a: L.Live, b: L.Live)
    requires a.mid != b.mid
    ensures Concat([[a], [b]]) == [a] + [b] && OwnChanges([[a], [b]]) == []
    ensures L.Changes([a] + [b]) == [L.ChangeEvent(b.ts, b.fv, b.mid, a.mid)]
  {
    assert [[a], [b]][..1] == [[a]] && [[a]][..0] == [] && [a][..0] == [] && [b][..0] == [];
    assert L.Changes([a]) == [] && L.Changes([b]) == [];
    assert Concat([[a]]) == [a] && OwnChanges([[a]]) == [];
    ChangesOfConcat([a], [b]);
  }
}
