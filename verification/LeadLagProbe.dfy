/**
 The event-aligned lead-lag probe of scripts/maker/leadlag_probe.py: compressing a live series to venue
 change events, the expanding-median basis, and the per-event hit lists. Nothing it reports about a prefix
 of a series can be altered by what comes after.
 */
module LeadLagProbe {
  import opened Prelude
  import opened Sorting
  import Folds

  /** One row of the index-aligned (ts, fv, mid) series. */
  datatype Live = Live(ts: int, fv: real, mid: real)

  datatype ChangeEvent = ChangeEvent(ts: int, fv: real, mid: real, priorMid: real)

  datatype ProbeError = UnequalLengths | MedianOfNothing

  datatype Evidence = Evidence(nextHits: seq<bool>, sameHits: seq<bool>, placeboHits: seq<bool>, nEvents: nat)

  // ---------------------------------------------------------------- change events

  function Rows(ts: seq<int>, fv: seq<real>, mid: seq<real>): (rows: seq<Live>)
    requires |ts| == |fv| == |mid|
    ensures |rows| == |ts| && forall i | 0 <= i < |ts| :: rows[i] == Live(ts[i], fv[i], mid[i])
  {
    seq(|ts|, i requires 0 <= i < |ts| => Live(ts[i], fv[i], mid[i]))
  }

  /** One event for every row whose mid differs from the row before it. */
  function Changes(rows: seq<Live>): seq<ChangeEvent> {
    if |rows| < 2 then []
    else
      var n := |rows| - 1;
      var (last, before) := (rows[n], rows[n - 1]);
      if last.mid == before.mid then Changes(rows[..n])
      else Changes(rows[..n]) + [ChangeEvent(last.ts, last.fv, last.mid, before.mid)]
  }

  method CompressToChangeEvents(ts: seq<int>, fv: seq<real>, mid: seq<real>)
    returns (r: Result<seq<ChangeEvent>, ProbeError>)
    ensures r == if |ts| == |fv| == |mid| then Ok(Changes(Rows(ts, fv, mid))) else Err(UnequalLengths)
  {
    if !(|ts| == |fv| == |mid|) {
      return Err(UnequalLengths);
    }
    var events: seq<ChangeEvent> := [];
    if mid == [] {
      return Ok(events);
    }
    ghost var rows := Rows(ts, fv, mid);
    var prevMid := mid[0];
    for i := 1 to |mid|
      invariant prevMid == mid[i - 1] && events == Changes(rows[..i])
    {
      assert rows[..i + 1][..i] == rows[..i];
      if mid[i] != prevMid {
        events := events + [ChangeEvent(ts[i], fv[i], mid[i], prevMid)];
        prevMid := mid[i];
      }
    }
    assert rows[..|mid|] == rows;
    return Ok(events);
  }

  predicate InTime(rows: seq<Live>) {
    forall i, j | 0 <= i < j < |rows| :: rows[i].ts <= rows[j].ts
  }

  /** The mid that stood at t, read off the change events by forward filling from the first mid. */
  function StandingAt(first: real, events: seq<ChangeEvent>, t: int): real {
    if events == [] then first
    else
      var n := |events| - 1;
      if events[n].ts <= t then events[n].mid else StandingAt(first, events[..n], t)
  }

  lemma {:induction false} ChangesBy(rows: seq<Live>, t: int)
    requires rows != [] && forall i | 0 <= i < |rows| :: rows[i].ts <= t
    ensures StandingAt(rows[0].mid, Changes(rows), t) == rows[|rows| - 1].mid
  {
    if |rows| >= 2 {
      var n := |rows| - 1;
      ChangesBy(rows[..n], t);
      if rows[n].mid != rows[n - 1].mid {
        assert Changes(rows)[|Changes(rows)| - 1].ts == rows[n].ts;
      }
    }
  }

  /** Forward filling recovers, at any time from the first row on, the mid of the last row by then. */
  lemma {:induction false} StandingIsLastMid(rows: seq<Live>, k: nat, t: int)
    requires k < |rows| && (forall i | 0 <= i <= k :: rows[i].ts <= t) && forall i | k < i < |rows| :: t < rows[i].ts
    ensures StandingAt(rows[0].mid, Changes(rows), t) == rows[k].mid
  {
    if k == |rows| - 1 {
      ChangesBy(rows, t);
    } else {
      var n := |rows| - 1;
      StandingIsLastMid(rows[..n], k, t);
      if rows[n].mid != rows[n - 1].mid {
        var c := Changes(rows);
        assert c[..|c| - 1] == Changes(rows[..n]);
      }
    }
  }

  ghost predicate Rebuilds(rows: seq<Live>) {
    forall i | 0 <= i < |rows| :: StandingAt(rows[0].mid, Changes(rows), rows[i].ts) == rows[i].mid
  }

  /** No time carries two different mids. */
  ghost predicate OneMidPerTime(rows: seq<Live>) {
    forall i, j | 0 <= i < |rows| && 0 <= j < |rows| && rows[i].ts == rows[j].ts :: rows[i].mid == rows[j].mid
  }

  /** The change events of a series in time order give back all of its mids exactly when no time carries two. */
  lemma CompressionIsLossless(rows: seq<Live>)
    requires InTime(rows)
    ensures Rebuilds(rows) <==> OneMidPerTime(rows)
  {
    hide StandingAt, Changes;
    if OneMidPerTime(rows) {
      forall i | 0 <= i < |rows|
        ensures StandingAt(rows[0].mid, Changes(rows), rows[i].ts) == rows[i].mid
      {
        var k := LastOfTime(rows, i);
        StandingIsLastMid(rows, k, rows[i].ts);
      }
    }
  }

  /** Where they do not: one time with two different mids gives back the later one for both. */
  lemma TwoMidsAtOneTime(t: int, fv: real, x: real, y: real)
    requires x != y
    ensures var rows := [Live(t, fv, x), Live(t, fv, y)];
            && InTime(rows) && StandingAt(x, Changes(rows), t) == y && !Rebuilds(rows)
  {
    var rows := [Live(t, fv, x), Live(t, fv, y)];
    assert rows[..1] == [rows[0]];
    assert Changes(rows) == [ChangeEvent(t, fv, y, x)];
    assert StandingAt(rows[0].mid, Changes(rows), rows[0].ts) != rows[0].mid;
  }

  lemma LastOfTime(rows: seq<Live>, i: nat) returns (k: nat)
    requires InTime(rows) && i < |rows|
    ensures i <= k < |rows| && rows[k].ts == rows[i].ts
    ensures (forall j | 0 <= j <= k :: rows[j].ts <= rows[i].ts) && forall j | k < j < |rows| :: rows[i].ts < rows[j].ts
  {
    k := i;
    while k + 1 < |rows| && rows[k + 1].ts == rows[i].ts
      invariant i <= k < |rows| && rows[k].ts == rows[i].ts
    {
      k := k + 1;
    }
  }

  // ---------------------------------------------------------------- the median

  predicate AtMost(a: real, b: real) {
    a <= b
  }

  function Middle(t: seq<real>): real
    requires t != []
  {
    var h := |t| / 2;
    if |t| % 2 == 1 then t[h] else (t[h - 1] + t[h]) / 2.0
  }

  function Median(s: seq<real>): real
    requires s != []
  {
    Middle(Sort(s, AtMost))
  }

  function UpTo(m: real): real -> bool {
    x => x <= m
  }

  function From(m: real): real -> bool {
    x => m <= x
  }

  lemma {:induction false} HeadCount(s: seq<real>, p: real -> bool, k: nat)
    requires k <= |s| && forall i | 0 <= i < k :: p(s[i])
    ensures |Filter(s, p)| >= k
  {
    if k > 0 {
      HeadCount(s[..|s| - 1], p, if k == |s| then k - 1 else k);
    }
  }

  lemma {:induction false} TailCount(s: seq<real>, p: real -> bool, k: nat)
    requires k <= |s| && forall i | |s| - k <= i < |s| :: p(s[i])
    ensures |Filter(s, p)| >= k
  {
    if k > 0 {
      TailCount(s[..|s| - 1], p, k - 1);
    }
  }

  lemma CountIgnoresOrder(a: seq<real>, b: seq<real>, p: real -> bool)
    requires multiset(a) == multiset(b)
    ensures |Filter(a, p)| == |Filter(b, p)|
  {
    Folds.FilterPermutation(a, b, p);
    assert |multiset(Filter(a, p))| == |multiset(Filter(b, p))|;
  }

  lemma MiddleSplits(t: seq<real>)
    requires t != [] && Sorted(t, AtMost)
    ensures var k := (|t| + 1) / 2;
            && (forall i | 0 <= i < k :: t[i] <= Middle(t))
            && (forall i | |t| - k <= i < |t| :: Middle(t) <= t[i])
  {
    assert forall i, j | 0 <= i < j < |t| :: AtMost(t[i], t[j]);
  }

  /** At least half of the values are at most the median, and at least half are at least it. */
  lemma MedianSplits(s: seq<real>)
    requires s != []
    ensures 2 * |Filter(s, UpTo(Median(s)))| >= |s|
    ensures 2 * |Filter(s, From(Median(s)))| >= |s|
  {
    hide Filter, Middle;
    var t, m := Sort(s, AtMost), Median(s);
    SortSorts(s, AtMost);
    var k := (|t| + 1) / 2;
    MiddleSplits(t);
    HeadCount(t, UpTo(m), k);
    TailCount(t, From(m), k);
    CountIgnoresOrder(s, t, UpTo(m));
    CountIgnoresOrder(s, t, From(m));
  }

  // ---------------------------------------------------------------- the basis

  function Gap(e: ChangeEvent): real {
    e.fv - e.mid
  }

  /** The basis an event gets from the events strictly before it. */
  function BasisAfter(prior: seq<ChangeEvent>, warmup: int): Option<real>
    requires warmup > 0
  {
    if |prior| >= warmup then Some(Median(Map(prior, Gap))) else None
  }

  function Bases(events: seq<ChangeEvent>, warmup: int): (r: seq<Option<real>>)
    requires warmup > 0
    ensures |r| == |events| && forall i | 0 <= i < |events| :: r[i] == BasisAfter(events[..i], warmup)
  {
    seq(|events|, i requires 0 <= i < |events| => BasisAfter(events[..i], warmup))
  }

  method ExpandingMedianBasis(events: seq<ChangeEvent>, warmup: int) returns (r: Result<seq<Option<real>>, ProbeError>)
    ensures events == [] ==> r == Ok([])
    ensures events != [] && warmup <= 0 ==> r == Err(MedianOfNothing)
    ensures events != [] && warmup > 0 ==> r == Ok(Bases(events, warmup))
  {
    hide Median;
    var basis: seq<Option<real>> := [];
    var priorGaps: seq<real> := [];
    for k := 0 to |events|
      invariant priorGaps == Map(events[..k], Gap)
      invariant k > 0 ==> warmup > 0
      invariant |basis| == k
      invariant warmup > 0 ==> forall i | 0 <= i < k :: basis[i] == BasisAfter(events[..i], warmup)
    {
      if |priorGaps| >= warmup {
        if priorGaps == [] {
          return Err(MedianOfNothing);
        }
        basis := basis + [Some(Median(priorGaps))];
      } else {
        basis := basis + [None];
      }
      priorGaps := priorGaps + [events[k].fv - events[k].mid];
    }
    assert warmup > 0 ==> basis == Bases(events, warmup);
    return Ok(basis);
  }

  // ---------------------------------------------------------------- hits

  function Abs(x: real): real {
    if x < 0.0 then -x else x
  }

  function Sign(x: real): int {
    if x > 0.0 then 1 else -1
  }

  function MoveDir(e: ChangeEvent): int {
    if e.mid > e.priorMid then 1 else -1
  }

  /** A residual that clears the gate is a hit when it points the way of the move. */
  function Read(residual: real, gate: real, dir: int): Option<bool> {
    if Abs(residual) >= gate then Some(Sign(residual) == dir) else None
  }

  function SameHit(e: ChangeEvent, basis: real, gate: real): Option<bool> {
    Read(e.fv - e.priorMid - basis, gate, MoveDir(e))
  }

  function NextHit(e: ChangeEvent, next: ChangeEvent, basis: real, gate: real): Option<bool> {
    Read(e.fv - e.priorMid - basis, gate, MoveDir(next))
  }

  function PlaceboHit(e: ChangeEvent, basis: real, gate: real): Option<bool> {
    Read(e.fv - e.mid - basis, gate, MoveDir(e))
  }

  function Add(hits: seq<bool>, hit: Option<bool>): seq<bool> {
    if hit.Some? then hits + [hit.value] else hits
  }

  function SameHits(events: seq<ChangeEvent>, warmup: int, gate: real): seq<bool>
    requires warmup > 0
  {
    if events == [] then []
    else
      var n := |events| - 1;
      match BasisAfter(events[..n], warmup)
      case None => SameHits(events[..n], warmup, gate)
      case Some(b) => Add(SameHits(events[..n], warmup, gate), SameHit(events[n], b, gate))
  }

  function PlaceboHits(events: seq<ChangeEvent>, warmup: int, gate: real): seq<bool>
    requires warmup > 0
  {
    if events == [] then []
    else
      var n := |events| - 1;
      match BasisAfter(events[..n], warmup)
      case None => PlaceboHits(events[..n], warmup, gate)
      case Some(b) => Add(PlaceboHits(events[..n], warmup, gate), PlaceboHit(events[n], b, gate))
  }

  /** The signal of each event against the move of the event after it; the last event has none yet. */
  function NextHits(events: seq<ChangeEvent>, warmup: int, gate: real): seq<bool>
    requires warmup > 0
  {
    if |events| < 2 then []
    else
      var n := |events| - 1;
      match BasisAfter(events[..n - 1], warmup)
      case None => NextHits(events[..n], warmup, gate)
      case Some(b) => Add(NextHits(events[..n], warmup, gate), NextHit(events[n - 1], events[n], b, gate))
  }

  function Gate(thresholdBps: int): real {
    thresholdBps as real / 10000.0
  }

  function Probe(rows: seq<Live>, thresholdBps: int, warmup: int): Result<Evidence, ProbeError> {
    var events, gate := Changes(rows), Gate(thresholdBps);
    if events == [] then Ok(Evidence([], [], [], 0))
    else if warmup <= 0 then Err(MedianOfNothing)
    else
      Ok(Evidence(NextHits(events, warmup, gate), SameHits(events, warmup, gate), PlaceboHits(events, warmup, gate),
                  |events|))
  }

  method AnalyzeMarket(ts: seq<int>, fv: seq<real>, mid: seq<real>, thresholdBps: int, warmup: int)
    returns (r: Result<Evidence, ProbeError>)
    ensures r == if |ts| == |fv| == |mid| then Probe(Rows(ts, fv, mid), thresholdBps, warmup) else Err(UnequalLengths)
  {
    hide Changes, Median, BasisAfter, SameHits, PlaceboHits, NextHits;
    var compressed := CompressToChangeEvents(ts, fv, mid);
    if compressed.Err? {
      return Err(compressed.error);
    }
    var events := compressed.value;
    var basis := ExpandingMedianBasis(events, warmup);
    if basis.Err? {
      return Err(basis.error);
    }
    var gate := thresholdBps as real / 10000.0;
    var nextHits, sameHits, placeboHits: seq<bool> := [], [], [];
    NoHitsYet(events, warmup, gate);
    for i := 0 to |events|
      invariant warmup > 0 ==> sameHits == SameHits(events[..i], warmup, gate)
      invariant warmup > 0 ==> placeboHits == PlaceboHits(events[..i], warmup, gate)
      invariant warmup > 0 ==> nextHits == NextHits(events[..Min(i + 1, |events|)], warmup, gate)
      invariant events == [] ==> nextHits == sameHits == placeboHits == []
    {
      HitsStep(events, i, warmup, gate);
      var event := events[i];
      if basis.value[i] == None { continue; }
      var basisI := basis.value[i].value;
      var moveDir := if event.mid > event.priorMid then 1 else -1;
      var residual := (event.fv - event.priorMid) - basisI;
      if Abs(residual) >= gate {
        var signal := if residual > 0.0 then 1 else -1;
        sameHits := sameHits + [signal == moveDir];
        if i + 1 < |events| {
          var nxt := events[i + 1];
          var nextDir := if nxt.mid > nxt.priorMid then 1 else -1;
          nextHits := nextHits + [signal == nextDir];
        }
      }
      var placeboResidual := (event.fv - event.mid) - basisI;
      if Abs(placeboResidual) >= gate {
        var placeboSignal := if placeboResidual > 0.0 then 1 else -1;
        placeboHits := placeboHits + [placeboSignal == moveDir];
      }
    }
    assert events[..|events|] == events;
    return Ok(Evidence(nextHits, sameHits, placeboHits, |events|));
  }

  lemma NoHitsYet(events: seq<ChangeEvent>, warmup: int, gate: real)
    ensures warmup > 0 ==> SameHits(events[..0], warmup, gate) == [] && PlaceboHits(events[..0], warmup, gate) == []
    ensures warmup > 0 ==> NextHits(events[..Min(1, |events|)], warmup, gate) == []
  {
  }

  lemma HitsStep(events: seq<ChangeEvent>, i: nat, warmup: int, gate: real)
    requires i < |events| && warmup > 0
    ensures SameHits(events[..i + 1], warmup, gate)
         == match BasisAfter(events[..i], warmup)
            case None => SameHits(events[..i], warmup, gate)
            case Some(b) => Add(SameHits(events[..i], warmup, gate), SameHit(events[i], b, gate))
    ensures PlaceboHits(events[..i + 1], warmup, gate)
         == match BasisAfter(events[..i], warmup)
            case None => PlaceboHits(events[..i], warmup, gate)
            case Some(b) => Add(PlaceboHits(events[..i], warmup, gate), PlaceboHit(events[i], b, gate))
    ensures i + 1 == |events|
         || NextHits(events[..i + 2], warmup, gate)
            == match BasisAfter(events[..i], warmup)
               case None => NextHits(events[..i + 1], warmup, gate)
               case Some(b) => Add(NextHits(events[..i + 1], warmup, gate), NextHit(events[i], events[i + 1], b, gate))
  {
    hide Median, Read;
    assert events[..i + 1][..i] == events[..i];
    if i + 1 < |events| {
      assert events[..i + 2][..i] == events[..i] && events[..i + 2][..i + 1] == events[..i + 1];
    }
  }

  // ---------------------------------------------------------------- what the reads mean

  predicate NonDecreasing(t: seq<real>) {
    forall i, j | 0 <= i < j < |t| :: t[i] <= t[j]
  }

  /** The median is the middle value, or the mean of the two middle ones, of the values in order. */
  lemma {:induction false} MedianExactly(s: seq<real>, t: seq<real>)
    requires s != [] && multiset(t) == multiset(s) && NonDecreasing(t)
    ensures |t| == |s|
    ensures Median(s) == if |t| % 2 == 1 then t[|t| / 2] else (t[|t| / 2 - 1] + t[|t| / 2]) / 2.0
  {
    SortSorts(s, AtMost);
    SameMembers(s, t);
    SortedPermutationsAgree(Sort(s, AtMost), t, AtMost);
  }

  /** What fair value stood above the mid, at every event before event i. */
  function GapsBefore(events: seq<ChangeEvent>, i: nat): (gaps: seq<real>)
    requires i <= |events|
    ensures |gaps| == i && forall j | 0 <= j < i :: gaps[j] == events[j].fv - events[j].mid
  {
    seq(i, j requires 0 <= j < i => events[j].fv - events[j].mid)
  }

  /** How far fair value stood over the mid before (or after) the move of event i, less the basis it had by then. */
  function Residual(events: seq<ChangeEvent>, i: nat, over: real): real
    requires i < |events|
  {
    if i == 0 then 0.0 else events[i].fv - over - Median(GapsBefore(events, i))
  }

  /** Event i is past warmup and its residual clears the gate. */
  predicate Clears(events: seq<ChangeEvent>, i: nat, warmup: int, gate: real, over: real)
    requires i < |events|
  {
    i >= warmup && (Residual(events, i, over) >= gate || -Residual(events, i, over) >= gate)
  }

  lemma BasisIs(events: seq<ChangeEvent>, i: nat, warmup: int)
    requires i <= |events| && warmup > 0
    ensures BasisAfter(events[..i], warmup) == if i >= warmup then Some(Median(GapsBefore(events, i))) else None
  {
    assert Map(events[..i], Gap) == GapsBefore(events, i);
  }

  /** The reads of the first n events: one for every event that clears, in order, saying whether it hit. */
  ghost predicate Reads(at: seq<nat>, hits: seq<bool>, n: nat, clears: nat -> bool, hit: nat -> bool) {
    && |at| == |hits| && (forall j, k | 0 <= j < k < |at| :: at[j] < at[k])
    && (forall i: nat :: i in at <==> i < n && clears(i))
    && forall k | 0 <= k < |at| :: hits[k] == hit(at[k])
  }

  lemma ReadsSnoc(at: seq<nat>, hits: seq<bool>, n: nat, clears: nat -> bool, hit: nat -> bool)
    requires Reads(at, hits, n, clears, hit)
    ensures clears(n) ==> Reads(at + [n], hits + [hit(n)], n + 1, clears, hit)
    ensures !clears(n) ==> Reads(at, hits, n + 1, clears, hit)
  {
    assert forall k | 0 <= k < |at| :: at[k] in at;
    assert forall i: nat :: i in at + [n] <==> i in at || i == n;
  }

  lemma ReadsAlike(at: seq<nat>, hits: seq<bool>, n: nat, clears: nat -> bool, hit: nat -> bool,
                   clears': nat -> bool, hit': nat -> bool)
    requires Reads(at, hits, n, clears, hit)
    requires forall i: nat | i < n :: clears(i) == clears'(i) && hit(i) == hit'(i)
    ensures Reads(at, hits, n, clears', hit')
  {
    assert forall k | 0 <= k < |at| :: at[k] in at;
  }

  lemma NoReads(clears: nat -> bool, hit: nat -> bool)
    ensures Reads([], [], 0, clears, hit)
  {
  }

  /** The event is past warmup and its residual over the mid before its move clears the gate. */
  function ClearsPrior(events: seq<ChangeEvent>, warmup: int, gate: real): nat -> bool {
    (i: nat) => i < |events| && Clears(events, i, warmup, gate, events[i].priorMid)
  }

  function ClearsAfter(events: seq<ChangeEvent>, warmup: int, gate: real): nat -> bool {
    (i: nat) => i < |events| && Clears(events, i, warmup, gate, events[i].mid)
  }

  /** Event j moved up exactly when the residual of event i, over its prior mid or the mid after it, is positive. */
  predicate Agrees(events: seq<ChangeEvent>, i: nat, over: real, j: nat) {
    i < |events| && j < |events| && (Residual(events, i, over) > 0.0 <==> events[j].mid > events[j].priorMid)
  }

  function AgreesSame(events: seq<ChangeEvent>): nat -> bool {
    (i: nat) => i < |events| && Agrees(events, i, events[i].priorMid, i)
  }

  function AgreesPlacebo(events: seq<ChangeEvent>): nat -> bool {
    (i: nat) => i < |events| && Agrees(events, i, events[i].mid, i)
  }

  function AgreesNext(events: seq<ChangeEvent>): nat -> bool {
    (i: nat) => i < |events| && Agrees(events, i, events[i].priorMid, i + 1)
  }

  /** A same-change read: every event that clears the gate over its prior mid, a hit when it moved that way. */
  lemma {:induction false} SameHitsAre(events: seq<ChangeEvent>, warmup: int, gate: real) returns (at: seq<nat>)
    requires warmup > 0
    ensures Reads(at, SameHits(events, warmup, gate), |events|, ClearsPrior(events, warmup, gate), AgreesSame(events))
  {
    hide Residual, Clears, Read, BasisAfter, Reads;
    var (clears, hit) := (ClearsPrior(events, warmup, gate), AgreesSame(events));
    if events == [] {
      at := [];
      NoReads(clears, hit);
    } else {
      var n := |events| - 1;
      at := SameHitsAre(events[..n], warmup, gate);
      EarlierResiduals(events, n, warmup, gate);
      var hits := SameHits(events[..n], warmup, gate);
      ReadsAlike(at, hits, n, ClearsPrior(events[..n], warmup, gate), AgreesSame(events[..n]), clears, hit);
      ReadsSnoc(at, hits, n, clears, hit);
      ReadIs(events, n, warmup, gate, events[n].priorMid, n);
      if clears(n) {
        at := at + [n];
      }
    }
  }

  /** A placebo read takes the residual over the mid after the move instead. */
  lemma {:induction false} PlaceboHitsAre(events: seq<ChangeEvent>, warmup: int, gate: real) returns (at: seq<nat>)
    requires warmup > 0
    ensures Reads(at, PlaceboHits(events, warmup, gate), |events|, ClearsAfter(events, warmup, gate),
                  AgreesPlacebo(events))
  {
    hide Residual, Clears, Read, BasisAfter, Reads;
    var (clears, hit) := (ClearsAfter(events, warmup, gate), AgreesPlacebo(events));
    if events == [] {
      at := [];
      NoReads(clears, hit);
    } else {
      var n := |events| - 1;
      at := PlaceboHitsAre(events[..n], warmup, gate);
      EarlierResiduals(events, n, warmup, gate);
      var hits := PlaceboHits(events[..n], warmup, gate);
      ReadsAlike(at, hits, n, ClearsAfter(events[..n], warmup, gate), AgreesPlacebo(events[..n]), clears, hit);
      ReadsSnoc(at, hits, n, clears, hit);
      ReadIs(events, n, warmup, gate, events[n].mid, n);
      if clears(n) {
        at := at + [n];
      }
    }
  }

  /** A next-change read: the same residual, a hit when the event after it moved that way; the last has none. */
  lemma {:induction false} NextHitsAre(events: seq<ChangeEvent>, warmup: int, gate: real) returns (at: seq<nat>)
    requires warmup > 0
    ensures Reads(at, NextHits(events, warmup, gate), Max(0, |events| - 1), ClearsPrior(events, warmup, gate),
                  AgreesNext(events))
  {
    hide Residual, Clears, Read, BasisAfter, Reads;
    var (clears, hit) := (ClearsPrior(events, warmup, gate), AgreesNext(events));
    if |events| < 2 {
      at := [];
      NoReads(clears, hit);
    } else {
      var n := |events| - 1;
      at := NextHitsAre(events[..n], warmup, gate);
      EarlierResiduals(events, n, warmup, gate);
      var hits := NextHits(events[..n], warmup, gate);
      ReadsAlike(at, hits, n - 1, ClearsPrior(events[..n], warmup, gate), AgreesNext(events[..n]), clears, hit);
      ReadsSnoc(at, hits, n - 1, clears, hit);
      assert events[..n][..n - 1] == events[..n - 1];
      ReadIs(events, n - 1, warmup, gate, events[n - 1].priorMid, n);
      if clears(n - 1) {
        at := at + [n - 1];
      }
    }
  }

  /** Which list is which: the three reads of the change events, at a gate of so many basis points. */
  lemma ProbeMeans(rows: seq<Live>, thresholdBps: int, warmup: int, gate: real)
    returns (next: seq<nat>, same: seq<nat>, placebo: seq<nat>)
    requires warmup > 0 && gate * 10000.0 == thresholdBps as real
    ensures var (r, events) := (Probe(rows, thresholdBps, warmup), Changes(rows));
            && r.Ok? && r.value.nEvents == |events|
            && Reads(next, r.value.nextHits, Max(0, |events| - 1), ClearsPrior(events, warmup, gate),
                     AgreesNext(events))
            && Reads(same, r.value.sameHits, |events|, ClearsPrior(events, warmup, gate), AgreesSame(events))
            && Reads(placebo, r.value.placeboHits, |events|, ClearsAfter(events, warmup, gate), AgreesPlacebo(events))
  {
    hide Changes, Reads, NextHits, SameHits, PlaceboHits;
    var events := Changes(rows);
    assert Gate(thresholdBps) == gate;
    next := NextHitsAre(events, warmup, gate);
    same := SameHitsAre(events, warmup, gate);
    placebo := PlaceboHitsAre(events, warmup, gate);
    if events == [] {
      NoHits(warmup, gate);
    }
  }

  lemma NoHits(warmup: int, gate: real)
    requires warmup > 0
    ensures SameHits([], warmup, gate) == PlaceboHits([], warmup, gate) == NextHits([], warmup, gate) == []
  {
  }

  /** What an earlier event reads does not depend on later ones. */
  lemma EarlierResiduals(events: seq<ChangeEvent>, n: nat, warmup: int, gate: real)
    requires n < |events| && warmup > 0
    ensures forall i, over | 0 <= i < n :: Residual(events[..n], i, over) == Residual(events, i, over)
    ensures forall i, over | 0 <= i < n ::
              Clears(events[..n], i, warmup, gate, over) == Clears(events, i, warmup, gate, over)
  {
    hide Median;
    forall i | 0 <= i < n
      ensures GapsBefore(events[..n], i) == GapsBefore(events, i) && events[..n][i] == events[i]
    {
    }
  }

  lemma ReadIs(events: seq<ChangeEvent>, i: nat, warmup: int, gate: real, over: real, j: nat)
    requires 0 < warmup && i < |events| && j < |events|
    ensures BasisAfter(events[..i], warmup).Some? <==> i >= warmup
    ensures Clears(events, i, warmup, gate, over) ==> i >= warmup
    ensures i >= warmup ==>
              Read(events[i].fv - over - BasisAfter(events[..i], warmup).value, gate, MoveDir(events[j]))
              == if Clears(events, i, warmup, gate, over) then Some(Agrees(events, i, over, j)) else None
  {
    hide Median;
    BasisIs(events, i, warmup);
  }

  // ---------------------------------------------------------------- no look-ahead

  lemma {:induction false} ChangesPrefix(rows: seq<Live>, k: nat)
    requires k <= |rows|
    ensures Changes(rows[..k]) <= Changes(rows)
  {
    if k == |rows| {
      assert rows[..k] == rows;
    } else {
      var n := |rows| - 1;
      ChangesPrefix(rows[..n], k);
      assert rows[..n][..k] == rows[..k];
    }
  }

  lemma {:induction false} HitsPrefix(events: seq<ChangeEvent>, k: nat, warmup: int, gate: real)
    requires k <= |events| && warmup > 0
    ensures SameHits(events[..k], warmup, gate) <= SameHits(events, warmup, gate)
    ensures PlaceboHits(events[..k], warmup, gate) <= PlaceboHits(events, warmup, gate)
    ensures NextHits(events[..k], warmup, gate) <= NextHits(events, warmup, gate)
  {
    hide BasisAfter, Read;
    if k == |events| {
      assert events[..k] == events;
    } else {
      var n := |events| - 1;
      HitsPrefix(events[..n], k, warmup, gate);
      assert events[..n][..k] == events[..k];
    }
  }

  /**
   Cutting a series anywhere leaves every change event, basis and hit it had already produced: what the
   full series reports starts with exactly what the cut series reports.
   */
  lemma NoLookAhead(rows: seq<Live>, k: nat, warmup: int, gate: real)
    requires k <= |rows| && warmup > 0
    ensures var (was, now) := (Changes(rows[..k]), Changes(rows));
            && was <= now && Bases(was, warmup) <= Bases(now, warmup)
            && SameHits(was, warmup, gate) <= SameHits(now, warmup, gate)
            && PlaceboHits(was, warmup, gate) <= PlaceboHits(now, warmup, gate)
            && NextHits(was, warmup, gate) <= NextHits(now, warmup, gate)
  {
    hide Changes, BasisAfter, SameHits, PlaceboHits, NextHits;
    ChangesPrefix(rows, k);
    var (was, now) := (Changes(rows[..k]), Changes(rows));
    assert now[..|was|] == was;
    assert forall i | 0 <= i < |was| :: now[..i] == was[..i];
    HitsPrefix(now, |was|, warmup, gate);
  }

  // ---------------------------------------------------------------- the placebo against the same-change contrast

  function Count(hits: seq<bool>, b: bool): nat {
    if hits == [] then 0 else Count(hits[..|hits| - 1], b) + if hits[|hits| - 1] == b then 1 else 0
  }

  lemma {:induction false} CountConcat(x: seq<bool>, y: seq<bool>, b: bool)
    ensures Count(x + y, b) == Count(x, b) + Count(y, b)
  {
    if y == [] {
      assert x + y == x;
    } else {
      var n := |y| - 1;
      assert (x + y)[..|x + y| - 1] == x + y[..n];
      CountConcat(x, y[..n], b);
    }
  }

  lemma {:induction false} CountAll(hits: seq<bool>)
    ensures Count(hits, true) + Count(hits, false) == |hits|
  {
    if hits != [] {
      CountAll(hits[..|hits| - 1]);
    }
  }

  function HitRate(hits: seq<bool>): Option<real> {
    if hits == [] then None else Some(Count(hits, true) as real / |hits| as real)
  }

  lemma CountAdd(hits: seq<bool>, hit: Option<bool>, b: bool)
    ensures Count(Add(hits, hit), b) == Count(hits, b) + if hit == Some(b) then 1 else 0
  {
    if hit.Some? {
      assert (hits + [hit.value])[..|hits|] == hits;
    }
  }

  /** A hit after the move is a hit before it, and a miss before the move is a miss after it. */
  lemma PlaceboHitsAreSameHits(e: ChangeEvent, basis: real, gate: real)
    requires e.mid != e.priorMid
    ensures PlaceboHit(e, basis, gate) == Some(true) ==> SameHit(e, basis, gate) == Some(true)
    ensures SameHit(e, basis, gate) == Some(false) ==> PlaceboHit(e, basis, gate) == Some(false)
  {
  }

  predicate Moves(events: seq<ChangeEvent>) {
    forall i | 0 <= i < |events| :: events[i].mid != events[i].priorMid
  }

  lemma {:induction false} ChangesMove(rows: seq<Live>)
    ensures Moves(Changes(rows))
  {
    if |rows| >= 2 {
      ChangesMove(rows[..|rows| - 1]);
    }
  }

  /** More of the same-change reads hit, and fewer of them miss. */
  predicate Outscored(placebo: seq<bool>, same: seq<bool>) {
    Count(placebo, true) <= Count(same, true) && Count(same, false) <= Count(placebo, false)
  }

  lemma {:induction false} PlaceboIsOutscored(events: seq<ChangeEvent>, warmup: int, gate: real)
    requires Moves(events) && warmup > 0
    ensures Outscored(PlaceboHits(events, warmup, gate), SameHits(events, warmup, gate))
  {
    hide BasisAfter, SameHit, PlaceboHit, Count, Add;
    if events == [] {
      assert Outscored([], []);
    } else {
      var n := |events| - 1;
      PlaceboIsOutscored(events[..n], warmup, gate);
      var basis := BasisAfter(events[..n], warmup);
      if basis.Some? {
        var same, placebo := SameHit(events[n], basis.value, gate), PlaceboHit(events[n], basis.value, gate);
        PlaceboHitsAreSameHits(events[n], basis.value, gate);
        forall b: bool
          ensures Count(SameHits(events, warmup, gate), b)
               == Count(SameHits(events[..n], warmup, gate), b) + if same == Some(b) then 1 else 0
          ensures Count(PlaceboHits(events, warmup, gate), b)
               == Count(PlaceboHits(events[..n], warmup, gate), b) + if placebo == Some(b) then 1 else 0
        {
          CountAdd(SameHits(events[..n], warmup, gate), same, b);
          CountAdd(PlaceboHits(events[..n], warmup, gate), placebo, b);
        }
      }
    }
  }

  lemma OutscoredConcat(p: seq<bool>, s: seq<bool>, q: seq<bool>, t: seq<bool>)
    requires Outscored(p, s) && Outscored(q, t)
    ensures Outscored(p + q, s + t)
  {
    CountConcat(p, q, true);
    CountConcat(p, q, false);
    CountConcat(s, t, true);
    CountConcat(s, t, false);
  }

  lemma OutscoredRates(placebo: seq<bool>, same: seq<bool>)
    requires Outscored(placebo, same) && placebo != [] && same != []
    ensures HitRate(placebo).value <= HitRate(same).value
  {
    hide Count;
    CountAll(placebo);
    CountAll(same);
    Ratio(Count(placebo, true) as real, Count(placebo, false) as real, Count(same, true) as real,
          Count(same, false) as real);
  }

  lemma Ratio(p: real, q: real, s: real, r: real)
    requires 0.0 <= p <= s && 0.0 <= r <= q && p + q > 0.0 && s + r > 0.0
    ensures p / (p + q) <= s / (s + r)
  {
    var (x, y, c, d) := (p / (p + q), s / (s + r), p + q, s + r);
    Products(p, q, s, r);
    assert x * c == p && y * d == s;
    Regroup(x, y, c, d);
    PositiveProduct(c, d);
    Cancel(x, y, c * d);
  }

  lemma Products(p: real, q: real, s: real, r: real)
    requires 0.0 <= p <= s && 0.0 <= r <= q
    ensures p * (s + r) <= s * (p + q)
  {
    Scaled(r, q, p);
    Scaled(p, s, q);
    assert p * (s + r) == p * s + p * r;
    assert s * (p + q) == p * s + q * s;
  }

  lemma Scaled(a: real, b: real, c: real)
    requires a <= b && 0.0 <= c
    ensures c * a <= c * b
  {
  }

  lemma Regroup(x: real, y: real, c: real, d: real)
    ensures (x * c) * d == x * (c * d) && (y * d) * c == y * (c * d)
  {
  }

  lemma PositiveProduct(c: real, d: real)
    requires c > 0.0 && d > 0.0
    ensures c * d > 0.0
  {
  }

  lemma Cancel(x: real, y: real, c: real)
    requires c > 0.0 && x * c <= y * c
    ensures x <= y
  {
  }

  function PooledSame(evidence: seq<Evidence>): seq<bool> {
    if evidence == [] then [] else PooledSame(evidence[..|evidence| - 1]) + evidence[|evidence| - 1].sameHits
  }

  function PooledPlacebo(evidence: seq<Evidence>): seq<bool> {
    if evidence == [] then [] else PooledPlacebo(evidence[..|evidence| - 1]) + evidence[|evidence| - 1].placeboHits
  }

  predicate Probed(e: Evidence, rows: seq<Live>, thresholdBps: int, warmup: int) {
    Probe(rows, thresholdBps, warmup) == Ok(e)
  }

  /**
   At one threshold the pooled placebo rate never exceeds the pooled same-change rate, over any markets:
   a placebo that beat the contrast could not have come from this probe.
   */
  lemma {:induction false} PooledPlaceboNeverWins(evidence: seq<Evidence>, markets: seq<seq<Live>>, thresholdBps: int,
                                                  warmup: int)
    requires |evidence| == |markets|
    requires forall i | 0 <= i < |evidence| :: Probed(evidence[i], markets[i], thresholdBps, warmup)
    ensures Outscored(PooledPlacebo(evidence), PooledSame(evidence))
    ensures PooledPlacebo(evidence) != [] && PooledSame(evidence) != [] ==>
              HitRate(PooledPlacebo(evidence)).value <= HitRate(PooledSame(evidence)).value
  {
    hide Changes, Count, HitRate, Outscored, Moves, SameHits, PlaceboHits, NextHits;
    NothingOutscored();
    if evidence != [] {
      var n := |evidence| - 1;
      PooledPlaceboNeverWins(evidence[..n], markets[..n], thresholdBps, warmup);
      assert Probed(evidence[n], markets[n], thresholdBps, warmup);
      ChangesMove(markets[n]);
      if Changes(markets[n]) != [] {
        PlaceboIsOutscored(Changes(markets[n]), warmup, Gate(thresholdBps));
      }
      var last := evidence[n];
      OutscoredConcat(PooledPlacebo(evidence[..n]), PooledSame(evidence[..n]), last.placeboHits, last.sameHits);
    }
    if PooledPlacebo(evidence) != [] && PooledSame(evidence) != [] {
      OutscoredRates(PooledPlacebo(evidence), PooledSame(evidence));
    }
  }

  lemma NothingOutscored()
    ensures Outscored([], [])
  {
  }
}
