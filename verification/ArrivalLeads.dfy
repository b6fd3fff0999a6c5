/**
 The tie-neutral analysis of scripts/maker/ws_leadlag_monitor.py: collapsing a two-feed tape to one row
 per receive time, and the direct leads of venue changes over fair-value changes. Both are proved to
 depend on each feed's own order only, never on how the feeds interleave within a millisecond.
 */
module ArrivalLeads {
  import opened Prelude
  import opened Sorting
  import FvHistory
  import L = LeadLagProbe

  datatype Feed = Fv | Venue

  datatype Event = Event(recvTs: int, arrivalSeq: int, feed: Feed, fv: Option<real>, mid: Option<real>)

  /** A value observed at a time. */
  datatype Point = Point(ts: int, value: real)

  predicate ArrivedBefore(a: Event, b: Event) {
    a.recvTs < b.recvTs || (a.recvTs == b.recvTs && a.arrivalSeq <= b.arrivalSeq)
  }

  predicate InTime(s: seq<Event>) {
    forall i, j | 0 <= i < j < |s| :: s[i].recvTs <= s[j].recvTs
  }

  /** sorted(events, key=(recv_ts, arrival_seq)) */
  function Ordered(events: seq<Event>): seq<Event> {
    Sort(events, ArrivedBefore)
  }

  lemma OrderedInTime(events: seq<Event>)
    ensures InTime(Ordered(events))
  {
    OrderedIsTheTape(events);
  }

  /** The whole tape, by receive time and within one by sequence number. */
  lemma OrderedIsTheTape(events: seq<Event>)
    ensures multiset(Ordered(events)) == multiset(events)
    ensures var s := Ordered(events);
            forall i, j | 0 <= i < j < |s| ::
              s[i].recvTs < s[j].recvTs || (s[i].recvTs == s[j].recvTs && s[i].arrivalSeq <= s[j].arrivalSeq)
  {
    SortSorts(events, ArrivedBefore);
    var s := Ordered(events);
    assert forall i, j | 0 <= i < j < |s| :: ArrivedBefore(s[i], s[j]);
  }

  // ---------------------------------------------------------------- the two feeds of a tape

  function ValueOf(e: Event, feed: Feed): Option<real> {
    if e.feed != feed then None else if feed == Fv then e.fv else e.mid
  }

  /** The values one feed reported, in order. */
  function Points(s: seq<Event>, feed: Feed): seq<Point> {
    if s == [] then []
    else
      var n := |s| - 1;
      match ValueOf(s[n], feed)
      case None => Points(s[..n], feed)
      case Some(v) => Points(s[..n], feed) + [Point(s[n].recvTs, v)]
  }

  /** The value of the last point at or before t. */
  function LatestAt(points: seq<Point>, t: int): Option<real> {
    if points == [] then None
    else if points[|points| - 1].ts <= t then Some(points[|points| - 1].value)
    else LatestAt(points[..|points| - 1], t)
  }

  /** The distinct receive times, in order. */
  function Instants(s: seq<Event>): seq<int> {
    if s == [] then []
    else
      var n := |s| - 1;
      if n > 0 && s[n - 1].recvTs == s[n].recvTs then Instants(s[..n]) else Instants(s[..n]) + [s[n].recvTs]
  }

  // ---------------------------------------------------------------- collapsing

  /** At each instant, the latest value of each feed, once both are known. */
  function Collapsed(instants: seq<int>, fvs: seq<Point>, mids: seq<Point>): seq<L.Live> {
    if instants == [] then []
    else
      var n := |instants| - 1;
      var t := instants[n];
      var f, m := LatestAt(fvs, t), LatestAt(mids, t);
      if f.Some? && m.Some? then Collapsed(instants[..n], fvs, mids) + [L.Live(t, f.value, m.value)]
      else Collapsed(instants[..n], fvs, mids)
  }

  function Series(s: seq<Event>): seq<L.Live> {
    Collapsed(Instants(s), Points(s, Fv), Points(s, Venue))
  }

  /** The running value after a prefix. */
  function Current(s: seq<Event>, feed: Feed): Option<real> {
    var p := Points(s, feed);
    if p == [] then None else Some(p[|p| - 1].value)
  }

  lemma {:induction false} PointsMoreAfter(s: seq<Event>, j: nat, feed: Feed, t: int)
    requires j <= |s| && forall i | j <= i < |s| :: s[i].recvTs > t
    requires forall i | 0 <= i < j :: s[i].recvTs <= t
    ensures LatestAt(Points(s, feed), t) == Current(s[..j], feed)
  {
    if j == |s| {
      assert s[..j] == s;
      PointsAtMost(s, feed, t);
    } else {
      var n := |s| - 1;
      assert s[..n][..j] == s[..j];
      PointsMoreAfter(s[..n], j, feed, t);
      if ValueOf(s[n], feed).Some? {
        var p := Points(s, feed);
        assert p[..|p| - 1] == Points(s[..n], feed);
      }
    }
  }

  lemma {:induction false} PointsAtMost(s: seq<Event>, feed: Feed, t: int)
    requires forall i | 0 <= i < |s| :: s[i].recvTs <= t
    ensures forall p | p in Points(s, feed) :: p.ts <= t
  {
    if s != [] {
      PointsAtMost(s[..|s| - 1], feed, t);
    }
  }

  /** The instants of a prefix that ends between two receive times are the instants up to there. */
  lemma {:induction false} InstantsOfGroup(s: seq<Event>, i: nat, j: nat)
    requires InTime(s) && i < j <= |s| && forall k | i <= k < j :: s[k].recvTs == s[i].recvTs
    requires i > 0 ==> s[i - 1].recvTs < s[i].recvTs
    ensures Instants(s[..j]) == Instants(s[..i]) + [s[i].recvTs]
  {
    assert s[..j][..j - 1] == s[..j - 1];
    if j > i + 1 {
      InstantsOfGroup(s, i, j - 1);
    }
  }

  method CollapseToSeries(events: seq<Event>) returns (rows: seq<L.Live>)
    ensures rows == Series(Ordered(events))
  {
    hide Points, Current, Instants, Collapsed, LatestAt, ValueOf, Ordered;
    var ordered := Ordered(events);
    OrderedInTime(events);
    ghost var fvs, mids := Points(ordered, Fv), Points(ordered, Venue);
    rows := [];
    var curFv: Option<real>, curMid: Option<real> := None, None;
    var i, n := 0, |ordered|;
    NothingYet(ordered, fvs, mids);
    while i < n
      invariant i <= n && (0 < i < n ==> ordered[i - 1].recvTs < ordered[i].recvTs)
      invariant curFv == Current(ordered[..i], Fv) && curMid == Current(ordered[..i], Venue)
      invariant rows == Collapsed(Instants(ordered[..i]), fvs, mids)
    {
      var recv := ordered[i].recvTs;
      var j := i;
      while j < n && ordered[j].recvTs == recv
        invariant i <= j <= n && forall k | i <= k < j :: ordered[k].recvTs == recv
        invariant curFv == Current(ordered[..j], Fv) && curMid == Current(ordered[..j], Venue)
      {
        CurrentStep(ordered, j);
        var event := ordered[j];
        if event.feed == Fv && event.fv.Some? {
          curFv := event.fv;
        } else if event.feed == Venue && event.mid.Some? {
          curMid := event.mid;
        }
        j := j + 1;
      }
      InstantsOfGroup(ordered, i, j);
      PointsMoreAfter(ordered, j, Fv, recv);
      PointsMoreAfter(ordered, j, Venue, recv);
      CollapsedSnoc(Instants(ordered[..i]), recv, fvs, mids);
      if curFv.Some? && curMid.Some? {
        rows := rows + [L.Live(recv, curFv.value, curMid.value)];
      }
      i := j;
    }
    assert ordered[..n] == ordered;
  }

  lemma NothingYet(s: seq<Event>, fvs: seq<Point>, mids: seq<Point>)
    ensures Current(s[..0], Fv) == None && Current(s[..0], Venue) == None
    ensures Collapsed(Instants(s[..0]), fvs, mids) == []
  {
  }

  lemma PointsSnoc(s: seq<Event>, j: nat, feed: Feed)
    requires j < |s|
    ensures Points(s[..j + 1], feed)
         == if ValueOf(s[j], feed).Some? then Points(s[..j], feed) + [Point(s[j].recvTs, ValueOf(s[j], feed).value)]
            else Points(s[..j], feed)
  {
    assert s[..j + 1][..j] == s[..j];
  }

  lemma CurrentStep(s: seq<Event>, j: nat)
    requires j < |s|
    ensures Current(s[..j + 1], Fv) == if s[j].feed == Fv && s[j].fv.Some? then s[j].fv else Current(s[..j], Fv)
    ensures Current(s[..j + 1], Venue)
         == if s[j].feed == Venue && s[j].mid.Some? then s[j].mid else Current(s[..j], Venue)
  {
    assert s[..j + 1][..j] == s[..j];
  }

  lemma CollapsedSnoc(instants: seq<int>, t: int, fvs: seq<Point>, mids: seq<Point>)
    ensures Collapsed(instants + [t], fvs, mids)
         == if LatestAt(fvs, t).Some? && LatestAt(mids, t).Some?
            then Collapsed(instants, fvs, mids) + [L.Live(t, LatestAt(fvs, t).value, LatestAt(mids, t).value)]
            else Collapsed(instants, fvs, mids)
  {
    assert (instants + [t])[..|instants|] == instants;
  }

  // ---------------------------------------------------------------- direct leads

  /** The times at which the value changes; the first value counts. */
  function ChangeTimes(points: seq<Point>): seq<int> {
    if points == [] then []
    else
      var n := |points| - 1;
      if n > 0 && points[n - 1].value == points[n].value then ChangeTimes(points[..n])
      else ChangeTimes(points[..n]) + [points[n].ts]
  }

  /** The last of the times at or before t. */
  function LastUpTo(times: seq<int>, t: int): Option<int> {
    if times == [] then None
    else if times[|times| - 1] <= t then Some(times[|times| - 1])
    else LastUpTo(times[..|times| - 1], t)
  }

  function Leads(changes: seq<int>, mids: seq<Point>): seq<int> {
    if mids == [] then []
    else
      var n := |mids| - 1;
      match LastUpTo(changes, mids[n].ts)
      case None => Leads(changes, mids[..n])
      case Some(c) => Leads(changes, mids[..n]) + [mids[n].ts - c]
  }

  function ArrivalLeads(s: seq<Event>): seq<int> {
    Leads(ChangeTimes(Points(s, Fv)), Points(s, Venue))
  }

  predicate NonDecreasing(times: seq<int>) {
    forall i, j | 0 <= i < j < |times| :: times[i] <= times[j]
  }

  lemma {:induction false} PointsInTime(s: seq<Event>, feed: Feed)
    requires InTime(s)
    ensures forall i, j | 0 <= i < j < |Points(s, feed)| :: Points(s, feed)[i].ts <= Points(s, feed)[j].ts
  {
    if s != [] {
      var n := |s| - 1;
      PointsInTime(s[..n], feed);
      PointsAtMost(s[..n], feed, s[n].recvTs);
    }
  }

  lemma {:induction false} ChangeTimesInTime(points: seq<Point>)
    requires forall i, j | 0 <= i < j < |points| :: points[i].ts <= points[j].ts
    ensures NonDecreasing(ChangeTimes(points))
    ensures forall i | 0 <= i < |ChangeTimes(points)| ::
              points != [] && ChangeTimes(points)[i] <= points[|points| - 1].ts
  {
    if points != [] {
      var n := |points| - 1;
      ChangeTimesInTime(points[..n]);
      var before := ChangeTimes(points[..n]);
      forall i | 0 <= i < |before|
        ensures before[i] <= points[n].ts
      {
        assert before[i] <= points[n - 1].ts;
      }
    }
  }

  /** The position bisect_right finds is the one LastUpTo looks for. */
  lemma {:induction false} LastUpToAt(times: seq<int>, t: int, pos: nat)
    requires NonDecreasing(times) && pos <= |times|
    requires (forall i | 0 <= i < pos :: times[i] <= t) && forall i | pos <= i < |times| :: times[i] > t
    ensures LastUpTo(times, t) == if pos == 0 then None else Some(times[pos - 1])
  {
    if pos < |times| {
      LastUpToAt(times[..|times| - 1], t, pos);
    }
  }

  method DirectArrivalLeads(events: seq<Event>) returns (leads: seq<int>)
    ensures leads == ArrivalLeads(Ordered(events))
  {
    hide Points, ChangeTimes, Leads, LastUpTo, InTime, Ordered;
    var ordered := Ordered(events);
    OrderedInTime(events);
    var changes := FvChangeTimes(ordered);
    PointsInTime(ordered, Fv);
    ChangeTimesInTime(Points(ordered, Fv));
    leads := [];
    NoLeadsYet(ordered, changes);
    for k := 0 to |ordered|
      invariant leads == Leads(changes, Points(ordered[..k], Venue))
    {
      PointsSnoc(ordered, k, Venue);
      var event := ordered[k];
      if event.feed != Venue || event.mid == None { continue; }
      var pos := FvHistory.BisectRight(changes, event.recvTs);
      LastUpToAt(changes, event.recvTs, pos);
      LeadsSnoc(changes, Points(ordered[..k], Venue), Point(event.recvTs, event.mid.value));
      if pos == 0 { continue; }
      leads := leads + [event.recvTs - changes[pos - 1]];
    }
    assert ordered[..|ordered|] == ordered;
  }

  lemma NoLeadsYet(s: seq<Event>, changes: seq<int>)
    ensures Leads(changes, Points(s[..0], Venue)) == []
  {
  }

  lemma LeadsSnoc(changes: seq<int>, mids: seq<Point>, p: Point)
    ensures Leads(changes, mids + [p])
         == match LastUpTo(changes, p.ts)
            case None => Leads(changes, mids)
            case Some(c) => Leads(changes, mids) + [p.ts - c]
  {
    assert (mids + [p])[..|mids|] == mids;
  }

  method FvChangeTimes(ordered: seq<Event>) returns (changes: seq<int>)
    ensures changes == ChangeTimes(Points(ordered, Fv))
  {
    changes := [];
    var lastFv: Option<real> := None;
    for k := 0 to |ordered|
      invariant changes == ChangeTimes(Points(ordered[..k], Fv))
      invariant lastFv == Current(ordered[..k], Fv)
    {
      CurrentStep(ordered, k);
      assert ordered[..k + 1][..k] == ordered[..k];
      var event := ordered[k];
      if event.feed == Fv && event.fv.Some? {
        ChangeTimesSnoc(Points(ordered[..k], Fv), Point(event.recvTs, event.fv.value));
        if event.fv != lastFv {
          changes := changes + [event.recvTs];
          lastFv := event.fv;
        }
      }
    }
    assert ordered[..|ordered|] == ordered;
  }

  lemma ChangeTimesSnoc(points: seq<Point>, p: Point)
    ensures ChangeTimes(points + [p])
         == if points != [] && points[|points| - 1].value == p.value then ChangeTimes(points)
            else ChangeTimes(points) + [p.ts]
  {
    assert (points + [p])[..|points|] == points;
  }

  // ---------------------------------------------------------------- what a lead is

  lemma {:induction false} LastUpToIsGreatest(times: seq<int>, t: int)
    requires NonDecreasing(times)
    ensures match LastUpTo(times, t)
            case None => forall c | c in times :: c > t
            case Some(c) => c in times && c <= t && forall d | d in times && d <= t :: d <= c
  {
    if times != [] {
      var front, last := times[..|times| - 1], times[|times| - 1];
      assert times == front + [last];
      FrontNoGreater(front, last);
      hide NonDecreasing;
      LastUpToIsGreatest(front, t);
    }
  }

  lemma FrontNoGreater(front: seq<int>, last: int)
    requires NonDecreasing(front + [last])
    ensures NonDecreasing(front) && forall c | c in front :: c <= last
  {
    var times := front + [last];
    assert times[|front|] == last && forall i | 0 <= i < |front| :: times[i] == front[i];
  }

  /**
   A venue change is scored against the greatest fair-value change time not after it: the lead is never
   negative, and is zero exactly when a fair-value change shares its millisecond.
   */
  lemma LeadOfOneChange(s: seq<Event>, p: Point)
    requires InTime(s)
    ensures var changes := ChangeTimes(Points(s, Fv));
            match LastUpTo(changes, p.ts)
            case None => forall c | c in changes :: c > p.ts
            case Some(c) =>
              c in changes && p.ts - c >= 0 && (p.ts - c == 0 <==> p.ts in changes)
              && forall d | d in changes && d <= p.ts :: p.ts - c <= p.ts - d
  {
    PointsInTime(s, Fv);
    ChangeTimesInTime(Points(s, Fv));
    LastUpToIsGreatest(ChangeTimes(Points(s, Fv)), p.ts);
  }

  lemma {:induction false} LeadsAreNonNegative(changes: seq<int>, mids: seq<Point>)
    requires NonDecreasing(changes)
    ensures forall l | l in Leads(changes, mids) :: l >= 0
  {
    if mids != [] {
      LeadsAreNonNegative(changes, mids[..|mids| - 1]);
      LastUpToIsGreatest(changes, mids[|mids| - 1].ts);
    }
  }

  /** Event i reports a fair value. */
  predicate ReportsFv(s: seq<Event>, i: nat) {
    i < |s| && s[i].feed == Fv && s[i].fv.Some?
  }

  /** ... and another one than the report before it, if there was one. */
  ghost predicate FvChange(s: seq<Event>, i: nat) {
    && ReportsFv(s, i)
    && forall j: nat | j < i && ReportsFv(s, j) && s[j].fv == s[i].fv :: exists m: nat :: j < m < i && ReportsFv(s, m)
  }

  lemma {:induction false} LastFvPoint(s: seq<Event>)
    ensures Points(s, Fv) == [] <==> forall j: nat :: !ReportsFv(s, j)
    ensures Points(s, Fv) != [] ==>
              exists j: nat ::
                && ReportsFv(s, j) && Some(Points(s, Fv)[|Points(s, Fv)| - 1].value) == s[j].fv
                && forall m: nat | ReportsFv(s, m) :: m <= j
  {
    if s != [] {
      var n := |s| - 1;
      LastFvPoint(s[..n]);
      assert forall m: nat | m < n :: (ReportsFv(s, m) <==> ReportsFv(s[..n], m)) && s[..n][m] == s[m];
      if ReportsFv(s, n) {
        assert forall m: nat | ReportsFv(s, m) :: m <= n;
      }
    }
  }

  lemma ChangeOfPrefix(s: seq<Event>, n: nat)
    requires n <= |s|
    ensures forall i: nat | i < n :: FvChange(s[..n], i) <==> FvChange(s, i)
  {
    assert forall m: nat | m < n :: ReportsFv(s, m) <==> ReportsFv(s[..n], m);
  }

  /** Fair value changes at c. */
  ghost predicate ChangesAt(s: seq<Event>, c: int) {
    exists i: nat :: FvChange(s, i) && s[i].recvTs == c
  }

  lemma ChangesAtSnoc(s: seq<Event>, c: int)
    requires s != []
    ensures var n := |s| - 1;
            ChangesAt(s, c) <==> ChangesAt(s[..n], c) || (FvChange(s, n) && s[n].recvTs == c)
  {
    hide FvChange;
    var n := |s| - 1;
    ChangeOfPrefix(s, n);
    ChangeWithin(s);
    ChangeWithin(s[..n]);
    if i: nat :| FvChange(s[..n], i) && s[..n][i].recvTs == c {
      assert FvChange(s, i) && s[i].recvTs == c;
    }
    if i: nat :| FvChange(s, i) && s[i].recvTs == c {
      assert i < n ==> FvChange(s[..n], i) && s[..n][i].recvTs == c;
    }
  }

  /** The change times are those of the reports that differ from the one before. */
  lemma {:induction false} ChangeTimesAre(s: seq<Event>)
    ensures forall c :: c in ChangeTimes(Points(s, Fv)) <==> ChangesAt(s, c)
  {
    hide FvChange, ChangesAt, ChangeTimes;
    if s == [] {
      NoChange(s);
    } else {
      var n := |s| - 1;
      var before := Points(s[..n], Fv);
      ChangeTimesAre(s[..n]);
      NewChange(s);
      forall c
        ensures ChangesAt(s, c) <==> ChangesAt(s[..n], c) || (FvChange(s, n) && s[n].recvTs == c)
      {
        ChangesAtSnoc(s, c);
      }
      PointsSnoc(s, n, Fv);
      assert s[..n + 1] == s;
      if ReportsFv(s, n) {
        ChangeTimesSnoc(before, Point(s[n].recvTs, s[n].fv.value));
      }
    }
  }

  lemma NoChange(s: seq<Event>)
    requires s == []
    ensures ChangeTimes(Points(s, Fv)) == [] && forall c :: !ChangesAt(s, c)
  {
  }

  lemma ChangeWithin(s: seq<Event>)
    ensures forall i: nat :: FvChange(s, i) ==> i < |s|
  {
  }

  lemma NewChange(s: seq<Event>)
    requires s != []
    ensures var n := |s| - 1;
            var before := Points(s[..n], Fv);
            FvChange(s, n) <==> ReportsFv(s, n) && (before == [] || Some(before[|before| - 1].value) != s[n].fv)
  {
    var n := |s| - 1;
    LastFvPoint(s[..n]);
    assert forall m: nat | m < n :: ReportsFv(s, m) <==> ReportsFv(s[..n], m);
  }

  /** Event k reports a venue mid, and this is the time since the last change of fair value not after it. */
  ghost predicate IsLead(s: seq<Event>, k: nat, lead: int) {
    && k < |s| && s[k].feed == Venue && s[k].mid.Some?
    && (exists i: nat :: FvChange(s, i) && s[i].recvTs <= s[k].recvTs && lead == s[k].recvTs - s[i].recvTs)
    && forall i: nat | FvChange(s, i) && s[i].recvTs <= s[k].recvTs :: lead <= s[k].recvTs - s[i].recvTs
  }

  lemma LeadIs(s: seq<Event>, k: nat)
    requires InTime(s) && k < |s| && s[k].feed == Venue && s[k].mid.Some?
    ensures match LastUpTo(ChangeTimes(Points(s, Fv)), s[k].recvTs)
            case None => forall lead :: !IsLead(s, k, lead)
            case Some(c) => forall lead :: IsLead(s, k, lead) <==> lead == s[k].recvTs - c
  {
    hide FvChange, InTime, Points, ChangeTimes;
    ChangeTimesAre(s);
    ChangeWithin(s);
    forall i: nat | FvChange(s, i)
      ensures s[i].recvTs in ChangeTimes(Points(s, Fv))
    {
    }
    LeadOfOneChange(s, Point(s[k].recvTs, s[k].mid.value));
  }

  /** The leads of the first n events: which events they are of. */
  ghost predicate LeadsAt(s: seq<Event>, n: nat, at: seq<nat>, leads: seq<int>) {
    && |at| == |leads| && (forall r | 0 <= r < |at| :: at[r] < n && IsLead(s, at[r], leads[r]))
    && (forall q, r | 0 <= q < r < |at| :: at[q] < at[r])
    && forall k: nat, lead | k < n && IsLead(s, k, lead) :: k in at
  }

  lemma LeadsAtSnoc(s: seq<Event>, n: nat, at: seq<nat>, leads: seq<int>, lead: int)
    requires LeadsAt(s, n, at, leads) && IsLead(s, n, lead)
    ensures LeadsAt(s, n + 1, at + [n], leads + [lead])
  {
    hide IsLead;
  }

  lemma LeadsAtSkip(s: seq<Event>, n: nat, at: seq<nat>, leads: seq<int>)
    requires LeadsAt(s, n, at, leads) && forall lead :: !IsLead(s, n, lead)
    ensures LeadsAt(s, n + 1, at, leads)
  {
    hide IsLead;
  }

  lemma {:induction false} LeadsOfPrefix(s: seq<Event>, n: nat) returns (at: seq<nat>)
    requires InTime(s) && n <= |s|
    ensures LeadsAt(s, n, at, Leads(ChangeTimes(Points(s, Fv)), Points(s[..n], Venue)))
  {
    hide IsLead, InTime, ChangeTimes, LastUpTo, LeadsAt, Leads, Points;
    var changes := ChangeTimes(Points(s, Fv));
    if n == 0 {
      at := [];
      NoLeadsYet(s, changes);
      NoLeadsAt(s);
    } else {
      var k, e := n - 1, s[n - 1];
      at := LeadsOfPrefix(s, k);
      var leads := Leads(changes, Points(s[..k], Venue));
      PointsSnoc(s, k, Venue);
      if e.feed == Venue && e.mid.Some? {
        LeadIs(s, k);
        LeadsSnoc(changes, Points(s[..k], Venue), Point(e.recvTs, e.mid.value));
        var c := LastUpTo(changes, e.recvTs);
        if c.Some? {
          LeadsAtSnoc(s, k, at, leads, e.recvTs - c.value);
          at := at + [k];
        } else {
          LeadsAtSkip(s, k, at, leads);
        }
      } else {
        LeadIsVenue(s, k);
        LeadsAtSkip(s, k, at, leads);
      }
    }
  }

  lemma NoLeadsAt(s: seq<Event>)
    ensures LeadsAt(s, 0, [], [])
  {
  }

  lemma LeadIsVenue(s: seq<Event>, k: nat)
    requires k < |s| && !(s[k].feed == Venue && s[k].mid.Some?)
    ensures forall lead :: !IsLead(s, k, lead)
  {
  }

  /** The leads are those of the venue events of the tape that have one, each once and in order. */
  lemma LeadsOfTape(s: seq<Event>) returns (at: seq<nat>)
    requires InTime(s)
    ensures |at| == |ArrivalLeads(s)| && forall q, r | 0 <= q < r < |at| :: at[q] < at[r]
    ensures forall r | 0 <= r < |at| :: IsLead(s, at[r], ArrivalLeads(s)[r])
    ensures forall k: nat, lead | IsLead(s, k, lead) :: k in at
  {
    hide IsLead, InTime, ChangeTimes, Leads, Points;
    at := LeadsOfPrefix(s, |s|);
    assert s[..|s|] == s;
    LeadWithin(s);
  }

  lemma LeadWithin(s: seq<Event>)
    ensures forall k: nat, lead | IsLead(s, k, lead) :: k < |s|
  {
  }

  // ---------------------------------------------------------------- tie neutrality

  function FromFeed(feed: Feed): Event -> bool {
    (e: Event) => e.feed == feed
  }

  /** One feed of a tape with its own order, forgetting the sequence numbers of the whole tape. */
  function OneFeed(s: seq<Event>, feed: Feed): seq<Event> {
    if s == [] then []
    else
      var n := |s| - 1;
      if s[n].feed == feed then OneFeed(s[..n], feed) + [s[n].(arrivalSeq := 0)] else OneFeed(s[..n], feed)
  }

  lemma {:induction false} PointsOfOneFeed(s: seq<Event>, feed: Feed)
    ensures Points(OneFeed(s, feed), feed) == Points(s, feed)
  {
    if s != [] {
      var n := |s| - 1;
      PointsOfOneFeed(s[..n], feed);
      if s[n].feed == feed {
        var one := OneFeed(s[..n], feed);
        assert (one + [s[n].(arrivalSeq := 0)])[..|one|] == one;
      }
    }
  }

  predicate HasTime(s: seq<Event>, t: int) {
    exists i | 0 <= i < |s| :: s[i].recvTs == t
  }

  lemma HasTimeSnoc(s: seq<Event>, e: Event, t: int)
    ensures HasTime(s + [e], t) <==> HasTime(s, t) || e.recvTs == t
  {
    if i :| 0 <= i < |s| && s[i].recvTs == t {
      assert (s + [e])[i].recvTs == t;
    }
    assert (s + [e])[|s|].recvTs == e.recvTs;
  }

  lemma {:induction false} OneFeedTimes(s: seq<Event>, t: int)
    ensures HasTime(s, t) <==> HasTime(OneFeed(s, Fv), t) || HasTime(OneFeed(s, Venue), t)
  {
    hide HasTime;
    if s != [] {
      var n := |s| - 1;
      OneFeedTimes(s[..n], t);
      TakeDropAt(s, n);
      assert s == s[..n] + [s[n]];
      HasTimeSnoc(s[..n], s[n], t);
      HasTimeSnoc(OneFeed(s[..n], s[n].feed), s[n].(arrivalSeq := 0), t);
    }
  }

  lemma {:induction false} InstantsAscend(s: seq<Event>)
    requires InTime(s)
    ensures StrictlyAscending(Instants(s))
    ensures forall t :: (t in Instants(s) <==> HasTime(s, t))
    ensures s != [] ==> Instants(s) != [] && Instants(s)[|Instants(s)| - 1] == s[|s| - 1].recvTs
  {
    if s != [] {
      var n := |s| - 1;
      InstantsAscend(s[..n]);
      assert s == s[..n] + [s[n]];
      forall t
        ensures t in Instants(s) <==> HasTime(s, t)
      {
        HasTimeSnoc(s[..n], s[n], t);
      }
    }
  }

  /** The last time is the greatest, and the ones before it are all the others. */
  lemma LastIsGreatest(a: seq<int>, t: int)
    requires StrictlyAscending(a) && a != []
    ensures StrictlyAscending(a[..|a| - 1]) && a[|a| - 1] in a
    ensures t in a ==> t <= a[|a| - 1]
    ensures t in a[..|a| - 1] <==> t in a && t != a[|a| - 1]
  {
    if i :| 0 <= i < |a| && a[i] == t {
      assert i < |a| - 1 ==> a[..|a| - 1][i] == t;
    }
  }

  lemma MembersShow(a: seq<int>, b: seq<int>)
    requires forall t :: t in a <==> t in b
    ensures a == [] <==> b == []
  {
    if a != [] {
      InBoth(a, b, a[0]);
    }
    if b != [] {
      InBoth(b, a, b[0]);
    }
  }

  lemma InBoth(a: seq<int>, b: seq<int>, t: int)
    requires t in a && forall u :: u in a <==> u in b
    ensures t in b
  {
  }

  lemma {:induction false} AscendingIsUnique(a: seq<int>, b: seq<int>)
    requires StrictlyAscending(a) && StrictlyAscending(b) && forall t :: t in a <==> t in b
    ensures a == b
  {
    hide StrictlyAscending;
    MembersShow(a, b);
    if a != [] {
      var m, n := |a| - 1, |b| - 1;
      LastIsGreatest(a, b[n]);
      LastIsGreatest(b, a[m]);
      assert a[m] in b && b[n] in a;
      forall t
        ensures t in a[..m] <==> t in b[..n]
      {
        LastIsGreatest(a, t);
        LastIsGreatest(b, t);
      }
      AscendingIsUnique(a[..m], b[..n]);
      TakeDropAt(a, m);
      TakeDropAt(b, n);
    }
  }

  /**
   Two tapes with the same fair-value feed and the same venue feed, however they interleave, give the
   same collapsed series and the same leads.
   */
  lemma InterleavingIsIrrelevant(a: seq<Event>, b: seq<Event>)
    requires InTime(a) && InTime(b)
    requires forall feed :: OneFeed(a, feed) == OneFeed(b, feed)
    ensures Series(a) == Series(b)
    ensures ArrivalLeads(a) == ArrivalLeads(b)
  {
    forall feed
      ensures Points(a, feed) == Points(b, feed)
    {
      PointsOfOneFeed(a, feed);
      PointsOfOneFeed(b, feed);
    }
    forall t
      ensures t in Instants(a) <==> t in Instants(b)
    {
      InstantsAscend(a);
      InstantsAscend(b);
      OneFeedTimes(a, t);
      OneFeedTimes(b, t);
    }
    InstantsAscend(a);
    InstantsAscend(b);
    AscendingIsUnique(Instants(a), Instants(b));
  }

  /** The same for the tapes once sorted, as the analysis sorts them. */
  lemma TieNeutral(a: seq<Event>, b: seq<Event>)
    requires forall feed :: OneFeed(Ordered(a), feed) == OneFeed(Ordered(b), feed)
    ensures Series(Ordered(a)) == Series(Ordered(b)) && ArrivalLeads(Ordered(a)) == ArrivalLeads(Ordered(b))
  {
    OrderedInTime(a);
    OrderedInTime(b);
    InterleavingIsIrrelevant(Ordered(a), Ordered(b));
  }

  lemma {:induction false} OneFeedAlone(s: seq<Event>, feed: Feed)
    ensures OneFeed(Filter(s, FromFeed(feed)), feed) == OneFeed(s, feed)
  {
    if s != [] {
      var n := |s| - 1;
      OneFeedAlone(s[..n], feed);
      if s[n].feed == feed {
        var kept := Filter(s[..n], FromFeed(feed));
        assert (kept + [s[n]])[..|kept|] == kept;
      }
    }
  }

  lemma ArrivedBeforeOrders()
    ensures TotalPreorder(ArrivedBefore)
  {
  }

  /**
   The same for the events as recorded, in any order and with any arrival numbers across the feeds: it is
   enough that each feed's own events, put in order on their own, read the same.
   */
  lemma TieNeutralAsRecorded(a: seq<Event>, b: seq<Event>)
    requires forall feed ::
               OneFeed(Ordered(Filter(a, FromFeed(feed))), feed) == OneFeed(Ordered(Filter(b, FromFeed(feed))), feed)
    ensures Series(Ordered(a)) == Series(Ordered(b)) && ArrivalLeads(Ordered(a)) == ArrivalLeads(Ordered(b))
  {
    hide Filter, Sort, OneFeed, ArrivedBefore, TotalPreorder;
    ArrivedBeforeOrders();
    forall feed
      ensures OneFeed(Ordered(a), feed) == OneFeed(Ordered(b), feed)
    {
      SortOfFilter(a, FromFeed(feed), ArrivedBefore);
      SortOfFilter(b, FromFeed(feed), ArrivedBefore);
      OneFeedAlone(Ordered(a), feed);
      OneFeedAlone(Ordered(b), feed);
    }
    TieNeutral(a, b);
  }

  // ---------------------------------------------------------------- what a row is

  /** v is what the last point at or before t says. */
  predicate IsLatest(points: seq<Point>, t: int, v: real) {
    exists i | 0 <= i < |points| ::
      points[i].value == v && points[i].ts <= t && forall j | i < j < |points| :: points[j].ts > t
  }

  lemma {:induction false} LatestIsLast(points: seq<Point>, t: int, v: real)
    ensures LatestAt(points, t) == Some(v) <==> IsLatest(points, t, v)
  {
    if points != [] {
      var n := |points| - 1;
      if points[n].ts <= t {
        assert points[n].value == v ==> IsLatest(points, t, v);
      } else {
        LatestIsLast(points[..n], t, v);
        LaterPointIsIgnored(points, t, v);
      }
    }
  }

  lemma LaterPointIsIgnored(points: seq<Point>, t: int, v: real)
    requires points != [] && points[|points| - 1].ts > t
    ensures IsLatest(points, t, v) <==> IsLatest(points[..|points| - 1], t, v)
  {
    var n := |points| - 1;
    if i :| 0 <= i < n && points[..n][i].value == v && points[..n][i].ts <= t
            && forall j | i < j < n :: points[..n][j].ts > t {
      assert forall j | i < j < n :: points[j] == points[..n][j];
      assert points[i].value == v && points[i].ts <= t && forall j | i < j < |points| :: points[j].ts > t;
    }
    if i :| 0 <= i < |points| && points[i].value == v && points[i].ts <= t
            && forall j | i < j < |points| :: points[j].ts > t {
      assert i < n && points[..n][i] == points[i] && forall j | i < j < n :: points[..n][j] == points[j];
    }
  }

  lemma {:induction false} RowOfCollapsed(instants: seq<int>, fvs: seq<Point>, mids: seq<Point>, r: L.Live)
    ensures r in Collapsed(instants, fvs, mids)
       <==> r.ts in instants && LatestAt(fvs, r.ts) == Some(r.fv) && LatestAt(mids, r.ts) == Some(r.mid)
  {
    hide LatestAt;
    if instants != [] {
      var n := |instants| - 1;
      RowOfCollapsed(instants[..n], fvs, mids, r);
      assert r.ts in instants <==> r.ts in instants[..n] || r.ts == instants[n] by {
        assert instants == instants[..n] + [instants[n]];
      }
    }
  }

  predicate RowsAscend(rows: seq<L.Live>) {
    forall i, j | 0 <= i < j < |rows| :: rows[i].ts < rows[j].ts
  }

  lemma RowsAscendSnoc(rows: seq<L.Live>, r: L.Live)
    requires RowsAscend(rows) && forall q | q in rows :: q.ts < r.ts
    ensures RowsAscend(rows + [r])
  {
    assert forall i | 0 <= i < |rows| :: rows[i] in rows;
  }

  lemma {:induction false} CollapsedAscends(instants: seq<int>, fvs: seq<Point>, mids: seq<Point>)
    requires StrictlyAscending(instants)
    ensures RowsAscend(Collapsed(instants, fvs, mids))
  {
    hide LatestAt, RowsAscend;
    if instants == [] {
      AnyRowsAscend();
    } else {
      var n := |instants| - 1;
      CollapsedAscends(instants[..n], fvs, mids);
      var before := Collapsed(instants[..n], fvs, mids);
      forall q | q in before
        ensures q.ts < instants[n]
      {
        RowOfCollapsed(instants[..n], fvs, mids, q);
      }
      var f, m := LatestAt(fvs, instants[n]), LatestAt(mids, instants[n]);
      if f.Some? && m.Some? {
        RowsAscendSnoc(before, L.Live(instants[n], f.value, m.value));
      }
    }
  }

  lemma AnyRowsAscend()
    ensures RowsAscend([])
  {
  }

  /**
   There is a row at t exactly when t is a receive time by which both feeds have spoken, and it carries what
   the last report of each feed at or before t said; rows are in strictly ascending time.
   */
  lemma RowsOfSeries(s: seq<Event>)
    requires InTime(s)
    ensures RowsAscend(Series(s))
    ensures forall r :: (r in Series(s)
              <==> HasTime(s, r.ts)
                   && IsLatest(Points(s, Fv), r.ts, r.fv) && IsLatest(Points(s, Venue), r.ts, r.mid))
  {
    hide Collapsed, LatestAt, IsLatest, RowsAscend, HasTime, StrictlyAscending, Instants, Points, InTime;
    InstantsAscend(s);
    CollapsedAscends(Instants(s), Points(s, Fv), Points(s, Venue));
    forall r
      ensures r in Series(s)
         <==> HasTime(s, r.ts)
              && IsLatest(Points(s, Fv), r.ts, r.fv) && IsLatest(Points(s, Venue), r.ts, r.mid)
    {
      RowOfCollapsed(Instants(s), Points(s, Fv), Points(s, Venue), r);
      LatestIsLast(Points(s, Fv), r.ts, r.fv);
      LatestIsLast(Points(s, Venue), r.ts, r.mid);
    }
  }

  /** A collapsed series has one row per time, so the probe's change events lose none of its mids. */
  lemma SeriesCompressesLosslessly(s: seq<Event>)
    requires InTime(s)
    ensures L.Rebuilds(Series(s))
  {
    hide Series, L.Rebuilds, InTime, HasTime, IsLatest, Points;
    RowsOfSeries(s);
    var rows := Series(s);
    assert L.InTime(rows) && L.OneMidPerTime(rows);
    L.CompressionIsLossless(rows);
  }
}
