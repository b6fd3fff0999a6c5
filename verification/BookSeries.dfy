/**
 The streaming book reconstruction of scripts/maker/pmxt_archive_pull.py: one pass over the archive with a
 pending row per token, proved to give the simple form -- split a token's frames at its gaps and keep the
 last snapshot of every bucket of each segment, with the gap rows between -- for any book maintainer.
 */
module BookSeries {
  import opened Prelude
  import opened Sorting

  type Token = string

  datatype Kind = Book | PriceChange | TickSizeChange | OtherEvent

  /** A row of the archive; the receive time is absent when it is null or not an integer. */
  datatype RawRow<P> = RawRow(recvTs: Option<int>, kind: Kind, token: Option<Token>, payload: P)

  datatype Frame<P> = Frame(recvTs: int, kind: Kind, token: Option<Token>, payload: P)

  /** A book maintainer: how it takes a frame, and the book it holds for a token. */
  datatype Maintainer<!M, !S, !P> =
    Maintainer(empty: M, apply: (M, Frame<P>) -> M, state: (M, Token) -> Option<S>, seeded: S -> bool)

  datatype GapReason = DeltaBeforeSeed | ChecksumOrStaleReseed

  datatype Row<S, P> =
    | SnapshotRow(ts: int, frame: Frame<P>, state: S)
    | GapRow(ts: int, frame: Frame<P>, reason: GapReason)

  /** What one frame means for its token. */
  datatype Entry<S, P> = Gap(bucket: int, row: Row<S, P>) | Snapshot(bucket: int, row: Row<S, P>) | Ignored(bucket: int)

  datatype PullError = BadTimestamp

  // ---------------------------------------------------------------- frames in order

  /** sorted(rows, key=(ts is None, ts or 0)) */
  predicate ByReceipt<P>(a: RawRow<P>, b: RawRow<P>) {
    b.recvTs.None? || (a.recvTs.Some? && a.recvTs.value <= b.recvTs.value)
  }

  predicate AllTimed<P>(rows: seq<RawRow<P>>) {
    forall i | 0 <= i < |rows| :: rows[i].recvTs.Some?
  }

  function Frames<P>(rows: seq<RawRow<P>>): seq<Frame<P>>
    requires AllTimed(rows)
  {
    if rows == [] then []
    else
      var n := |rows| - 1;
      var last := rows[n];
      if last.kind == OtherEvent then Frames(rows[..n])
      else Frames(rows[..n]) + [Frame(last.recvTs.value, last.kind, last.token, last.payload)]
  }

  predicate InTime<P>(frames: seq<Frame<P>>) {
    forall i, j | 0 <= i < j < |frames| :: frames[i].recvTs <= frames[j].recvTs
  }

  lemma {:induction false} FramesInTime<P>(rows: seq<RawRow<P>>)
    requires AllTimed(rows) && Sorted(rows, ByReceipt)
    ensures InTime(Frames(rows))
    ensures forall f | f in Frames(rows) :: rows != [] && f.recvTs <= rows[|rows| - 1].recvTs.value
  {
    if rows != [] {
      var n := |rows| - 1;
      FramesInTime(rows[..n]);
      var before := Frames(rows[..n]);
      forall i | 0 <= i < |before|
        ensures before[i].recvTs <= rows[n].recvTs.value
      {
        assert before[i] in before;
        assert ByReceipt(rows[n - 1], rows[n]);
      }
    }
  }

  // ---------------------------------------------------------------- what each frame means

  function Maintained<M, S, P>(frames: seq<Frame<P>>, mt: Maintainer<M, S, P>): M {
    if frames == [] then mt.empty else mt.apply(Maintained(frames[..|frames| - 1], mt), frames[|frames| - 1])
  }

  predicate Seeded<M, S, P>(mt: Maintainer<M, S, P>, state: Option<S>) {
    state.Some? && mt.seeded(state.value)
  }

  function Label<M, S, P>(mt: Maintainer<M, S, P>, pre: M, frame: Frame<P>, token: Token, interval: int): Entry<S, P>
    requires interval > 0
  {
    var bucket := frame.recvTs / interval;
    var post := mt.state(mt.apply(pre, frame), token);
    var preSeeded := Seeded(mt, mt.state(pre, token));
    if frame.kind == PriceChange && !preSeeded then Gap(bucket, GapRow(bucket * interval, frame, DeltaBeforeSeed))
    else if preSeeded && !Seeded(mt, post) then Gap(bucket, GapRow(bucket * interval, frame, ChecksumOrStaleReseed))
    else if !Seeded(mt, post) then Ignored(bucket)
    else Snapshot(bucket, SnapshotRow(bucket * interval, frame, post.value))
  }

  /** What the frames of one token mean, in order. */
  function Entries<M, S, P>(frames: seq<Frame<P>>, mt: Maintainer<M, S, P>, token: Token, interval: int):
    seq<Entry<S, P>>
    requires interval > 0
  {
    if frames == [] then []
    else
      var n := |frames| - 1;
      var before := Entries(frames[..n], mt, token, interval);
      if frames[n].token != Some(token) then before
      else before + [Label(mt, Maintained(frames[..n], mt), frames[n], token, interval)]
  }

  predicate Ascending<S, P>(entries: seq<Entry<S, P>>) {
    forall i, j | 0 <= i < j < |entries| :: entries[i].bucket <= entries[j].bucket
  }

  predicate Stamped<S, P>(e: Entry<S, P>, interval: int) {
    e.Ignored? || e.row.ts == e.bucket * interval
  }

  lemma {:induction false} BucketsMonotone(a: int, b: int, interval: int)
    requires interval > 0 && a <= b
    ensures a / interval <= b / interval
  {
    Cancel(a / interval, b / interval + 1, interval);
  }

  lemma Cancel(x: int, y: int, c: int)
    requires c > 0 && x * c < y * c
    ensures x < y
  {
  }

  lemma {:induction false} EntriesAscend<M, S, P>(frames: seq<Frame<P>>, mt: Maintainer<M, S, P>, token: Token,
                                                  interval: int)
    requires interval > 0 && InTime(frames)
    ensures Ascending(Entries(frames, mt, token, interval))
    ensures forall e | e in Entries(frames, mt, token, interval) ::
              frames != [] && Stamped(e, interval) && e.bucket <= frames[|frames| - 1].recvTs / interval
  {
    if frames != [] {
      var n := |frames| - 1;
      EntriesAscend(frames[..n], mt, token, interval);
      if n > 0 {
        BucketsMonotone(frames[n - 1].recvTs, frames[n].recvTs, interval);
      }
      var before := Entries(frames[..n], mt, token, interval);
      assert forall i | 0 <= i < |before| :: before[i] in before;
    }
  }

  // ---------------------------------------------------------------- the simple form

  /** Snapshot j takes the place of snapshot i: a later one of the same bucket, with no gap between. */
  predicate Replaces<S, P>(entries: seq<Entry<S, P>>, i: nat, j: nat)
    requires i < j < |entries|
  {
    && entries[j].Snapshot? && entries[j].bucket == entries[i].bucket
    && forall k | i < k < j :: !entries[k].Gap?
  }

  /** Gaps survive, and so does every snapshot that nothing replaces. */
  predicate Survives<S, P>(entries: seq<Entry<S, P>>, i: nat)
    requires i < |entries|
  {
    || entries[i].Gap?
    || (entries[i].Snapshot? && !exists j | i < j < |entries| :: Replaces(entries, i, j))
  }

  /** The rows of the survivors among the first k entries, in order. */
  function Survivors<S, P>(entries: seq<Entry<S, P>>, k: nat): seq<Row<S, P>>
    requires k <= |entries|
  {
    if k == 0 then []
    else if Survives(entries, k - 1) then Survivors(entries, k - 1) + [entries[k - 1].row]
    else Survivors(entries, k - 1)
  }

  function Kept<S, P>(entries: seq<Entry<S, P>>): seq<Row<S, P>> {
    Survivors(entries, |entries|)
  }

  // ---------------------------------------------------------------- the machine of one token

  datatype Pending<S, P> = Pending(bucket: int, row: Row<S, P>)

  datatype Cell<S, P> = Cell(out: seq<Row<S, P>>, pending: Option<Pending<S, P>>)

  function Flushed<S, P>(c: Cell<S, P>): seq<Row<S, P>> {
    if c.pending.Some? then c.out + [c.pending.value.row] else c.out
  }

  function Step<S, P>(c: Cell<S, P>, e: Entry<S, P>): Cell<S, P> {
    match e
    case Ignored(_) => c
    case Gap(_, row) => Cell(Flushed(c) + [row], None)
    case Snapshot(bucket, row) =>
      if c.pending.Some? && c.pending.value.bucket != bucket then Cell(Flushed(c), Some(Pending(bucket, row)))
      else Cell(c.out, Some(Pending(bucket, row)))
  }

  function Run<S, P>(entries: seq<Entry<S, P>>): Cell<S, P> {
    if entries == [] then Cell([], None) else Step(Run(entries[..|entries| - 1]), entries[|entries| - 1])
  }

  /** Entry p holds the pending row: nothing but ignored frames came after it. */
  ghost predicate Holds<S, P>(entries: seq<Entry<S, P>>, c: Cell<S, P>, p: nat) {
    && p < |entries| && c.pending.Some?
    && entries[p] == Snapshot(c.pending.value.bucket, c.pending.value.row)
    && (forall k | p < k < |entries| :: entries[k].Ignored?)
    && c.out == Survivors(entries, p)
  }

  /** Nothing is pending: no snapshot came since the last gap. */
  ghost predicate Idle<S, P>(entries: seq<Entry<S, P>>, c: Cell<S, P>) {
    && c.pending.None? && c.out == Kept(entries)
    && forall i | 0 <= i < |entries| && entries[i].Snapshot? :: exists k | i < k < |entries| :: entries[k].Gap?
  }

  ghost predicate Tracks<S, P>(entries: seq<Entry<S, P>>, c: Cell<S, P>) {
    Idle(entries, c) || exists p: nat | p < |entries| :: Holds(entries, c, p)
  }

  /** Appending e to the entries changes whether i survives only when e replaces i. */
  lemma SurvivesSnoc<S, P>(entries: seq<Entry<S, P>>, e: Entry<S, P>, i: nat)
    requires i < |entries|
    ensures Survives(entries + [e], i)
       <==> Survives(entries, i) && (entries[i].Snapshot? ==> !Replaces(entries + [e], i, |entries|))
  {
    var after := entries + [e];
    forall j | i < j < |entries|
      ensures Replaces(after, i, j) <==> Replaces(entries, i, j)
    {
      if Replaces(after, i, j) {
        assert forall k | i < k < j :: after[k] == entries[k];
      }
    }
  }

  lemma {:induction false} SurvivorsSnoc<S, P>(entries: seq<Entry<S, P>>, e: Entry<S, P>, k: nat)
    requires k <= |entries|
    requires forall i | 0 <= i < k && Survives(entries, i) && entries[i].Snapshot? ::
               !Replaces(entries + [e], i, |entries|)
    ensures Survivors(entries + [e], k) == Survivors(entries, k)
  {
    hide Survives, Replaces;
    if k > 0 {
      SurvivorsSnoc(entries, e, k - 1);
      SurvivesSnoc(entries, e, k - 1);
    }
  }

  lemma {:induction false} OnlyIgnoredAfter<S, P>(entries: seq<Entry<S, P>>, p: nat, k: nat)
    requires p <= k <= |entries| && forall i | p <= i < k :: entries[i].Ignored?
    ensures Survivors(entries, k) == Survivors(entries, p)
  {
    if p < k {
      OnlyIgnoredAfter(entries, p, k - 1);
    }
  }

  lemma HeldSurvives<S, P>(entries: seq<Entry<S, P>>, c: Cell<S, P>, p: nat)
    requires Holds(entries, c, p)
    ensures Survives(entries, p) && Kept(entries) == Flushed(c)
  {
    OnlyIgnoredAfter(entries, p + 1, |entries|);
  }

  lemma TrackedIsKept<S, P>(entries: seq<Entry<S, P>>, c: Cell<S, P>)
    requires Tracks(entries, c)
    ensures Kept(entries) == Flushed(c)
  {
    hide Holds, Kept, Flushed;
    if Idle(entries, c) {
      IdleIsKept(entries, c);
    } else {
      var p: nat :| p < |entries| && Holds(entries, c, p);
      HeldSurvives(entries, c, p);
    }
  }

  lemma IdleIsKept<S, P>(entries: seq<Entry<S, P>>, c: Cell<S, P>)
    requires Idle(entries, c)
    ensures Kept(entries) == Flushed(c)
  {
  }

  /** What replaces a snapshot before the held one is preceded by the held one, which already did. */
  lemma ReplacedEarlier<S, P>(entries: seq<Entry<S, P>>, c: Cell<S, P>, p: nat, e: Entry<S, P>, i: nat)
    requires Holds(entries, c, p) && Ascending(entries + [e]) && i < p
    requires Replaces(entries + [e], i, |entries|)
    ensures Replaces(entries, i, p)
  {
    var after := entries + [e];
    assert after[i].bucket <= after[p].bucket <= after[|entries|].bucket;
    assert forall k | i < k < p :: after[k] == entries[k];
  }

  lemma TracksIgnored<S, P>(entries: seq<Entry<S, P>>, c: Cell<S, P>, e: Entry<S, P>)
    requires Tracks(entries, c) && e.Ignored?
    ensures Tracks(entries + [e], c)
  {
    var after := entries + [e];
    if Idle(entries, c) {
      SurvivorsSnoc(entries, e, |entries|);
      forall i | 0 <= i < |after| && after[i].Snapshot?
        ensures exists k | i < k < |after| :: after[k].Gap?
      {
        var k :| i < k < |entries| && entries[k].Gap?;
        assert after[k].Gap?;
      }
    } else {
      var p: nat :| p < |entries| && Holds(entries, c, p);
      SurvivorsSnoc(entries, e, p);
      assert Holds(after, c, p);
    }
  }

  lemma TracksGap<S, P>(entries: seq<Entry<S, P>>, c: Cell<S, P>, e: Entry<S, P>)
    requires Tracks(entries, c) && e.Gap?
    ensures Idle(entries + [e], Step(c, e))
  {
    var after := entries + [e];
    TrackedIsKept(entries, c);
    SurvivorsSnoc(entries, e, |entries|);
    assert after[|entries|] == e;
    assert Kept(after) == Kept(entries) + [e.row];
  }

  lemma TracksFirst<S, P>(entries: seq<Entry<S, P>>, c: Cell<S, P>, e: Entry<S, P>)
    requires Idle(entries, c) && e.Snapshot?
    ensures Holds(entries + [e], Step(c, e), |entries|)
  {
    var after := entries + [e];
    forall i | 0 <= i < |entries| && Survives(entries, i) && entries[i].Snapshot?
      ensures !Replaces(after, i, |entries|)
    {
      var k :| i < k < |entries| && entries[k].Gap?;
      assert after[k].Gap?;
    }
    SurvivorsSnoc(entries, e, |entries|);
  }

  lemma TracksNext<S, P>(entries: seq<Entry<S, P>>, c: Cell<S, P>, e: Entry<S, P>, p: nat)
    requires Holds(entries, c, p) && e.Snapshot? && Ascending(entries + [e])
    ensures Holds(entries + [e], Step(c, e), |entries|)
  {
    var after := entries + [e];
    forall i | 0 <= i < p && Survives(entries, i) && entries[i].Snapshot?
      ensures !Replaces(after, i, |entries|)
    {
      if Replaces(after, i, |entries|) {
        ReplacedEarlier(entries, c, p, e, i);
      }
    }
    SurvivorsSnoc(entries, e, p);
    SurvivesSnoc(entries, e, p);
    HeldSurvives(entries, c, p);
    assert forall k | p < k < |entries| :: after[k] == entries[k];
    assert Survives(after, p) <==> e.bucket != c.pending.value.bucket;
    OnlyIgnoredAfter(after, p + 1, |entries|);
  }

  lemma {:induction false} RunTracks<S, P>(entries: seq<Entry<S, P>>)
    requires Ascending(entries)
    ensures Tracks(entries, Run(entries))
  {
    hide Holds, Step, Kept;
    if entries == [] {
      NothingTracked<S, P>();
    } else {
      var n := |entries| - 1;
      var e, c := entries[n], Run(entries[..n]);
      RunTracks(entries[..n]);
      assert entries == entries[..n] + [e];
      if e.Ignored? {
        TracksIgnored(entries[..n], c, e);
        StepIgnores(c, e);
      } else if e.Gap? {
        TracksGap(entries[..n], c, e);
      } else if Idle(entries[..n], c) {
        TracksFirst(entries[..n], c, e);
        assert Holds(entries, Step(c, e), n);
      } else {
        var p: nat :| p < n && Holds(entries[..n], c, p);
        TracksNext(entries[..n], c, e, p);
        assert Holds(entries, Step(c, e), n);
      }
    }
  }

  lemma StepIgnores<S, P>(c: Cell<S, P>, e: Entry<S, P>)
    requires e.Ignored?
    ensures Step(c, e) == c
  {
  }

  lemma NothingTracked<S, P>()
    ensures Tracks<S, P>([], Run([]))
  {
    assert Idle<S, P>([], Cell([], None));
  }

  /** The streaming machine gives the simple form. */
  lemma MachineKeepsSurvivors<S, P>(entries: seq<Entry<S, P>>)
    requires Ascending(entries)
    ensures Flushed(Run(entries)) == Kept(entries)
  {
    hide Tracks, Flushed, Kept;
    RunTracks(entries);
    TrackedIsKept(entries, Run(entries));
  }

  // ---------------------------------------------------------------- the whole pull

  function CellOf<S, P>(out: map<Token, seq<Row<S, P>>>, pending: map<Token, Pending<S, P>>, token: Token): Cell<S, P> {
    Cell(if token in out then out[token] else [], if token in pending then Some(pending[token]) else None)
  }

  lemma ByReceiptOrders<P(!new)>()
    ensures TotalPreorder<RawRow<P>>(ByReceipt)
  {
  }

  lemma SortedTimed<P(!new)>(rows: seq<RawRow<P>>)
    ensures AllTimed(Sort(rows, ByReceipt)) <==> AllTimed(rows)
  {
    hide *;
    ByReceiptOrders<P>();
    SortSorts(rows, ByReceipt);
    SameRowsSameTimes(Sort(rows, ByReceipt), rows);
    SameRowsSameTimes(rows, Sort(rows, ByReceipt));
  }

  lemma SameRowsSameTimes<P>(a: seq<RawRow<P>>, b: seq<RawRow<P>>)
    requires multiset(a) == multiset(b)
    ensures AllTimed(b) ==> AllTimed(a)
  {
    SameMembers(a, b);
    if AllTimed(b) {
      forall i | 0 <= i < |a|
        ensures a[i].recvTs.Some?
      {
        assert a[i] in a;
      }
    }
  }

  /** The series of one token. */
  function SeriesOf<M, S, P(!new)>(rows: seq<RawRow<P>>, mt: Maintainer<M, S, P>, token: Token, interval: int):
    seq<Row<S, P>>
    requires interval > 0 && AllTimed(rows)
  {
    Kept(Entries(FramesOf(rows), mt, token, interval))
  }

  /** The frames of the archive, by receipt. */
  function FramesOf<P(!new)>(rows: seq<RawRow<P>>): seq<Frame<P>>
    requires AllTimed(rows)
  {
    SortedTimed(rows);
    Frames(Sort(rows, ByReceipt))
  }

  method Flush<S, P>(token: Token, out: map<Token, seq<Row<S, P>>>, pending: map<Token, Pending<S, P>>)
    returns (newOut: map<Token, seq<Row<S, P>>>, newPending: map<Token, Pending<S, P>>)
    ensures newPending == pending - {token}
    ensures CellOf(newOut, newPending, token) == Cell(Flushed(CellOf(out, pending, token)), None)
    ensures forall t | t != token :: CellOf(newOut, newPending, t) == CellOf(out, pending, t)
    ensures NoEmptySeries(out) ==> NoEmptySeries(newOut)
  {
    newOut, newPending := out, pending - {token};
    if token in pending {
      var before := if token in out then out[token] else [];
      newOut := out[token := before + [pending[token].row]];
    }
  }

  predicate NoEmptySeries<S, P>(out: map<Token, seq<Row<S, P>>>) {
    forall t | t in out :: out[t] != []
  }

  /** for token in list(pending.keys()): flush(token) */
  method FlushAll<S, P>(out: map<Token, seq<Row<S, P>>>, pending: map<Token, Pending<S, P>>)
    returns (flushed: map<Token, seq<Row<S, P>>>)
    requires NoEmptySeries(out)
    ensures NoEmptySeries(flushed)
    ensures forall t :: CellOf(flushed, map[], t).out == Flushed(CellOf(out, pending, t))
  {
    flushed := out;
    var left := pending;
    while left != map[]
      invariant NoEmptySeries(flushed)
      invariant forall t :: Flushed(CellOf(flushed, left, t)) == Flushed(CellOf(out, pending, t))
      decreases |left|
    {
      var token :| token in left;
      flushed, left := Flush(token, flushed, left);
    }
    assert forall t :: CellOf(flushed, left, t).pending == None;
  }

  lemma NoFramesYet<M, S, P>(rows: seq<RawRow<P>>, mt: Maintainer<M, S, P>, interval: int)
    requires interval > 0
    ensures Frames(rows[..0]) == [] && Maintained([], mt) == mt.empty
    ensures forall t :: Run(Entries([], mt, t, interval)) == Cell([], None)
  {
  }

  lemma FramesSnoc<P>(rows: seq<RawRow<P>>, i: nat)
    requires i < |rows| && AllTimed(rows[..i]) && rows[i].recvTs.Some?
    ensures AllTimed(rows[..i + 1])
    ensures Frames(rows[..i + 1])
         == if rows[i].kind == OtherEvent then Frames(rows[..i])
            else Frames(rows[..i]) + [Frame(rows[i].recvTs.value, rows[i].kind, rows[i].token, rows[i].payload)]
  {
    assert rows[..i + 1][..i] == rows[..i];
  }

  lemma MaintainedSnoc<M, S, P>(frames: seq<Frame<P>>, f: Frame<P>, mt: Maintainer<M, S, P>)
    ensures Maintained(frames + [f], mt) == mt.apply(Maintained(frames, mt), f)
  {
    assert (frames + [f])[..|frames|] == frames;
  }

  lemma RunSnoc<M, S, P>(frames: seq<Frame<P>>, f: Frame<P>, mt: Maintainer<M, S, P>, t: Token, interval: int)
    requires interval > 0
    ensures Run(Entries(frames + [f], mt, t, interval))
         == if f.token != Some(t) then Run(Entries(frames, mt, t, interval))
            else Step(Run(Entries(frames, mt, t, interval)), Label(mt, Maintained(frames, mt), f, t, interval))
  {
    hide Label, Step, Maintained;
    assert (frames + [f])[..|frames|] == frames;
    var entries, e := Entries(frames, mt, t, interval), Label(mt, Maintained(frames, mt), f, t, interval);
    assert (entries + [e])[..|entries|] == entries;
  }

  lemma SeriesFromRun<M, S, P(!new)>(rows: seq<RawRow<P>>, mt: Maintainer<M, S, P>, t: Token, interval: int)
    requires interval > 0 && AllTimed(rows) && AllTimed(Sort(rows, ByReceipt))
    ensures Flushed(Run(Entries(Frames(Sort(rows, ByReceipt)), mt, t, interval))) == SeriesOf(rows, mt, t, interval)
  {
    hide Sort, Frames, Entries, Run, Flushed, Kept;
    ByReceiptOrders<P>();
    SortSorts(rows, ByReceipt);
    FramesInTime(Sort(rows, ByReceipt));
    EntriesAscend(Frames(Sort(rows, ByReceipt)), mt, t, interval);
    MachineKeepsSurvivors(Entries(Frames(Sort(rows, ByReceipt)), mt, t, interval));
  }

  method ReconstructBookSeries<M, S, P(!new)>(rows: seq<RawRow<P>>, roundedMs: int, mt: Maintainer<M, S, P>)
    returns (r: Result<map<Token, seq<Row<S, P>>>, PullError>)
    ensures !AllTimed(rows) ==> r == Err(BadTimestamp)
    ensures AllTimed(rows) ==>
              r.Ok? && NoEmptySeries(r.value)
              && forall t :: CellOf(r.value, map[], t).out == SeriesOf(rows, mt, t, Max(1, roundedMs))
  {
    hide Frames, Entries, Run, Kept, Maintained, Sort, SeriesOf, ByReceipt;
    var interval := Max(1, roundedMs);
    var ordered := Sort(rows, ByReceipt);
    SortedTimed(rows);
    var maintainer := mt.empty;
    var out: map<Token, seq<Row<S, P>>> := map[];
    var pending: map<Token, Pending<S, P>> := map[];
    ghost var frames: seq<Frame<P>> := [];
    NoFramesYet(ordered, mt, interval);
    for i := 0 to |ordered|
      invariant AllTimed(ordered[..i]) && frames == Frames(ordered[..i])
      invariant maintainer == Maintained(frames, mt)
      invariant NoEmptySeries(out)
      invariant forall t :: CellOf(out, pending, t) == Run(Entries(frames, mt, t, interval))
    {
      var raw := ordered[i];
      if raw.recvTs.None? {
        return Err(BadTimestamp);
      }
      FramesSnoc(ordered, i);
      if raw.kind == OtherEvent { continue; }
      var frame := Frame(raw.recvTs.value, raw.kind, raw.token, raw.payload);
      ghost var before := frames;
      frames := frames + [frame];
      forall t
        ensures Run(Entries(frames, mt, t, interval))
             == if frame.token != Some(t) then Run(Entries(before, mt, t, interval))
                else Step(Run(Entries(before, mt, t, interval)), Label(mt, maintainer, frame, t, interval))
      {
        hide *;
        RunSnoc(before, frame, mt, t, interval);
      }
      MaintainedSnoc(before, frame, mt);
      if frame.token.None? {
        maintainer := mt.apply(maintainer, frame);
        continue;
      }
      var token := frame.token.value;
      var bucketId := frame.recvTs / interval;
      var bucketTs := bucketId * interval;
      var pre := mt.state(maintainer, token);
      var preSeeded := pre.Some? && mt.seeded(pre.value);
      var isDelta := frame.kind == PriceChange;
      maintainer := mt.apply(maintainer, frame);
      var post := mt.state(maintainer, token);
      var postSeeded := post.Some? && mt.seeded(post.value);
      if (isDelta && !preSeeded) || (preSeeded && !postSeeded) {
        var reason := if isDelta && !preSeeded then DeltaBeforeSeed else ChecksumOrStaleReseed;
        out, pending := Flush(token, out, pending);
        var sofar := if token in out then out[token] else [];
        out := out[token := sofar + [GapRow(bucketTs, frame, reason)]];
        continue;
      }
      if !postSeeded { continue; }
      if token in pending && pending[token].bucket != bucketId {
        out, pending := Flush(token, out, pending);
      }
      pending := pending[token := Pending(bucketId, SnapshotRow(bucketTs, frame, post.value))];
    }
    assert ordered[..|ordered|] == ordered;
    ghost var cells := (out, pending);
    out := FlushAll(out, pending);
    forall t
      ensures CellOf(out, map[], t).out == SeriesOf(rows, mt, t, interval)
    {
      SeriesFromRun(rows, mt, t, interval);
      assert CellOf(cells.0, cells.1, t) == Run(Entries(frames, mt, t, interval));
    }
    return Ok(out);
  }

  // ---------------------------------------------------------------- what a series promises

  lemma ScaleBuckets(a: int, b: int, interval: int)
    requires interval > 0 && a <= b
    ensures a * interval <= b * interval
  {
  }

  predicate RowsInTime<S, P>(rows: seq<Row<S, P>>) {
    forall i, j | 0 <= i < j < |rows| :: rows[i].ts <= rows[j].ts
  }

  predicate RowsBy<S, P>(rows: seq<Row<S, P>>, t: int) {
    forall i | 0 <= i < |rows| :: rows[i].ts <= t
  }

  lemma RowsSnoc<S, P>(rows: seq<Row<S, P>>, r: Row<S, P>)
    requires RowsInTime(rows) && RowsBy(rows, r.ts)
    ensures RowsInTime(rows + [r]) && RowsBy(rows + [r], r.ts)
  {
  }

  lemma RowsByLater<S, P>(rows: seq<Row<S, P>>, t: int, u: int)
    requires RowsBy(rows, t) && t <= u
    ensures RowsBy(rows, u)
  {
  }

  lemma {:induction false} SurvivorsInTime<S, P>(entries: seq<Entry<S, P>>, k: nat, interval: int)
    requires interval > 0 && Ascending(entries) && k <= |entries| && forall e | e in entries :: Stamped(e, interval)
    ensures RowsInTime(Survivors(entries, k))
    ensures k > 0 ==> RowsBy(Survivors(entries, k), entries[k - 1].bucket * interval)
  {
    hide Survives, RowsInTime, RowsBy;
    NoRows<S, P>(if k > 0 then entries[k - 1].bucket * interval else 0);
    if k > 0 {
      SurvivorsInTime(entries, k - 1, interval);
      assert Stamped(entries[k - 1], interval);
      SurvivingIsStamped(entries, k - 1);
      var before := Survivors(entries, k - 1);
      if k > 1 {
        ScaleBuckets(entries[k - 2].bucket, entries[k - 1].bucket, interval);
        RowsByLater(before, entries[k - 2].bucket * interval, entries[k - 1].bucket * interval);
      }
      if Survives(entries, k - 1) {
        RowsSnoc(before, entries[k - 1].row);
      }
    }
  }

  lemma NoRows<S, P>(t: int)
    ensures RowsInTime<S, P>([]) && RowsBy<S, P>([], t)
  {
  }

  lemma SurvivingIsStamped<S, P>(entries: seq<Entry<S, P>>, i: nat)
    requires i < |entries|
    ensures Survives(entries, i) ==> !entries[i].Ignored?
  {
  }

  /** The timestamps of a token's series never decrease. */
  lemma SeriesInTime<M, S, P(!new)>(rows: seq<RawRow<P>>, mt: Maintainer<M, S, P>, t: Token, interval: int)
    requires interval > 0 && AllTimed(rows)
    ensures RowsInTime(SeriesOf(rows, mt, t, interval))
  {
    hide Sort, Frames, Entries, Survivors, RowsInTime;
    SortedTimed(rows);
    ByReceiptOrders<P>();
    SortSorts(rows, ByReceipt);
    FramesInTime(Sort(rows, ByReceipt));
    var entries := Entries(Frames(Sort(rows, ByReceipt)), mt, t, interval);
    EntriesAscend(Frames(Sort(rows, ByReceipt)), mt, t, interval);
    SurvivorsInTime(entries, |entries|, interval);
  }

  /** Every snapshot's bucket keeps a row: its own or that of a later snapshot of the same bucket and segment. */
  lemma {:induction false} NoBucketIsLost<S, P>(entries: seq<Entry<S, P>>, i: nat) returns (j: nat)
    requires i < |entries| && entries[i].Snapshot?
    ensures i <= j < |entries| && Survives(entries, j) && entries[j].Snapshot? && entries[j].bucket == entries[i].bucket
    ensures forall k | i <= k <= j :: !entries[k].Gap?
    ensures entries[j].row in Kept(entries)
    decreases |entries| - i
  {
    if Survives(entries, i) {
      j := i;
      SurvivorsKept(entries, i, |entries|);
    } else {
      var next: nat :| i < next < |entries| && Replaces(entries, i, next);
      j := NoBucketIsLost(entries, next);
    }
  }

  lemma {:induction false} SurvivorsKept<S, P>(entries: seq<Entry<S, P>>, i: nat, k: nat)
    requires i < k <= |entries| && Survives(entries, i)
    ensures entries[i].row in Survivors(entries, k)
  {
    hide Survives;
    if i < k - 1 {
      SurvivorsKept(entries, i, k - 1);
    }
  }

  /** A bucket has one row per segment: two surviving snapshots of a bucket have a gap between them. */
  lemma OneRowPerBucket<S, P>(entries: seq<Entry<S, P>>, i: nat, j: nat)
    requires i < j < |entries| && entries[i].Snapshot? && entries[j].Snapshot?
    requires Survives(entries, i) && Survives(entries, j) && entries[i].bucket == entries[j].bucket
    ensures exists k | i < k < j :: entries[k].Gap?
  {
    assert !Replaces(entries, i, j);
  }

  /** How many of the frames are of this token. */
  function CountOf<P>(frames: seq<Frame<P>>, t: Token): nat {
    if frames == [] then 0
    else CountOf(frames[..|frames| - 1], t) + if frames[|frames| - 1].token == Some(t) then 1 else 0
  }

  lemma {:induction false} CountGrows<P>(frames: seq<Frame<P>>, t: Token, k: nat, m: nat)
    requires k < m <= |frames| && frames[k].token == Some(t)
    ensures CountOf(frames[..k], t) < CountOf(frames[..m], t)
  {
    assert frames[..m][..m - 1] == frames[..m - 1];
    if k < m - 1 {
      CountGrows(frames, t, k, m - 1);
    }
  }

  /** The entry of a frame of the token is its label. */
  lemma {:induction false} EntryOfFrame<M, S, P>(frames: seq<Frame<P>>, mt: Maintainer<M, S, P>, t: Token,
                                                 interval: int, k: nat)
    requires interval > 0 && k < |frames| && frames[k].token == Some(t)
    ensures |Entries(frames, mt, t, interval)| == CountOf(frames, t)
    ensures CountOf(frames[..k], t) < CountOf(frames, t)
    ensures Entries(frames, mt, t, interval)[CountOf(frames[..k], t)]
         == Label(mt, Maintained(frames[..k], mt), frames[k], t, interval)
  {
    hide Label, Maintained;
    var n := |frames| - 1;
    EntriesCounted(frames[..n], mt, t, interval);
    if k < n {
      EntryOfFrame(frames[..n], mt, t, interval, k);
      assert frames[..n][..k] == frames[..k];
    }
  }

  lemma {:induction false} EntriesCounted<M, S, P>(frames: seq<Frame<P>>, mt: Maintainer<M, S, P>, t: Token,
                                                   interval: int)
    requires interval > 0
    ensures |Entries(frames, mt, t, interval)| == CountOf(frames, t)
  {
    hide Label, Maintained;
    if frames != [] {
      EntriesCounted(frames[..|frames| - 1], mt, t, interval);
    }
  }

  lemma {:induction false} EntryOrigin<M, S, P>(frames: seq<Frame<P>>, mt: Maintainer<M, S, P>, t: Token, interval: int,
                                                i: nat) returns (k: nat)
    requires interval > 0 && i < |Entries(frames, mt, t, interval)|
    ensures k < |frames| && frames[k].token == Some(t) && i == CountOf(frames[..k], t)
    ensures Entries(frames, mt, t, interval)[i] == Label(mt, Maintained(frames[..k], mt), frames[k], t, interval)
  {
    hide Label, Maintained;
    var n := |frames| - 1;
    if i < |Entries(frames[..n], mt, t, interval)| {
      k := EntryOrigin(frames[..n], mt, t, interval, i);
      assert frames[..n][..k] == frames[..k];
    } else {
      k := n;
      EntriesCounted(frames[..n], mt, t, interval);
    }
  }

  lemma {:induction false} SurvivorOrigin<S, P>(entries: seq<Entry<S, P>>, k: nat, r: nat) returns (i: nat)
    requires k <= |entries| && r < |Survivors(entries, k)|
    ensures i < k && !entries[i].Ignored? && Survivors(entries, k)[r] == entries[i].row
  {
    hide Survives;
    SurvivingIsStamped(entries, k - 1);
    if r < |Survivors(entries, k - 1)| {
      i := SurvivorOrigin(entries, k - 1, r);
    } else {
      i := k - 1;
    }
  }

  lemma BucketHolds(t: int, interval: int)
    requires interval > 0
    ensures t / interval * interval <= t < t / interval * interval + interval
  {
  }

  /** The token's book before a frame, and after it. */
  function BookBefore<M, S, P>(frames: seq<Frame<P>>, mt: Maintainer<M, S, P>, t: Token, k: nat): Option<S>
    requires k <= |frames|
  {
    mt.state(Maintained(frames[..k], mt), t)
  }

  /** A seeded book is there before frame k (that is, after frame k - 1). */
  predicate HasBook<M, S, P>(frames: seq<Frame<P>>, mt: Maintainer<M, S, P>, t: Token, k: nat)
    requires k <= |frames|
  {
    BookBefore(frames, mt, t, k).Some? && mt.seeded(BookBefore(frames, mt, t, k).value)
  }

  /** A frame of the token that finds no book to change, or that loses the one there was. */
  predicate BreaksBook<M, S, P>(frames: seq<Frame<P>>, mt: Maintainer<M, S, P>, t: Token, k: nat)
    requires k < |frames|
  {
    && frames[k].token == Some(t)
    && if HasBook(frames, mt, t, k) then !HasBook(frames, mt, t, k + 1) else frames[k].kind == PriceChange
  }

  lemma LabelMeans<M, S, P>(frames: seq<Frame<P>>, mt: Maintainer<M, S, P>, t: Token, interval: int, k: nat)
    requires interval > 0 && k < |frames| && frames[k].token == Some(t)
    ensures var e := Label(mt, Maintained(frames[..k], mt), frames[k], t, interval);
            var bucket := frames[k].recvTs / interval;
            && e.bucket == bucket && (e.Gap? <==> BreaksBook(frames, mt, t, k))
            && (e.Gap? ==>
                  e.row == GapRow(bucket * interval, frames[k],
                                  if HasBook(frames, mt, t, k) then ChecksumOrStaleReseed else DeltaBeforeSeed))
            && (e.Snapshot? <==> !BreaksBook(frames, mt, t, k) && HasBook(frames, mt, t, k + 1))
            && (e.Snapshot? ==>
                  e.row == SnapshotRow(bucket * interval, frames[k], BookBefore(frames, mt, t, k + 1).value))
  {
    hide Maintained;
    MaintainedSnoc(frames[..k], frames[k], mt);
    assert frames[..k + 1] == frames[..k] + [frames[k]];
  }

  /**
   Every row comes from a frame of its token received in its bucket. A snapshot row is the seeded book right
   after that frame; a gap row marks a delta that found no book, or a frame that lost one.
   */
  lemma RowsAreHonest<M, S, P(!new)>(rows: seq<RawRow<P>>, mt: Maintainer<M, S, P>, t: Token, interval: int, r: nat)
    returns (k: nat)
    requires interval > 0 && AllTimed(rows) && r < |SeriesOf(rows, mt, t, interval)|
    ensures k < |FramesOf(rows)| && FramesOf(rows)[k].token == Some(t)
    ensures var row, frames := SeriesOf(rows, mt, t, interval)[r], FramesOf(rows);
            var before, after := mt.state(Maintained(frames[..k], mt), t), mt.state(Maintained(frames[..k + 1], mt), t);
            && row.frame == frames[k] && row.ts <= frames[k].recvTs < row.ts + interval
            && match row
               case SnapshotRow(_, _, book) => after == Some(book) && mt.seeded(book)
               case GapRow(_, _, DeltaBeforeSeed) => frames[k].kind == PriceChange && !Seeded(mt, before)
               case GapRow(_, _, ChecksumOrStaleReseed) => Seeded(mt, before) && !Seeded(mt, after)
  {
    hide Entries, Survivors, Maintained, FramesOf;
    var frames := FramesOf(rows);
    var entries := Entries(frames, mt, t, interval);
    var i := SurvivorOrigin(entries, |entries|, r);
    k := EntryOrigin(frames, mt, t, interval, i);
    BucketHolds(frames[k].recvTs, interval);
    MaintainedSnoc(frames[..k], frames[k], mt);
    assert frames[..k + 1] == frames[..k] + [frames[k]];
  }

  /** The rows follow the order of their frames. */
  lemma RowsFollowFrames<M, S, P(!new)>(rows: seq<RawRow<P>>, mt: Maintainer<M, S, P>, t: Token, interval: int,
                                        r: nat, s: nat)
    returns (k: nat, m: nat)
    requires interval > 0 && AllTimed(rows) && r < s < |SeriesOf(rows, mt, t, interval)|
    ensures k < m < |FramesOf(rows)| && FramesOf(rows)[k].token == FramesOf(rows)[m].token == Some(t)
    ensures SeriesOf(rows, mt, t, interval)[r].frame == FramesOf(rows)[k]
    ensures SeriesOf(rows, mt, t, interval)[s].frame == FramesOf(rows)[m]
  {
    hide Entries, Survivors, Maintained, FramesOf;
    var frames := FramesOf(rows);
    var entries := Entries(frames, mt, t, interval);
    var i, j := SurvivorsInOrder(entries, |entries|, r, s);
    k := EntryOrigin(frames, mt, t, interval, i);
    m := EntryOrigin(frames, mt, t, interval, j);
    LabelMeans(frames, mt, t, interval, k);
    LabelMeans(frames, mt, t, interval, m);
    if m < k {
      CountGrows(frames, t, m, k);
    }
  }

  lemma {:induction false} SurvivorsInOrder<S, P>(entries: seq<Entry<S, P>>, k: nat, r: nat, s: nat)
    returns (i: nat, j: nat)
    requires k <= |entries| && r < s < |Survivors(entries, k)|
    ensures i < j < k && !entries[i].Ignored? && !entries[j].Ignored?
    ensures Survivors(entries, k)[r] == entries[i].row && Survivors(entries, k)[s] == entries[j].row
  {
    hide Survives;
    SurvivingIsStamped(entries, k - 1);
    if s < |Survivors(entries, k - 1)| {
      i, j := SurvivorsInOrder(entries, k - 1, r, s);
    } else {
      i := SurvivorOrigin(entries, k - 1, r);
      j := k - 1;
    }
  }

  /** Every frame of the token that breaks its book yields a gap row. */
  lemma BreaksAreReported<M, S, P(!new)>(rows: seq<RawRow<P>>, mt: Maintainer<M, S, P>, t: Token, interval: int, k: nat)
    requires interval > 0 && AllTimed(rows) && k < |FramesOf(rows)| && BreaksBook(FramesOf(rows), mt, t, k)
    ensures var frames := FramesOf(rows);
            GapRow(frames[k].recvTs / interval * interval, frames[k],
                   if HasBook(frames, mt, t, k) then ChecksumOrStaleReseed else DeltaBeforeSeed)
            in SeriesOf(rows, mt, t, interval)
  {
    hide Label, Maintained, HasBook, FramesOf;
    var frames := FramesOf(rows);
    var entries := Entries(frames, mt, t, interval);
    EntryOfFrame(frames, mt, t, interval, k);
    LabelMeans(frames, mt, t, interval, k);
    SurvivorsKept(entries, CountOf(frames[..k], t), |entries|);
  }

  /**
   Every other frame of the token that leaves a seeded book has a snapshot row of its bucket: its own, or that of a
   later frame with no break in between.
   */
  lemma BooksAreReported<M, S, P(!new)>(rows: seq<RawRow<P>>, mt: Maintainer<M, S, P>, t: Token, interval: int, k: nat)
    returns (m: nat)
    requires interval > 0 && AllTimed(rows) && k < |FramesOf(rows)| && FramesOf(rows)[k].token == Some(t)
    requires !BreaksBook(FramesOf(rows), mt, t, k) && HasBook(FramesOf(rows), mt, t, k + 1)
    ensures var frames := FramesOf(rows);
            && k <= m < |frames| && frames[m].token == Some(t) && HasBook(frames, mt, t, m + 1)
            && frames[m].recvTs / interval == frames[k].recvTs / interval
            && (forall l | k <= l <= m :: !BreaksBook(frames, mt, t, l))
            && SnapshotRow(frames[m].recvTs / interval * interval, frames[m], BookBefore(frames, mt, t, m + 1).value)
               in SeriesOf(rows, mt, t, interval)
  {
    hide Label, Maintained, HasBook, Entries, Survives, Kept, FramesOf;
    var frames := FramesOf(rows);
    var entries, i := Entries(frames, mt, t, interval), CountOf(frames[..k], t);
    EntryOfFrame(frames, mt, t, interval, k);
    LabelMeans(frames, mt, t, interval, k);
    var j := NoBucketIsLost(entries, i);
    m := EntryOrigin(frames, mt, t, interval, j);
    LabelMeans(frames, mt, t, interval, m);
    if m < k {
      CountGrows(frames, t, m, k);
    }
    forall l | k <= l <= m
      ensures !BreaksBook(frames, mt, t, l)
    {
      if frames[l].token == Some(t) {
        EntryOfFrame(frames, mt, t, interval, l);
        LabelMeans(frames, mt, t, interval, l);
        if k < l {
          CountGrows(frames, t, k, l);
        }
        if l < m {
          CountGrows(frames, t, l, m);
        }
      }
    }
  }
}
