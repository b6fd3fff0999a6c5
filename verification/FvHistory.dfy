/**
 The fair-value history of scripts/maker/live_monitor.py: two parallel lists kept ascending and
 deduplicated while arrivals come out of order, and the at-or-before lookup of veridex/maker/tape.py.
 */
module FvHistory {
  import opened Prelude

  // ---------------------------------------------------------------- the bisect library

  method BisectLeft(ts: seq<int>, t: int) returns (pos: nat)
    requires StrictlyAscending(ts)
    ensures pos <= |ts| && (forall i | 0 <= i < pos :: ts[i] < t) && forall i | pos <= i < |ts| :: ts[i] >= t
  {
    var lo, hi := 0, |ts|;
    while lo < hi
      invariant 0 <= lo <= hi <= |ts|
      invariant forall i | 0 <= i < lo :: ts[i] < t
      invariant forall i | hi <= i < |ts| :: ts[i] >= t
    {
      var mid := (lo + hi) / 2;
      if ts[mid] < t { lo := mid + 1; } else { hi := mid; }
    }
    pos := lo;
  }

  method BisectRight(ts: seq<int>, t: int) returns (pos: nat)
    requires forall i, j | 0 <= i < j < |ts| :: ts[i] <= ts[j]
    ensures pos <= |ts| && (forall i | 0 <= i < pos :: ts[i] <= t) && forall i | pos <= i < |ts| :: ts[i] > t
  {
    var lo, hi := 0, |ts|;
    while lo < hi
      invariant 0 <= lo <= hi <= |ts|
      invariant forall i | 0 <= i < lo :: ts[i] <= t
      invariant forall i | hi <= i < |ts| :: ts[i] > t
    {
      var mid := (lo + hi) / 2;
      if t < ts[mid] { hi := mid; } else { lo := mid + 1; }
    }
    pos := lo;
  }

  // ---------------------------------------------------------------- what the lists stand for

  predicate Has(ts: seq<int>, t: int) {
    exists i | 0 <= i < |ts| :: ts[i] == t
  }

  /** The lists are the entries of m in ascending order of time. */
  ghost predicate IsLayout(ts: seq<int>, vals: seq<real>, m: map<int, real>) {
    && |ts| == |vals| && StrictlyAscending(ts)
    && (forall i | 0 <= i < |ts| :: ts[i] in m && m[ts[i]] == vals[i])
    && forall t | t in m :: Has(ts, t)
  }

  lemma ReplaceLayout(ts: seq<int>, vals: seq<real>, m: map<int, real>, pos: nat, value: real)
    requires IsLayout(ts, vals, m) && pos < |ts|
    ensures IsLayout(ts, vals[pos := value], m[ts[pos] := value])
  {
  }

  lemma InsertLayout(ts: seq<int>, vals: seq<real>, m: map<int, real>, pos: nat, t: int, value: real)
    requires IsLayout(ts, vals, m) && pos <= |ts|
    requires (forall i | 0 <= i < pos :: ts[i] < t) && forall i | pos <= i < |ts| :: ts[i] > t
    ensures IsLayout(InsertAt(ts, pos, t), InsertAt(vals, pos, value), m[t := value])
  {
    hide InsertAt;
    var ts', vals' := InsertAt(ts, pos, t), InsertAt(vals, pos, value);
    forall u | u in m[t := value]
      ensures Has(ts', u)
    {
      if u == t {
        assert ts'[pos] == u;
      } else {
        var i :| 0 <= i < |ts| && ts[i] == u;
        assert ts'[if i < pos then i else i + 1] == u;
      }
    }
  }

  /** list.insert */
  function InsertAt<T>(s: seq<T>, pos: nat, x: T): (r: seq<T>)
    requires pos <= |s|
    ensures |r| == |s| + 1 && r[pos] == x
    ensures forall i | 0 <= i < pos :: r[i] == s[i]
    ensures forall i | pos < i < |r| :: r[i] == s[i - 1]
    ensures forall i | pos <= i < |s| :: r[i + 1] == s[i]
  {
    s[..pos] + [x] + s[pos..]
  }

  /** t is the most recent timestamp at or before the tick. */
  ghost predicate Nearest(m: map<int, real>, tick: int, t: int) {
    t in m && t <= tick && forall u | u in m && u <= tick :: u <= t
  }

  /** r is the aligned value and its staleness, or None when nothing is at or before, or too stale. */
  ghost predicate Aligned(m: map<int, real>, tick: int, freshness: int, r: Option<(real, int)>) {
    match r
    case Some((value, staleness)) =>
      Nearest(m, tick, tick - staleness) && value == m[tick - staleness] && staleness <= freshness
    case None => forall t :: Nearest(m, tick, t) ==> tick - t > freshness
  }

  class History {
    var ts: seq<int>
    var vals: seq<real>
    ghost var contents: map<int, real>

    ghost predicate Valid()
      reads this
    {
      IsLayout(ts, vals, contents)
    }

    constructor ()
      ensures Valid() && contents == map[]
    {
      ts, vals, contents := [], [], map[];
    }

    /** Insert keeping the lists ascending; a timestamp already there takes the new value. */
    method Insort(t: int, value: real)
      requires Valid()
      modifies this
      ensures Valid() && contents == old(contents)[t := value]
    {
      var pos := BisectLeft(ts, t);
      if pos < |ts| && ts[pos] == t {
        ReplaceLayout(ts, vals, contents, pos, value);
        vals := vals[pos := value];
      } else {
        InsertLayout(ts, vals, contents, pos, t, value);
        ts := InsertAt(ts, pos, t);
        vals := InsertAt(vals, pos, value);
      }
      contents := contents[t := value];
    }

    method AlignedMid(tick: int, freshness: int) returns (r: Option<(real, int)>)
      requires Valid()
      ensures Aligned(contents, tick, freshness, r)
    {
      var pos := BisectRight(ts, tick);
      if pos == 0 { return None; }
      var staleness := tick - ts[pos - 1];
      assert Nearest(contents, tick, ts[pos - 1]);
      if staleness > freshness { return None; }
      return Some((vals[pos - 1], staleness));
    }
  }

  // ---------------------------------------------------------------- arrivals

  /** The arrivals folded into a map, the last of a timestamp winning. */
  function Arrive(m: map<int, real>, arrivals: seq<(int, real)>): map<int, real> {
    if arrivals == [] then m
    else Arrive(m, arrivals[..|arrivals| - 1])[arrivals[|arrivals| - 1].0 := arrivals[|arrivals| - 1].1]
  }

  /** Any arrival sequence leaves the lists ascending and equal to the last-arrival-wins map. */
  method Consume(h: History, arrivals: seq<(int, real)>)
    requires h.Valid()
    modifies h
    ensures h.Valid() && h.contents == Arrive(old(h.contents), arrivals)
  {
    assert arrivals[..0] == [];
    for k := 0 to |arrivals|
      invariant h.Valid() && h.contents == Arrive(old(h.contents), arrivals[..k])
    {
      assert arrivals[..k + 1][..k] == arrivals[..k];
      h.Insort(arrivals[k].0, arrivals[k].1);
    }
    assert arrivals[..|arrivals|] == arrivals;
  }

  lemma DropLastEntry(ts: seq<int>, vals: seq<real>, m: map<int, real>)
    requires IsLayout(ts, vals, m) && ts != []
    ensures var n := |ts| - 1;
            IsLayout(ts[..n], vals[..n], m - {ts[n]}) && forall t | t in m :: t <= ts[n]
  {
    var n := |ts| - 1;
    forall t | t in m - {ts[n]}
      ensures Has(ts[..n], t)
    {
      var i :| 0 <= i < |ts| && ts[i] == t;
      assert ts[..n][i] == t;
    }
  }

  lemma LastEntryIsUnique(ts: seq<int>, vals: seq<real>, ts': seq<int>, vals': seq<real>, m: map<int, real>)
    requires IsLayout(ts, vals, m) && IsLayout(ts', vals', m)
    ensures |ts| == |vals| && |ts'| == |vals'| && (ts == [] <==> ts' == [])
    ensures ts != [] ==> ts[|ts| - 1] == ts'[|ts'| - 1] && vals[|vals| - 1] == vals'[|vals'| - 1]
  {
    BothHaveEntries(ts, vals, ts', vals', m);
    BothHaveEntries(ts', vals', ts, vals, m);
    if ts != [] {
      DropLastEntry(ts, vals, m);
      DropLastEntry(ts', vals', m);
    }
  }

  lemma BothHaveEntries(ts: seq<int>, vals: seq<real>, ts': seq<int>, vals': seq<real>, m: map<int, real>)
    requires IsLayout(ts, vals, m) && IsLayout(ts', vals', m)
    ensures ts != [] ==> ts' != []
  {
    if ts != [] {
      assert Has(ts', ts[0]);
    }
  }

  /** The lists are determined by the map: there is one ascending layout of it. */
  lemma {:induction false} LayoutIsUnique(ts: seq<int>, vals: seq<real>, ts': seq<int>, vals': seq<real>,
                                         m: map<int, real>)
    requires IsLayout(ts, vals, m) && IsLayout(ts', vals', m)
    ensures ts == ts' && vals == vals'
  {
    hide IsLayout;
    LastEntryIsUnique(ts, vals, ts', vals', m);
    if ts != [] {
      var n, n' := |ts| - 1, |ts'| - 1;
      DropLastEntry(ts, vals, m);
      DropLastEntry(ts', vals', m);
      LayoutIsUnique(ts[..n], vals[..n], ts'[..n'], vals'[..n'], m - {ts[n]});
      TakeDropAt(ts, n);
      TakeDropAt(ts', n');
      TakeDropAt(vals, n);
      TakeDropAt(vals', n');
    }
  }

  predicate DistinctTimes(arrivals: seq<(int, real)>) {
    forall i, j | 0 <= i < j < |arrivals| :: arrivals[i].0 != arrivals[j].0
  }

  lemma {:induction false} ArriveValue(m: map<int, real>, arrivals: seq<(int, real)>, t: int)
    requires DistinctTimes(arrivals)
    ensures t in Arrive(m, arrivals) <==> t in m || exists i | 0 <= i < |arrivals| :: arrivals[i].0 == t
    ensures forall i | 0 <= i < |arrivals| && arrivals[i].0 == t ::
              t in Arrive(m, arrivals) && Arrive(m, arrivals)[t] == arrivals[i].1
    ensures (forall i | 0 <= i < |arrivals| :: arrivals[i].0 != t) && t in m ==>
              t in Arrive(m, arrivals) && Arrive(m, arrivals)[t] == m[t]
  {
    if arrivals != [] {
      var n := |arrivals| - 1;
      ArriveValue(m, arrivals[..n], t);
      assert forall i | 0 <= i < n :: arrivals[..n][i] == arrivals[i];
    }
  }

  /** Arrivals with distinct timestamps commute: any order of them leaves the same history. */
  lemma DistinctArrivalsCommute(m: map<int, real>, a: seq<(int, real)>, b: seq<(int, real)>)
    requires multiset(a) == multiset(b) && DistinctTimes(a) && DistinctTimes(b)
    ensures Arrive(m, a) == Arrive(m, b)
  {
    assert forall x :: x in a <==> x in multiset(a);
    assert forall x :: x in b <==> x in multiset(b);
    forall t
      ensures t in Arrive(m, a) <==> t in Arrive(m, b)
      ensures t in Arrive(m, a) ==> Arrive(m, a)[t] == Arrive(m, b)[t]
    {
      ArriveValue(m, a, t);
      ArriveValue(m, b, t);
      if i :| 0 <= i < |a| && a[i].0 == t {
        assert a[i] in b;
        var j :| 0 <= j < |b| && b[j] == a[i];
      }
      if j :| 0 <= j < |b| && b[j].0 == t {
        assert b[j] in a;
        var i :| 0 <= i < |a| && a[i] == b[j];
      }
    }
  }

  // ---------------------------------------------------------------- no look-ahead

  /** The lookup has one answer. */
  lemma AlignedIsUnique(m: map<int, real>, tick: int, freshness: int, r: Option<(real, int)>, r': Option<(real, int)>)
    requires Aligned(m, tick, freshness, r) && Aligned(m, tick, freshness, r')
    ensures r == r'
  {
    if r.Some? {
      assert Nearest(m, tick, tick - r.value.1);
    }
    if r'.Some? {
      assert Nearest(m, tick, tick - r'.value.1);
    }
  }

  lemma {:induction false} LaterArrivalsAreAbsent(m: map<int, real>, arrivals: seq<(int, real)>, tick: int, t: int)
    requires (forall i | 0 <= i < |arrivals| :: arrivals[i].0 > tick) && t <= tick
    ensures t in Arrive(m, arrivals) <==> t in m
    ensures t in m ==> Arrive(m, arrivals)[t] == m[t]
  {
    if arrivals != [] {
      LaterArrivalsAreAbsent(m, arrivals[..|arrivals| - 1], tick, t);
    }
  }

  /** Whatever arrives for later timestamps, the lookup at a tick answers the same. */
  lemma NoLookAhead(m: map<int, real>, arrivals: seq<(int, real)>, tick: int, freshness: int, r: Option<(real, int)>)
    requires forall i | 0 <= i < |arrivals| :: arrivals[i].0 > tick
    ensures Aligned(Arrive(m, arrivals), tick, freshness, r) <==> Aligned(m, tick, freshness, r)
  {
    var after := Arrive(m, arrivals);
    forall t | t <= tick
      ensures t in after <==> t in m
      ensures t in m ==> after[t] == m[t]
    {
      LaterArrivalsAreAbsent(m, arrivals, tick, t);
    }
    assert forall t :: Nearest(after, tick, t) <==> Nearest(m, tick, t);
  }
}
