/**
 Any number of config rewrites in flight on the Postgres rows of veridex/store.py. A rewrite reads the blob
 without locking the row and later writes it back with the riders it read, so the row then descends from
 what was read, and what happened in between is off its line. The binding a competition ends with is the
 earliest freeze on that line; the first freeze of all is lost exactly when a rewrite on it steps over.
 */
module ConfigRewrites {
  import opened Prelude
  import opened Competitions
  import opened CompetitionRows

  /** A whole transaction, or one half of a config rewrite by a numbered writer. */
  datatype Event = Whole(call: Call) | Read(writer: nat, id: string) | Write(writer: nat, config: Config)

  datatype Remembered = Remembered(id: string, riders: Riders)

  /** The rows, and what each rewrite between its read and its write remembers. */
  datatype World = World(rows: Rows, held: map<nat, Remembered>)

  predicate Sound(w: World) {
    AllReadable(w.rows) && forall n | n in w.held :: w.held[n].id in w.rows
  }

  /** Reading an absent row raises, which ends the rewrite; a write without a read does not happen. */
  function StepEvent(w: World, e: Event): (after: World)
    requires Sound(w)
    ensures Sound(after)
  {
    match e
    case Whole(call) =>
      StepSimulates(w.rows, call);
      w.(rows := StepRows(w.rows, call).0)
    case Read(n, id) =>
      w.(held := if id in w.rows then w.held[n := Remembered(id, ReadRiders(w.rows[id]))] else w.held - {n})
    case Write(n, config) =>
      if n !in w.held then w
      else
        var r := w.held[n];
        WrittenRiders(w.rows[r.id], config, r.riders);
        World(w.rows[r.id := WriteConfig(w.rows[r.id], config, r.riders)], w.held - {n})
  }

  function After(rows: Rows, events: seq<Event>): (w: World)
    requires AllReadable(rows)
    ensures Sound(w)
  {
    if events == [] then World(rows, map[])
    else StepEvent(After(rows, events[..|events| - 1]), events[|events| - 1])
  }

  // ---------------------------------------------------------------- the line of descent

  /** When the writer made the read it has not yet written after. */
  function ReadAt(events: seq<Event>, writer: nat): (at: Option<nat>)
    ensures at.Some? ==> at.value < |events| && events[at.value].Read? && events[at.value].writer == writer
  {
    if events == [] then None
    else
      var k := |events| - 1;
      match events[k]
      case Read(n, _) => if n == writer then Some(k) else ReadAt(events[..k], writer)
      case Write(n, _) => if n == writer then None else ReadAt(events[..k], writer)
      case Whole(_) => ReadAt(events[..k], writer)
  }

  /** The moment whose row the last event builds on: the read of a rewrite, or the moment before. */
  function Parent(events: seq<Event>, id: string): (p: nat)
    requires events != []
    ensures p < |events|
  {
    var k := |events| - 1;
    match events[k]
    case Write(n, _) =>
      var at := ReadAt(events[..k], n);
      if at.Some? && events[at.value].id == id then at.value else k
    case _ => k
  }

  /** The moments the row of id descends from, as numbers of events; the last one is now. */
  function Line(events: seq<Event>, id: string): (line: set<nat>)
    ensures forall n | n in line :: n <= |events|
    decreases |events|
  {
    if events == [] then {0} else {|events|} + Line(events[..Parent(events, id)], id)
  }

  predicate Freezes(e: Event, id: string) {
    e.Whole? && e.call.FreezeBinding? && e.call.id == id
  }

  /** The earliest freeze on the line. */
  function BoundBy(events: seq<Event>, id: string): (f: Option<nat>)
    ensures f.Some? ==> f.value < |events| && Freezes(events[f.value], id)
    decreases |events|
  {
    if events == [] then None
    else
      var earlier := BoundBy(events[..Parent(events, id)], id);
      if earlier == None && Freezes(events[|events| - 1], id) then Some(|events| - 1) else earlier
  }

  lemma {:induction false} BoundByEarliest(events: seq<Event>, id: string)
    ensures match BoundBy(events, id)
            case None => forall g | 0 <= g < |events| && g + 1 in Line(events, id) :: !Freezes(events[g], id)
            case Some(f) => f + 1 in Line(events, id)
                            && forall g | 0 <= g < f && g + 1 in Line(events, id) :: !Freezes(events[g], id)
    decreases |events|
  {
    if events != [] {
      BoundByEarliest(events[..Parent(events, id)], id);
    }
  }

  // ---------------------------------------------------------------- what the row ends with

  lemma {:induction false} RowsStay(rows: Rows, events: seq<Event>, id: string)
    requires AllReadable(rows) && id in rows
    ensures id in After(rows, events).rows
  {
    hide Readable, WriteConfig, Build, Apply, ApplyRow;
    if events != [] {
      RowsStay(rows, events[..|events| - 1], id);
    }
  }

  /** A whole transaction keeps the riders but for the first freeze. */
  lemma RidersStep(rows: Rows, call: Call, id: string)
    requires AllReadable(rows) && id in rows
    ensures var after := StepRows(rows, call).0;
            && id in after && Readable(after[id]) && OwnerOf(after[id].configJson) == OwnerOf(rows[id].configJson)
            && BindingOf(after[id].configJson)
               == if BindingOf(rows[id].configJson).None? && Freezes(Whole(call), id) then Some(call.binding)
                  else BindingOf(rows[id].configJson)
  {
    hide Competitions.Step, StepRows;
    StepSimulates(rows, call);
    BindingStep(Abstraction(rows), call, id);
    assert id in Abstraction(StepRows(rows, call).0);
  }

  lemma HeldAfter(w: World, e: Event, writer: nat)
    requires Sound(w)
    ensures var held := StepEvent(w, e).held;
            if e.Read? && e.writer == writer then
              (writer in held <==> e.id in w.rows)
              && (writer in held ==> held[writer] == Remembered(e.id, ReadRiders(w.rows[e.id])))
            else
              (writer in held <==> writer in w.held && !(e.Write? && e.writer == writer))
              && (writer in held ==> held[writer] == w.held[writer])
  {
    hide Readable, WriteConfig, StepRows, ReadRiders;
  }

  /** What a writer remembers of id is what the row held at its read. */
  lemma {:induction false} Remembers(rows: Rows, events: seq<Event>, writer: nat, id: string)
    requires AllReadable(rows) && id in rows
    ensures var (held, at) := (After(rows, events).held, ReadAt(events, writer));
            && (writer in held && held[writer].id == id <==> at.Some? && events[at.value].id == id)
            && (writer in held && held[writer].id == id ==>
                  RidersAt(rows, events[..at.value], id) == held[writer].riders)
  {
    hide Readable, StepEvent, ReadRiders;
    if events != [] {
      var k := |events| - 1;
      Remembers(rows, events[..k], writer, id);
      RowsStay(rows, events[..k], id);
      HeldAfter(After(rows, events[..k]), events[k], writer);
      var at := ReadAt(events[..k], writer);
      if at.Some? {
        assert events[..k][..at.value] == events[..at.value];
      }
    }
  }

  function RidersAt(rows: Rows, events: seq<Event>, id: string): Riders
    requires AllReadable(rows) && id in rows
  {
    RowsStay(rows, events, id);
    ReadRiders(After(rows, events).rows[id])
  }

  /** The row after an event has the riders of its parent moment, unless that was unbound and the event freezes it. */
  lemma RidersOfParent(rows: Rows, events: seq<Event>, id: string)
    requires AllReadable(rows) && id in rows && events != []
    ensures var was := RidersAt(rows, events[..Parent(events, id)], id);
            RidersAt(rows, events, id)
            == if was.binding == None && Freezes(events[|events| - 1], id)
               then was.(binding := Some(events[|events| - 1].call.binding)) else was
  {
    hide Readable, WriteConfig, StepRows, ReadAt;
    var k := |events| - 1;
    var before := After(rows, events[..k]);
    RowsStay(rows, events[..k], id);
    match events[k]
    case Whole(call) =>
      RidersStep(before.rows, call, id);
    case Read(_, _) =>
    case Write(n, config) =>
      Remembers(rows, events[..k], n, id);
      if n in before.held {
        WrittenRiders(before.rows[before.held[n].id], config, before.held[n].riders);
      }
      assert ReadAt(events[..k], n).Some? ==>
          events[..k][..ReadAt(events[..k], n).value] == events[..ReadAt(events[..k], n).value];
  }

  /**
   However whole transactions and the halves of any number of rewrites interleave, the owner is kept, a row
   bound from the start stays bound as it was, and any other is bound by the earliest freeze on its line.
   */
  lemma {:induction false} RewritesBindByLine(rows: Rows, events: seq<Event>, id: string)
    requires AllReadable(rows) && id in rows
    ensures var (start, end) := (RidersAt(rows, [], id), RidersAt(rows, events, id));
            && end.owner == start.owner
            && end.binding == if start.binding.Some? then start.binding
                              else match BoundBy(events, id)
                                   case None => None
                                   case Some(f) => Some(events[f].call.binding)
    decreases |events|
  {
    hide After, ReadRiders, Parent;
    if events != [] {
      RidersOfParent(rows, events, id);
      RewritesBindByLine(rows, events[..Parent(events, id)], id);
    }
  }

  // ---------------------------------------------------------------- losing the first freeze

  predicate FirstFreeze(events: seq<Event>, f: nat, id: string) {
    f < |events| && Freezes(events[f], id) && forall g | 0 <= g < f :: !Freezes(events[g], id)
  }

  /** A rewrite on the line that read before event f and wrote after it. */
  predicate SteppedOver(events: seq<Event>, f: nat, id: string) {
    exists n | n in Line(events, id) && 0 < n <= |events| :: Parent(events[..n], id) <= f < n - 1
  }

  lemma {:induction false} OnLineOrSteppedOver(events: seq<Event>, f: nat, id: string)
    requires f < |events|
    ensures f + 1 in Line(events, id) <==> !SteppedOver(events, f, id)
    decreases |events|
  {
    hide Parent;
    var p := Parent(events, id);
    assert events[..|events|] == events;
    assert forall n | 0 <= n <= p :: events[..p][..n] == events[..n];
    if p <= f < |events| - 1 {
      assert |events| in Line(events, id);
    } else if f < p {
      OnLineOrSteppedOver(events[..p], f, id);
    }
  }

  /**
   The first binding frozen onto an unbound row is lost exactly when a rewrite on the row's line of descent
   read before that freeze and wrote after it. The row is then unbound, or bound by a later freeze.
   */
  lemma FirstFreezeLostExactly(rows: Rows, events: seq<Event>, f: nat, id: string)
    requires AllReadable(rows) && id in rows && RidersAt(rows, [], id).binding == None && FirstFreeze(events, f, id)
    ensures !SteppedOver(events, f, id) ==> RidersAt(rows, events, id).binding == Some(events[f].call.binding)
    ensures SteppedOver(events, f, id) ==>
              RidersAt(rows, events, id).binding == None
              || exists g | f < g < |events| && Freezes(events[g], id) ::
                   RidersAt(rows, events, id).binding == Some(events[g].call.binding)
  {
    hide After, Line, BoundBy, RidersAt, SteppedOver;
    RewritesBindByLine(rows, events, id);
    BoundByEarliest(events, id);
    OnLineOrSteppedOver(events, f, id);
  }

  /** When no later freeze repeats it, that reads: the binding is gone exactly when it was stepped over. */
  lemma LostExactlyWhenSteppedOver(rows: Rows, events: seq<Event>, f: nat, id: string)
    requires AllReadable(rows) && id in rows && RidersAt(rows, [], id).binding == None && FirstFreeze(events, f, id)
    requires forall g | f < g < |events| && Freezes(events[g], id) :: events[g].call.binding != events[f].call.binding
    ensures RidersAt(rows, events, id).binding != Some(events[f].call.binding) <==> SteppedOver(events, f, id)
  {
    hide RidersAt, SteppedOver;
    FirstFreezeLostExactly(rows, events, f, id);
  }

  /** Two rewrites around one freeze: the first to write loses the binding, and the second brings it back. */
  lemma LostAndBroughtBack(rows: Rows, id: string, binding: Binding, c: Config, d: Config)
    requires AllReadable(rows) && id in rows && RidersAt(rows, [], id).binding == None
    ensures var events := [Read(0, id), Whole(FreezeBinding(id, binding)), Read(1, id), Write(0, c), Write(1, d)];
            && SteppedOver(events[..4], 1, id) && RidersAt(rows, events[..4], id).binding == None
            && !SteppedOver(events, 1, id) && RidersAt(rows, events, id).binding == Some(binding)
  {
    hide After, Readable, RidersAt, ReadAt, Parent, Line, SteppedOver;
    var events := [Read(0, id), Whole(FreezeBinding(id, binding)), Read(1, id), Write(0, c), Write(1, d)];
    FiveParents(id, FreezeBinding(id, binding), c, d);
    FirstFreezeLostExactly(rows, events, 1, id);
    RidersOfParent(rows, events[..4], id);
    RidersOfParent(rows, events, id);
    assert events[..4][..0] == [];
    OnLineOrSteppedOver(events, 1, id);
    OnLineOrSteppedOver(events[..4], 1, id);
  }

  lemma FiveParents(id: string, freeze: Call, c: Config, d: Config)
    ensures var events := [Read(0, id), Whole(freeze), Read(1, id), Write(0, c), Write(1, d)];
            && events[..5] == events && Parent(events, id) == 2 && Parent(events[..4], id) == 0
            && 2 in Line(events, id) && 2 !in Line(events[..4], id)
  {
    var events := [Read(0, id), Whole(freeze), Read(1, id), Write(0, c), Write(1, d)];
    assert events[..4] == [Read(0, id), Whole(freeze), Read(1, id), Write(0, c)];
    assert events[..4][..3] == [Read(0, id), Whole(freeze), Read(1, id)];
    assert [Read(0, id), Whole(freeze), Read(1, id)][..2] == [Read(0, id), Whole(freeze)];
    assert [Read(0, id), Whole(freeze)][..1] == [Read(0, id)];
    assert ReadAt([Read(0, id)], 0) == Some(0);
    assert ReadAt([Read(0, id), Whole(freeze)], 0) == Some(0);
    assert ReadAt(events[..4][..3], 0) == Some(0);
    assert ReadAt(events[..4][..3], 1) == Some(2);
    assert ReadAt(events[..4], 1) == Some(2);
    assert events[..4][..0] == [];
    assert Line(events[..4], id) == {4, 0};
    assert events[..2] == [Read(0, id), Whole(freeze)];
  }
}
