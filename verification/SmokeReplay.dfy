/**
 The acceptance verdict of run_public_ws_smoke in scripts/smoke_public_ws.py: fetch the canonical
 event tail, read one event on a first connection, reconnect after it, and demand exactly the rest.
 A connection is the list of events it delivers and what it does afterwards.
 */
module SmokeReplay {
  import opened Prelude

  datatype Event = Event(seqNo: int, content: string)

  datatype Ending = StaysQuiet | Closes

  datatype Delivery = Delivery(events: seq<Event>, ending: Ending)

  datatype SmokeError =
    | TooManyEvents | TooFewEvents | NotStrictlyAscending | Timeout | ConnectionClosed
    | FirstEventMismatch | UnexpectedExtra | TailMismatch | DuplicateSequence

  datatype SmokeResult = SmokeResult(firstSeq: int, replayedSeqs: seq<int>)

  const MAX_CANONICAL_EVENTS := 10_000

  function Seqs(events: seq<Event>): (r: seq<int>)
    ensures |r| == |events| && forall i | 0 <= i < |r| :: r[i] == events[i].seqNo
  {
    seq(|events|, i requires 0 <= i < |events| => events[i].seqNo)
  }

  predicate Canonical(events: seq<Event>) {
    2 <= |events| <= MAX_CANONICAL_EVENTS && StrictlyAscending(Seqs(events))
  }

  /**
   The server passed: the first connection opens with the first canonical event, and the reconnect
   delivers all the others, in order and unchanged, and then nothing until the quiet timeout.
   */
  predicate Proven(canonical: seq<Event>, first: Delivery, second: Delivery, deadlineLimited: bool) {
    && Canonical(canonical)
    && first.events != [] && first.events[0] == canonical[0]
    && second == Delivery(canonical[1..], StaysQuiet)
    && !deadlineLimited
  }

  /** seqs != sorted(seqs) or a repeat: one pass over neighbours decides both. */
  method ValidateCanonical(events: seq<Event>) returns (error: Option<SmokeError>)
    ensures error == None
       <==> 2 <= |events| <= 10_000 && forall i, j | 0 <= i < j < |events| :: events[i].seqNo < events[j].seqNo
    ensures error.Some? ==>
              error.value == if |events| > 10_000 then TooManyEvents
                             else if |events| < 2 then TooFewEvents else NotStrictlyAscending
  {
    if |events| > MAX_CANONICAL_EVENTS { return Some(TooManyEvents); }
    if |events| < 2 { return Some(TooFewEvents); }
    var s := Seqs(events);
    for k := 1 to |s|
      invariant StrictlyAscending(s[..k])
    {
      if s[k] <= s[k - 1] {
        assert s[k - 1] < s[k] || !StrictlyAscending(s);
        return Some(NotStrictlyAscending);
      }
      assert forall i | 0 <= i < k :: s[i] <= s[..k][k - 1];
    }
    assert s[..|s|] == s;
    return None;
  }

  /** The first connection opened with the first canonical event. */
  predicate Opened(canonical: seq<Event>, first: Delivery) {
    Canonical(canonical) && first.events != [] && first.events[0] == canonical[0]
  }

  method Next(d: Delivery, position: nat) returns (r: Result<Event, SmokeError>)
    requires position <= |d.events|
    ensures position < |d.events| ==> r == Ok(d.events[position])
    ensures position == |d.events| ==>
              r == Err(match d.ending case StaysQuiet => Timeout case Closes => ConnectionClosed)
  {
    if position < |d.events| { return Ok(d.events[position]); }
    return Err(match d.ending case StaysQuiet => Timeout case Closes => ConnectionClosed);
  }

  /** [event for event in canonical if event["seq"] > first_seq] */
  method MissingTail(canonical: seq<Event>, firstSeq: int) returns (tail: seq<Event>)
    requires Canonical(canonical) && canonical[0].seqNo == firstSeq
    ensures tail == canonical[1..]
  {
    assert forall i | 0 < i < |canonical| :: Seqs(canonical)[0] < Seqs(canonical)[i];
    tail := [];
    for k := 0 to |canonical|
      invariant tail == if k == 0 then [] else canonical[1..k]
    {
      if canonical[k].seqNo > firstSeq {
        tail := tail + [canonical[k]];
      }
    }
  }

  /** Success is exactly Proven, and then the reported sequences are all the canonical ones, in order. */
  method RunPublicWsSmoke(canonical: seq<Event>, first: Delivery, second: Delivery, deadlineLimited: bool)
    returns (r: Result<SmokeResult, SmokeError>)
    ensures r.Ok? <==> Proven(canonical, first, second, deadlineLimited)
    ensures r.Ok? ==> [r.value.firstSeq] + r.value.replayedSeqs == Seqs(canonical)
    ensures r.Err? ==>
              match r.error
              case TooManyEvents => |canonical| > 10_000
              case TooFewEvents => |canonical| < 2
              case NotStrictlyAscending => 2 <= |canonical| <= 10_000 && !Canonical(canonical)
              case FirstEventMismatch => Canonical(canonical) && first.events != [] && first.events[0] != canonical[0]
              case UnexpectedExtra => Opened(canonical, first) && |second.events| >= |canonical|
              case TailMismatch =>
                Opened(canonical, first) && |second.events| == |canonical| - 1 && second.events != canonical[1..]
                && second.ending.StaysQuiet? && !deadlineLimited
              case ConnectionClosed =>
                Canonical(canonical)
                && (first == Delivery([], Closes)
                    || (Opened(canonical, first) && |second.events| < |canonical| && second.ending.Closes?))
              case Timeout =>
                Canonical(canonical)
                && (first == Delivery([], StaysQuiet)
                    || (Opened(canonical, first) && second.ending.StaysQuiet?
                        && (|second.events| < |canonical| - 1
                            || (|second.events| == |canonical| - 1 && deadlineLimited))))
              case DuplicateSequence => false
  {
    var invalid := ValidateCanonical(canonical);
    if invalid.Some? { return Err(invalid.value); }
    var opening := Next(first, 0);
    if opening.Err? { return Err(opening.error); }
    if opening.value != canonical[0] { return Err(FirstEventMismatch); }
    var firstSeq := opening.value.seqNo;
    var expectedTail := MissingTail(canonical, firstSeq);
    var replayed: seq<Event> := [];
    for k := 0 to |expectedTail|
      invariant |second.events| >= k && replayed == second.events[..k]
    {
      var event := Next(second, k);
      if event.Err? { return Err(event.error); }
      replayed := replayed + [event.value];
    }
    var extra := Next(second, |expectedTail|);
    if extra.Ok? { return Err(UnexpectedExtra); }
    if extra.error != Timeout { return Err(extra.error); }
    if deadlineLimited { return Err(Timeout); }
    if replayed != expectedTail { return Err(TailMismatch); }
    var combined := [firstSeq] + Seqs(replayed);
    assert combined == Seqs(canonical);
    if exists i, j | 0 <= i < j < |combined| :: combined[i] == combined[j] {
      return Err(DuplicateSequence);
    }
    return Ok(SmokeResult(firstSeq, Seqs(replayed)));
  }
}
