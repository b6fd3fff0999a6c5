/**
 Message reassembly in scripts/smoke_public_ws.py: a text message is one opcode-1 frame and any
 number of continuations (RFC 6455 section 5.4), with pings and pongs anywhere between them
 (section 5.5). The grammar below says what a server may send; the two main lemmas say that `recv`
 accepts exactly that grammar.
 */
module Messages {
  import opened Prelude
  import opened Frames

  type Utf8 = seq<byte> -> Option<string>

  datatype RecvError =
    | Closed | InterruptedMessage | UnsupportedOpcode | MessageTooBig | NotUtf8
    | FrameFault(fault: FrameError)

  /** How one recv ends: the text or the failure, the unread bytes, and the pings answered on the way. */
  datatype RecvOutcome = Outcome(result: Result<string, RecvError>, rest: seq<byte>, pings: seq<seq<byte>>)

  /** The loop of recv, from any point of it. */
  function RecvFrom(input: seq<byte>, maxSize: nat, utf8: Utf8,
                    started: bool, message: seq<byte>, pings: seq<seq<byte>>): RecvOutcome
    decreases |input|
  {
    match ParseFrame(input, maxSize)
    case Refused(e, rest) => Outcome(Err(FrameFault(e)), rest, pings)
    case Got(f, rest) =>
      if f.opcode == OP_CLOSE then Outcome(Err(Closed), rest, pings)
      else if f.opcode == OP_PING then RecvFrom(rest, maxSize, utf8, started, message, pings + [f.payload])
      else if f.opcode == OP_PONG then RecvFrom(rest, maxSize, utf8, started, message, pings)
      else if f.opcode == OP_TEXT && started then Outcome(Err(InterruptedMessage), rest, pings)
      else if f.opcode == OP_TEXT || (f.opcode == OP_CONTINUATION && started) then
        var m := message + f.payload;
        if |m| > maxSize then Outcome(Err(MessageTooBig), rest, pings)
        else if !f.final then RecvFrom(rest, maxSize, utf8, true, m, pings)
        else
          match utf8(m)
          case None => Outcome(Err(NotUtf8), rest, pings)
          case Some(text) => Outcome(Ok(text), rest, pings)
      else Outcome(Err(UnsupportedOpcode), rest, pings)
  }

  function Recv(input: seq<byte>, maxSize: nat, utf8: Utf8): RecvOutcome {
    RecvFrom(input, maxSize, utf8, false, [], [])
  }

  // ---------------------------------------------------------------- what a server may send

  /** A frame together with the length form the server chose for it. */
  datatype Chosen = Sent(frame: Frame, form: LengthForm)

  type Sent = s: Chosen | WellFormed(s.frame, s.form) witness Chosen.Sent(Frame(true, OP_TEXT, []), Short)

  /** Frames that finish one message: data frames in order, pings and pongs anywhere before the last. */
  predicate Completes(frames: seq<Sent>, started: bool) {
    && frames != []
    && var f := frames[0].frame;
       if IsControl(f) then (f.opcode == OP_PING || f.opcode == OP_PONG) && Completes(frames[1..], started)
       else
         && f.opcode == (if started then OP_CONTINUATION else OP_TEXT)
         && (if f.final then |frames| == 1 else Completes(frames[1..], true))
  }

  predicate AllReadable(frames: seq<Sent>, maxSize: nat) {
    forall i | 0 <= i < |frames| :: Admissible(frames[i].frame, maxSize)
  }

  /** The payloads of the data frames, joined. */
  function Body(frames: seq<Sent>): seq<byte> {
    if frames == [] then []
    else (if IsControl(frames[0].frame) then [] else frames[0].frame.payload) + Body(frames[1..])
  }

  function Pings(frames: seq<Sent>): seq<seq<byte>> {
    if frames == [] then []
    else (if frames[0].frame.opcode == OP_PING then [frames[0].frame.payload] else []) + Pings(frames[1..])
  }

  function Wire(frames: seq<Sent>): seq<byte>
  {
    if frames == [] then [] else EncodeServer(frames[0].frame, frames[0].form) + Wire(frames[1..])
  }

  /** One message a server may send to a client with this bound, and the text it carries. */
  predicate IsMessage(frames: seq<Sent>, maxSize: nat, utf8: Utf8, text: string) {
    && Completes(frames, false) && AllReadable(frames, maxSize)
    && |Body(frames)| <= maxSize && utf8(Body(frames)) == Some(text)
  }

  // ---------------------------------------------------------------- recv accepts exactly the grammar

  lemma RecvControl(input: seq<byte>, f: Frame, rest: seq<byte>, maxSize: nat, utf8: Utf8,
                    started: bool, message: seq<byte>, pings: seq<seq<byte>>)
    requires ParseFrame(input, maxSize) == Got(f, rest) && (f.opcode == OP_PING || f.opcode == OP_PONG)
    ensures RecvFrom(input, maxSize, utf8, started, message, pings)
         == RecvFrom(rest, maxSize, utf8, started, message, if f.opcode == OP_PING then pings + [f.payload] else pings)
  {
  }

  lemma RecvData(input: seq<byte>, f: Frame, rest: seq<byte>, maxSize: nat, utf8: Utf8,
                 started: bool, message: seq<byte>, pings: seq<seq<byte>>)
    requires ParseFrame(input, maxSize) == Got(f, rest)
    requires f.opcode == (if started then OP_CONTINUATION else OP_TEXT) && |message + f.payload| <= maxSize
    requires f.final ==> utf8(message + f.payload).Some?
    ensures RecvFrom(input, maxSize, utf8, started, message, pings)
         == if f.final then Outcome(Ok(utf8(message + f.payload).value), rest, pings)
            else RecvFrom(rest, maxSize, utf8, true, message + f.payload, pings)
  {
  }

  lemma {:induction false} RecvOfFrames(frames: seq<Sent>, tail: seq<byte>, maxSize: nat, utf8: Utf8,
                                        started: bool, message: seq<byte>, pings: seq<seq<byte>>)
    requires Completes(frames, started) && AllReadable(frames, maxSize)
    requires |message + Body(frames)| <= maxSize && utf8(message + Body(frames)).Some?
    ensures RecvFrom(Wire(frames) + tail, maxSize, utf8, started, message, pings)
         == Outcome(Ok(utf8(message + Body(frames)).value), tail, pings + Pings(frames))
    decreases |frames|
  {
    hide ParseFrame, EncodeServer, RecvFrom;
    var f, more := frames[0].frame, frames[1..];
    var input, rest := Wire(frames) + tail, Wire(more) + tail;
    ParseEncoded(f, frames[0].form, rest, maxSize);
    ConcatAssociative(EncodeServer(f, frames[0].form), Wire(more), tail);
    if IsControl(f) {
      assert Body(frames) == Body(more);
      var answered := if f.opcode == OP_PING then pings + [f.payload] else pings;
      RecvControl(input, f, rest, maxSize, utf8, started, message, pings);
      RecvOfFrames(more, tail, maxSize, utf8, started, message, answered);
      PingsOfCons(pings, frames);
    } else {
      assert Pings(frames) == Pings(more);
      ConcatAssociative(message, f.payload, Body(more));
      if f.final {
        assert more == [] && Body(frames) == f.payload;
      }
      RecvData(input, f, rest, maxSize, utf8, started, message, pings);
      if f.final {
        assert pings + [] == pings && rest == tail;
      } else {
        RecvOfFrames(more, tail, maxSize, utf8, true, message + f.payload, pings);
      }
    }
  }

  lemma PingsOfCons(pings: seq<seq<byte>>, frames: seq<Sent>)
    requires frames != []
    ensures pings + Pings(frames)
         == (if frames[0].frame.opcode == OP_PING then pings + [frames[0].frame.payload] else pings)
            + Pings(frames[1..])
  {
  }

  lemma {:induction false} FramesOfRecv(input: seq<byte>, maxSize: nat, utf8: Utf8,
                                        started: bool, message: seq<byte>, pings: seq<seq<byte>>)
    returns (frames: seq<Sent>)
    requires RecvFrom(input, maxSize, utf8, started, message, pings).result.Ok?
    ensures Completes(frames, started) && AllReadable(frames, maxSize)
    ensures |message + Body(frames)| <= maxSize
    ensures var o := RecvFrom(input, maxSize, utf8, started, message, pings);
            input == Wire(frames) + o.rest && o.pings == pings + Pings(frames)
            && utf8(message + Body(frames)) == Some(o.result.value)
    decreases |input|
  {
    hide ParseFrame, EncodeServer;
    var Got(f, rest) := ParseFrame(input, maxSize);
    var form := ParsedWasEncoded(input, maxSize);
    var o := RecvFrom(input, maxSize, utf8, started, message, pings);
    var more: seq<Sent> := [];
    if IsControl(f) {
      RecvControl(input, f, rest, maxSize, utf8, started, message, pings);
      more := FramesOfRecv(rest, maxSize, utf8, started, message,
                           if f.opcode == OP_PING then pings + [f.payload] else pings);
    } else if !f.final {
      more := FramesOfRecv(rest, maxSize, utf8, true, message + f.payload, pings);
    }
    frames := [Chosen.Sent(f, form)] + more;
    assert frames[1..] == more;
    hide RecvFrom;
    PingsOfCons(pings, frames);
    ConcatAssociative(EncodeServer(f, form), Wire(more), o.rest);
    ConcatAssociative(message, f.payload, Body(more));
    if !IsControl(f) && f.final {
      assert Body(frames) == f.payload && pings + [] == pings;
      assert Wire(frames) == EncodeServer(f, form);
    } else if IsControl(f) {
      assert Body(frames) == Body(more);
    }
  }

  /**
   recv returns a text if and only if the reader starts with the wire form of a message carrying it;
   it then stops right after that message and has answered exactly its pings.
   */
  lemma RecvAcceptsExactlyMessages(input: seq<byte>, maxSize: nat, utf8: Utf8,
                                   text: string, tail: seq<byte>, pings: seq<seq<byte>>)
    ensures Recv(input, maxSize, utf8) == Outcome(Ok(text), tail, pings)
        <==> exists frames :: IsMessage(frames, maxSize, utf8, text)
                              && input == Wire(frames) + tail && pings == Pings(frames)
  {
    if Recv(input, maxSize, utf8) == Outcome(Ok(text), tail, pings) {
      var frames := FramesOfRecv(input, maxSize, utf8, false, [], []);
      assert [] + Body(frames) == Body(frames) && [] + Pings(frames) == Pings(frames);
      assert IsMessage(frames, maxSize, utf8, text);
    }
    forall frames | IsMessage(frames, maxSize, utf8, text)
                    && input == Wire(frames) + tail && pings == Pings(frames)
      ensures Recv(input, maxSize, utf8) == Outcome(Ok(text), tail, pings)
    {
      assert [] + Body(frames) == Body(frames) && [] + Pings(frames) == Pings(frames);
      RecvOfFrames(frames, tail, maxSize, utf8, false, [], []);
    }
  }

  // ---------------------------------------------------------------- how recv fails

  /** Frames that leave a message open: its data frames so far are not final; `after` says whether it has begun. */
  predicate Opens(frames: seq<Sent>, started: bool, after: bool) {
    if frames == [] then after == started
    else
      var f := frames[0].frame;
      if f.opcode == OP_PING || f.opcode == OP_PONG then Opens(frames[1..], started, after)
      else f.opcode == (if started then OP_CONTINUATION else OP_TEXT) && !f.final && Opens(frames[1..], true, after)
  }

  /** What comes next cannot be taken into the message so far, for this reason, and leaves `rest` unread. */
  predicate Breaks(next: seq<byte>, maxSize: nat, utf8: Utf8, started: bool, message: seq<byte>,
                   e: RecvError, rest: seq<byte>)
  {
    match ParseFrame(next, maxSize)
    case Refused(fault, left) => e == FrameFault(fault) && rest == left
    case Got(f, left) =>
      var data := f.opcode == if started then 0x0 else 0x1;
      rest == left
      && match e
         case FrameFault(_) => false
         case Closed => f.opcode == 0x8
         case InterruptedMessage => f.opcode == 0x1 && started
         case UnsupportedOpcode => !data && f.opcode != 0x1 && f.opcode != 0x8 && f.opcode != 0x9 && f.opcode != 0xA
         case MessageTooBig => data && |message| + |f.payload| > maxSize
         case NotUtf8 => data && f.final && |message| + |f.payload| <= maxSize && utf8(message + f.payload) == None
  }

  /** The input is frames that leave the message open, answered up to there, and then something that breaks it. */
  predicate FailsAfter(frames: seq<Sent>, started: bool, next: seq<byte>, input: seq<byte>, maxSize: nat, utf8: Utf8,
                       e: RecvError, rest: seq<byte>, pings: seq<seq<byte>>)
  {
    && Opens(frames, false, started) && AllReadable(frames, maxSize) && |Body(frames)| <= maxSize
    && input == Wire(frames) + next && pings == Pings(frames)
    && Breaks(next, maxSize, utf8, started, Body(frames), e, rest)
  }

  lemma BreaksExactly(next: seq<byte>, maxSize: nat, utf8: Utf8, started: bool, message: seq<byte>,
                      pings: seq<seq<byte>>, e: RecvError, rest: seq<byte>)
    requires Breaks(next, maxSize, utf8, started, message, e, rest)
    ensures RecvFrom(next, maxSize, utf8, started, message, pings) == Outcome(Err(e), rest, pings)
  {
    hide ParseFrame;
  }

  lemma {:induction false} RecvPastOpen(frames: seq<Sent>, tail: seq<byte>, maxSize: nat, utf8: Utf8, started: bool,
                                        after: bool, message: seq<byte>, pings: seq<seq<byte>>)
    requires Opens(frames, started, after) && AllReadable(frames, maxSize) && |message + Body(frames)| <= maxSize
    ensures RecvFrom(Wire(frames) + tail, maxSize, utf8, started, message, pings)
         == RecvFrom(tail, maxSize, utf8, after, message + Body(frames), pings + Pings(frames))
    decreases |frames|
  {
    hide ParseFrame, EncodeServer, RecvFrom;
    if frames == [] {
      assert Wire(frames) + tail == tail && message + [] == message && pings + [] == pings;
    } else {
      var f, more := frames[0].frame, frames[1..];
      var input, rest := Wire(frames) + tail, Wire(more) + tail;
      ParseEncoded(f, frames[0].form, rest, maxSize);
      ConcatAssociative(EncodeServer(f, frames[0].form), Wire(more), tail);
      PingsOfCons(pings, frames);
      if IsControl(f) {
        assert Body(frames) == Body(more);
        var answered := if f.opcode == OP_PING then pings + [f.payload] else pings;
        RecvControl(input, f, rest, maxSize, utf8, started, message, pings);
        RecvPastOpen(more, tail, maxSize, utf8, started, after, message, answered);
      } else {
        ConcatAssociative(message, f.payload, Body(more));
        RecvData(input, f, rest, maxSize, utf8, started, message, pings);
        RecvPastOpen(more, tail, maxSize, utf8, true, after, message + f.payload, pings);
      }
    }
  }

  lemma {:induction false} FramesBeforeFailure(input: seq<byte>, maxSize: nat, utf8: Utf8, started: bool,
                                               message: seq<byte>, pings: seq<seq<byte>>)
    returns (frames: seq<Sent>, after: bool, next: seq<byte>)
    requires RecvFrom(input, maxSize, utf8, started, message, pings).result.Err? && |message| <= maxSize
    ensures Opens(frames, started, after) && AllReadable(frames, maxSize) && |message + Body(frames)| <= maxSize
    ensures input == Wire(frames) + next
    ensures var o := RecvFrom(input, maxSize, utf8, started, message, pings);
            o.pings == pings + Pings(frames)
            && Breaks(next, maxSize, utf8, after, message + Body(frames), o.result.error, o.rest)
    decreases |input|
  {
    hide ParseFrame, EncodeServer;
    var parsed := ParseFrame(input, maxSize);
    var goesOn := parsed.Got? && (parsed.frame.opcode == OP_PING || parsed.frame.opcode == OP_PONG
                                  || (parsed.frame.opcode == (if started then OP_CONTINUATION else OP_TEXT)
                                      && !parsed.frame.final && |message + parsed.frame.payload| <= maxSize));
    if !goesOn {
      frames, after, next := [], started, input;
      assert message + [] == message && pings + [] == pings;
    } else {
      var Got(f, rest) := parsed;
      var form := ParsedWasEncoded(input, maxSize);
      var more: seq<Sent>;
      var control := f.opcode == OP_PING || f.opcode == OP_PONG;
      if control {
        RecvControl(input, f, rest, maxSize, utf8, started, message, pings);
        more, after, next := FramesBeforeFailure(rest, maxSize, utf8, started, message,
                                                 if f.opcode == OP_PING then pings + [f.payload] else pings);
      } else {
        RecvData(input, f, rest, maxSize, utf8, started, message, pings);
        more, after, next := FramesBeforeFailure(rest, maxSize, utf8, true, message + f.payload, pings);
      }
      hide RecvFrom, Breaks;
      frames := [Chosen.Sent(f, form)] + more;
      assert frames[1..] == more;
      PingsOfCons(pings, frames);
      ConcatAssociative(EncodeServer(f, form), Wire(more), next);
      ConcatAssociative(message, f.payload, Body(more));
      assert control ==> Body(frames) == Body(more);
    }
  }

  /**
   recv fails in one way exactly when the reader starts with frames that leave a message open and then has
   something that gives that failure; it has answered the pings up to there.
   */
  lemma RecvFailsExactly(input: seq<byte>, maxSize: nat, utf8: Utf8, e: RecvError, rest: seq<byte>,
                         pings: seq<seq<byte>>)
    ensures Recv(input, maxSize, utf8) == Outcome(Err(e), rest, pings)
        <==> exists frames, started, next :: FailsAfter(frames, started, next, input, maxSize, utf8, e, rest, pings)
  {
    hide RecvFrom, Breaks, Wire, Body, Pings, Opens;
    if Recv(input, maxSize, utf8) == Outcome(Err(e), rest, pings) {
      var frames, started, next := FramesBeforeFailure(input, maxSize, utf8, false, [], []);
      assert [] + Body(frames) == Body(frames) && [] + Pings(frames) == Pings(frames);
      assert FailsAfter(frames, started, next, input, maxSize, utf8, e, rest, pings);
    }
    forall frames, started, next | FailsAfter(frames, started, next, input, maxSize, utf8, e, rest, pings)
      ensures Recv(input, maxSize, utf8) == Outcome(Err(e), rest, pings)
    {
      assert [] + Body(frames) == Body(frames) && [] + Pings(frames) == Pings(frames);
      RecvPastOpen(frames, next, maxSize, utf8, false, started, [], []);
      BreaksExactly(next, maxSize, utf8, started, Body(frames), Pings(frames), e, rest);
    }
  }

  // ---------------------------------------------------------------- whole conversations

  /** The texts received, the failure that ended it if any, the unread bytes and every ping answered. */
  datatype Conversation =
    Conversation(texts: seq<string>, failure: Option<RecvError>, rest: seq<byte>, pings: seq<seq<byte>>)

  /** What `count` successive calls of recv see, up to the first failure. */
  function RecvMany(input: seq<byte>, maxSize: nat, utf8: Utf8, count: nat): Conversation
    decreases count
  {
    if count == 0 then Conversation([], None, input, [])
    else
      match Recv(input, maxSize, utf8)
      case Outcome(Err(e), rest, pings) => Conversation([], Some(e), rest, pings)
      case Outcome(Ok(text), rest, pings) => Preceded(text, pings, RecvMany(rest, maxSize, utf8, count - 1))
  }

  function Preceded(text: string, pings: seq<seq<byte>>, c: Conversation): Conversation {
    c.(texts := [text] + c.texts, pings := pings + c.pings)
  }

  /** A stream of messages back to back. */
  function Stream(messages: seq<seq<Sent>>): seq<byte>
  {
    if messages == [] then [] else Wire(messages[0]) + Stream(messages[1..])
  }

  function AllPings(messages: seq<seq<Sent>>): seq<seq<byte>> {
    if messages == [] then [] else Pings(messages[0]) + AllPings(messages[1..])
  }

  lemma RecvManyStep(input: seq<byte>, maxSize: nat, utf8: Utf8, count: nat,
                     text: string, rest: seq<byte>, pings: seq<seq<byte>>)
    requires count > 0 && Recv(input, maxSize, utf8) == Outcome(Ok(text), rest, pings)
    ensures RecvMany(input, maxSize, utf8, count) == Preceded(text, pings, RecvMany(rest, maxSize, utf8, count - 1))
  {
  }

  lemma {:induction false} RecvPastStream(messages: seq<seq<Sent>>, texts: seq<string>, tail: seq<byte>, maxSize: nat,
                                          utf8: Utf8, more: nat)
    requires |messages| == |texts|
    requires forall i | 0 <= i < |messages| :: IsMessage(messages[i], maxSize, utf8, texts[i])
    ensures var c := RecvMany(tail, maxSize, utf8, more);
            RecvMany(Stream(messages) + tail, maxSize, utf8, |messages| + more)
            == Conversation(texts + c.texts, c.failure, c.rest, AllPings(messages) + c.pings)
    decreases |messages|
  {
    hide Recv, IsMessage, Wire, Pings;
    var c := RecvMany(tail, maxSize, utf8, more);
    if messages == [] {
      assert Stream(messages) + tail == tail && [] + c.texts == c.texts && [] + c.pings == c.pings;
    } else {
      var m, others := messages[0], messages[1..];
      var rest := Stream(others) + tail;
      ConcatAssociative(Wire(m), Stream(others), tail);
      RecvAcceptsExactlyMessages(Wire(m) + rest, maxSize, utf8, texts[0], rest, Pings(m));
      RecvPastStream(others, texts[1..], tail, maxSize, utf8, more);
      RecvManyStep(Wire(m) + rest, maxSize, utf8, |messages| + more, texts[0], rest, Pings(m));
      assert texts == [texts[0]] + texts[1..];
      ConcatAssociative([texts[0]], texts[1..], c.texts);
      ConcatAssociative(Pings(m), AllPings(others), c.pings);
    }
  }

  /** Every message of a stream comes back, once and in order, and every ping is answered in order. */
  lemma StreamIsReceivedInOrder(messages: seq<seq<Sent>>, texts: seq<string>, tail: seq<byte>, maxSize: nat, utf8: Utf8)
    requires |messages| == |texts|
    requires forall i | 0 <= i < |messages| :: IsMessage(messages[i], maxSize, utf8, texts[i])
    ensures RecvMany(Stream(messages) + tail, maxSize, utf8, |messages|)
         == Conversation(texts, None, tail, AllPings(messages))
  {
    hide IsMessage, Recv, Stream, AllPings;
    RecvPastStream(messages, texts, tail, maxSize, utf8, 0);
    assert texts + [] == texts && AllPings(messages) + [] == AllPings(messages);
  }

  /** Where the stream breaks, the conversation ends: with every text and pong before it, and the failure. */
  lemma BrokenStreamKeepsItsTexts(messages: seq<seq<Sent>>, texts: seq<string>, tail: seq<byte>, maxSize: nat,
                                  utf8: Utf8, more: nat, e: RecvError, rest: seq<byte>, pings: seq<seq<byte>>)
    requires |messages| == |texts| && more > 0 && Recv(tail, maxSize, utf8) == Outcome(Err(e), rest, pings)
    requires forall i | 0 <= i < |messages| :: IsMessage(messages[i], maxSize, utf8, texts[i])
    ensures RecvMany(Stream(messages) + tail, maxSize, utf8, |messages| + more)
         == Conversation(texts, Some(e), rest, AllPings(messages) + pings)
  {
    hide IsMessage, Recv, Stream, AllPings;
    RecvPastStream(messages, texts, tail, maxSize, utf8, more);
    assert texts + [] == texts;
  }
}
