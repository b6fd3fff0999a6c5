/**
 The connection object of scripts/smoke_public_ws.py. The transport is two byte buffers: what the
 peer has sent and is not yet read, and what this side has written.
 */
module WebSocketConnection {
  import opened Prelude
  import opened Frames
  import opened Messages

  function Pong(payload: seq<byte>): Frame {
    Frame(true, OP_PONG, payload)
  }

  /** The peer, decoding everything written so far, has seen `sent` on top of what it saw before. */
  predicate Wrote(before: seq<byte>, after: seq<byte>, sent: seq<Frame>) {
    before <= after && ClientFrames(after[|before|..]) == Some(sent)
  }

  lemma WroteMore(a: seq<byte>, b: seq<byte>, c: seq<byte>, first: seq<Frame>, second: seq<Frame>)
    requires Wrote(a, b, first) && Wrote(b, c, second)
    ensures Wrote(a, c, first + second)
  {
    hide ClientFrames;
    assert c[|a|..] == b[|a|..] + c[|b|..];
    ClientFramesConcat(b[|a|..], c[|b|..]);
  }

  lemma WroteNothing(output: seq<byte>)
    ensures Wrote(output, output, Map([], Pong))
  {
    assert output + [] == output;
  }

  lemma {:induction false} WroteMorePongs(a: seq<byte>, b: seq<byte>, c: seq<byte>,
                                         first: seq<seq<byte>>, second: seq<seq<byte>>)
    requires Wrote(a, b, Map(first, Pong)) && Wrote(b, c, Map(second, Pong))
    ensures Wrote(a, c, Map(first + second, Pong))
  {
    WroteMore(a, b, c, Map(first, Pong), Map(second, Pong));
    MapConcat(first, second, Pong);
  }

  /**
   What a client frame looks like on the wire: one final frame of this opcode, the length in its shortest form,
   four mask bytes, and then every bit of the payload xor the bit of the mask byte its position picks.
   */
  predicate IsClientWire(wire: seq<byte>, opcode: nat, payload: seq<byte>) {
    var n := |payload|;
    var h := if n < 126 then 2 else if n < 0x1_0000 then 4 else 10;
    && |wire| == h + 4 + n && wire[0] == 0x80 + opcode && wire[1] >= 128 && Announces(wire, n, h)
    && forall i, b: nat | 0 <= i < n && b < 8 ::
         Bit(wire[h + 4 + i], b) <==> Bit(payload[i], b) != Bit(wire[h + i % 4], b)
  }

  function HeaderSize(n: nat): nat {
    if n < 126 then 2 else if n < 0x1_0000 then 4 else 10
  }

  /** The shortest length form that holds n. */
  function Shortest(n: nat): LengthForm {
    if n < 126 then Short else if n < 0x1_0000 then Medium else Long
  }

  lemma EncodedParts(f: Frame, key: seq<byte>)
    requires f.opcode < 16 && FitsForm(|f.payload|, Shortest(|f.payload|)) && |key| == 4
    ensures var (wire, h) := (EncodeClient(f, Shortest(|f.payload|), key), HeaderSize(|f.payload|));
            && |wire| == h + 4 + |f.payload| && wire[0] == FirstByte(f)
            && wire[h..h + 4] == key && wire[h + 4..] == Mask(f.payload, key)
  {
    hide FirstByte, Mask, BigEndian;
  }

  lemma EncodedAnnounces(f: Frame, key: seq<byte>)
    requires f.opcode < 16 && FitsForm(|f.payload|, Shortest(|f.payload|)) && |key| == 4
    ensures var wire := EncodeClient(f, Shortest(|f.payload|), key);
            |wire| >= 2 && wire[1] >= 128 && Announces(wire, |f.payload|, HeaderSize(|f.payload|))
  {
    hide Announces, ParseLength, LengthBytes, FirstByte;
    var (n, form, rest) := (|f.payload|, Shortest(|f.payload|), key + Mask(f.payload, key));
    var wire := EncodeClient(f, form, key);
    HeaderDecodes(f, form, 128, rest);
    assert wire == [FirstByte(f)] + LengthBytes(n, form, 128) + rest;
    ParsedLengthAnnounced(wire);
    EncodedParts(f, key);
  }

  lemma MaskedBit(payload: seq<byte>, key: seq<byte>, i: nat, b: nat)
    requires i < |payload| && |key| == 4 && b < 8
    ensures Bit(Mask(payload, key)[i], b) <==> Bit(payload[i], b) != Bit(key[i % 4], b)
  {
    XorBitwise(payload[i], key[i % 4], 8, b);
  }

  lemma EncodedIsClientWire(f: Frame, key: seq<byte>)
    requires f.final && f.opcode < 16 && FitsForm(|f.payload|, Shortest(|f.payload|)) && |key| == 4
    ensures IsClientWire(EncodeClient(f, Shortest(|f.payload|), key), f.opcode, f.payload)
  {
    hide EncodeClient, Announces, Mask, Bit;
    var n, wire := |f.payload|, EncodeClient(f, Shortest(|f.payload|), key);
    var h := HeaderSize(n);
    EncodedParts(f, key);
    EncodedAnnounces(f, key);
    forall i, b: nat | 0 <= i < n && b < 8
      ensures Bit(wire[h + 4 + i], b) <==> Bit(f.payload[i], b) != Bit(wire[h + i % 4], b)
    {
      assert wire[h + 4 + i] == wire[h + 4..][i] && wire[h + i % 4] == wire[h..h + 4][i % 4];
      MaskedBit(f.payload, key, i, b);
    }
  }

  class Connection {
    var input: seq<byte>
    var output: seq<byte>
    const maxSize: nat
    const utf8: Utf8

    constructor (maxSize: nat, utf8: Utf8, received: seq<byte>)
      ensures input == received && output == [] && this.maxSize == maxSize && this.utf8 == utf8
    {
      this.maxSize, this.utf8 := maxSize, utf8;
      input, output := received, [];
    }

    /** StreamReader.readexactly: n bytes, or an incomplete read that drains the buffer. */
    method ReadExactly(n: nat) returns (r: Option<seq<byte>>)
      modifies this`input
      ensures |old(input)| < n ==> r == None && input == []
      ensures n <= |old(input)| ==> r == Some(old(input)[..n]) && input == old(input)[n..]
    {
      if |input| < n {
        r, input := None, [];
      } else {
        r, input := Some(input[..n]), input[n..];
      }
    }

    method ReadFrame() returns (r: Result<Frame, FrameError>)
      modifies this`input
      ensures input == ParseFrame(old(input), maxSize).rest
      ensures match ParseFrame(old(input), maxSize)
              case Got(f, _) => r == Ok(f)
              case Refused(e, _) => r == Err(e)
    {
      var header := ReadExactly(2);
      if header == None { return Err(Ended); }
      var first, second := header.value[0], header.value[1];
      var final := first >= 0x80;
      if first / 16 % 8 != 0 { return Err(Extension); }
      var opcode := first % 16;
      if second >= 0x80 { return Err(MaskedFrame); }
      var length: nat := second;
      if length == 126 {
        var extended := ReadExactly(2);
        if extended == None { return Err(Ended); }
        length := FromBigEndian(extended.value);
      } else if length == 127 {
        var extended := ReadExactly(8);
        if extended == None { return Err(Ended); }
        length := FromBigEndian(extended.value);
      }
      if opcode >= 8 && (!final || length > 125) { return Err(BadControl); }
      if length > maxSize { return Err(FrameTooBig); }
      var payload := ReadExactly(length);
      if payload == None { return Err(Ended); }
      return Ok(Frame(final, opcode, payload.value));
    }

    /** One final frame, masked with four fresh bytes. A server reads back exactly this frame. */
    method SendFrame(opcode: nat, payload: seq<byte>)
      requires opcode < 16 && |payload| < 0x1_0000_0000_0000_0000
      modifies this`output
      ensures Wrote(old(output), output, [Frame(true, opcode, payload)])
      ensures IsClientWire(output[|old(output)|..], opcode, payload)
    {
      var m0: byte, m1: byte, m2: byte, m3: byte := *, *, *, *;
      var mask := [m0, m1, m2, m3];
      var length := |payload|;
      var header: seq<byte>;
      ghost var form: LengthForm;
      if length < 126 {
        header := [0x80 + opcode, 0x80 + length];
        form := Short;
      } else if length <= 0xFFFF {
        header := [0x80 + opcode, 0x80 + 126] + BigEndian(length, 2);
        form := Medium;
      } else {
        header := [0x80 + opcode, 0x80 + 127] + BigEndian(length, 8);
        form := Long;
      }
      var masked := MaskLoop(payload, mask);
      output := output + (header + mask + masked);
      ghost var f := Frame(true, opcode, payload);
      assert header + mask + masked == EncodeClient(f, form, mask);
      ClientFramesOfOne(f, form, mask);
      EncodedIsClientWire(f, mask);
      assert output[|old(output)|..] == EncodeClient(f, form, mask);
    }

    method Recv() returns (r: Result<string, RecvError>)
      modifies this
      ensures var o := Messages.Recv(old(input), maxSize, utf8);
              r == o.result && input == o.rest && Wrote(old(output), output, Map(o.pings, Pong))
    {
      var message: seq<byte>, messageStarted := [], false;
      ghost var pings: seq<seq<byte>> := [];
      while true
        invariant RecvFrom(input, maxSize, utf8, messageStarted, message, pings)
               == Messages.Recv(old(input), maxSize, utf8)
        invariant Wrote(old(output), output, Map(pings, Pong))
        decreases |input|
      {
        var frame := ReadFrame();
        if frame.Err? { return Err(FrameFault(frame.error)); }
        var Frame(final, opcode, payload) := frame.value;
        if opcode == OP_CLOSE { return Err(Closed); }
        if opcode == OP_PING {
          ghost var before := output;
          SendFrame(OP_PONG, payload);
          assert Map([payload], Pong) == [Pong(payload)];
          WroteMorePongs(old(output), before, output, pings, [payload]);
          pings := pings + [payload];
          continue;
        }
        if opcode == OP_PONG { continue; }
        if opcode == OP_TEXT {
          if messageStarted { return Err(InterruptedMessage); }
          messageStarted := true;
          message := message + payload;
        } else if opcode == OP_CONTINUATION && messageStarted {
          message := message + payload;
        } else {
          return Err(UnsupportedOpcode);
        }
        if |message| > maxSize { return Err(MessageTooBig); }
        if final {
          var text := utf8(message);
          if text == None { return Err(NotUtf8); }
          return Ok(text.value);
        }
      }
    }

    /**
     `count` receives in a row, as the reconnect loop makes them, giving up at the first failure. Either way
     the peer reads back one pong for every ping read so far, in order.
     */
    method RecvEach(count: nat) returns (texts: seq<string>, failure: Option<RecvError>)
      modifies this
      ensures var c := RecvMany(old(input), maxSize, utf8, count);
              && texts == c.texts && failure == c.failure && input == c.rest
              && Wrote(old(output), output, Map(c.pings, Pong))
    {
      hide RecvMany, After, Messages.Recv, Wrote;
      texts := [];
      ghost var pings: seq<seq<byte>> := [];
      WroteNothing(output);
      AfterNothing(RecvMany(input, maxSize, utf8, count));
      for k := 0 to count
        invariant RecvMany(old(input), maxSize, utf8, count)
               == After(texts, pings, RecvMany(input, maxSize, utf8, count - k))
        invariant Wrote(old(output), output, Map(pings, Pong))
      {
        ghost var o, before := Messages.Recv(input, maxSize, utf8), output;
        OneMore(texts, pings, input, maxSize, utf8, count - k);
        var text := Recv();
        WroteMorePongs(old(output), before, output, pings, o.pings);
        if text.Err? { return texts, Some(text.error); }
        texts := texts + [text.value];
        pings := pings + o.pings;
      }
      AfterAll(texts, pings, input, maxSize, utf8);
      failure := None;
    }
  }

  /** The conversation c, heard after `texts` with `pings` answered. */
  function After(texts: seq<string>, pings: seq<seq<byte>>, c: Conversation): Conversation {
    c.(texts := texts + c.texts, pings := pings + c.pings)
  }

  lemma AfterNothing(c: Conversation)
    ensures After([], [], c) == c
  {
    assert [] + c.texts == c.texts && [] + c.pings == c.pings;
  }

  lemma AfterAll(texts: seq<string>, pings: seq<seq<byte>>, input: seq<byte>, maxSize: nat, utf8: Utf8)
    ensures After(texts, pings, RecvMany(input, maxSize, utf8, 0)) == Conversation(texts, None, input, pings)
  {
    assert texts + [] == texts && pings + [] == pings;
  }

  lemma OneMore(texts: seq<string>, pings: seq<seq<byte>>, input: seq<byte>, maxSize: nat, utf8: Utf8, count: nat)
    requires count > 0
    ensures After(texts, pings, RecvMany(input, maxSize, utf8, count))
         == match Messages.Recv(input, maxSize, utf8)
            case Outcome(Err(e), rest, answered) => Conversation(texts, Some(e), rest, pings + answered)
            case Outcome(Ok(text), rest, answered) =>
              After(texts + [text], pings + answered, RecvMany(rest, maxSize, utf8, count - 1))
  {
    var o := Messages.Recv(input, maxSize, utf8);
    if o.result.Ok? {
      var later := RecvMany(o.rest, maxSize, utf8, count - 1);
      ConcatAssociative(texts, [o.result.value], later.texts);
      ConcatAssociative(pings, o.pings, later.pings);
    } else {
      assert texts + [] == texts;
    }
  }

  /** The masking comprehension, one byte at a time. */
  method MaskLoop(payload: seq<byte>, key: seq<byte>) returns (masked: seq<byte>)
    requires |key| == 4
    ensures masked == Mask(payload, key)
  {
    masked := [];
    for i := 0 to |payload|
      invariant masked == Mask(payload, key)[..i]
    {
      masked := masked + [Xor(payload[i], key[i % 4])];
    }
  }

  lemma MapConcat<S, T>(a: seq<S>, b: seq<S>, f: S -> T)
    ensures Map(a + b, f) == Map(a, f) + Map(b, f)
  {
  }
}
