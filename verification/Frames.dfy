/**
 The frame layer of scripts/smoke_public_ws.py: RFC 6455 section 5.2 headers with their three
 length forms, client masking (section 5.3) and the two encodings a peer may put on the wire.
 Bytes are integers below 256; the reader is the sequence of bytes the peer has sent.
 */
module Frames {
  import opened Prelude

  type byte = x: int | 0 <= x < 256

  /** One frame after header decoding; the opcode is the low nibble of the first byte. */
  datatype Frame = Frame(final: bool, opcode: nat, payload: seq<byte>)

  datatype LengthForm = Short | Medium | Long

  const OP_CONTINUATION := 0x0
  const OP_TEXT := 0x1
  const OP_CLOSE := 0x8
  const OP_PING := 0x9
  const OP_PONG := 0xA

  datatype FrameError = Ended | Extension | MaskedFrame | BadControl | FrameTooBig

  /** The outcome of one header-and-payload read, with the bytes left in the reader. */
  datatype FrameOutcome =
    | Got(frame: Frame, rest: seq<byte>)
    | Refused(error: FrameError, rest: seq<byte>)

  // ---------------------------------------------------------------- numbers on the wire

  function Pow256(n: nat): (p: nat)
    ensures p > 0
  {
    if n == 0 then 1 else 256 * Pow256(n - 1)
  }

  /** n in network byte order, on exactly `width` bytes. */
  function BigEndian(n: nat, width: nat): (bs: seq<byte>)
    ensures |bs| == width
  {
    if width == 0 then [] else BigEndian(n / 256, width - 1) + [n % 256]
  }

  function FromBigEndian(bs: seq<byte>): nat {
    if bs == [] then 0 else FromBigEndian(bs[..|bs| - 1]) * 256 + bs[|bs| - 1]
  }

  lemma {:induction false} BigEndianRoundTrip(n: nat, width: nat)
    requires n < Pow256(width)
    ensures FromBigEndian(BigEndian(n, width)) == n
  {
    hide FromBigEndian;
    if width == 0 {
      NoBytes();
    } else {
      BigEndianRoundTrip(n / 256, width - 1);
      FromBigEndianSnoc(BigEndian(n / 256, width - 1), n % 256);
    }
  }

  lemma NoBytes()
    ensures FromBigEndian([]) == 0
  {
  }

  lemma FromBigEndianSnoc(bs: seq<byte>, b: byte)
    ensures FromBigEndian(bs + [b]) == FromBigEndian(bs) * 256 + b
  {
    assert (bs + [b])[..|bs|] == bs;
  }

  lemma {:induction false} FromBigEndianRoundTrip(bs: seq<byte>)
    ensures FromBigEndian(bs) < Pow256(|bs|)
    ensures BigEndian(FromBigEndian(bs), |bs|) == bs
  {
    if bs != [] {
      FromBigEndianRoundTrip(bs[..|bs| - 1]);
    }
  }

  /** The extended length on two and on eight bytes, most significant first. */
  lemma FromBigEndianOf2(bs: seq<byte>)
    requires |bs| == 2
    ensures FromBigEndian(bs) == bs[0] as int * 0x100 + bs[1] as int
  {
    assert bs == [] + [bs[0]] + [bs[1]];
    NoBytes();
    FromBigEndianSnoc([], bs[0]);
    FromBigEndianSnoc([] + [bs[0]], bs[1]);
  }

  lemma FromBigEndianOf8(bs: seq<byte>)
    requires |bs| == 8
    ensures FromBigEndian(bs)
         == bs[0] as int * 0x100_0000_0000_0000 + bs[1] as int * 0x1_0000_0000_0000 + bs[2] as int * 0x100_0000_0000
            + bs[3] as int * 0x1_0000_0000 + bs[4] as int * 0x100_0000 + bs[5] as int * 0x1_0000
            + bs[6] as int * 0x100 + bs[7] as int
  {
    hide FromBigEndian;
    assert bs == bs[..2] + [bs[2]] + [bs[3]] + [bs[4]] + [bs[5]] + [bs[6]] + [bs[7]];
    FromBigEndianOf2(bs[..2]);
    FromBigEndianSnoc(bs[..2], bs[2]);
    FromBigEndianSnoc(bs[..2] + [bs[2]], bs[3]);
    FromBigEndianSnoc(bs[..2] + [bs[2]] + [bs[3]], bs[4]);
    FromBigEndianSnoc(bs[..2] + [bs[2]] + [bs[3]] + [bs[4]], bs[5]);
    FromBigEndianSnoc(bs[..2] + [bs[2]] + [bs[3]] + [bs[4]] + [bs[5]], bs[6]);
    FromBigEndianSnoc(bs[..2] + [bs[2]] + [bs[3]] + [bs[4]] + [bs[5]] + [bs[6]], bs[7]);
  }

  lemma LengthRanges()
    ensures Pow256(2) == 0x1_0000
    ensures Pow256(8) == 0x1_0000_0000_0000_0000
  {
    assert Pow256(3) == 0x100_0000;
    assert Pow256(4) == 0x1_0000_0000;
    assert Pow256(5) == 0x100_0000_0000;
    assert Pow256(6) == 0x1_0000_0000_0000;
    assert Pow256(7) == 0x100_0000_0000_0000;
  }

  // ---------------------------------------------------------------- masking

  function XorBits(a: nat, b: nat, bits: nat): (r: nat)
    ensures r < Pow2(bits)
  {
    if bits == 0 then 0
    else (if a % 2 == b % 2 then 0 else 1) + 2 * XorBits(a / 2, b / 2, bits - 1)
  }

  lemma {:induction false} XorBitsInvolutive(a: nat, b: nat, bits: nat)
    requires a < Pow2(bits)
    ensures XorBits(XorBits(a, b, bits), b, bits) == a
  {
    if bits != 0 {
      var bit, r := if a % 2 == b % 2 then 0 else 1, XorBits(a / 2, b / 2, bits - 1);
      LowBit(bit, r);
      assert XorBits(a, b, bits) == bit + 2 * r;
      XorBitsInvolutive(a / 2, b / 2, bits - 1);
      assert XorBits(r, b / 2, bits - 1) == a / 2;
    }
  }

  lemma LowBit(bit: nat, r: nat)
    requires bit < 2
    ensures (bit + 2 * r) % 2 == bit && (bit + 2 * r) / 2 == r
  {
  }

  function Xor(a: byte, b: byte): byte {
    assert Pow2(8) == 256;
    XorBits(a, b, 8)
  }

  /** Bit k of x is set, counting from the least significant. */
  predicate Bit(x: nat, k: nat) {
    if k == 0 then x % 2 == 1 else Bit(x / 2, k - 1)
  }

  /** Exclusive or, bit by bit. */
  lemma {:induction false} XorBitwise(a: nat, b: nat, bits: nat, k: nat)
    requires k < bits
    ensures Bit(XorBits(a, b, bits), k) <==> Bit(a, k) != Bit(b, k)
  {
    var bit, r := if a % 2 == b % 2 then 0 else 1, XorBits(a / 2, b / 2, bits - 1);
    LowBit(bit, r);
    assert XorBits(a, b, bits) == bit + 2 * r;
    if k > 0 {
      XorBitwise(a / 2, b / 2, bits - 1, k - 1);
    }
  }

  /** byte ^ mask[index % 4] at every index. */
  function Mask(payload: seq<byte>, key: seq<byte>): (masked: seq<byte>)
    requires |key| == 4
    ensures |masked| == |payload|
  {
    seq(|payload|, i requires 0 <= i < |payload| => Xor(payload[i], key[i % 4]))
  }

  /** Unmasking is masking again with the same key (RFC 6455 section 5.3). */
  lemma MaskInvolutive(payload: seq<byte>, key: seq<byte>)
    requires |key| == 4
    ensures Mask(Mask(payload, key), key) == payload
  {
    forall i | 0 <= i < |payload|
      ensures Xor(Xor(payload[i], key[i % 4]), key[i % 4]) == payload[i]
    {
      assert Pow2(8) == 256;
      XorBitsInvolutive(payload[i], key[i % 4], 8);
    }
  }

  // ---------------------------------------------------------------- encodings

  predicate IsControl(f: Frame) {
    f.opcode >= 8
  }

  /** The length n can be announced in this form (any form that is wide enough is legal input). */
  predicate FitsForm(n: nat, form: LengthForm) {
    match form
    case Short => n < 126
    case Medium => n < 0x1_0000
    case Long => n < 0x1_0000_0000_0000_0000
  }

  /** Second header byte and extended length; maskBit is 0 from a server and 128 from a client. */
  function LengthBytes(n: nat, form: LengthForm, maskBit: nat): seq<byte>
    requires maskBit == 0 || maskBit == 128
    requires FitsForm(n, form)
  {
    match form
    case Short => [maskBit + n]
    case Medium => [maskBit + 126] + BigEndian(n, 2)
    case Long => [maskBit + 127] + BigEndian(n, 8)
  }

  predicate WellFormed(f: Frame, form: LengthForm) {
    f.opcode < 16 && FitsForm(|f.payload|, form)
  }

  function FirstByte(f: Frame): byte
    requires f.opcode < 16
  {
    (if f.final then 0x80 else 0) + f.opcode
  }

  /** What a server puts on the wire for f, announcing the length in the given form. */
  function EncodeServer(f: Frame, form: LengthForm): seq<byte>
    requires WellFormed(f, form)
  {
    [FirstByte(f)] + LengthBytes(|f.payload|, form, 0) + f.payload
  }

  /** What a client puts on the wire for f under the masking key. */
  function EncodeClient(f: Frame, form: LengthForm, key: seq<byte>): seq<byte>
    requires WellFormed(f, form) && |key| == 4
  {
    [FirstByte(f)] + LengthBytes(|f.payload|, form, 128) + key + Mask(f.payload, key)
  }

  // ---------------------------------------------------------------- decoding

  /** The announced length, given the low seven bits of the second byte and what follows. */
  function ParseLength(code: nat, rest: seq<byte>): (r: Option<(nat, seq<byte>)>)
    ensures r.Some? ==> |r.value.1| <= |rest|
  {
    var width := if code == 126 then 2 else if code == 127 then 8 else 0;
    if |rest| < width then None
    else Some((if width == 0 then code else FromBigEndian(rest[..width]), rest[width..]))
  }

  /** The frames a client of this message-size bound lets through. */
  predicate Admissible(f: Frame, maxSize: nat) {
    && (IsControl(f) ==> f.final && |f.payload| <= 125)
    && |f.payload| <= maxSize
  }

  /** One read: the checks in the order the client makes them. A short read drains the reader. */
  function ParseFrame(input: seq<byte>, maxSize: nat): (r: FrameOutcome)
    ensures r.Got? ==> |r.rest| < |input|
  {
    if |input| < 2 then Refused(Ended, [])
    else
      var first, second, body := input[0], input[1], input[2..];
      if first / 16 % 8 != 0 then Refused(Extension, body)
      else if second >= 128 then Refused(MaskedFrame, body)
      else
        match ParseLength(second, body)
        case None => Refused(Ended, [])
        case Some((length, rest)) =>
          var final, opcode := first >= 128, first % 16;
          if opcode >= 8 && (!final || length > 125) then Refused(BadControl, rest)
          else if length > maxSize then Refused(FrameTooBig, rest)
          else if |rest| < length then Refused(Ended, [])
          else Got(Frame(final, opcode, rest[..length]), rest[length..])
  }

  /** The header is all there, on its first h bytes, and announces a payload of n. */
  predicate Announces(input: seq<byte>, n: nat, h: nat) {
    && 2 <= h <= |input|
    && var code := input[1] % 128;
       if code == 126 then h == 4 && n == input[2] as int * 0x100 + input[3] as int
       else if code == 127 then
         h == 10
         && n == input[2] as int * 0x100_0000_0000_0000 + input[3] as int * 0x1_0000_0000_0000
                 + input[4] as int * 0x100_0000_0000 + input[5] as int * 0x1_0000_0000
                 + input[6] as int * 0x100_0000 + input[7] as int * 0x1_0000 + input[8] as int * 0x100 + input[9] as int
       else h == 2 && n == code
  }

  lemma ParsedLengthAnnounced(input: seq<byte>)
    requires |input| >= 2
    ensures match ParseLength(input[1] % 128, input[2..])
            case None => forall n: nat, h: nat :: !Announces(input, n, h)
            case Some((n, rest)) =>
              var h := |input| - |rest|;
              && Announces(input, n, h) && rest == input[h..]
              && forall m: nat, g: nat :: Announces(input, m, g) ==> m == n && g == h
  {
    var code, body := input[1] % 128, input[2..];
    if code == 126 && |body| >= 2 {
      FromBigEndianOf2(body[..2]);
    }
    if code == 127 && |body| >= 8 {
      FromBigEndianOf8(body[..8]);
    }
    hide FromBigEndian;
  }

  /** Byte for byte: which frame is read, and otherwise which refusal leaves which bytes unread. */
  lemma FrameOfBytes(input: seq<byte>, maxSize: nat)
    ensures |input| < 2 ==> ParseFrame(input, maxSize) == Refused(Ended, [])
    ensures |input| >= 2 && input[0] / 16 % 8 != 0 ==> ParseFrame(input, maxSize) == Refused(Extension, input[2..])
    ensures |input| >= 2 && input[0] / 16 % 8 == 0 && input[1] >= 128 ==>
              ParseFrame(input, maxSize) == Refused(MaskedFrame, input[2..])
    ensures |input| >= 2 && input[0] / 16 % 8 == 0 && input[1] < 128 ==>
              || (ParseFrame(input, maxSize) == Refused(Ended, []) && forall n: nat, h: nat :: !Announces(input, n, h))
              || exists n: nat, h: nat | Announces(input, n, h) ::
                   ParseFrame(input, maxSize)
                   == if input[0] % 16 >= 8 && (input[0] < 128 || n > 125) then Refused(BadControl, input[h..])
                      else if n > maxSize then Refused(FrameTooBig, input[h..])
                      else if |input| < h + n then Refused(Ended, [])
                      else Got(Frame(input[0] >= 128, input[0] % 16, input[h..h + n]), input[h + n..])
  {
    hide ParseLength, Announces;
    if |input| >= 2 && input[1] < 128 {
      ParsedLengthAnnounced(input);
      if ParseLength(input[1], input[2..]).Some? {
        var (n, rest) := ParseLength(input[1], input[2..]).value;
        var h := |input| - |rest|;
        assert Announces(input, n, h);
      }
    }
  }

  lemma ParseLengthOfEncoding(n: nat, form: LengthForm, tail: seq<byte>, maskBit: nat)
    requires maskBit == 0 || maskBit == 128
    requires FitsForm(n, form)
    ensures var bs := LengthBytes(n, form, maskBit);
            bs[0] >= maskBit && bs[0] - maskBit < 128 &&
            ParseLength(bs[0] - maskBit, bs[1..] + tail) == Some((n, tail))
  {
    LengthRanges();
    var bs := LengthBytes(n, form, maskBit);
    var width := if form == Short then 0 else if form == Medium then 2 else 8;
    assert (bs[1..] + tail)[..width] == bs[1..];
    assert (bs[1..] + tail)[width..] == tail;
    if form != Short {
      BigEndianRoundTrip(n, width);
      assert bs[1..] == BigEndian(n, width);
    }
  }

  lemma FirstByteDecodes(f: Frame)
    requires f.opcode < 16
    ensures FirstByte(f) / 16 % 8 == 0
    ensures (FirstByte(f) >= 128) == f.final && FirstByte(f) % 16 == f.opcode
  {
  }

  /** The header a peer writes gives back the announced length and leaves what follows it. */
  lemma HeaderDecodes(f: Frame, form: LengthForm, maskBit: nat, rest: seq<byte>)
    requires WellFormed(f, form) && (maskBit == 0 || maskBit == 128)
    ensures var input := [FirstByte(f)] + LengthBytes(|f.payload|, form, maskBit) + rest;
            |input| >= 2 && input[0] == FirstByte(f) && maskBit <= input[1] < maskBit + 128 &&
            ParseLength(input[1] - maskBit, input[2..]) == Some((|f.payload|, rest))
  {
    var lengthBytes := LengthBytes(|f.payload|, form, maskBit);
    ParseLengthOfEncoding(|f.payload|, form, rest, maskBit);
    var input := [FirstByte(f)] + lengthBytes + rest;
    assert input[1] == lengthBytes[0];
    assert input[2..] == lengthBytes[1..] + rest;
  }

  /** Decoding inverts every encoding a server may choose, minimal or not. */
  lemma ParseEncoded(f: Frame, form: LengthForm, tail: seq<byte>, maxSize: nat)
    requires WellFormed(f, form) && Admissible(f, maxSize)
    ensures ParseFrame(EncodeServer(f, form) + tail, maxSize) == Got(f, tail)
  {
    hide ParseLength, LengthBytes, FirstByte;
    var input := EncodeServer(f, form) + tail;
    HeaderDecodes(f, form, 0, f.payload + tail);
    assert input == [FirstByte(f)] + LengthBytes(|f.payload|, form, 0) + (f.payload + tail);
    FirstByteDecodes(f);
    assert (f.payload + tail)[..|f.payload|] == f.payload;
    assert (f.payload + tail)[|f.payload|..] == tail;
  }

  lemma ParsedLengthWasEncoded(code: byte, body: seq<byte>) returns (form: LengthForm)
    requires code < 128
    requires ParseLength(code, body).Some?
    ensures var (length, rest) := ParseLength(code, body).value;
            FitsForm(length, form) && [code] + body == LengthBytes(length, form, 0) + rest
  {
    var width := if code == 126 then 2 else if code == 127 then 8 else 0;
    form := if code == 126 then Medium else if code == 127 then Long else Short;
    LengthRanges();
    FromBigEndianRoundTrip(body[..width]);
    assert body == body[..width] + body[width..];
  }

  lemma ParsedParts(input: seq<byte>, maxSize: nat)
    requires ParseFrame(input, maxSize).Got?
    ensures |input| >= 2 && input[1] < 128 && ParseLength(input[1], input[2..]).Some?
    ensures var (Got(f, rest), (length, body)) :=
              (ParseFrame(input, maxSize), ParseLength(input[1], input[2..]).value);
            && length == |f.payload| && length <= |body| && f.payload == body[..length] && rest == body[length..]
            && f.opcode < 16 && FirstByte(f) == input[0] && Admissible(f, maxSize)
  {
    hide ParseLength;
  }

  /** Whatever decodes was encoded: a frame the client accepts is on the wire in one of the forms. */
  lemma ParsedWasEncoded(input: seq<byte>, maxSize: nat) returns (form: LengthForm)
    requires ParseFrame(input, maxSize).Got?
    ensures var Got(f, rest) := ParseFrame(input, maxSize);
            WellFormed(f, form) && Admissible(f, maxSize) && input == EncodeServer(f, form) + rest
  {
    hide LengthBytes, ParseLength, ParseFrame, FirstByte;
    var Got(f, rest) := ParseFrame(input, maxSize);
    ParsedParts(input, maxSize);
    form := ParsedLengthWasEncoded(input[1], input[2..]);
    var (length, body) := ParseLength(input[1], input[2..]).value;
    TakeDropAt(body, length);
    assert input == [input[0]] + ([input[1]] + input[2..]);
    ConcatAssociative(LengthBytes(length, form, 0), f.payload, rest);
    ConcatAssociative([FirstByte(f)], LengthBytes(length, form, 0) + f.payload, rest);
    ConcatAssociative([FirstByte(f)], LengthBytes(length, form, 0), f.payload);
  }

  // ---------------------------------------------------------------- the peer's view of our frames

  /** A server reading one client frame: it must be masked; the payload is unmasked. */
  function ParseClientFrame(input: seq<byte>): (r: Option<(Frame, seq<byte>)>)
    ensures r.Some? ==> |r.value.1| < |input|
  {
    if |input| < 2 || input[0] / 16 % 8 != 0 || input[1] < 128 then None
    else
      match ParseLength(input[1] - 128, input[2..])
      case None => None
      case Some((length, rest)) =>
        if |rest| < 4 + length then None
        else Some((Frame(input[0] >= 128, input[0] % 16, Mask(rest[4..4 + length], rest[..4])), rest[4 + length..]))
  }

  /** All the frames in a client's byte stream, if it is made of whole frames. */
  function ClientFrames(wire: seq<byte>): Option<seq<Frame>> {
    if wire == [] then Some([])
    else
      match ParseClientFrame(wire)
      case None => None
      case Some((f, rest)) =>
        match ClientFrames(rest)
        case None => None
        case Some(fs) => Some([f] + fs)
  }

  lemma ParseClientEncoded(f: Frame, form: LengthForm, key: seq<byte>, tail: seq<byte>)
    requires WellFormed(f, form) && |key| == 4
    ensures ParseClientFrame(EncodeClient(f, form, key) + tail) == Some((f, tail))
  {
    hide ParseLength, LengthBytes, FirstByte, Mask;
    var masked := Mask(f.payload, key);
    var rest := key + masked + tail;
    var input := [FirstByte(f)] + LengthBytes(|f.payload|, form, 128) + rest;
    ClientInput(f, form, key, tail);
    HeaderDecodes(f, form, 128, rest);
    FirstByteDecodes(f);
    MaskedParts(key, masked, tail);
    MaskInvolutive(f.payload, key);
  }

  lemma ClientInput(f: Frame, form: LengthForm, key: seq<byte>, tail: seq<byte>)
    requires WellFormed(f, form) && |key| == 4
    ensures EncodeClient(f, form, key) + tail
         == [FirstByte(f)] + LengthBytes(|f.payload|, form, 128) + (key + Mask(f.payload, key) + tail)
  {
    hide LengthBytes, FirstByte, Mask;
  }

  lemma MaskedParts(key: seq<byte>, masked: seq<byte>, tail: seq<byte>)
    requires |key| == 4
    ensures var rest := key + masked + tail;
            rest[..4] == key && rest[4..4 + |masked|] == masked && rest[4 + |masked|..] == tail
  {
  }

  lemma ClientFramesStep(wire: seq<byte>, f: Frame, rest: seq<byte>)
    requires wire != [] && ParseClientFrame(wire) == Some((f, rest))
    requires ClientFrames(rest).Some?
    ensures ClientFrames(wire) == Some([f] + ClientFrames(rest).value)
  {
  }

  lemma {:induction false} ClientFramesUnstep(wire: seq<byte>) returns (f: Frame, rest: seq<byte>)
    requires wire != [] && ClientFrames(wire).Some?
    ensures ParseClientFrame(wire) == Some((f, rest)) && |rest| < |wire|
    ensures ClientFrames(rest).Some? && ClientFrames(wire).value == [f] + ClientFrames(rest).value
  {
    var p := ParseClientFrame(wire).value;
    f, rest := p.0, p.1;
  }

  /** Streams of whole frames decode piecewise. */
  lemma {:induction false} ClientFramesConcat(a: seq<byte>, b: seq<byte>)
    requires ClientFrames(a).Some? && ClientFrames(b).Some?
    ensures ClientFrames(a + b) == Some(ClientFrames(a).value + ClientFrames(b).value)
    decreases |a|
  {
    var fa, fb := ClientFrames(a).value, ClientFrames(b).value;
    if a == [] {
      assert a + b == b;
      assert fa + fb == fb;
    } else {
      var f, rest := ClientFramesUnstep(a);
      ClientParseExtends(a, b);
      ClientFramesConcat(rest, b);
      var fr := ClientFrames(rest).value;
      ClientFramesStep(a + b, f, rest + b);
      ConcatAssociative([f], fr, fb);
    }
  }

  /** One encoded client frame decodes to exactly that frame. */
  lemma ClientFramesOfOne(f: Frame, form: LengthForm, key: seq<byte>)
    requires WellFormed(f, form) && |key| == 4
    ensures ClientFrames(EncodeClient(f, form, key)) == Some([f])
  {
    var e := EncodeClient(f, form, key);
    ParseClientEncoded(f, form, key, []);
    assert e + [] == e;
    ClientFramesStep(e, f, []);
    assert [f] + [] == [f];
  }

  lemma LengthParseExtends(code: nat, bytes: seq<byte>, more: seq<byte>)
    requires ParseLength(code, bytes).Some?
    ensures var (length, rest) := ParseLength(code, bytes).value;
            ParseLength(code, bytes + more) == Some((length, rest + more))
  {
    hide FromBigEndian;
    var width := |bytes| - |ParseLength(code, bytes).value.1|;
    assert (bytes + more)[..width] == bytes[..width];
    assert (bytes + more)[width..] == bytes[width..] + more;
  }

  lemma ClientParseExtends(wire: seq<byte>, more: seq<byte>)
    requires ParseClientFrame(wire).Some?
    ensures var (f, rest) := ParseClientFrame(wire).value;
            ParseClientFrame(wire + more) == Some((f, rest + more))
  {
    hide ParseLength, Mask;
    var (length, rest) := ParseLength(wire[1] - 128, wire[2..]).value;
    assert (wire + more)[2..] == wire[2..] + more;
    LengthParseExtends(wire[1] - 128, wire[2..], more);
    assert (rest + more)[..4] == rest[..4];
    assert (rest + more)[4..4 + length] == rest[4..4 + length];
    assert (rest + more)[4 + length..] == rest[4 + length..] + more;
  }
}
