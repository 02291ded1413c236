/**
 WebSocket framing: the encoder and the byte-at-a-time parser, for the frame
 format of sections 5.2 and 5.3 of RFC 6455.
 */
module WebSocketFrames {
  import opened Prelude

  const MAX_PAYLOAD: nat := 4_194_304

  const OP_CLOSE: nat := 0x8

  /** Opcodes handed to the application: continuation, text and binary. */
  predicate IsData(opcode: nat) { opcode <= 2 }

  /** Exclusive or of the low `k` bits. */
  function XorBits(a: nat, b: nat, k: nat): (r: nat)
    ensures r < Pow2(k)
  {
    if k == 0 then 0 else (if a % 2 == b % 2 then 0 else 1) + 2 * XorBits(a / 2, b / 2, k - 1)
  }

  function Pow2(k: nat): nat {
    if k == 0 then 1 else 2 * Pow2(k - 1)
  }

  function Xor(a: Byte, b: Byte): Byte {
    assert Pow2(8) == 256 by { assert Pow2(4) == 16; assert Pow2(6) == 64; }
    XorBits(a, b, 8)
  }

  lemma {:induction false} XorBitsTwice(a: nat, m: nat, k: nat)
    requires a < Pow2(k)
    ensures XorBits(XorBits(a, m, k), m, k) == a
  {
    if k > 0 {
      XorBitsTwice(a / 2, m / 2, k - 1);
      var bit, rest := if a % 2 == m % 2 then 0 else 1, XorBits(a / 2, m / 2, k - 1);
      Halves(bit, rest);
      assert XorBits(bit + 2 * rest, m, k) == (if bit == m % 2 then 0 else 1) + 2 * XorBits(rest, m / 2, k - 1);
    }
  }

  lemma Halves(bit: nat, rest: nat)
    requires bit < 2
    ensures (bit + 2 * rest) / 2 == rest && (bit + 2 * rest) % 2 == bit
  {
  }

  lemma XorTwice(a: Byte, m: Byte)
    ensures Xor(Xor(a, m), m) == a
  {
    assert Pow2(8) == 256 by { assert Pow2(4) == 16; assert Pow2(6) == 64; }
    XorBitsTwice(a, m, 8);
  }

  /** Bit `i`, the lowest being bit 0. */
  predicate Bit(a: nat, i: nat) {
    if i == 0 then a % 2 == 1 else Bit(a / 2, i - 1)
  }

  lemma {:induction false} XorBitsBit(a: nat, b: nat, k: nat, i: nat)
    requires i < k
    ensures Bit(XorBits(a, b, k), i) <==> Bit(a, i) != Bit(b, i)
  {
    var bit, rest := if a % 2 == b % 2 then 0 else 1, XorBits(a / 2, b / 2, k - 1);
    Halves(bit, rest);
    if i > 0 {
      XorBitsBit(a / 2, b / 2, k - 1, i - 1);
    }
  }

  /** Exclusive or, bit by bit: set where exactly one of the two is. */
  lemma XorIsExclusiveOr(a: Byte, b: Byte, i: nat)
    requires i < 8
    ensures Bit(Xor(a, b), i) <==> Bit(a, i) != Bit(b, i)
  {
    XorBitsBit(a, b, 8, i);
  }

  function SumOfBits(a: nat, k: nat): nat {
    if k == 0 then 0 else SumOfBits(a, k - 1) + if Bit(a, k - 1) then Pow2(k - 1) else 0
  }

  lemma {:induction false} SumOfHalf(a: nat, k: nat)
    ensures SumOfBits(a, k + 1) == a % 2 + 2 * SumOfBits(a / 2, k)
  {
    if k > 0 {
      SumOfHalf(a, k - 1);
      assert Bit(a, k) == Bit(a / 2, k - 1);
    } else {
      assert SumOfBits(a, 1) == SumOfBits(a, 0) + a % 2;
    }
  }

  lemma {:induction false} IsSumOfBits(a: nat, k: nat)
    requires a < Pow2(k)
    ensures SumOfBits(a, k) == a
  {
    if k > 0 {
      IsSumOfBits(a / 2, k - 1);
      SumOfHalf(a, k - 1);
    }
  }

  /** A byte is the sum of its eight bits. */
  lemma ByteIsItsBits(a: Byte)
    ensures SumOfBits(a, 8) == a
  {
    assert Pow2(8) == 256 by { assert Pow2(4) == 16; assert Pow2(6) == 64; }
    IsSumOfBits(a, 8);
  }

  lemma {:induction false} XorBitsZero(a: nat, k: nat)
    requires a < Pow2(k)
    ensures XorBits(a, 0, k) == a && XorBits(a, Pow2(k) - 1, k) == Pow2(k) - 1 - a
  {
    if k > 0 {
      XorBitsZero(a / 2, k - 1);
      assert (Pow2(k) - 1) / 2 == Pow2(k - 1) - 1;
    }
  }

  /** A key byte 0 leaves a byte as it is, and 255 complements it. */
  lemma XorZero(a: Byte)
    ensures Xor(a, 0) == a && Xor(a, 255) == 255 - a
  {
    assert Pow2(8) == 256 by { assert Pow2(4) == 16; assert Pow2(6) == 64; }
    XorBitsZero(a, 8);
  }

  // ---------- lengths in network byte order ----------

  function ToBytes(n: nat, k: nat): (s: seq<Byte>)
    ensures |s| == k
  {
    if k == 0 then [] else ToBytes(n / 256, k - 1) + [n % 256]
  }

  function FromBytes(s: seq<Byte>): nat {
    if s == [] then 0 else 256 * FromBytes(s[..|s| - 1]) + s[|s| - 1]
  }

  predicate Fits(n: nat, k: nat) {
    if k == 0 then n == 0 else Fits(n / 256, k - 1)
  }

  lemma {:induction false} LengthRoundTrip(n: nat, k: nat)
    requires Fits(n, k)
    ensures FromBytes(ToBytes(n, k)) == n
  {
    if k > 0 {
      LengthRoundTrip(n / 256, k - 1);
      assert ToBytes(n, k)[..k - 1] == ToBytes(n / 256, k - 1);
    }
  }

  // ---------- the parser ----------

  datatype State = HeaderB1 | HeaderB2 | LengthShort | LengthLong | Mask | Payload

  /** What the application sees of a message: an empty one has no data at all. */
  datatype Message = Message(opcode: nat, data: Option<seq<Byte>>)

  datatype Parser = Parser(
    state: State, opcode: nat, hasMask: bool, maskArray: seq<Byte>, length: nat,
    lengthArray: seq<Byte>, index: nat, data: Option<seq<Byte>>, delivered: seq<Message>)

  datatype Reason = ClientClose | ShortLengthExceeded | LongLengthExceeded | MaskExceeded | PayloadExceeded

  /** Either the next parser state or an exception, after which the connection is dropped. */
  datatype Outcome = Next(p: Parser) | Raised(why: Reason)

  const FRESH := Parser(HeaderB1, 0, false, [], 0, [], 0, None, [])

  function HandlePacket(p: Parser): Outcome {
    if p.opcode == OP_CLOSE then Raised(ClientClose)
    else
      var seen := if IsData(p.opcode) then p.delivered + [Message(p.opcode, p.data)] else p.delivered;
      Next(p.(state := HeaderB1, data := None, delivered := seen))
  }

  /** The length is known and there is no mask to read, or it has been read. */
  function StartPayload(p: Parser): Outcome {
    if p.length == 0 then HandlePacket(p)
    else Next(p.(state := Payload, index := 0, data := Some([])))
  }

  function AfterLength(p: Parser): Outcome {
    if p.hasMask then Next(p.(state := Mask, maskArray := [])) else StartPayload(p)
  }

  function Parse(p: Parser, b: Byte): Outcome
    requires p.state == Payload ==> p.data.Some? && (p.hasMask ==> |p.maskArray| == 4)
  {
    match p.state
    case HeaderB1 => Next(p.(opcode := b % 16, state := HeaderB2))
    case HeaderB2 =>
      var q := p.(hasMask := b >= 128);
      var n := b % 128;
      if n <= 125 then AfterLength(q.(length := n))
      else if n == 126 then Next(q.(lengthArray := [], state := LengthShort))
      else Next(q.(lengthArray := [], state := LengthLong))
    case LengthShort =>
      var q := p.(lengthArray := p.lengthArray + [b]);
      if |q.lengthArray| > 2 then Raised(ShortLengthExceeded)
      else if |q.lengthArray| == 2 then AfterLength(q.(length := FromBytes(q.lengthArray)))
      else Next(q)
    case LengthLong =>
      var q := p.(lengthArray := p.lengthArray + [b]);
      if |q.lengthArray| > 8 then Raised(LongLengthExceeded)
      else if |q.lengthArray| == 8 then AfterLength(q.(length := FromBytes(q.lengthArray)))
      else Next(q)
    case Mask =>
      var q := p.(maskArray := p.maskArray + [b]);
      if |q.maskArray| > 4 then Raised(MaskExceeded)
      else if |q.maskArray| == 4 then StartPayload(q)
      else Next(q)
    case Payload =>
      var c := if p.hasMask then Xor(b, p.maskArray[p.index % 4]) else b;
      var q := p.(data := Some(p.data.value + [c]));
      if |q.data.value| >= MAX_PAYLOAD then Raised(PayloadExceeded)
      else if q.index + 1 == q.length then HandlePacket(q)
      else Next(q.(index := q.index + 1))
  }

  /** What holds between any two bytes. */
  predicate Valid(p: Parser) {
    match p.state
    case HeaderB1 => p.data.None?
    case HeaderB2 => p.data.None?
    case LengthShort => p.data.None? && |p.lengthArray| < 2
    case LengthLong => p.data.None? && |p.lengthArray| < 8
    case Mask => p.data.None? && p.hasMask && |p.maskArray| < 4
    case Payload =>
      && p.data.Some? && |p.data.value| == p.index < p.length && p.index < MAX_PAYLOAD
      && (p.hasMask ==> |p.maskArray| == 4)
  }

  /** The only exceptions are a close frame and an oversized payload. */
  predicate Fine(o: Outcome) {
    match o
    case Next(q) => Valid(q)
    case Raised(why) => why == ClientClose || why == PayloadExceeded
  }

  lemma HeaderIsFine(p: Parser, b: Byte)
    requires Valid(p) && (p.state == HeaderB1 || p.state == HeaderB2)
    ensures Fine(Parse(p, b))
  {
    if p.state == HeaderB2 {
      LengthKeepsValid(p.(hasMask := b >= 128, length := b % 128));
    }
  }

  lemma LengthIsFine(p: Parser, b: Byte)
    requires Valid(p) && (p.state == LengthShort || p.state == LengthLong)
    ensures Fine(Parse(p, b))
  {
    var q := p.(lengthArray := p.lengthArray + [b]);
    LengthKeepsValid(q.(length := FromBytes(q.lengthArray)));
  }

  lemma MaskIsFine(p: Parser, b: Byte)
    requires Valid(p) && p.state == Mask
    ensures Fine(Parse(p, b))
  {
  }

  lemma PayloadIsFine(p: Parser, b: Byte)
    requires Valid(p) && p.state == Payload
    ensures Fine(Parse(p, b))
  {
  }

  /** On any byte the parser stays valid or raises one of those two. */
  lemma ParseKeepsValid(p: Parser, b: Byte)
    requires Valid(p)
    ensures Fine(Parse(p, b))
  {
    match p.state
    case HeaderB1 => HeaderIsFine(p, b);
    case HeaderB2 => HeaderIsFine(p, b);
    case LengthShort => LengthIsFine(p, b);
    case LengthLong => LengthIsFine(p, b);
    case Mask => MaskIsFine(p, b);
    case Payload => PayloadIsFine(p, b);
  }

  lemma LengthKeepsValid(p: Parser)
    requires p.data.None?
    ensures match AfterLength(p) case Next(q) => Valid(q) case Raised(why) => why == ClientClose
  {
  }

  function ParseAll(p: Parser, bytes: seq<Byte>): (r: Outcome)
    requires Valid(p)
    ensures r.Next? ==> Valid(r.p)
    decreases |bytes|
  {
    if bytes == [] then Next(p)
    else
      ParseKeepsValid(p, bytes[0]);
      match Parse(p, bytes[0])
      case Next(q) => ParseAll(q, bytes[1..])
      case Raised(why) => Raised(why)
  }

  /** The length and mask exceptions cannot be raised by any input. */
  lemma {:induction false} NoLengthException(p: Parser, bytes: seq<Byte>)
    requires Valid(p)
    ensures ParseAll(p, bytes).Raised? ==> ParseAll(p, bytes).why == ClientClose || ParseAll(p, bytes).why == PayloadExceeded
    decreases |bytes|
  {
    if bytes != [] {
      ParseKeepsValid(p, bytes[0]);
      var r := Parse(p, bytes[0]);
      if r.Next? {
        NoLengthException(r.p, bytes[1..]);
      }
    }
  }

  lemma {:induction false} ParseConcat(p: Parser, a: seq<Byte>, b: seq<Byte>)
    requires Valid(p)
    ensures ParseAll(p, a).Next? ==> ParseAll(p, a + b) == ParseAll(ParseAll(p, a).p, b)
    ensures ParseAll(p, a).Raised? ==> ParseAll(p, a + b) == ParseAll(p, a)
    decreases |a|
  {
    if a == [] {
      assert a + b == b;
    } else {
      assert (a + b)[1..] == a[1..] + b && (a + b)[0] == a[0];
      ParseKeepsValid(p, a[0]);
      var r := Parse(p, a[0]);
      if r.Next? {
        ParseConcat(r.p, a[1..], b);
      }
    }
  }

  // ---------- frames ----------

  /** How the payload length is written. */
  datatype Form = Seven | Sixteen | SixtyFour

  type Key = k: seq<Byte> | |k| == 4 witness [0, 0, 0, 0]

  /** `top` is the high nibble of the first byte: the fin bit and the reserved bits. */
  datatype Frame = Frame(top: nat, opcode: nat, key: Option<Key>, form: Form, payload: seq<Byte>)

  predicate WellFormed(f: Frame) {
    && f.top < 16 && f.opcode < 16 && f.opcode != OP_CLOSE
    && (f.form.Seven? ==> |f.payload| <= 125) && (f.form.Sixteen? ==> |f.payload| < 65536) && |f.payload| < U64
  }

  function LengthCode(f: Frame): nat
    requires WellFormed(f)
  {
    match f.form
    case Seven => |f.payload|
    case Sixteen => 126
    case SixtyFour => 127
  }

  function LengthBytes(f: Frame): seq<Byte> {
    match f.form
    case Seven => []
    case Sixteen => ToBytes(|f.payload|, 2)
    case SixtyFour => ToBytes(|f.payload|, 8)
  }

  function Head(f: Frame): seq<Byte>
    requires WellFormed(f)
  {
    [16 * f.top + f.opcode, (if f.key.Some? then 128 else 0) + LengthCode(f)] + LengthBytes(f)
  }

  function KeyBytes(f: Frame): seq<Byte> {
    if f.key.Some? then f.key.value else []
  }

  /** The payload from position `i` on, masked with the key, which repeats every four bytes. */
  function Masked(key: Option<Key>, payload: seq<Byte>, i: nat): (r: seq<Byte>)
    ensures |r| == |payload|
    decreases |payload|
  {
    if payload == [] then []
    else [MaskByte(key, payload[0], i)] + Masked(key, payload[1..], i + 1)
  }

  function Encode(f: Frame): seq<Byte>
    requires WellFormed(f)
  {
    Head(f) + (KeyBytes(f) + Masked(f.key, f.payload, 0))
  }

  function EncodeAll(fs: seq<Frame>): seq<Byte>
    requires forall i :: 0 <= i < |fs| ==> WellFormed(fs[i])
    decreases |fs|
  {
    if fs == [] then [] else Encode(fs[0]) + EncodeAll(fs[1..])
  }

  function Received(f: Frame): seq<Message> {
    if IsData(f.opcode) then [Message(f.opcode, if f.payload == [] then None else Some(f.payload))] else []
  }

  function ReceivedAll(fs: seq<Frame>): seq<Message> {
    if fs == [] then [] else Received(fs[0]) + ReceivedAll(fs[1..])
  }

  // ---------- each part of a frame, read back ----------

  lemma ParseOne(p: Parser, b: Byte)
    requires Valid(p)
    ensures ParseAll(p, [b]) == Parse(p, b)
  {
    ParseKeepsValid(p, b);
    var r := Parse(p, b);
    if r.Next? {
      assert ParseAll(r.p, []) == r;
      assert [b][1..] == [];
    }
  }

  lemma ParseFirst(p: Parser, b: Byte, rest: seq<Byte>)
    requires Valid(p) && Parse(p, b).Next?
    ensures Valid(Parse(p, b).p) && ParseAll(p, [b] + rest) == ParseAll(Parse(p, b).p, rest)
  {
    ParseKeepsValid(p, b);
    assert ([b] + rest)[1..] == rest && ([b] + rest)[0] == b;
  }

  predicate ReadsLength(p: Parser, left: nat) {
    (p.state == LengthShort && |p.lengthArray| + left == 2) || (p.state == LengthLong && |p.lengthArray| + left == 8)
  }

  lemma LengthStep(p: Parser, b: Byte, left: nat)
    requires Valid(p) && left > 0 && ReadsLength(p, left)
    ensures var q := p.(lengthArray := p.lengthArray + [b]);
            && Parse(p, b) == (if left == 1 then AfterLength(q.(length := FromBytes(q.lengthArray))) else Next(q))
            && (left > 1 ==> Valid(q) && ReadsLength(q, left - 1))
  {
  }

  lemma {:induction false} ReadLength(p: Parser, bs: seq<Byte>)
    requires Valid(p) && bs != [] && ReadsLength(p, |bs|)
    ensures var all := p.lengthArray + bs;
            ParseAll(p, bs) == AfterLength(p.(lengthArray := all, length := FromBytes(all)))
    decreases |bs|
  {
    var b, rest := bs[0], bs[1..];
    LengthStep(p, b, |bs|);
    assert bs == [b] + rest;
    if rest == [] {
      assert bs == [b];
      ParseOne(p, b);
    } else {
      ParseFirst(p, b, rest);
      ReadLength(p.(lengthArray := p.lengthArray + [b]), rest);
      Appends(p.lengthArray, b, rest, bs);
    }
  }

  lemma Appends(a: seq<Byte>, b: Byte, rest: seq<Byte>, bs: seq<Byte>)
    requires bs == [b] + rest
    ensures a + [b] + rest == a + bs
  {
  }

  lemma {:induction false} ReadKey(p: Parser, bs: seq<Byte>)
    requires Valid(p) && p.state == Mask && bs != [] && |p.maskArray| + |bs| == 4
    ensures ParseAll(p, bs) == StartPayload(p.(maskArray := p.maskArray + bs))
    decreases |bs|
  {
    var q := p.(maskArray := p.maskArray + [bs[0]]);
    if |bs| == 1 {
      assert bs == [bs[0]];
      ParseOne(p, bs[0]);
    } else {
      assert bs == [bs[0]] + bs[1..];
      ParseFirst(p, bs[0], bs[1..]);
      ReadKey(q, bs[1..]);
      assert p.maskArray + bs == q.maskArray + bs[1..];
    }
  }

  function MaskByte(key: Option<Key>, c: Byte, i: nat): Byte {
    if key.Some? then Xor(c, key.value[i % 4]) else c
  }

  /** One masked byte: the plain one is appended. */
  lemma PayloadStep(p: Parser, key: Option<Key>, c: Byte)
    requires Reading(p, key)
    ensures var q := p.(data := Some(p.data.value + [c]));
            Parse(p, MaskByte(key, c, p.index)) ==
            if p.index + 1 == p.length then HandlePacket(q) else Next(q.(index := p.index + 1))
  {
    if key.Some? {
      XorTwice(c, key.value[p.index % 4]);
    }
  }

  /** The parser once the rest of its payload has arrived. */
  function Filled(p: Parser, payload: seq<Byte>): Parser
    requires p.data.Some? && p.length > 0
  {
    p.(data := Some(p.data.value + payload), index := p.length - 1)
  }

  ghost predicate Reading(p: Parser, key: Option<Key>) {
    Valid(p) && p.state == Payload && p.length < MAX_PAYLOAD && p.hasMask == key.Some? && (key.Some? ==> p.maskArray == key.value)
  }

  lemma ReadLast(p: Parser, key: Option<Key>, payload: seq<Byte>)
    requires Reading(p, key) && p.index + 1 == p.length && |payload| == 1
    ensures ParseAll(p, Masked(key, payload, p.index)) == HandlePacket(Filled(p, payload))
  {
    var c := payload[0];
    assert payload == [c];
    assert Masked(key, payload, p.index) == [MaskByte(key, c, p.index)];
    ParseOne(p, MaskByte(key, c, p.index));
    PayloadStep(p, key, c);
  }

  /** The parser after one more payload byte, if it is not the last. */
  function Reads(p: Parser, c: Byte): Parser
    requires p.data.Some?
  {
    p.(data := Some(p.data.value + [c]), index := p.index + 1)
  }

  lemma ReadOneMore(p: Parser, key: Option<Key>, c: Byte, rest: seq<Byte>)
    requires Reading(p, key) && p.index + 1 < p.length
    ensures Reading(Reads(p, c), key)
    ensures ParseAll(p, [MaskByte(key, c, p.index)] + rest) == ParseAll(Reads(p, c), rest)
  {
    PayloadStep(p, key, c);
    ParseFirst(p, MaskByte(key, c, p.index), rest);
  }

  lemma FillsOneMore(p: Parser, c: Byte, rest: seq<Byte>, payload: seq<Byte>)
    requires p.data.Some? && p.length > 0 && payload == [c] + rest
    ensures Filled(Reads(p, c), rest) == Filled(p, payload)
  {
    Appends(p.data.value, c, rest, payload);
  }

  lemma MaskedFirst(key: Option<Key>, c: Byte, rest: seq<Byte>, payload: seq<Byte>, i: nat)
    requires payload == [c] + rest
    ensures Masked(key, payload, i) == [MaskByte(key, c, i)] + Masked(key, rest, i + 1)
  {
    assert payload[0] == c && payload[1..] == rest;
  }

  lemma JoinPayload(p: Parser, key: Option<Key>, c: Byte, rest: seq<Byte>, payload: seq<Byte>, out: Outcome)
    requires Reading(p, key) && p.index + 1 < p.length && payload == [c] + rest && Reading(Reads(p, c), key)
    requires ParseAll(Reads(p, c), Masked(key, rest, p.index + 1)) == out
    ensures ParseAll(p, Masked(key, payload, p.index)) == out
  {
    MaskedFirst(key, c, rest, payload, p.index);
    ReadOneMore(p, key, c, Masked(key, rest, p.index + 1));
  }

  /** Unmasking the masked payload gives the payload back, byte by byte. */
  lemma {:induction false} ReadPayload(p: Parser, key: Option<Key>, payload: seq<Byte>)
    requires Reading(p, key) && payload != [] && p.index + |payload| == p.length
    ensures ParseAll(p, Masked(key, payload, p.index)) == HandlePacket(Filled(p, payload))
    decreases |payload|
  {
    if |payload| == 1 {
      ReadLast(p, key, payload);
    } else {
      var c, rest := payload[0], payload[1..];
      assert payload == [c] + rest;
      ReadOneMore(p, key, c, []);
      ReadPayload(Reads(p, c), key, rest);
      JoinPayload(p, key, c, rest, payload, HandlePacket(Filled(Reads(p, c), rest)));
      FillsOneMore(p, c, rest, payload);
    }
  }

  // ---------- round trip ----------

  function Pow256(k: nat): nat {
    if k == 0 then 1 else 256 * Pow256(k - 1)
  }

  lemma {:induction false} FitsIff(n: nat, k: nat)
    ensures Fits(n, k) <==> n < Pow256(k)
  {
    if k > 0 {
      FitsIff(n / 256, k - 1);
    }
  }

  lemma Powers()
    ensures Pow256(2) == 65536 && Pow256(8) == U64
  {
    assert Pow256(4) == 0x1_0000_0000;
    assert Pow256(6) == 0x1_0000_0000_0000;
  }

  /** The parser's fields once the header of `f` has been read. */
  ghost predicate Headed(q: Parser, p: Parser, f: Frame) {
    q.opcode == f.opcode && q.hasMask == f.key.Some? && q.length == |f.payload| && q.data.None? && q.delivered == p.delivered
  }

  lemma HeadBytes(top: nat, opcode: nat, code: nat)
    requires opcode < 16 && code < 128
    ensures (16 * top + opcode) % 16 == opcode && code % 128 == code && (128 + code) % 128 == code
  {
  }

  lemma ReadHead(p: Parser, f: Frame) returns (q: Parser)
    requires Valid(p) && p.state == HeaderB1 && WellFormed(f)
    ensures Headed(q, p, f) && ParseAll(p, Head(f)) == AfterLength(q)
  {
    var b1, b2 := 16 * f.top + f.opcode, (if f.key.Some? then 128 else 0) + LengthCode(f);
    var p1 := p.(opcode := f.opcode, state := HeaderB2);
    assert Head(f) == [b1] + ([b2] + LengthBytes(f));
    HeadBytes(f.top, f.opcode, LengthCode(f));
    ParseFirst(p, b1, [b2] + LengthBytes(f));
    match f.form
    case Seven => q := ReadNarrow(p1, f, b2);
    case Sixteen =>
      Powers();
      FitsIff(|f.payload|, 2);
      q := ReadWide(p1, f, b2, LengthShort);
    case SixtyFour =>
      Powers();
      FitsIff(|f.payload|, 8);
      q := ReadWide(p1, f, b2, LengthLong);
  }

  lemma ReadNarrow(p1: Parser, f: Frame, b2: Byte) returns (q: Parser)
    requires Valid(p1) && p1.state == HeaderB2 && p1.opcode == f.opcode && WellFormed(f) && f.form == Seven
    requires b2 % 128 == LengthCode(f) && (b2 >= 128 <==> f.key.Some?)
    ensures Headed(q, p1, f) && ParseAll(p1, [b2] + LengthBytes(f)) == AfterLength(q)
  {
    assert [b2] + LengthBytes(f) == [b2];
    ParseOne(p1, b2);
    q := p1.(hasMask := f.key.Some?, length := |f.payload|);
  }

  lemma ReadWide(p1: Parser, f: Frame, b2: Byte, state: State) returns (q: Parser)
    requires Valid(p1) && p1.state == HeaderB2 && p1.opcode == f.opcode && WellFormed(f)
    requires (state == LengthShort && f.form == Sixteen) || (state == LengthLong && f.form == SixtyFour)
    requires b2 % 128 == LengthCode(f) && (b2 >= 128 <==> f.key.Some?)
    requires Fits(|f.payload|, |LengthBytes(f)|)
    ensures Headed(q, p1, f) && ParseAll(p1, [b2] + LengthBytes(f)) == AfterLength(q)
  {
    var bs := LengthBytes(f);
    var p2 := p1.(hasMask := f.key.Some?, lengthArray := [], state := state);
    ParseFirst(p1, b2, bs);
    q := ReadLengthOf(p2, bs, |f.payload|);
  }

  lemma ReadLengthOf(p: Parser, bs: seq<Byte>, n: nat) returns (q: Parser)
    requires Valid(p) && bs != [] && p.lengthArray == [] && ReadsLength(p, |bs|) && Fits(n, |bs|) && bs == ToBytes(n, |bs|)
    ensures q == p.(lengthArray := bs, length := n) && ParseAll(p, bs) == AfterLength(q)
  {
    ReadLength(p, bs);
    LengthRoundTrip(n, |bs|);
    assert [] + bs == bs;
    q := p.(lengthArray := bs, length := n);
  }

  /** The rest of a frame, from the end of its header on. */
  lemma ReadBody(q: Parser, p: Parser, f: Frame)
    requires Headed(q, p, f) && WellFormed(f) && |f.payload| < MAX_PAYLOAD
    ensures AfterLength(q).Next? && Valid(AfterLength(q).p)
    ensures Ends(ParseAll(AfterLength(q).p, KeyBytes(f) + Masked(f.key, f.payload, 0)), p, f)
  {
    LengthKeepsValid(q);
    var bs := Masked(f.key, f.payload, 0);
    if f.key.Some? {
      var m := q.(state := Mask, maskArray := []);
      ParseConcat(m, f.key.value, bs);
      ReadKey(m, f.key.value);
      assert [] + f.key.value == f.key.value;
      ReadRest(m.(maskArray := f.key.value), p, f);
    } else {
      assert KeyBytes(f) + bs == bs;
      ReadRest(q, p, f);
    }
  }

  /** A frame has been read: the parser is back at the start and has handed the message over. */
  ghost predicate Ends(r: Outcome, p: Parser, f: Frame) {
    r.Next? && r.p.state == HeaderB1 && r.p.delivered == p.delivered + Received(f)
  }

  lemma ReadRest(q: Parser, p: Parser, f: Frame)
    requires Headed(q, p, f) && WellFormed(f) && |f.payload| < MAX_PAYLOAD && (f.key.Some? ==> q.maskArray == f.key.value)
    ensures StartPayload(q).Next? && Valid(StartPayload(q).p)
    ensures Ends(ParseAll(StartPayload(q).p, Masked(f.key, f.payload, 0)), p, f)
  {
    if f.payload == [] {
      assert Masked(f.key, f.payload, 0) == [];
    } else {
      var r := q.(state := Payload, index := 0, data := Some([]));
      ReadPayload(r, f.key, f.payload);
      assert [] + f.payload == f.payload;
    }
  }

  /** A frame of any kind but close, in any length form, masked or not, is read back whole. */
  lemma FrameRoundTrip(p: Parser, f: Frame)
    requires Valid(p) && p.state == HeaderB1 && WellFormed(f) && |f.payload| < MAX_PAYLOAD
    ensures Ends(ParseAll(p, Encode(f)), p, f)
  {
    var q := ReadHead(p, f);
    ReadBody(q, p, f);
    ParseConcat(p, Head(f), KeyBytes(f) + Masked(f.key, f.payload, 0));
  }

  /** A payload that has reached the limit stops the parser, whatever its bytes. */
  lemma {:induction false} TooLong(p: Parser, bytes: seq<Byte>)
    requires Valid(p) && p.state == Payload && p.length >= MAX_PAYLOAD && p.index + |bytes| >= MAX_PAYLOAD
    ensures ParseAll(p, bytes) == Raised(PayloadExceeded)
    decreases |bytes|
  {
    ParseKeepsValid(p, bytes[0]);
    if p.index + 1 < MAX_PAYLOAD {
      TooLong(Parse(p, bytes[0]).p, bytes[1..]);
    }
  }

  lemma OversizedBody(q: Parser, p: Parser, f: Frame)
    requires Headed(q, p, f) && WellFormed(f) && |f.payload| >= MAX_PAYLOAD
    ensures AfterLength(q).Next? && Valid(AfterLength(q).p)
    ensures ParseAll(AfterLength(q).p, KeyBytes(f) + Masked(f.key, f.payload, 0)) == Raised(PayloadExceeded)
  {
    LengthKeepsValid(q);
    var bs := Masked(f.key, f.payload, 0);
    if f.key.Some? {
      var m := q.(state := Mask, maskArray := []);
      ParseConcat(m, f.key.value, bs);
      ReadKey(m, f.key.value);
      assert [] + f.key.value == f.key.value;
      TooLong(m.(maskArray := f.key.value, state := Payload, index := 0, data := Some([])), bs);
    } else {
      assert KeyBytes(f) + bs == bs;
      TooLong(q.(state := Payload, index := 0, data := Some([])), bs);
    }
  }

  /** A well-formed frame is read back if and only if its payload is below the limit. */
  lemma ReadBackIff(p: Parser, f: Frame)
    requires Valid(p) && p.state == HeaderB1 && WellFormed(f)
    ensures if |f.payload| < MAX_PAYLOAD then Ends(ParseAll(p, Encode(f)), p, f)
            else ParseAll(p, Encode(f)) == Raised(PayloadExceeded)
  {
    if |f.payload| < MAX_PAYLOAD {
      FrameRoundTrip(p, f);
    } else {
      var q := ReadHead(p, f);
      OversizedBody(q, p, f);
      ParseConcat(p, Head(f), KeyBytes(f) + Masked(f.key, f.payload, 0));
    }
  }

  ghost predicate Sendable(fs: seq<Frame>) {
    forall i :: 0 <= i < |fs| ==> WellFormed(fs[i]) && |fs[i].payload| < MAX_PAYLOAD
  }

  lemma FrameThen(p: Parser, f: Frame, rest: seq<Byte>) returns (q: Parser)
    requires Valid(p) && p.state == HeaderB1 && WellFormed(f) && |f.payload| < MAX_PAYLOAD
    ensures Valid(q) && q.state == HeaderB1 && q.delivered == p.delivered + Received(f)
    ensures ParseAll(p, Encode(f) + rest) == ParseAll(q, rest)
  {
    FrameRoundTrip(p, f);
    q := ParseAll(p, Encode(f)).p;
    ParseConcat(p, Encode(f), rest);
  }

  lemma Associates(a: seq<Message>, b: seq<Message>, c: seq<Message>)
    ensures a + b + c == a + (b + c)
  {
  }

  /** Any sequence of frames: exactly their payloads, in order, and the parser ready for the next. */
  lemma {:induction false} FramesRoundTrip(p: Parser, fs: seq<Frame>)
    requires Valid(p) && p.state == HeaderB1 && Sendable(fs)
    ensures ParseAll(p, EncodeAll(fs)).Next? && ParseAll(p, EncodeAll(fs)).p.state == HeaderB1
    ensures ParseAll(p, EncodeAll(fs)).p.delivered == p.delivered + ReceivedAll(fs)
    decreases |fs|
  {
    if fs != [] {
      var rest := fs[1..];
      var q := FrameThen(p, fs[0], EncodeAll(rest));
      FramesRoundTrip(q, rest);
      Associates(p.delivered, Received(fs[0]), ReceivedAll(rest));
    }
  }

  // ---------- what any bytes on the wire mean ----------

  /** Byte i of a masked payload is undone with byte i mod 4 of the key. */
  function Undone(key: Key, wire: seq<Byte>): (data: seq<Byte>)
    ensures |data| == |wire| && forall i :: 0 <= i < |wire| ==> data[i] == Xor(wire[i], key[i % 4])
  {
    seq(|wire|, i requires 0 <= i < |wire| => Xor(wire[i], key[i % 4]))
  }

  lemma {:induction false} MaskUndone(key: Key, wire: seq<Byte>, n: nat)
    requires n <= |wire|
    ensures Masked(Some(key), Undone(key, wire)[n..], n) == wire[n..]
    decreases |wire| - n
  {
    if n < |wire| {
      MaskUndone(key, wire, n + 1);
      XorTwice(wire[n], key[n % 4]);
      var rest := Undone(key, wire)[n..];
      MaskedFirst(Some(key), rest[0], rest[1..], rest, n);
      assert wire[n..] == [wire[n]] + wire[n + 1..];
    }
  }

  /**
   A short masked frame, whatever its bytes: the low four bits of the first byte are the opcode, the
   second byte is 128 and the length, then come the key and the payload, masked with the key byte by
   byte.  Continuation, text and binary frames are delivered, the other ones, close apart, skipped.
   */
  lemma MaskedFrameMeans(p: Parser, first: Byte, key: Key, wire: seq<Byte>)
    requires Valid(p) && p.state == HeaderB1 && first % 16 != 8 && |wire| <= 125
    ensures var r := ParseAll(p, [first, 128 + |wire|] + key + wire);
            && r.Next? && r.p.state == HeaderB1
            && r.p.delivered == p.delivered +
               if first % 16 <= 2 then [Message(first % 16, if wire == [] then None else Some(Undone(key, wire)))] else []
  {
    var f := Frame(first / 16, first % 16, Some(key), Seven, Undone(key, wire));
    MaskUndone(key, wire, 0);
    assert Undone(key, wire)[0..] == Undone(key, wire) && wire[0..] == wire;
    FrameRoundTrip(p, f);
    assert Encode(f) == [first, 128 + |wire|] + key + wire;
  }

  lemma FirstByte(first: Byte)
    ensures 16 * (first / 16) + first % 16 == first && first / 16 < 16
  {
  }

  lemma PlainEncoding(f: Frame, head: seq<Byte>)
    requires WellFormed(f) && f.key.None? && Head(f) == head
    ensures Encode(f) == head + f.payload
  {
    Unmasked(f.payload, 0);
    assert KeyBytes(f) + f.payload == f.payload;
  }

  /** The same without a mask. */
  lemma PlainFrameMeans(p: Parser, first: Byte, wire: seq<Byte>)
    requires Valid(p) && p.state == HeaderB1 && first % 16 != 8 && |wire| <= 125
    ensures var r := ParseAll(p, [first, |wire|] + wire);
            && r.Next? && r.p.state == HeaderB1
            && r.p.delivered == p.delivered +
               if first % 16 <= 2 then [Message(first % 16, if wire == [] then None else Some(wire))] else []
  {
    var f := Frame(first / 16, first % 16, None, Seven, wire);
    FirstByte(first);
    PlainEncoding(f, [first, |wire|]);
    FrameRoundTrip(p, f);
  }

  /** A frame that is delivered, and its bytes. */
  ghost predicate Carries(f: Frame, opcode: nat, wire: seq<Byte>, bytes: seq<Byte>) {
    WellFormed(f) && |f.payload| < MAX_PAYLOAD && Encode(f) == bytes && Received(f) == [Message(opcode, Some(wire))]
  }

  lemma LongFrame(first: Byte, hi: Byte, lo: Byte, wire: seq<Byte>) returns (f: Frame)
    requires first % 16 <= 2 && |wire| == 256 * hi + lo && wire != []
    ensures Carries(f, first % 16, wire, [first, 126, hi, lo] + wire)
  {
    LengthIs(hi, lo);
    FirstByte(first);
    f := Frame(first / 16, first % 16, None, Sixteen, wire);
    PlainEncoding(f, [first, 126, hi, lo]);
  }

  lemma VeryLongFrame(first: Byte, hi: Byte, lo: Byte, wire: seq<Byte>) returns (f: Frame)
    requires first % 16 <= 2 && |wire| == 256 * hi + lo && wire != []
    ensures Carries(f, first % 16, wire, [first, 127, 0, 0, 0, 0, 0, 0, hi, lo] + wire)
  {
    LengthIs(hi, lo);
    FirstByte(first);
    f := Frame(first / 16, first % 16, None, SixtyFour, wire);
    PlainEncoding(f, [first, 127, 0, 0, 0, 0, 0, 0, hi, lo]);
  }

  lemma CarriedIsRead(p: Parser, f: Frame, opcode: nat, wire: seq<Byte>, bytes: seq<Byte>)
    requires Valid(p) && p.state == HeaderB1 && Carries(f, opcode, wire, bytes)
    ensures Delivers(p, bytes, Message(opcode, Some(wire)))
  {
    FrameRoundTrip(p, f);
  }

  /** From these bytes exactly this message comes, and the parser is ready for the next frame. */
  ghost predicate Delivers(p: Parser, bytes: seq<Byte>, m: Message)
    requires Valid(p)
  {
    var r := ParseAll(p, bytes);
    r.Next? && r.p.state == HeaderB1 && r.p.delivered == p.delivered + [m]
  }

  /** Longer frames: 126 and two bytes of length, the most significant first. */
  lemma LongFrameMeans(p: Parser, first: Byte, hi: Byte, lo: Byte, wire: seq<Byte>)
    requires Valid(p) && p.state == HeaderB1 && first % 16 <= 2 && |wire| == 256 * hi + lo && wire != []
    ensures Delivers(p, [first, 126, hi, lo] + wire, Message(first % 16, Some(wire)))
  {
    var f := LongFrame(first, hi, lo, wire);
    CarriedIsRead(p, f, first % 16, wire, [first, 126, hi, lo] + wire);
  }

  /** Or 127 and eight bytes. */
  lemma VeryLongFrameMeans(p: Parser, first: Byte, hi: Byte, lo: Byte, wire: seq<Byte>)
    requires Valid(p) && p.state == HeaderB1 && first % 16 <= 2 && |wire| == 256 * hi + lo && wire != []
    ensures Delivers(p, [first, 127, 0, 0, 0, 0, 0, 0, hi, lo] + wire, Message(first % 16, Some(wire)))
  {
    var f := VeryLongFrame(first, hi, lo, wire);
    CarriedIsRead(p, f, first % 16, wire, [first, 127, 0, 0, 0, 0, 0, 0, hi, lo] + wire);
  }

  lemma LengthIs(hi: Byte, lo: Byte)
    ensures ToBytes(256 * hi + lo, 2) == [hi, lo] && ToBytes(256 * hi + lo, 8) == [0, 0, 0, 0, 0, 0, hi, lo]
  {
    var n := 256 * hi + lo;
    assert n / 256 == hi && n % 256 == lo && hi / 256 == 0;
    assert ToBytes(0, 2) == [0, 0];
    assert ToBytes(0, 4) == [0, 0, 0, 0];
    assert ToBytes(0, 6) == [0, 0, 0, 0, 0, 0];
    assert ToBytes(hi, 1) == [hi];
    assert ToBytes(hi, 7) == ToBytes(0, 6) + [hi];
    assert ToBytes(n, 2) == ToBytes(hi, 1) + [lo];
    assert ToBytes(n, 8) == ToBytes(hi, 7) + [lo];
  }

  /** A close frame ends the connection, with or without a payload. */
  lemma CloseRaises(p: Parser, first: Byte)
    requires Valid(p) && p.state == HeaderB1 && first % 16 == 8
    ensures ParseAll(p, [first, 0]) == Raised(ClientClose)
  {
    ParseFirst(p, first, [0]);
    assert [first, 0] == [first] + [0];
    ParseOne(Parse(p, first).p, 0);
  }

  // ---------- the encoder ----------

  /** One unfragmented, unmasked frame, its length in the shortest form that holds it. */
  function MessageFrame(s: seq<Byte>, text: bool): (f: Frame)
    requires |s| < U64
    ensures WellFormed(f) && IsData(f.opcode)
  {
    Frame(8, if text then 1 else 2, None, if |s| <= 125 then Seven else if |s| <= 65535 then Sixteen else SixtyFour, s)
  }

  /** `text` chooses between the two data opcodes. */
  method SendMessage(s: seq<Byte>, text: bool) returns (out: seq<Byte>)
    requires |s| < U64
    ensures out == Encode(MessageFrame(s, text))
  {
    var header: seq<Byte> := [if text then 0x81 else 0x82];
    var length := |s|;
    if length <= 125 {
      header := header + [length];
    } else if length <= 65535 {
      header := header + [126] + ToBytes(length, 2);
    } else {
      header := header + [127] + ToBytes(length, 8);
    }
    ghost var f := MessageFrame(s, text);
    assert header == Head(f);
    Unmasked(s, 0);
    out := if length > 0 then header + s else header;
    assert KeyBytes(f) + s == s;
  }

  /** The bytes themselves: fin and opcode, the length in one, three or nine bytes, and the message as it is. */
  lemma SentBytes(s: seq<Byte>, text: bool)
    requires |s| <= 65535
    ensures var first: Byte := if text then 0x81 else 0x82;
            Encode(MessageFrame(s, text)) ==
            (if |s| <= 125 then [first, |s|] else [first, 126, |s| / 256, |s| % 256]) + s
  {
    var f, first := MessageFrame(s, text), if text then 0x81 else 0x82;
    if |s| <= 125 {
      PlainEncoding(f, [first, |s|]);
    } else {
      LengthIs(|s| / 256, |s| % 256);
      PlainEncoding(f, [first, 126, |s| / 256, |s| % 256]);
    }
  }

  /** What one end sends the other end's parser delivers, if and only if it is below the limit. */
  lemma SentIsReceived(p: Parser, s: seq<Byte>, text: bool)
    requires Valid(p) && p.state == HeaderB1 && |s| < U64
    ensures var r := ParseAll(p, Encode(MessageFrame(s, text)));
            if |s| < 4_194_304 then
              r.Next? && r.p.state == HeaderB1
              && r.p.delivered == p.delivered + [Message(if text then 1 else 2, if s == [] then None else Some(s))]
            else r == Raised(PayloadExceeded)
  {
    ReadBackIff(p, MessageFrame(s, text));
  }

  lemma {:induction false} Unmasked(s: seq<Byte>, i: nat)
    ensures Masked(None, s, i) == s
    decreases |s|
  {
    if s != [] {
      Unmasked(s[1..], i + 1);
    }
  }

  // ---------- the connection object ----------

  class WebSocket {
    var state: State
    var opcode: nat
    var hasMask: bool
    var maskArray: seq<Byte>
    var length: nat
    var lengthArray: seq<Byte>
    var index: nat
    var data: Option<seq<Byte>>
    var delivered: seq<Message>    // what handleMessage has been called with

    ghost function View(): Parser
      reads this
    {
      Parser(state, opcode, hasMask, maskArray, length, lengthArray, index, data, delivered)
    }

    constructor ()
      ensures View() == FRESH
    {
      state, opcode, hasMask, maskArray, length := HeaderB1, 0, false, [], 0;
      lengthArray, index, data, delivered := [], 0, None, [];
    }

    /** Hand the packet over and, whether or not that raises, get ready for the next header. */
    method Handle() returns (raised: Option<Reason>)
      modifies this
      ensures match HandlePacket(old(View()))
              case Next(q) => raised.None? && View() == q
              case Raised(why) => raised == Some(why) && state == HeaderB1 && data.None?
    {
      raised := None;
      if opcode == OP_CLOSE {
        raised := Some(ClientClose);
      } else if IsData(opcode) {
        delivered := delivered + [Message(opcode, data)];
      }
      state, data := HeaderB1, None;
    }

    method BeginPayload() returns (raised: Option<Reason>)
      modifies this
      ensures Does(StartPayload(old(View())), raised)
    {
      raised := None;
      if length <= 0 {
        raised := Handle();
      } else {
        index, data, state := 0, Some([]), Payload;
      }
    }

    method LengthKnown() returns (raised: Option<Reason>)
      modifies this
      ensures Does(AfterLength(old(View())), raised)
    {
      raised := None;
      if hasMask {
        maskArray, state := [], Mask;
      } else {
        raised := BeginPayload();
      }
    }

    /** The object has done what the outcome says. */
    ghost predicate Does(o: Outcome, raised: Option<Reason>)
      reads this
    {
      match o
      case Next(q) => raised.None? && View() == q
      case Raised(why) => raised == Some(why)
    }

    method ParsePayload(b: Byte) returns (raised: Option<Reason>)
      requires Valid(View()) && state == Payload
      modifies this
      ensures Does(Parse(old(View()), b), raised)
    {
      raised := None;
      var c := if hasMask then Xor(b, maskArray[index % 4]) else b;
      data := Some(data.value + [c]);
      if |data.value| >= MAX_PAYLOAD {
        return Some(PayloadExceeded);
      }
      if index + 1 == length {
        raised := Handle();
      } else {
        index := index + 1;
      }
    }

    method ParseMessage(b: Byte) returns (raised: Option<Reason>)
      requires Valid(View())
      modifies this
      ensures Does(Parse(old(View()), b), raised)
      ensures Parse(old(View()), b).Next? ==> raised.None? && View() == Parse(old(View()), b).p
    {
      raised := None;
      match state {
        case HeaderB1 =>
          opcode, state := b % 16, HeaderB2;
        case HeaderB2 =>
          var n := b % 128;
          hasMask := b >= 128;
          if n <= 125 {
            length := n;
            raised := LengthKnown();
          } else {
            lengthArray, state := [], if n == 126 then LengthShort else LengthLong;
          }
        case LengthShort =>
          lengthArray := lengthArray + [b];
          if |lengthArray| > 2 { return Some(ShortLengthExceeded); }
          if |lengthArray| == 2 {
            length := FromBytes(lengthArray);
            raised := LengthKnown();
          }
        case LengthLong =>
          lengthArray := lengthArray + [b];
          if |lengthArray| > 8 { return Some(LongLengthExceeded); }
          if |lengthArray| == 8 {
            length := FromBytes(lengthArray);
            raised := LengthKnown();
          }
        case Mask =>
          maskArray := maskArray + [b];
          if |maskArray| > 4 { return Some(MaskExceeded); }
          if |maskArray| == 4 {
            raised := BeginPayload();
          }
        case Payload =>
          raised := ParsePayload(b);
      }
    }
  }
}
