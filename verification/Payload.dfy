/** The three payloads: packing and unpacking of little-endian fields, and their bijection. */
module Payload {
  import opened Machine
  import opened FrameEncoder
  import opened Framing
  import opened Decoder
  import opened Delivery

  const VER: byte := 1
  const TYPE_ACCEL: byte := 1
  const TYPE_TEMP: byte := 2
  const TYPE_CURRENT: byte := 3

  datatype Option<T> = None | Some(value: T)

  // ----- messages

  datatype Message =
    | Accel(seqno: word, x: int32, y: int32, z: int32)
    | Temp(seqno: word, centi: int16)
    | Current(seqno: word, milliamps: int32)

  datatype Envelope = Envelope(ver: byte, kind: byte, seqno: word)

  function PutEnvelope(kind: byte, seqno: word): (r: seq<byte>)
    ensures |r| == 4
  {
    [VER, kind] + Le16(seqno)
  }

  /** The payload bytes of a message. */
  function Pack(m: Message): seq<byte> {
    match m
    case Accel(n, x, y, z) => PutEnvelope(TYPE_ACCEL, n) + Le32(U32(x)) + Le32(U32(y)) + Le32(U32(z))
    case Temp(n, t) => PutEnvelope(TYPE_TEMP, n) + Le16(U16(t))
    case Current(n, c) => PutEnvelope(TYPE_CURRENT, n) + Le32(U32(c))
  }

  function UnpackEnvelope(p: seq<byte>): Option<Envelope> {
    if |p| < 4 then None else Some(Envelope(p[0], p[1], FromLe16(p[2], p[3])))
  }

  function Field32(p: seq<byte>, i: nat): int32
    requires i + 4 <= |p|
  {
    I32(FromLe32(p[i], p[i + 1], p[i + 2], p[i + 3]))
  }

  function UnpackAccel(p: seq<byte>): Option<(Envelope, int32, int32, int32)> {
    if |p| < PAYLOAD_MAX then None
    else Some((UnpackEnvelope(p).value, Field32(p, 4), Field32(p, 8), Field32(p, 12)))
  }

  function UnpackTemp(p: seq<byte>): Option<int16> {
    if |p| < 6 then None else Some(I16(FromLe16(p[4], p[5])))
  }

  function UnpackCurrent(p: seq<byte>): Option<int32> {
    if |p| < 8 then None else Some(Field32(p, 4))
  }

  /** Dispatch on the envelope's type, then read the matching body. */
  function Dispatch(p: seq<byte>): Option<Message> {
    match UnpackEnvelope(p)
    case None => None
    case Some(e) =>
      if e.kind == TYPE_ACCEL then
        match UnpackAccel(p) case None => None case Some(f) => Some(Accel(e.seqno, f.1, f.2, f.3))
      else if e.kind == TYPE_TEMP then
        match UnpackTemp(p) case None => None case Some(t) => Some(Temp(e.seqno, t))
      else if e.kind == TYPE_CURRENT then
        match UnpackCurrent(p) case None => None case Some(c) => Some(Current(e.seqno, c))
      else None
  }

  /** The one length that a message of each type has. */
  function LengthOf(m: Message): nat {
    match m
    case Accel(_, _, _, _) => 16
    case Temp(_, _) => 6
    case Current(_, _) => 8
  }

  // ----- round trips

  lemma EnvelopeInverse(kind: byte, n: word, body: seq<byte>)
    ensures UnpackEnvelope(PutEnvelope(kind, n) + body) == Some(Envelope(VER, kind, n))
  {
    Le16Inverse(n);
  }

  lemma FieldInverse(before: seq<byte>, x: int32, after: seq<byte>)
    ensures Field32(before + Le32(U32(x)) + after, |before|) == x
  {
    Le32Inverse(U32(x));
    Signed(x, 0);
    var p, i := before + Le32(U32(x)) + after, |before|;
    assert p[i] == Le32(U32(x))[0] && p[i + 1] == Le32(U32(x))[1];
    assert p[i + 2] == Le32(U32(x))[2] && p[i + 3] == Le32(U32(x))[3];
  }

  lemma DispatchAccel(n: word, x: int32, y: int32, z: int32)
    ensures Dispatch(Pack(Accel(n, x, y, z))) == Some(Accel(n, x, y, z))
  {
    var e, a, b, c := PutEnvelope(TYPE_ACCEL, n), Le32(U32(x)), Le32(U32(y)), Le32(U32(z));
    var p := Pack(Accel(n, x, y, z));
    EnvelopeInverse(TYPE_ACCEL, n, a + b + c);
    assert p == e + (a + b + c);
    FieldInverse(e, x, b + c);
    assert p == e + a + (b + c);
    FieldInverse(e + a, y, c);
    assert p == e + a + b + c;
    FieldInverse(e + a + b, z, []);
    assert p == e + a + b + c + [];
  }

  lemma DispatchTemp(n: word, t: int16)
    ensures Dispatch(Pack(Temp(n, t))) == Some(Temp(n, t))
  {
    EnvelopeInverse(TYPE_TEMP, n, Le16(U16(t)));
    Le16Inverse(U16(t));
    Signed16(t, 0);
  }

  lemma DispatchCurrent(n: word, c: int32)
    ensures Dispatch(Pack(Current(n, c))) == Some(Current(n, c))
  {
    EnvelopeInverse(TYPE_CURRENT, n, Le32(U32(c)));
    FieldInverse(PutEnvelope(TYPE_CURRENT, n), c, []);
    assert Pack(Current(n, c)) == PutEnvelope(TYPE_CURRENT, n) + Le32(U32(c)) + [];
  }

  /** Unpacking undoes packing for every field value of every type, at that type's length. */
  lemma UnpackPack(m: Message)
    ensures Dispatch(Pack(m)) == Some(m)
    ensures |Pack(m)| == LengthOf(m) && Admissible(Pack(m))
  {
    match m
    case Accel(n, x, y, z) => DispatchAccel(n, x, y, z);
    case Temp(n, t) => DispatchTemp(n, t);
    case Current(n, c) => DispatchCurrent(n, c);
  }

  // ----- where the fields stand

  /** Bytes i and i + 1 hold v in two's complement, low byte first. */
  predicate Holds16(p: seq<byte>, i: nat, v: int)
    requires i + 2 <= |p|
  {
    var b0: int, b1: int := p[i], p[i + 1];
    b0 + 0x100 * b1 == if v < 0 then v + 0x1_0000 else v
  }

  /** Bytes i to i + 3 hold v in two's complement, low byte first. */
  predicate Holds32(p: seq<byte>, i: nat, v: int)
    requires i + 4 <= |p|
  {
    var b0: int, b1: int, b2: int, b3: int := p[i], p[i + 1], p[i + 2], p[i + 3];
    b0 + 0x100 * b1 + 0x1_0000 * b2 + 0x100_0000 * b3 == if v < 0 then v + 0x1_0000_0000 else v
  }

  lemma Le16Holds(before: seq<byte>, v: int, u: word, after: seq<byte>)
    requires u == if v < 0 then v + 0x1_0000 else v
    ensures Holds16(before + Le16(u) + after, |before|, v)
  {
    Le16Inverse(u);
    var p, i := before + Le16(u) + after, |before|;
    assert p[i] == Le16(u)[0] && p[i + 1] == Le16(u)[1];
  }

  lemma Le32Holds(before: seq<byte>, x: int32, after: seq<byte>)
    ensures Holds32(before + Le32(U32(x)) + after, |before|, x)
  {
    Le32Inverse(U32(x));
    TwosComplement(0, x);
    var p, i := before + Le32(U32(x)) + after, |before|;
    assert p[i] == Le32(U32(x))[0] && p[i + 1] == Le32(U32(x))[1];
    assert p[i + 2] == Le32(U32(x))[2] && p[i + 3] == Le32(U32(x))[3];
  }

  lemma EnvelopeLayout(kind: byte, n: word, body: seq<byte>)
    ensures var p := PutEnvelope(kind, n) + body;
      p[0] == 1 && p[1] == kind && Holds16(p, 2, n)
  {
    Le16Holds([VER, kind], n, n, body);
    assert PutEnvelope(kind, n) + body == [VER, kind] + Le16(n) + body;
  }

  /** The wire layout: version, type and sequence number, then the fields of the type. */
  lemma PackLayout(m: Message)
    ensures |Pack(m)| == LengthOf(m) && Pack(m)[0] == 1 && Holds16(Pack(m), 2, m.seqno)
    ensures match m
      case Accel(_, x, y, z) =>
        && Pack(m)[1] == 1 && LengthOf(m) == 16
        && Holds32(Pack(m), 4, x) && Holds32(Pack(m), 8, y) && Holds32(Pack(m), 12, z)
      case Temp(_, t) => Pack(m)[1] == 2 && LengthOf(m) == 6 && Holds16(Pack(m), 4, t)
      case Current(_, c) => Pack(m)[1] == 3 && LengthOf(m) == 8 && Holds32(Pack(m), 4, c)
  {
    match m
    case Accel(n, x, y, z) => AccelLayout(n, x, y, z);
    case Temp(n, t) =>
      EnvelopeLayout(TYPE_TEMP, n, Le16(U16(t)));
      TwosComplement(t, 0);
      Le16Holds(PutEnvelope(TYPE_TEMP, n), t, U16(t), []);
      assert Pack(m) == PutEnvelope(TYPE_TEMP, n) + Le16(U16(t)) + [];
    case Current(n, c) =>
      EnvelopeLayout(TYPE_CURRENT, n, Le32(U32(c)));
      Le32Holds(PutEnvelope(TYPE_CURRENT, n), c, []);
      assert Pack(m) == PutEnvelope(TYPE_CURRENT, n) + Le32(U32(c)) + [];
  }

  lemma AccelLayout(n: word, x: int32, y: int32, z: int32)
    ensures var p := Pack(Accel(n, x, y, z));
      && |p| == 16 && p[0] == 1 && p[1] == 1 && Holds16(p, 2, n)
      && Holds32(p, 4, x) && Holds32(p, 8, y) && Holds32(p, 12, z)
  {
    var e, a, b, c := PutEnvelope(TYPE_ACCEL, n), Le32(U32(x)), Le32(U32(y)), Le32(U32(z));
    var p := Pack(Accel(n, x, y, z));
    EnvelopeLayout(TYPE_ACCEL, n, a + b + c);
    assert p == e + (a + b + c);
    Le32Holds(e, x, b + c);
    assert p == e + a + (b + c);
    Le32Holds(e + a, y, c);
    assert p == e + a + b + c;
    Le32Holds(e + a + b, z, []);
    assert p == e + a + b + c + [];
  }

  /** The lengths of messages are those an encoder accepts, and both ends are reached. */
  lemma PayloadBounds(m: Message)
    ensures PAYLOAD_MIN == 6 && PAYLOAD_MAX == 16 && PAYLOAD_MIN <= |Pack(m)| <= PAYLOAD_MAX
    ensures |Pack(m)| == PAYLOAD_MIN <==> m.Temp?
    ensures |Pack(m)| == PAYLOAD_MAX <==> m.Accel?
  {
    UnpackPack(m);
  }

  // ----- what the unpackers read

  lemma Field32Holds(p: seq<byte>, i: nat)
    requires i + 4 <= |p|
    ensures Holds32(p, i, Field32(p, i))
  {}

  /** For any bytes, of any version and type, what is read stands where the layout says. */
  lemma UnpackLayout(p: seq<byte>)
    ensures UnpackEnvelope(p).None? <==> |p| < 4
    ensures |p| >= 4 ==>
      var e := UnpackEnvelope(p).value;
      p[0] == e.ver && p[1] == e.kind && Holds16(p, 2, e.seqno)
    ensures UnpackAccel(p).None? <==> |p| < 16
    ensures |p| >= 16 ==>
      var (e, x, y, z) := UnpackAccel(p).value;
      && p[0] == e.ver && p[1] == e.kind && Holds16(p, 2, e.seqno)
      && Holds32(p, 4, x) && Holds32(p, 8, y) && Holds32(p, 12, z)
    ensures UnpackTemp(p).None? <==> |p| < 6
    ensures |p| >= 6 ==> Holds16(p, 4, UnpackTemp(p).value)
    ensures UnpackCurrent(p).None? <==> |p| < 8
    ensures |p| >= 8 ==> Holds32(p, 4, UnpackCurrent(p).value)
  {
    if |p| >= 8 {
      Field32Holds(p, 4);
    }
    if |p| >= 16 {
      Field32Holds(p, 8);
      Field32Holds(p, 12);
    }
  }

  lemma SameField(p: seq<byte>, q: seq<byte>, i: nat)
    requires p <= q && i + 4 <= |p|
    ensures Field32(q, i) == Field32(p, i)
  {}

  /** A longer buffer reads as its message, whatever follows, with the envelope packed. */
  lemma UnpackLonger(m: Message, t: seq<byte>)
    ensures match m
      case Accel(n, x, y, z) => UnpackAccel(Pack(m) + t) == Some((Envelope(1, 1, n), x, y, z))
      case Temp(n, c) => UnpackTemp(Pack(m) + t) == Some(c)
      case Current(n, c) => UnpackCurrent(Pack(m) + t) == Some(c)
    ensures UnpackEnvelope(Pack(m) + t) ==
      Some(Envelope(1, match m case Accel(_, _, _, _) => 1 case Temp(_, _) => 2 case Current(_, _) => 3, m.seqno))
  {
    var p := Pack(m);
    UnpackPack(m);
    PackLayout(m);
    UnpackLayout(p + t);
    if m.Accel? {
      SameField(p, p + t, 4);
      SameField(p, p + t, 8);
      SameField(p, p + t, 12);
    } else if m.Current? {
      SameField(p, p + t, 4);
    }
  }

  lemma FieldBytes(p: seq<byte>, i: nat)
    requires i + 4 <= |p|
    ensures Le32(U32(Field32(p, i))) == p[i..i + 4]
  {
    var u := FromLe32(p[i], p[i + 1], p[i + 2], p[i + 3]);
    FromLe32Inverse(p[i], p[i + 1], p[i + 2], p[i + 3]);
    Signed(0, u);
  }

  lemma EnvelopeBytes(p: seq<byte>)
    requires |p| >= 4
    ensures [p[0], p[1]] + Le16(UnpackEnvelope(p).value.seqno) == p[..4]
  {
    FromLe16Inverse(p[2], p[3]);
  }

  lemma AccelPacksBack(p: seq<byte>)
    requires |p| == 16 && p[0] == VER && p[1] == TYPE_ACCEL
    ensures Dispatch(p).Some? && Pack(Dispatch(p).value) == p
  {
    EnvelopeBytes(p);
    FieldBytes(p, 4);
    FieldBytes(p, 8);
    FieldBytes(p, 12);
    assert p == p[..4] + p[4..8] + p[8..12] + p[12..16];
  }

  lemma TempPacksBack(p: seq<byte>)
    requires |p| == 6 && p[0] == VER && p[1] == TYPE_TEMP
    ensures Dispatch(p).Some? && Pack(Dispatch(p).value) == p
  {
    EnvelopeBytes(p);
    var u := FromLe16(p[4], p[5]);
    FromLe16Inverse(p[4], p[5]);
    Signed16(0, u);
    assert p == p[..4] + [p[4], p[5]];
  }

  lemma CurrentPacksBack(p: seq<byte>)
    requires |p| == 8 && p[0] == VER && p[1] == TYPE_CURRENT
    ensures Dispatch(p).Some? && Pack(Dispatch(p).value) == p
  {
    EnvelopeBytes(p);
    FieldBytes(p, 4);
    assert p == p[..4] + p[4..8];
  }

  /**
    * Packing undoes unpacking exactly for the bytes that carry the protocol version and
    * their type's own length: the unpackers check neither.
    */
  lemma PackUnpack(p: seq<byte>)
    requires Dispatch(p).Some?
    ensures Pack(Dispatch(p).value) == p <==> p[0] == VER && |p| == LengthOf(Dispatch(p).value)
  {
    var m := Dispatch(p).value;
    if p[0] == VER && |p| == LengthOf(m) {
      match m
      case Accel(_, _, _, _) => AccelPacksBack(p);
      case Temp(_, _) => TempPacksBack(p);
      case Current(_, _) => CurrentPacksBack(p);
    }
  }

  /** Every list of messages survives framing, the wire and the decoder, from any state. */
  lemma MessagesSurvive(st: State, ms: seq<Message>, room: nat)
    requires ms != [] && room >= PAYLOAD_MAX
    ensures RunEvents(st, Frames(PackAll(ms)), room) == Emits(st, FLAG, room) + Deliveries(PackAll(ms))
    ensures forall k :: 0 <= k < |ms| ==> Dispatch(PackAll(ms)[k]) == Some(ms[k])
  {
    forall k | 0 <= k < |ms|
      ensures Dispatch(PackAll(ms)[k]) == Some(ms[k]) && Admissible(PackAll(ms)[k])
    {
      UnpackPack(ms[k]);
    }
    FramesDeliver(st, PackAll(ms), room);
  }

  function PackAll(ms: seq<Message>): (ps: seq<seq<byte>>)
    ensures |ps| == |ms|
    ensures forall k :: 0 <= k < |ms| ==> ps[k] == Pack(ms[k])
  {
    seq(|ms|, k requires 0 <= k < |ms| => Pack(ms[k]))
  }

  // ----- the C functions

  /** Store a 32-bit field at an offset, low byte first. */
  method Put32(buf: array<byte>, at: nat, u: uint32)
    requires at + 4 <= buf.Length
    modifies buf
    ensures buf[..] == old(buf[..at]) + Le32(u) + old(buf[at + 4..])
  {
    buf[at] := u % 0x100;
    buf[at + 1] := u / 0x100 % 0x100;
    buf[at + 2] := u / 0x1_0000 % 0x100;
    buf[at + 3] := u / 0x100_0000 % 0x100;
  }

  /** Store a 16-bit field at an offset, low byte first. */
  method Put16(buf: array<byte>, at: nat, u: word)
    requires at + 2 <= buf.Length
    modifies buf
    ensures buf[..] == old(buf[..at]) + Le16(u) + old(buf[at + 2..])
  {
    buf[at] := u % 0x100;
    buf[at + 1] := u / 0x100 % 0x100;
  }

  method WriteEnvelope(buf: array<byte>, kind: byte, seqno: word)
    requires buf.Length >= 4
    modifies buf
    ensures buf[..] == PutEnvelope(kind, seqno) + old(buf[4..])
  {
    buf[0] := VER;
    buf[1] := kind;
    buf[2] := seqno % 0x100;
    buf[3] := seqno / 0x100 % 0x100;
  }

  /** What a pack function leaves: nothing written, or the payload at the start of buf. */
  predicate Packed(room: bool, before: seq<byte>, after: seq<byte>, m: Message, n: int) {
    if room then n == LengthOf(m) <= |before| && after == Pack(m) + before[n..]
    else n == -1 && after == before
  }

  method PayloadPack(buf: array?<byte>, cap: nat, seqno: word, x: int32, y: int32, z: int32) returns (n: int)
    requires buf != null ==> cap <= buf.Length
    modifies buf
    ensures Packed(buf != null && cap >= 16, old(Contents(buf)), Contents(buf), Accel(seqno, x, y, z), n)
  {
    if buf == null || cap < 16 {
      return -1;
    }
    ghost var e, a, b := PutEnvelope(TYPE_ACCEL, seqno), Le32(U32(x)), Le32(U32(y));
    ghost var start := buf[..];
    WriteEnvelope(buf, TYPE_ACCEL, seqno);
    Splice(start, e, a);
    Put32(buf, 4, U32(x));
    Splice(start, e + a, b);
    Put32(buf, 8, U32(y));
    Splice(start, e + a + b, Le32(U32(z)));
    Put32(buf, 12, U32(z));
    n := 16;
  }

  method PackTempInto(buf: array?<byte>, cap: nat, seqno: word, centi: int16) returns (n: int)
    requires buf != null ==> cap <= buf.Length
    modifies buf
    ensures Packed(buf != null && cap >= 6, old(Contents(buf)), Contents(buf), Temp(seqno, centi), n)
  {
    if buf == null || cap < PAYLOAD_MIN {
      return -1;
    }
    ghost var start := buf[..];
    WriteEnvelope(buf, TYPE_TEMP, seqno);
    Splice(start, PutEnvelope(TYPE_TEMP, seqno), Le16(U16(centi)));
    Put16(buf, 4, U16(centi));
    n := 6;
  }

  method PackCurrentInto(buf: array?<byte>, cap: nat, seqno: word, milliamps: int32) returns (n: int)
    requires buf != null ==> cap <= buf.Length
    modifies buf
    ensures Packed(buf != null && cap >= 8, old(Contents(buf)), Contents(buf), Current(seqno, milliamps), n)
  {
    if buf == null || cap < 8 {
      return -1;
    }
    WriteEnvelope(buf, TYPE_CURRENT, seqno);
    Put32(buf, 4, U32(milliamps));
    n := 8;
  }

  /** The unpackers read from the first len bytes of buf; None is their error return. */
  method EnvelopeUnpack(buf: array?<byte>, len: nat) returns (r: Option<Envelope>)
    requires buf != null ==> len <= buf.Length
    ensures r == if buf == null then None else UnpackEnvelope(buf[..len])
  {
    if buf == null || len < 4 {
      return None;
    }
    r := Some(Envelope(buf[0], buf[1], FromLe16(buf[2], buf[3])));
  }

  method PayloadUnpack(buf: array?<byte>, len: nat) returns (r: Option<(Envelope, int32, int32, int32)>)
    requires buf != null ==> len <= buf.Length
    ensures r == if buf == null then None else UnpackAccel(buf[..len])
  {
    if buf == null || len < 16 {
      return None;
    }
    var x := I32(FromLe32(buf[4], buf[5], buf[6], buf[7]));
    var y := I32(FromLe32(buf[8], buf[9], buf[10], buf[11]));
    var z := I32(FromLe32(buf[12], buf[13], buf[14], buf[15]));
    r := Some((Envelope(buf[0], buf[1], FromLe16(buf[2], buf[3])), x, y, z));
  }

  method TempUnpack(buf: array?<byte>, len: nat) returns (r: Option<int16>)
    requires buf != null ==> len <= buf.Length
    ensures r == if buf == null then None else UnpackTemp(buf[..len])
  {
    if buf == null || len < 6 {
      return None;
    }
    r := Some(I16(FromLe16(buf[4], buf[5])));
  }

  method CurrentUnpack(buf: array?<byte>, len: nat) returns (r: Option<int32>)
    requires buf != null ==> len <= buf.Length
    ensures r == if buf == null then None else UnpackCurrent(buf[..len])
  {
    if buf == null || len < 8 {
      return None;
    }
    r := Some(I32(FromLe32(buf[4], buf[5], buf[6], buf[7])));
  }
}
