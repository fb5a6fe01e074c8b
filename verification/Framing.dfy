/**
  * HDLC-style framing: byte stuffing as in section 4.2 of RFC 1662, the frame
  * sk_frame_encode writes, and the destuffing that the decoder performs.
  */
module Framing {
  import opened Machine
  import opened CrcErrors

  const FLAG: byte := 0x7E
  const ESC: byte := 0x7D
  const ESC_XOR: byte := 0x20

  const PAYLOAD_MIN := 6
  const PAYLOAD_MAX := 16
  const FRAME_INNER := 18
  const FRAME_MAX := 38

  function Toggle(b: byte): byte {
    Xor8(b, ESC_XOR)
  }

  /** The bytes that one inner byte becomes on the wire. */
  function Unit(b: byte): seq<byte> {
    if b == FLAG || b == ESC then [ESC, Toggle(b)] else [b]
  }

  function Stuff(m: seq<byte>): seq<byte> {
    if m == [] then [] else Unit(m[0]) + Stuff(m[1..])
  }

  /** The number of bytes of m that have to be escaped. */
  function Escapes(m: seq<byte>): nat {
    if m == [] then 0 else (if m[0] == FLAG || m[0] == ESC then 1 else 0) + Escapes(m[1..])
  }

  /** A payload on the wire. */
  function Frame(payload: seq<byte>): seq<byte> {
    [FLAG] + Stuff(Seal(payload)) + [FLAG]
  }

  /** The inner bytes of a FLAG-free stretch of wire; esc tells whether an ESC is pending. */
  function Destuff(esc: bool, wire: seq<byte>): seq<byte>
    decreases wire
  {
    if wire == [] then []
    else if wire[0] == ESC then Destuff(true, wire[1..])
    else [if esc then Toggle(wire[0]) else wire[0]] + Destuff(false, wire[1..])
  }

  /** Whether an ESC is pending after the stretch. */
  function Pending(esc: bool, wire: seq<byte>): bool {
    if wire == [] then esc else wire[|wire| - 1] == ESC
  }

  /** Every ESC is followed by one of the two bytes an encoder writes there. */
  predicate WellEscaped(wire: seq<byte>) {
    forall i :: 0 <= i < |wire| && wire[i] == ESC ==> i + 1 < |wire| && wire[i + 1] in {0x5D, 0x5E}
  }

  // ----- the escape toggle

  lemma BitFive(b: byte)
    ensures BitsOf(b, 8) == BitsOf(b / 64, 2) + [b / 32 % 2 == 1] + BitsOf(b % 32, 5)
  {
    assert Pow2(5) == 32;
    BitsOfSum(b / 32, b % 32, 3, 5);
    BitsOfHalf(b / 32, 3);
    assert b / 32 / 2 == b / 64;
  }

  lemma MaskBits()
    ensures BitsOf(ESC_XOR, 8) == Zeros(2) + [true] + Zeros(5)
  {
    BitFive(ESC_XOR);
    BitsOfZero(2);
    BitsOfZero(5);
  }

  lemma XorMask(high: Bits, bit: bool, low: Bits)
    requires |high| == 2 && |low| == 5
    ensures Xor(high + [bit] + low, Zeros(2) + [true] + Zeros(5)) == high + [!bit] + low
  {
    var l, r := Xor(high + [bit] + low, Zeros(2) + [true] + Zeros(5)), high + [!bit] + low;
    assert forall i :: 0 <= i < 8 ==> l[i] == r[i];
  }

  lemma MovedBy32(b: byte, t: byte)
    requires t == if b / 32 % 2 == 1 then b - 32 else b + 32
    ensures t / 64 == b / 64 && t % 32 == b % 32 && t / 32 % 2 == 1 - b / 32 % 2
  {
    Whole(b);
    Parts(t, b / 64, 1 - b / 32 % 2, b % 32);
  }

  lemma Whole(b: byte)
    ensures b == 64 * (b / 64) + 32 * (b / 32 % 2) + b % 32
  {
    assert b / 32 / 2 == b / 64;
  }

  lemma Parts(b: byte, q: nat, e: nat, r: nat)
    requires b == 64 * q + 32 * e + r && e < 2 && r < 32
    ensures b / 64 == q && b / 32 % 2 == e && b % 32 == r
  {
    assert b / 32 == 2 * q + e;
  }

  /** Xor with 0x20 moves a byte up or down by 32. */
  lemma ToggleIs(b: byte)
    ensures Toggle(b) == if b / 32 % 2 == 1 then b - 32 else b + 32
  {
    var t: byte := if b / 32 % 2 == 1 then b - 32 else b + 32;
    BitFive(b);
    MaskBits();
    XorMask(BitsOf(b / 64, 2), b / 32 % 2 == 1, BitsOf(b % 32, 5));
    BitFive(t);
    MovedBy32(b, t);
    Powers();
    ValueOfBits(t, 8);
  }

  lemma ToggleTwice(b: byte)
    ensures Toggle(Toggle(b)) == b
  {
    Xor8Twice(b, ESC_XOR);
  }

  lemma ToggleSpecials()
    ensures Toggle(FLAG) == 0x5E && Toggle(ESC) == 0x5D
  {
    ToggleIs(FLAG);
    ToggleIs(ESC);
  }

  // ----- stuffing

  lemma {:induction false} StuffConcat(a: seq<byte>, b: seq<byte>)
    ensures Stuff(a + b) == Stuff(a) + Stuff(b)
  {
    if a == [] {
      assert a + b == b;
    } else {
      assert (a + b)[1..] == a[1..] + b;
      StuffConcat(a[1..], b);
    }
  }

  lemma StuffAppend(a: seq<byte>, b: byte)
    ensures Stuff(a + [b]) == Stuff(a) + Unit(b)
  {
    StuffConcat(a, [b]);
    assert [b][1..] == [];
    assert Stuff([b]) == Unit(b) + [];
  }

  lemma {:induction false} StuffLength(m: seq<byte>)
    ensures |Stuff(m)| == |m| + Escapes(m)
  {
    if m != [] {
      StuffLength(m[1..]);
    }
  }

  lemma {:induction false} EscapesBound(m: seq<byte>)
    ensures Escapes(m) <= |m|
  {
    if m != [] {
      EscapesBound(m[1..]);
    }
  }

  /** No FLAG occurs in stuffed bytes. */
  lemma {:induction false} StuffNoFlag(m: seq<byte>)
    ensures FLAG !in Stuff(m)
  {
    if m != [] {
      ToggleSpecials();
      StuffNoFlag(m[1..]);
    }
  }

  /** Destuffing a stretch in two parts: the second starts where the first left off. */
  lemma {:induction false} DestuffConcat(esc: bool, a: seq<byte>, b: seq<byte>)
    ensures Destuff(esc, a + b) == Destuff(esc, a) + Destuff(Pending(esc, a), b)
    ensures Pending(esc, a + b) == Pending(Pending(esc, a), b)
    decreases a
  {
    if a == [] {
      assert a + b == b;
    } else {
      assert (a + b)[1..] == a[1..] + b;
      PendingTail(esc, a);
      PendingTail(esc, a + b);
      DestuffConcat(a[0] == ESC, a[1..], b);
      DestuffFirst(esc, a);
      DestuffFirst(esc, a + b);
    }
  }

  lemma DestuffFirst(esc: bool, wire: seq<byte>)
    requires wire != []
    ensures var head := if wire[0] == ESC then [] else [if esc then Toggle(wire[0]) else wire[0]];
      Destuff(esc, wire) == head + Destuff(wire[0] == ESC, wire[1..])
  {}

  lemma PendingTail(esc: bool, wire: seq<byte>)
    requires wire != []
    ensures Pending(esc, wire) == Pending(wire[0] == ESC, wire[1..])
  {}

  /** Destuffing undoes stuffing and leaves no escape pending. */
  lemma {:induction false} DestuffStuff(m: seq<byte>)
    ensures Destuff(false, Stuff(m)) == m && !Pending(false, Stuff(m))
  {
    if m != [] {
      DestuffStuff(m[1..]);
      DestuffUnit(m[0]);
      DestuffConcat(false, Unit(m[0]), Stuff(m[1..]));
      assert m == [m[0]] + m[1..];
    }
  }

  lemma DestuffUnit(b: byte)
    ensures Destuff(false, Unit(b)) == [b] && !Pending(false, Unit(b))
  {
    ToggleSpecials();
    ToggleTwice(b);
    if b == FLAG || b == ESC {
      var u := [ESC, Toggle(b)];
      assert u[1..] == [Toggle(b)] && [Toggle(b)][1..] == [];
      assert Destuff(true, [Toggle(b)]) == [b] + Destuff(false, []);
      assert Destuff(false, u) == Destuff(true, u[1..]);
    } else {
      assert [b][1..] == [];
    }
  }

  // ----- which stretches of wire an encoder writes

  lemma {:induction false} StuffWellEscaped(m: seq<byte>)
    ensures WellEscaped(Stuff(m))
  {
    if m != [] {
      ToggleSpecials();
      StuffWellEscaped(m[1..]);
      WellEscapedUnit(m[0], Stuff(m[1..]));
    }
  }

  lemma WellEscapedUnit(b: byte, rest: seq<byte>)
    requires WellEscaped(rest)
    ensures WellEscaped(Unit(b) + rest)
  {
    ToggleSpecials();
    var u, w := Unit(b), Unit(b) + rest;
    forall i | 0 <= i < |w| && w[i] == ESC
      ensures i + 1 < |w| && w[i + 1] in {0x5D, 0x5E}
    {
      if i >= |u| {
        assert rest[i - |u|] == ESC;
        assert w[i + 1] == rest[i - |u| + 1];
      }
    }
  }

  /** Restuffing what a stretch destuffs to gives it back exactly when it is well escaped. */
  lemma Canonical(wire: seq<byte>)
    requires FLAG !in wire
    ensures wire == Stuff(Destuff(false, wire)) <==> WellEscaped(wire)
  {
    if wire == Stuff(Destuff(false, wire)) {
      StuffWellEscaped(Destuff(false, wire));
    }
    if WellEscaped(wire) {
      WellEscapedIsStuffed(wire);
    }
  }

  lemma WellEscapedTail(wire: seq<byte>, k: nat)
    requires WellEscaped(wire) && k <= |wire|
    ensures WellEscaped(wire[k..])
  {
    forall i | 0 <= i < |wire[k..]| && wire[k..][i] == ESC
      ensures i + 1 < |wire[k..]| && wire[k..][i + 1] in {0x5D, 0x5E}
    {
      assert wire[k + i] == ESC;
    }
  }

  /** An escaped pair is the unit of the byte it destuffs to. */
  lemma EscapedPair(wire: seq<byte>)
    requires |wire| >= 2 && wire[0] == ESC && wire[1] in {0x5D, 0x5E}
    ensures Destuff(false, wire) == [Toggle(wire[1])] + Destuff(false, wire[2..])
    ensures Unit(Toggle(wire[1])) == wire[..2]
  {
    UnitOfPair(wire[1]);
    assert wire[1..][0] == wire[1] && wire[1..][1..] == wire[2..];
  }

  lemma UnitOfPair(b: byte)
    requires b in {0x5D, 0x5E}
    ensures Unit(Toggle(b)) == [ESC, b]
  {
    ToggleSpecials();
    ToggleTwice(FLAG);
    ToggleTwice(ESC);
  }

  lemma {:induction false} WellEscapedIsStuffed(wire: seq<byte>)
    requires FLAG !in wire && WellEscaped(wire)
    ensures wire == Stuff(Destuff(false, wire))
    decreases |wire|
  {
    if wire == [] {
    } else if wire[0] == ESC {
      WellEscapedTail(wire, 2);
      WellEscapedIsStuffed(wire[2..]);
      RestuffPair(wire);
    } else {
      WellEscapedTail(wire, 1);
      WellEscapedIsStuffed(wire[1..]);
      RestuffByte(wire);
    }
  }

  lemma RestuffPair(wire: seq<byte>)
    requires |wire| >= 2 && wire[0] == ESC && wire[1] in {0x5D, 0x5E}
    requires wire[2..] == Stuff(Destuff(false, wire[2..]))
    ensures wire == Stuff(Destuff(false, wire))
  {
    EscapedPair(wire);
    StuffFirst(Toggle(wire[1]), Destuff(false, wire[2..]));
    assert wire == wire[..2] + wire[2..];
  }

  lemma RestuffByte(wire: seq<byte>)
    requires wire != [] && wire[0] != ESC && wire[0] != FLAG
    requires wire[1..] == Stuff(Destuff(false, wire[1..]))
    ensures wire == Stuff(Destuff(false, wire))
  {
    StuffFirst(wire[0], Destuff(false, wire[1..]));
    assert wire == [wire[0]] + wire[1..];
  }

  lemma StuffFirst(b: byte, m: seq<byte>)
    ensures Stuff([b] + m) == Unit(b) + Stuff(m)
  {
    assert ([b] + m)[1..] == m;
  }

  // ----- frames

  /** A frame's length is its payload, its CRC, two FLAGs and one byte for each escape. */
  lemma FrameLength(p: seq<byte>)
    ensures |Frame(p)| == |p| + 4 + Escapes(Seal(p))
    ensures |p| <= PAYLOAD_MAX ==> |Frame(p)| <= FRAME_MAX == 38
  {
    StuffLength(Seal(p));
    EscapesBound(Seal(p));
  }

  /** Between its two FLAGs a frame holds no FLAG, and only escapes an encoder writes. */
  lemma FrameInterior(p: seq<byte>)
    ensures var f := Frame(p);
      && |f| >= 2 && f[0] == FLAG && f[|f| - 1] == FLAG
      && FLAG !in f[1..|f| - 1]
      && WellEscaped(f[1..|f| - 1])
      && Destuff(false, f[1..|f| - 1]) == Seal(p)
  {
    var f := Frame(p);
    assert f[1..|f| - 1] == Stuff(Seal(p));
    StuffNoFlag(Seal(p));
    StuffWellEscaped(Seal(p));
    DestuffStuff(Seal(p));
  }

  /** The encoding is prefix-free, hence injective, over all payloads. */
  lemma FramePrefixFree(p: seq<byte>, q: seq<byte>)
    ensures Frame(p) <= Frame(q) <==> p == q
  {
    if Frame(p) <= Frame(q) {
      var f, g := Frame(p), Frame(q);
      FrameInterior(p);
      FrameInterior(q);
      forall k | 1 <= k < |g| - 1
        ensures g[k] != FLAG
      {
        assert g[k] == g[1..|g| - 1][k - 1];
      }
      assert g[|f| - 1] == FLAG;
      assert |f| == |g| && f == g;
      assert Seal(p) == Seal(q);
      assert Seal(p)[..|p|] == p && Seal(q)[..|q|] == q;
    }
  }
}
