/**
  * Damage on the wire itself. Flipped bits that make and unmake no FLAG and no ESC reach
  * the inner bytes with their number and their spread, so what the CRC detects there it
  * detects on the wire.
  */
module WireDamage {
  import opened Machine
  import opened CrcErrors
  import opened Framing
  import opened Decoder
  import opened Stream
  import opened Delivery

  /** Two stretches of wire with the same FLAGs, none, and the same ESCs. */
  predicate SameEscapes(v: seq<byte>, w: seq<byte>) {
    && |v| == |w| && FLAG !in v && FLAG !in w
    && forall i :: 0 <= i < |v| ==> (v[i] == ESC <==> w[i] == ESC)
  }

  /** The bits in which two byte strings differ. */
  function Diff(a: seq<byte>, b: seq<byte>): (d: Bits)
    requires |a| == |b|
    ensures |d| == 8 * |a|
  {
    Xor(BytesBits(a), BytesBits(b))
  }

  function DiffByte(x: byte, y: byte): (d: Bits)
    ensures |d| == 8
  {
    Xor(BitsOf(x, 8), BitsOf(y, 8))
  }

  lemma XorConcat(a: Bits, b: Bits, c: Bits, d: Bits)
    requires |a| == |c| && |b| == |d|
    ensures Xor(a + b, c + d) == Xor(a, c) + Xor(b, d)
  {}

  lemma DiffFirst(x: byte, a: seq<byte>, y: byte, b: seq<byte>)
    requires |a| == |b|
    ensures Diff([x] + a, [y] + b) == DiffByte(x, y) + Diff(a, b)
  {
    assert ([x] + a)[1..] == a && ([y] + b)[1..] == b;
    XorConcat(BitsOf(x, 8), BytesBits(a), BitsOf(y, 8), BytesBits(b));
  }

  /** The escape toggle moves both of two bytes alike. */
  lemma DiffToggled(x: byte, y: byte)
    ensures DiffByte(Toggle(x), Toggle(y)) == DiffByte(x, y)
  {
    Xor8Bits(x, ESC_XOR);
    Xor8Bits(y, ESC_XOR);
    var l, r := DiffByte(Toggle(x), Toggle(y)), DiffByte(x, y);
    assert forall i :: 0 <= i < 8 ==> l[i] == r[i];
  }

  lemma {:induction false} SameInnerLength(esc: bool, v: seq<byte>, w: seq<byte>)
    requires SameEscapes(v, w)
    ensures |Destuff(esc, v)| == |Destuff(esc, w)|
    decreases v
  {
    if v != [] {
      SameTail(v, w);
      SameInnerLength(v[0] == ESC, v[1..], w[1..]);
    }
  }

  lemma SameTail(v: seq<byte>, w: seq<byte>)
    requires SameEscapes(v, w) && v != []
    ensures SameEscapes(v[1..], w[1..]) && (v[0] == ESC <==> w[0] == ESC)
  {
    assert forall i :: 0 <= i < |v| - 1 ==> v[1..][i] == v[i + 1] && w[1..][i] == w[i + 1];
  }

  /** The bits in which the inner bytes of two stretches differ. */
  function InnerDiff(esc: bool, v: seq<byte>, w: seq<byte>): Bits
    requires SameEscapes(v, w)
  {
    SameInnerLength(esc, v, w);
    Diff(Destuff(esc, v), Destuff(esc, w))
  }

  /** An ESC adds eight equal bits on the wire and none inside. */
  lemma PastEscape(esc: bool, v: seq<byte>, w: seq<byte>)
    requires SameEscapes(v, w) && v != [] && v[0] == ESC
    ensures SameEscapes(v[1..], w[1..])
    ensures Diff(v, w) == Zeros(8) + Diff(v[1..], w[1..])
    ensures InnerDiff(esc, v, w) == InnerDiff(true, v[1..], w[1..])
  {
    SameTail(v, w);
    assert v == [ESC] + v[1..] && w == [ESC] + w[1..];
    DiffFirst(ESC, v[1..], ESC, w[1..]);
    assert DiffByte(ESC, ESC) == Zeros(8);
  }

  /** Any other byte adds the same eight bits on both sides. */
  lemma PastByte(esc: bool, v: seq<byte>, w: seq<byte>)
    requires SameEscapes(v, w) && v != [] && v[0] != ESC
    ensures SameEscapes(v[1..], w[1..])
    ensures Diff(v, w) == DiffByte(v[0], w[0]) + Diff(v[1..], w[1..])
    ensures InnerDiff(esc, v, w) == DiffByte(v[0], w[0]) + InnerDiff(false, v[1..], w[1..])
  {
    SameTail(v, w);
    SameInnerLength(false, v[1..], w[1..]);
    assert v == [v[0]] + v[1..] && w == [w[0]] + w[1..];
    DiffFirst(v[0], v[1..], w[0], w[1..]);
    var x, y := if esc then Toggle(v[0]) else v[0], if esc then Toggle(w[0]) else w[0];
    DiffFirst(x, Destuff(false, v[1..]), y, Destuff(false, w[1..]));
    DiffToggled(v[0], w[0]);
  }

  /** Destuffing keeps the number of flipped bits. */
  lemma {:induction false} FlipsKept(esc: bool, v: seq<byte>, w: seq<byte>)
    requires SameEscapes(v, w)
    ensures Ones(InnerDiff(esc, v, w)) == Ones(Diff(v, w))
    decreases v
  {
    if v == [] {
    } else if v[0] == ESC {
      PastEscape(esc, v, w);
      FlipsKept(true, v[1..], w[1..]);
      OnesConcat(Zeros(8), Diff(v[1..], w[1..]));
      NoOnes(Zeros(8));
    } else {
      PastByte(esc, v, w);
      FlipsKept(false, v[1..], w[1..]);
      OnesConcat(DiffByte(v[0], w[0]), Diff(v[1..], w[1..]));
      OnesConcat(DiffByte(v[0], w[0]), InnerDiff(false, v[1..], w[1..]));
    }
  }

  /** All one bits of d lie from lo on and before hi. */
  predicate Within(d: Bits, lo: int, hi: int) {
    forall k :: 0 <= k < |d| && d[k] ==> lo <= k < hi
  }

  lemma WithinConcat(h: Bits, d: Bits, lo: int, hi: int)
    ensures Within(h + d, lo, hi) <==> Within(h, lo, hi) && Within(d, lo - |h|, hi - |h|)
  {
    var s := h + d;
    assert forall k :: 0 <= k < |h| ==> s[k] == h[k];
    if Within(s, lo, hi) {
      assert forall k :: 0 <= k < |d| ==> d[k] == s[k + |h|];
    }
    if Within(h, lo, hi) && Within(d, lo - |h|, hi - |h|) {
      assert forall k :: |h| <= k < |s| ==> s[k] == d[k - |h|];
    }
  }

  lemma WithinLess(d: Bits, lo: int, hi: int, lo': int, hi': int)
    requires Within(d, lo, hi) && (lo' <= lo || lo' <= 0) && hi <= hi'
    ensures Within(d, lo', hi')
  {}

  /** Dropping the ESCs moves no flipped bit towards the end. */
  lemma {:induction false} EndKept(esc: bool, v: seq<byte>, w: seq<byte>, hi: int)
    requires SameEscapes(v, w) && Within(Diff(v, w), 0, hi)
    ensures Within(InnerDiff(esc, v, w), 0, hi)
    decreases v
  {
    if v == [] {
    } else if v[0] == ESC {
      PastEscape(esc, v, w);
      WithinConcat(Zeros(8), Diff(v[1..], w[1..]), 0, hi);
      WithinLess(Diff(v[1..], w[1..]), -8, hi - 8, 0, hi);
      EndKept(true, v[1..], w[1..], hi);
    } else {
      PastByte(esc, v, w);
      var h := DiffByte(v[0], w[0]);
      WithinConcat(h, Diff(v[1..], w[1..]), 0, hi);
      WithinLess(Diff(v[1..], w[1..]), -8, hi - 8, 0, hi - 8);
      EndKept(false, v[1..], w[1..], hi - 8);
      WithinLess(InnerDiff(false, v[1..], w[1..]), 0, hi - 8, -8, hi - 8);
      WithinConcat(h, InnerDiff(false, v[1..], w[1..]), 0, hi);
    }
  }

  /** Destuffing spreads a burst no further. */
  lemma {:induction false} SpreadKept(esc: bool, v: seq<byte>, w: seq<byte>, lo: nat, n: nat) returns (lo': nat)
    requires SameEscapes(v, w) && Within(Diff(v, w), lo, lo + n)
    ensures Within(InnerDiff(esc, v, w), lo', lo' + n)
    decreases v
  {
    lo' := lo;
    if v == [] {
    } else if v[0] == ESC {
      PastEscape(esc, v, w);
      var rest := Diff(v[1..], w[1..]);
      WithinConcat(Zeros(8), rest, lo, lo + n);
      var from := if lo >= 8 then lo - 8 else 0;
      WithinLess(rest, lo - 8, lo + n - 8, from, from + n);
      lo' := SpreadKept(true, v[1..], w[1..], from, n);
    } else {
      PastByte(esc, v, w);
      var h, rest, inner := DiffByte(v[0], w[0]), Diff(v[1..], w[1..]), InnerDiff(false, v[1..], w[1..]);
      WithinConcat(h, rest, lo, lo + n);
      if lo >= 8 {
        lo' := SpreadKept(false, v[1..], w[1..], lo - 8, n);
        lo' := lo' + 8;
        assert forall k :: 0 <= k < 8 ==> !h[k];
      } else {
        WithinLess(rest, lo - 8, lo + n - 8, 0, lo + n - 8);
        EndKept(false, v[1..], w[1..], lo + n - 8);
        WithinLess(inner, 0, lo + n - 8, lo - 8, lo + n - 8);
      }
      WithinConcat(h, inner, lo', lo' + n);
    }
  }

  lemma AgreeIsWithin(a: seq<byte>, b: seq<byte>, i: nat)
    requires |a| == |b|
    ensures AgreeOutside(BytesBits(a), BytesBits(b), i) <==> Within(Diff(a, b), i, i + 16)
  {
    var x, y := BytesBits(a), BytesBits(b);
    assert forall k :: 0 <= k < |x| ==> Diff(a, b)[k] == (x[k] != y[k]);
  }

  lemma BurstKept(v: seq<byte>, w: seq<byte>, i: nat) returns (i': nat)
    requires SameEscapes(v, w) && |Destuff(false, v)| >= 2
    requires AgreeOutside(BytesBits(v), BytesBits(w), i)
    ensures |Destuff(false, v)| == |Destuff(false, w)| && i' + 16 <= 8 * |Destuff(false, v)|
    ensures AgreeOutside(BytesBits(Destuff(false, v)), BytesBits(Destuff(false, w)), i')
  {
    AgreeIsWithin(v, w, i);
    i' := SpreadKept(false, v, w, i, 16);
    SameInnerLength(false, v, w);
    var last := 8 * |Destuff(false, v)| - 16;
    if i' > last {
      i' := last;
    }
    AgreeIsWithin(Destuff(false, v), Destuff(false, w), i');
  }

  /** Damage on the wire that spares FLAGs and ESCs is damage of the same kind inside. */
  lemma DamageKept(v: seq<byte>, w: seq<byte>)
    requires SameEscapes(v, w) && Damaged(v, w) && |Destuff(false, v)| >= 2
    ensures Damaged(Destuff(false, v), Destuff(false, w))
  {
    var a, b := Destuff(false, v), Destuff(false, w);
    SameInnerLength(false, v, w);
    FlipsKept(false, v, w);
    DistanceZero(v, w);
    DistanceZero(a, b);
    if Distance(v, w) > 3 && Distance(v, w) % 2 == 0 {
      var i: nat :| i + 16 <= 8 * |v| && AgreeOutside(BytesBits(v), BytesBits(w), i);
      var i' := BurstKept(v, w, i);
    }
  }

  /**
    * One, two, three or any odd number of flipped bits, or a burst of sixteen, on the wire
    * of a frame that make and unmake no FLAG and no ESC are answered with a CRC error.
    */
  lemma WireDamageReported(p: seq<byte>, w: seq<byte>, room: nat)
    requires Admissible(p) && SameEscapes(Stuff(Seal(p)), w) && Damaged(Stuff(Seal(p)), w)
    ensures RunEvents(OPEN, w + [FLAG], room) == [Rejected(ERR_CRC)]
    ensures RunState(OPEN, w + [FLAG]) == OPEN
  {
    DestuffStuff(Seal(p));
    DamageKept(Stuff(Seal(p)), w);
    DamageReported(p, w, room);
  }

  lemma FrameCloses(w: seq<byte>, room: nat)
    requires RunState(OPEN, w + [FLAG]) == OPEN
    ensures RunEvents(OPEN, ([FLAG] + w + [FLAG]) + [FLAG], room) == RunEvents(OPEN, w + [FLAG], room)
  {
    assert ([FLAG] + w + [FLAG]) + [FLAG] == [FLAG] + ((w + [FLAG]) + [FLAG]);
    RunFlag(OPEN, (w + [FLAG]) + [FLAG], room);
    RunConcat(OPEN, w + [FLAG], [FLAG], room);
    RunOne(OPEN, FLAG, room);
    assert Emits(OPEN, FLAG, room) == [];
  }

  /** Such a frame in the middle of a stream costs that frame alone, and is reported in its place. */
  lemma DamagedInStream(
    st: State, ps: seq<seq<byte>>, p: seq<byte>, w: seq<byte>, qs: seq<seq<byte>>, room: nat)
    requires ps != [] && qs != [] && AllAdmissible(ps) && AllAdmissible(qs) && room >= PAYLOAD_MAX
    requires Admissible(p) && SameEscapes(Stuff(Seal(p)), w) && Damaged(Stuff(Seal(p)), w)
    ensures RunEvents(st, Frames(ps) + (([FLAG] + w + [FLAG]) + Frames(qs)), room) ==
      Emits(st, FLAG, room) + Deliveries(ps) + [Rejected(ERR_CRC)] + Deliveries(qs)
  {
    WireDamageReported(p, w, room);
    FrameCloses(w, room);
    FaultContained(st, ps, [FLAG] + w + [FLAG], qs, room);
  }

  // ----- one changed byte

  /** Two strings that differ in one byte differ in the bits of that byte. */
  lemma DiffAt(a: seq<byte>, x: byte, y: byte, b: seq<byte>)
    ensures Diff(a + [x] + b, a + [y] + b) == Zeros(8 * |a|) + DiffByte(x, y) + Zeros(8 * |b|)
  {
    BytesBitsConcat(a + [x], b);
    BytesBitsConcat(a + [y], b);
    BytesBitsConcat(a, [x]);
    BytesBitsConcat(a, [y]);
    ByteBits(x);
    ByteBits(y);
    var l, r := BytesBits(a), BytesBits(b);
    XorConcat(l + BitsOf(x, 8), r, l + BitsOf(y, 8), r);
    XorConcat(l, BitsOf(x, 8), l, BitsOf(y, 8));
    XorSelf(l);
    XorSelf(r);
  }

  lemma DistanceAt(a: seq<byte>, x: byte, y: byte, b: seq<byte>)
    ensures Distance(a + [x] + b, a + [y] + b) == Ones(DiffByte(x, y))
  {
    DiffAt(a, x, y, b);
    OnesConcat(Zeros(8 * |a|) + DiffByte(x, y), Zeros(8 * |b|));
    OnesConcat(Zeros(8 * |a|), DiffByte(x, y));
    NoOnes(Zeros(8 * |a|));
    NoOnes(Zeros(8 * |b|));
  }

  /** An even byte is one flipped bit away from its successor, as FLAG is from 0x7F. */
  lemma LastBitFlipped(h: nat)
    requires h < 0x80
    ensures Ones(DiffByte(2 * h + 1, 2 * h)) == 1
  {
    var half := BitsOf(h, 7);
    BitsOfHalf(2 * h + 1, 8);
    BitsOfDouble(h, 7);
    XorConcat(half, [true], half, [false]);
    XorSelf(half);
    LastOne();
  }

  lemma LastOne()
    ensures Ones(Zeros(7) + Xor([true], [false])) == 1
  {
    NoOnes(Zeros(7));
    OnesConcat(Zeros(7), [true]);
    assert Xor([true], [false]) == [true] && [true][1..] == [];
  }
}
