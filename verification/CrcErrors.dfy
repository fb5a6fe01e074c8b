/**
  * What the CRC detects. A sealed byte string is a payload followed by its CRC, high
  * byte first: what sk_frame_encode builds and decoder_finish accepts.
  */
module CrcErrors {
  import opened Machine
  import opened Crc16

  /** The comparison that decoder_finish makes on the collected bytes. */
  predicate Sealed(inner: seq<byte>) {
    var n := |inner| - 2;
    n >= 0 && Crc(INIT, inner[..n]) == Join(inner[n], inner[n + 1])
  }

  /** Payload bytes followed by their CRC, high byte first. */
  function Seal(payload: seq<byte>): (inner: seq<byte>)
    ensures |inner| == |payload| + 2
  {
    var crc := Crc(INIT, payload);
    payload + [Hi(crc), Lo(crc)]
  }

  lemma SealIsSealed(payload: seq<byte>)
    ensures Sealed(Seal(payload))
  {
    assert Seal(payload)[..|payload|] == payload;
    JoinHalves(Crc(INIT, payload));
  }

  lemma LastTwo(inner: seq<byte>)
    requires |inner| >= 2
    ensures inner == inner[..|inner| - 2] + [inner[|inner| - 2], inner[|inner| - 1]]
  {}

  /** Sealing is the only way to be sealed. */
  lemma SealedIsSeal(inner: seq<byte>)
    requires Sealed(inner)
    ensures inner == Seal(inner[..|inner| - 2])
  {
    var n := |inner| - 2;
    LastTwo(inner);
    Halves(inner[n], inner[n + 1]);
  }

  /** The receiver's comparison and the zero-residue check are one test. */
  lemma SealedIffZeroResidue(inner: seq<byte>)
    requires |inner| >= 2
    ensures Sealed(inner) <==> Crc(INIT, inner) == 0
  {
    var n := |inner| - 2;
    LastTwo(inner);
    Residue(INIT, inner[..n], inner[n], inner[n + 1]);
  }

  lemma SealedRegister(inner: seq<byte>)
    requires Sealed(inner)
    ensures Feed(Reg(INIT), BytesBits(inner)) == Zeros(16)
  {
    SealedIffZeroResidue(inner);
    CrcIsFeed(INIT, inner);
    ZeroRegister();
  }

  /** The bits in which two sealed strings differ leave a zero register zero. */
  lemma ErrorLeavesZero(a: seq<byte>, b: seq<byte>)
    requires |a| == |b| && Sealed(a) && Sealed(b)
    ensures Feed(Zeros(16), Xor(BytesBits(a), BytesBits(b))) == Zeros(16)
  {
    SealedRegister(a);
    SealedRegister(b);
    FeedLinear(Reg(INIT), Reg(INIT), BytesBits(a), BytesBits(b));
    assert Xor(Reg(INIT), Reg(INIT)) == Zeros(16);
    assert Xor(Zeros(16), Zeros(16)) == Zeros(16);
  }

  // ----- an odd number of flipped bits

  lemma SealedIsEven(inner: seq<byte>)
    requires Sealed(inner)
    ensures !Odd(BytesBits(inner))
  {
    SealedIffZeroResidue(inner);
    CrcParity(inner);
    ZeroRegister();
    OddZeros(16);
  }

  /** Any odd number of flipped bits breaks the check. */
  lemma OddErrorsDetected(a: seq<byte>, b: seq<byte>)
    requires |a| == |b| && Sealed(a) && Distance(a, b) % 2 == 1
    ensures !Sealed(b)
  {
    if Sealed(b) {
      SealedIsEven(a);
      SealedIsEven(b);
      OddXor(BytesBits(a), BytesBits(b));
      OddOnes(Xor(BytesBits(a), BytesBits(b)));
      assert false;
    }
  }

  // ----- bursts

  /** a and b hold the same bits except perhaps in the sixteen that start at bit i. */
  predicate AgreeOutside(a: Bits, b: Bits, i: nat) {
    |a| == |b| && forall k :: 0 <= k < |a| && !(i <= k < i + 16) ==> a[k] == b[k]
  }

  lemma {:induction false} ClearedStaysOnlyClear(r: Register, n: nat)
    requires Feed(r, Zeros(n)) == Zeros(16)
    ensures r == Zeros(16)
    decreases n
  {
    if n > 0 {
      assert Zeros(n)[1..] == Zeros(n - 1);
      ClearedStaysOnlyClear(Step(r, false), n - 1);
      UndoStep(r, false, Zeros(15));
      assert Zeros(16) == Zeros(15) + [false];
      assert Zeros(16) == [false] + Zeros(15);
    }
  }

  lemma BurstPattern(e: Bits, i: nat)
    requires i + 16 <= |e| && forall k :: 0 <= k < |e| && !(i <= k < i + 16) ==> !e[k]
    requires Feed(Zeros(16), e) == Zeros(16)
    ensures e == Zeros(|e|)
  {
    var w, rest := e[i..i + 16], |e| - i - 16;
    assert e == Zeros(i) + (w + Zeros(rest));
    FeedConcat(Zeros(16), Zeros(i), w + Zeros(rest));
    FeedZero(i);
    FeedConcat(Zeros(16), w, Zeros(rest));
    ClearedStaysOnlyClear(Feed(Zeros(16), w), rest);
    Cleared(Zeros(16), w);
    assert w + Zeros(0) == w;
    assert e == Zeros(i) + (Zeros(16) + Zeros(rest));
  }

  /**
    * Any change confined to sixteen consecutive bits of a sealed string of any length
    * breaks the check.
    */
  lemma BurstDetected(a: seq<byte>, b: seq<byte>, i: nat)
    requires |a| == |b| && Sealed(a) && a != b
    requires i + 16 <= 8 * |a| && AgreeOutside(BytesBits(a), BytesBits(b), i)
    ensures !Sealed(b)
  {
    if Sealed(b) {
      var x, y := BytesBits(a), BytesBits(b);
      var e := Xor(x, y);
      ErrorLeavesZero(a, b);
      BurstPattern(e, i);
      forall k | 0 <= k < |x|
        ensures x[k] == y[k]
      {
        assert !Zeros(|e|)[k] && e[k] == (x[k] != y[k]);
      }
      BytesBitsInjective(a, b);
    }
  }

  // ----- up to three flipped bits within the longest frame

  /** The register with only its top bit set: the one state a single one bit clears. */
  const TOP: Register := [true] + Zeros(15)

  lemma {:induction false} OneBitClears(r: Register, e: Bits) returns (d: nat)
    requires Ones(e) == 1 && Feed(r, e) == Zeros(16)
    ensures d < |e| && Feed(r, Zeros(d)) == TOP
    decreases e
  {
    if e[0] {
      NoOnes(e[1..]);
      ClearedStaysOnlyClear(Step(r, true), |e| - 1);
      UndoStep(r, true, Zeros(15));
      assert Zeros(16) == Zeros(15) + [false];
      d := 0;
    } else {
      d := OneBitClears(Step(r, false), e[1..]);
      d := d + 1;
      assert Zeros(d)[1..] == Zeros(d - 1);
    }
  }

  lemma {:induction false} TwoBitsClear(e: Bits) returns (d: nat)
    requires Ones(e) == 2 && Feed(Zeros(16), e) == Zeros(16)
    ensures d + 1 < |e| && Feed(TAPS, Zeros(d)) == TOP
  {
    if e[0] {
      assert Zeros(16)[1..] + [false] == Zeros(16);
      assert Step(Zeros(16), true) == TAPS;
      d := OneBitClears(TAPS, e[1..]);
    } else {
      FeedZero(1);
      assert Zeros(1)[1..] == [];
      d := TwoBitsClear(e[1..]);
    }
  }

  // The register as a 16-bit machine word, on which its orbit is computed.

  function Word(c: bv16): Register {
    [c & 0x8000 != 0, c & 0x4000 != 0, c & 0x2000 != 0, c & 0x1000 != 0,
     c & 0x800 != 0, c & 0x400 != 0, c & 0x200 != 0, c & 0x100 != 0,
     c & 0x80 != 0, c & 0x40 != 0, c & 0x20 != 0, c & 0x10 != 0,
     c & 8 != 0, c & 4 != 0, c & 2 != 0, c & 1 != 0]
  }

  function Next(c: bv16): bv16 {
    if c & 0x8000 != 0 then (c << 1) ^ 0x1021 else c << 1
  }

  function Iterate(c: bv16, n: nat): bv16
    decreases n
  {
    if n == 0 then c else Iterate(Next(c), n - 1)
  }

  /** None of the first n + 1 states from c is the top bit alone. */
  predicate Misses(c: bv16, n: nat)
    decreases n
  {
    c != 0x8000 && (n == 0 || Misses(Next(c), n - 1))
  }

  lemma NextShifts(c: bv16)
    requires c & 0x8000 == 0
    ensures Word(Next(c)) == Word(c)[1..] + [false]
  {}

  predicate Reduces(r: Register, s: Register) {
    s == [r[1], r[2], r[3], !r[4], r[5], r[6], r[7], r[8], r[9], r[10], !r[11], r[12], r[13], r[14], r[15], true]
  }

  lemma NextReduces(c: bv16)
    requires c & 0x8000 != 0
    ensures Reduces(Word(c), Word(Next(c)))
  {}

  lemma TapsAt(i: nat)
    requires i < 16
    ensures TAPS[i] <==> i == 3 || i == 10 || i == 15
  {
    var a := Zeros(3) + [true];
    var b := a + Zeros(6);
    var c := b + [true];
    var d := c + Zeros(4);
    assert TAPS == d + [true];
    assert i < 15 ==> TAPS[i] == d[i];
    assert i < 11 ==> d[i] == c[i];
    assert i < 10 ==> c[i] == b[i];
    assert i < 4 ==> b[i] == a[i];
  }

  lemma ReducesAt(r: Register, s: Register, i: nat)
    requires i < 16 && Reduces(r, s)
    ensures s[i] == if i == 15 then true else r[i + 1] != (i == 3 || i == 10)
  {}

  lemma ReducesIsXor(r: Register, s: Register)
    requires Reduces(r, s)
    ensures s == Xor(r[1..] + [false], TAPS)
  {
    var t := r[1..] + [false];
    forall i | 0 <= i < 16
      ensures s[i] == Xor(t, TAPS)[i]
    {
      TapsAt(i);
      ReducesAt(r, s, i);
    }
  }

  lemma NextIsStep(c: bv16)
    ensures Word(Next(c)) == Step(Word(c), false)
  {
    if c & 0x8000 == 0 {
      NextShifts(c);
    } else {
      NextReduces(c);
      ReducesIsXor(Word(c), Word(Next(c)));
    }
  }

  lemma FeedZeros(r: Register, n: nat)
    requires n > 0
    ensures Feed(r, Zeros(n)) == Feed(Step(r, false), Zeros(n - 1))
  {
    assert Zeros(n)[1..] == Zeros(n - 1);
  }

  lemma {:induction false} IterateIsFeed(c: bv16, n: nat)
    ensures Word(Iterate(c, n)) == Feed(Word(c), Zeros(n))
    decreases n
  {
    if n > 0 {
      NextIsStep(c);
      FeedZeros(Word(c), n);
      IterateIsFeed(Next(c), n - 1);
    }
  }

  /** Fifteen zero bits, one by one, are the zero low part of a word. */
  lemma LowPart(c: bv16)
    requires c & 0x4000 == 0 && c & 0x2000 == 0 && c & 0x1000 == 0
    requires c & 0x800 == 0 && c & 0x400 == 0 && c & 0x200 == 0 && c & 0x100 == 0
    requires c & 0x80 == 0 && c & 0x40 == 0 && c & 0x20 == 0 && c & 0x10 == 0
    requires c & 8 == 0 && c & 4 == 0 && c & 2 == 0 && c & 1 == 0
    ensures c & 0x7FFF == 0
  {}

  lemma TopAlone(c: bv16)
    requires c & 0x8000 != 0 && c & 0x7FFF == 0
    ensures c == 0x8000
  {}

  /** 0x8000 is the only machine word of the register TOP. */
  lemma OnlyTop(c: bv16)
    requires Word(c) == TOP
    ensures c == 0x8000
  {
    var r := Word(c);
    assert r[0] && !r[1] && !r[2] && !r[3] && !r[4] && !r[5] && !r[6] && !r[7];
    assert !r[8] && !r[9] && !r[10] && !r[11] && !r[12] && !r[13] && !r[14] && !r[15];
    LowPart(c);
    TopAlone(c);
  }

  lemma {:induction false} MissesIsMiss(c: bv16, n: nat, d: nat)
    requires Misses(c, n) && d <= n
    ensures Iterate(c, d) != 0x8000
    decreases d
  {
    if d > 0 {
      MissesIsMiss(Next(c), n - 1, d - 1);
    }
  }

  lemma {:induction false} MissesConcat(c: bv16, m: nat, d: bv16, n: nat)
    requires Misses(c, m) && Iterate(c, m) == d && Misses(d, n)
    ensures Misses(c, m + n)
    decreases m
  {
    if m > 0 {
      MissesConcat(Next(c), m - 1, d, n);
    }
  }

  predicate Leg(c: bv16, d: bv16) {
    Misses(c, 12) && Iterate(c, 12) == d
  }

  lemma Legs1()
    ensures Leg(0x1021, 0x0373) && Leg(0x0373, 0x76B4) && Leg(0x76B4, 0x045A)
  {}

  lemma Legs2()
    ensures Leg(0x045A, 0xB861) && Leg(0xB861, 0x3DB4) && Leg(0x3DB4, 0x6F45)
  {}

  lemma Legs3()
    ensures Leg(0x6F45, 0x553D) && Leg(0x553D, 0x4563) && Leg(0x4563, 0xC6F7)
  {}

  lemma Legs4()
    ensures Leg(0xC6F7, 0xA824) && Leg(0xA824, 0x1E01) && Leg(0x1E01, 0xDE1F)
  {}

  /** The zero-input orbit of the polynomial does not return within 144 steps. */
  lemma OrbitMisses()
    ensures Misses(0x1021, 144)
  {
    Legs1();
    Legs2();
    Legs3();
    Legs4();
    MissesConcat(0x1E01, 12, 0xDE1F, 0);
    MissesConcat(0xA824, 12, 0x1E01, 12);
    MissesConcat(0xC6F7, 12, 0xA824, 24);
    MissesConcat(0x4563, 12, 0xC6F7, 36);
    MissesConcat(0x553D, 12, 0x4563, 48);
    MissesConcat(0x6F45, 12, 0x553D, 60);
    MissesConcat(0x3DB4, 12, 0x6F45, 72);
    MissesConcat(0xB861, 12, 0x3DB4, 84);
    MissesConcat(0x045A, 12, 0xB861, 96);
    MissesConcat(0x76B4, 12, 0x045A, 108);
    MissesConcat(0x0373, 12, 0x76B4, 120);
    MissesConcat(0x1021, 12, 0x0373, 132);
  }

  lemma TapsWord()
    ensures Word(0x1021) == TAPS
  {}

  lemma TapsMissTop(d: nat)
    requires d <= 144
    ensures Feed(TAPS, Zeros(d)) != TOP
  {
    OrbitMisses();
    MissesIsMiss(0x1021, 144, d);
    IterateIsFeed(0x1021, d);
    TapsWord();
    if Feed(TAPS, Zeros(d)) == TOP {
      OnlyTop(Iterate(0x1021, d));
    }
  }

  /** No two flipped bits go unseen within 18 bytes. */
  lemma TwoBitsDetected(a: seq<byte>, b: seq<byte>)
    requires |a| == |b| <= 18 && Sealed(a) && Sealed(b)
    ensures Distance(a, b) != 2
  {
    ErrorLeavesZero(a, b);
    if Distance(a, b) == 2 {
      var d := TwoBitsClear(Xor(BytesBits(a), BytesBits(b)));
      TapsMissTop(d);
    }
  }

  /**
    * Hamming distance four: two different sealed strings of one length, no longer than
    * the longest frame holds, differ in at least four bits.
    */
  lemma MinimumDistance(a: seq<byte>, b: seq<byte>)
    requires |a| == |b| <= 18 && a != b
    requires Sealed(a) && Sealed(b)
    ensures Distance(a, b) >= 4
  {
    DistanceZero(a, b);
    TwoBitsDetected(a, b);
    if Distance(a, b) % 2 == 1 {
      OddErrorsDetected(a, b);
    }
  }

  // ----- both bounds are sharp

  lemma FourOnes()
    ensures Ones([true] + TAPS) == 4
  {
    var a := Zeros(3) + [true];
    var b := a + Zeros(6);
    var c := b + [true];
    var d := c + Zeros(4);
    NoOnes(Zeros(3));
    NoOnes(Zeros(4));
    NoOnes(Zeros(6));
    OnesConcat(Zeros(3), [true]);
    OnesConcat(a, Zeros(6));
    OnesConcat(b, [true]);
    OnesConcat(c, Zeros(4));
    OnesConcat(d, [true]);
    OnesConcat([true], TAPS);
  }

  /** The generator's own seventeen bits from bit i on, and k zeros after them. */
  function Generator(i: nat, k: nat): (e: Bits)
    ensures |e| == i + 17 + k
    ensures forall j :: 0 <= j < |e| && e[j] ==> i <= j < i + 17
  {
    Zeros(i) + (([true] + TAPS) + Zeros(k))
  }

  /** The generator anywhere in a message leaves a zero register zero. */
  lemma GeneratorUnseen(i: nat, k: nat)
    ensures Feed(Zeros(16), Generator(i, k)) == Zeros(16)
    ensures Ones(Generator(i, k)) == 4
  {
    var g := [true] + TAPS;
    FeedConcat(Zeros(16), Zeros(i), g + Zeros(k));
    FeedZero(i);
    FeedConcat(Zeros(16), g, Zeros(k));
    FeedZero(k);
    assert g[1..] == TAPS;
    assert Zeros(16)[1..] + [false] == Zeros(16);
    assert Step(Zeros(16), true) == TAPS;
    Cleared(TAPS, TAPS);
    assert TAPS + Zeros(0) == TAPS;
    FourOnes();
    NoOnes(Zeros(i));
    NoOnes(Zeros(k));
    OnesConcat(Zeros(i), g + Zeros(k));
    OnesConcat(g, Zeros(k));
  }

  lemma XorTwice(x: Bits, e: Bits)
    requires |x| == |e|
    ensures Xor(x, Xor(x, e)) == e
  {
    assert forall i :: 0 <= i < |x| ==> Xor(x, Xor(x, e))[i] == e[i];
  }

  /** The byte string that differs from a in exactly the bits e. */
  lemma Flip(a: seq<byte>, e: Bits) returns (b: seq<byte>)
    requires |e| == 8 * |a|
    ensures |b| == |a| && BytesBits(b) == Xor(BytesBits(a), e) && Distance(a, b) == Ones(e)
    ensures forall k :: 0 <= k < |e| && !e[k] ==> BytesBits(a)[k] == BytesBits(b)[k]
  {
    var x := BytesBits(a);
    b := BytesOf(Xor(x, e));
    BytesOfBits(Xor(x, e));
    XorTwice(x, e);
  }

  /** An error that leaves a zero register zero keeps a string sealed. */
  lemma UnseenError(a: seq<byte>, b: seq<byte>, e: Bits)
    requires Sealed(a) && |b| == |a| && |e| == 8 * |a|
    requires BytesBits(b) == Xor(BytesBits(a), e) && Feed(Zeros(16), e) == Zeros(16)
    ensures Sealed(b)
  {
    SealedRegister(a);
    FeedLinear(Reg(INIT), Zeros(16), BytesBits(a), e);
    XorZeros(Reg(INIT));
    XorZeros(Zeros(16));
    CrcIsFeed(INIT, b);
    ZeroRegister();
    RegInjective(Crc(INIT, b), 0);
    SealedIffZeroResidue(b);
  }

  /**
    * Four flipped bits, and a burst of seventeen, can go unseen: for every sealed string and
    * every place in it there is another sealed string that differs there in just that way.
    */
  lemma BoundsAreSharp(a: seq<byte>, i: nat) returns (b: seq<byte>)
    requires Sealed(a) && i + 17 <= 8 * |a|
    ensures |b| == |a| && Sealed(b) && Distance(a, b) == 4
    ensures forall k :: 0 <= k < 8 * |a| && !(i <= k < i + 17) ==> BytesBits(a)[k] == BytesBits(b)[k]
  {
    var k := 8 * |a| - i - 17;
    GeneratorUnseen(i, k);
    b := Flip(a, Generator(i, k));
    UnseenError(a, b, Generator(i, k));
  }
}
