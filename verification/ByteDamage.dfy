/**
  * One byte of a frame changed on the wire, and the exact verdict on it. A change that makes
  * or unmakes no FLAG and no ESC is always reported; for each of the others this module says
  * when it is, and gives frames where it is not.
  */
module ByteDamage {
  import opened Machine
  import opened Crc16
  import opened CrcErrors
  import opened Framing
  import opened Decoder
  import opened Stream
  import opened Delivery
  import opened WireDamage

  // ----- one part of a sealed string in place of another

  /** Equal messages keep unequal registers unequal. */
  lemma FeedInjective(r: Register, s: Register, m: Bits)
    requires Feed(r, m) == Feed(s, m)
    ensures r == s
  {
    FeedLinear(r, s, m, m);
    XorSelf(m);
    XorSelf(Feed(r, m));
    ClearedStaysOnlyClear(Xor(r, s), |m|);
    XorIsZero(r, s);
  }

  lemma XorIsZero(a: Bits, b: Bits)
    requires |a| == |b|
    ensures Xor(a, b) == Zeros(|a|) <==> a == b
  {
    if Xor(a, b) == Zeros(|a|) {
      assert forall i :: 0 <= i < |a| ==> Xor(a, b)[i] == (a[i] != b[i]);
    }
  }

  /** Two messages have one CRC with the same bytes after them only if they have without. */
  lemma SameSuffix(x: seq<byte>, y: seq<byte>, z: seq<byte>)
    ensures Crc(INIT, x + z) == Crc(INIT, y + z) <==> Crc(INIT, x) == Crc(INIT, y)
  {
    var r, s := Crc(INIT, x), Crc(INIT, y);
    CrcConcat(INIT, x, z);
    CrcConcat(INIT, y, z);
    if Crc(r, z) == Crc(s, z) {
      CrcIsFeed(r, z);
      CrcIsFeed(s, z);
      FeedInjective(Reg(r), Reg(s), BytesBits(z));
      RegInjective(r, s);
    }
  }

  /** A sealed string with another beginning is sealed exactly when both beginnings have one CRC. */
  lemma Replaced(x: seq<byte>, y: seq<byte>, z: seq<byte>)
    requires Sealed(x + z) && |y + z| >= 2
    ensures Sealed(y + z) <==> Crc(INIT, x) == Crc(INIT, y)
  {
    SealedIffZeroResidue(x + z);
    SealedIffZeroResidue(y + z);
    SameSuffix(x, y, z);
  }

  // ----- registers that differ in the bit of the escape toggle

  const MASK: Register := Zeros(2) + [true] + Zeros(13)

  lemma MaskRegister()
    ensures Reg(0x2000) == MASK && MASK == BitsOf(ESC_XOR, 8) + Zeros(8)
  {
    WordBits(ESC_XOR, 0);
    MaskBits();
    BitsOfZero(8);
    assert MASK == Zeros(2) + [true] + Zeros(5) + Zeros(8);
  }

  /** The two values differ in the bit 0x2000 and no other. */
  predicate Apart(u: word, v: word) {
    u == Xor16(v, 0x2000)
  }

  lemma ApartBits(u: word, v: word)
    ensures Apart(u, v) <==> Xor(Reg(u), Reg(v)) == MASK
  {
    MaskRegister();
    Xor16Bits(v, 0x2000);
    if Apart(u, v) {
      assert forall i :: 0 <= i < 16 ==> Xor(Reg(u), Reg(v))[i] == MASK[i];
    }
    if Xor(Reg(u), Reg(v)) == MASK {
      XorMoves(Reg(u), Reg(v), MASK);
      RegInjective(u, Xor16(v, 0x2000));
    }
  }

  lemma XorMoves(a: Bits, b: Bits, c: Bits)
    requires |a| == |b| && Xor(a, b) == c
    ensures a == Xor(b, c)
  {
    assert forall i :: 0 <= i < |a| ==> c[i] == (a[i] != b[i]);
  }

  lemma ApartSymmetric(u: word, v: word)
    ensures Apart(u, v) <==> Apart(v, u)
  {
    ApartBits(u, v);
    ApartBits(v, u);
    assert Xor(Reg(u), Reg(v)) == Xor(Reg(v), Reg(u));
  }

  /** A byte and the toggled byte bring together just the registers that are apart. */
  lemma ToggledNext(x: seq<byte>, y: seq<byte>, c: byte)
    ensures Crc(INIT, x + [c]) == Crc(INIT, y + [Toggle(c)]) <==> Apart(Crc(INIT, x), Crc(INIT, y))
  {
    var r, s, t := Crc(INIT, x), Crc(INIT, y), Toggle(c);
    CrcConcat(INIT, x, [c]);
    CrcConcat(INIT, y, [t]);
    CrcIsFeed(r, [c]);
    CrcIsFeed(s, [t]);
    ByteBits(c);
    ByteBits(t);
    ToggledFeeds(Reg(r), Reg(s), c);
    ApartBits(r, s);
    if Reg(Crc(r, [c])) == Reg(Crc(s, [t])) {
      RegInjective(Crc(r, [c]), Crc(s, [t]));
    }
  }

  lemma ToggledFeeds(r: Register, s: Register, c: byte)
    ensures Feed(r, BitsOf(c, 8)) == Feed(s, BitsOf(Toggle(c), 8)) <==> Xor(r, s) == MASK
  {
    var x, y := BitsOf(c, 8), BitsOf(Toggle(c), 8);
    FeedLinear(r, s, x, y);
    Xor8Bits(c, ESC_XOR);
    assert Xor(x, y) == BitsOf(ESC_XOR, 8);
    XorIsZero(Feed(r, x), Feed(s, y));
    Cleared(Xor(r, s), BitsOf(ESC_XOR, 8));
    MaskRegister();
  }

  /** A byte of odd parity always changes the CRC. */
  lemma OddByteMoves(a: seq<byte>, b: byte)
    requires Odd(BitsOf(b, 8))
    ensures Crc(INIT, a + [b]) != Crc(INIT, a)
  {
    CrcParity(a);
    CrcParity(a + [b]);
    BytesBitsConcat(a, [b]);
    ByteBits(b);
    OddConcat(BytesBits(a), BitsOf(b, 8));
  }

  // ----- the verdicts

  predicate Special(b: byte) {
    b == FLAG || b == ESC
  }

  /** What stuffed bytes destuff to after a pending ESC: a byte sent plain is toggled. */
  function Toggled(m: seq<byte>): seq<byte> {
    if m == [] || Special(m[0]) then m else [Toggle(m[0])] + m[1..]
  }

  lemma StuffedAfterEscape(m: seq<byte>)
    ensures Destuff(true, Stuff(m)) == Toggled(m)
  {
    if m != [] {
      var u, rest := Unit(m[0]), Stuff(m[1..]);
      DestuffStuff(m[1..]);
      DestuffFirst(true, Stuff(m));
      if Special(m[0]) {
        ToggleSpecials();
        DestuffStuff(m);
        DestuffFirst(false, Stuff(m));
      } else {
        assert Stuff(m)[1..] == rest;
      }
    }
  }

  /** The verdict on inner bytes; none if there are none. */
  function Judged(inner: seq<byte>, room: nat): seq<Event> {
    if inner == [] then [] else [Classify(inner, room)]
  }

  /** That a byte b after a, sent as ESC, leaves the bytes after it and their CRC in agreement. */
  predicate Slips(a: seq<byte>, b: byte, rest: seq<byte>) {
    if rest == [] || Special(rest[0]) then Crc(INIT, a + [b]) == Crc(INIT, a)
    else Apart(Crc(INIT, a + [b]), Crc(INIT, a))
  }

  /** The verdict when b, between the inner bytes a and rest of a payload of n bytes, becomes ESC. */
  function MadeVerdict(n: nat, a: seq<byte>, b: byte, rest: seq<byte>): Event
    requires |a| + 1 + |rest| == n + 2 && n > 0
  {
    if n == PAYLOAD_MIN then Rejected(ERR_LEN)
    else if Slips(a, b, rest) then Delivered((a + Toggled(rest))[..n - 1])
    else Rejected(ERR_CRC)
  }

  /** The verdict when the ESC of b, between the same, becomes x. */
  function UnmadeVerdict(n: nat, a: seq<byte>, b: byte, x: byte, rest: seq<byte>): Event
    requires |a| + 1 + |rest| == n + 2
  {
    if n == PAYLOAD_MAX then Rejected(ERR_OFLOW)
    else if Apart(Crc(INIT, a + [x]), Crc(INIT, a)) then Delivered((a + [x, Toggle(b)] + rest)[..n + 1])
    else Rejected(ERR_CRC)
  }

  lemma MadeSealed(a: seq<byte>, b: byte, rest: seq<byte>)
    requires Sealed(a + [b] + rest) && |a| + |rest| >= 2
    ensures Sealed(a + Toggled(rest)) <==> Slips(a, b, rest)
  {
    if rest == [] || Special(rest[0]) {
      Replaced(a + [b], a, rest);
    } else {
      var c, z := rest[0], rest[1..];
      assert rest == [c] + z;
      Regrouped3(a + [b], [c], z);
      Regrouped3(a, [Toggle(c)], z);
      MadeSealedPlain(a, b, c, z);
    }
  }

  lemma MadeSealedPlain(a: seq<byte>, b: byte, c: byte, z: seq<byte>)
    requires Sealed(a + [b] + [c] + z) && |a| + |z| >= 1
    ensures Sealed(a + [Toggle(c)] + z) <==> Apart(Crc(INIT, a + [b]), Crc(INIT, a))
  {
    Replaced(a + [b] + [c], a + [Toggle(c)], z);
    ToggledNext(a + [b], a, c);
  }

  lemma UnmadeSealed(a: seq<byte>, b: byte, x: byte, rest: seq<byte>)
    requires Sealed(a + [b] + rest)
    ensures Sealed(a + [x, Toggle(b)] + rest) <==> Apart(Crc(INIT, a + [x]), Crc(INIT, a))
  {
    assert a + [x, Toggle(b)] == a + [x] + [Toggle(b)];
    Replaced(a + [b], a + [x, Toggle(b)], rest);
    ToggledNext(a, a + [x], b);
    ApartSymmetric(Crc(INIT, a), Crc(INIT, a + [x]));
  }

  /** Every FLAG-free stretch reports the verdict on the bytes it destuffs to. */
  lemma StretchJudged(w: seq<byte>, inner: seq<byte>, room: nat)
    requires FLAG !in w && Destuff(false, w) == inner
    ensures RunState(OPEN, w + [FLAG]) == OPEN && RunEvents(OPEN, w + [FLAG], room) == Judged(inner, room)
  {
    RunSegment(w, room);
  }

  lemma MadeJudged(n: nat, a: seq<byte>, b: byte, rest: seq<byte>, room: nat)
    requires PAYLOAD_MIN <= n <= PAYLOAD_MAX <= room && |a| + 1 + |rest| == n + 2
    requires Sealed(a + [b] + rest)
    ensures Judged(a + Toggled(rest), room) == [MadeVerdict(n, a, b, rest)]
  {
    MadeSealed(a, b, rest);
    assert |a + Toggled(rest)| == n + 1;
  }

  lemma UnmadeJudged(n: nat, a: seq<byte>, b: byte, x: byte, rest: seq<byte>, room: nat)
    requires PAYLOAD_MIN <= n <= PAYLOAD_MAX <= room && |a| + 1 + |rest| == n + 2
    requires Sealed(a + [b] + rest)
    ensures Judged(a + [x, Toggle(b)] + rest, room) == [UnmadeVerdict(n, a, b, x, rest)]
  {
    UnmadeSealed(a, b, x, rest);
    assert |a + [x, Toggle(b)] + rest| == n + 3;
  }

  // ----- the wire

  /** The bytes of b's unit before its last: the ESC, if b has one. */
  function Lead(b: byte): (r: seq<byte>)
    ensures FLAG !in r
  {
    if Special(b) then [ESC] else []
  }

  lemma PastLead(b: byte, w: seq<byte>)
    ensures Destuff(false, Lead(b) + w) == Destuff(Special(b), w)
  {
    if Special(b) {
      assert ([ESC] + w)[1..] == w;
    } else {
      assert [] + w == w;
    }
  }

  /** What a stretch destuffs to that begins with the wire of a. */
  lemma AfterStuffed(a: seq<byte>, w: seq<byte>)
    ensures Destuff(false, Stuff(a) + w) == a + Destuff(false, w)
    ensures FLAG !in w ==> FLAG !in Stuff(a) + w
  {
    DestuffStuff(a);
    StuffNoFlag(a);
    DestuffConcat(false, Stuff(a), w);
  }

  lemma PastEsc(esc: bool, w: seq<byte>)
    ensures Destuff(esc, [ESC] + w) == Destuff(true, w)
  {
    assert ([ESC] + w)[1..] == w;
  }

  /** The byte sent last for b becomes ESC: its inner byte is lost, and the next one toggled. */
  lemma EscapeMade(p: seq<byte>, a: seq<byte>, b: byte, rest: seq<byte>, room: nat)
    requires Admissible(p) && Seal(p) == a + [b] + rest && room >= PAYLOAD_MAX
    ensures RunEvents(OPEN, Stuff(a) + (Lead(b) + ([ESC] + Stuff(rest))) + [FLAG], room) ==
      [MadeVerdict(|p|, a, b, rest)]
  {
    StuffNoFlag(rest);
    StuffedAfterEscape(rest);
    PastEsc(Special(b), Stuff(rest));
    PastLead(b, [ESC] + Stuff(rest));
    AfterStuffed(a, Lead(b) + ([ESC] + Stuff(rest)));
    StretchJudged(Stuff(a) + (Lead(b) + ([ESC] + Stuff(rest))), a + Toggled(rest), room);
    SealIsSealed(p);
    MadeJudged(|p|, a, b, rest, room);
  }

  /** The ESC of b becomes a plain byte x: both bytes of its unit are collected. */
  lemma EscapeUnmade(p: seq<byte>, a: seq<byte>, b: byte, x: byte, rest: seq<byte>, room: nat)
    requires Admissible(p) && Seal(p) == a + [b] + rest && room >= PAYLOAD_MAX
    requires Special(b) && !Special(x)
    ensures RunEvents(OPEN, Stuff(a) + ([x, Toggle(b)] + Stuff(rest)) + [FLAG], room) ==
      [UnmadeVerdict(|p|, a, b, x, rest)]
  {
    ToggleSpecials();
    PairWire(a, x, Toggle(b), rest);
    StretchJudged(Stuff(a) + ([x, Toggle(b)] + Stuff(rest)), a + [x, Toggle(b)] + rest, room);
    SealIsSealed(p);
    UnmadeJudged(|p|, a, b, x, rest, room);
  }

  lemma PairWire(a: seq<byte>, x: byte, y: byte, rest: seq<byte>)
    requires !Special(x) && !Special(y)
    ensures FLAG !in Stuff(a) + ([x, y] + Stuff(rest))
    ensures Destuff(false, Stuff(a) + ([x, y] + Stuff(rest))) == a + [x, y] + rest
  {
    PairBefore(x, y, rest);
    AfterStuffed(a, [x, y] + Stuff(rest));
    Regrouped3(a, [x, y], rest);
  }

  lemma PairBefore(x: byte, y: byte, rest: seq<byte>)
    requires !Special(x) && !Special(y)
    ensures FLAG !in [x, y] + Stuff(rest)
    ensures Destuff(false, [x, y] + Stuff(rest)) == [x, y] + rest
  {
    StuffNoFlag(rest);
    DestuffStuff(rest);
    PlainPair(x, y, Stuff(rest));
  }

  lemma Regrouped3(a: seq<byte>, b: seq<byte>, c: seq<byte>)
    ensures a + (b + c) == a + b + c
  {}

  lemma PlainPair(x: byte, y: byte, w: seq<byte>)
    requires x != ESC && y != ESC
    ensures Destuff(false, [x, y] + w) == [x, y] + Destuff(false, w)
  {
    assert ([x, y] + w)[1..] == [y] + w && ([y] + w)[1..] == w;
    assert [x] + ([y] + Destuff(false, w)) == [x, y] + Destuff(false, w);
  }

  /** A FLAG cuts a stretch in two, and each part has its own verdict. */
  lemma FlagCuts(v: seq<byte>, w: seq<byte>, room: nat)
    requires FLAG !in v && FLAG !in w
    ensures RunEvents(OPEN, v + ([FLAG] + w) + [FLAG], room) ==
      Judged(Destuff(false, v), room) + Judged(Destuff(false, w), room)
  {
    StretchJudged(v, Destuff(false, v), room);
    StretchJudged(w, Destuff(false, w), room);
    RunConcat(OPEN, v + [FLAG], w + [FLAG], room);
    Regrouped(v, [FLAG], w, [FLAG]);
  }

  lemma Regrouped(a: seq<byte>, b: seq<byte>, c: seq<byte>, d: seq<byte>)
    ensures a + (b + c) + d == (a + b) + (c + d)
  {}

  /** The byte sent last for b becomes FLAG: b is lost, and what stands on its sides judged. */
  lemma FlagMade(a: seq<byte>, b: byte, rest: seq<byte>, room: nat)
    ensures RunEvents(OPEN, Stuff(a) + Lead(b) + ([FLAG] + Stuff(rest)) + [FLAG], room) ==
      Judged(a, room) + Judged(rest, room)
  {
    AfterStuffed(a, Lead(b));
    PastLead(b, []);
    assert Lead(b) + [] == Lead(b) && a + [] == a;
    StuffNoFlag(rest);
    DestuffStuff(rest);
    FlagCuts(Stuff(a) + Lead(b), Stuff(rest), room);
  }

  /** The ESC of b becomes FLAG: the other byte of its unit begins the second part. */
  lemma FlagForEscape(a: seq<byte>, b: byte, rest: seq<byte>, room: nat)
    requires Special(b)
    ensures RunEvents(OPEN, Stuff(a) + ([FLAG, Toggle(b)] + Stuff(rest)) + [FLAG], room) ==
      Judged(a, room) + Judged([Toggle(b)] + rest, room)
  {
    HalfPair(b, rest);
    StuffedCut(a, [Toggle(b)] + rest, room);
  }

  lemma HalfPair(b: byte, rest: seq<byte>)
    requires Special(b)
    ensures [FLAG, Toggle(b)] + Stuff(rest) == [FLAG] + Stuff([Toggle(b)] + rest)
  {
    ToggleSpecials();
    StuffFirst(Toggle(b), rest);
  }

  lemma StuffedCut(a: seq<byte>, b: seq<byte>, room: nat)
    ensures RunEvents(OPEN, Stuff(a) + ([FLAG] + Stuff(b)) + [FLAG], room) == Judged(a, room) + Judged(b, room)
  {
    StuffNoFlag(a);
    DestuffStuff(a);
    StuffNoFlag(b);
    DestuffStuff(b);
    FlagCuts(Stuff(a), Stuff(b), room);
  }

  // ----- a lost FLAG

  lemma OnlyZeroKeepsZero(x: byte)
    ensures Crc(0, [x]) == 0 <==> x == 0
  {
    CrcIsFeed(0, [x]);
    ByteBits(x);
    ZeroRegister();
    BitsOfZero(8);
    var bits := BitsOf(x, 8);
    Cleared(Zeros(16), bits);
    assert Zeros(16)[..8] == Zeros(8) && (bits + Zeros(8))[..8] == bits;
    assert Zeros(16) == Zeros(8) + Zeros(8);
    Powers();
    if bits == Zeros(8) {
      BitsInjective(x, 0, 8);
    }
    if Crc(0, [x]) != 0 && Reg(Crc(0, [x])) == Zeros(16) {
      RegInjective(Crc(0, [x]), 0);
    }
  }

  lemma TrailingByte(m: seq<byte>, x: byte)
    requires Sealed(m)
    ensures Sealed(m + [x]) <==> x == 0
  {
    SealedIffZeroResidue(m);
    SealedIffZeroResidue(m + [x]);
    CrcConcat(INIT, m, [x]);
    OnlyZeroKeepsZero(x);
  }

  /** The verdict on a payload and its CRC with a byte after them. */
  function TrailedVerdict(p: seq<byte>, x: byte): Event {
    if x == ESC then Delivered(p)
    else if |p| == PAYLOAD_MAX then Rejected(ERR_OFLOW)
    else if x == 0 then Delivered(p + [Hi(Crc(INIT, p))])
    else Rejected(ERR_CRC)
  }

  lemma TrailedJudged(p: seq<byte>, x: byte, room: nat)
    requires Admissible(p) && room >= PAYLOAD_MAX && !Special(x)
    ensures Judged(Seal(p) + [x], room) == [TrailedVerdict(p, x)]
  {
    SealIsSealed(p);
    TrailingByte(Seal(p), x);
    var inner := Seal(p) + [x];
    assert |inner| == |p| + 3 && inner[..|p| + 1] == p + [Hi(Crc(INIT, p))];
  }

  /** The closing FLAG becomes x, and the next FLAG closes the frame: only 0 and ESC go unseen. */
  lemma ClosingFlagLost(p: seq<byte>, x: byte, room: nat)
    requires Admissible(p) && x != FLAG && room >= PAYLOAD_MAX
    ensures RunEvents(OPEN, Stuff(Seal(p)) + [x] + [FLAG], room) == [TrailedVerdict(p, x)]
  {
    if x == ESC {
      StrayEscapeAccepted(p, room);
    } else {
      AfterStuffed(Seal(p), [x]);
      PlainByte(x);
      StretchJudged(Stuff(Seal(p)) + [x], Seal(p) + [x], room);
      TrailedJudged(p, x, room);
    }
  }

  lemma PlainByte(x: byte)
    requires x != ESC
    ensures Destuff(false, [x]) == [x]
  {
    assert [x][1..] == [];
  }

  lemma {:induction false} AllOnes(w: nat)
    ensures BitsOf(Pow2(w) - 1, w) == seq(w, i => true)
  {
    if w > 0 {
      AllOnes(w - 1);
      BitsOfHalf(Pow2(w) - 1, w);
    }
  }

  lemma InitOrbit()
    ensures Iterate(0x1E0C, 8) == 0xFFFF
  {}

  lemma InitWord()
    ensures Word(0xFFFF) == Reg(INIT)
  {
    Powers();
    AllOnes(16);
  }

  /** No byte, taken up by the initial register, makes it the one before it. */
  lemma NotBeforeInit(x: byte)
    ensures Xor(Reg(INIT), BitsOf(x, 8) + Zeros(8)) != Word(0x1E0C)
  {
    InitWord();
    var w := BitsOf(x, 8) + Zeros(8);
    assert Xor(Reg(INIT), w)[15] == (Reg(INIT)[15] != w[15]);
    assert !Word(0x1E0C)[15] && Word(0xFFFF)[15];
  }

  /** No byte leaves the initial register as it was. */
  lemma NoByteKeepsInit(x: byte)
    ensures Crc(INIT, [x]) != INIT
  {
    CrcIsFeed(INIT, [x]);
    ByteBits(x);
    AbsorbByte(Reg(INIT), BitsOf(x, 8));
    BeforeInit();
    NotBeforeInit(x);
    if Feed(Reg(INIT), BitsOf(x, 8)) == Reg(INIT) {
      FeedInjective(Xor(Reg(INIT), BitsOf(x, 8) + Zeros(8)), Word(0x1E0C), Zeros(8));
    }
  }

  lemma BeforeInit()
    ensures Feed(Word(0x1E0C), Zeros(8)) == Reg(INIT)
  {
    IterateIsFeed(0x1E0C, 8);
    InitOrbit();
    InitWord();
  }

  lemma LeadingByte(m: seq<byte>, x: byte)
    requires Sealed(m)
    ensures !Sealed([x] + m)
  {
    assert [] + m == m;
    Replaced([], [x], m);
    NoByteKeepsInit(x);
  }

  lemma LeadingJudged(p: seq<byte>, x: byte, room: nat)
    requires Admissible(p)
    ensures Judged([x] + Seal(p), room) == [Rejected(if |p| == PAYLOAD_MAX then ERR_OFLOW else ERR_CRC)]
  {
    SealIsSealed(p);
    LeadingByte(Seal(p), x);
  }

  /** The opening FLAG becomes a plain byte after an earlier FLAG: always reported. */
  lemma OpeningFlagLost(p: seq<byte>, x: byte, room: nat)
    requires Admissible(p) && !Special(x)
    ensures RunEvents(OPEN, [x] + Stuff(Seal(p)) + [FLAG], room) ==
      [Rejected(if |p| == PAYLOAD_MAX then ERR_OFLOW else ERR_CRC)]
  {
    StuffNoFlag(Seal(p));
    DestuffStuff(Seal(p));
    DestuffFirst(false, [x] + Stuff(Seal(p)));
    assert ([x] + Stuff(Seal(p)))[1..] == Stuff(Seal(p));
    StretchJudged([x] + Stuff(Seal(p)), [x] + Seal(p), room);
    LeadingJudged(p, x, room);
  }

  // ----- where a changed byte falls

  /** Every wire byte of m belongs to the unit of one of its bytes. */
  lemma {:induction false} Locate(m: seq<byte>, j: nat) returns (a: seq<byte>, b: byte, rest: seq<byte>)
    requires j < |Stuff(m)|
    ensures m == a + [b] + rest && Stuff(m) == Stuff(a) + (Unit(b) + Stuff(rest))
    ensures |Stuff(a)| <= j < |Stuff(a)| + |Unit(b)|
  {
    var u := Unit(m[0]);
    if j < |u| {
      a, b, rest := [], m[0], m[1..];
      assert Stuff([]) + (u + Stuff(rest)) == u + Stuff(rest);
    } else {
      a, b, rest := Locate(m[1..], j - |u|);
      StuffFirst(m[0], a);
      Prepended([m[0]], a, [b], rest);
      Prepended(u, Stuff(a), Unit(b), Stuff(rest));
      a := [m[0]] + a;
    }
  }

  lemma Prepended(u: seq<byte>, a: seq<byte>, b: seq<byte>, c: seq<byte>)
    ensures u + (a + b + c) == (u + a) + b + c && u + (a + (b + c)) == (u + a) + (b + c)
  {}

  /** Any one byte changed to a plain one in place of a plain one is reported. */
  lemma PlainChange(p: seq<byte>, j: nat, y: byte, room: nat)
    requires Admissible(p) && j < |Stuff(Seal(p))| && y != Stuff(Seal(p))[j]
    requires !Special(y) && Stuff(Seal(p))[j] != ESC
    ensures RunEvents(OPEN, Stuff(Seal(p))[j := y] + [FLAG], room) == [Rejected(ERR_CRC)]
  {
    var v := Stuff(Seal(p));
    StuffNoFlag(Seal(p));
    ByteIsBurst(v, j, y);
    assert SameEscapes(v, v[j := y]);
    WireDamageReported(p, v[j := y], room);
  }

  lemma ByteIsBurst(v: seq<byte>, j: nat, y: byte)
    requires j < |v| && v[j] != y && |v| >= 2
    ensures Damaged(v, v[j := y])
  {
    var w, a, b := v[j := y], v[..j], v[j + 1..];
    assert v == a + [v[j]] + b && w == a + [y] + b;
    DiffAt(a, v[j], y, b);
    var i := if 8 * j + 16 <= 8 * |v| then 8 * j else 8 * |v| - 16;
    BurstAt(8 * j, DiffByte(v[j], y), 8 * |b|, i);
    AgreeIsWithin(v, w, i);
  }

  lemma BurstAt(n: nat, d: Bits, m: nat, i: nat)
    requires |d| == 8 && i <= n && n + 8 <= i + 16
    ensures Within(Zeros(n) + d + Zeros(m), i, i + 16)
  {}

  /**
    * The verdict on the frame of n payload bytes, whose inner bytes are a, b and rest, when
    * wire byte k of the unit of b becomes y.
    */
  function OneByteVerdict(n: nat, a: seq<byte>, b: byte, rest: seq<byte>, k: nat, y: byte, room: nat): seq<Event>
    requires |a| + 1 + |rest| == n + 2 && n > 0 && k < |Unit(b)|
  {
    var escape := Special(b) && k == 0;
    if y == FLAG then Judged(a, room) + Judged(if escape then [Toggle(b)] + rest else rest, room)
    else if y == ESC then [MadeVerdict(n, a, b, rest)]
    else if escape then [UnmadeVerdict(n, a, b, y, rest)]
    else [Rejected(ERR_CRC)]
  }

  lemma Substituted(a: seq<byte>, u: seq<byte>, c: seq<byte>, j: nat, y: byte)
    requires |a| <= j < |a| + |u|
    ensures (a + (u + c))[j := y] == a + (u[j - |a| := y] + c) && (a + (u + c))[j] == u[j - |a|]
  {}

  lemma UnitVerdict(p: seq<byte>, a: seq<byte>, b: byte, rest: seq<byte>, k: nat, y: byte, room: nat)
    requires Admissible(p) && room >= PAYLOAD_MAX && Seal(p) == a + [b] + rest
    requires k < |Unit(b)| && y != Unit(b)[k] && (Special(y) || Unit(b)[k] == ESC)
    ensures RunEvents(OPEN, Stuff(a) + (Unit(b)[k := y] + Stuff(rest)) + [FLAG], room) ==
      OneByteVerdict(|p|, a, b, rest, k, y, room)
  {
    UnitChanged(b, k, y, Stuff(rest));
    if Special(b) && k == 0 {
      FirstVerdict(p, a, b, rest, y, room);
    } else {
      LastIsPlain(b, k);
      LastVerdict(p, a, b, rest, y, room);
      assert OneByteVerdict(|p|, a, b, rest, k, y, room) == ChangedLast(|p|, a, b, rest, y, room);
    }
  }

  lemma LastIsPlain(b: byte, k: nat)
    requires k < |Unit(b)| && !(Special(b) && k == 0)
    ensures Unit(b)[k] != ESC
  {
    ToggleSpecials();
  }

  lemma FirstVerdict(p: seq<byte>, a: seq<byte>, b: byte, rest: seq<byte>, y: byte, room: nat)
    requires Admissible(p) && room >= PAYLOAD_MAX && Seal(p) == a + [b] + rest
    requires Special(b) && y != ESC
    ensures RunEvents(OPEN, Stuff(a) + ([y, Toggle(b)] + Stuff(rest)) + [FLAG], room) ==
      OneByteVerdict(|p|, a, b, rest, 0, y, room)
  {
    if y == FLAG {
      FlagForEscape(a, b, rest, room);
    } else {
      EscapeUnmade(p, a, b, y, rest, room);
    }
  }

  /** The verdict when the byte sent last for b becomes y, a FLAG or an ESC. */
  function ChangedLast(n: nat, a: seq<byte>, b: byte, rest: seq<byte>, y: byte, room: nat): seq<Event>
    requires |a| + 1 + |rest| == n + 2 && n > 0
  {
    if y == FLAG then Judged(a, room) + Judged(rest, room) else [MadeVerdict(n, a, b, rest)]
  }

  lemma LastVerdict(p: seq<byte>, a: seq<byte>, b: byte, rest: seq<byte>, y: byte, room: nat)
    requires Admissible(p) && room >= PAYLOAD_MAX && Seal(p) == a + [b] + rest && Special(y)
    ensures RunEvents(OPEN, Stuff(a) + (Lead(b) + ([y] + Stuff(rest))) + [FLAG], room) ==
      ChangedLast(|p|, a, b, rest, y, room)
  {
    if y == FLAG {
      Regrouped3(Stuff(a), Lead(b), [y] + Stuff(rest));
      FlagMade(a, b, rest, room);
    } else {
      EscapeMade(p, a, b, rest, room);
    }
  }

  /** A changed byte of b's unit, before the bytes c: the ESC in front, or the last one. */
  lemma UnitChanged(b: byte, k: nat, y: byte, c: seq<byte>)
    requires k < |Unit(b)|
    ensures Unit(b)[k := y] + c ==
      if Special(b) && k == 0 then [y, Toggle(b)] + c else Lead(b) + ([y] + c)
  {
    if Special(b) && k == 0 {
      assert Unit(b)[k := y] == [y, Toggle(b)];
    } else {
      assert Unit(b)[k := y] == Lead(b) + [y];
    }
  }

  /**
    * Every change of one wire byte between the FLAGs of a frame, and the exact verdict on it,
    * given the inner byte whose unit it falls on.
    */
  lemma OneByteDamaged(p: seq<byte>, j: nat, y: byte, room: nat) returns (a: seq<byte>, b: byte, rest: seq<byte>)
    requires Admissible(p) && room >= PAYLOAD_MAX
    requires j < |Stuff(Seal(p))| && y != Stuff(Seal(p))[j]
    ensures Seal(p) == a + [b] + rest && |Stuff(a)| <= j < |Stuff(a)| + |Unit(b)|
    ensures RunEvents(OPEN, Stuff(Seal(p))[j := y] + [FLAG], room) ==
      OneByteVerdict(|p|, a, b, rest, j - |Stuff(a)|, y, room)
  {
    a, b, rest := Locate(Seal(p), j);
    var k := j - |Stuff(a)|;
    Substituted(Stuff(a), Unit(b), Stuff(rest), j, y);
    if Special(y) || Unit(b)[k] == ESC {
      UnitVerdict(p, a, b, rest, k, y, room);
    } else {
      PlainChange(p, j, y, room);
    }
  }

  // ----- changes that go unseen

  /** The register before a zero bit was fed. */
  function Unstep(r: Register): Register {
    if r[15] then [true] + Xor(r, TAPS)[..15] else [false] + r[..15]
  }

  lemma UnstepIsInverse(r: Register)
    ensures Step(Unstep(r), false) == r
  {
    TapsAt(15);
    var s := Unstep(r)[1..] + [false];
    if r[15] {
      assert Xor(s, TAPS) == r by {
        assert forall i :: 0 <= i < 16 ==> Xor(s, TAPS)[i] == r[i];
      }
    } else {
      assert s == r;
    }
  }

  function Unfeed(r: Register, n: nat): Register {
    if n == 0 then r else Unstep(Unfeed(r, n - 1))
  }

  lemma {:induction false} UnfeedIsInverse(r: Register, n: nat)
    ensures Feed(Unfeed(r, n), Zeros(n)) == r
  {
    if n > 0 {
      UnstepIsInverse(Unfeed(r, n - 1));
      FeedZeros(Unfeed(r, n), n);
      UnfeedIsInverse(r, n - 1);
    }
  }

  /** Fed the difference of two registers, the one becomes what the other does on zeros. */
  lemma FedDifference(r: Register, u: Register)
    ensures Feed(r, Xor(r, u)) == Feed(u, Zeros(16))
  {
    var w: Register := Xor(r, u);
    XorTwice(r, u);
    Absorb(r, w, 16);
    assert w[..16] == w && w[16..] + Zeros(16) == Zeros(16);
    XorZeros(Feed(r, w));
  }

  /** Two bytes bring the register from any value to any other. */
  lemma Steered(c: word, r: Register) returns (m: seq<byte>)
    ensures |m| == 2 && Reg(Crc(c, m)) == r
  {
    var w := Xor(Reg(c), Unfeed(r, 16));
    m := BytesOf(w);
    BytesOfBits(w);
    CrcIsFeed(c, m);
    FedDifference(Reg(c), Unfeed(r, 16));
    UnfeedIsInverse(r, 16);
  }

  /** The bits of 0x5D, which is one flipped bit away from ESC. */
  const NEAR_ESC: Bits := [false, true, false, true, true, true, false, true]

  lemma NearEscBits()
    ensures BitsOf(0x5D, 8) == NEAR_ESC
  {
    BitsOfHalf(0x5D, 8);
    BitsOfHalf(0x2E, 7);
    BitsOfHalf(0x17, 6);
    BitsOfHalf(0x0B, 5);
    BitsOfHalf(0x05, 4);
    BitsOfHalf(0x02, 3);
    BitsOfHalf(0x01, 2);
    BitsOfHalf(0x00, 1);
  }

  /** A register from which the byte 0x5D slips. */
  const SLIPPERY: Register := Word(0x14ED)

  lemma SlipperyOrbit()
    ensures Iterate(0x49ED, 8) == 0x34ED
  {}

  lemma SlipperyStart()
    ensures Xor(SLIPPERY, NEAR_ESC + Zeros(8)) == Word(0x49ED)
  {}

  lemma SlipperyEnd()
    ensures Xor(Word(0x34ED), SLIPPERY) == MASK
  {}

  lemma SlipperyFeeds()
    ensures Xor(Feed(SLIPPERY, BitsOf(0x5D, 8)), SLIPPERY) == MASK
  {
    NearEscBits();
    AbsorbByte(SLIPPERY, NEAR_ESC);
    SlipperyStart();
    IterateIsFeed(0x49ED, 8);
    SlipperyOrbit();
    SlipperyEnd();
  }

  lemma SlippingPrefix(a: seq<byte>) returns (m: seq<byte>)
    ensures |m| == 2 && Apart(Crc(INIT, a + m + [0x5D]), Crc(INIT, a + m))
  {
    m := Steered(Crc(INIT, a), SLIPPERY);
    CrcConcat(INIT, a, m);
    var r := Crc(INIT, a + m);
    CrcConcat(INIT, a + m, [0x5D]);
    CrcIsFeed(r, [0x5D]);
    ByteBits(0x5D);
    SlipperyFeeds();
    ApartBits(Crc(r, [0x5D]), r);
  }

  lemma SealParts(p: seq<byte>) returns (crc: seq<byte>)
    ensures Seal(p) == p + crc && |crc| == 2
  {
    crc := Seal(p)[|p|..];
  }

  lemma OneMaskBit()
    ensures Ones(BitsOf(ESC_XOR, 8)) == 1 && Odd(BitsOf(ESC_XOR, 8))
  {
    MaskBits();
    NoOnes(Zeros(2));
    NoOnes(Zeros(5));
    OnesConcat(Zeros(2), [true]);
    OnesConcat(Zeros(2) + [true], Zeros(5));
    OddOnes(BitsOf(ESC_XOR, 8));
  }

  lemma ToggleIsOneFlip(b: byte)
    ensures Ones(DiffByte(b, Toggle(b))) == 1 && Ones(DiffByte(Toggle(b), b)) == 1
  {
    Xor8Bits(b, ESC_XOR);
    XorTwice(BitsOf(b, 8), BitsOf(ESC_XOR, 8));
    assert DiffByte(Toggle(b), b) == DiffByte(b, Toggle(b));
    OneMaskBit();
  }

  lemma MadeAt(a: seq<byte>, b: byte, rest: seq<byte>)
    requires !Special(b)
    ensures Stuff(a + [b] + rest) == Stuff(a) + [b] + Stuff(rest)
    ensures Stuff(a) + (Lead(b) + ([ESC] + Stuff(rest))) == Stuff(a) + [ESC] + Stuff(rest)
  {
    StuffConcat(a + [b], rest);
    StuffAppend(a, b);
  }

  /** w is the wire of the inner bytes m with one flipped bit. */
  predicate OneFlip(m: seq<byte>, w: seq<byte>) {
    |w| == |Stuff(m)| && Distance(Stuff(m), w) == 1
  }

  lemma FlippedAt(m: seq<byte>, a: seq<byte>, x: byte, y: byte, b: seq<byte>)
    requires Stuff(m) == a + [x] + b && Ones(DiffByte(x, y)) == 1
    ensures OneFlip(m, a + [y] + b)
  {
    DistanceAt(a, x, y, b);
  }

  lemma MadeUnseen(p: seq<byte>, a: seq<byte>, rest: seq<byte>, room: nat) returns (w: seq<byte>)
    requires Admissible(p) && |p| > PAYLOAD_MIN && room >= PAYLOAD_MAX
    requires Seal(p) == a + [0x5D] + rest && rest != [] && !Special(rest[0])
    requires Apart(Crc(INIT, a + [0x5D]), Crc(INIT, a))
    ensures OneFlip(Seal(p), w)
    ensures RunEvents(OPEN, w + [FLAG], room) == [Delivered((a + Toggled(rest))[..|p| - 1])]
  {
    w := Stuff(a) + [ESC] + Stuff(rest);
    MadeAt(a, 0x5D, rest);
    NearEsc();
    FlippedAt(Seal(p), Stuff(a), 0x5D, ESC, Stuff(rest));
    EscapeMade(p, a, 0x5D, rest, room);
  }

  lemma MadeParts(a: seq<byte>, b: byte, c: byte, t: seq<byte>, crc: seq<byte>)
    ensures a + [b, c] + t + crc == a + [b] + ([c] + t + crc)
  {}

  lemma MadeInner(a: seq<byte>, c: byte, t: seq<byte>, crc: seq<byte>)
    requires !Special(c)
    ensures (a + Toggled([c] + t + crc))[..|a| + 1 + |t|] == a + [Toggle(c)] + t
  {
    assert ([c] + t + crc)[1..] == t + crc;
    UnmadeParts(a, [Toggle(c)], t, crc);
    assert a + [Toggle(c)] + (t + crc) == a + ([Toggle(c)] + (t + crc));
  }

  /**
    * Sparing the ESCs is a condition that cannot be dropped. After every prefix some two bytes
    * and 0x5D, which one flipped bit makes an ESC, can be followed by any plain byte and tail:
    * another payload, one byte shorter, is delivered.
    */
  lemma EscapeMadeUnseen(start: seq<byte>, c: byte, t: seq<byte>, room: nat) returns (a: seq<byte>, w: seq<byte>)
    requires !Special(c) && PAYLOAD_MIN < |start| + 4 + |t| <= PAYLOAD_MAX <= room
    ensures start <= a && |a| == |start| + 2 && OneFlip(Seal(a + [0x5D, c] + t), w)
    ensures RunEvents(OPEN, w + [FLAG], room) == [Delivered(a + [Toggle(c)] + t)]
  {
    var m := SlippingPrefix(start);
    a := start + m;
    var crc := SealParts(a + [0x5D, c] + t);
    MadeParts(a, 0x5D, c, t, crc);
    MadeInner(a, c, t, crc);
    w := MadeUnseen(a + [0x5D, c] + t, a, [c] + t + crc, room);
  }

  lemma UnmadeAt(a: seq<byte>, b: byte, rest: seq<byte>)
    requires Special(b)
    ensures Stuff(a + [b] + rest) == Stuff(a) + [ESC] + ([Toggle(b)] + Stuff(rest))
  {
    StuffConcat(a + [b], rest);
    StuffAppend(a, b);
    PairSplit(Stuff(a), ESC, Toggle(b), Stuff(rest));
  }

  lemma PairSplit(a: seq<byte>, x: byte, y: byte, c: seq<byte>)
    ensures a + ([x, y] + c) == a + [x] + ([y] + c) && a + [x, y] + c == a + [x] + ([y] + c)
  {}

  lemma UnmadeUnseen(p: seq<byte>, a: seq<byte>, b: byte, rest: seq<byte>, room: nat) returns (w: seq<byte>)
    requires Admissible(p) && |p| < PAYLOAD_MAX <= room
    requires Special(b) && Seal(p) == a + [b] + rest && Apart(Crc(INIT, a + [0x5D]), Crc(INIT, a))
    ensures OneFlip(Seal(p), w)
    ensures RunEvents(OPEN, w + [FLAG], room) == [Delivered((a + [0x5D, Toggle(b)] + rest)[..|p| + 1])]
  {
    UnmadeFlip(a, b, rest);
    w := Stuff(a) + ([0x5D, Toggle(b)] + Stuff(rest));
    EscapeUnmade(p, a, b, 0x5D, rest, room);
  }

  lemma UnmadeFlip(a: seq<byte>, b: byte, rest: seq<byte>)
    requires Special(b)
    ensures OneFlip(a + [b] + rest, Stuff(a) + ([0x5D, Toggle(b)] + Stuff(rest)))
  {
    UnmadeAt(a, b, rest);
    NearEsc();
    FlippedAt(a + [b] + rest, Stuff(a), ESC, 0x5D, [Toggle(b)] + Stuff(rest));
    PairSplit(Stuff(a), 0x5D, Toggle(b), Stuff(rest));
  }

  lemma NearEsc()
    ensures Ones(DiffByte(ESC, 0x5D)) == 1 && Ones(DiffByte(0x5D, ESC)) == 1
  {
    ToggleSpecials();
    ToggleIsOneFlip(ESC);
  }

  lemma UnmadeParts(a: seq<byte>, b: seq<byte>, t: seq<byte>, crc: seq<byte>)
    ensures a + b + t + crc == a + b + (t + crc)
    ensures (a + b + (t + crc))[..|a| + |b| + |t|] == a + b + t
  {}

  /** And some escaped byte after them loses its ESC unseen: one byte more is delivered. */
  lemma EscapeUnmadeUnseen(start: seq<byte>, b: byte, t: seq<byte>, room: nat) returns (a: seq<byte>, w: seq<byte>)
    requires Special(b) && PAYLOAD_MIN <= |start| + 3 + |t| < PAYLOAD_MAX <= room
    ensures start <= a && |a| == |start| + 2 && OneFlip(Seal(a + [b] + t), w)
    ensures RunEvents(OPEN, w + [FLAG], room) == [Delivered(a + [0x5D, Toggle(b)] + t)]
  {
    var m := SlippingPrefix(start);
    a := start + m;
    var crc := SealParts(a + [b] + t);
    UnmadeParts(a, [b], t, crc);
    UnmadeParts(a, [0x5D, Toggle(b)], t, crc);
    w := UnmadeUnseen(a + [b] + t, a, b, t + crc, room);
  }

  /**
    * Sparing the FLAGs is one too. Whenever a payload begins with a shorter sealed one and
    * 0x7F, one flipped bit on the wire delivers the shorter one.
    */
  lemma FlagMadeUnseen(q: seq<byte>, t: seq<byte>, room: nat) returns (w: seq<byte>)
    requires Admissible(q) && room >= PAYLOAD_MAX
    ensures OneFlip(Seal(Seal(q) + [0x7F] + t), w)
    ensures [Delivered(q)] <= RunEvents(OPEN, w + [FLAG], room)
  {
    var crc := SealParts(Seal(q) + [0x7F] + t);
    UnmadeParts(Seal(q), [0x7F], t, crc);
    w := CutUnseen(Seal(q), t + crc, room);
    ClassifySeal(q, room);
  }

  lemma CutUnseen(a: seq<byte>, rest: seq<byte>, room: nat) returns (w: seq<byte>)
    ensures OneFlip(a + [0x7F] + rest, w)
    ensures RunEvents(OPEN, w + [FLAG], room) == Judged(a, room) + Judged(rest, room)
  {
    MadeAt(a, 0x7F, rest);
    LastBitFlipped(0x3F);
    FlippedAt(a + [0x7F] + rest, Stuff(a), 0x7F, FLAG, Stuff(rest));
    w := Stuff(a) + [FLAG] + Stuff(rest);
    NoLead(Stuff(a), Stuff(rest));
    FlagMade(a, 0x7F, rest, room);
  }

  lemma NoLead(a: seq<byte>, c: seq<byte>)
    ensures a + Lead(0x7F) + ([FLAG] + c) == a + [FLAG] + c
  {}

  // ----- one flipped bit that is always reported

  lemma EscIsEven()
    ensures !Odd(BitsOf(ESC, 8))
  {
    ToggleSpecials();
    Xor8Bits(ESC, ESC_XOR);
    OddXor(BitsOf(ESC, 8), BitsOf(ESC_XOR, 8));
    OneMaskBit();
    NearEscBits();
    NearEscIsOdd();
  }

  lemma NearEscIsOdd()
    ensures Odd(NEAR_ESC)
  {
    OddConcat([false, true, false, true], [true, true, false, true]);
    assert NEAR_ESC == [false, true, false, true] + [true, true, false, true];
    assert !Odd([false, true, false, true]) && Odd([true, true, false, true]);
  }

  /** One flipped bit that makes an ESC before an escaped byte, or at the end, is reported. */
  lemma EscapeMadeReported(n: nat, a: seq<byte>, b: byte, rest: seq<byte>)
    requires |a| + 1 + |rest| == n + 2 && n > 0
    requires Ones(DiffByte(b, ESC)) == 1 && (rest == [] || Special(rest[0]))
    ensures MadeVerdict(n, a, b, rest).Rejected?
  {
    OddOnes(DiffByte(b, ESC));
    OddXor(BitsOf(b, 8), BitsOf(ESC, 8));
    EscIsEven();
    OddByteMoves(a, b);
  }
}
