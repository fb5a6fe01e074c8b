/** What every transaction, and every history of transactions, does to the simulated chip. */
module SimProperties {
  import opened Machine
  import opened I2cSim

  // ----- reads

  /** The register that access number i of a transaction starting at ptr falls on. */
  function Accessed(ptr: byte, i: nat): byte
    requires ptr < NREGS
  {
    (ptr + i) % NREGS
  }

  /** Every byte of a read comes from the register its access falls on, wrapping or not. */
  lemma {:induction false} ReadsAccessed(c: Chip, n: nat, i: nat)
    requires c.Valid() && c.ptr < NREGS && i < n
    ensures ReadPhase(c, n).1[i] == c.regs[Accessed(c.ptr, i)]
    decreases n
  {
    var d := Chip(c.regs, NextPtr(c.ptr), c.phase);
    ReadStep(c, n);
    if i > 0 {
      WrapStep(c.ptr, i - 1);
      ReadsAccessed(d, n - 1, i - 1);
    }
  }

  lemma WrapStep(ptr: byte, i: nat)
    requires ptr < NREGS
    ensures Accessed(ptr, i + 1) == Accessed(NextPtr(ptr), i)
  {
    if ptr + 1 == NREGS {
      assert ptr + (i + 1) == i + NREGS;
      assert (i + NREGS) % NREGS == i % NREGS;
    }
  }

  /** A read up to the last register returns a run of registers; only past it the pointer wraps. */
  lemma PlainRead(c: Chip, n: nat)
    requires c.Valid() && c.ptr < NREGS && c.ptr + n <= NREGS
    ensures ReadPhase(c, n).0 == Chip(c.regs, if c.ptr + n == NREGS then 0 else c.ptr + n, c.phase)
    ensures ReadPhase(c, n).1 == c.regs[c.ptr..c.ptr + n]
  {
    PlainPointer(c, n);
    var bytes, run := ReadPhase(c, n).1, c.regs[c.ptr..c.ptr + n];
    forall i | 0 <= i < n
      ensures bytes[i] == run[i]
    {
      ReadsAccessed(c, n, i);
      PlainAccess(c.ptr, i);
    }
  }

  lemma PlainAccess(ptr: byte, i: nat)
    requires ptr + i < NREGS
    ensures Accessed(ptr, i) == ptr + i
  {}

  lemma {:induction false} PlainPointer(c: Chip, n: nat)
    requires c.Valid() && c.ptr < NREGS && c.ptr + n <= NREGS
    ensures ReadPhase(c, n).0.ptr == if c.ptr + n == NREGS then 0 else c.ptr + n
    decreases n
  {
    if n > 0 {
      ReadStep(c, n);
      if c.ptr + 1 < NREGS {
        PlainPointer(Chip(c.regs, NextPtr(c.ptr), c.phase), n - 1);
      }
    }
  }

  /** A fresh sample replaces the six data registers and no other. */
  lemma RefreshRegs(c: Chip)
    requires c.Valid()
    ensures Refresh(c).regs[REG_DATAX0..REG_DATAZ1 + 1] == Snapshot(c.phase)
    ensures forall i :: 0 <= i < NREGS && !(REG_DATAX0 <= i <= REG_DATAZ1) ==> Refresh(c).regs[i] == c.regs[i]
  {}

  /** A measuring chip's six-byte burst is one sample of one phase, and advances it by one. */
  lemma Burst(c: Chip)
    requires c.Valid() && c.Measuring()
    ensures Transact(c, [REG_DATAX0], 6).1 == Snapshot(c.phase)
    ensures Transact(c, [REG_DATAX0], 6).0 == Chip(Refresh(c).regs, REG_DATAZ1 + 1, (c.phase + 1) % 0x1_0000_0000)
    ensures Transact(c, [REG_DATAX0], 6).0.Measuring()
  {
    var d := WritePhase(c, [REG_DATAX0]);
    assert d == Chip(c.regs, REG_DATAX0, c.phase);
    RefreshRegs(d);
    var e := Refresh(d);
    assert e.regs[REG_POWER_CTL] == c.regs[REG_POWER_CTL];
    assert Latch(d, 6) == e;
    PlainRead(e, 6);
  }

  /** Unless it touches the data block while measuring, a read changes only the pointer. */
  lemma QuietRead(c: Chip, reg: byte, n: size_t)
    requires c.Valid() && reg < NREGS
    requires !TouchesData(reg, n) || !c.Measuring()
    ensures Transact(c, [reg], n).0.regs == c.regs && Transact(c, [reg], n).0.phase == c.phase
    ensures reg as int + n <= NREGS ==> Transact(c, [reg], n).1 == c.regs[reg..reg as int + n]
  {
    var d := WritePhase(c, [reg]);
    assert d == Chip(c.regs, reg, c.phase);
    if reg as int + n <= NREGS {
      PlainRead(d, n);
    }
  }

  /** Reading moves the pointer on, around the register file. */
  lemma {:induction false} ReadPointer(c: Chip, n: nat)
    requires c.Valid() && c.ptr < NREGS
    ensures ReadPhase(c, n).0.ptr == (c.ptr + n) % 58
    decreases n
  {
    if n > 0 {
      ReadStep(c, n);
      WrapStep(c.ptr, n - 1);
      ReadPointer(Chip(c.regs, NextPtr(c.ptr), c.phase), n - 1);
    }
  }

  /** Measuring is bit D3 of register 0x2D, the fifth from the top. */
  lemma MeasureBit(c: Chip)
    requires c.Valid()
    ensures c.Measuring() <==> BitsOf(c.regs[0x2D], 8)[4]
  {
    var v := c.regs[0x2D];
    assert BitsOf(v, 8)[4] == Bit(v, 3);
    assert Bit(v, 3) == Bit(v / 2, 2) == Bit(v / 2 / 2, 1) == Bit(v / 2 / 2 / 2, 0);
    Eighth(v);
  }

  lemma Eighth(v: byte)
    ensures v / 8 == v / 2 / 2 / 2
  {}

  // ----- the chip after power-on

  /** Registers other than DEVID read zero, and nothing is sampled. */
  lemma PowerOnReads(r: byte, n: size_t)
    requires 0 < r < 58 && r as int + n <= 58
    ensures Transact(POWER_ON, [r], n).1 == seq(n, i => 0)
    ensures Transact(POWER_ON, [r], n).0.regs == POWER_ON.regs && Transact(POWER_ON, [r], n).0.phase == 0
  {
    QuietRead(POWER_ON, r, n);
    var run := POWER_ON.regs[r..r as int + n];
    assert forall i :: 0 <= i < n ==> run[i] == POWER_ON.regs[r + i];
  }

  /** The first byte read, without a pointer byte or with pointer byte zero, is the identity. */
  lemma PowerOnIdentity()
    ensures Transact(POWER_ON, [], 1).1 == [0xE5] && Transact(POWER_ON, [0], 1).1 == [0xE5]
    ensures Transact(POWER_ON, [], 1).0 == Chip(POWER_ON.regs, 1, 0)
  {
    ReadStep(POWER_ON, 1);
    QuietRead(POWER_ON, 0, 1);
    assert POWER_ON.regs[0..1] == [0xE5];
    assert Latch(POWER_ON, 1) == POWER_ON;
    ReadPointer(POWER_ON, 1);
  }

  // ----- the overlap test

  predicate ReadsData(ptr: byte, n: size_t)
    requires ptr < NREGS
  {
    exists i: nat :: i < n && REG_DATAX0 <= Accessed(ptr, i) <= REG_DATAZ1
  }

  lemma ReachesData(ptr: byte, n: size_t)
    requires ptr < NREGS
    ensures ReadsData(ptr, n) <==>
      (n > 0 && ptr as int + n > if ptr <= REG_DATAZ1 then REG_DATAX0 else NREGS + REG_DATAX0)
  {
    if ReadsData(ptr, n) {
      var i: nat :| i < n && REG_DATAX0 <= Accessed(ptr, i) <= REG_DATAZ1;
      if ptr + i < NREGS {
        assert Accessed(ptr, i) == ptr + i;
      } else if ptr + i < 2 * NREGS {
        assert Accessed(ptr, i) == ptr + i - NREGS;
      }
    }
    if ptr > REG_DATAZ1 {
      var i := NREGS + REG_DATAX0 - ptr;
      assert Accessed(ptr, i) == REG_DATAX0;
    } else {
      var i := if ptr < REG_DATAX0 then REG_DATAX0 - ptr else 0;
      assert Accessed(ptr, i) == ptr + i;
    }
  }

  /**
    * sim_touches_data is meant to say that a read reaches a data register. It does exactly
    * when the register pointer does not wrap past the end into the data block, the 32-bit
    * sum of pointer and length does not overflow to a small value, and an empty read does
    * not start inside the block.
    */
  lemma TouchesDataExactly(ptr: byte, n: size_t)
    requires ptr < NREGS
    ensures TouchesData(ptr, n) == ReadsData(ptr, n) <==>
      !(ptr > REG_DATAZ1 && ptr as int + n > NREGS + REG_DATAX0)
      && !(ptr <= REG_DATAZ1 && 0x1_0000_0000 <= ptr as int + n <= 0x1_0000_0000 + REG_DATAX0)
      && !(n == 0 && REG_DATAX0 < ptr <= REG_DATAZ1)
  {
    ReachesData(ptr, n);
  }

  /**
    * The test misses a read that wraps into the data block: sixty bytes from register 0x38
    * end with all six data registers of a measuring chip, which takes no fresh sample.
    */
  lemma WrappedReadIsStale(c: Chip)
    requires c.Valid() && c.Measuring()
    ensures ReadsData(0x38, 60) && !TouchesData(0x38, 60)
    ensures Transact(c, [0x38], 60).0.regs == c.regs && Transact(c, [0x38], 60).0.phase == c.phase
    ensures Transact(c, [0x38], 60).1[52..58] == c.regs[REG_DATAX0..REG_DATAZ1 + 1]
  {
    ReachesData(0x38, 60);
    QuietRead(c, 0x38, 60);
    var d := Chip(c.regs, 0x38, c.phase);
    var bytes, n := Transact(c, [0x38], 60).1, 60;
    assert bytes == ReadPhase(d, n).1;
    forall i | 52 <= i < 58
      ensures bytes[i] == c.regs[i - 2]
    {
      ReadsAccessed(d, n, i);
      assert Accessed(0x38, i) == i - 2;
    }
  }

  // ----- the register file

  /** The registers that n accesses from ptr on fall on, wherever ptr points. */
  function Accesses(ptr: byte, n: nat): (r: seq<byte>)
    ensures |r| == n
    decreases n
  {
    if n == 0 then [] else [ptr] + Accesses(NextPtr(ptr), n - 1)
  }

  /** Every access falls on a register. */
  predicate InFile(accesses: seq<byte>) {
    forall i :: 0 <= i < |accesses| ==> accesses[i] < NREGS
  }

  lemma InFileFirst(ptr: byte, rest: seq<byte>)
    ensures InFile([ptr] + rest) <==> ptr < NREGS && InFile(rest)
  {
    var all := [ptr] + rest;
    if InFile(all) {
      assert all[0] == ptr;
      assert forall i :: 0 <= i < |rest| ==> rest[i] == all[i + 1];
    }
  }

  /** The pointer's wrap brings every access after the first into the register file. */
  lemma {:induction false} AccessesInside(ptr: byte, n: nat)
    ensures InFile(Accesses(ptr, n)) <==> n == 0 || ptr < NREGS
    decreases n
  {
    if n > 0 {
      AccessesInside(NextPtr(ptr), n - 1);
      InFileFirst(ptr, Accesses(NextPtr(ptr), n - 1));
    }
  }

  /** From a register on, these are the registers that reads return. */
  lemma {:induction false} AccessesWrap(ptr: byte, n: nat, i: nat)
    requires ptr < NREGS && i < n
    ensures Accesses(ptr, n)[i] == Accessed(ptr, i)
    decreases n
  {
    if i > 0 {
      WrapStep(ptr, i - 1);
      AccessesWrap(NextPtr(ptr), n - 1, i - 1);
    }
  }

  /** Every byte read comes from the register its access falls on. */
  lemma ReadsLand(c: Chip, n: nat, i: nat)
    requires c.Valid() && c.ptr < NREGS && i < n
    ensures Accesses(c.ptr, n)[i] < NREGS
    ensures ReadPhase(c, n).1[i] == c.regs[Accesses(c.ptr, n)[i]]
  {
    AccessesWrap(c.ptr, n, i);
    ReadsAccessed(c, n, i);
  }

  lemma LaterAccesses(ptr: byte, n: nat)
    requires n > 0
    ensures Accesses(ptr, n)[0] == ptr && Accesses(ptr, n)[1..] == Accesses(NextPtr(ptr), n - 1)
  {}

  /** Registers that no access falls on keep their value. */
  lemma {:induction false} StoresSpare(c: Chip, data: seq<byte>, r: byte)
    requires c.Valid() && c.ptr < NREGS && r < NREGS
    requires r !in Accesses(c.ptr, |data|)
    ensures StoreAll(c, data).regs[r] == c.regs[r]
    decreases data
  {
    if data != [] {
      LaterAccesses(c.ptr, |data|);
      StoresSpare(Chip(c.regs[c.ptr := data[0]], NextPtr(c.ptr), c.phase), data[1..], r);
    }
  }

  /** Every byte stored lands on the register its access falls on, unless a later one does too. */
  lemma {:induction false} StoresLand(c: Chip, data: seq<byte>, i: nat)
    requires c.Valid() && c.ptr < NREGS && i < |data|
    requires Accesses(c.ptr, |data|)[i] !in Accesses(c.ptr, |data|)[i + 1..]
    ensures Accesses(c.ptr, |data|)[i] < NREGS
    ensures StoreAll(c, data).regs[Accesses(c.ptr, |data|)[i]] == data[i]
    decreases data
  {
    var d := Chip(c.regs[c.ptr := data[0]], NextPtr(c.ptr), c.phase);
    var all, rest := Accesses(c.ptr, |data|), Accesses(d.ptr, |data| - 1);
    LaterAccesses(c.ptr, |data|);
    if i == 0 {
      StoresSpare(d, data[1..], c.ptr);
    } else {
      assert rest[i - 1] == all[i] && rest[i..] == all[i + 1..];
      StoresLand(d, data[1..], i - 1);
    }
  }

  // ----- written bytes, by place

  lemma LaterElsewhere(ptr: byte, n: nat, i: nat)
    requires ptr < NREGS && i < n <= i + 58
    ensures Accesses(ptr, n)[i] !in Accesses(ptr, n)[i + 1..]
  {
    AccessesWrap(ptr, n, i);
    var all, later := Accesses(ptr, n), Accesses(ptr, n)[i + 1..];
    forall k | 0 <= k < |later|
      ensures later[k] != all[i]
    {
      AccessesWrap(ptr, n, i + 1 + k);
      Different(ptr + i, k + 1);
    }
  }

  lemma Different(a: nat, d: nat)
    requires 0 < d < 58
    ensures (a + d) % 58 != a % 58
  {
    var q, r := a / 58, a % 58;
    if r + d < 58 {
      Around(a + d, q, r + d);
    } else {
      Around(a + d, q + 1, r + d - 58);
    }
  }

  lemma Around(a: nat, q: nat, r: nat)
    requires a == 58 * q + r && r < 58
    ensures a % 58 == r
  {}

  /** Byte i after the pointer byte is found i registers on, unless the write came around to it again. */
  lemma WritesLand(c: Chip, w: seq<byte>, i: nat)
    requires c.Valid() && i + 1 < |w| <= i + 59 && w[0] < 58
    ensures WritePhase(c, w).regs[(w[0] + i) % 58] == w[i + 1]
  {
    var n := |w| - 1;
    LaterElsewhere(w[0], n, i);
    AccessesWrap(w[0], n, i);
    StoresLand(Chip(c.regs, w[0], c.phase), w[1..], i);
  }

  /** A register farther on than the bytes written keeps its value. */
  lemma WritesSpare(c: Chip, w: seq<byte>, r: byte)
    requires c.Valid() && w != [] && w[0] < 58 && r < 58
    requires (r + 58 - w[0]) % 58 >= |w| - 1
    ensures WritePhase(c, w).regs[r] == c.regs[r]
  {
    NotReached(w[0], |w| - 1, r);
    StoresSpare(Chip(c.regs, w[0], c.phase), w[1..], r);
  }

  lemma NotReached(p: byte, n: nat, r: byte)
    requires p < 58 && r < 58 && (r + 58 - p) % 58 >= n
    ensures r !in Accesses(p, n)
  {
    forall j | 0 <= j < n
      ensures Accesses(p, n)[j] != r
    {
      AccessesWrap(p, n, j);
      if (p + j) % 58 == r {
        WayRound(p, j, r);
      }
    }
  }

  lemma WayRound(p: nat, j: nat, r: nat)
    requires p < 58 && r == (p + j) % 58
    ensures (r + 58 - p) % 58 <= j
  {
    var q := (p + j) / 58;
    assert p + j == 58 * q + r;
    if r >= p {
      Around(r + 58 - p, 1, r - p);
    } else {
      Around(r + 58 - p, 0, r + 58 - p);
    }
  }

  /** Writing leaves the pointer after the last byte written, around the register file. */
  lemma WritePointer(c: Chip, w: seq<byte>)
    requires c.Valid() && w != [] && w[0] < 58
    ensures WritePhase(c, w).ptr == (w[0] + (|w| - 1)) % 58
  {
    StorePointer(Chip(c.regs, w[0], c.phase), w[1..]);
  }

  lemma {:induction false} StorePointer(c: Chip, data: seq<byte>)
    requires c.Valid() && c.ptr < NREGS
    ensures StoreAll(c, data).ptr == (c.ptr + |data|) % 58
    decreases data
  {
    if data != [] {
      WrapStep(c.ptr, |data| - 1);
      StorePointer(Chip(c.regs[c.ptr := data[0]], NextPtr(c.ptr), c.phase), data[1..]);
    }
  }

  /** The registers a transaction falls on: the bytes written after the pointer byte, then those read. */
  function Touched(c: Chip, w: seq<byte>, n: size_t): seq<byte> {
    Accesses(Start(c, w), (if w == [] then 0 else |w| - 1) + n)
  }

  /** A transaction stays inside the register file exactly when it is legal. */
  lemma LegalExactly(c: Chip, w: seq<byte>, n: size_t)
    ensures Legal(c, w, n) <==> InFile(Touched(c, w, n))
    ensures w != [] ==> (LegalWrite(w) <==> Legal(c, w, 0))
  {
    AccessesInside(Start(c, w), (if w == [] then 0 else |w| - 1) + n);
  }

  /** One byte read from pointer byte 0x3A lies past the register file. */
  lemma PointerPastFile(c: Chip)
    ensures !Legal(c, [0x3A], 1) && !InFile(Touched(c, [0x3A], 1))
  {
    LegalExactly(c, [0x3A], 1);
  }

  // ----- histories

  datatype Op =
    | Store(data: seq<byte>)
    | Exchange(w: seq<byte>, n: size_t)

  predicate LegalOp(c: Chip, op: Op) {
    match op
    case Store(data) => LegalWrite(data)
    case Exchange(w, n) => Legal(c, w, n)
  }

  function Apply(c: Chip, op: Op): (d: Chip)
    requires c.Valid() && LegalOp(c, op)
    ensures d.Valid()
  {
    match op
    case Store(data) => WritePhase(c, data)
    case Exchange(w, n) => Transact(c, w, n).0
  }

  /** Every operation of the history keeps its accesses in the register file. */
  predicate LegalRun(c: Chip, ops: seq<Op>)
    requires c.Valid()
    decreases ops
  {
    ops == [] || (LegalOp(c, ops[0]) && LegalRun(Apply(c, ops[0]), ops[1..]))
  }

  function Run(c: Chip, ops: seq<Op>): (d: Chip)
    requires c.Valid() && LegalRun(c, ops)
    ensures d.Valid()
    decreases ops
  {
    if ops == [] then c else Run(Apply(c, ops[0]), ops[1..])
  }

  /** The operations of a history that take a fresh sample. */
  function Samples(c: Chip, ops: seq<Op>): nat
    requires c.Valid() && LegalRun(c, ops)
    decreases ops
  {
    if ops == [] then 0
    else (if TakesSample(c, ops[0]) then 1 else 0) + Samples(Apply(c, ops[0]), ops[1..])
  }

  predicate TakesSample(c: Chip, op: Op)
    requires c.Valid() && LegalOp(c, op)
  {
    match op
    case Store(_) => false
    case Exchange(w, n) =>
      StartAfterWrite(c, w, n);
      var d := WritePhase(c, w);
      n > 0 && TouchesData(d.ptr, n) && d.Measuring()
  }

  /** Pointer bytes name registers. */
  predicate InRange(op: Op) {
    match op
    case Store(data) => data == [] || data[0] < NREGS
    case Exchange(w, _) => w == [] || w[0] < NREGS
  }

  /** With in-range pointer bytes every history is legal and leaves the pointer in range. */
  lemma {:induction false} PointerInRange(c: Chip, ops: seq<Op>)
    requires c.Valid() && c.ptr < NREGS && forall op :: op in ops ==> InRange(op)
    ensures LegalRun(c, ops) && Run(c, ops).ptr < NREGS
    decreases ops
  {
    if ops != [] {
      var op := ops[0];
      assert op in ops && InRange(op);
      match op {
        case Store(data) =>
        case Exchange(w, n) => StartAfterWrite(c, w, n);
      }
      assert forall o :: o in ops[1..] ==> o in ops;
      PointerInRange(Apply(c, op), ops[1..]);
    }
  }

  /** q is p advanced by n phases. */
  predicate Advanced(p: uint32, n: nat, q: uint32) {
    q == (p + n) % 0x1_0000_0000
  }

  lemma AdvancedTwice(p: uint32, a: nat, q: uint32, b: nat, r: uint32)
    requires Advanced(p, a, q) && Advanced(q, b, r)
    ensures Advanced(p, a + b, r)
  {
    Uint32Modulo(p + (a + b), (p + a) / 0x1_0000_0000, q + b);
  }

  lemma PhaseStep(c: Chip, op: Op)
    requires c.Valid() && LegalOp(c, op)
    ensures Advanced(c.phase, if TakesSample(c, op) then 1 else 0, Apply(c, op).phase)
  {
    match op {
      case Store(data) =>
      case Exchange(w, n) => StartAfterWrite(c, w, n);
    }
  }

  lemma SamplesStep(c: Chip, ops: seq<Op>)
    requires c.Valid() && LegalRun(c, ops) && ops != []
    ensures var d := Apply(c, ops[0]);
      && LegalRun(d, ops[1..]) && Run(c, ops) == Run(d, ops[1..])
      && Samples(c, ops) == (if TakesSample(c, ops[0]) then 1 else 0) + Samples(d, ops[1..])
  {}

  /** The phase counts the fresh samples of a history, modulo 2^32, and nothing else. */
  lemma {:induction false} PhaseCounts(c: Chip, ops: seq<Op>)
    requires c.Valid() && LegalRun(c, ops)
    ensures Advanced(c.phase, Samples(c, ops), Run(c, ops).phase)
    decreases ops
  {
    if ops != [] {
      var d, taken := Apply(c, ops[0]), if TakesSample(c, ops[0]) then 1 else 0;
      PhaseStep(c, ops[0]);
      SamplesStep(c, ops);
      PhaseCounts(d, ops[1..]);
      AdvancedTwice(c.phase, taken, d.phase, Samples(d, ops[1..]), Run(d, ops[1..]).phase);
    }
  }

  /** Reads alone never change a register or the phase of a chip in standby. */
  lemma {:induction false} StandbyIsFrozen(c: Chip, ops: seq<Op>)
    requires c.Valid() && LegalRun(c, ops) && !c.Measuring()
    requires forall op :: op in ops ==> op.Exchange? && |op.w| <= 1
    ensures Run(c, ops).regs == c.regs && Run(c, ops).phase == c.phase
    decreases ops
  {
    if ops != [] {
      var d := Apply(c, ops[0]);
      assert ops[0] in ops && ops[0].Exchange? && |ops[0].w| <= 1;
      StartAfterWrite(c, ops[0].w, ops[0].n);
      assert d.regs == c.regs;
      assert forall o :: o in ops[1..] ==> o in ops;
      StandbyIsFrozen(d, ops[1..]);
    }
  }
}
