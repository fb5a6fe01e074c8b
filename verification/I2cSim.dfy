/**
  * The simulated ADXL345: a register file with an auto-incrementing pointer and a phase
  * counter that drives a deterministic vibration. size_t is the 32 bits of the target.
  */
module I2cSim {
  import opened Machine

  type size_t = uint32

  const NREGS := 58
  const SIM_ADDR: byte := 0x53
  const REG_DEVID := 0x00
  const REG_POWER_CTL := 0x2D
  const REG_DATAX0 := 0x32
  const REG_DATAZ1 := 0x37
  const DEVID_VALUE: byte := 0xE5

  const I2C_OK := 0
  const I2C_ERR_NACK := -1
  const I2C_ERR_PARAM := -3

  /** The chip between two transactions. */
  datatype Chip = Chip(regs: seq<byte>, ptr: byte, phase: uint32) {
    predicate Valid() {
      |regs| == NREGS
    }

    /** POWER_CTL bit D3. */
    predicate Measuring()
      requires Valid()
    {
      regs[REG_POWER_CTL] / 8 % 2 == 1
    }
  }

  function NextPtr(ptr: byte): (r: byte)
    ensures r < NREGS
  {
    var p := (ptr + 1) % 0x100;
    if p >= NREGS then 0 else p
  }

  // ----- the vibration model

  /** One period of the vibration in raw units: up to 16, down to -16 and back. */
  const WOBBLE: seq<int16> := [0, 4, 8, 12, 16, 12, 8, 4, 0, -4, -8, -12, -16, -12, -8, -4]

  /** The six data bytes of one phase; Y leads X by four entries and Z is +1 g. */
  function Snapshot(phase: uint32): (r: seq<byte>)
    ensures |r| == 6
  {
    Le16(U16(WOBBLE[phase % 16])) + Le16(U16(WOBBLE[(phase + 4) % 0x1_0000_0000 % 16])) + Le16(U16(256))
  }

  function Refresh(c: Chip): (d: Chip)
    requires c.Valid()
    ensures d.Valid()
  {
    Chip(c.regs[..REG_DATAX0] + Snapshot(c.phase) + c.regs[REG_DATAZ1 + 1..], c.ptr, (c.phase + 1) % 0x1_0000_0000)
  }

  // ----- transactions

  /** The overlap test of sim_touches_data, with its 32-bit addition. */
  predicate TouchesData(ptr: byte, rlen: size_t) {
    ptr <= REG_DATAZ1 && (ptr + rlen) % 0x1_0000_0000 > REG_DATAX0
  }

  function StoreAll(c: Chip, data: seq<byte>): (d: Chip)
    requires c.Valid() && (data != [] ==> c.ptr < NREGS)
    ensures d.Valid() && d.phase == c.phase
    ensures c.ptr < NREGS ==> d.ptr < NREGS
    decreases data
  {
    if data == [] then c
    else StoreAll(Chip(c.regs[c.ptr := data[0]], NextPtr(c.ptr), c.phase), data[1..])
  }

  /** Where the register accesses of a transaction start. */
  function Start(c: Chip, w: seq<byte>): byte {
    if w == [] then c.ptr else w[0]
  }

  /** The written bytes stay in the register file. */
  predicate LegalWrite(w: seq<byte>) {
    |w| > 1 ==> w[0] < NREGS
  }

  /** All register accesses of the transaction stay in the register file. */
  predicate Legal(c: Chip, w: seq<byte>, n: size_t) {
    |w| > 1 || n > 0 ==> Start(c, w) < NREGS
  }

  /** The first byte sets the pointer, the others are stored from it on. */
  function WritePhase(c: Chip, w: seq<byte>): (d: Chip)
    requires c.Valid() && LegalWrite(w)
    ensures d.Valid() && d.phase == c.phase
  {
    if w == [] then c else StoreAll(Chip(c.regs, w[0], c.phase), w[1..])
  }

  /** The chip after n reads, and the bytes read. */
  function ReadPhase(c: Chip, n: nat): (r: (Chip, seq<byte>))
    requires c.Valid() && (n > 0 ==> c.ptr < NREGS)
    ensures r.0.Valid() && r.0.regs == c.regs && r.0.phase == c.phase && |r.1| == n
    ensures c.ptr < NREGS ==> r.0.ptr < NREGS
    decreases n, c
  {
    if n == 0 then (c, [])
    else
      var (d, rest) := ReadPhase(Chip(c.regs, NextPtr(c.ptr), c.phase), n - 1);
      (d, [c.regs[c.ptr]] + rest)
  }

  lemma ReadStep(c: Chip, n: nat)
    requires c.Valid() && c.ptr < NREGS && n > 0
    ensures var d := Chip(c.regs, NextPtr(c.ptr), c.phase);
      ReadPhase(c, n) == (ReadPhase(d, n - 1).0, [c.regs[c.ptr]] + ReadPhase(d, n - 1).1)
  {}

  /** A fresh sample is taken once, before the first byte is served. */
  function Latch(c: Chip, n: size_t): (d: Chip)
    requires c.Valid()
    ensures d.Valid() && d.ptr == c.ptr
  {
    if n > 0 && TouchesData(c.ptr, n) && c.Measuring() then Refresh(c) else c
  }

  lemma StartAfterWrite(c: Chip, w: seq<byte>, n: size_t)
    requires c.Valid() && Legal(c, w, n)
    ensures LegalWrite(w)
    ensures n > 0 ==> WritePhase(c, w).ptr < NREGS
  {}

  /** One combined write-then-read transaction with the chip. */
  function Transact(c: Chip, w: seq<byte>, n: size_t): (r: (Chip, seq<byte>))
    requires c.Valid() && Legal(c, w, n)
    ensures r.0.Valid() && |r.1| == n
  {
    StartAfterWrite(c, w, n);
    ReadPhase(Latch(WritePhase(c, w), n), n)
  }

  // ----- the C functions

  class Simulator {
    const regs: array<byte>
    var ptr: byte
    var phase: uint32

    ghost predicate Valid() {
      regs.Length == NREGS
    }

    function Abs(): (c: Chip)
      requires Valid()
      reads this, regs
      ensures c.Valid()
    {
      Chip(regs[..], ptr, phase)
    }

    constructor ()
      ensures Valid() && fresh(regs)
    {
      regs := new byte[NREGS];
      ptr, phase := 0, 0;
    }

    /** Power-on state: registers zero but for the identity byte, pointer and phase zero. */
    method Init()
      requires Valid()
      modifies this, regs
      ensures Abs() == POWER_ON
    {
      for i := 0 to NREGS
        invariant forall k :: 0 <= k < i ==> regs[k] == 0
      {
        regs[i] := 0;
      }
      regs[REG_DEVID] := DEVID_VALUE;
      ptr := 0;
      phase := 0;
    }

    /** Store a 16-bit value in two neighbouring registers, low byte first. */
    method PutWord(at: nat, u: word, ghost before: seq<byte>, ghost done: seq<byte>)
      requires Valid() && at + 2 <= NREGS && |before| == NREGS
      requires |done| == at && regs[..] == done + before[at..]
      modifies regs
      ensures regs[..] == done + Le16(u) + before[at + 2..]
    {
      regs[at] := u % 0x100;
      regs[at + 1] := u / 0x100 % 0x100;
    }

    method RefreshSample()
      requires Valid()
      modifies this, regs
      ensures Abs() == Refresh(old(Abs()))
    {
      var x := WOBBLE[phase % 16];
      var y := WOBBLE[(phase + 4) % 0x1_0000_0000 % 16];
      var z: int16 := 256;
      ghost var before := regs[..];
      ghost var head, a, b, c := before[..REG_DATAX0], Le16(U16(x)), Le16(U16(y)), Le16(U16(z));
      assert Snapshot(phase) == a + b + c;
      PutWord(REG_DATAX0, U16(x), before, head);
      PutWord(REG_DATAX0 + 2, U16(y), before, head + a);
      PutWord(REG_DATAX0 + 4, U16(z), before, head + a + b);
      assert head + a + b + c == head + (a + b + c);
      assert regs[..] == Refresh(old(Abs())).regs;
      phase := (phase + 1) % 0x1_0000_0000;
    }

    /** Store data[1..len] from the pointer data[0] on. */
    method WriteBytes(data: array<byte>, len: nat)
      requires Valid() && data != regs && 0 < len <= data.Length && LegalWrite(data[..len])
      modifies this, regs
      ensures Abs() == WritePhase(old(Abs()), data[..len])
    {
      ghost var goal := WritePhase(Abs(), data[..len]);
      ptr := data[0];
      assert data[..len][1..] == data[1..len];
      for i := 1 to len
        invariant i < len ==> ptr < NREGS
        invariant StoreAll(Abs(), data[i..len]) == goal
      {
        assert data[i..len][1..] == data[i + 1..len];
        ghost var before := regs[..];
        regs[ptr] := data[i];
        assert regs[..] == before[ptr := data[i]];
        ptr := NextPtr(ptr);
      }
    }

    method Write(addr: byte, data: array?<byte>, len: nat) returns (rc: int)
      requires Valid() && data != regs
      requires data != null && addr == SIM_ADDR ==> len <= data.Length && LegalWrite(data[..len])
      modifies this, regs
      ensures rc == if addr != 0x53 then -1 else if len == 0 then 0 else if data == null then -3 else 0
      ensures Abs() == if rc == 0 && len > 0 then WritePhase(old(Abs()), data[..len]) else old(Abs())
    {
      if addr != SIM_ADDR {
        return I2C_ERR_NACK;
      }
      if len == 0 {
        return I2C_OK;
      }
      if data == null {
        return I2C_ERR_PARAM;
      }
      WriteBytes(data, len);
      rc := I2C_OK;
    }

    /** Take a fresh sample if the read to come reaches the data of a measuring chip. */
    method LatchSample(rlen: size_t)
      requires Valid()
      modifies this, regs
      ensures Abs() == Latch(old(Abs()), rlen)
    {
      if rlen > 0 && TouchesData(ptr, rlen) && regs[REG_POWER_CTL] / 8 % 2 != 0 {
        RefreshSample();
      }
    }

    /** Stream rlen bytes from the pointer on. */
    method ReadBytes(rdata: array<byte>, rlen: nat)
      requires Valid() && rdata != regs && rlen <= rdata.Length && (rlen > 0 ==> ptr < NREGS)
      modifies `ptr, rdata
      ensures Abs() == ReadPhase(old(Abs()), rlen).0 && rdata[..rlen] == ReadPhase(old(Abs()), rlen).1
      ensures rdata[rlen..] == old(rdata[rlen..])
    {
      ghost var (goal, bytes) := ReadPhase(Abs(), rlen);
      for i := 0 to rlen
        invariant rlen - i > 0 ==> ptr < NREGS
        invariant regs[..] == old(regs[..])
        invariant ReadPhase(Abs(), rlen - i) == (goal, bytes[i..])
        invariant forall k :: 0 <= k < rdata.Length ==> rdata[k] == if k < i then bytes[k] else old(rdata[k])
      {
        ReadStep(Abs(), rlen - i);
        assert bytes[i] == bytes[i..][0] && bytes[i + 1..] == bytes[i..][1..];
        rdata[i] := regs[ptr];
        ptr := NextPtr(ptr);
      }
    }

    method WriteRead(addr: byte, wdata: array?<byte>, wlen: nat, rdata: array?<byte>, rlen: size_t) returns (rc: int)
      requires Valid() && wdata != regs && rdata != regs
      requires wdata != null ==> wlen <= wdata.Length
      requires rdata != null ==> rlen <= rdata.Length
      requires addr == SIM_ADDR && (wlen > 0 ==> wdata != null) && (rlen > 0 ==> rdata != null) ==>
        Legal(Abs(), Sent(wdata, wlen), rlen)
      modifies this, regs, rdata
      ensures rc == if addr != 0x53 then -1
        else if (wlen > 0 && wdata == null) || (rlen > 0 && rdata == null) then -3 else 0
      ensures rc != I2C_OK ==> Abs() == old(Abs()) && (rdata != null ==> rdata[..] == old(rdata[..]))
      ensures rc == I2C_OK ==>
        var (chip, bytes) := Transact(old(Abs()), old(Sent(wdata, wlen)), rlen);
        Abs() == chip && (rdata != null ==> rdata[..] == bytes + old(rdata[..])[rlen..])
    {
      if addr != SIM_ADDR {
        return I2C_ERR_NACK;
      }
      if (wlen > 0 && wdata == null) || (rlen > 0 && rdata == null) {
        return I2C_ERR_PARAM;
      }
      StartAfterWrite(Abs(), Sent(wdata, wlen), rlen);
      if wlen > 0 {
        WriteBytes(wdata, wlen);
      }
      LatchSample(rlen);
      if rdata != null {
        ReadBytes(rdata, rlen);
        assert rdata[..] == rdata[..rlen] + rdata[rlen..];
      }
      rc := I2C_OK;
    }
  }

  /** The bytes a transaction writes. */
  function Sent(data: array?<byte>, len: nat): seq<byte>
    requires data != null ==> len <= data.Length
    reads data
  {
    if data == null then [] else data[..len]
  }

  const POWER_ON := Chip(seq(NREGS, i => if i == REG_DEVID then DEVID_VALUE else 0), 0, 0)
}
