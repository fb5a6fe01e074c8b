/** adxl345_init, adxl345_read and adxl345_selftest over an injected bus that may fail. */
module Driver {
  import opened Machine
  import opened I2cSim
  import opened SimProperties
  import opened Adxl345

  /** The status the environment gives the i-th coming transaction; zero lets it through. */
  function Fault(faults: seq<int>, i: nat): int {
    if i < |faults| then faults[i] else 0
  }

  function Later(faults: seq<int>, n: nat): seq<int> {
    if n <= |faults| then faults[n..] else []
  }

  /**
    * The bus a driver is handed. An unbound bus has no methods; a bound one reaches the
    * simulated chip, unless the environment fails the transaction first.
    */
  class I2cBus {
    var sim: Simulator?
    var faults: seq<int>

    constructor ()
      ensures sim == null && faults == []
    {
      sim, faults := null, [];
    }

    function Footprint(): set<object>
      reads this
    {
      if sim == null then {this} else {this, sim, sim.regs}
    }

    ghost predicate Bound()
      reads this
    {
      sim != null && sim.Valid()
    }

    function Abs(): (c: Chip)
      requires Bound()
      reads this, Footprint()
      ensures c.Valid()
    {
      sim.Abs()
    }

    method Bind(s: Simulator)
      modifies this`sim
      ensures sim == s
    {
      sim := s;
    }

    method Write(addr: byte, data: array<byte>, len: nat) returns (rc: int)
      requires Bound() && data != sim.regs && len <= data.Length && LegalWrite(data[..len])
      modifies Footprint()
      ensures sim == old(sim) && faults == Later(old(faults), 1)
      ensures rc == if Fault(old(faults), 0) != 0 then Fault(old(faults), 0)
        else if addr != SIM_ADDR then I2C_ERR_NACK else I2C_OK
      ensures Abs() == if rc == I2C_OK then WritePhase(old(Abs()), old(data[..len])) else old(Abs())
    {
      if faults != [] {
        var f := faults[0];
        faults := faults[1..];
        if f != 0 {
          return f;
        }
      }
      rc := sim.Write(addr, data, len);
    }

    method WriteRead(addr: byte, wdata: array<byte>, wlen: nat, rdata: array<byte>, rlen: size_t) returns (rc: int)
      requires Bound() && wdata != sim.regs && rdata != sim.regs && wlen <= wdata.Length && rlen <= rdata.Length
      requires Legal(Abs(), wdata[..wlen], rlen)
      modifies Footprint(), rdata
      ensures sim == old(sim) && faults == Later(old(faults), 1)
      ensures rc == if Fault(old(faults), 0) != 0 then Fault(old(faults), 0)
        else if addr != SIM_ADDR then I2C_ERR_NACK else I2C_OK
      ensures rc != I2C_OK ==> Abs() == old(Abs()) && rdata[..] == old(rdata[..])
      ensures rc == I2C_OK ==>
        Abs() == Transact(old(Abs()), old(wdata[..wlen]), rlen).0
        && rdata[..] == Transact(old(Abs()), old(wdata[..wlen]), rlen).1 + old(rdata[..])[rlen..]
    {
      if faults != [] {
        var f := faults[0];
        faults := faults[1..];
        if f != 0 {
          return f;
        }
      }
      rc := sim.WriteRead(addr, wdata, wlen, rdata, rlen);
    }
  }

  /** The test every driver entry makes first: the bus is there and reaches a chip. */
  ghost predicate BusOk(bus: I2cBus?)
    reads bus
  {
    bus != null && bus.Bound()
  }

  /** One sample, filled in by adxl345_read. */
  class AccelOut {
    var x: int32
    var y: int32
    var z: int32

    constructor ()
      ensures Value() == Sample(0, 0, 0)
    {
      x, y, z := 0, 0, 0;
    }

    function Value(): Sample
      reads this
    {
      Sample(x, y, z)
    }

    method Decode(raw: array<byte>)
      requires raw.Length == 6
      modifies this
      ensures Value() == Adxl345.Decode(raw[..])
    {
      x := Scale(FromLe16(raw[0], raw[1]));
      y := Scale(FromLe16(raw[2], raw[3]));
      z := Scale(FromLe16(raw[4], raw[5]));
    }
  }

  method RegWrite(bus: I2cBus, reg: byte, val: byte) returns (rc: int)
    requires bus.Bound() && reg < NREGS
    modifies bus.Footprint()
    ensures bus.sim == old(bus.sim) && bus.faults == Later(old(bus.faults), 1)
    ensures rc == if Fault(old(bus.faults), 0) == 0 then OK else E_BUS
    ensures bus.Abs() == if rc == OK then Stored(old(bus.Abs()), reg, val) else old(bus.Abs())
  {
    var buf := new byte[2];
    buf[0] := reg;
    buf[1] := val;
    StoreOne(bus.Abs(), reg, val);
    assert buf[..2] == [reg, val];
    var status := bus.Write(I2C_ADDR, buf, 2);
    rc := if status == I2C_OK then OK else E_BUS;
  }

  /** The chip after one register write. */
  function Stored(c: Chip, reg: byte, val: byte): (d: Chip)
    requires c.Valid() && reg < NREGS
    ensures d.Valid()
  {
    Chip(c.regs[reg := val], NextPtr(reg), c.phase)
  }

  lemma StoreOne(c: Chip, reg: byte, val: byte)
    requires c.Valid() && reg < NREGS
    ensures LegalWrite([reg, val]) && WritePhase(c, [reg, val]) == Stored(c, reg, val)
  {
    assert [reg, val][1..] == [val] && [val][1..] == [];
    var d := Chip(c.regs, reg, c.phase);
    assert StoreAll(d, [val]) == StoreAll(Stored(c, reg, val), []);
  }

  method RegRead(bus: I2cBus, reg: byte) returns (rc: int, val: byte)
    requires bus.Bound() && reg < NREGS && !TouchesData(reg, 1)
    modifies bus.Footprint()
    ensures bus.sim == old(bus.sim) && bus.faults == Later(old(bus.faults), 1)
    ensures rc == if Fault(old(bus.faults), 0) == 0 then OK else E_BUS
    ensures bus.Abs() == if rc == OK then Peeked(old(bus.Abs()), reg) else old(bus.Abs())
    ensures rc == OK ==> val == old(bus.Abs().regs[reg])
  {
    var w, r := new byte[1], new byte[1];
    w[0] := reg;
    assert w[..1] == [reg];
    QuietRead(bus.Abs(), reg, 1);
    OneByte(bus.Abs(), reg);
    OnePointer(bus.Abs(), reg);
    var status := bus.WriteRead(I2C_ADDR, w, 1, r, 1);
    rc := if status == I2C_OK then OK else E_BUS;
    val := r[0];
  }

  /** The chip after one register was read: only the pointer has moved. */
  function Peeked(c: Chip, reg: byte): (d: Chip)
    requires c.Valid() && reg < NREGS
    ensures d.Valid()
  {
    Chip(c.regs, NextPtr(reg), c.phase)
  }

  lemma OnePointer(c: Chip, reg: byte)
    requires c.Valid() && reg < NREGS && !TouchesData(reg, 1)
    ensures Transact(c, [reg], 1).0 == Peeked(c, reg)
  {
    QuietRead(c, reg, 1);
    ReadStep(Chip(c.regs, reg, c.phase), 1);
  }

  lemma OneByte(c: Chip, reg: byte)
    requires c.Valid() && reg < NREGS && !TouchesData(reg, 1)
    ensures Transact(c, [reg], 1).1 == [c.regs[reg]]
  {
    ReadsAccessed(Chip(c.regs, reg, c.phase), 1, 0);
    assert Accessed(reg, 0) == reg;
  }

  // ----- the driver

  /** The register file after the first k of the three configuration writes. */
  function Configured(regs: seq<byte>, k: nat): (r: seq<byte>)
    requires |regs| == NREGS
    ensures |r| == NREGS
  {
    var one := if k >= 1 then regs[REG_DATA_FORMAT := DATA_FORMAT_CONFIG] else regs;
    var two := if k >= 2 then one[REG_BW_RATE := RATE_100HZ] else one;
    if k >= 3 then two[REG_POWER_CTL := POWER_CTL_MEASURE] else two
  }

  /** How many configuration writes get through. */
  function Writes(faults: seq<int>, devid: byte): nat {
    if Fault(faults, 0) != 0 || devid != DEVID_VALUE || Fault(faults, 1) != 0 then 0
    else if Fault(faults, 2) != 0 then 1
    else if Fault(faults, 3) != 0 then 2
    else 3
  }

  /** The documented status of init: a bus error, a wrong identity, or success. */
  function InitStatus(faults: seq<int>, devid: byte): int {
    if Fault(faults, 0) != 0 then E_BUS
    else if devid != DEVID_VALUE then E_WRONG_DEVID
    else if Writes(faults, devid) == 3 then OK else E_BUS
  }

  /** The register pointer after init: behind the last register that was reached. */
  function InitPtr(faults: seq<int>, c: Chip): byte
    requires c.Valid()
  {
    if Fault(faults, 0) != 0 then c.ptr
    else NextPtr([REG_DEVID, REG_DATA_FORMAT, REG_BW_RATE, REG_POWER_CTL][Writes(faults, c.regs[REG_DEVID])])
  }

  /** How many transactions init issues: it stops at the first that fails. */
  function Issued(faults: seq<int>, devid: byte): nat {
    if Fault(faults, 0) != 0 || devid != DEVID_VALUE then 1
    else if Writes(faults, devid) == 3 then 4 else Writes(faults, devid) + 2
  }

  /** The chip after init. */
  function InitChip(faults: seq<int>, c: Chip): (d: Chip)
    requires c.Valid()
    ensures d.Valid()
  {
    Chip(Configured(c.regs, Writes(faults, c.regs[REG_DEVID])), InitPtr(faults, c), c.phase)
  }

  /** Transaction k of init is issued and fails: every one before it got through. */
  predicate FailsAt(faults: seq<int>, devid: byte, k: nat) {
    && Fault(faults, k) != 0
    && (forall i :: 0 <= i < k ==> Fault(faults, i) == 0)
    && (k > 0 ==> devid == 0xE5)
  }

  /**
    * Which status init returns: -3 exactly when the identity was read and is not 0xE5, -2
    * exactly when one of the transactions it issues fails, and 0 otherwise.
    */
  lemma InitStatusIff(faults: seq<int>, devid: byte)
    ensures InitStatus(faults, devid) == -3 <==> Fault(faults, 0) == 0 && devid != 0xE5
    ensures InitStatus(faults, devid) == -2 <==> exists k :: 0 <= k < 4 && FailsAt(faults, devid, k)
    ensures InitStatus(faults, devid) == 0 <==>
      devid == 0xE5 && forall k :: 0 <= k < 4 ==> Fault(faults, k) == 0
    ensures InitStatus(faults, devid) in {0, -2, -3}
  {
    if InitStatus(faults, devid) == -2 {
      var k := if Fault(faults, 0) != 0 then 0 else Writes(faults, devid) + 1;
      assert FailsAt(faults, devid, k);
    }
  }

  /** What a failure leaves: the registers configured before it, in the order of the requirements. */
  lemma InitFails(faults: seq<int>, c: Chip, k: nat)
    requires c.Valid() && k < 4 && FailsAt(faults, c.regs[0], k)
    ensures InitChip(faults, c) ==
      if k == 0 then c
      else if k == 1 then Chip(c.regs, 0x01, c.phase)
      else if k == 2 then Chip(c.regs[0x31 := 0x0B], 0x32, c.phase)
      else Chip(c.regs[0x31 := 0x0B][0x2C := 0x0A], 0x2D, c.phase)
    ensures Issued(faults, c.regs[0]) == k + 1
  {
    assert forall i :: 0 <= i < k ==> Fault(faults, i) == 0;
  }

  lemma LaterFault(faults: seq<int>, i: nat, j: nat)
    ensures Fault(Later(faults, i), j) == Fault(faults, i + j)
    ensures Later(Later(faults, i), j) == Later(faults, i + j)
  {}

  method Init(bus: I2cBus?) returns (rc: int)
    requires bus != null && bus.sim != null ==> bus.Bound()
    modifies if bus == null || bus.sim == null then {} else bus.Footprint()
    ensures !old(BusOk(bus)) ==> rc == -1
    ensures old(BusOk(bus)) ==>
      && bus.sim == old(bus.sim)
      && bus.Abs() == InitChip(old(bus.faults), old(bus.Abs()))
      && bus.faults == Later(old(bus.faults), Issued(old(bus.faults), old(bus.Abs().regs[0])))
      && rc == InitStatus(old(bus.faults), old(bus.Abs().regs[0]))
    ensures old(BusOk(bus)) ==>
      && (rc == -3 <==> Fault(old(bus.faults), 0) == 0 && old(bus.Abs().regs[0]) != 0xE5)
      && (rc == -2 <==> exists k :: 0 <= k < 4 && FailsAt(old(bus.faults), old(bus.Abs().regs[0]), k))
      && rc in {0, -2, -3}
  {
    if bus == null || bus.sim == null {
      return E_PARAM;
    }
    ghost var f := bus.faults;
    InitStatusIff(f, bus.Abs().regs[REG_DEVID]);
    LaterFault(f, 1, 0);
    LaterFault(f, 1, 1);
    LaterFault(f, 2, 0);
    LaterFault(f, 2, 1);
    LaterFault(f, 3, 0);
    LaterFault(f, 3, 1);
    var devid;
    rc, devid := RegRead(bus, REG_DEVID);
    if rc != OK {
      return;
    }
    if devid != DEVID_VALUE {
      return E_WRONG_DEVID;
    }
    rc := RegWrite(bus, REG_DATA_FORMAT, DATA_FORMAT_CONFIG);
    if rc != OK {
      return;
    }
    rc := RegWrite(bus, REG_BW_RATE, RATE_100HZ);
    if rc != OK {
      return;
    }
    rc := RegWrite(bus, REG_POWER_CTL, POWER_CTL_MEASURE);
    if rc != OK {
      return;
    }
    rc := OK;
  }

  /**
    * A successful init leaves the documented configuration and a measuring chip; a failed
    * one never starts a chip that was not measuring, because POWER_CTL is written last.
    */
  lemma InitConfigures(faults: seq<int>, c: Chip)
    requires c.Valid()
    ensures var d := InitChip(faults, c);
      && (InitStatus(faults, c.regs[0]) == 0 ==>
            d == Chip(c.regs[0x31 := 0x0B][0x2C := 0x0A][0x2D := 0x08], 0x2E, c.phase) && d.Measuring())
      && (InitStatus(faults, c.regs[0]) != 0 ==> d.regs[0x2D] == c.regs[0x2D])
      && forall i :: 0 <= i < NREGS && i != 0x31 && i != 0x2C && i != 0x2D ==> d.regs[i] == c.regs[i]
  {}

  /**
    * After power-on and a successful init, the n-th read of a run is the model at n, of
    * period 16, whatever self-tests and other reads outside the data block are mixed in.
    */
  lemma DriverOnSimulator(faults: seq<int>, uses: seq<Use>)
    requires InitStatus(faults, POWER_ON.regs[REG_DEVID]) == OK && AllHarmless(uses)
    ensures SamplesOf(InitChip(faults, POWER_ON), uses) == ModelSamples(0, Reads(uses))
    ensures Harmless(SELFTEST)
  {
    InitConfigures(faults, POWER_ON);
    SamplesFollowModel(InitChip(faults, POWER_ON), uses);
  }

  /** One six-byte burst from DATAX0, decoded into out. */
  method Read(bus: I2cBus?, out: AccelOut?) returns (rc: int)
    requires bus != null && bus.sim != null ==> bus.Bound()
    modifies if bus == null || bus.sim == null || out == null then {} else bus.Footprint() + {out}
    ensures !old(BusOk(bus)) || out == null ==> rc == -1
    ensures old(BusOk(bus)) && out != null ==>
      && bus.sim == old(bus.sim) && bus.faults == Later(old(bus.faults), 1)
      && rc == (if Fault(old(bus.faults), 0) == 0 then 0 else -2)
      && (bus.Abs(), out.Value()) ==
           (if rc == 0 then ReadSample(old(bus.Abs())) else (old(bus.Abs()), old(out.Value())))
  {
    if bus == null || bus.sim == null || out == null {
      return E_PARAM;
    }
    var w, raw := new byte[1], new byte[6];
    w[0] := REG_DATAX0;
    assert w[..1] == [REG_DATAX0];
    var status := bus.WriteRead(I2C_ADDR, w, 1, raw, 6);
    if status != I2C_OK {
      return E_BUS;
    }
    out.Decode(raw);
    rc := OK;
  }

  /** Read the identity again. */
  method SelfTest(bus: I2cBus?) returns (rc: int)
    requires bus != null && bus.sim != null ==> bus.Bound()
    modifies if bus == null || bus.sim == null then {} else bus.Footprint()
    ensures !old(BusOk(bus)) ==> rc == -1
    ensures old(BusOk(bus)) ==>
      && bus.sim == old(bus.sim) && bus.faults == Later(old(bus.faults), 1)
      && rc == (if Fault(old(bus.faults), 0) != 0 then -2 else if old(bus.Abs().regs[0]) == 0xE5 then 0 else -3)
      && bus.Abs() == if rc == -2 then old(bus.Abs()) else Peeked(old(bus.Abs()), 0)
  {
    if bus == null || bus.sim == null {
      return E_PARAM;
    }
    var devid;
    rc, devid := RegRead(bus, REG_DEVID);
    if rc != OK {
      return;
    }
    rc := if devid == DEVID_VALUE then OK else E_WRONG_DEVID;
  }
}
