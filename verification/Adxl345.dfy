/** The ADXL345 driver: decoding, and init, read and selftest over an injected bus. */
module Adxl345 {
  import opened Machine
  import opened I2cSim
  import opened SimProperties

  const I2C_ADDR: byte := 0x53
  const REG_BW_RATE: byte := 0x2C
  const REG_DATA_FORMAT: byte := 0x31
  const DATA_FORMAT_CONFIG: byte := 0x0B
  const RATE_100HZ: byte := 0x0A
  const POWER_CTL_MEASURE: byte := 0x08
  const MG_NUM := 125
  const MG_DEN := 32

  const OK := 0
  const E_PARAM := -1
  const E_BUS := -2
  const E_WRONG_DEVID := -3

  // ----- decoding

  /** C integer division truncates toward zero. */
  function TruncDiv(a: int, b: int): int
    requires b > 0
  {
    if a >= 0 then a / b else -(-a / b)
  }

  datatype Sample = Sample(x: int32, y: int32, z: int32)

  /** One axis in milli-g; the raw register pair is two's complement. */
  function Scale(raw: word): int32 {
    TruncDiv(I16(raw) * MG_NUM, MG_DEN)
  }

  function Decode(raw: seq<byte>): Sample
    requires |raw| == 6
  {
    Sample(Scale(FromLe16(raw[0], raw[1])), Scale(FromLe16(raw[2], raw[3])), Scale(FromLe16(raw[4], raw[5])))
  }

  /** The scaled value is the one integer no farther from zero than raw * 125 / 32, by less than one. */
  lemma ScaleExact(raw: word, mg: int)
    ensures mg == Scale(raw) <==>
      var exact := I16(raw) * 125;
      if exact >= 0 then 32 * mg <= exact < 32 * (mg + 1) else 32 * (mg - 1) < exact <= 32 * mg
  {
    var e := I16(raw) * 125;
    var a := if e >= 0 then e else -e;
    assert a == 32 * (a / 32) + a % 32;
  }

  /** mg is bytes i and i + 1, low byte first and in two's complement, scaled toward zero. */
  predicate AxisIs(raw: seq<byte>, i: nat, mg: int)
    requires i + 2 <= |raw|
  {
    var lo: int, hi: int := raw[i], raw[i + 1];
    var u := lo + 0x100 * hi;
    var exact := 125 * if u >= 0x8000 then u - 0x1_0000 else u;
    if exact >= 0 then 32 * mg <= exact < 32 * (mg + 1) else 32 * (mg - 1) < exact <= 32 * mg
  }

  lemma AxisScaled(raw: seq<byte>, i: nat)
    requires i + 2 <= |raw|
    ensures AxisIs(raw, i, Scale(FromLe16(raw[i], raw[i + 1])))
  {
    var u := FromLe16(raw[i], raw[i + 1]);
    ScaleExact(u, Scale(u));
  }

  /** X, Y and Z stand in this order, two bytes each. */
  lemma DecodeReads(raw: seq<byte>)
    requires |raw| == 6
    ensures AxisIs(raw, 0, Decode(raw).x) && AxisIs(raw, 2, Decode(raw).y) && AxisIs(raw, 4, Decode(raw).z)
  {
    AxisScaled(raw, 0);
    AxisScaled(raw, 2);
    AxisScaled(raw, 4);
  }

  /** Any three readings, stored low byte first, decode to their scaled values. */
  lemma DecodeFields(x: int16, y: int16, z: int16)
    ensures Decode(Le16(U16(x)) + Le16(U16(y)) + Le16(U16(z))) == Sample(Scale(U16(x)), Scale(U16(y)), Scale(U16(z)))
  {
    Le16Inverse(U16(x));
    Le16Inverse(U16(y));
    Le16Inverse(U16(z));
    var a, b, c := Le16(U16(x)), Le16(U16(y)), Le16(U16(z));
    var s := a + b + c;
    assert s[0] == a[0] && s[1] == a[1] && s[2] == b[0] && s[3] == b[1] && s[4] == c[0] && s[5] == c[1];
  }

  lemma PairInjective(a: byte, b: byte, c: byte, d: byte)
    requires Scale(FromLe16(a, b)) == Scale(FromLe16(c, d))
    ensures a == c && b == d
  {
    ScaleIncreasing(FromLe16(a, b), FromLe16(c, d));
  }

  /** No two raw samples decode alike. */
  lemma DecodeInjective(r: seq<byte>, s: seq<byte>)
    requires |r| == |s| == 6 && Decode(r) == Decode(s)
    ensures r == s
  {
    PairInjective(r[0], r[1], s[0], s[1]);
    PairInjective(r[2], r[3], s[2], s[3]);
    PairInjective(r[4], r[5], s[4], s[5]);
    SixBytes(r, s);
  }

  lemma SixBytes(r: seq<byte>, s: seq<byte>)
    requires |r| == |s| == 6
    requires r[0] == s[0] && r[1] == s[1] && r[2] == s[2] && r[3] == s[3] && r[4] == s[4] && r[5] == s[5]
    ensures r == s
  {}

  /** Every intermediate value fits 32 bits, and the result lies in -128000..127996. */
  lemma ScaleRange(raw: word)
    ensures -0x8000_0000 <= I16(raw) * MG_NUM < 0x8000_0000
    ensures -128000 <= Scale(raw) <= 127996
    ensures -32 < 32 * Scale(raw) - 125 * I16(raw) < 32
  {
    ScaleExact(raw, Scale(raw));
  }

  /** Scaling is strictly increasing, so no two raw values read alike. */
  lemma ScaleIncreasing(a: word, b: word)
    ensures I16(a) < I16(b) <==> Scale(a) < Scale(b)
    ensures a == b <==> Scale(a) == Scale(b)
  {
    ScaleExact(a, Scale(a));
    ScaleExact(b, Scale(b));
    if I16(a) < I16(b) {
      assert I16(a) * 125 + 125 <= I16(b) * 125;
    } else if I16(b) < I16(a) {
      assert I16(b) * 125 + 125 <= I16(a) * 125;
    } else {
      Signed16(0, a);
      Signed16(0, b);
    }
  }

  /** Scaling a negated reading negates the result, wherever the negation exists. */
  lemma ScaleOdd(x: int16)
    requires x > -0x8000
    ensures Scale(U16(-x)) == -Scale(U16(x))
  {
    Signed16(x, 0);
    Signed16(-x, 0);
  }

  // ----- the vibration model in milli-g

  /** The triangle wave of the simulated chip in milli-g: a step of 4 LSB is 15.625. */
  function WobbleMg(k: nat): int32
    requires k < 16
  {
    var step := if k <= 4 then k else if k <= 12 then 8 - k else k - 16;
    TruncDiv(step * 125, 8)
  }

  function Model(k: nat): Sample {
    Sample(WobbleMg(k % 16), WobbleMg((k + 4) % 16), 1000)
  }

  lemma WobbleTurns(k: nat)
    requires k < 8
    ensures WobbleMg(k + 8) == -WobbleMg(k)
  {}

  /**
    * The shape of the signal: Y runs a quarter period ahead of X, and half a period later
    * both are reflected about zero while Z rests at 1000.
    */
  lemma ModelShape(k: nat)
    ensures Model(k).y == Model(k + 4).x
    ensures Model(k + 8) == Sample(-Model(k).x, -Model(k).y, 1000)
  {
    HalfPeriod(k);
    HalfPeriod(k + 4);
  }

  /**
    * The first half of every period: X rises from rest to its peak of 62 milli-g in four
    * steps and falls the same way; Y starts at its peak.
    */
  lemma ModelRises(q: nat)
    ensures var p := 16 * q;
      && Model(p) == Sample(0, 62, 1000) && Model(p + 1).x == 15 && Model(p + 2).x == 31
      && Model(p + 3).x == 46 && Model(p + 4) == Sample(62, 0, 1000)
      && Model(p + 5).x == 46 && Model(p + 6).x == 31 && Model(p + 7).x == 15
  {
    var p := 16 * q;
    ModelPeriod(p, 0);
    ModelAt(p, q, 1);
    ModelAt(p, q, 2);
    ModelAt(p, q, 3);
    ModelAt(p, q, 4);
    ModelAt(p, q, 5);
    ModelAt(p, q, 6);
    ModelAt(p, q, 7);
  }

  lemma ModelAt(p: nat, q: nat, r: nat)
    requires p == 16 * q && r < 16
    ensures Model(p + r) == Model(r)
  {
    SixteenthOf(p + r, q, r);
    ModelPeriod(p + r, r);
  }

  lemma HalfPeriod(k: nat)
    ensures WobbleMg((k + 8) % 16) == -WobbleMg(k % 16)
  {
    var q, r := k / 16, k % 16;
    if r < 8 {
      SixteenthOf(k + 8, q, r + 8);
      WobbleTurns(r);
    } else {
      SixteenthOf(k + 8, q + 1, r - 8);
      WobbleTurns(r - 8);
    }
  }

  lemma SixteenthOf(p: nat, q: nat, r: nat)
    requires p == 16 * q + r && r < 16
    ensures p % 16 == r
  {}

  lemma WobbleScaled(k: nat)
    requires k < 16
    ensures Scale(U16(WOBBLE[k])) == WobbleMg(k)
  {
    Signed16(WOBBLE[k], 0);
    ScaleExact(U16(WOBBLE[k]), WobbleMg(k));
  }

  lemma RestScaled()
    ensures Scale(U16(256)) == 1000
  {
    Signed16(256, 0);
    ScaleExact(U16(256), 1000);
  }

  lemma PhaseIndex(phase: uint32)
    ensures (phase + 4) % 0x1_0000_0000 % 16 == (phase + 4) % 16
  {
    if phase + 4 >= 0x1_0000_0000 {
      assert (phase + 4) % 0x1_0000_0000 == phase + 4 - 0x1_0000_0000;
    }
  }

  /** Decoding the data registers of a phase gives the model's sample. */
  lemma SnapshotDecodes(phase: uint32)
    ensures Decode(Snapshot(phase)) == Model(phase)
  {
    var i, j := phase % 16, (phase + 4) % 16;
    PhaseIndex(phase);
    WobbleScaled(i);
    WobbleScaled(j);
    RestScaled();
    DecodeFields(WOBBLE[i], WOBBLE[j], 256);
  }

  // ----- the driver on the simulated chip

  /** adxl345_read on a chip: the burst and its decoding. */
  function ReadSample(c: Chip): (r: (Chip, Sample))
    requires c.Valid()
    ensures r.0.Valid()
  {
    var (d, raw) := Transact(c, [REG_DATAX0], 6);
    (d, Decode(raw))
  }

  /** A chip that has not been started yields the zero sample, and stays as it is. */
  lemma PowerOnSample()
    ensures ReadSample(POWER_ON).1 == Sample(0, 0, 0)
    ensures ReadSample(POWER_ON).0.regs == POWER_ON.regs && ReadSample(POWER_ON).0.phase == 0
  {
    PowerOnReads(0x32, 6);
    var raw := Transact(POWER_ON, [0x32], 6).1;
    assert forall i :: 0 <= i < 6 ==> raw[i] == 0;
  }

  /** What callers do between init and power-off: samples, and reads that leave the data alone. */
  datatype Use = Read | Peek(reg: byte, n: size_t)

  /** Reading DEVID is such a read. */
  const SELFTEST := Peek(0, 1)

  predicate Harmless(u: Use) {
    u.Peek? ==> u.reg < NREGS && !TouchesData(u.reg, u.n)
  }

  predicate AllHarmless(uses: seq<Use>) {
    uses == [] || (Harmless(uses[0]) && AllHarmless(uses[1..]))
  }

  function UseChip(c: Chip, u: Use): (d: Chip)
    requires c.Valid() && Harmless(u)
    ensures d.Valid()
  {
    match u
    case Read => ReadSample(c).0
    case Peek(reg, n) => Transact(c, [reg], n).0
  }

  /** The samples of a whole run. */
  function SamplesOf(c: Chip, uses: seq<Use>): seq<Sample>
    requires c.Valid() && AllHarmless(uses)
    decreases uses
  {
    if uses == [] then []
    else (if uses[0].Read? then [ReadSample(c).1] else []) + SamplesOf(UseChip(c, uses[0]), uses[1..])
  }

  /** One read of a measuring chip returns the model at its phase and advances the phase by one. */
  lemma ReadFollowsModel(c: Chip)
    requires c.Valid() && c.Measuring()
    ensures ReadSample(c).1 == Model(c.phase)
    ensures ReadSample(c).0.phase == (c.phase + 1) % 0x1_0000_0000 && ReadSample(c).0.Measuring()
  {
    Burst(c);
    SnapshotDecodes(c.phase);
  }

  lemma ModelPeriod(a: nat, b: nat)
    requires a % 16 == b % 16
    ensures Model(a) == Model(b)
  {
    FourLater(a);
    FourLater(b);
  }

  lemma FourLater(k: nat)
    ensures (k + 4) % 16 == if k % 16 < 12 then k % 16 + 4 else k % 16 - 12
  {
    var q, r := k / 16, k % 16;
    if r < 12 {
      SixteenthOf(k + 4, q, r + 4);
    } else {
      SixteenthOf(k + 4, q + 1, r - 12);
    }
  }

  lemma UseStep(c: Chip, u: Use)
    requires c.Valid() && c.Measuring() && Harmless(u)
    ensures UseChip(c, u).Measuring()
    ensures UseChip(c, u).phase == if u.Read? then (c.phase + 1) % 0x1_0000_0000 else c.phase
  {
    match u
    case Read => ReadFollowsModel(c);
    case Peek(reg, n) => QuietRead(c, reg, n);
  }

  function Reads(uses: seq<Use>): nat {
    if uses == [] then 0 else (if uses[0].Read? then 1 else 0) + Reads(uses[1..])
  }

  /** The model's samples over a run that starts at a phase. */
  function ModelRun(phase: uint32, uses: seq<Use>): (r: seq<Sample>)
    ensures |r| == Reads(uses)
    decreases uses
  {
    if uses == [] then []
    else if uses[0].Peek? then ModelRun(phase, uses[1..])
    else [Model(phase)] + ModelRun((phase + 1) % 0x1_0000_0000, uses[1..])
  }

  lemma {:induction false} SamplesAreModelRun(c: Chip, uses: seq<Use>)
    requires c.Valid() && c.Measuring() && AllHarmless(uses)
    ensures SamplesOf(c, uses) == ModelRun(c.phase, uses)
    decreases uses
  {
    if uses != [] {
      var d := UseChip(c, uses[0]);
      UseStep(c, uses[0]);
      SamplesAreModelRun(d, uses[1..]);
      if uses[0].Read? {
        ReadFollowsModel(c);
      }
    }
  }

  /** count samples of the model from a phase on. */
  function ModelSamples(phase: nat, count: nat): (r: seq<Sample>)
    ensures |r| == count
    ensures forall n :: 0 <= n < count ==> r[n] == Model(phase + n)
  {
    seq(count, n requires 0 <= n => Model(phase + n))
  }

  lemma ModelSamplesStep(phase: uint32, count: nat)
    ensures [Model(phase)] + ModelSamples((phase + 1) % 0x1_0000_0000, count) == ModelSamples(phase, count + 1)
  {
    var next := (phase + 1) % 0x1_0000_0000;
    var l, r := [Model(phase)] + ModelSamples(next, count), ModelSamples(phase, count + 1);
    forall k | 0 <= k <= count
      ensures l[k] == r[k]
    {
      if k > 0 {
        NextPhase(phase, k);
        ModelPeriod(next + (k - 1), phase + k);
      }
    }
  }

  lemma {:induction false} ModelRunIsModel(phase: uint32, uses: seq<Use>)
    ensures ModelRun(phase, uses) == ModelSamples(phase, Reads(uses))
    decreases uses
  {
    if uses == [] {
    } else if uses[0].Peek? {
      ModelRunIsModel(phase, uses[1..]);
    } else {
      ModelRunIsModel((phase + 1) % 0x1_0000_0000, uses[1..]);
      ModelSamplesStep(phase, Reads(uses[1..]));
    }
  }

  /**
    * From a measuring chip, the n-th of a run's samples is the model n phases on, whatever
    * harmless reads are interleaved and however often the 32-bit phase wraps.
    */
  lemma SamplesFollowModel(c: Chip, uses: seq<Use>)
    requires c.Valid() && c.Measuring() && AllHarmless(uses)
    ensures SamplesOf(c, uses) == ModelSamples(c.phase, Reads(uses))
  {
    SamplesAreModelRun(c, uses);
    ModelRunIsModel(c.phase, uses);
  }

  lemma NextPhase(phase: uint32, n: nat)
    requires n > 0
    ensures ((phase + 1) % 0x1_0000_0000 + (n - 1)) % 16 == (phase + n) % 16
  {
    if phase + 1 == 0x1_0000_0000 {
      assert (phase + 1) % 0x1_0000_0000 == 0;
      assert phase + n == 0x1000_0000 * 16 + (n - 1);
    }
  }
}
