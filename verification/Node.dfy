/**
  * The node's super-loop: simulated chip, driver, payload, frame and serial output, and
  * the end-to-end theorem about a decoder that listens to it.
  */
module Node {
  import opened Machine
  import opened Framing
  import opened FrameEncoder
  import opened Decoder
  import opened Stream
  import opened Delivery
  import opened Payload
  import opened I2cSim
  import opened Adxl345
  import opened Driver

  const BANNER := "Sharak node online\r\n"
  const INIT_FAILED := ErrorText("init")
  const READ_FAILED := ErrorText("read")

  function ErrorText(what: string): string {
    "ERROR: ADXL345 " + what + " failed; halting\r\n"
  }

  function Ascii(s: string): seq<byte> {
    seq(|s|, i requires 0 <= i < |s| => s[i] as int % 0x100)
  }

  /** A sample of the vibration model with a sequence number. */
  function Reading(phase: nat, seqno: word): Message {
    var m := Model(phase);
    Accel(seqno, m.x, m.y, m.z)
  }

  /** The message of loop iteration k. */
  function Telemetry(k: nat): Message {
    Reading(k, k % 0x1_0000)
  }

  /** The messages of the first n iterations. */
  function Telemetries(n: nat): (ms: seq<Message>)
    ensures |ms| == n
    ensures forall k :: 0 <= k < n ==> ms[k] == Telemetry(k)
  {
    if n == 0 then [] else Telemetries(n - 1) + [Telemetry(n - 1)]
  }

  /** The frames are those of the messages. */
  ghost predicate Framed(frames: seq<seq<byte>>, ms: seq<Message>) {
    |frames| == |ms| && forall k {:trigger Pack(ms[k])} :: 0 <= k < |ms| ==> frames[k] == Frame(Pack(ms[k]))
  }

  /** The serial output of a run of n iterations. */
  function Output(n: nat): seq<byte> {
    Ascii(BANNER) + Frames(PackAll(Telemetries(n)))
  }

  class SuperLoop {
    const sim: Simulator
    const bus: I2cBus
    const sample: AccelOut
    const payload: array<byte>
    const frame: array<byte>
    var seqno: word
    var uart: seq<byte>
    var halted: bool

    /** The text sent before the first frame, then the frames sent and their messages. */
    ghost var text: seq<byte>
    ghost var frames: seq<seq<byte>>
    ghost var sent: seq<Message>

    ghost predicate Valid()
      reads this, bus
    {
      && payload.Length == PAYLOAD_MAX && frame.Length == FRAME_MAX
      && bus.sim == sim && sim.Valid()
    }

    /** The loop is only entered with the chip measuring. */
    ghost predicate Ready()
      reads this, bus, sim, sim.regs
    {
      Valid() && (!halted ==> sim.Abs().Measuring() && uart == text + Flatten(frames) && Framed(frames, sent))
    }

    function Footprint(): set<object> {
      {this, sim, sim.regs, bus, sample, payload, frame}
    }

    /** The static buffers and the sequence counter before main runs. */
    constructor ()
      ensures fresh(Footprint()) && bus.sim == null && bus.faults == []
      ensures payload.Length == PAYLOAD_MAX && frame.Length == FRAME_MAX && sim.Valid()
      ensures uart == [] && seqno == 0 && !halted
    {
      sim := new Simulator();
      bus := new I2cBus();
      sample := new AccelOut();
      payload := new byte[PAYLOAD_MAX];
      frame := new byte[FRAME_MAX];
      seqno, uart, halted := 0, [], false;
      text, frames, sent := [], [], [];
    }

    /** Wire up the simulated chip and configure it. */
    method StartSensor() returns (rc: int)
      requires sim.Valid()
      modifies sim, sim.regs, bus
      ensures bus.sim == sim && rc == InitStatus(old(bus.faults), DEVID_VALUE)
      ensures sim.Abs().Measuring() <==> rc == OK
      ensures sim.Abs().phase == 0
      ensures bus.faults == Later(old(bus.faults), Issued(old(bus.faults), DEVID_VALUE))
    {
      sim.Init();
      bus.Bind(sim);
      InitConfigures(bus.faults, POWER_ON);
      rc := Init(bus);
    }

    /** Everything before the loop. */
    method Boot()
      requires payload.Length == PAYLOAD_MAX && frame.Length == FRAME_MAX && sim.Valid()
      requires uart == [] && seqno == 0 && !halted
      modifies this, sim, sim.regs, bus
      ensures Ready() && seqno == 0
      ensures halted <==> InitStatus(old(bus.faults), DEVID_VALUE) != OK
      ensures !halted ==> sim.Abs().phase == 0
      ensures uart == if halted then Ascii(BANNER) + Ascii(INIT_FAILED) else Ascii(BANNER)
      ensures text == Ascii(BANNER) && sent == []
      ensures !halted ==> bus.faults == Later(old(bus.faults), 4)
    {
      uart := Ascii(BANNER);
      text, frames, sent := uart, [], [];
      var rc := StartSensor();
      if rc != OK {
        uart := uart + Ascii(INIT_FAILED);
        halted := true;
      }
      assert Flatten([]) == [];
    }

    /** Read a sample over the bus; it is the model's at the chip's phase. */
    method Sense() returns (rc: int)
      requires Ready() && !halted
      modifies sim, sim.regs, bus, sample
      ensures Ready() && bus.faults == Later(old(bus.faults), 1)
      ensures rc == OK <==> Fault(old(bus.faults), 0) == 0
      ensures rc == OK ==> sample.Value() == Model(old(sim.Abs().phase))
      ensures rc == OK ==> sim.Abs().phase == (old(sim.Abs().phase) + 1) % 0x1_0000_0000
    {
      ReadFollowsModel(sim.Abs());
      rc := Driver.Read(bus, sample);
    }

    /** Pack the sample, frame the payload and write the frame to the serial line. */
    method Transmit() returns (ghost f: seq<byte>)
      requires Valid()
      modifies this`uart, payload, frame
      ensures uart == old(uart) + f
      ensures Framed([f], [Accel(seqno, sample.x, sample.y, sample.z)])
    {
      ghost var m := Accel(seqno, sample.x, sample.y, sample.z);
      ghost var p := Pack(m);
      UnpackPack(m);
      FrameLength(p);
      f := [];
      var plen := PayloadPack(payload, payload.Length, seqno, sample.x, sample.y, sample.z);
      if plen == PAYLOAD_MAX {
        assert payload[..plen] == p;
        var flen := FrameEncode(payload, plen, frame, frame.Length);
        if flen > 0 {
          f := frame[..flen];
          assert f == Frame(p);
          uart := uart + frame[..flen];
        }
      }
      FramedOne(m, f);
    }

    /** Transmit, and note the message. */
    method Send()
      requires Ready() && !halted
      modifies this`uart, this`frames, this`sent, payload, frame
      ensures Ready() && sent == old(sent) + [Accel(seqno, sample.x, sample.y, sample.z)]
    {
      ghost var m := Accel(seqno, sample.x, sample.y, sample.z);
      ghost var f := Transmit();
      FramedConcat(frames, sent, [f], [m]);
      FlattenAppend(frames, f);
      frames, sent := frames + [f], sent + [m];
    }

    /** One pass of the loop; a node that has halted does nothing more. */
    method Iterate()
      requires Ready()
      modifies Footprint()
      ensures Ready() && text == old(text)
      ensures old(halted) ==> halted && uart == old(uart)
      ensures !old(halted) && Fault(old(bus.faults), 0) != 0 ==>
        halted && uart == old(uart) + Ascii(READ_FAILED) && sent == old(sent)
      ensures !old(halted) && Fault(old(bus.faults), 0) == 0 ==>
        && !halted && seqno == (old(seqno) + 1) % 0x1_0000
        && sim.Abs().phase == (old(sim.Abs().phase) + 1) % 0x1_0000_0000
        && sent == old(sent) + [Reading(old(sim.Abs().phase), old(seqno))]
      ensures !old(halted) ==> bus.faults == Later(old(bus.faults), 1)
    {
      if halted {
        return;
      }
      var rc := Sense();
      if rc != OK {
        uart := uart + Ascii(READ_FAILED);
        halted := true;
        return;
      }
      Send();
      seqno := (seqno + 1) % 0x1_0000;
    }

    /** The node after i passes without a failing read, on a bus with the faults f at the start. */
    ghost predicate Running(f: seq<int>, i: nat)
      reads this, bus, sim, sim.regs
    {
      && Ready() && !halted
      && bus.faults == Later(f, 4 + i) && sent == Telemetries(i)
      && seqno == i % 0x1_0000 && sim.Abs().phase == i % 0x1_0000_0000
    }

    /** One more pass of a running node. */
    method Pass(i: nat, ghost f: seq<int>)
      requires Running(f, i)
      modifies Footprint()
      ensures Ready() && text == old(text)
      ensures Fault(f, 4 + i) == 0 ==> Running(f, i + 1)
      ensures Fault(f, 4 + i) != 0 ==> halted && uart == old(uart) + Ascii(READ_FAILED)
    {
      PassStep(i, f);
      Iterate();
    }

    /** The first n passes of the loop after a fresh boot; the first m of them send their frames fs. */
    method Loop(n: nat, ghost f: seq<int>) returns (ghost m: nat, ghost fs: seq<seq<byte>>)
      requires Running(f, 0)
      modifies Footprint()
      ensures Ready() && text == old(text) && FirstFailure(f, n, m) && (halted <==> m < n)
      ensures Framed(fs, Telemetries(m)) && uart == text + Flatten(fs) + if halted then Ascii(READ_FAILED) else []
    {
      m, fs := 0, frames;
      for i := 0 to n
        invariant Ready() && text == old(text) && FirstFailure(f, i, m)
        invariant if halted then m < i && uart == text + Flatten(fs) + Ascii(READ_FAILED) else m == i && Running(f, i)
        invariant Framed(fs, Telemetries(m)) && (!halted ==> fs == frames)
      {
        if halted {
          Iterate();
        } else {
          Pass(i, f);
          if !halted {
            m, fs := i + 1, frames;
          }
        }
      }
      assert text + Flatten(fs) + [] == text + Flatten(fs);
    }

    /** The whole program, stopped after n iterations, on a bus that may fail. */
    method Run(n: nat)
      requires payload.Length == PAYLOAD_MAX && frame.Length == FRAME_MAX && sim.Valid()
      requires uart == [] && seqno == 0 && !halted
      modifies Footprint()
      ensures Ready()
      ensures uart == FaultyOutput(old(bus.faults), n)
      ensures old(bus.faults) == [] ==> !halted && uart == Output(n)
    {
      ghost var f := bus.faults;
      Boot();
      if !halted {
        ghost var m, fs := Loop(n, f);
        OutputIs(f, n, m, fs, halted);
      }
      if f == [] {
        NeverFails(n);
      }
    }
  }

  /** m iterations succeed: every read before the m-th gets through, and that one fails unless m is n. */
  predicate FirstFailure(faults: seq<int>, n: nat, m: nat) {
    && m <= n
    && (forall j :: 4 <= j < 4 + m ==> Fault(faults, j) == 0)
    && (m < n ==> Fault(faults, 4 + m) != 0)
  }

  lemma OutputIs(faults: seq<int>, n: nat, m: nat, fs: seq<seq<byte>>, halted: bool)
    requires InitStatus(faults, DEVID_VALUE) == OK && FirstFailure(faults, n, m)
    requires Framed(fs, Telemetries(m)) && (halted <==> m < n)
    ensures Ascii(BANNER) + Flatten(fs) + (if halted then Ascii(READ_FAILED) else []) == FaultyOutput(faults, n)
  {
    ServedIsFirstFailure(faults, n, m);
    FramedIsFrames(fs, Telemetries(m));
  }

  /** How many of n iterations succeed; init takes the first four transactions. */
  function Served(faults: seq<int>, n: nat): nat {
    if n == 0 then 0
    else
      var s := Served(faults, n - 1);
      if s == n - 1 && Fault(faults, 4 + (n - 1)) == 0 then n else s
  }

  lemma {:induction false} ServedIsFirstFailure(faults: seq<int>, n: nat, m: nat)
    ensures FirstFailure(faults, n, m) <==> m == Served(faults, n)
  {
    if n > 0 {
      ServedIsFirstFailure(faults, n - 1, m);
      ServedIsFirstFailure(faults, n - 1, n - 1);
    }
  }

  lemma NeverFails(n: nat)
    ensures Served([], n) == n && FaultyOutput([], n) == Output(n)
  {
    ServedIsFirstFailure([], n, n);
    InitStatusIff([], DEVID_VALUE);
    assert Output(n) + [] == Output(n);
  }

  /** The serial output of n iterations on a failing bus. */
  function FaultyOutput(faults: seq<int>, n: nat): seq<byte> {
    if InitStatus(faults, DEVID_VALUE) != OK then Ascii(BANNER) + Ascii(INIT_FAILED)
    else Output(Served(faults, n)) + if Served(faults, n) < n then Ascii(READ_FAILED) else []
  }

  /** What pass i adds to the messages, the counters and the faults used up. */
  lemma PassStep(i: nat, f: seq<int>)
    ensures Telemetries(i) + [Reading(i % 0x1_0000_0000, i % 0x1_0000)] == Telemetries(i + 1)
    ensures (i % 0x1_0000 + 1) % 0x1_0000 == (i + 1) % 0x1_0000
    ensures (i % 0x1_0000_0000 + 1) % 0x1_0000_0000 == (i + 1) % 0x1_0000_0000
    ensures Fault(Later(f, 4 + i), 0) == Fault(f, 4 + i)
    ensures Later(Later(f, 4 + i), 1) == Later(f, 4 + (i + 1))
  {
    ReadingIsTelemetry(i);
    NextSeqno(i);
    NextPhaseCount(i);
    LaterFault(f, 4 + i, 0);
    LaterFault(f, 4 + i, 1);
  }

  lemma NextSeqno(i: nat)
    ensures (i % 0x1_0000 + 1) % 0x1_0000 == (i + 1) % 0x1_0000
  {
    WordModulo(i + 1, i / 0x1_0000, i % 0x1_0000 + 1);
  }

  lemma NextPhaseCount(i: nat)
    ensures (i % 0x1_0000_0000 + 1) % 0x1_0000_0000 == (i + 1) % 0x1_0000_0000
  {
    Uint32Modulo(i + 1, i / 0x1_0000_0000, i % 0x1_0000_0000 + 1);
  }

  lemma PhaseModulo(i: nat, p: nat)
    requires p == i % 0x1_0000_0000
    ensures p % 16 == i % 16
  {
    var q := i / 0x1_0000_0000;
    assert i == 16 * (0x1000_0000 * q) + p;
  }

  lemma ReadingIsTelemetry(i: nat)
    ensures Reading(i % 0x1_0000_0000, i % 0x1_0000) == Telemetry(i)
  {
    PhaseModulo(i, i % 0x1_0000_0000);
    ModelPeriod(i % 0x1_0000_0000, i);
  }

  lemma {:induction false} FlattenAppend(frames: seq<seq<byte>>, f: seq<byte>)
    ensures Flatten(frames + [f]) == Flatten(frames) + f
  {
    if frames == [] {
      assert frames + [f] == [f] && [f][1..] == [];
      assert Flatten([f]) == f + [];
    } else {
      assert (frames + [f])[1..] == frames[1..] + [f];
      FlattenAppend(frames[1..], f);
    }
  }

  lemma FramedOne(m: Message, f: seq<byte>)
    requires f == Frame(Pack(m))
    ensures Framed([f], [m])
  {
    assert forall k {:trigger Pack([m][k])} :: 0 <= k < 1 ==> [m][k] == m;
  }

  lemma FramedConcat(fs: seq<seq<byte>>, ms: seq<Message>, gs: seq<seq<byte>>, ns: seq<Message>)
    requires Framed(fs, ms) && Framed(gs, ns)
    ensures Framed(fs + gs, ms + ns)
  {
    forall k | 0 <= k < |ms + ns|
      ensures (fs + gs)[k] == Frame(Pack((ms + ns)[k]))
    {
      if k < |ms| {
        assert Pack((ms + ns)[k]) == Pack(ms[k]);
      } else {
        assert Pack((ms + ns)[k]) == Pack(ns[k - |ms|]);
      }
    }
  }

  lemma FramedIsFrames(frames: seq<seq<byte>>, ms: seq<Message>)
    requires Framed(frames, ms)
    ensures Flatten(frames) == Frames(PackAll(ms))
  {
    forall k | 0 <= k < |ms|
      ensures frames[k] == FrameAll(PackAll(ms))[k]
    {
      assert PackAll(ms)[k] == Pack(ms[k]);
    }
    assert frames == FrameAll(PackAll(ms));
  }

  /** The texts on the line, byte for byte. */
  lemma BannerBytes()
    ensures Ascii(BANNER) ==
      [0x53, 0x68, 0x61, 0x72, 0x61, 0x6B, 0x20, 0x6E, 0x6F, 0x64, 0x65, 0x20, 0x6F, 0x6E, 0x6C, 0x69,
        0x6E, 0x65, 0x0D, 0x0A]
  {}

  lemma AsciiConcat(s: string, t: string)
    ensures Ascii(s + t) == Ascii(s) + Ascii(t)
  {}

  lemma ErrorStart()
    ensures Ascii("ERROR: ADXL345 ") ==
      [0x45, 0x52, 0x52, 0x4F, 0x52, 0x3A, 0x20, 0x41, 0x44, 0x58, 0x4C, 0x33, 0x34, 0x35, 0x20]
  {}

  lemma ErrorEnd()
    ensures Ascii(" failed; halting\r\n") ==
      [0x20, 0x66, 0x61, 0x69, 0x6C, 0x65, 0x64, 0x3B, 0x20, 0x68,
        0x61, 0x6C, 0x74, 0x69, 0x6E, 0x67, 0x0D, 0x0A]
  {}

  lemma ErrorBytes(what: string)
    ensures Ascii(ErrorText(what)) ==
      [0x45, 0x52, 0x52, 0x4F, 0x52, 0x3A, 0x20, 0x41, 0x44, 0x58, 0x4C, 0x33, 0x34, 0x35, 0x20]
      + Ascii(what)
      + [0x20, 0x66, 0x61, 0x69, 0x6C, 0x65, 0x64, 0x3B, 0x20, 0x68,
          0x61, 0x6C, 0x74, 0x69, 0x6E, 0x67, 0x0D, 0x0A]
  {
    ErrorStart();
    ErrorEnd();
    AsciiConcat("ERROR: ADXL345 " + what, " failed; halting\r\n");
    AsciiConcat("ERROR: ADXL345 ", what);
  }

  lemma ErrorWords()
    ensures INIT_FAILED == ErrorText("init") && READ_FAILED == ErrorText("read")
    ensures Ascii("init") == [0x69, 0x6E, 0x69, 0x74] && Ascii("read") == [0x72, 0x65, 0x61, 0x64]
  {}

  lemma BannerNoFlag()
    ensures FLAG !in Ascii(BANNER)
  {
    BannerBytes();
  }

  lemma ErrorsNoFlag()
    ensures FLAG !in Ascii(INIT_FAILED) && FLAG !in Ascii(READ_FAILED)
  {
    ErrorWords();
    ErrorBytes("init");
    ErrorBytes("read");
  }

  /** Text before the first frame is not reported. */
  lemma TextIgnored(text: seq<byte>, rest: seq<byte>, room: nat)
    requires FLAG !in text
    ensures RunEvents(HUNTING, text + rest, room) == RunEvents(HUNTING, rest, room)
  {
    RunOutside(HUNTING, text, room);
    RunConcat(HUNTING, text, rest, room);
  }

  /**
    * End to end, for every run length: a fresh decoder on the node's whole output delivers
    * exactly n payloads in order; the k-th is sequence number k mod 65536 with the scaled
    * vibration sample of phase k.
    */
  lemma EndToEnd(n: nat, room: nat)
    requires room >= PAYLOAD_MAX
    ensures RunEvents(HUNTING, Output(n), room) == Deliveries(PackAll(Telemetries(n)))
    ensures forall k :: 0 <= k < n ==>
      Dispatch(PackAll(Telemetries(n))[k]) == Some(Accel(k % 0x1_0000, Model(k).x, Model(k).y, Model(k).z))
  {
    BannerNoFlag();
    TextIgnored(Ascii(BANNER), Frames(PackAll(Telemetries(n))), room);
    if n > 0 {
      MessagesSurvive(HUNTING, Telemetries(n), room);
    }
  }

  /**
    * The same on a bus that may fail: a decoder delivers nothing if init fails, and otherwise
    * the payloads of the iterations before the first failing read; no error text is reported.
    */
  lemma FaultyEndToEnd(faults: seq<int>, n: nat, room: nat)
    requires room >= PAYLOAD_MAX
    ensures var served := if exists k :: 0 <= k < 4 && FailsAt(faults, 0xE5, k) then 0 else Served(faults, n);
      RunEvents(HUNTING, FaultyOutput(faults, n), room) == Deliveries(PackAll(Telemetries(served)))
  {
    InitStatusIff(faults, DEVID_VALUE);
    BannerNoFlag();
    ErrorsNoFlag();
    if InitStatus(faults, DEVID_VALUE) != OK {
      TextIgnored(Ascii(BANNER), Ascii(INIT_FAILED), room);
      NoFlagNoReport(HUNTING, Ascii(INIT_FAILED), room);
    } else {
      var line, text := Output(Served(faults, n)), if Served(faults, n) < n then Ascii(READ_FAILED) else [];
      EndToEnd(Served(faults, n), room);
      RunConcat(HUNTING, line, text, room);
      NoFlagNoReport(RunState(HUNTING, line), text, room);
    }
  }

  /** A fresh node runs for n iterations. */
  method RunNode(n: nat) returns (line: seq<byte>)
    ensures line == Output(n)
  {
    var node := new SuperLoop();
    node.Run(n);
    line := node.uart;
  }

  /** A fresh decoder is fed every byte of a line. */
  method Receive(line: seq<byte>) returns (events: seq<Event>)
    ensures events == RunEvents(HUNTING, line, PAYLOAD_MAX)
  {
    var decoder := new FrameDecoder();
    var out := new byte[PAYLOAD_MAX];
    events := decoder.FeedAll(line, out, out.Length);
  }

  /** The node and a receiver run one after the other. */
  method NodeToDecoder(n: nat) returns (events: seq<Event>)
    ensures events == Deliveries(PackAll(Telemetries(n)))
  {
    var line := RunNode(n);
    events := Receive(line);
    EndToEnd(n, PAYLOAD_MAX);
  }

  /** The frames that iterations k to n - 1 send. */
  function Remaining(n: nat, k: nat): seq<byte>
    requires k <= n
  {
    Frames(PackAll(Telemetries(n)[k..]))
  }

  lemma {:induction false} FlattenConcat(a: seq<seq<byte>>, b: seq<seq<byte>>)
    ensures Flatten(a + b) == Flatten(a) + Flatten(b)
  {
    if a == [] {
      assert a + b == b;
    } else {
      assert (a + b)[1..] == a[1..] + b;
      FlattenConcat(a[1..], b);
      assert a[0] + (Flatten(a[1..]) + Flatten(b)) == (a[0] + Flatten(a[1..])) + Flatten(b);
    }
  }

  lemma TelemetriesSplit(n: nat, k: nat)
    requires k <= n
    ensures Telemetries(n) == Telemetries(k) + Telemetries(n)[k..]
  {}

  lemma FramesConcat(ms: seq<Message>, ns: seq<Message>)
    ensures Frames(PackAll(ms + ns)) == Frames(PackAll(ms)) + Frames(PackAll(ns))
  {
    assert PackAll(ms + ns) == PackAll(ms) + PackAll(ns);
    assert FrameAll(PackAll(ms + ns)) == FrameAll(PackAll(ms)) + FrameAll(PackAll(ns));
    FlattenConcat(FrameAll(PackAll(ms)), FrameAll(PackAll(ns)));
  }

  /** A run's output is what it had sent after k iterations and what the others send. */
  lemma OutputSplit(n: nat, k: nat)
    requires k <= n
    ensures Output(n) == Output(k) + Remaining(n, k)
  {
    TelemetriesSplit(n, k);
    FramesConcat(Telemetries(k), Telemetries(n)[k..]);
    Regrouped(Ascii(BANNER), Frames(PackAll(Telemetries(k))), Remaining(n, k));
  }

  lemma Regrouped(a: seq<byte>, b: seq<byte>, c: seq<byte>)
    ensures a + (b + c) == a + b + c
  {}

  /** Where a fresh decoder is after k iterations. */
  lemma ListensAt(k: nat, room: nat)
    requires room >= PAYLOAD_MAX
    ensures RunState(HUNTING, Output(k)) == if k == 0 then HUNTING else OPEN
  {
    var ps := PackAll(Telemetries(k));
    BannerNoFlag();
    RunOutside(HUNTING, Ascii(BANNER), room);
    RunConcat(HUNTING, Ascii(BANNER), Frames(ps), room);
    if k > 0 {
      PackAllAdmissible(Telemetries(k));
      FramesDeliver(HUNTING, ps, room);
    }
  }

  /** Noise, then frames or nothing more. */
  lemma NoiseThen(st: State, g: seq<byte>, ps: seq<seq<byte>>, room: nat)
    requires AllAdmissible(ps) && room >= PAYLOAD_MAX
    ensures RunEvents(st, g + Frames(ps), room) ==
      RunEvents(st, if ps == [] then g else g + [FLAG], room) + Deliveries(ps)
  {
    if ps == [] {
      assert g + Frames(ps) == g;
    } else {
      Resynchronises(st, g, ps, room);
    }
  }

  lemma NoiseAfter(line: seq<byte>, es: seq<Event>, st: State, g: seq<byte>, ps: seq<seq<byte>>, room: nat)
    requires RunState(HUNTING, line) == st && RunEvents(HUNTING, line, room) == es
    requires AllAdmissible(ps) && room >= PAYLOAD_MAX
    ensures RunEvents(HUNTING, line + (g + Frames(ps)), room) ==
      es + RunEvents(st, if ps == [] then g else g + [FLAG], room) + Deliveries(ps)
  {
    NoiseThen(st, g, ps, room);
    RunConcat(HUNTING, line, g + Frames(ps), room);
  }

  /**
    * Any bytes inserted at any point between two iterations, before the first or after the
    * last, cost the node none of its messages; the extra reports depend on these bytes, and
    * on whether a frame came before them.
    */
  lemma NoiseBetweenIterations(n: nat, k: nat, g: seq<byte>, room: nat)
    requires k <= n && room >= PAYLOAD_MAX
    ensures Output(n) == Output(k) + Remaining(n, k)
    ensures var st := if k == 0 then HUNTING else OPEN;
      RunEvents(HUNTING, Output(k) + (g + Remaining(n, k)), room) ==
        Deliveries(PackAll(Telemetries(k)))
        + RunEvents(st, if k == n then g else g + [FLAG], room)
        + Deliveries(PackAll(Telemetries(n)[k..]))
  {
    var st := if k == 0 then HUNTING else OPEN;
    OutputSplit(n, k);
    ListensAt(k, room);
    EndToEnd(k, room);
    PackAllAdmissible(Telemetries(n)[k..]);
    NoiseAfter(Output(k), Deliveries(PackAll(Telemetries(k))), st, g, PackAll(Telemetries(n)[k..]), room);
  }

  lemma PackAllAdmissible(ms: seq<Message>)
    ensures AllAdmissible(PackAll(ms))
  {
    forall k | 0 <= k < |ms|
      ensures Admissible(PackAll(ms)[k])
    {
      UnpackPack(ms[k]);
    }
  }
}
