/** The fleet simulator: a second producer that feeds the same encoder. */
module Fleet {
  import opened Machine
  import opened Framing
  import opened FrameEncoder
  import opened Decoder
  import opened Delivery
  import opened Payload

  const WOBBLE8: seq<int32> := [0, 5, 8, 5, 0, -5, -8, -5]

  /** fleet_sample: the message of one phase, with its 32-bit addition. */
  function FleetSample(phase: uint32): Message {
    Accel(phase % 0x1_0000, WOBBLE8[phase % 8], WOBBLE8[(phase + 2) % 0x1_0000_0000 % 8], 1000)
  }

  /** fleet_build_frame: pack into a local buffer, then encode; errors are handed on. */
  method BuildFrame(seqno: word, x: int32, y: int32, z: int32, out: array?<byte>, cap: nat) returns (n: int)
    requires out != null ==> cap <= out.Length
    modifies out
    ensures out == null ==> n == -1
    ensures out != null ==>
      var p := Pack(Accel(seqno, x, y, z));
      if |Frame(p)| <= cap then n == |Frame(p)| <= FRAME_MAX && out[..] == Frame(p) + old(out[..])[n..]
      else n == -1 && Truncated(old(out[..]), out[..], p, cap)
  {
    var payload := new byte[PAYLOAD_MAX];
    var plen := PayloadPack(payload, payload.Length, seqno, x, y, z);
    if plen < 0 {
      return plen;
    }
    assert payload[..plen] == Pack(Accel(seqno, x, y, z));
    FrameLength(Pack(Accel(seqno, x, y, z)));
    n := FrameEncode(payload, plen, out, cap);
  }

  /** The messages of n phases from a start phase on, as the server's loop counts them. */
  function FleetMessages(start: uint32, n: nat): (ms: seq<Message>)
    ensures |ms| == n
    ensures forall k :: 0 <= k < n ==> ms[k] == FleetSample((start + k) % 0x1_0000_0000)
  {
    seq(n, k requires 0 <= k => FleetSample((start + k) % 0x1_0000_0000))
  }

  /** Reading p of an unbounded count: no 32-bit arithmetic, only the two periods. */
  function Reading(p: nat): Message {
    Accel(p % 0x1_0000, WOBBLE8[p % 8], WOBBLE8[(p + 2) % 8], 1000)
  }

  /** The wave and the other fields, for every count: eight phases p to p + 7 of any period. */
  lemma ReadingShape(q: nat)
    ensures var p := 8 * q;
      && Reading(p).x == 0 && Reading(p + 1).x == 5 && Reading(p + 2).x == 8 && Reading(p + 3).x == 5
      && Reading(p + 4).x == 0 && Reading(p + 5).x == -5 && Reading(p + 6).x == -8 && Reading(p + 7).x == -5
  {
    Eighths(8 * q, q, 0);
    Eighths(8 * q + 1, q, 1);
    Eighths(8 * q + 2, q, 2);
    Eighths(8 * q + 3, q, 3);
    Eighths(8 * q + 4, q, 4);
    Eighths(8 * q + 5, q, 5);
    Eighths(8 * q + 6, q, 6);
    Eighths(8 * q + 7, q, 7);
  }

  lemma Eighths(p: nat, q: nat, r: nat)
    requires p == 8 * q + r && r < 8
    ensures p % 8 == r
  {}

  /** Y runs a quarter period ahead of X, Z rests at 1000, and the count wraps at 65536. */
  lemma ReadingFields(p: nat)
    ensures Reading(p).y == Reading(p + 2).x && Reading(p).z == 1000 && Reading(p).seqno == p % 0x1_0000
  {}

  lemma WrappedSample(p: nat)
    ensures FleetSample(p % 0x1_0000_0000) == Reading(p)
  {
    var q := p % 0x1_0000_0000;
    WrappedModulo(p, q);
    WrappedModulo(q + 2, (q + 2) % 0x1_0000_0000);
    TwoLater(p, q);
  }

  lemma TwoLater(p: nat, q: nat)
    requires q % 8 == p % 8
    ensures (q + 2) % 8 == (p + 2) % 8
  {}

  lemma WrappedModulo(p: nat, q: nat)
    requires q == p % 0x1_0000_0000
    ensures q % 0x1_0000 == p % 0x1_0000 && q % 8 == p % 8
  {
    var t, a, b := p / 0x1_0000_0000, q / 0x1_0000, q / 8;
    SameRemainder16(p, 0x1_0000 * t + a, q % 0x1_0000);
    SameRemainder8(p, 0x2000_0000 * t + b, q % 8);
  }

  lemma SameRemainder16(p: nat, k: nat, r: nat)
    requires p == 0x1_0000 * k + r && r < 0x1_0000
    ensures p % 0x1_0000 == r
  {}

  lemma SameRemainder8(p: nat, k: nat, r: nat)
    requires p == 8 * k + r && r < 8
    ensures p % 8 == r
  {}

  /**
    * A client that connects at any phase, in any decoder state, receives every reading in
    * order, through every wrap of the sequence number and of the phase.
    */
  lemma FleetDelivers(st: State, start: uint32, n: nat, room: nat)
    requires n > 0 && room >= PAYLOAD_MAX
    ensures RunEvents(st, Frames(PackAll(FleetMessages(start, n))), room) ==
      Emits(st, FLAG, room) + Deliveries(PackAll(FleetMessages(start, n)))
    ensures forall k :: 0 <= k < n ==> Dispatch(PackAll(FleetMessages(start, n))[k]) == Some(Reading(start + k))
  {
    MessagesAreReadings(start, n);
    MessagesSurvive(st, FleetMessages(start, n), room);
  }

  lemma MessagesAreReadings(start: uint32, n: nat)
    ensures forall k :: 0 <= k < n ==> FleetMessages(start, n)[k] == Reading(start + k)
  {
    forall k | 0 <= k < n
      ensures FleetMessages(start, n)[k] == Reading(start + k)
    {
      WrappedSample(start + k);
    }
  }
}
