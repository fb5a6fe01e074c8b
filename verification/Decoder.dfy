/**
  * The incremental frame decoder: its abstract state, what one byte does to it, and the
  * C struct with sk_decoder_init, decoder_finish and sk_decoder_feed.
  */
module Decoder {
  import opened Machine
  import opened Crc16
  import opened CrcErrors
  import opened Framing
  import opened FrameEncoder

  const DEC_MORE := 0
  const ERR_LEN := -1
  const ERR_CRC := -2
  const ERR_OFLOW := -3

  /** What the decoder reports at a closing FLAG. */
  datatype Event = Delivered(payload: seq<byte>) | Rejected(code: int)

  /** The decoder between two bytes; inner holds the destuffed bytes collected so far. */
  datatype State = State(inFrame: bool, esc: bool, overflow: bool, inner: seq<byte>) {
    predicate Valid() {
      |inner| <= FRAME_INNER
    }
  }

  const HUNTING := State(false, false, false, [])
  const OPEN := State(true, false, false, [])

  /** The verdict on a closed frame; room is the capacity of the output buffer. */
  function Judge(st: State, room: nat): Event {
    if st.overflow || |st.inner| > FRAME_INNER then Rejected(ERR_OFLOW)
    else if |st.inner| < PAYLOAD_MIN + 2 then Rejected(ERR_LEN)
    else if !Sealed(st.inner) then Rejected(ERR_CRC)
    else if room < |st.inner| - 2 then Rejected(ERR_LEN)
    else Delivered(st.inner[..|st.inner| - 2])
  }

  function After(st: State, b: byte): State {
    if b == FLAG then OPEN
    else if !st.inFrame then st
    else if b == ESC then st.(esc := true)
    else if |st.inner| < FRAME_INNER then
      st.(esc := false, inner := st.inner + [if st.esc then Toggle(b) else b])
    else st.(esc := false, overflow := true)
  }

  /** The events of one byte: none, or the verdict on the frame it closes. */
  function Emits(st: State, b: byte, room: nat): seq<Event> {
    if b == FLAG && st.inFrame && |st.inner| > 0 then [Judge(st, room)] else []
  }

  /** The state after a whole stretch of bytes. */
  function RunState(st: State, s: seq<byte>): State
    decreases s
  {
    if s == [] then st else RunState(After(st, s[0]), s[1..])
  }

  /** Everything reported over a whole stretch of bytes, in order. */
  function RunEvents(st: State, s: seq<byte>, room: nat): seq<Event>
    decreases s
  {
    if s == [] then [] else Emits(st, s[0], room) + RunEvents(After(st, s[0]), s[1..], room)
  }

  /** The C return value for the events of one byte. */
  function Code(events: seq<Event>): int {
    if events == [] then DEC_MORE
    else match events[0]
      case Delivered(p) => |p|
      case Rejected(code) => code
  }

  /** A NULL output buffer has no room. */
  function Room(out: array?<byte>, cap: nat): nat {
    if out == null then 0 else cap
  }

  /** The output buffer after an event: overwritten from its start by a delivered payload. */
  function Written(before: seq<byte>, events: seq<Event>): seq<byte> {
    if events != [] && events[0].Delivered? && |events[0].payload| <= |before|
    then events[0].payload + before[|events[0].payload|..]
    else before
  }

  class FrameDecoder {
    var inFrame: bool
    var esc: bool
    var overflow: bool
    var count: nat
    const buf: array<byte>

    ghost predicate Valid()
      reads this
    {
      buf.Length == FRAME_INNER && count <= FRAME_INNER
    }

    function Abs(): State
      requires Valid()
      reads this, buf
    {
      State(inFrame, esc, overflow, buf[..count])
    }

    constructor ()
      ensures Valid() && fresh(buf) && Abs() == HUNTING
    {
      buf := new byte[FRAME_INNER];
      inFrame, esc, overflow, count := false, false, false, 0;
    }

    /** Reset to the hunting state, whatever the state was. */
    method Init()
      requires buf.Length == FRAME_INNER
      modifies this
      ensures Valid() && Abs() == HUNTING
    {
      inFrame := false;
      esc := false;
      overflow := false;
      count := 0;
    }

    /** Compare the CRC of the collected payload with the two bytes that follow it. */
    method CheckCrc() returns (ok: bool)
      requires Valid() && count >= 2
      ensures ok == Sealed(Abs().inner)
    {
      var payloadLen := count - 2;
      var crc := Crc16CcittFalse(buf, payloadLen);
      var recv := Join(buf[payloadLen], buf[payloadLen + 1]);
      assert buf[..count][..payloadLen] == buf[..payloadLen];
      ok := crc == recv;
    }

    /** Copy the first n collected bytes out. */
    method CopyOut(out: array<byte>, n: nat)
      requires Valid() && n <= count && n <= out.Length
      modifies out
      ensures out[..] == old(buf[..n]) + old(out[..])[n..] && buf[..count] == old(buf[..count])
    {
      for i := 0 to n
        invariant forall k :: 0 <= k < out.Length ==> out[k] == if k < i then old(buf[k]) else old(out[k])
        invariant buf[..] == old(buf[..])
      {
        out[i] := buf[i];
      }
    }

    /** Judge the frame just closed and, if it is good, copy its payload out. */
    method Finish(out: array?<byte>, cap: nat) returns (r: int)
      requires Valid() && (out != null ==> cap <= out.Length)
      modifies out
      ensures Valid() && Abs() == old(Abs())
      ensures var events := [Judge(Abs(), Room(out, cap))];
        r == Code(events) && Contents(out) == Written(old(Contents(out)), events)
    {
      if overflow || count > FRAME_INNER {
        return ERR_OFLOW;
      }
      if count < PAYLOAD_MIN + 2 {
        return ERR_LEN;
      }
      var payloadLen := count - 2;
      var ok := CheckCrc();
      if !ok {
        return ERR_CRC;
      }
      if out == null || cap < payloadLen {
        return ERR_LEN;
      }
      assert buf[..payloadLen] == Abs().inner[..payloadLen];
      CopyOut(out, payloadLen);
      r := payloadLen;
    }

    /** Take one byte; only a caller that hands over the decoder's own buffer sees it collect. */
    method Feed(b: byte, out: array?<byte>, cap: nat) returns (r: int)
      requires Valid() && (out != null ==> cap <= out.Length)
      modifies this, buf, out
      ensures Valid() && Abs() == After(old(Abs()), b)
      ensures r == Code(Emits(old(Abs()), b, Room(out, cap)))
      ensures out != buf || b == FLAG ==>
        Contents(out) == Written(old(Contents(out)), Emits(old(Abs()), b, Room(out, cap)))
      ensures out != buf || b == FLAG ==>
        if r <= 0 then Contents(out) == old(Contents(out))
        else
          && r <= |Contents(out)| && Contents(out)[r..] == old(Contents(out))[r..]
          && Emits(old(Abs()), b, Room(out, cap)) == [Delivered(Contents(out)[..r])]
      ensures b != FLAG ==> buf[count..] == old(buf[..])[count..]
    {
      r := DEC_MORE;
      if b == FLAG {
        if inFrame && count > 0 {
          r := Finish(out, cap);
        }
        inFrame := true;
        esc := false;
        overflow := false;
        count := 0;
        return;
      }
      if !inFrame {
        return;
      }
      if b == ESC {
        esc := true;
        return;
      }
      var c := b;
      if esc {
        c := Toggle(b);
        esc := false;
      }
      if count < FRAME_INNER {
        buf[count] := c;
        count := count + 1;
        assert buf[..count] == old(buf[..count]) + [c];
      } else {
        overflow := true;
      }
    }

    /** Feed one byte and note the result, as a receiver does that reads out afterwards. */
    method Observe(b: byte, out: array<byte>, cap: nat) returns (events: seq<Event>)
      requires Valid() && cap <= out.Length
      modifies this, buf, out
      ensures Valid() && Abs() == After(old(Abs()), b)
      ensures events == Emits(old(Abs()), b, cap)
    {
      VerdictRange(Abs(), cap);
      ghost var expected := Emits(Abs(), b, cap);
      var r := Feed(b, out, cap);
      if r > 0 {
        events := [Delivered(out[..r])];
      } else if r < 0 {
        events := [Rejected(r)];
      } else {
        events := [];
      }
    }

    /** Feed a whole buffer, noting every reported result. */
    method FeedAll(data: seq<byte>, out: array<byte>, cap: nat) returns (events: seq<Event>)
      requires Valid() && cap <= out.Length
      modifies this, buf, out
      ensures Valid() && Abs() == RunState(old(Abs()), data)
      ensures events == RunEvents(old(Abs()), data, cap)
    {
      events := [];
      ghost var st := Abs();
      assert data[0..] == data;
      for i := 0 to |data|
        invariant Valid()
        invariant RunState(Abs(), data[i..]) == RunState(st, data)
        invariant events + RunEvents(Abs(), data[i..], cap) == RunEvents(st, data, cap)
      {
        assert data[i..][1..] == data[i + 1..];
        ghost var rest := RunEvents(After(Abs(), data[i]), data[i + 1..], cap);
        var emitted := Observe(data[i], out, cap);
        assert events + (emitted + rest) == (events + emitted) + rest;
        events := events + emitted;
      }
    }
  }

  /** Deliveries have an admissible length that fits the room; rejections are negative. */
  lemma VerdictRange(st: State, room: nat)
    requires st.Valid()
    ensures match Judge(st, room)
      case Delivered(p) => PAYLOAD_MIN <= |p| <= PAYLOAD_MAX && |p| <= room && Seal(p) == st.inner
      case Rejected(code) => code in {ERR_LEN, ERR_CRC, ERR_OFLOW}
  {
    if Judge(st, room).Delivered? {
      SealedIsSeal(st.inner);
    }
  }
}
