/** Whole byte streams through the decoder, and the batch reading it agrees with. */
module Stream {
  import opened Machine
  import opened CrcErrors
  import opened Framing
  import opened Decoder

  // ----- the batch reading of a stream

  /** The stretches of a stream between its FLAGs; the first precedes every FLAG. */
  function Segments(s: seq<byte>): (segs: seq<seq<byte>>)
    ensures |segs| > 0
  {
    if s == [] then [[]]
    else
      var rest := Segments(s[1..]);
      if s[0] == FLAG then [[]] + rest else [[s[0]] + rest[0]] + rest[1..]
  }

  /** The stretches put back together with a FLAG between neighbours. */
  function Joined(segs: seq<seq<byte>>): seq<byte> {
    if segs == [] then []
    else if |segs| == 1 then segs[0]
    else segs[0] + [FLAG] + Joined(segs[1..])
  }

  /** The verdict on a closed stretch that destuffs to inner. */
  function Classify(inner: seq<byte>, room: nat): Event {
    if |inner| > FRAME_INNER then Rejected(ERR_OFLOW)
    else if |inner| < PAYLOAD_MIN + 2 then Rejected(ERR_LEN)
    else if !Sealed(inner) then Rejected(ERR_CRC)
    else if room < |inner| - 2 then Rejected(ERR_LEN)
    else Delivered(inner[..|inner| - 2])
  }

  /** Empty stretches are skipped. */
  function JudgeSegment(seg: seq<byte>, room: nat): seq<Event> {
    var inner := Destuff(false, seg);
    if inner == [] then [] else [Classify(inner, room)]
  }

  function JudgeAll(segs: seq<seq<byte>>, room: nat): seq<Event> {
    if segs == [] then [] else JudgeSegment(segs[0], room) + JudgeAll(segs[1..], room)
  }

  /** The stretches with a FLAG on both sides. */
  function Closed(s: seq<byte>): seq<seq<byte>> {
    var segs := Segments(s);
    if |segs| < 2 then [] else segs[1..|segs| - 1]
  }

  /** The bytes since the last FLAG. */
  function Unfinished(s: seq<byte>): seq<byte> {
    var segs := Segments(s);
    segs[|segs| - 1]
  }

  /** Every stretch closed by a FLAG on both sides, judged in order. */
  function Batch(s: seq<byte>, room: nat): seq<Event> {
    JudgeAll(Closed(s), room)
  }

  /** Segments cuts a stream at its FLAGs: joining gives it back, and no piece holds a FLAG. */
  lemma {:induction false} SegmentsJoin(s: seq<byte>)
    ensures Joined(Segments(s)) == s
  {
    if s != [] {
      SegmentsJoin(s[1..]);
      var segs, rest := Segments(s), Segments(s[1..]);
      assert s == [s[0]] + s[1..];
      if s[0] == FLAG {
        assert segs[1..] == rest && Joined(segs) == [] + [FLAG] + Joined(rest);
      } else {
        assert segs[1..] == rest[1..];
        JoinedPrefix(s[0], rest, segs);
      }
    }
  }

  lemma JoinedPrefix(b: byte, rest: seq<seq<byte>>, segs: seq<seq<byte>>)
    requires rest != [] && segs == [[b] + rest[0]] + rest[1..]
    ensures Joined(segs) == [b] + Joined(rest)
  {
    assert segs[1..] == rest[1..];
    if |rest| > 1 {
      var tail := Joined(rest[1..]);
      assert ([b] + rest[0]) + [FLAG] + tail == [b] + (rest[0] + [FLAG] + tail);
    }
  }

  lemma {:induction false} SegmentsNoFlag(s: seq<byte>)
    ensures forall k :: 0 <= k < |Segments(s)| ==> FLAG !in Segments(s)[k]
  {
    if s != [] {
      SegmentsNoFlag(s[1..]);
      var segs, rest := Segments(s), Segments(s[1..]);
      forall k | 0 <= k < |segs|
        ensures FLAG !in segs[k]
      {
        if s[0] == FLAG {
          assert k > 0 ==> segs[k] == rest[k - 1];
        } else {
          assert k > 0 ==> segs[k] == rest[k];
        }
      }
    }
  }

  // ----- the decoder's state is a function of the bytes since the last FLAG

  /** st is the decoder inside a frame whose raw bytes so far are raw. */
  predicate Represents(st: State, raw: seq<byte>) {
    var inner := Destuff(false, raw);
    && st.inFrame
    && st.esc == Pending(false, raw)
    && (st.overflow <==> |inner| > FRAME_INNER)
    && st.inner == (if |inner| > FRAME_INNER then inner[..FRAME_INNER] else inner)
  }

  lemma OpenRepresents()
    ensures Represents(OPEN, [])
  {}

  lemma RepresentsStep(st: State, raw: seq<byte>, b: byte)
    requires Represents(st, raw) && b != FLAG
    ensures Represents(After(st, b), raw + [b])
  {
    DestuffConcat(false, raw, [b]);
    assert [b][1..] == [];
    var tail := Destuff(Pending(false, raw), [b]);
    if b == ESC {
      assert tail == Destuff(true, []);
    } else {
      assert tail == [if st.esc then Toggle(b) else b];
    }
  }

  lemma JudgeIsClassify(st: State, raw: seq<byte>, room: nat)
    requires Represents(st, raw)
    ensures Emits(st, FLAG, room) == JudgeSegment(raw, room)
  {}

  // ----- runs

  lemma {:induction false} RunConcat(st: State, a: seq<byte>, b: seq<byte>, room: nat)
    ensures RunState(st, a + b) == RunState(RunState(st, a), b)
    ensures RunEvents(st, a + b, room) == RunEvents(st, a, room) + RunEvents(RunState(st, a), b, room)
    decreases a
  {
    if a == [] {
      assert a + b == b;
    } else {
      assert (a + b)[1..] == a[1..] + b;
      RunConcat(After(st, a[0]), a[1..], b, room);
    }
  }

  lemma RunOne(st: State, b: byte, room: nat)
    ensures RunState(st, [b]) == After(st, b)
    ensures RunEvents(st, [b], room) == Emits(st, b, room)
  {
    assert [b][1..] == [];
    assert RunEvents(st, [b], room) == Emits(st, b, room) + [];
  }

  /** Inside a frame, FLAG-free bytes are only collected. */
  lemma {:induction false} RunInside(st: State, raw: seq<byte>, w: seq<byte>)
    requires Represents(st, raw) && FLAG !in w
    ensures Represents(RunState(st, w), raw + w)
    decreases w
  {
    if w == [] {
      assert raw + w == raw;
    } else {
      var longer := raw + [w[0]];
      assert longer + w[1..] == raw + w;
      RepresentsStep(st, raw, w[0]);
      RunInside(After(st, w[0]), longer, w[1..]);
    }
  }

  lemma {:induction false} NoFlagNoReport(st: State, w: seq<byte>, room: nat)
    requires FLAG !in w
    ensures RunEvents(st, w, room) == []
    decreases w
  {
    if w != [] {
      NoFlagNoReport(After(st, w[0]), w[1..], room);
    }
  }

  /** Outside a frame, FLAG-free bytes are ignored. */
  lemma {:induction false} RunOutside(st: State, w: seq<byte>, room: nat)
    requires !st.inFrame && FLAG !in w
    ensures RunState(st, w) == st && RunEvents(st, w, room) == []
    decreases w
  {
    NoFlagNoReport(st, w, room);
    if w != [] {
      RunOutside(st, w[1..], room);
    }
  }

  /** A stretch of wire between two FLAGs gets exactly its batch verdict. */
  lemma RunSegment(w: seq<byte>, room: nat)
    requires FLAG !in w
    ensures RunState(OPEN, w + [FLAG]) == OPEN
    ensures RunEvents(OPEN, w + [FLAG], room) == JudgeSegment(w, room)
  {
    OpenRepresents();
    RunInside(OPEN, [], w);
    NoFlagNoReport(OPEN, w, room);
    assert [] + w == w;
    RunConcat(OPEN, w, [FLAG], room);
    RunOne(RunState(OPEN, w), FLAG, room);
    JudgeIsClassify(RunState(OPEN, w), w, room);
  }

  // ----- the decoder refines the batch reading

  /** The stretches of a stream whose first one began with the bytes raw. */
  function Resume(raw: seq<byte>, segs: seq<seq<byte>>): (r: seq<seq<byte>>)
    requires segs != []
    ensures |r| == |segs|
  {
    [raw + segs[0]] + segs[1..]
  }

  lemma ResumeNothing(segs: seq<seq<byte>>)
    requires segs != []
    ensures Resume([], segs) == segs
  {
    assert [] + segs[0] == segs[0];
  }

  lemma ResumeAtFlag(raw: seq<byte>, s: seq<byte>)
    requires s != [] && s[0] == FLAG
    ensures Resume(raw, Segments(s)) == [raw] + Segments(s[1..])
  {
    assert raw + [] == raw;
    assert Segments(s)[0] == [] && Segments(s)[1..] == Segments(s[1..]);
  }

  lemma ResumePastByte(raw: seq<byte>, s: seq<byte>)
    requires s != [] && s[0] != FLAG
    ensures Resume(raw, Segments(s)) == Resume(raw + [s[0]], Segments(s[1..]))
  {
    var segs, rest := Segments(s), Segments(s[1..]);
    assert segs[0] == [s[0]] + rest[0] && segs[1..] == rest[1..];
    assert raw + segs[0] == raw + [s[0]] + rest[0];
  }

  /** From st, whose raw bytes so far are raw, s reports its batch reading. */
  predicate Follows(st: State, raw: seq<byte>, s: seq<byte>, room: nat) {
    var all := Resume(raw, Segments(s));
    && RunEvents(st, s, room) == JudgeAll(all[..|all| - 1], room)
    && Represents(RunState(st, s), all[|all| - 1])
  }

  lemma FollowsAtEnd(st: State, raw: seq<byte>, room: nat)
    requires Represents(st, raw)
    ensures Follows(st, raw, [], room)
  {
    assert raw + [] == raw;
  }

  lemma FollowsAtFlag(st: State, raw: seq<byte>, s: seq<byte>, room: nat)
    requires Represents(st, raw) && s != [] && s[0] == FLAG
    requires Follows(OPEN, [], s[1..], room)
    ensures Follows(st, raw, s, room)
  {
    var all, rest := Resume(raw, Segments(s)), Segments(s[1..]);
    ResumeNothing(rest);
    ResumeAtFlag(raw, s);
    JudgeIsClassify(st, raw, room);
    assert all[..|all| - 1] == [raw] + rest[..|rest| - 1];
    assert all[..|all| - 1][1..] == rest[..|rest| - 1];
  }

  lemma FollowsPastByte(st: State, raw: seq<byte>, s: seq<byte>, room: nat)
    requires s != [] && s[0] != FLAG
    requires Follows(After(st, s[0]), raw + [s[0]], s[1..], room)
    ensures Follows(st, raw, s, room)
  {
    ResumePastByte(raw, s);
    assert Emits(st, s[0], room) == [];
  }

  lemma {:induction false} InsideRefines(st: State, raw: seq<byte>, s: seq<byte>, room: nat)
    requires Represents(st, raw)
    ensures Follows(st, raw, s, room)
    decreases s
  {
    if s == [] {
      FollowsAtEnd(st, raw, room);
    } else if s[0] == FLAG {
      OpenRepresents();
      InsideRefines(OPEN, [], s[1..], room);
      FollowsAtFlag(st, raw, s, room);
    } else {
      RepresentsStep(st, raw, s[0]);
      InsideRefines(After(st, s[0]), raw + [s[0]], s[1..], room);
      FollowsPastByte(st, raw, s, room);
    }
  }

  lemma ClosedFromFlag(s: seq<byte>)
    requires s != [] && s[0] == FLAG
    ensures Closed(s) == Segments(s[1..])[..|Segments(s[1..])| - 1]
    ensures Unfinished(s) == Unfinished(s[1..])
  {
    assert Segments(s) == [[]] + Segments(s[1..]);
  }

  lemma SameTails(a: seq<seq<byte>>, b: seq<seq<byte>>)
    requires |a| >= 2 && |b| >= 2 && a[1..] == b[1..]
    ensures a[1..|a| - 1] == b[1..|b| - 1] && a[|a| - 1] == b[|b| - 1]
  {
    assert |a| == |a[1..]| + 1 && |b| == |b[1..]| + 1;
    assert a[1..|a| - 1] == a[1..][..|a| - 2] && b[1..|b| - 1] == b[1..][..|b| - 2];
    assert a[|a| - 1] == a[1..][|a| - 2];
  }

  lemma ClosedPastByte(s: seq<byte>)
    requires s != [] && s[0] != FLAG
    ensures Closed(s) == Closed(s[1..])
    ensures |Segments(s)| == |Segments(s[1..])|
    ensures |Segments(s)| >= 2 ==> Unfinished(s) == Unfinished(s[1..])
  {
    var segs, rest := Segments(s), Segments(s[1..]);
    assert segs == [[s[0]] + rest[0]] + rest[1..];
    if |segs| >= 2 {
      SameTails(segs, rest);
    }
  }

  lemma FromFirstFlag(st: State, s: seq<byte>, room: nat)
    requires !st.inFrame && s != [] && s[0] == FLAG
    ensures RunEvents(st, s, room) == Batch(s, room)
    ensures Represents(RunState(st, s), Unfinished(s))
  {
    OpenRepresents();
    InsideRefines(OPEN, [], s[1..], room);
    ResumeNothing(Segments(s[1..]));
    ClosedFromFlag(s);
    assert Emits(st, FLAG, room) == [];
  }

  /**
    * For every stream, and every output capacity, what a fresh decoder reports byte by
    * byte is the batch reading, and its state is the raw bytes since the last FLAG.
    */
  lemma {:induction false} DecoderRefinesBatch(st: State, s: seq<byte>, room: nat)
    requires !st.inFrame
    ensures RunEvents(st, s, room) == Batch(s, room)
    ensures if FLAG in s then Represents(RunState(st, s), Unfinished(s)) else RunState(st, s) == st
    decreases s
  {
    if s == [] {
    } else if s[0] == FLAG {
      FromFirstFlag(st, s, room);
    } else {
      ClosedPastByte(s);
      FlagSplits(s);
      FlagSplits(s[1..]);
      DecoderRefinesBatch(st, s[1..], room);
    }
  }

  lemma {:induction false} FlagSplits(s: seq<byte>)
    ensures FLAG in s <==> |Segments(s)| >= 2
  {
    if s != [] {
      FlagSplits(s[1..]);
      assert s == [s[0]] + s[1..];
    }
  }

  /** The reports over a stream that arrives in pieces. */
  function RunChunks(st: State, chunks: seq<seq<byte>>, room: nat): seq<Event>
    decreases chunks
  {
    if chunks == [] then []
    else RunEvents(st, chunks[0], room) + RunChunks(RunState(st, chunks[0]), chunks[1..], room)
  }

  function Flatten(chunks: seq<seq<byte>>): seq<byte> {
    if chunks == [] then [] else chunks[0] + Flatten(chunks[1..])
  }

  lemma {:induction false} ChunksAreOneRun(st: State, chunks: seq<seq<byte>>, room: nat)
    ensures RunChunks(st, chunks, room) == RunEvents(st, Flatten(chunks), room)
    decreases chunks
  {
    if chunks != [] {
      ChunksAreOneRun(RunState(st, chunks[0]), chunks[1..], room);
      RunConcat(st, chunks[0], Flatten(chunks[1..]), room);
    }
  }

  /** However a stream is cut into pieces, a fresh decoder reports its batch reading. */
  lemma Chunking(chunks: seq<seq<byte>>, room: nat)
    ensures RunChunks(HUNTING, chunks, room) == Batch(Flatten(chunks), room)
  {
    ChunksAreOneRun(HUNTING, chunks, room);
    DecoderRefinesBatch(HUNTING, Flatten(chunks), room);
  }
}
