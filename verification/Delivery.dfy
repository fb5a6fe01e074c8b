/**
  * What a stream of frames delivers: round trips, resynchronisation around garbage,
  * provenance and conservation, and the fate of a damaged frame.
  */
module Delivery {
  import opened Machine
  import opened Crc16
  import opened CrcErrors
  import opened Framing
  import opened Decoder
  import opened Stream

  /** A payload that the encoder accepts. */
  predicate Admissible(p: seq<byte>) {
    PAYLOAD_MIN <= |p| <= PAYLOAD_MAX
  }

  predicate AllAdmissible(ps: seq<seq<byte>>) {
    forall p :: p in ps ==> Admissible(p)
  }

  /** The frames of a list of payloads. */
  function FrameAll(ps: seq<seq<byte>>): (fs: seq<seq<byte>>)
    ensures |fs| == |ps|
  {
    seq(|ps|, k requires 0 <= k < |ps| => Frame(ps[k]))
  }

  /** The frames of a list of payloads, one after the other. */
  function Frames(ps: seq<seq<byte>>): seq<byte> {
    Flatten(FrameAll(ps))
  }

  /** A payload's frame without its opening FLAG. */
  function Body(p: seq<byte>): seq<byte> {
    Stuff(Seal(p)) + [FLAG]
  }

  function Fill(n: nat): seq<byte> {
    seq(n, i => FLAG)
  }

  /** The bodies of a list of payloads, each after some number of further FLAGs. */
  function BodyAll(ps: seq<seq<byte>>, fill: seq<nat>): (bs: seq<seq<byte>>)
    requires |fill| == |ps|
    ensures |bs| == |ps|
  {
    seq(|ps|, k requires 0 <= k < |ps| => Fill(fill[k]) + Body(ps[k]))
  }

  /**
    * The frames of a list of payloads with fill[k] + 1 FLAGs before the k-th: no fill means
    * that neighbours share one FLAG, and a fill of one that each has its own two.
    */
  function FilledFrames(ps: seq<seq<byte>>, fill: seq<nat>): seq<byte>
    requires |fill| == |ps|
  {
    [FLAG] + Flatten(BodyAll(ps, fill))
  }

  function Deliveries(ps: seq<seq<byte>>): (es: seq<Event>)
    ensures |es| == |ps|
    ensures forall k :: 0 <= k < |ps| ==> es[k] == Delivered(ps[k])
  {
    seq(|ps|, k requires 0 <= k < |ps| => Delivered(ps[k]))
  }

  // ----- round trips

  lemma ClassifySeal(p: seq<byte>, room: nat)
    requires Admissible(p) && room >= PAYLOAD_MAX
    ensures Classify(Seal(p), room) == Delivered(p)
  {
    SealIsSealed(p);
    assert Seal(p)[..|p|] == p;
  }

  /** After a FLAG, stuffed inner bytes and a closing FLAG deliver the payload. */
  lemma BodyDelivers(p: seq<byte>, room: nat)
    requires Admissible(p) && room >= PAYLOAD_MAX
    ensures RunState(OPEN, Body(p)) == OPEN
    ensures RunEvents(OPEN, Body(p), room) == [Delivered(p)]
  {
    StuffNoFlag(Seal(p));
    DestuffStuff(Seal(p));
    RunSegment(Stuff(Seal(p)), room);
    ClassifySeal(p, room);
  }

  lemma RunFlag(st: State, rest: seq<byte>, room: nat)
    ensures RunState(st, [FLAG] + rest) == RunState(OPEN, rest)
    ensures RunEvents(st, [FLAG] + rest, room) == Emits(st, FLAG, room) + RunEvents(OPEN, rest, room)
  {
    assert ([FLAG] + rest)[1..] == rest;
  }

  /** From any state, a frame delivers its payload after whatever its first FLAG closes. */
  lemma FrameDelivers(st: State, p: seq<byte>, room: nat)
    requires Admissible(p) && room >= PAYLOAD_MAX
    ensures RunState(st, Frame(p)) == OPEN
    ensures RunEvents(st, Frame(p), room) == Emits(st, FLAG, room) + [Delivered(p)]
  {
    assert Frame(p) == [FLAG] + Body(p);
    RunFlag(st, Body(p), room);
    BodyDelivers(p, room);
  }

  /** From a state that a FLAG has just opened, w reports exactly e and ends there again. */
  ghost predicate Announces(w: seq<byte>, e: Event, room: nat) {
    RunState(OPEN, w) == OPEN && RunEvents(OPEN, w, room) == [e]
  }

  lemma {:induction false} ListAnnounces(ws: seq<seq<byte>>, es: seq<Event>, room: nat)
    requires |ws| == |es| && forall k :: 0 <= k < |ws| ==> Announces(ws[k], es[k], room)
    ensures RunState(OPEN, Flatten(ws)) == OPEN
    ensures RunEvents(OPEN, Flatten(ws), room) == es
    decreases |ws|
  {
    if ws != [] {
      assert Announces(ws[0], es[0], room);
      assert forall k :: 0 <= k < |ws| - 1 ==> Announces(ws[1..][k], es[1..][k], room) by {
        assert forall k :: 0 <= k < |ws| - 1 ==> ws[1..][k] == ws[k + 1] && es[1..][k] == es[k + 1];
      }
      ListAnnounces(ws[1..], es[1..], room);
      RunConcat(OPEN, ws[0], Flatten(ws[1..]), room);
      assert es == [es[0]] + es[1..];
    }
  }

  lemma {:induction false} FillIsQuiet(n: nat, room: nat)
    ensures RunState(OPEN, Fill(n)) == OPEN && RunEvents(OPEN, Fill(n), room) == []
  {
    if n > 0 {
      assert Fill(n)[1..] == Fill(n - 1);
      FillIsQuiet(n - 1, room);
    }
  }

  lemma FilledAnnounces(n: nat, p: seq<byte>, room: nat)
    requires Admissible(p) && room >= PAYLOAD_MAX
    ensures Announces(Fill(n) + Body(p), Delivered(p), room)
  {
    FillIsQuiet(n, room);
    BodyDelivers(p, room);
    RunConcat(OPEN, Fill(n), Body(p), room);
  }

  lemma FilledAnnounce(ps: seq<seq<byte>>, fill: seq<nat>, room: nat)
    requires |fill| == |ps| && AllAdmissible(ps) && room >= PAYLOAD_MAX
    ensures RunState(OPEN, Flatten(BodyAll(ps, fill))) == OPEN
    ensures RunEvents(OPEN, Flatten(BodyAll(ps, fill)), room) == Deliveries(ps)
  {
    forall k | 0 <= k < |ps|
      ensures Announces(BodyAll(ps, fill)[k], Deliveries(ps)[k], room)
    {
      assert Admissible(ps[k]);
      FilledAnnounces(fill[k], ps[k], room);
    }
    ListAnnounces(BodyAll(ps, fill), Deliveries(ps), room);
  }

  lemma FramesAnnounce(ps: seq<seq<byte>>, room: nat)
    requires AllAdmissible(ps) && room >= PAYLOAD_MAX
    ensures RunState(OPEN, Frames(ps)) == OPEN && RunEvents(OPEN, Frames(ps), room) == Deliveries(ps)
  {
    forall k | 0 <= k < |ps|
      ensures Announces(FrameAll(ps)[k], Deliveries(ps)[k], room)
    {
      assert Admissible(ps[k]);
      FrameDelivers(OPEN, ps[k], room);
      assert Emits(OPEN, FLAG, room) == [];
    }
    ListAnnounces(FrameAll(ps), Deliveries(ps), room);
  }

  lemma FramesOpen(ps: seq<seq<byte>>)
    requires ps != []
    ensures Frames(ps) == [FLAG] + Frames(ps)[1..]
  {
    assert FrameAll(ps)[0] == Frame(ps[0]);
    assert Frames(ps)[0] == FLAG;
  }

  lemma OpeningFlag(st: State, w: seq<byte>, room: nat)
    requires w != [] && w[0] == FLAG
    ensures RunState(st, w) == RunState(OPEN, w)
    ensures RunEvents(st, w, room) == Emits(st, FLAG, room) + RunEvents(OPEN, w, room)
  {
    assert Emits(OPEN, FLAG, room) == [];
    assert w == [FLAG] + w[1..];
  }

  /** From any state, a list of frames delivers exactly that list of payloads. */
  lemma FramesDeliver(st: State, ps: seq<seq<byte>>, room: nat)
    requires ps != [] && AllAdmissible(ps) && room >= PAYLOAD_MAX
    ensures RunState(st, Frames(ps)) == OPEN
    ensures RunEvents(st, Frames(ps), room) == Emits(st, FLAG, room) + Deliveries(ps)
  {
    FramesAnnounce(ps, room);
    FramesOpen(ps);
    OpeningFlag(st, Frames(ps), room);
  }

  /** However many FLAGs, at least one, stand between neighbours, the same is delivered. */
  lemma SharedFlags(st: State, ps: seq<seq<byte>>, fill: seq<nat>, room: nat)
    requires ps != [] && |fill| == |ps| && AllAdmissible(ps) && room >= PAYLOAD_MAX
    ensures RunEvents(st, FilledFrames(ps, fill), room) == RunEvents(st, Frames(ps), room)
    ensures RunState(st, FilledFrames(ps, fill)) == RunState(st, Frames(ps))
  {
    RunFlag(st, Flatten(BodyAll(ps, fill)), room);
    FilledAnnounce(ps, fill, room);
    FramesDeliver(st, ps, room);
  }

  // ----- garbage

  /** What follows any bytes g with a FLAG reports as it would after that FLAG. */
  lemma AfterGarbage(st: State, g: seq<byte>, w: seq<byte>, room: nat)
    requires w != [] && w[0] == FLAG
    ensures RunEvents(st, g + w, room) == RunEvents(st, g + [FLAG], room) + RunEvents(OPEN, w, room)
  {
    RunConcat(st, g, w, room);
    OpeningFlag(RunState(st, g), w, room);
    RunConcat(st, g, [FLAG], room);
    RunOne(RunState(st, g), FLAG, room);
  }

  /** After any bytes in any state, the frames that follow are delivered whole. */
  lemma Resynchronises(st: State, g: seq<byte>, ps: seq<seq<byte>>, room: nat)
    requires ps != [] && AllAdmissible(ps) && room >= PAYLOAD_MAX
    ensures RunEvents(st, g + Frames(ps), room) == RunEvents(st, g + [FLAG], room) + Deliveries(ps)
  {
    FramesAnnounce(ps, room);
    FramesOpen(ps);
    AfterGarbage(st, g, Frames(ps), room);
  }

  /**
    * Any bytes inserted between complete frames lose, alter or reorder none of the other
    * payloads; the extra reports depend on the inserted bytes alone.
    */
  lemma FaultContained(st: State, ps: seq<seq<byte>>, g: seq<byte>, qs: seq<seq<byte>>, room: nat)
    requires ps != [] && qs != [] && AllAdmissible(ps) && AllAdmissible(qs) && room >= PAYLOAD_MAX
    ensures RunEvents(st, Frames(ps) + (g + Frames(qs)), room) ==
      Emits(st, FLAG, room) + Deliveries(ps) + RunEvents(OPEN, g + [FLAG], room) + Deliveries(qs)
  {
    FramesDeliver(st, ps, room);
    Resynchronises(OPEN, g, qs, room);
    RunConcat(st, Frames(ps), g + Frames(qs), room);
  }

  /** Inserted bytes without a FLAG cause at most one report: their own verdict. */
  lemma PlainGarbage(g: seq<byte>, room: nat)
    requires FLAG !in g
    ensures RunEvents(OPEN, g + [FLAG], room) == JudgeSegment(g, room)
  {
    RunSegment(g, room);
  }

  /** Bytes of which the decoder collects none. */
  predicate Idle(g: seq<byte>) {
    forall i :: 0 <= i < |g| ==> g[i] == FLAG || g[i] == ESC
  }

  lemma IdleStep(g: seq<byte>)
    requires g != []
    ensures Idle(g) <==> (g[0] == FLAG || g[0] == ESC) && Idle(g[1..])
  {
    var rest := g[1..];
    if Idle(g) {
      assert forall i :: 0 <= i < |rest| ==> rest[i] == g[i + 1];
    }
    if Idle(rest) {
      assert forall i :: 1 <= i < |g| ==> g[i] == rest[i - 1];
    }
  }

  /** Inside a frame, bytes and a FLAG after them go unreported only if nothing is collected. */
  lemma {:induction false} QuietIff(st: State, g: seq<byte>, room: nat)
    requires st.inFrame
    ensures RunEvents(st, g + [FLAG], room) == [] <==> st.inner == [] && Idle(g)
    decreases g
  {
    if g == [] {
      assert [] + [FLAG] == [FLAG];
      RunOne(st, FLAG, room);
    } else {
      assert (g + [FLAG])[1..] == g[1..] + [FLAG];
      QuietIff(After(st, g[0]), g[1..], room);
      IdleStep(g);
    }
  }

  /**
    * The source calls bytes between frames ignored garbage. Once a frame has been seen they
    * are ignored exactly when they are all FLAG or ESC.
    */
  lemma GarbageIgnoredIff(st: State, ps: seq<seq<byte>>, g: seq<byte>, qs: seq<seq<byte>>, room: nat)
    requires ps != [] && qs != [] && AllAdmissible(ps) && AllAdmissible(qs) && room >= PAYLOAD_MAX
    ensures var undisturbed := Emits(st, FLAG, room) + Deliveries(ps) + Deliveries(qs);
      RunEvents(st, Frames(ps) + (g + Frames(qs)), room) == undisturbed <==> Idle(g)
  {
    FaultContained(st, ps, g, qs, room);
    QuietIff(OPEN, g, room);
    Inserted(Emits(st, FLAG, room) + Deliveries(ps), RunEvents(OPEN, g + [FLAG], room), Deliveries(qs));
  }

  lemma Inserted(before: seq<Event>, extra: seq<Event>, after: seq<Event>)
    ensures before + extra + after == before + after <==> extra == []
  {
    assert |before + extra + after| == |before + after| + |extra|;
    assert before + [] == before;
  }

  /** A single byte between frames is not ignored: it is reported as a frame of bad length. */
  lemma GarbageReported(st: State, ps: seq<seq<byte>>, qs: seq<seq<byte>>, room: nat)
    requires ps != [] && qs != [] && AllAdmissible(ps) && AllAdmissible(qs) && room >= PAYLOAD_MAX
    ensures RunEvents(st, Frames(ps) + ([0x41] + Frames(qs)), room) ==
      Emits(st, FLAG, room) + Deliveries(ps) + [Rejected(ERR_LEN)] + Deliveries(qs)
  {
    FaultContained(st, ps, [0x41], qs, room);
    PlainGarbage([0x41], room);
    assert [0x41][1..] == [];
    assert Destuff(false, [0x41]) == [0x41];
  }

  // ----- provenance and conservation

  function Flags(s: seq<byte>): nat {
    if s == [] then 0 else (if s[0] == FLAG then 1 else 0) + Flags(s[1..])
  }

  /** Each FLAG yields at most one report, and outside a frame the first yields none. */
  lemma {:induction false} ReportsBounded(st: State, s: seq<byte>, room: nat)
    ensures |RunEvents(st, s, room)| <= Flags(s)
    ensures !st.inFrame && Flags(s) > 0 ==> |RunEvents(st, s, room)| < Flags(s)
    decreases s
  {
    if s != [] {
      ReportsBounded(After(st, s[0]), s[1..], room);
    }
  }

  /** The fewest wire bytes that can carry the deliveries of a list of reports. */
  function Carried(events: seq<Event>): nat {
    if events == [] then 0
    else (match events[0] case Delivered(p) => |p| + 3 case Rejected(_) => 0) + Carried(events[1..])
  }

  lemma CarriedOne(st: State, b: byte, room: nat)
    requires st.Valid()
    ensures After(st, b).Valid()
    ensures Carried(Emits(st, b, room)) + |After(st, b).inner| <= |st.inner| + 1
  {
    VerdictRange(st, room);
    assert Carried([]) == 0;
    if Emits(st, b, room) != [] {
      assert Emits(st, b, room)[1..] == [];
    }
  }

  /** No delivery without bytes: payload, CRC and FLAG of each are paid for by the input. */
  lemma {:induction false} Conservation(st: State, s: seq<byte>, room: nat)
    requires st.Valid()
    ensures RunState(st, s).Valid()
    ensures Carried(RunEvents(st, s, room)) + |RunState(st, s).inner| <= |st.inner| + |s|
    decreases s
  {
    if s != [] {
      CarriedOne(st, s[0], room);
      Conservation(After(st, s[0]), s[1..], room);
      var e, rest := Emits(st, s[0], room), RunEvents(After(st, s[0]), s[1..], room);
      if e == [] {
        assert e + rest == rest;
      } else {
        assert (e + rest)[1..] == rest && e[1..] == [];
      }
    }
  }

  lemma {:induction false} JudgeAllProvenance(segs: seq<seq<byte>>, p: seq<byte>, room: nat) returns (k: nat)
    requires Delivered(p) in JudgeAll(segs, room)
    ensures k < |segs| && Destuff(false, segs[k]) == Seal(p) && Admissible(p) && |p| <= room
  {
    if Delivered(p) in JudgeSegment(segs[0], room) {
      k := 0;
      SealedIsSeal(Destuff(false, segs[0]));
    } else {
      k := JudgeAllProvenance(segs[1..], p, room);
      k := k + 1;
    }
  }

  /** Nothing is invented: a delivered payload is what a stretch between two FLAGs seals. */
  lemma Provenance(s: seq<byte>, p: seq<byte>, room: nat) returns (k: nat)
    requires Delivered(p) in RunEvents(HUNTING, s, room)
    ensures k < |Closed(s)| && Destuff(false, Closed(s)[k]) == Seal(p)
    ensures Admissible(p) && |p| <= room
  {
    DecoderRefinesBatch(HUNTING, s, room);
    k := JudgeAllProvenance(Closed(s), p, room);
  }

  /**
    * The verdict on any stretch of wire between two FLAGs, by the number of inner bytes and
    * their CRC residue alone; -1, -2 and -3 are the length, CRC and overflow errors.
    */
  lemma StretchVerdict(w: seq<byte>, room: nat)
    requires FLAG !in w
    ensures var inner := Destuff(false, w);
      RunEvents(OPEN, w + [FLAG], room) ==
        if |inner| == 0 then []
        else if |inner| < 8 then [Rejected(-1)]
        else if |inner| > 18 then [Rejected(-3)]
        else if Crc(INIT, inner) != 0 then [Rejected(-2)]
        else if |inner| - 2 > room then [Rejected(-1)]
        else [Delivered(inner[..|inner| - 2])]
  {
    var inner := Destuff(false, w);
    RunSegment(w, room);
    if |inner| >= 2 {
      SealedIffZeroResidue(inner);
    }
  }

  // ----- damaged frames

  /** How far inner bytes were damaged: a burst, an odd number of bits, or at most three. */
  predicate Damaged(a: seq<byte>, b: seq<byte>) {
    && |a| == |b| && a != b
    && (Distance(a, b) <= 3
        || Distance(a, b) % 2 == 1
        || exists i: nat :: i + 16 <= 8 * |a| && AgreeOutside(BytesBits(a), BytesBits(b), i))
  }

  /** A stretch of wire whose inner bytes are damaged within these bounds gets a CRC error. */
  lemma DamageReported(p: seq<byte>, w: seq<byte>, room: nat)
    requires Admissible(p) && FLAG !in w && Damaged(Seal(p), Destuff(false, w))
    ensures RunEvents(OPEN, w + [FLAG], room) == [Rejected(ERR_CRC)]
    ensures RunState(OPEN, w + [FLAG]) == OPEN
  {
    var a, b := Seal(p), Destuff(false, w);
    SealIsSealed(p);
    if Sealed(b) {
      if Distance(a, b) <= 3 {
        MinimumDistance(a, b);
      } else if Distance(a, b) % 2 == 1 {
        OddErrorsDetected(a, b);
      } else {
        var i: nat :| i + 16 <= 8 * |a| && AgreeOutside(BytesBits(a), BytesBits(b), i);
        BurstDetected(a, b, i);
      }
    }
    RunSegment(w, room);
  }

  // ----- escapes the encoder never writes

  /** Exactly which stretches of wire deliver p: all that destuff to its sealed form. */
  lemma AcceptedWire(w: seq<byte>, p: seq<byte>, room: nat)
    requires FLAG !in w && room >= PAYLOAD_MAX
    ensures RunEvents(OPEN, w + [FLAG], room) == [Delivered(p)] <==> Admissible(p) && Destuff(false, w) == Seal(p)
  {
    RunSegment(w, room);
    var inner := Destuff(false, w);
    if RunEvents(OPEN, w + [FLAG], room) == [Delivered(p)] {
      SealedIsSeal(inner);
    }
    if Admissible(p) && inner == Seal(p) {
      ClassifySeal(p, room);
    }
  }

  /**
    * The requirements list a bad escape among the reported failures. The decoder reports
    * none: an accepted stretch is the encoder's own exactly when it is well escaped.
    */
  lemma AcceptedIsCanonicalIff(w: seq<byte>, p: seq<byte>, room: nat)
    requires FLAG !in w && room >= PAYLOAD_MAX
    requires RunEvents(OPEN, w + [FLAG], room) == [Delivered(p)]
    ensures [FLAG] + w + [FLAG] == Frame(p) <==> WellEscaped(w)
  {
    AcceptedWire(w, p, room);
    Canonical(w);
    if [FLAG] + w + [FLAG] == Frame(p) {
      assert ([FLAG] + w + [FLAG])[1..|w| + 1] == w;
      assert Frame(p)[1..|w| + 1] == Stuff(Seal(p));
    }
  }

  /** A stray ESC before the closing FLAG is badly escaped, and accepted all the same. */
  lemma StrayEscapeAccepted(p: seq<byte>, room: nat)
    requires Admissible(p) && room >= PAYLOAD_MAX
    ensures var w := Stuff(Seal(p)) + [ESC];
      !WellEscaped(w) && RunEvents(OPEN, w + [FLAG], room) == [Delivered(p)]
  {
    var w := Stuff(Seal(p)) + [ESC];
    StuffNoFlag(Seal(p));
    DestuffStuff(Seal(p));
    DestuffConcat(false, Stuff(Seal(p)), [ESC]);
    assert [ESC][1..] == [];
    assert Destuff(false, [ESC]) == [];
    assert w[|w| - 1] == ESC;
    AcceptedWire(w, p, room);
  }

  /**
    * When a badly escaped stretch is reported as an error: not always, but exactly when it
    * holds any inner byte at all and these fail the length or the CRC check.
    */
  lemma BadEscapeReportedIff(w: seq<byte>, room: nat)
    requires FLAG !in w && !WellEscaped(w) && room >= PAYLOAD_MAX
    ensures var inner := Destuff(false, w);
      (exists code :: RunEvents(OPEN, w + [FLAG], room) == [Rejected(code)]) <==>
        inner != [] && !(PAYLOAD_MIN + 2 <= |inner| <= FRAME_INNER && Sealed(inner))
  {
    RunSegment(w, room);
    var inner := Destuff(false, w);
    if inner != [] && !(PAYLOAD_MIN + 2 <= |inner| <= FRAME_INNER && Sealed(inner)) {
      assert RunEvents(OPEN, w + [FLAG], room) == [Rejected(Classify(inner, room).code)];
    }
  }
}
