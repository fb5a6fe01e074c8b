/** sk_frame_encode: the frame written into a caller's buffer, one checked byte at a time. */
module FrameEncoder {
  import opened Machine
  import opened Crc16
  import opened CrcErrors
  import opened Framing

  /** What has been written after the opening FLAG and the bytes m. */
  function Opened(m: seq<byte>): seq<byte> {
    [FLAG] + Stuff(m)
  }

  /** The first j of the bytes m fit after the opening FLAG, and what comes next does not. */
  predicate Stops(m: seq<byte>, j: nat, cap: nat) {
    && j <= |m|
    && |Opened(m[..j])| <= cap < |Opened(m[..j])| + if j < |m| then |Unit(m[j])| else 1
  }

  /** What a failed encoding of p leaves: as many whole inner bytes as the capacity had room for. */
  ghost predicate Truncated(before: seq<byte>, after: seq<byte>, p: seq<byte>, cap: nat) {
    if cap == 0 then after == before
    else exists j: nat :: Stops(Seal(p), j, cap) && Overlaid(before, after, Opened(Seal(p)[..j]))
  }

  /** done written over the start of before. */
  predicate Overlaid(before: seq<byte>, after: seq<byte>, done: seq<byte>) {
    |done| <= |before| && after == done + before[|done|..]
  }

  /** The bytes of a non-null buffer. */
  function Contents(a: array?<byte>): seq<byte>
    reads a
  {
    if a == null then [] else a[..]
  }

  /** inner = payload followed by its CRC, high byte first. */
  method SealPayload(payload: array<byte>, plen: nat) returns (inner: array<byte>)
    requires PAYLOAD_MIN <= plen <= PAYLOAD_MAX && plen <= payload.Length
    ensures fresh(inner) && inner.Length == FRAME_INNER
    ensures inner[..plen + 2] == Seal(payload[..plen])
  {
    inner := new byte[FRAME_INNER];
    for i := 0 to plen
      invariant inner[..i] == payload[..i]
    {
      inner[i] := payload[i];
    }
    var crc := Crc16CcittFalse(payload, plen);
    inner[plen] := Hi(crc);
    inner[plen + 1] := Lo(crc);
  }

  /** Append one stuffed byte to the bytes done, unless it does not fit. */
  method WriteUnit(b: byte, out: array<byte>, n: nat, cap: nat, ghost before: seq<byte>, ghost done: seq<byte>)
    returns (ok: bool, n': nat)
    requires n == |done| <= cap <= out.Length && Overlaid(before, out[..], done)
    modifies out
    ensures ok <==> n + |Unit(b)| <= cap
    ensures ok ==> n' == n + |Unit(b)| && Overlaid(before, out[..], done + Unit(b))
    ensures !ok ==> n' == n && out[..] == old(out[..])
  {
    n' := n;
    if b == FLAG || b == ESC {
      if n' + 2 > cap {
        return false, n';
      }
      out[n'] := ESC;
      n' := n' + 1;
      out[n'] := Toggle(b);
      n' := n' + 1;
      assert out[..] == done + [ESC, Toggle(b)] + before[n'..];
    } else {
      if n' + 1 > cap {
        return false, n';
      }
      out[n'] := b;
      n' := n' + 1;
      assert out[..] == done + [b] + before[n'..];
    }
    ok := true;
  }

  /** Stuff the inner bytes after the opening FLAG; j counts the bytes that fitted. */
  method StuffInto(inner: array<byte>, innerLen: nat, out: array<byte>, cap: nat)
    returns (ok: bool, n: nat, ghost j: nat)
    requires inner != out && innerLen <= inner.Length && 1 <= cap <= out.Length
    requires out[0] == FLAG
    modifies out
    ensures j <= innerLen && n == |Opened(inner[..j])| <= cap
    ensures Overlaid(old(out[..]), out[..], Opened(inner[..j]))
    ensures if ok then j == innerLen else j < innerLen && n + |Unit(inner[j])| > cap
  {
    ok, n, j := true, 1, 0;
    ghost var before, m := out[..], inner[..innerLen];
    ghost var done := Opened([]);
    assert inner[..0] == [];
    for i := 0 to innerLen
      invariant ok && j == i && n == |done| <= cap && done == Opened(inner[..i])
      invariant inner[..innerLen] == m
      invariant Overlaid(before, out[..], done)
    {
      OpenedStep(m, i);
      assert inner[i] == m[i] && inner[..i] == m[..i] && inner[..i + 1] == m[..i + 1];
      var fits, n' := WriteUnit(inner[i], out, n, cap, before, done);
      if !fits {
        return false, n, j;
      }
      done := done + Unit(m[i]);
      n, j := n', i + 1;
    }
  }

  lemma OpenedStep(m: seq<byte>, i: nat)
    requires i < |m|
    ensures Opened(m[..i + 1]) == Opened(m[..i]) + Unit(m[i])
  {
    assert m[..i + 1] == m[..i] + [m[i]];
    StuffAppend(m[..i], m[i]);
  }

  /** FLAG, stuffed inner bytes, FLAG. */
  method WriteFrame(inner: array<byte>, innerLen: nat, out: array<byte>, cap: nat, ghost p: seq<byte>)
    returns (n: int)
    requires inner != out && innerLen <= inner.Length && cap <= out.Length
    requires inner[..innerLen] == Seal(p)
    modifies out
    ensures if |Frame(p)| <= cap then n == |Frame(p)| && out[..] == Frame(p) + old(out[..])[n..]
      else n == -1 && Truncated(old(out[..]), out[..], p, cap)
  {
    ghost var before := out[..];
    if cap < 1 {
      return -1;
    }
    out[0] := FLAG;
    var ok, len, j := StuffInto(inner, innerLen, out, cap);
    assert inner[..j] == Seal(p)[..j];
    if !ok || len + 1 > cap {
      assert Stops(Seal(p), j, cap) && Overlaid(before, out[..], Opened(Seal(p)[..j]));
      PrefixOfFrame(p, j);
      return -1;
    }
    assert Seal(p)[..j] == Seal(p);
    ghost var written := out[..];
    out[len] := FLAG;
    n := len + 1;
    assert out[..] == written[..len] + [FLAG] + written[n..];
    assert written[..len] == Opened(Seal(p)) && written[n..] == before[n..];
  }

  /**
    * Encode a payload. It succeeds exactly when the length is admissible and the whole
    * frame fits; payload and out may be the same buffer.
    */
  method FrameEncode(payload: array?<byte>, plen: nat, out: array?<byte>, cap: nat) returns (n: int)
    requires payload != null && PAYLOAD_MIN <= plen <= PAYLOAD_MAX ==> plen <= payload.Length
    requires out != null ==> cap <= out.Length
    modifies out
    ensures payload == null || out == null || !(6 <= plen <= 16) ==>
      n == -1 && Contents(out) == old(Contents(out))
    ensures payload != null && out != null && 6 <= plen <= 16 ==>
      var p := old(payload[..plen]);
      if |Frame(p)| <= cap then n == |Frame(p)| && out[..] == Frame(p) + old(out[..])[n..]
      else n == -1 && Truncated(old(out[..]), out[..], p, cap)
  {
    if payload == null || out == null || plen < PAYLOAD_MIN || plen > PAYLOAD_MAX {
      return -1;
    }
    var inner := SealPayload(payload, plen);
    n := WriteFrame(inner, plen + 2, out, cap, payload[..plen]);
  }

  /**
    * A failed encoding leaves a prefix of the frame that comes within one byte of the
    * capacity and splits no escaped pair.
    */
  lemma TruncatedAt(p: seq<byte>, before: seq<byte>, after: seq<byte>, cap: nat) returns (k: nat)
    requires cap <= |before| && Truncated(before, after, p, cap)
    ensures k <= cap < k + 2 && k < |Frame(p)| && cap < |Frame(p)|
    ensures after == Frame(p)[..k] + before[k..]
    ensures k > 0 ==> WellEscaped(Frame(p)[1..k])
  {
    if cap == 0 {
      k := 0;
    } else {
      var m := Seal(p);
      var j: nat :| Stops(m, j, cap) && Overlaid(before, after, Opened(m[..j]));
      k := |Opened(m[..j])|;
      PrefixOfFrame(p, j);
      StuffWellEscaped(m[..j]);
      assert Frame(p)[..k] == Opened(m[..j]);
      assert Frame(p)[1..k] == Frame(p)[..k][1..] == Stuff(m[..j]);
    }
  }

  lemma OpenedGrows(m: seq<byte>, i: nat, j: nat)
    requires i < j <= |m|
    ensures |Opened(m[..i])| + |Unit(m[i])| <= |Opened(m[..j])|
  {
    OpenedStep(m, i);
    StuffConcat(m[..i + 1], m[i + 1..j]);
    assert m[..j] == m[..i + 1] + m[i + 1..j];
  }

  lemma StopsOnce(m: seq<byte>, i: nat, j: nat, cap: nat)
    requires Stops(m, i, cap) && Stops(m, j, cap)
    ensures i == j
  {
    if i < j {
      OpenedGrows(m, i, j);
    } else if j < i {
      OpenedGrows(m, j, i);
    }
  }

  /** A failed encoding leaves nothing open: payload, capacity and old contents decide it. */
  lemma TruncatedOnce(p: seq<byte>, before: seq<byte>, a: seq<byte>, b: seq<byte>, cap: nat)
    requires Truncated(before, a, p, cap) && Truncated(before, b, p, cap)
    ensures a == b
  {
    if cap > 0 {
      var i: nat :| Stops(Seal(p), i, cap) && Overlaid(before, a, Opened(Seal(p)[..i]));
      var j: nat :| Stops(Seal(p), j, cap) && Overlaid(before, b, Opened(Seal(p)[..j]));
      StopsOnce(Seal(p), i, j, cap);
    }
  }

  lemma StuffSplit(m: seq<byte>, i: nat)
    requires i <= |m|
    ensures Stuff(m) == Stuff(m[..i]) + Stuff(m[i..])
    ensures i < |m| ==> |Unit(m[i])| <= |Stuff(m[i..])|
  {
    StuffConcat(m[..i], m[i..]);
    assert m == m[..i] + m[i..];
  }

  lemma PrefixOfFrame(p: seq<byte>, i: nat)
    requires i <= |Seal(p)|
    ensures Opened(Seal(p)[..i]) <= Frame(p)
    ensures |Opened(Seal(p)[..i])| + (if i < |Seal(p)| then |Unit(Seal(p)[i])| else 0) < |Frame(p)|
  {
    StuffSplit(Seal(p), i);
  }
}
