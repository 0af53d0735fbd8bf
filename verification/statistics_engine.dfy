/**
 * The RTCP side of the statistics engine: the walk over a compound RTCP
 * packet that finds where an extended report (XR) goes, the in-place
 * insertion of an XR into the packet's byte array, the collection of one
 * XR per sender or receiver report, the decoding of the 64-bit burst
 * metrics, and the per-SSRC report counters with the minimum and maximum
 * reported inter-arrival jitter.
 *
 * The RTCP header recogniser (`isRtcp`, `getLength`) and the XR serialiser
 * (`assemble`) are outside the model; they are parameters that see only
 * the bytes of the window they are given. Which VoIP-metrics block (if
 * any) exists for a (sender, source) pair depends on the receive streams
 * and is the parameter `blockFor`.
 */
module RtcpStatistics {
  import opened Wrappers
  import opened JavaValues

  /** RTCP packet types, section 12.1 of RFC 3550. */
  const SR: int := 200
  const RR: int := 201
  const BYE: int := 203

  /** The SDP parameter that enables VoIP-metrics reports (section 5.1 of RFC 3611). */
  const VoipMetricsSdpParameter: string := "voip-metrics"

  /** The RTCP header recogniser: whether a window holds an RTCP packet, and its length in bytes. */
  datatype RtcpUtils = RtcpUtils(isRtcp: seq<Byte> -> bool, getLength: seq<Byte> -> int)

  /** A recogniser only accepts windows holding at least the 4-byte common header. */
  ghost predicate Sound(u: RtcpUtils)
  {
    forall w :: u.isRtcp(w) ==> |w| >= 4
  }

  /** A VoIP Metrics Report Block (section 4.7 of RFC 3611) about one source. */
  datatype VoipMetricsBlock = VoipMetricsBlock(sourceSsrc: int, burst: BurstMetrics)

  /** An RTCP XR packet: the originator's SSRC and its report blocks. */
  datatype ExtendedReport = ExtendedReport(ssrc: int, blocks: seq<VoipMetricsBlock>)

  /** The wire length of an XR: a header and SSRC of 8 bytes and 36 bytes per block. */
  function CalcLength(xr: ExtendedReport): (n: nat)
    ensures n >= 8
  {
    8 + 36 * |xr.blocks|
  }

  /** `RTPUtils.readInt`: four bytes, big-endian, as a Java int. */
  function ReadInt(buf: seq<Byte>, i: int): (r: int)
    requires 0 <= i && i + 4 <= |buf|
    ensures IsInt(r)
  {
    var unsigned := buf[i] as int * 0x100_0000 + buf[i + 1] as int * 0x1_0000 + buf[i + 2] as int * 0x100 + buf[i + 3] as int;
    if unsigned <= IntMax then unsigned else unsigned - 0x1_0000_0000
  }

  /**
   * The length of the RTCP packet at `off` within the `len` bytes there,
   * or -1 when `off` is negative, the bytes are not RTCP, or the stated
   * length exceeds `len`.
   */
  function GetLengthIfRtcp(u: RtcpUtils, buf: seq<Byte>, off: int, len: int): (r: int)
    requires 0 <= len && off + len <= |buf|
    ensures r <= len
    ensures r != -1 ==> off >= 0 && u.isRtcp(buf[off..off + len]) && r == u.getLength(buf[off..off + len])
    ensures off >= 0 && u.isRtcp(buf[off..off + len]) && u.getLength(buf[off..off + len]) <= len ==>
      r == u.getLength(buf[off..off + len])
    ensures off < 0 || !u.isRtcp(buf[off..off + len]) ==> r == -1
  {
    if off >= 0 && u.isRtcp(buf[off..off + len]) then
      var bytes := u.getLength(buf[off..off + len]);
      if bytes <= len then bytes else -1
    else -1
  }

  /**
   * The five-bit count field of an RTCP header's first byte (its source
   * count or report count, section 6.4 of RFC 3550): the byte's low five
   * bits, taken by stripping 32 at a time.
   */
  function CountField(b: int): (r: nat)
    requires 0 <= b
    ensures r < 32
  {
    if b < 32 then b else CountField(b - 32)
  }

  /** The count field is the byte modulo 32. */
  lemma {:induction false} CountFieldIsLowBits(b: int)
    requires 0 <= b
    ensures CountField(b) == b % 32
  {
    if b >= 32 {
      CountFieldIsLowBits(b - 32);
    }
  }

  /** A recognised packet is at least a common header long. */
  lemma RecognisedHasHeader(u: RtcpUtils, c: seq<Byte>, pos: nat)
    requires Sound(u) && pos <= |c|
    ensures GetLengthIfRtcp(u, c, pos, |c| - pos) > 0 ==> |c| - pos >= 4
  {
    if GetLengthIfRtcp(u, c, pos, |c| - pos) > 0 {
      assert u.isRtcp(c[pos..pos + (|c| - pos)]);
    }
  }

  // ---------------------------------------------------------------------
  // Where an XR goes

  /** The `i`-th SSRC listed by a BYE packet at `pos`. */
  function ByeSsrc(c: seq<Byte>, pos: nat, i: nat): int
    requires pos + 8 + 4 * i <= |c|
  {
    ReadInt(c, pos + 4 + 4 * i)
  }

  /** The BYE packet at `pos` with `sc` sources lists `ssrc`. */
  predicate ByeListsSsrc(c: seq<Byte>, pos: nat, sc: nat, ssrc: int)
    requires pos + 4 + 4 * sc <= |c|
  {
    exists i :: 0 <= i < sc && ByeSsrc(c, pos, i) == ssrc
  }

  /**
   * The packet of `n` bytes at `pos` is one the XR must go before: a BYE
   * that is too short for its source count, or one that lists `ssrc`.
   */
  predicate StopsBefore(c: seq<Byte>, pos: nat, n: nat, ssrc: int)
    requires 0 < n && pos + n <= |c| && pos + 2 <= |c|
  {
    c[pos + 1] == BYE &&
    var sc := CountField(c[pos]);
    n < (1 + sc) * 4 || ByeListsSsrc(c, pos, sc, ssrc)
  }

  /**
   * The offset, relative to the packet's start, at which an XR with SSRC
   * `ssrc` is inserted: whole RTCP packets are skipped from `pos` on, up to
   * the first non-RTCP bytes or the first packet the XR must go before.
   */
  function InsertionPoint(u: RtcpUtils, c: seq<Byte>, pos: nat, ssrc: int): (k: nat)
    requires Sound(u) && pos <= |c|
    decreases |c| - pos
  {
    if pos == |c| then pos
    else
      var n := GetLengthIfRtcp(u, c, pos, |c| - pos);
      RecognisedHasHeader(u, c, pos);
      if n <= 0 then pos
      else if StopsBefore(c, pos, n, ssrc) then pos
      else InsertionPoint(u, c, pos + n, ssrc)
  }

  /**
   * The insertion point never leaves the packet, and it is either its end
   * or the start of non-RTCP bytes or of a packet the XR must go before.
   */
  lemma {:induction false} InsertionPointIsBoundary(u: RtcpUtils, c: seq<Byte>, pos: nat, ssrc: int)
    requires Sound(u) && pos <= |c|
    ensures var k := InsertionPoint(u, c, pos, ssrc);
            && pos <= k <= |c|
            && (k < |c| ==>
                 var n := GetLengthIfRtcp(u, c, k, |c| - k);
                 n <= 0 || (|c| - k >= 4 && StopsBefore(c, k, n, ssrc)))
    decreases |c| - pos
  {
    if pos < |c| {
      var n := GetLengthIfRtcp(u, c, pos, |c| - pos);
      RecognisedHasHeader(u, c, pos);
      if n > 0 && !StopsBefore(c, pos, n, ssrc) {
        InsertionPointIsBoundary(u, c, pos + n, ssrc);
      }
    }
  }

  /** The packet after inserting the bytes `bytes` of `xr`: unchanged unless exactly `calcLength` bytes were written. */
  function InsertReport(u: RtcpUtils, c: seq<Byte>, xr: ExtendedReport, bytes: seq<Byte>): (r: seq<Byte>)
    requires Sound(u)
  {
    var k := InsertionPoint(u, c, 0, xr.ssrc);
    InsertionPointIsBoundary(u, c, 0, xr.ssrc);
    if |bytes| == CalcLength(xr) then c[..k] + bytes + c[k..] else c
  }

  /**
   * A successful insertion grows the packet by exactly `calcLength` bytes,
   * keeps the bytes before the insertion point, places the XR there, and
   * shifts the rest right unchanged.
   */
  lemma InsertReportShape(u: RtcpUtils, c: seq<Byte>, xr: ExtendedReport, bytes: seq<Byte>)
    requires Sound(u) && |bytes| == CalcLength(xr)
    ensures var r := InsertReport(u, c, xr, bytes);
            var k := InsertionPoint(u, c, 0, xr.ssrc);
            && |r| == |c| + CalcLength(xr)
            && k <= |c|
            && r[..k] == c[..k]
            && r[k..k + |bytes|] == bytes
            && r[k + |bytes|..] == c[k..]
  {
    InsertionPointIsBoundary(u, c, 0, xr.ssrc);
    var k := InsertionPoint(u, c, 0, xr.ssrc);
    var r := c[..k] + bytes + c[k..];
    assert r[..k] == c[..k];
    assert r[k..k + |bytes|] == bytes;
    assert r[k + |bytes|..] == c[k..];
  }

  /** Every XR of the list inserted in turn. */
  function InsertAll(u: RtcpUtils, c: seq<Byte>, xrs: seq<ExtendedReport>,
                     assemble: ExtendedReport -> seq<Byte>): seq<Byte>
    requires Sound(u)
    decreases |xrs|
  {
    if xrs == [] then c
    else InsertReport(u, InsertAll(u, c, xrs[..|xrs| - 1], assemble), xrs[|xrs| - 1], assemble(xrs[|xrs| - 1]))
  }

  /** Inserting one more XR of the list. */
  lemma InsertAllStep(u: RtcpUtils, c: seq<Byte>, xrs: seq<ExtendedReport>, j: nat,
                      assemble: ExtendedReport -> seq<Byte>)
    requires Sound(u) && j < |xrs|
    ensures InsertAll(u, c, xrs[..j + 1], assemble)
         == InsertReport(u, InsertAll(u, c, xrs[..j], assemble), xrs[j], assemble(xrs[j]))
  {
    assert xrs[..j + 1][..j] == xrs[..j];
  }

  // ---------------------------------------------------------------------
  // The packet

  /** A packet: a byte array with the offset and length of its bytes. */
  class RawPacket {
    var buffer: array<Byte>
    var offset: int
    var length: int

    ghost predicate Valid()
      reads this
    {
      0 <= offset && 0 <= length && offset + length <= buffer.Length
    }

    /** The packet's bytes. */
    function Contents(): seq<Byte>
      reads this, buffer
      requires Valid()
    {
      buffer[offset..offset + length]
    }

    constructor (bytes: seq<Byte>)
      ensures Valid() && Contents() == bytes && offset == 0 && fresh(buffer)
    {
      buffer := new Byte[|bytes|](i requires 0 <= i < |bytes| => bytes[i]);
      offset, length := 0, |bytes|;
      new;
      assert buffer[..] == bytes;
    }

    /**
     * Makes room for `howMuch` more bytes after the packet; when the array
     * is too short the bytes move to a new array at offset 0.
     */
    method Grow(howMuch: nat)
      requires Valid()
      modifies this
      ensures Valid() && length == old(length)
      ensures Contents() == old(Contents())
      ensures buffer.Length - offset >= length + howMuch
      ensures buffer == old(buffer) || fresh(buffer)
    {
      if length + howMuch > buffer.Length - offset {
        var grown := new Byte[length + howMuch](_ => 0);
        forall i | 0 <= i < length {
          grown[i] := buffer[offset + i];
        }
        assert grown[..length] == buffer[offset..offset + length];
        buffer, offset := grown, 0;
      }
    }
  }

  /**
   * `System.arraycopy`: copies `n` elements as if through a temporary
   * array, so overlapping ranges of one array are handled.
   */
  method ArrayCopy(src: array<Byte>, srcPos: nat, dst: array<Byte>, dstPos: nat, n: nat)
    requires srcPos + n <= src.Length && dstPos + n <= dst.Length
    modifies dst
    ensures forall i :: 0 <= i < dst.Length && !(dstPos <= i < dstPos + n) ==> dst[i] == old(dst[i])
    ensures forall i :: dstPos <= i < dstPos + n ==> dst[i] == old(src[i - dstPos + srcPos])
  {
    var tmp := src[srcPos..srcPos + n];
    forall i | 0 <= i < n {
      dst[dstPos + i] := tmp[i];
    }
  }

  /**
   * One step of the scan, on the packet of `n` bytes at `pos` in the bytes
   * `c`: whether the XR goes before it (a BYE too short for its source
   * count, or one whose sources include `ssrc`).
   */
  method StopsHere(c: seq<Byte>, pos: nat, n: int, ssrc: int) returns (before: bool)
    requires 0 < n && pos + n <= |c| && pos + 4 <= |c|
    ensures before <==> StopsBefore(c, pos, n, ssrc)
  {
    before := false;
    if c[pos + 1] == BYE {
      var sc := CountField(c[pos]);
      if n < (1 + sc) * 4 {
        before := true;
      } else {
        var i := 0;
        while i < sc
          invariant 0 <= i <= sc
          invariant forall j :: 0 <= j < i ==> ByeSsrc(c, pos, j) != ssrc
        {
          if ReadInt(c, pos + 4 + 4 * i) == ssrc {
            assert ByeSsrc(c, pos, i) == ssrc;
            before := true;
            break;
          }
          i := i + 1;
        }
      }
    }
  }

  /**
   * The scan over the packet's bytes `c` for the place of an XR with SSRC
   * `ssrc`: whole RTCP packets are stepped over until the bytes end, are
   * not RTCP, or hold a packet the XR must go before.
   */
  method FindInsertionPoint(u: RtcpUtils, c: seq<Byte>, ssrc: int) returns (k: nat)
    requires Sound(u)
    ensures k == InsertionPoint(u, c, 0, ssrc)
  {
    k := 0;
    while k < |c|
      invariant k <= |c|
      invariant InsertionPoint(u, c, k, ssrc) == InsertionPoint(u, c, 0, ssrc)
      decreases |c| - k
    {
      var rtcpPktLen := GetLengthIfRtcp(u, c, k, |c| - k);
      RecognisedHasHeader(u, c, k);
      if rtcpPktLen <= 0 {
        return;
      }
      var before := StopsHere(c, k, rtcpPktLen, ssrc);
      if before {
        return;
      }
      k := k + rtcpPktLen;
    }
  }

  /**
   * Inserts `xr` into the packet where `InsertionPoint` says. The room is
   * made by growing the packet and shifting the tail right; the report is
   * written there; it counts as added only if exactly `calcLength` bytes
   * were written, and otherwise the tail is moved back.
   */
  method AddRtcpExtendedReport(pkt: RawPacket, xr: ExtendedReport, u: RtcpUtils,
                               assemble: ExtendedReport -> seq<Byte>) returns (added: bool)
    requires Sound(u) && pkt.Valid()
    modifies pkt, pkt.buffer
    ensures pkt.Valid()
    ensures pkt.buffer == old(pkt.buffer) || fresh(pkt.buffer)
    ensures added <==> |assemble(xr)| == CalcLength(xr)
    ensures pkt.Contents() == InsertReport(u, old(pkt.Contents()), xr, assemble(xr))
  {
    var k := FindInsertionPoint(u, pkt.Contents(), xr.ssrc);
    InsertionPointIsBoundary(u, pkt.Contents(), 0, xr.ssrc);
    added := InsertAt(pkt, k, xr, assemble);
  }

  /** Moves the bytes in `[from, end)` right by `gap`; bytes before `from` stay. */
  method ShiftRight(buf: array<Byte>, from: nat, end: nat, gap: nat)
    requires from <= end && end + gap <= buf.Length
    modifies buf
    ensures buf[..from] == old(buf[..from])
    ensures buf[from + gap..end + gap] == old(buf[from..end])
  {
    if from < end {
      ghost var before := buf[..];
      ArrayCopy(buf, from, buf, from + gap, end - from);
      assert forall i :: from + gap <= i < end + gap ==> buf[i] == before[i - gap];
    }
  }

  /**
   * The packet's array holds the bytes `c` with a gap of `gap` bytes
   * opened at `k` bytes in; the packet's length is still `|c|`.
   */
  ghost predicate HasGap(pkt: RawPacket, k: nat, gap: nat, c: seq<Byte>)
    reads pkt, pkt.buffer
  {
    && pkt.Valid() && k <= pkt.length == |c|
    && pkt.offset + pkt.length + gap <= pkt.buffer.Length
    && pkt.buffer[pkt.offset..pkt.offset + k] == c[..k]
    && pkt.buffer[pkt.offset + k + gap..pkt.offset + pkt.length + gap] == c[k..]
  }

  /** Moves the bytes in `[from + gap, end + gap)` left by `gap`; bytes before `from` stay. */
  method ShiftLeft(buf: array<Byte>, from: nat, end: nat, gap: nat)
    requires from <= end && end + gap <= buf.Length
    modifies buf
    ensures buf[..from] == old(buf[..from])
    ensures buf[from..end] == old(buf[from + gap..end + gap])
  {
    if from < end {
      ghost var before := buf[..];
      ArrayCopy(buf, from + gap, buf, from, end - from);
      assert forall i :: from <= i < end ==> buf[i] == before[i + gap];
    }
  }

  /**
   * Makes a gap of `gap` bytes at `k` bytes into the packet: the packet
   * grows, and the bytes from `k` on move right by `gap`.
   */
  method OpenGap(pkt: RawPacket, k: nat, gap: nat)
    requires pkt.Valid() && k <= pkt.length
    modifies pkt, pkt.buffer
    ensures pkt.buffer == old(pkt.buffer) || fresh(pkt.buffer)
    ensures HasGap(pkt, k, gap, old(pkt.Contents()))
  {
    pkt.Grow(gap);
    ShiftTail(pkt, k, gap, pkt.Contents());
  }

  /** Moves the packet's bytes from `k` on right by `gap`, within its array. */
  method ShiftTail(pkt: RawPacket, k: nat, gap: nat, ghost c: seq<Byte>)
    requires pkt.Valid() && pkt.Contents() == c && k <= |c|
    requires pkt.offset + pkt.length + gap <= pkt.buffer.Length
    modifies pkt.buffer
    ensures HasGap(pkt, k, gap, c)
  {
    var buf := pkt.buffer;
    var start := pkt.offset;
    var off := start + k;
    var end := start + pkt.length;
    SplitSlice(buf[..], start, off, end);
    ghost var before := buf[..off];
    ShiftRight(buf, off, end, gap);
    assert buf[start..off] == before[start..off] == c[..k];
  }

  /** Writes the first `n` of `bytes` into the gap; the bytes around it stay. */
  method FillGap(pkt: RawPacket, k: nat, gap: nat, ghost c: seq<Byte>, bytes: seq<Byte>, n: nat)
    requires HasGap(pkt, k, gap, c) && n <= gap && n <= |bytes|
    modifies pkt.buffer
    ensures HasGap(pkt, k, gap, c)
    ensures pkt.buffer[pkt.offset + k..pkt.offset + k + n] == bytes[..n]
  {
    var buf := pkt.buffer;
    var start := pkt.offset;
    var off := start + k;
    var end := start + pkt.length;
    ghost var before := buf[..];
    WriteRange(buf, off, bytes, n);
    SameSliceWithin(buf[..], before, 0, off, start, off);
    SameSliceWithin(buf[..], before, off + n, buf.Length, off + gap, end + gap);
  }

  /** Two sequences that agree on `[lo, hi)` agree on every slice within it. */
  lemma SameSliceWithin<T>(s: seq<T>, t: seq<T>, lo: nat, hi: nat, a: nat, b: nat)
    requires lo <= a <= b <= hi <= |s| && hi <= |t| && s[lo..hi] == t[lo..hi]
    ensures s[a..b] == t[a..b]
  {
    forall i | a <= i < b
      ensures s[i] == t[i]
    {
      assert s[i] == s[lo..hi][i - lo] && t[i] == t[lo..hi][i - lo];
    }
  }

  /** Writes the first `n` of `bytes` at `pos`; every other element stays. */
  method WriteRange(buf: array<Byte>, pos: nat, bytes: seq<Byte>, n: nat)
    requires n <= |bytes| && pos + n <= buf.Length
    modifies buf
    ensures buf[..pos] == old(buf[..pos]) && buf[pos + n..] == old(buf[pos + n..])
    ensures buf[pos..pos + n] == bytes[..n]
  {
    forall i | 0 <= i < n {
      buf[pos + i] := bytes[i];
    }
  }

  /** Closes a gap of `gap` bytes: the bytes after it move back left. */
  method CloseGap(pkt: RawPacket, k: nat, gap: nat, ghost c: seq<Byte>)
    requires HasGap(pkt, k, gap, c)
    modifies pkt.buffer
    ensures pkt.Valid() && pkt.Contents() == c
  {
    var buf := pkt.buffer;
    var start := pkt.offset;
    var off := start + k;
    var end := start + pkt.length;
    ghost var before := buf[..off];
    assert before[start..off] == c[..k];
    ShiftLeft(buf, off, end, gap);
    assert buf[start..off] == before[start..off];
    assert buf[start..end] == buf[start..off] + buf[off..end];
  }

  /** Takes a gap filled with exactly `bytes` into the packet. */
  method CommitGap(pkt: RawPacket, k: nat, ghost c: seq<Byte>, bytes: seq<Byte>)
    requires HasGap(pkt, k, |bytes|, c)
    requires pkt.buffer[pkt.offset + k..pkt.offset + k + |bytes|] == bytes[..|bytes|]
    modifies pkt
    ensures pkt.buffer == old(pkt.buffer)
    ensures pkt.Valid() && pkt.Contents() == c[..k] + bytes + c[k..]
  {
    var buf := pkt.buffer;
    var start := pkt.offset;
    var off := start + k;
    ghost var s := buf[..];
    ghost var end := start + pkt.length + |bytes|;
    assert bytes[..|bytes|] == bytes;
    assert s[start..off] == c[..k];
    assert s[off..off + |bytes|] == bytes;
    assert s[off + |bytes|..end] == c[k..];
    JoinSlices(s, start, off, off + |bytes|, end);
    pkt.length := pkt.length + |bytes|;
    assert buf[..] == s;
  }

  /** A slice is the concatenation of the three slices it is cut into. */
  lemma JoinSlices<T>(s: seq<T>, a: nat, m1: nat, m2: nat, b: nat)
    requires a <= m1 <= m2 <= b <= |s|
    ensures s[a..b] == s[a..m1] + s[m1..m2] + s[m2..b]
  {
  }

  /** Cutting a slice at `m` cuts it into the slices before and after `m`. */
  lemma SplitSlice<T>(s: seq<T>, a: nat, m: nat, b: nat)
    requires a <= m <= b <= |s|
    ensures s[a..b][..m - a] == s[a..m] && s[a..b][m - a..] == s[m..b]
  {
  }

  /**
   * The insertion proper, at `k` bytes into the packet: open a gap of
   * `calcLength` bytes, write the assembled bytes through a stream bounded
   * to the gap, then either extend the length or close the gap again.
   */
  method InsertAt(pkt: RawPacket, k: nat, xr: ExtendedReport,
                  assemble: ExtendedReport -> seq<Byte>) returns (added: bool)
    requires pkt.Valid() && k <= pkt.length
    modifies pkt, pkt.buffer
    ensures pkt.Valid()
    ensures pkt.buffer == old(pkt.buffer) || fresh(pkt.buffer)
    ensures added <==> |assemble(xr)| == CalcLength(xr)
    ensures added ==> pkt.Contents() == old(pkt.Contents())[..k] + assemble(xr) + old(pkt.Contents())[k..]
    ensures !added ==> pkt.Contents() == old(pkt.Contents())
  {
    ghost var c := pkt.Contents();
    var extendedReportLen := CalcLength(xr);
    OpenGap(pkt, k, extendedReportLen);
    added := SettleGap(pkt, k, extendedReportLen, c, assemble(xr));
  }

  /**
   * Writes `bytes` into an open gap of `gap` bytes, as far as the gap
   * allows; keeps them if they fill the gap exactly, else closes the gap.
   */
  method SettleGap(pkt: RawPacket, k: nat, gap: nat, ghost c: seq<Byte>, bytes: seq<Byte>) returns (added: bool)
    requires HasGap(pkt, k, gap, c)
    modifies pkt, pkt.buffer
    ensures pkt.buffer == old(pkt.buffer) && pkt.Valid()
    ensures added <==> |bytes| == gap
    ensures added ==> pkt.Contents() == c[..k] + bytes + c[k..]
    ensures !added ==> pkt.Contents() == c
  {
    var n := if |bytes| <= gap then |bytes| else gap;
    FillGap(pkt, k, gap, c, bytes, n);
    added := |bytes| == gap;
    if added {
      CommitGap(pkt, k, c, bytes);
    } else {
      CloseGap(pkt, k, gap, c);
    }
  }

  // ---------------------------------------------------------------------
  // One XR per sender or receiver report

  /** Whether `sub` occurs in `s` (`String.contains`). */
  predicate Contains(s: string, sub: string)
  {
    exists i :: 0 <= i <= |s| - |sub| && OccursAt(s, sub, i)
  }

  predicate OccursAt(s: string, sub: string, i: nat)
    requires i + |sub| <= |s|
  {
    s[i..i + |sub|] == sub
  }

  /** The report blocks that exist for the listed sources, in order. */
  function Blocks(senderSsrc: int, sources: seq<int>, blockFor: (int, int) -> Option<VoipMetricsBlock>): (r: seq<VoipMetricsBlock>)
    ensures |r| <= |sources|
    decreases |sources|
  {
    if sources == [] then []
    else
      var prev := Blocks(senderSsrc, sources[..|sources| - 1], blockFor);
      match blockFor(senderSsrc, sources[|sources| - 1])
      case Some(b) => prev + [b]
      case None => prev
  }

  /**
   * The XR for one sender or receiver report: none unless there are
   * sources, the SDP parameters enable VoIP metrics, and at least one
   * source has a block; otherwise the sender's XR holding those blocks.
   */
  function ReportFor(senderSsrc: int, sources: seq<int>, sdpParams: Option<string>,
                     blockFor: (int, int) -> Option<VoipMetricsBlock>): Option<ExtendedReport>
  {
    if sources != [] && sdpParams.Some? && Contains(sdpParams.value, VoipMetricsSdpParameter) then
      var blocks := Blocks(senderSsrc, sources, blockFor);
      if |blocks| > 0 then Some(ExtendedReport(senderSsrc, blocks)) else None
    else None
  }

  /** A source has a block iff `blockFor` gives one for it. */
  lemma {:induction false} BlocksNonEmptyIff(senderSsrc: int, sources: seq<int>, blockFor: (int, int) -> Option<VoipMetricsBlock>)
    ensures |Blocks(senderSsrc, sources, blockFor)| > 0
            <==> exists i :: 0 <= i < |sources| && blockFor(senderSsrc, sources[i]).Some?
    decreases |sources|
  {
    if sources != [] {
      var init := sources[..|sources| - 1];
      BlocksNonEmptyIff(senderSsrc, init, blockFor);
      if exists i :: 0 <= i < |init| && blockFor(senderSsrc, init[i]).Some? {
        var i :| 0 <= i < |init| && blockFor(senderSsrc, init[i]).Some?;
        assert sources[i] == init[i];
      }
      if exists i :: 0 <= i < |sources| && blockFor(senderSsrc, sources[i]).Some? {
        var i :| 0 <= i < |sources| && blockFor(senderSsrc, sources[i]).Some?;
        if i < |init| { assert init[i] == sources[i]; }
      }
    }
  }

  /**
   * An XR is created exactly when there are sources, the SDP parameters
   * contain the VoIP-metrics parameter and some source has a block; it
   * then carries the sender's SSRC.
   */
  lemma ReportForSpec(senderSsrc: int, sources: seq<int>, sdpParams: Option<string>,
                      blockFor: (int, int) -> Option<VoipMetricsBlock>)
    ensures ReportFor(senderSsrc, sources, sdpParams, blockFor).Some?
            <==> && sources != [] && sdpParams.Some? && Contains(sdpParams.value, VoipMetricsSdpParameter)
                 && exists i :: 0 <= i < |sources| && blockFor(senderSsrc, sources[i]).Some?
    ensures ReportFor(senderSsrc, sources, sdpParams, blockFor).Some? ==>
            && ReportFor(senderSsrc, sources, sdpParams, blockFor).value.ssrc == senderSsrc
            && |ReportFor(senderSsrc, sources, sdpParams, blockFor).value.blocks| > 0
  {
    BlocksNonEmptyIff(senderSsrc, sources, blockFor);
  }

  /** `createRTCPExtendedReport`: collects the blocks in a loop. */
  method CreateRtcpExtendedReport(senderSsrc: int, sources: seq<int>, sdpParams: Option<string>,
                                  blockFor: (int, int) -> Option<VoipMetricsBlock>) returns (xr: Option<ExtendedReport>)
    ensures xr == ReportFor(senderSsrc, sources, sdpParams, blockFor)
  {
    xr := None;
    if sources != [] && sdpParams.Some? && Contains(sdpParams.value, VoipMetricsSdpParameter) {
      var blocks: seq<VoipMetricsBlock> := [];
      var i := 0;
      while i < |sources|
        invariant 0 <= i <= |sources|
        invariant blocks == Blocks(senderSsrc, sources[..i], blockFor)
      {
        assert sources[..i + 1][..i] == sources[..i];
        var block := blockFor(senderSsrc, sources[i]);
        if block.Some? {
          blocks := blocks + [block.value];
        }
        i := i + 1;
      }
      assert sources[..i] == sources;
      if |blocks| > 0 {
        xr := Some(ExtendedReport(senderSsrc, blocks));
      }
    }
  }

  /** The minimum length of an SR or RR with `rc` report blocks (sections 6.4.1 and 6.4.2 of RFC 3550). */
  function MinReportLength(pt: int, rc: nat): nat
  {
    (2 + rc * 6) * 4 + (if pt == SR then 20 else 0)
  }

  /** The offset of the first report block of an SR or RR. */
  function ReportBlockOffset(pt: int): nat
  {
    if pt == SR then 28 else 8
  }

  /** The source SSRCs of the `rc` report blocks of the SR or RR at `pos`, at a 24-byte stride. */
  function SourceSsrcs(c: seq<Byte>, pos: nat, pt: int, rc: nat): (r: seq<int>)
    requires pos + MinReportLength(pt, rc) <= |c|
    ensures |r| == rc
  {
    seq(rc, i requires 0 <= i < rc => ReadInt(c, pos + ReportBlockOffset(pt) + 24 * i))
  }

  /** How the XR for a sender and its sources is made. */
  type XrFactory = (int, seq<int>) -> Option<ExtendedReport>

  /** The XR factory of the engine: `ReportFor` with the stream's SDP parameters and blocks. */
  function ReportMaker(sdpParams: Option<string>, blockFor: (int, int) -> Option<VoipMetricsBlock>): XrFactory
  {
    (senderSsrc, sources) => ReportFor(senderSsrc, sources, sdpParams, blockFor)
  }

  /** `xrFor` makes the engine's XRs: `ReportFor` with these SDP parameters and blocks. */
  ghost predicate MakesReports(xrFor: XrFactory, sdpParams: Option<string>, blockFor: (int, int) -> Option<VoipMetricsBlock>)
  {
    forall senderSsrc, sources {:trigger ReportFor(senderSsrc, sources, sdpParams, blockFor)} ::
      xrFor(senderSsrc, sources) == ReportFor(senderSsrc, sources, sdpParams, blockFor)
  }

  /**
   * What the RTCP packet of `n` bytes at `pos` contributes: for an SR or
   * RR, the XR `xrFor` makes for it, if any, or None when it is shorter than
   * its report count allows; nothing for other packet types.
   */
  function PacketReports(c: seq<Byte>, pos: nat, n: int, xrFor: XrFactory): Option<seq<ExtendedReport>>
    requires 0 < n && pos + n <= |c| && pos + 4 <= |c|
  {
    var pt := c[pos + 1];
    if pt == RR || pt == SR then
      var rc := CountField(c[pos]);
      if n < MinReportLength(pt, rc) then None
      else
        var xr := xrFor(ReadInt(c, pos + 4), SourceSsrcs(c, pos, pt, rc));
        Some(if xr.Some? then [xr.value] else [])
    else Some([])
  }

  /** Two results one after the other; None if either aborted. */
  function Join(a: Option<seq<ExtendedReport>>, b: Option<seq<ExtendedReport>>): Option<seq<ExtendedReport>>
  {
    if a.None? || b.None? then None else Some(a.value + b.value)
  }

  /** Nothing joined in front changes no result. */
  lemma JoinNothing(r: Option<seq<ExtendedReport>>)
    ensures Join(Some([]), r) == r
  {
    if r.Some? {
      assert [] + r.value == r.value;
    }
  }

  /** Joining is associative. */
  lemma JoinAssociates(xs: seq<ExtendedReport>, b: Option<seq<ExtendedReport>>, r: Option<seq<ExtendedReport>>)
    ensures Join(Some(xs), Join(b, r)) == if b.None? then None else Join(Some(xs + b.value), r)
  {
    if b.Some? && r.Some? {
      assert xs + (b.value + r.value) == (xs + b.value) + r.value;
    }
  }

  /**
   * The XRs for the SR and RR packets of the packet from `pos` on, in
   * order; None when an SR or RR is shorter than its report count allows.
   */
  function CollectReports(u: RtcpUtils, c: seq<Byte>, pos: nat, xrFor: XrFactory): Option<seq<ExtendedReport>>
    requires Sound(u) && pos <= |c|
    decreases |c| - pos
  {
    if pos == |c| then Some([])
    else
      var n := GetLengthIfRtcp(u, c, pos, |c| - pos);
      RecognisedHasHeader(u, c, pos);
      if n <= 0 then Some([])
      else Join(PacketReports(c, pos, n, xrFor), CollectReports(u, c, pos + n, xrFor))
  }

  /** Where the packet at `pos` is recognised, its contribution comes first. */
  lemma CollectStep(u: RtcpUtils, c: seq<Byte>, pos: nat, n: int, xrFor: XrFactory)
    requires Sound(u) && pos < |c| && n == GetLengthIfRtcp(u, c, pos, |c| - pos) && n > 0
    ensures pos + n <= |c| && pos + 4 <= |c|
    ensures CollectReports(u, c, pos, xrFor)
         == Join(PacketReports(c, pos, n, xrFor), CollectReports(u, c, pos + n, xrFor))
  {
    RecognisedHasHeader(u, c, pos);
  }

  /** The scan's invariant where the bytes at `pos` are not RTCP: nothing more is found. */
  lemma CollectStops(u: RtcpUtils, c: seq<Byte>, pos: nat, xrFor: XrFactory,
                     found: seq<ExtendedReport>, total: Option<seq<ExtendedReport>>)
    requires Sound(u) && pos < |c| && GetLengthIfRtcp(u, c, pos, |c| - pos) <= 0
    requires total == Join(Some(found), CollectReports(u, c, pos, xrFor))
    ensures total == Some(found)
  {
    assert found + [] == found;
  }

  /** The scan's invariant, carried past the recognised packet at `pos`. */
  lemma CollectAdvance(u: RtcpUtils, c: seq<Byte>, pos: nat, n: int, xrFor: XrFactory,
                       found: seq<ExtendedReport>, here: Option<seq<ExtendedReport>>,
                       total: Option<seq<ExtendedReport>>)
    requires Sound(u) && pos < |c| && n == GetLengthIfRtcp(u, c, pos, |c| - pos) && n > 0
    requires pos + n <= |c| && pos + 4 <= |c| && here == PacketReports(c, pos, n, xrFor)
    requires total == Join(Some(found), CollectReports(u, c, pos, xrFor))
    ensures here.None? ==> total.None?
    ensures here.Some? ==> total == Join(Some(found + here.value), CollectReports(u, c, pos + n, xrFor))
  {
    CollectStep(u, c, pos, n, xrFor);
    JoinAssociates(found, here, CollectReports(u, c, pos + n, xrFor));
  }

  /** Every XR of a result, if any, holds at least one block. */
  ghost predicate HoldBlocks(r: Option<seq<ExtendedReport>>)
  {
    r.Some? ==> forall xr :: xr in r.value ==> |xr.blocks| > 0
  }

  /** The XR made for one SR or RR comes from `ReportFor`, so it holds at least one block. */
  lemma PacketReportsHoldBlocks(c: seq<Byte>, pos: nat, n: int, sdpParams: Option<string>,
                                blockFor: (int, int) -> Option<VoipMetricsBlock>)
    requires 0 < n && pos + n <= |c| && pos + 4 <= |c|
    ensures HoldBlocks(PacketReports(c, pos, n, ReportMaker(sdpParams, blockFor)))
  {
    var pt := c[pos + 1];
    var rc := CountField(c[pos]);
    if (pt == RR || pt == SR) && n >= MinReportLength(pt, rc) {
      ReportForSpec(ReadInt(c, pos + 4), SourceSsrcs(c, pos, pt, rc), sdpParams, blockFor);
    }
  }

  /** Joining two results whose XRs hold blocks gives one whose XRs hold blocks. */
  lemma JoinHoldsBlocks(a: Option<seq<ExtendedReport>>, b: Option<seq<ExtendedReport>>)
    requires HoldBlocks(a) && HoldBlocks(b)
    ensures HoldBlocks(Join(a, b))
  {
  }

  /** The scan's result holds blocks where the recognised packet's and the rest's do. */
  lemma CollectHoldsBlocks(u: RtcpUtils, c: seq<Byte>, pos: nat, n: int, xrFor: XrFactory)
    requires Sound(u) && pos < |c| && n == GetLengthIfRtcp(u, c, pos, |c| - pos) && n > 0
    requires pos + n <= |c| && pos + 4 <= |c|
    requires HoldBlocks(PacketReports(c, pos, n, xrFor)) && HoldBlocks(CollectReports(u, c, pos + n, xrFor))
    ensures HoldBlocks(CollectReports(u, c, pos, xrFor))
  {
    CollectStep(u, c, pos, n, xrFor);
    JoinHoldsBlocks(PacketReports(c, pos, n, xrFor), CollectReports(u, c, pos + n, xrFor));
  }

  /** Every collected XR comes from `ReportFor`, so it holds at least one block. */
  lemma {:induction false} CollectedReportsHoldBlocks(u: RtcpUtils, c: seq<Byte>, pos: nat, sdpParams: Option<string>,
                                                      blockFor: (int, int) -> Option<VoipMetricsBlock>)
    requires Sound(u) && pos <= |c|
    ensures HoldBlocks(CollectReports(u, c, pos, ReportMaker(sdpParams, blockFor)))
    decreases |c| - pos
  {
    var xrFor := ReportMaker(sdpParams, blockFor);
    if pos < |c| {
      var n := GetLengthIfRtcp(u, c, pos, |c| - pos);
      if n > 0 {
        RecognisedHasHeader(u, c, pos);
        PacketReportsHoldBlocks(c, pos, n, sdpParams, blockFor);
        CollectedReportsHoldBlocks(u, c, pos + n, sdpParams, blockFor);
        CollectHoldsBlocks(u, c, pos, n, xrFor);
      } else {
        assert CollectReports(u, c, pos, xrFor) == Some([]);
      }
    } else {
      assert CollectReports(u, c, pos, xrFor) == Some([]);
    }
  }

  /** Reads the source SSRCs of the `rc` report blocks of the SR or RR at `pos`. */
  method ReadSourceSsrcs(c: seq<Byte>, pos: nat, pt: int, rc: nat) returns (sources: seq<int>)
    requires pos + MinReportLength(pt, rc) <= |c|
    ensures sources == SourceSsrcs(c, pos, pt, rc)
  {
    sources := [];
    var receptionReportBlockOff := pos + 2 * 4;
    if pt == SR {
      receptionReportBlockOff := receptionReportBlockOff + 5 * 4;
    }
    var i := 0;
    while i < rc
      invariant 0 <= i <= rc
      invariant receptionReportBlockOff == pos + ReportBlockOffset(pt) + 24 * i
      invariant sources == SourceSsrcs(c, pos, pt, rc)[..i]
    {
      sources := sources + [ReadInt(c, receptionReportBlockOff)];
      receptionReportBlockOff := receptionReportBlockOff + 6 * 4;
      i := i + 1;
    }
  }

  /** The XR, if any, of the RTCP packet of `n` bytes at `pos`; None aborts the scan. */
  method ReportsOfPacket(c: seq<Byte>, pos: nat, n: int, sdpParams: Option<string>,
                         blockFor: (int, int) -> Option<VoipMetricsBlock>, ghost xrFor: XrFactory)
    returns (r: Option<seq<ExtendedReport>>)
    requires 0 < n && pos + n <= |c| && pos + 4 <= |c|
    requires MakesReports(xrFor, sdpParams, blockFor)
    ensures r == PacketReports(c, pos, n, xrFor)
  {
    r := Some([]);
    var pt := c[pos + 1];
    if pt == RR || pt == SR {
      var rc: nat := CountField(c[pos]);
      var minRtcpPktLen := (2 + rc * 6) * 4;
      if pt == SR {
        minRtcpPktLen := minRtcpPktLen + 5 * 4;
      }
      if n < minRtcpPktLen {
        return None;
      }
      var senderSsrc := ReadInt(c, pos + 4);
      var sourceSsrcs := ReadSourceSsrcs(c, pos, pt, rc);
      var xr := CreateRtcpExtendedReport(senderSsrc, sourceSsrcs, sdpParams, blockFor);
      if xr.Some? {
        r := Some([xr.value]);
      }
    }
  }

  /**
   * One step of the scan of `addRTCPExtendedReports` at `off`, where the
   * XRs found so far are `found` and the whole result is `total`: the scan
   * stops at bytes that are not RTCP, aborts at an SR or RR too short for
   * its report count, or moves on to `next` with the packet's XRs.
   */
  method ScanStep(u: RtcpUtils, c: seq<Byte>, off: nat, sdpParams: Option<string>,
                  blockFor: (int, int) -> Option<VoipMetricsBlock>, ghost xrFor: XrFactory,
                  ghost found: seq<ExtendedReport>, ghost total: Option<seq<ExtendedReport>>)
    returns (stop: bool, here: Option<seq<ExtendedReport>>, next: nat)
    requires Sound(u) && off < |c| && MakesReports(xrFor, sdpParams, blockFor)
    requires total == Join(Some(found), CollectReports(u, c, off, xrFor))
    ensures stop ==> total == Some(found)
    ensures !stop && here.None? ==> total.None?
    ensures !stop && here.Some? ==> off < next <= |c| && total == Join(Some(found + here.value), CollectReports(u, c, next, xrFor))
  {
    stop, here, next := false, None, off;
    var rtcpPktLen := GetLengthIfRtcp(u, c, off, |c| - off);
    RecognisedHasHeader(u, c, off);
    if rtcpPktLen <= 0 {
      stop := true;
      CollectStops(u, c, off, xrFor, found, total);
      return;
    }
    here := ReportsOfPacket(c, off, rtcpPktLen, sdpParams, blockFor, xrFor);
    next := off + rtcpPktLen;
    CollectAdvance(u, c, off, rtcpPktLen, xrFor, found, here, total);
  }

  /**
   * The scan of `addRTCPExtendedReports` over the packet's bytes `c`: one
   * XR per SR or RR that has one, in order, or None when an SR or RR is
   * shorter than its report count allows.
   */
  method CollectExtendedReports(u: RtcpUtils, c: seq<Byte>, sdpParams: Option<string>,
                                blockFor: (int, int) -> Option<VoipMetricsBlock>, ghost xrFor: XrFactory)
    returns (reports: Option<seq<ExtendedReport>>)
    requires Sound(u) && MakesReports(xrFor, sdpParams, blockFor)
    ensures reports == CollectReports(u, c, 0, xrFor)
  {
    var found: seq<ExtendedReport> := [];
    var off := 0;
    ghost var total := CollectReports(u, c, 0, xrFor);
    JoinNothing(total);
    while off < |c|
      invariant off <= |c|
      invariant total == Join(Some(found), CollectReports(u, c, off, xrFor))
      decreases |c| - off
    {
      var stop, here, next := ScanStep(u, c, off, sdpParams, blockFor, xrFor, found, total);
      if stop {
        return Some(found);
      }
      if here.None? {
        return None;
      }
      found, off := found + here.value, next;
    }
    assert found + [] == found;
    reports := Some(found);
  }

  /**
   * Creates one XR per SR or RR of the packet and inserts each; returns
   * them, or None when there are none or a report was too short (then the
   * packet is unchanged).
   */
  method AddRtcpExtendedReports(pkt: RawPacket, sdpParams: Option<string>, u: RtcpUtils,
                                blockFor: (int, int) -> Option<VoipMetricsBlock>,
                                assemble: ExtendedReport -> seq<Byte>) returns (xrs: Option<seq<ExtendedReport>>)
    requires Sound(u) && pkt.Valid()
    modifies pkt, pkt.buffer
    ensures pkt.Valid()
    ensures xrs == match CollectReports(u, old(pkt.Contents()), 0, ReportMaker(sdpParams, blockFor))
                   case Some(rs) => if rs == [] then None else Some(rs)
                   case None => None
    ensures xrs.None? ==> pkt.Contents() == old(pkt.Contents())
    ensures xrs.Some? ==> pkt.Contents() == InsertAll(u, old(pkt.Contents()), xrs.value, assemble)
  {
    var collected := CollectExtendedReports(u, pkt.Contents(), sdpParams, blockFor, ReportMaker(sdpParams, blockFor));
    if collected.None? || collected.value == [] {
      return None;
    }
    InsertReports(pkt, u, collected.value, assemble);
    xrs := collected;
  }

  /** Inserts the XRs one after the other, each where `InsertionPoint` says in the packet as it then is. */
  method InsertReports(pkt: RawPacket, u: RtcpUtils, reports: seq<ExtendedReport>,
                       assemble: ExtendedReport -> seq<Byte>)
    requires Sound(u) && pkt.Valid()
    modifies pkt, pkt.buffer
    ensures pkt.Valid()
    ensures pkt.Contents() == InsertAll(u, old(pkt.Contents()), reports, assemble)
  {
    ghost var c := pkt.Contents();
    var j := 0;
    while j < |reports|
      invariant 0 <= j <= |reports| && pkt.Valid()
      invariant pkt.buffer == old(pkt.buffer) || fresh(pkt.buffer)
      invariant pkt.Contents() == InsertAll(u, c, reports[..j], assemble)
    {
      InsertAllStep(u, c, reports, j, assemble);
      var _ := AddRtcpExtendedReport(pkt, reports[j], u, assemble);
      j := j + 1;
    }
    assert reports[..j] == reports;
  }

  // ---------------------------------------------------------------------
  // Burst metrics

  /**
   * The fields of the 64-bit burst-metrics value, at their widths: the
   * durations are 16-bit, the densities and rates 8-bit, all unsigned.
   */
  datatype BurstMetrics = BurstMetrics(gapDuration: bv16, burstDuration: bv16, gapDensity: bv8,
                                       burstDensity: bv8, discardRate: bv8, lossRate: bv8)

  /**
   * Decoding as the engine shifts and masks: bits 0-15 gap duration, 16-31
   * burst duration, 32-39 gap density, 40-47 burst density, 48-55 discard
   * rate, 56-63 loss rate.
   */
  function UnpackBurstMetrics(l: bv64): BurstMetrics
  {
    BurstMetrics((l & 0xFFFF) as bv16, ((l >> 16) & 0xFFFF) as bv16, ((l >> 32) & 0xFF) as bv8,
                 ((l >> 40) & 0xFF) as bv8, ((l >> 48) & 0xFF) as bv8, ((l >> 56) & 0xFF) as bv8)
  }

  /** The packing the decoding inverts: each field in its bit range. */
  function PackBurstMetrics(m: BurstMetrics): bv64
  {
    (m.lossRate as bv64 << 56) | (m.discardRate as bv64 << 48) | (m.burstDensity as bv64 << 40)
    | (m.gapDensity as bv64 << 32) | (m.burstDuration as bv64 << 16) | (m.gapDuration as bv64)
  }

  /** Every bit of the 64-bit value lands in exactly one field. */
  lemma PackUnpack(l: bv64)
    ensures PackBurstMetrics(UnpackBurstMetrics(l)) == l
  {
  }

  /** Decoding recovers every field. */
  lemma UnpackPack(m: BurstMetrics)
    ensures UnpackBurstMetrics(PackBurstMetrics(m)) == m
  {
  }

  // ---------------------------------------------------------------------
  // Per-SSRC counters and jitter

  lemma NonEmptyHasKey(m: map<int, int>)
    requires m != map[]
    ensures exists k :: k in m
  {
    if forall k :: k !in m {
      assert false;
    }
  }

  /** An arbitrary key of a non-empty map, fixed per map. */
  ghost function Pick(m: map<int, int>): (k: int)
    requires exists k :: k in m
    ensures k in m
  {
    var k :| k in m; k
  }

  /** The sum of the values of a map. */
  ghost function SumValues(m: map<int, int>): int
    decreases |m|
  {
    if m == map[] then 0
    else
      NonEmptyHasKey(m);
      var k := Pick(m);
      assert m.Keys - {k} == (m - {k}).Keys;
      m[k] + SumValues(m - {k})
  }

  /** The sum does not depend on the key taken first. */
  lemma {:induction false} SumValuesRemove(m: map<int, int>, k: int)
    requires k in m
    ensures SumValues(m) == m[k] + SumValues(m - {k})
    decreases |m|
  {
    NonEmptyHasKey(m);
    var j := Pick(m);
    assert m.Keys - {j} == (m - {j}).Keys;
    if j != k {
      assert (m - {k}).Keys == m.Keys - {k};
      SumValuesRemove(m - {j}, k);
      SumValuesRemove(m - {k}, j);
      assert m - {j} - {k} == m - {k} - {j};
    }
  }

  /** Setting the value under one key to `x` replaces its share of the sum (0 when absent) by `x`. */
  lemma SumValuesSet(m: map<int, int>, k: int, x: int)
    ensures SumValues(m[k := x]) == SumValues(m) - (if k in m then m[k] else 0) + x
  {
    var m' := m[k := x];
    SumValuesRemove(m', k);
    assert m' - {k} == m - {k};
    if k in m {
      SumValuesRemove(m, k);
    } else {
      assert m - {k} == m;
    }
  }

  /**
   * The counters after adding `step` to the one of `ssrc`: absent counts
   * as 0, the addition wraps as a Java long, and no other counter changes.
   */
  function Incremented(m: map<int, int>, ssrc: int, step: int): (r: map<int, int>)
    requires IsLong(step)
    ensures r.Keys == m.Keys + {ssrc}
    ensures r[ssrc] == ToLong((if ssrc in m then m[ssrc] else 0) + step)
    ensures forall k :: k in m && k != ssrc ==> r[k] == m[k]
  {
    m[ssrc := if ssrc in m then ToLong(m[ssrc] + step) else step]
  }

  /** A map from SSRC to a long counter. */
  class SsrcCounters {
    var values: map<int, int>

    constructor ()
      ensures values == map[]
    {
      values := map[];
    }

    /** Adds `step` to the counter of `ssrc`, starting from 0 when absent. */
    method Increment(ssrc: int, step: int)
      requires IsLong(step)
      modifies this
      ensures values == Incremented(old(values), ssrc, step)
    {
      var count := if ssrc in values then Some(values[ssrc]) else None;
      values := values[ssrc := if count.None? then step else ToLong(count.value + step)];
    }

    /** The counter of `ssrc`; 0 when absent. */
    method Get(ssrc: int) returns (r: int)
      ensures ssrc in values ==> r == values[ssrc]
      ensures ssrc !in values ==> r == 0
    {
      r := if ssrc in values then values[ssrc] else 0;
    }

    /** The sum of all counters, as a Java long. */
    method CumulativeValue() returns (sum: int)
      ensures sum == ToLong(SumValues(values))
    {
      sum := 0;
      var rest := values;
      ghost var done := 0;
      while rest != map[]
        invariant done + SumValues(rest) == SumValues(values)
        invariant sum == ToLong(done)
        decreases |rest|
      {
        NonEmptyHasKey(rest);
        var k :| k in rest;
        SumValuesRemove(rest, k);
        ToLongAdd(done, rest[k]);
        sum, done := ToLong(sum + rest[k]), done + rest[k];
        rest := rest - {k};
      }
    }
  }

  /** Counting up then summing: every increment adds its step to the cumulative value (modulo 2^64). */
  lemma IncrementRaisesCumulative(m: map<int, int>, k: int, step: int)
    requires IsLong(step)
    ensures ToLong(SumValues(Incremented(m, k, step))) == ToLong(ToLong(SumValues(m)) + step)
  {
    var before := if k in m then m[k] else 0;
    var total := SumValues(m);
    var counted := ToLong(before + step);
    assert Incremented(m, k, step) == m[k := counted];
    SumValuesSet(m, k, counted);
    assert SumValues(Incremented(m, k, step)) == counted + (total - before);
    ToLongReplaceTerm(total, before, step);
  }

  /** The least element of a non-empty sequence. */
  function SeqMin(s: seq<int>): (r: int)
    requires s != []
    ensures r in s && forall x :: x in s ==> r <= x
  {
    if |s| == 1 then s[0]
    else var m := SeqMin(s[..|s| - 1]);
      assert forall x :: x in s ==> x in s[..|s| - 1] || x == s[|s| - 1];
      if s[|s| - 1] < m then s[|s| - 1] else m
  }

  /** The greatest element of a non-empty sequence. */
  function SeqMax(s: seq<int>): (r: int)
    requires s != []
    ensures r in s && forall x :: x in s ==> x <= r
  {
    if |s| == 1 then s[0]
    else var m := SeqMax(s[..|s| - 1]);
      assert forall x :: x in s ==> x in s[..|s| - 1] || x == s[|s| - 1];
      if s[|s| - 1] > m then s[|s| - 1] else m
  }

  /** Appending a value to a sequence: its minimum is the least of the old minimum and the value. */
  lemma SeqMinAppend(s: seq<int>, x: int)
    ensures SeqMin(s + [x]) == if s == [] || x < SeqMin(s) then x else SeqMin(s)
  {
    assert (s + [x])[..|s + [x]| - 1] == s;
  }

  /** Appending a value to a sequence: its maximum is the greatest of the old maximum and the value. */
  lemma SeqMaxAppend(s: seq<int>, x: int)
    ensures SeqMax(s + [x]) == if s == [] || x > SeqMax(s) then x else SeqMax(s)
  {
    assert (s + [x])[..|s + [x]| - 1] == s;
  }

  /** The engine's report counters and jitter extremes; `reportedJitters` logs the jitters reported. */
  class Engine {
    const numberOfRtcpReports: SsrcCounters
    const jitterSum: SsrcCounters
    var minInterArrivalJitter: int
    var maxInterArrivalJitter: int
    ghost var reportedJitters: seq<int>

    /**
     * Before any report the minimum is -1 and the maximum 0; afterwards
     * they are the least and greatest jitter reported.
     */
    ghost predicate Valid()
      reads this
    {
      && numberOfRtcpReports != jitterSum
      && (forall i :: 0 <= i < |reportedJitters| ==> 0 <= reportedJitters[i])
      && (reportedJitters == [] ==> minInterArrivalJitter == -1 && maxInterArrivalJitter == 0)
      && (reportedJitters != [] ==>
            && minInterArrivalJitter == SeqMin(reportedJitters)
            && maxInterArrivalJitter == SeqMax(reportedJitters))
    }

    constructor ()
      ensures Valid() && reportedJitters == []
      ensures fresh(numberOfRtcpReports) && fresh(jitterSum)
      ensures numberOfRtcpReports.values == map[] && jitterSum.values == map[]
    {
      numberOfRtcpReports := new SsrcCounters();
      jitterSum := new SsrcCounters();
      minInterArrivalJitter, maxInterArrivalJitter := -1, 0;
      reportedJitters := [];
    }

    /**
     * Accounts for a sent report about `ssrc` with inter-arrival jitter
     * `jitter` (an unsigned 32-bit field): one more report and `jitter`
     * more jitter for that SSRC, and the extremes updated.
     */
    method RecordSentReport(ssrc: int, jitter: int)
      requires Valid() && 0 <= jitter < 0x1_0000_0000
      modifies this, numberOfRtcpReports, jitterSum
      ensures Valid()
      ensures reportedJitters == old(reportedJitters) + [jitter]
      ensures minInterArrivalJitter == SeqMin(reportedJitters) && maxInterArrivalJitter == SeqMax(reportedJitters)
      ensures numberOfRtcpReports.values == Incremented(old(numberOfRtcpReports.values), ssrc, 1)
      ensures jitterSum.values == Incremented(old(jitterSum.values), ssrc, jitter)
    {
      SeqMinAppend(reportedJitters, jitter);
      SeqMaxAppend(reportedJitters, jitter);
      numberOfRtcpReports.Increment(ssrc, 1);
      if jitter < minInterArrivalJitter || minInterArrivalJitter == -1 {
        minInterArrivalJitter := jitter;
      }
      if maxInterArrivalJitter < jitter {
        maxInterArrivalJitter := jitter;
      }
      jitterSum.Increment(ssrc, jitter);
      reportedJitters := reportedJitters + [jitter];
    }
  }
}
