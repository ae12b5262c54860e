/** NAL unit header fields and constants shared by the packetizer and the depacketizer. */
module H264Nalu {
  import opened Bytes

  type Nalu = Octets
  type Packet = Octets

  const STAPA_NALU_TYPE := 24
  const FUA_NALU_TYPE := 28
  const FUB_NALU_TYPE := 29
  const SPS_NALU_TYPE := 7
  const PPS_NALU_TYPE := 8
  const AUD_NALU_TYPE := 9
  const FILLER_NALU_TYPE := 12
  const IDR_NALU_TYPE := 5

  const FUA_HEADER_SIZE := 2
  const STAPA_HEADER_SIZE := 1
  const STAPA_NALU_LENGTH_SIZE := 2

  // The masks 0x1F, 0x60, 0x80 and 0x40, as arithmetic on the byte's value.
  function NaluType(b: uint8): uint8 { b % 0x20 }
  function RefIdc(b: uint8): uint8 { b / 0x20 % 4 * 0x20 }
  predicate FuStart(b: uint8) { b >= 0x80 }
  predicate FuEnd(b: uint8) { b / 0x40 % 2 == 1 }

  /** The FU indicator and FU header made from a unit's first byte give back all of it but the top bit. */
  lemma FuHeaderBits(h: uint8, first: bool, last: bool)
    ensures var indicator := RefIdc(h) + FUA_NALU_TYPE;
            var header := NaluType(h) + (if first then 0x80 else 0) + (if last then 0x40 else 0);
            && indicator < 0x100 && NaluType(indicator) == FUA_NALU_TYPE && RefIdc(indicator) == RefIdc(h)
            && header < 0x100 && NaluType(header) == NaluType(h)
            && (FuStart(header) <==> first) && (FuEnd(header) <==> last)
            && RefIdc(h) + NaluType(h) == h % 0x80
  {
  }

  /** The packet that aggregates `nalus`: a header byte, then each unit behind its 16-bit length. */
  function StapA(nalus: seq<Nalu>): Packet
    requires forall n | n in nalus :: |n| < 0x1_0000
  {
    [0x78] + StapABody(nalus)
  }

  function StapABody(nalus: seq<Nalu>): Octets
    requires forall n | n in nalus :: |n| < 0x1_0000
  {
    if nalus == [] then [] else Be16(|nalus[0]|) + nalus[0] + StapABody(nalus[1..])
  }
}

/** The Annex B scanner: where `EmitNALUs` cuts a buffer into NAL units. */
module AnnexB {
  import opened Bytes
  import opened H264Nalu

  const CODE: Octets := [0, 0, 1]
  const LONG_CODE: Octets := [0, 0, 0, 1]

  predicate CodeAt(p: Octets, i: int) {
    0 <= i && i + 2 < |p| && p[i] == 0 && p[i + 1] == 0 && p[i + 2] == 1
  }

  predicate LongCodeAt(p: Octets, i: int) {
    0 <= i && i + 3 < |p| && p[i] == 0 && p[i + 1] == 0 && p[i + 2] == 0 && p[i + 3] == 1
  }

  /** No start code anywhere inside `p`. */
  ghost predicate CodeFree(p: Octets) {
    forall i :: !CodeAt(p, i)
  }

  predicate StartCoded(p: Octets) {
    CodeAt(p, 0) || LongCodeAt(p, 0)
  }

  /** The first start code at or after `i`, or the end of the buffer. */
  function NextStart(p: Octets, i: nat): (r: nat)
    ensures i <= |p| ==> i <= r <= |p|
    ensures i > |p| ==> r == |p|
    ensures r < |p| ==> CodeAt(p, r)
    ensures forall k :: i <= k < r ==> !CodeAt(p, k)
    decreases |p| - i
  {
    if i >= |p| then |p| else if CodeAt(p, i) then i else NextStart(p, i + 1)
  }

  /** How many bytes of start code precede the unit that begins at `start`. */
  function CodeLength(p: Octets, start: nat): nat {
    if LongCodeAt(p, start) then 4
    else if CodeAt(p, start) then 3
    else if start == 0 then 0
    else 3
  }

  /** A position the scanner's loop can be at: the beginning, or a start code. */
  predicate ScanPoint(p: Octets, start: nat) {
    start == 0 || start == |p| || CodeAt(p, start)
  }

  /** The size subtraction of the source does not wrap, and the scan moves on. */
  lemma ScanProgress(p: Octets, start: nat)
    requires ScanPoint(p, start) && start < |p|
    ensures start + CodeLength(p, start) <= NextStart(p, start + 3) <= |p|
    ensures start < NextStart(p, start + 3)
    ensures ScanPoint(p, NextStart(p, start + 3))
    ensures start > 0 ==> CodeLength(p, start) == 3
  {
    var next := NextStart(p, start + 3);
    if next < |p| && LongCodeAt(p, start) {
      assert next != start + 3;
    }
  }

  /** The units found from `start` on, empty ones included. */
  function SplitFrom(p: Octets, start: nat): seq<Nalu>
    requires ScanPoint(p, start)
    decreases |p| - start
  {
    if start >= |p| then []
    else
      ScanProgress(p, start);
      var next := NextStart(p, start + 3);
      [p[start + CodeLength(p, start)..next]] + SplitFrom(p, next)
  }

  function Split(p: Octets): seq<Nalu> {
    SplitFrom(p, 0)
  }

  /** Units glued together by three-byte start codes. */
  function Join(nalus: seq<Nalu>): Octets {
    if nalus == [] then []
    else if |nalus| == 1 then nalus[0]
    else nalus[0] + CODE + Join(nalus[1..])
  }

  lemma JoinCons(n: Nalu, rest: seq<Nalu>)
    requires rest != []
    ensures Join([n] + rest) == n + CODE + Join(rest)
  {
    assert ([n] + rest)[1..] == rest;
  }

  lemma CutAtCode(p: Octets, from: nat, next: nat)
    requires from <= next && CodeAt(p, next)
    ensures p[from..] == p[from..next] + CODE + p[next + 3..]
  {
    assert p[from..] == p[from..next] + p[next..next + 3] + p[next + 3..];
    assert p[next..next + 3] == CODE;
  }

  /** One step of the scan: the unit at `start` and where the next one's code stands. */
  lemma SplitStep(p: Octets, start: nat)
    requires ScanPoint(p, start) && start < |p|
    ensures var from, next := start + CodeLength(p, start), NextStart(p, start + 3);
            && from <= next <= |p| && start < next && ScanPoint(p, next)
            && SplitFrom(p, start) == [p[from..next]] + SplitFrom(p, next)
            && (next < |p| ==> CodeAt(p, next) && CodeLength(p, next) == 3)
            && (next == |p| ==> SplitFrom(p, next) == [])
  {
    ScanProgress(p, start);
    var next := NextStart(p, start + 3);
    if next < |p| { ScanProgress(p, next); }
  }

  /** The units and the codes between them tile the rest of the buffer. */
  lemma {:induction false} SplitTilesFrom(p: Octets, start: nat)
    requires ScanPoint(p, start) && start < |p|
    ensures start + CodeLength(p, start) <= |p|
    ensures SplitFrom(p, start) != []
    ensures Join(SplitFrom(p, start)) == p[start + CodeLength(p, start)..]
    decreases |p| - start
  {
    hide NextStart, CodeLength, SplitFrom, CodeAt;
    SplitStep(p, start);
    var next := NextStart(p, start + 3);
    var from := start + CodeLength(p, start);
    if next < |p| {
      SplitTilesFrom(p, next);
      JoinCons(p[from..next], SplitFrom(p, next));
      CutAtCode(p, from, next);
    }
  }

  /** The buffer is its leading code followed by the units and the codes between them. */
  lemma SplitTiles(p: Octets)
    requires p != []
    ensures Split(p) != []
    ensures p == p[..CodeLength(p, 0)] + Join(Split(p))
    ensures StartCoded(p) ==> p[..CodeLength(p, 0)] in [CODE, LONG_CODE]
  {
    SplitTilesFrom(p, 0);
    if LongCodeAt(p, 0) {
      assert p[..4] == LONG_CODE;
    } else if CodeAt(p, 0) {
      assert p[..3] == CODE;
    }
  }

  /** A unit cut behind a start code contains no start code. */
  lemma {:induction false} SplitCodeFreeFrom(p: Octets, start: nat)
    requires ScanPoint(p, start)
    requires start == 0 ==> p == [] || StartCoded(p)
    ensures forall n | n in SplitFrom(p, start) :: CodeFree(n)
    decreases |p| - start
  {
    if start < |p| {
      ScanProgress(p, start);
      var next := NextStart(p, start + 3);
      var from := start + CodeLength(p, start);
      forall i ensures !CodeAt(p[from..next], i) {
        if CodeAt(p[from..next], i) {
          assert CodeAt(p, from + i);
        }
      }
      SplitCodeFreeFrom(p, next);
    }
  }

  /** For a start-coded buffer no unit contains a start code. */
  lemma SplitCodeFree(p: Octets)
    requires StartCoded(p)
    ensures forall n | n in Split(p) :: CodeFree(n)
  {
    SplitCodeFreeFrom(p, 0);
  }

  /** Without a leading code the scan misses a code at 1 or 2, and only there: all units are free of
      codes exactly when there is none at those two places. */
  lemma SplitCodeFreeUnheaded(p: Octets)
    requires !StartCoded(p)
    ensures (forall n | n in Split(p) :: CodeFree(n)) <==> !CodeAt(p, 1) && !CodeAt(p, 2)
  {
    if p != [] {
      ScanProgress(p, 0);
      var next := NextStart(p, 3);
      var first := p[..next];
      assert Split(p)[0] == first;
      if next > 0 { SplitCodeFreeFrom(p, next); }
      assert Split(p)[1..] == SplitFrom(p, next);
      forall i ensures CodeAt(first, i) <==> (i == 1 || i == 2) && CodeAt(p, i) {
        if CodeAt(first, i) {
          assert CodeAt(p, i);
        }
        if (i == 1 || i == 2) && CodeAt(p, i) {
          if next < |p| {
            assert next > 2 && CodeAt(p, next);
            assert next >= i + 3;
          }
        }
      }
      if CodeAt(p, 1) {
        assert CodeAt(first, 1);
        assert first in Split(p) && !CodeFree(first);
      }
      if CodeAt(p, 2) {
        assert CodeAt(first, 2);
        assert first in Split(p) && !CodeFree(first);
      }
      if !CodeAt(p, 1) && !CodeAt(p, 2) {
        assert CodeFree(first);
        forall n | n in Split(p) ensures CodeFree(n) {
          assert n == first || n in Split(p)[1..];
        }
      }
    }
  }

  /** In front of a three-byte code, or at the end, the next code is found where the unit stops. */
  lemma NextStartAfter(p: Octets, from: nat, nalu: Nalu)
    requires CodeFree(nalu) && from + |nalu| <= |p| && p[from..from + |nalu|] == nalu
    requires from + |nalu| == |p| || CodeAt(p, from + |nalu|)
    ensures NextStart(p, from) == from + |nalu|
  {
    var end := from + |nalu|;
    forall k | from <= k < end ensures !CodeAt(p, k) {
      assert !CodeAt(nalu, k - from);
      assert p[k] == p[from..end][k - from];
      assert k + 1 < end ==> p[k + 1] == p[from..end][k + 1 - from];
      assert k + 2 < end ==> p[k + 2] == p[from..end][k + 2 - from];
    }
  }

  /** Where the first of the glued units ends, and what follows it. */
  lemma JoinHead(p: Octets, from: nat, nalus: seq<Nalu>)
    requires nalus != [] && from <= |p| && p[from..] == Join(nalus)
    ensures var end := from + |nalus[0]|;
            && end <= |p| && p[from..end] == nalus[0]
            && (|nalus| == 1 ==> end == |p|)
            && (|nalus| > 1 ==> CodeAt(p, end) && p[end + 3..] == Join(nalus[1..]))
  {
    var n := nalus[0];
    var end := from + |n|;
    assert |p| - from == |Join(nalus)|;
    assert p[from..end] == p[from..][..|n|] == n;
    if |nalus| > 1 {
      var w := p[from..][|n|..|n| + 3];
      assert w == CODE;
      assert p[end] == w[0] && p[end + 1] == w[1] && p[end + 2] == w[2];
      assert p[end + 3..] == p[from..][|n| + 3..] == Join(nalus[1..]);
    }
  }

  /** Scanning from a code finds exactly the units that were glued. */
  lemma {:induction false} SplitJoinFrom(p: Octets, start: nat, nalus: seq<Nalu>)
    requires nalus != [] && forall n | n in nalus :: CodeFree(n)
    requires start < |p| && ScanPoint(p, start)
    requires CodeAt(p, start) || (start == 0 && LongCodeAt(p, 0))
    requires start + CodeLength(p, start) <= |p| && p[start + CodeLength(p, start)..] == Join(nalus)
    ensures SplitFrom(p, start) == nalus
    decreases |nalus|
  {
    hide NextStart, SplitFrom, Join, CodeFree;
    var from := start + CodeLength(p, start);
    assert nalus[0] in nalus;
    JoinHead(p, from, nalus);
    NextStartAfter(p, from, nalus[0]);
    SkipCode(p, start);
    SplitStep(p, start);
    if |nalus| > 1 {
      SplitJoinFrom(p, from + |nalus[0]|, nalus[1..]);
    }
    assert nalus == [nalus[0]] + nalus[1..];
  }

  /** Behind a four-byte code the search may as well start at the unit. */
  lemma SkipCode(p: Octets, start: nat)
    requires CodeAt(p, start) || LongCodeAt(p, start)
    ensures NextStart(p, start + 3) == NextStart(p, start + CodeLength(p, start))
  {
    assert LongCodeAt(p, start) ==> !CodeAt(p, start + 3);
  }

  /** Splitting undoes gluing, behind a start code of either length. */
  lemma SplitJoin(lead: Octets, nalus: seq<Nalu>)
    requires lead == CODE || lead == LONG_CODE
    requires nalus != [] && forall n | n in nalus :: CodeFree(n)
    ensures Split(lead + Join(nalus)) == nalus
  {
    var p := lead + Join(nalus);
    assert lead == CODE ==> p[0] == 0 && p[1] == 0 && p[2] == 1;
    assert lead == LONG_CODE ==> p[0] == 0 && p[1] == 0 && p[2] == 0 && p[3] == 1;
    assert p[CodeLength(p, 0)..] == Join(nalus);
    SplitJoinFrom(p, 0, nalus);
  }

  /** Units glued together by four-byte start codes. */
  function LongJoin(nalus: seq<Nalu>): Octets {
    if nalus == [] then []
    else if |nalus| == 1 then nalus[0]
    else nalus[0] + LONG_CODE + LongJoin(nalus[1..])
  }

  /** Every unit but the last gets the byte that a four-byte code adds in front. */
  function WithTrailingZero(nalus: seq<Nalu>): (r: seq<Nalu>)
    ensures nalus != [] ==> r != []
  {
    if |nalus| <= 1 then nalus else [nalus[0] + [0]] + WithTrailingZero(nalus[1..])
  }

  lemma {:induction false} LongJoinAsJoin(nalus: seq<Nalu>)
    requires forall n | n in nalus :: CodeFree(n)
    ensures LongJoin(nalus) == Join(WithTrailingZero(nalus))
    ensures forall n | n in WithTrailingZero(nalus) :: CodeFree(n)
    ensures |WithTrailingZero(nalus)| == |nalus|
  {
    if |nalus| > 1 {
      LongJoinAsJoin(nalus[1..]);
      var n := nalus[0];
      assert n in nalus && CodeFree(n);
      forall i ensures !CodeAt(n + [0], i) {
        assert !CodeAt(n, i);
        assert forall j :: 0 <= j < |n| ==> (n + [0])[j] == n[j];
        assert (n + [0])[|n|] == 0;
      }
      assert CODE == [0, 0, 1] && LONG_CODE == [0] + CODE;
      assert n + LONG_CODE + LongJoin(nalus[1..]) == n + [0] + CODE + LongJoin(nalus[1..]);
      assert WithTrailingZero(nalus)[1..] == WithTrailingZero(nalus[1..]);
    }
  }

  /** With four-byte codes throughout, the scanner leaves each later code's first zero on the unit before it. */
  lemma SplitLongJoin(nalus: seq<Nalu>)
    requires nalus != [] && forall n | n in nalus :: CodeFree(n)
    ensures Split(LONG_CODE + LongJoin(nalus)) == WithTrailingZero(nalus)
  {
    LongJoinAsJoin(nalus);
    SplitJoin(LONG_CODE, WithTrailingZero(nalus));
  }
}

/** `H264Payloader`: NAL units into RTP payloads of at most `mtu` bytes. */
module H264RtpPacketizer {
  import opened Bytes
  import opened H264Nalu
  import AnnexB

  /** The latest parameter sets seen, each `[]` when none is held. */
  datatype Cache = Cache(sps: Nalu, pps: Nalu)

  /** One unit to send, with the settings in force when it is sent. */
  datatype Job = Job(mtu: uint16, stapa: bool, nalu: Nalu)

  datatype Emission = Emission(cache: Cache, packets: seq<Packet>)

  // --- FU-A fragmentation

  /** `mtu - 2` in `size_t`, which wraps for an MTU below the header size. */
  function MaxFragment(mtu: uint16): nat {
    if mtu >= FUA_HEADER_SIZE then mtu - FUA_HEADER_SIZE else mtu - FUA_HEADER_SIZE + 0x1_0000_0000_0000_0000
  }

  function Min(a: nat, b: nat): nat { if a <= b then a else b }

  /** The fragment that carries `nalu[i..i + size]`. */
  function Fragment(nalu: Nalu, i: nat, size: nat): Packet
    requires 1 <= i && i + size <= |nalu|
  {
    [RefIdc(nalu[0]) + FUA_NALU_TYPE,
     NaluType(nalu[0]) + (if i == 1 then 0x80 else 0) + (if i + size == |nalu| then 0x40 else 0)]
    + nalu[i..i + size]
  }

  function FragmentsFrom(max: nat, nalu: Nalu, i: nat): seq<Packet>
    requires max > 0 && 1 <= i <= |nalu|
    decreases |nalu| - i
  {
    if i == |nalu| then []
    else
      var size := Min(max, |nalu| - i);
      [Fragment(nalu, i, size)] + FragmentsFrom(max, nalu, i + size)
  }

  /** The source's fragment loop ends: at MTU 2 it would make no progress on a unit with a body. */
  predicate FragmentationEnds(mtu: uint16, nalu: Nalu) {
    mtu != FUA_HEADER_SIZE || |nalu| <= FUA_HEADER_SIZE
  }

  function Fragments(mtu: uint16, nalu: Nalu): seq<Packet>
    requires mtu != FUA_HEADER_SIZE || |nalu| <= 1
  {
    if |nalu| <= 1 then [] else FragmentsFrom(MaxFragment(mtu), nalu, 1)
  }

  /** The fragment loop's two counters. */
  datatype Turn = Turn(dataIndex: nat, dataRemaining: nat)

  /** The counters after `k` turns of the loop, entered with `t`; a finished loop stays where it is. */
  function Turns(mtu: uint16, t: Turn, k: nat): Turn
    decreases k
  {
    if k == 0 || t.dataRemaining == 0 then t
    else
      var size := Min(MaxFragment(mtu), t.dataRemaining);
      Turns(mtu, Turn(t.dataIndex + size, t.dataRemaining - size), k - 1)
  }

  /** The loop has finished after as many turns as there are fragments, and not before. */
  lemma {:induction false} TurnsAreFragments(mtu: uint16, nalu: Nalu, i: nat, k: nat)
    requires mtu != FUA_HEADER_SIZE && 1 <= i <= |nalu|
    ensures Turns(mtu, Turn(i, |nalu| - i), k).dataRemaining == 0 <==> k >= |FragmentsFrom(MaxFragment(mtu), nalu, i)|
    decreases k
  {
    if i < |nalu| {
      var size := Min(MaxFragment(mtu), |nalu| - i);
      if k > 0 { TurnsAreFragments(mtu, nalu, i + size, k - 1); }
    }
  }

  lemma {:induction false} NoProgress(t: Turn, k: nat)
    ensures Turns(FUA_HEADER_SIZE, t, k) == t
    decreases k
  {
    if k > 0 && t.dataRemaining > 0 { NoProgress(t, k - 1); }
  }

  /** The loop over `nalu` has finished after `k` turns. */
  predicate Finished(mtu: uint16, nalu: Nalu, k: nat)
    requires nalu != []
  {
    Turns(mtu, Turn(1, |nalu| - 1), k).dataRemaining == 0
  }

  /** The fragment loop ends, for any MTU and unit, if and only if the MTU is not 2 or the unit has no body. */
  lemma FragmentLoopEnds(mtu: uint16, nalu: Nalu)
    requires nalu != []
    ensures (exists k: nat :: Finished(mtu, nalu, k)) <==> mtu != FUA_HEADER_SIZE || |nalu| <= 1
  {
    if mtu != FUA_HEADER_SIZE {
      var n := |FragmentsFrom(MaxFragment(mtu), nalu, 1)|;
      TurnsAreFragments(mtu, nalu, 1, n);
      assert Finished(mtu, nalu, n);
    } else {
      forall k: nat ensures Finished(mtu, nalu, k) <==> |nalu| <= 1 { NoProgress(Turn(1, |nalu| - 1), k); }
      assert Finished(mtu, nalu, 0) <==> |nalu| <= 1;
    }
  }

  /** So sending a unit ends, fragmented or not, if and only if the MTU is not 2 or the unit fits it. */
  lemma SendingEnds(mtu: uint16, nalu: Nalu)
    requires nalu != []
    ensures FragmentationEnds(mtu, nalu) <==> |nalu| <= mtu || exists k: nat :: Finished(mtu, nalu, k)
  {
    FragmentLoopEnds(mtu, nalu);
  }

  function Bodies(packets: seq<Packet>): Octets {
    if packets == [] then []
    else (if |packets[0]| < FUA_HEADER_SIZE then [] else packets[0][FUA_HEADER_SIZE..]) + Bodies(packets[1..])
  }

  /** The fragments from `i` on carry the unit's bytes from `i` on, in order. */
  lemma {:induction false} FragmentBodiesFrom(max: nat, nalu: Nalu, i: nat)
    requires max > 0 && 1 <= i <= |nalu|
    ensures Bodies(FragmentsFrom(max, nalu, i)) == nalu[i..]
    decreases |nalu| - i
  {
    if i < |nalu| {
      var size := Min(max, |nalu| - i);
      FragmentBodiesFrom(max, nalu, i + size);
      var first := Fragment(nalu, i, size);
      assert first[FUA_HEADER_SIZE..] == nalu[i..i + size];
      assert FragmentsFrom(max, nalu, i)[1..] == FragmentsFrom(max, nalu, i + size);
      assert nalu[i..] == nalu[i..i + size] + nalu[i + size..];
    }
  }

  /** `count` fragments of at most `max` bytes are what `total` bytes need, no more and no fewer. */
  ghost predicate Needed(total: nat, max: nat, count: int) {
    (count - 1) * max < total <= count * max || (total == 0 && count == 0)
  }

  lemma {:induction false} FragmentCountFrom(max: nat, nalu: Nalu, i: nat)
    requires max > 0 && 1 <= i <= |nalu|
    ensures Needed(|nalu| - i, max, |FragmentsFrom(max, nalu, i)|)
    decreases |nalu| - i
  {
    if i < |nalu| {
      var size := Min(max, |nalu| - i);
      FragmentCountFrom(max, nalu, i + size);
      var rest := |FragmentsFrom(max, nalu, i + size)|;
      assert (rest + 1) * max == rest * max + max && (rest - 1) * max == rest * max - max;
      assert rest == 0 ==> rest * max == 0;
      if size < max { assert i + size == |nalu|; }
    }
  }

  /** A fragment's two header bytes: S when it is the first of the unit, E when it is the last. */
  predicate FragmentHeader(p: Packet, nalu: Nalu, first: bool, last: bool)
    requires nalu != []
  {
    && |p| > FUA_HEADER_SIZE
    && NaluType(p[0]) == FUA_NALU_TYPE && RefIdc(p[0]) == RefIdc(nalu[0])
    && NaluType(p[1]) == NaluType(nalu[0])
    && (FuStart(p[1]) <==> first)
    && (FuEnd(p[1]) <==> last)
  }

  lemma {:induction false} FragmentHeaderAt(max: nat, nalu: Nalu, i: nat, k: nat)
    requires max > 0 && 1 <= i <= |nalu| && k < |FragmentsFrom(max, nalu, i)|
    ensures var ps := FragmentsFrom(max, nalu, i);
            && |ps[k]| <= max + FUA_HEADER_SIZE
            && FragmentHeader(ps[k], nalu, i == 1 && k == 0, k == |ps| - 1)
    decreases k
  {
    hide NaluType, RefIdc, FuStart, FuEnd;
    var size := Min(max, |nalu| - i);
    var rest := FragmentsFrom(max, nalu, i + size);
    assert rest == [] <==> i + size == |nalu|;
    FuHeaderBits(nalu[0], i == 1, i + size == |nalu|);
    if k > 0 {
      FragmentHeaderAt(max, nalu, i + size, k - 1);
    }
  }

  /** RFC 6184 section 5.8: an oversized unit becomes exactly ceil((size - 1) / (mtu - 2)) fragments, at
      least two, each within the MTU, with S on the first only, E on the last only and the body in order. */
  lemma FragmentsShape(mtu: uint16, nalu: Nalu)
    requires mtu >= 3 && |nalu| > mtu
    ensures var ps := Fragments(mtu, nalu);
            && |ps| == (|nalu| - 1 + (mtu - 2) - 1) / (mtu - 2) >= 2
            && Bodies(ps) == nalu[1..]
            && (forall k :: 0 <= k < |ps| ==>
                              |ps[k]| <= mtu && FragmentHeader(ps[k], nalu, k == 0, k == |ps| - 1))
  {
    FragmentBodiesFrom(mtu - 2, nalu, 1);
    FragmentCountFrom(mtu - 2, nalu, 1);
    forall k | 0 <= k < |Fragments(mtu, nalu)|
      ensures var ps := Fragments(mtu, nalu);
              |ps[k]| <= mtu && FragmentHeader(ps[k], nalu, k == 0, k == |ps| - 1)
    {
      FragmentHeaderAt(mtu - 2, nalu, 1, k);
    }
    CeilDivIs(|nalu| - 1, mtu - 2, |Fragments(mtu, nalu)|);
  }

  lemma CeilDivIs(total: nat, max: nat, count: int)
    requires 0 < max < total && Needed(total, max, count)
    ensures count == (total + max - 1) / max >= 2
  {
    var n := total + max - 1;
    var r := n - count * max;
    assert (count - 1) * max == count * max - max;
    assert n == count * max + r && 0 <= r < max;
    if count <= 1 { MulMono(count, 1, max); }
    QuotientUnique(n, max, count, r);
  }

  lemma MulMono(a: int, b: int, m: nat)
    requires a <= b
    ensures a * m <= b * m
  {
  }

  // --- emission

  function StapASize(c: Cache, nalu: Nalu): nat {
    1 + 2 + |c.sps| + 2 + |c.pps| + 2 + |nalu|
  }

  /** The unit goes out in one aggregation packet together with the held parameter sets. */
  predicate Aggregates(c: Cache, j: Job) {
    && j.nalu != []
    && j.stapa
    && NaluType(j.nalu[0]) !in {AUD_NALU_TYPE, FILLER_NALU_TYPE, SPS_NALU_TYPE, PPS_NALU_TYPE}
    && c.sps != [] && c.pps != []
    && StapASize(c, j.nalu) <= j.mtu
  }

  function Remember(c: Cache, j: Job): Cache {
    if j.nalu == [] || !j.stapa then c
    else if NaluType(j.nalu[0]) == SPS_NALU_TYPE then c.(sps := j.nalu)
    else if NaluType(j.nalu[0]) == PPS_NALU_TYPE then c.(pps := j.nalu)
    else c
  }

  function Emit(c: Cache, j: Job): Emission
    requires FragmentationEnds(j.mtu, j.nalu)
  {
    if j.nalu == [] then Emission(c, [])
    else if Aggregates(c, j) then Emission(Cache([], []), [StapA([c.sps, c.pps, j.nalu])])
    else if |j.nalu| <= j.mtu then Emission(Remember(c, j), [j.nalu])
    else Emission(Remember(c, j), Fragments(j.mtu, j.nalu))
  }

  predicate AllEnd(js: seq<Job>) {
    forall j | j in js :: FragmentationEnds(j.mtu, j.nalu)
  }

  function EmitAll(c: Cache, js: seq<Job>): Emission
    requires AllEnd(js)
    decreases |js|
  {
    if js == [] then Emission(c, [])
    else
      var first := Emit(c, js[0]);
      var rest := EmitAll(first.cache, js[1..]);
      Emission(rest.cache, first.packets + rest.packets)
  }

  lemma {:induction false} EmitAllConcat(c: Cache, xs: seq<Job>, ys: seq<Job>)
    requires AllEnd(xs) && AllEnd(ys)
    ensures AllEnd(xs + ys)
    ensures var x := EmitAll(c, xs); var y := EmitAll(x.cache, ys);
            EmitAll(c, xs + ys) == Emission(y.cache, x.packets + y.packets)
    decreases |xs|
  {
    if xs == [] {
      assert xs + ys == ys;
    } else {
      hide Emit, FragmentationEnds;
      var first := Emit(c, xs[0]);
      EmitAllConcat(first.cache, xs[1..], ys);
      assert (xs + ys)[1..] == xs[1..] + ys && (xs + ys)[0] == xs[0];
      var x := EmitAll(first.cache, xs[1..]);
      Regroup(first.packets, x.packets, EmitAll(x.cache, ys).packets);
    }
  }

  function Jobs(mtu: uint16, stapa: bool, nalus: seq<Nalu>): (r: seq<Job>)
    ensures |r| == |nalus|
    ensures forall k :: 0 <= k < |r| ==> r[k] == Job(mtu, stapa, nalus[k])
  {
    seq(|nalus|, k requires 0 <= k < |nalus| => Job(mtu, stapa, nalus[k]))
  }

  lemma EmitStep(c: Cache, mtu: uint16, stapa: bool, n: Nalu, rest: seq<Nalu>)
    requires AllEnd(Jobs(mtu, stapa, [n] + rest))
    ensures FragmentationEnds(mtu, n) && AllEnd(Jobs(mtu, stapa, rest))
    ensures var one := Emit(c, Job(mtu, stapa, n));
            var more := EmitAll(one.cache, Jobs(mtu, stapa, rest));
            EmitAll(c, Jobs(mtu, stapa, [n] + rest)) == Emission(more.cache, one.packets + more.packets)
  {
    var js := Jobs(mtu, stapa, [n] + rest);
    assert js[0] == Job(mtu, stapa, n) && js[0] in js;
    assert js[1..] == Jobs(mtu, stapa, rest);
  }

  /** With packets `r` and cache `c`, sending `js` as well completes `all` behind `sent`. */
  ghost predicate Reaches(r: seq<Packet>, c: Cache, sent: seq<Packet>, all: Emission, js: seq<Job>)
    requires AllEnd(js)
  {
    var todo := EmitAll(c, js);
    r + todo.packets == sent + all.packets && todo.cache == all.cache
  }

  lemma ReachesStep(r: seq<Packet>, c: Cache, sent: seq<Packet>, all: Emission,
                    mtu: uint16, stapa: bool, n: Nalu, rest: seq<Nalu>)
    requires AllEnd(Jobs(mtu, stapa, [n] + rest)) && Reaches(r, c, sent, all, Jobs(mtu, stapa, [n] + rest))
    ensures FragmentationEnds(mtu, n) && AllEnd(Jobs(mtu, stapa, rest))
    ensures var one := Emit(c, Job(mtu, stapa, n));
            Reaches(r + one.packets, one.cache, sent, all, Jobs(mtu, stapa, rest))
  {
    EmitStep(c, mtu, stapa, n, rest);
    var one := Emit(c, Job(mtu, stapa, n));
    var todo := EmitAll(one.cache, Jobs(mtu, stapa, rest));
    assert r + (one.packets + todo.packets) == r + one.packets + todo.packets;
  }

  /** The scanner's loop at `start`, a place where it stops to scan: sending what is split off from there completes `all`. */
  ghost predicate Sending(r: seq<Packet>, c: Cache, sent: seq<Packet>, all: Emission, mtu: uint16, stapa: bool, p: Octets, start: nat) {
    && start <= |p| && AnnexB.ScanPoint(p, start)
    && var js := Jobs(mtu, stapa, AnnexB.SplitFrom(p, start));
       AllEnd(js) && Reaches(r, c, sent, all, js)
  }

  lemma SendingStep(r: seq<Packet>, c: Cache, sent: seq<Packet>, all: Emission, mtu: uint16, stapa: bool, p: Octets, start: nat,
                    from: nat, next: nat, nalu: Nalu)
    requires start < |p| && Sending(r, c, sent, all, mtu, stapa, p, start)
    requires from == start + AnnexB.CodeLength(p, start) <= next == AnnexB.NextStart(p, start + 3) <= |p| && nalu == p[from..next]
    ensures FragmentationEnds(mtu, nalu) && AnnexB.ScanPoint(p, next)
    ensures var one := Emit(c, Job(mtu, stapa, nalu));
            Sending(r + one.packets, one.cache, sent, all, mtu, stapa, p, next)
  {
    hide Emit, Reaches, FragmentationEnds, AnnexB.NextStart, AnnexB.CodeLength, AnnexB.SplitFrom;
    AnnexB.SplitStep(p, start);
    ReachesStep(r, c, sent, all, mtu, stapa, nalu, AnnexB.SplitFrom(p, next));
  }

  lemma SendingStart(c: Cache, sent: seq<Packet>, mtu: uint16, stapa: bool, p: Octets)
    requires forall n | n in AnnexB.Split(p) :: FragmentationEnds(mtu, n)
    ensures AllEnd(Jobs(mtu, stapa, AnnexB.Split(p)))
    ensures Sending(sent, c, sent, EmitAll(c, Jobs(mtu, stapa, AnnexB.Split(p))), mtu, stapa, p, 0)
  {
    hide EmitAll, AnnexB.SplitFrom;
  }

  lemma SendingEnd(r: seq<Packet>, c: Cache, sent: seq<Packet>, all: Emission, mtu: uint16, stapa: bool, p: Octets)
    requires Sending(r, c, sent, all, mtu, stapa, p, |p|)
    ensures r == sent + all.packets && c == all.cache
  {
    assert Jobs(mtu, stapa, AnnexB.SplitFrom(p, |p|)) == [];
    assert r + [] == r;
  }

  /** The fragment loop: what is cut so far, continued at `i`, is the cutting of the whole unit. */
  ghost predicate Cut(packets: seq<Packet>, mtu: uint16, nalu: Nalu, i: nat)
    requires mtu != FUA_HEADER_SIZE && 1 <= i <= |nalu|
  {
    packets + FragmentsFrom(MaxFragment(mtu), nalu, i) == Fragments(mtu, nalu)
  }

  lemma CutStart(mtu: uint16, nalu: Nalu)
    requires mtu != FUA_HEADER_SIZE && |nalu| > 1
    ensures Cut([], mtu, nalu, 1)
  {
    assert [] + Fragments(mtu, nalu) == Fragments(mtu, nalu);
  }

  lemma CutStep(packets: seq<Packet>, mtu: uint16, nalu: Nalu, i: nat, size: nat)
    requires mtu != FUA_HEADER_SIZE && 1 <= i < |nalu| && Cut(packets, mtu, nalu, i)
    requires size == Min(MaxFragment(mtu), |nalu| - i)
    ensures size > 0 && i + size <= |nalu| && Cut(packets + [Fragment(nalu, i, size)], mtu, nalu, i + size)
  {
    hide Fragment;
    Regroup(packets, [Fragment(nalu, i, size)], FragmentsFrom(MaxFragment(mtu), nalu, i + size));
  }

  lemma CutEnd(packets: seq<Packet>, mtu: uint16, nalu: Nalu)
    requires mtu != FUA_HEADER_SIZE && nalu != [] && Cut(packets, mtu, nalu, |nalu|)
    ensures packets == Fragments(mtu, nalu)
  {
    assert packets + [] == packets;
  }

  class H264Payloader {
    var isAvc: bool
    var disableStapA: bool
    var spsNalu: Nalu
    var ppsNalu: Nalu

    constructor ()
      ensures !isAvc && !disableStapA && Held() == Cache([], [])
    {
      isAvc, disableStapA, spsNalu, ppsNalu := false, false, [], [];
    }

    function Held(): Cache
      reads this
    {
      Cache(spsNalu, ppsNalu)
    }

    method SetAVC(avc: bool)
      modifies this`isAvc
      ensures isAvc == avc
    {
      isAvc := avc;
    }

    method DisableSTAPA(disable: bool)
      modifies this`disableStapA
      ensures disableStapA == disable
    {
      disableStapA := disable;
    }

    method SetSPS(nalu: Nalu)
      modifies this`spsNalu
      ensures spsNalu == nalu
    {
      spsNalu := [];
      if |nalu| > 0 { spsNalu := nalu; }
    }

    method SetPPS(nalu: Nalu)
      modifies this`ppsNalu
      ensures ppsNalu == nalu
    {
      ppsNalu := [];
      if |nalu| > 0 { ppsNalu := nalu; }
    }

    method ClearSPSPPS()
      modifies this`spsNalu, this`ppsNalu
      ensures Held() == Cache([], [])
    {
      spsNalu, ppsNalu := [], [];
    }

    method CreateFUAPackets(mtu: uint16, nalu: Nalu) returns (packets: seq<Packet>)
      requires mtu != FUA_HEADER_SIZE || |nalu| <= 1
      ensures packets == Fragments(mtu, nalu)
    {
      packets := [];
      if |nalu| <= 1 { return; }
      var naluType := NaluType(nalu[0]);
      var naluRefIdc := RefIdc(nalu[0]);
      var maxFragmentSize := MaxFragment(mtu);
      var dataRemaining, dataIndex := |nalu| - 1, 1;
      var firstFragment := true;
      CutStart(mtu, nalu);
      hide Fragments, FragmentsFrom, Fragment, Cut, NaluType, RefIdc;
      while dataRemaining > 0
        invariant 1 <= dataIndex && 0 <= dataRemaining && dataIndex + dataRemaining == |nalu|
        invariant firstFragment <==> dataIndex == 1
        invariant Cut(packets, mtu, nalu, dataIndex)
      {
        var currentFragmentSize := Min(maxFragmentSize, dataRemaining);
        CutStep(packets, mtu, nalu, dataIndex, currentFragmentSize);
        var flags := 0;
        if firstFragment {
          flags := flags + 0x80;
          firstFragment := false;
        }
        if dataRemaining == currentFragmentSize {
          flags := flags + 0x40;
        }
        var packet := FillFragment(naluRefIdc, naluType, flags, nalu, dataIndex, currentFragmentSize);
        packets := packets + [packet];
        dataRemaining := dataRemaining - currentFragmentSize;
        dataIndex := dataIndex + currentFragmentSize;
      }
      CutEnd(packets, mtu, nalu);
    }

    method FillFragment(naluRefIdc: uint8, naluType: uint8, flags: nat, nalu: Nalu, dataIndex: nat, size: nat)
      returns (fragment: Packet)
      requires 1 <= dataIndex && dataIndex + size <= |nalu|
      requires naluRefIdc == RefIdc(nalu[0]) && naluType == NaluType(nalu[0])
      requires flags == (if dataIndex == 1 then 0x80 else 0) + (if dataIndex + size == |nalu| then 0x40 else 0)
      ensures fragment == Fragment(nalu, dataIndex, size)
    {
      var packet := new uint8[FUA_HEADER_SIZE + size];
      packet[0], packet[1] := naluRefIdc + FUA_NALU_TYPE, naluType + flags;
      forall k | 0 <= k < size {
        packet[FUA_HEADER_SIZE + k] := nalu[dataIndex + k];
      }
      fragment := packet[..];
    }

    /** Writes one aggregated unit, its 16-bit length first, at `offset`. */
    method PutMember(packet: array<uint8>, offset: nat, nalu: Nalu) returns (end: nat)
      requires |nalu| < 0x1_0000 && offset + 2 + |nalu| <= packet.Length
      modifies packet
      ensures end == offset + 2 + |nalu|
      ensures packet[..end] == old(packet[..offset]) + Be16(|nalu|) + nalu
    {
      var size := |nalu|;
      ghost var before, length := packet[..offset], Be16(size);
      packet[offset] := size / 0x100 % 0x100;
      packet[offset + 1] := size % 0x100;
      assert packet[..offset + 2] == before + length by { assert size / 0x100 % 0x100 == size / 0x100; }
      ghost var head := packet[..offset + 2];
      forall k | 0 <= k < size {
        packet[offset + 2 + k] := nalu[k];
      }
      end := offset + 2 + size;
      assert packet[..offset + 2] == head && packet[offset + 2..end] == nalu;
      assert packet[..end] == packet[..offset + 2] + packet[offset + 2..end];
    }

    method BuildStapA(size: nat, nalu: Nalu) returns (packet: Packet)
      requires size == StapASize(Held(), nalu) < 0x1_0000
      ensures packet == StapA([spsNalu, ppsNalu, nalu])
    {
      var buffer := new uint8[size];
      buffer[0] := 0x78;
      assert buffer[..1] == [0x78];
      var offset := PutMember(buffer, 1, spsNalu);
      assert buffer[..offset] == [0x78] + Be16(|spsNalu|) + spsNalu;
      offset := PutMember(buffer, offset, ppsNalu);
      assert buffer[..offset] == [0x78] + Be16(|spsNalu|) + spsNalu + Be16(|ppsNalu|) + ppsNalu;
      offset := PutMember(buffer, offset, nalu);
      packet := buffer[..];
      assert packet == buffer[..offset];
      StapATriple(spsNalu, ppsNalu, nalu);
    }

    method EmitNALUs(payload: Octets, payloads: seq<Packet>, mtu: uint16) returns (r: seq<Packet>)
      requires forall n | n in AnnexB.Split(payload) :: FragmentationEnds(mtu, n)
      modifies this`spsNalu, this`ppsNalu
      ensures AllEnd(Jobs(mtu, !disableStapA, AnnexB.Split(payload)))
      ensures var e := EmitAll(old(Held()), Jobs(mtu, !disableStapA, AnnexB.Split(payload)));
              r == payloads + e.packets && Held() == e.cache
    {
      r := payloads;
      ghost var stapa := !disableStapA;
      ghost var all := EmitAll(Held(), Jobs(mtu, stapa, AnnexB.Split(payload)));
      SendingStart(Held(), payloads, mtu, stapa, payload);
      var start := 0;
      hide Sending, EmitAll, Emit, Jobs, AllEnd, FragmentationEnds, AnnexB.NextStart, AnnexB.CodeLength, AnnexB.Split;
      while start < |payload|
        invariant 0 <= start <= |payload| && AnnexB.ScanPoint(payload, start)
        invariant Sending(r, Held(), payloads, all, mtu, stapa, payload, start)
      {
        var nextStart := FindNextStart(payload, start);
        var offset := FindOffset(payload, start);
        AnnexB.ScanProgress(payload, start);
        var nalu := payload[start + offset..nextStart];
        SendingStep(r, Held(), payloads, all, mtu, stapa, payload, start, start + offset, nextStart, nalu);
        var more := EmitOne(mtu, nalu);
        r := r + more;
        start := nextStart;
      }
      SendingEnd(r, Held(), payloads, all, mtu, stapa, payload);
    }

    /** The inner search loop of the scanner. */
    method FindNextStart(payload: Octets, start: nat) returns (nextStart: int)
      requires start < |payload| && AnnexB.ScanPoint(payload, start)
      ensures nextStart == AnnexB.NextStart(payload, start + 3)
    {
      nextStart := |payload|;
      var i := start + 3;
      while i < |payload|
        invariant start + 3 <= i && nextStart == |payload|
        invariant AnnexB.NextStart(payload, i) == AnnexB.NextStart(payload, start + 3)
        invariant i > start + 3 ==> !AnnexB.CodeAt(payload, i - 1)
      {
        if i + 2 < |payload| && payload[i] == 0 && payload[i + 1] == 0 && payload[i + 2] == 1 {
          nextStart := i;
          break;
        }
        // Reached by no input: the test above has already matched these three bytes.
        if i + 3 < |payload| && payload[i - 1] == 0 && payload[i] == 0 && payload[i + 1] == 0 && payload[i + 2] == 1 {
          nextStart := i - 1;
          break;
        }
        i := i + 1;
      }
    }

    method FindOffset(payload: Octets, start: nat) returns (offset: nat)
      requires start < |payload|
      ensures offset == AnnexB.CodeLength(payload, start)
    {
      offset := 3;
      if start + 3 < |payload| && payload[start] == 0 && payload[start + 1] == 0
         && payload[start + 2] == 0 && payload[start + 3] == 1 {
        offset := 4;
      } else if start + 2 < |payload| && payload[start] == 0 && payload[start + 1] == 0 && payload[start + 2] == 1 {
        offset := 3;
      } else if start == 0 {
        offset := 0;
      }
    }

    /** The body of the scanner's loop for one unit. */
    method EmitOne(mtu: uint16, nalu: Nalu) returns (packets: seq<Packet>)
      requires FragmentationEnds(mtu, nalu)
      modifies this`spsNalu, this`ppsNalu
      ensures Emission(Held(), packets) == Emit(old(Held()), Job(mtu, !disableStapA, nalu))
    {
      packets := [];
      if |nalu| > 0 {
        var naluType := NaluType(nalu[0]);
        if naluType == AUD_NALU_TYPE || naluType == FILLER_NALU_TYPE {
          // Falls through to the send code below, as in the source.
        } else if !disableStapA && naluType == SPS_NALU_TYPE {
          SetSPS(nalu);
        } else if !disableStapA && naluType == PPS_NALU_TYPE {
          SetPPS(nalu);
        } else if !disableStapA && spsNalu != [] && ppsNalu != [] {
          var stapaSize := 1 + 2 + |spsNalu| + 2 + |ppsNalu| + 2 + |nalu|;
          if stapaSize <= mtu {
            var packet := BuildStapA(stapaSize, nalu);
            packets := [packet];
            spsNalu, ppsNalu := [], [];
            return;
          }
        }
        if |nalu| <= mtu {
          packets := [nalu];
        } else {
          packets := CreateFUAPackets(mtu, nalu);
        }
      }
    }

    method Payload(mtu: uint16, payload: Octets) returns (payloads: seq<Packet>)
      requires forall n | n in AnnexB.Split(payload) :: FragmentationEnds(mtu, n)
      modifies this`spsNalu, this`ppsNalu
      ensures AllEnd(Jobs(mtu, !disableStapA, AnnexB.Split(payload)))
      ensures Emission(Held(), payloads) == EmitAll(old(Held()), Jobs(mtu, !disableStapA, AnnexB.Split(payload)))
    {
      payloads := [];
      if |payload| == 0 {
        assert Jobs(mtu, !disableStapA, AnnexB.Split(payload)) == [];
        return;
      }
      payloads := EmitNALUs(payload, payloads, mtu);
    }
  }

  lemma StapATriple(a: Nalu, b: Nalu, c: Nalu)
    requires |a| < 0x1_0000 && |b| < 0x1_0000 && |c| < 0x1_0000
    ensures StapA([a, b, c]) == [0x78] + Be16(|a|) + a + Be16(|b|) + b + Be16(|c|) + c
  {
    assert [a, b, c][1..] == [b, c] && [b, c][1..] == [c] && [c][1..] == [];
    assert StapABody([c]) == Be16(|c|) + c;
    assert StapABody([b, c]) == Be16(|b|) + b + (Be16(|c|) + c);
    assert StapABody([a, b, c]) == Be16(|a|) + a + (Be16(|b|) + b + (Be16(|c|) + c));
  }
}
