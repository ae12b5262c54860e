/** `H264Packet`: RTP payloads back into NAL units. */
module H264RtpPacket {
  import opened Bytes
  import opened H264Nalu
  import AnnexB

  datatype Error = Ok | NilPacket | ShortPacket | UnhandledNaluType

  /** What one packet yields: a status, the fragmentation buffer after it, and the units packaged. */
  datatype Parsed = Parsed(error: Error, fua: Octets, nalus: seq<Nalu>)

  predicate SingleType(t: uint8) {
    1 <= t <= 12 || 19 <= t <= 23
  }

  /** One unit in the output format: behind the low 32 bits of its length, or behind a start code. */
  function Package(avc: bool, nalu: Nalu): Octets {
    (if avc then BigEndian(|nalu|, 4) else AnnexB.LONG_CODE) + nalu
  }

  function PackageAll(avc: bool, nalus: seq<Nalu>): Octets {
    if nalus == [] then [] else Package(avc, nalus[0]) + PackageAll(avc, nalus[1..])
  }

  lemma {:induction false} PackageAllConcat(avc: bool, xs: seq<Nalu>, ys: seq<Nalu>)
    ensures PackageAll(avc, xs + ys) == PackageAll(avc, xs) + PackageAll(avc, ys)
    decreases |xs|
  {
    if xs == [] {
      assert xs + ys == ys;
    } else {
      PackageAllConcat(avc, xs[1..], ys);
      assert (xs + ys)[1..] == xs[1..] + ys;
    }
  }

  // --- what the output says to a player

  /** A reader of the AVC format: units behind their 32-bit lengths. */
  function AvcUnits(b: Octets): seq<Nalu>
    decreases |b|
  {
    if |b| < 4 then []
    else
      var size := Value(b[..4]);
      if 4 + size > |b| then [] else [b[4..4 + size]] + AvcUnits(b[4 + size..])
  }

  /** In AVC format the units are read back exactly when each is short enough for its length field. */
  lemma {:induction false} AvcReadsBack(nalus: seq<Nalu>)
    ensures AvcUnits(PackageAll(true, nalus)) == nalus <==> forall n | n in nalus :: |n| < 0x1_0000_0000
    decreases |nalus|
  {
    hide Value, BigEndian;
    if nalus != [] {
      var n, rest := nalus[0], PackageAll(true, nalus[1..]);
      var b := PackageAll(true, nalus);
      var size := Value(b[..4]);
      assert b[..4] == BigEndian(|n|, 4) && b[4..] == n + rest;
      LengthField(|n|);
      assert forall m | m in nalus :: m == n || m in nalus[1..];
      assert n in nalus && forall m | m in nalus[1..] :: m in nalus;
      assert nalus == [n] + nalus[1..];
      assert |b[4..4 + size]| == size && AvcUnits(b) == [b[4..4 + size]] + AvcUnits(b[4 + size..]);
      if |n| < 0x1_0000_0000 {
        assert b[4..4 + size] == n && b[4 + size..] == rest;
        AvcReadsBack(nalus[1..]);
        assert AvcUnits(b)[1..] == AvcUnits(rest);
      } else {
        assert |AvcUnits(b)[0]| < |n|;
      }
    }
  }

  lemma LengthField(n: nat)
    ensures if n < 0x1_0000_0000 then Value(BigEndian(n, 4)) == n else Value(BigEndian(n, 4)) < 0x1_0000_0000
  {
    assert Pow256(4) == 0x1_0000_0000 by { assert Pow256(1) == 0x100 && Pow256(2) == 0x1_0000 && Pow256(3) == 0x100_0000; }
    hide Pow256;
    if n < 0x1_0000_0000 { ValueOfBigEndian(n, 4); }
    BigEndianOfValue(BigEndian(n, 4));
  }

  /** In Annex B format the output is the units behind four-byte start codes. */
  lemma {:induction false} AnnexBOutput(nalus: seq<Nalu>)
    requires nalus != []
    ensures PackageAll(false, nalus) == AnnexB.LONG_CODE + AnnexB.LongJoin(nalus)
    decreases |nalus|
  {
    var n, rest := nalus[0], nalus[1..];
    if rest == [] {
      assert PackageAll(false, nalus) == AnnexB.LONG_CODE + n + [];
    } else {
      AnnexBOutput(rest);
      var c := AnnexB.LONG_CODE;
      assert c + n + (c + AnnexB.LongJoin(rest)) == c + (n + c + AnnexB.LongJoin(rest));
    }
  }

  /** `output` gives `nalus` to a player: with AVC to the reader of lengths, exactly when the lengths fit, and without to the
      scanner of start codes, each unit but the last with one zero more, when no unit holds a start code itself. */
  ghost predicate ReadsBack(avc: bool, output: Octets, nalus: seq<Nalu>) {
    if avc then AvcUnits(output) == nalus <==> forall n | n in nalus :: |n| < 0x1_0000_0000
    else if nalus == [] then output == []
    else
      && output == AnnexB.LONG_CODE + AnnexB.LongJoin(nalus)
      && ((forall n | n in nalus :: AnnexB.CodeFree(n)) ==> AnnexB.Split(output) == AnnexB.WithTrailingZero(nalus))
  }

  lemma OutputReadsBack(avc: bool, nalus: seq<Nalu>)
    ensures ReadsBack(avc, PackageAll(avc, nalus), nalus)
  {
    if avc {
      AvcReadsBack(nalus);
    } else if nalus != [] {
      AnnexBOutput(nalus);
      if forall n | n in nalus :: AnnexB.CodeFree(n) { AnnexB.SplitLongJoin(nalus); }
    }
  }

  datatype Walk = Walk(complete: bool, nalus: seq<Nalu>)

  /** The members of an aggregation packet's body; incomplete when a length runs past the end. */
  function Members(r: Octets): Walk {
    if |r| < STAPA_NALU_LENGTH_SIZE then Walk(true, [])
    else
      var size := From16(r[0], r[1]);
      if 2 + size > |r| then Walk(false, [])
      else
        var more := Members(r[2 + size..]);
        Walk(more.complete, [r[2..2 + size]] + more.nalus)
  }

  function Parse(fua: Octets, p: Packet): Parsed {
    if p == [] then Parsed(NilPacket, fua, [])
    else
      var t := NaluType(p[0]);
      if SingleType(t) then Parsed(Ok, fua, [p])
      else if t == STAPA_NALU_TYPE then
        var w := Members(p[1..]);
        Parsed(if w.complete then Ok else ShortPacket, fua, w.nalus)
      else if t == FUA_NALU_TYPE then
        if |p| < FUA_HEADER_SIZE then Parsed(ShortPacket, fua, [])
        else if FuEnd(p[1]) then
          Parsed(Ok, [], [[RefIdc(p[0]) + NaluType(p[1])] + fua + p[2..]])
        else Parsed(Ok, fua + p[2..], [])
      else Parsed(UnhandledNaluType, fua, [])
  }

  /** Reading an aggregation packet gives back the units that were aggregated. */
  lemma {:induction false} MembersOfStapA(nalus: seq<Nalu>)
    requires forall n | n in nalus :: |n| < 0x1_0000
    ensures Members(StapABody(nalus)) == Walk(true, nalus)
  {
    if nalus != [] {
      var n := nalus[0];
      var r := StapABody(nalus);
      assert r[0] == Be16(|n|)[0] && r[1] == Be16(|n|)[1];
      assert r[2..2 + |n|] == n;
      assert r[2 + |n|..] == StapABody(nalus[1..]);
      MembersOfStapA(nalus[1..]);
      assert nalus == [n] + nalus[1..];
    }
  }

  /** The aggregation loop: `output`, with what the walk from `offset` on packages to, is the whole output. */
  ghost predicate StapGoesOn(avc: bool, p: Packet, output: Octets, offset: nat) {
    && 1 <= offset <= |p|
    && var all, left := Members(p[1..]), Members(p[offset..]);
       all.complete == left.complete && PackageAll(avc, all.nalus) == output + PackageAll(avc, left.nalus)
  }

  /** The aggregation loop's answer. */
  ghost predicate StapAnswer(avc: bool, p: Packet, error: Error, output: Octets)
    requires p != []
  {
    var w := Members(p[1..]);
    error == (if w.complete then Ok else ShortPacket) && output == PackageAll(avc, w.nalus)
  }

  lemma StapStart(avc: bool, p: Packet)
    requires p != []
    ensures StapGoesOn(avc, p, [], 1)
  {
    hide Members, PackageAll;
    var all := PackageAll(avc, Members(p[1..]).nalus);
    assert [] + all == all;
  }

  lemma StapEnds(avc: bool, p: Packet, output: Octets)
    requires StapGoesOn(avc, p, output, |p|)
    ensures StapAnswer(avc, p, Ok, output)
  {
    assert Members(p[|p|..]) == Walk(true, []);
    assert output + [] == output;
  }

  /** One turn of the loop: the end, an overrun, or one more member. */
  lemma StapTurn(avc: bool, p: Packet, output: Octets, offset: nat)
    requires StapGoesOn(avc, p, output, offset)
    ensures if offset + 2 > |p| then StapAnswer(avc, p, Ok, output)
            else
              var end := offset + 2 + From16(p[offset], p[offset + 1]);
              if end > |p| then StapAnswer(avc, p, ShortPacket, output)
              else StapGoesOn(avc, p, output + Package(avc, p[offset + 2..end]), end)
  {
    hide Package;
    var r := p[offset..];
    assert output + [] == output;
    if offset + 2 > |p| {
      assert Members(r) == Walk(true, []);
    } else {
      var size := From16(p[offset], p[offset + 1]);
      if offset + 2 + size > |p| {
        assert Members(r) == Walk(false, []);
      } else {
        StapStep(avc, p, output, offset, size, p[offset + 2..offset + 2 + size]);
      }
    }
  }

  lemma StapStep(avc: bool, p: Packet, output: Octets, offset: nat, size: nat, nalu: Nalu)
    requires offset + 2 + size <= |p| && StapGoesOn(avc, p, output, offset)
    requires size == From16(p[offset], p[offset + 1]) && nalu == p[offset + 2..offset + 2 + size]
    ensures StapGoesOn(avc, p, output + Package(avc, nalu), offset + 2 + size)
  {
    hide Package;
    var r := p[offset..];
    assert r[2..2 + size] == nalu && r[2 + size..] == p[offset + 2 + size..];
    var more := Members(r[2 + size..]);
    assert Members(r) == Walk(more.complete, [nalu] + more.nalus);
    hide Members;
    assert ([nalu] + more.nalus)[1..] == more.nalus;
    Regroup(output, Package(avc, nalu), PackageAll(avc, more.nalus));
  }

  class H264Packet {
    var isAvc: bool
    var fuaBuffer: Octets

    constructor ()
      ensures !isAvc && fuaBuffer == []
    {
      isAvc, fuaBuffer := false, [];
    }

    method SetAVC(avc: bool)
      modifies this`isAvc
      ensures isAvc == avc
    {
      isAvc := avc;
    }

    static method PushLength(buffer: Octets, length: nat) returns (r: Octets)
      ensures r == buffer + BigEndian(length, 4)
    {
      BigEndian4(length);
      var b0, b1, b2, b3 := length / 0x100_0000 % 0x100, length / 0x1_0000 % 0x100, length / 0x100 % 0x100, length % 0x100;
      assert BigEndian(length, 4) == [b0, b1, b2, b3];
      r := buffer + [b0];
      r := r + [b1];
      r := r + [b2];
      r := r + [b3];
    }

    method DoPackaging(buffer: Octets, nalu: Nalu) returns (r: Octets)
      ensures r == buffer + Package(isAvc, nalu)
    {
      if isAvc {
        r := PushLength(buffer, |nalu|);
      } else {
        r := buffer + AnnexB.LONG_CODE;
      }
      r := r + nalu;
    }

    /** The aggregation loop: packages members until the body ends or a length overruns it. */
    method ParseStapA(payload: Packet) returns (error: Error, output: Octets)
      requires |payload| >= 1
      ensures StapAnswer(isAvc, payload, error, output)
    {
      hide Members, PackageAll, Package, From16, StapGoesOn, StapAnswer;
      output := [];
      var currentOffset := STAPA_HEADER_SIZE;
      StapStart(isAvc, payload);
      while currentOffset < |payload|
        invariant 1 <= currentOffset <= |payload|
        invariant StapGoesOn(isAvc, payload, output, currentOffset)
      {
        StapTurn(isAvc, payload, output, currentOffset);
        if currentOffset + STAPA_NALU_LENGTH_SIZE > |payload| { return Ok, output; }
        var naluSize := From16(payload[currentOffset], payload[currentOffset + 1]);
        currentOffset := currentOffset + STAPA_NALU_LENGTH_SIZE;
        if currentOffset + naluSize > |payload| { return ShortPacket, output; }
        var nalu := payload[currentOffset..currentOffset + naluSize];
        output := DoPackaging(output, nalu);
        currentOffset := currentOffset + naluSize;
      }
      StapEnds(isAvc, payload, output);
      return Ok, output;
    }

    method ParseBody(payload: Packet) returns (error: Error, output: Octets)
      requires |payload| >= 1
      modifies this`fuaBuffer
      ensures var r := Parse(old(fuaBuffer), payload);
              error == r.error && fuaBuffer == r.fua && output == PackageAll(isAvc, r.nalus)
    {
      output := [];
      var naluType := NaluType(payload[0]);
      if 1 <= naluType <= 12 || 19 <= naluType <= 23 {
        output := DoPackaging(output, payload);
        return Ok, output;
      }
      if naluType == STAPA_NALU_TYPE {
        error, output := ParseStapA(payload);
        return;
      }
      if naluType == FUA_NALU_TYPE {
        if |payload| < FUA_HEADER_SIZE { return ShortPacket, output; }
        fuaBuffer := fuaBuffer + payload[FUA_HEADER_SIZE..];
        if FuEnd(payload[1]) {
          var complete := [RefIdc(payload[0]) + NaluType(payload[1])] + fuaBuffer;
          assert complete == [RefIdc(payload[0]) + NaluType(payload[1])] + old(fuaBuffer) + payload[2..];
          output := DoPackaging(output, complete);
          fuaBuffer := [];
        }
        return Ok, output;
      }
      return UnhandledNaluType, output;
    }

    /** An empty packet leaves the caller's output alone; any other replaces it. */
    method Unmarshal(payload: Packet, output: Octets) returns (error: Error, newOutput: Octets)
      modifies this`fuaBuffer
      ensures var r := Parse(old(fuaBuffer), payload);
              && error == r.error && fuaBuffer == r.fua
              && newOutput == (if payload == [] then output else PackageAll(isAvc, r.nalus))
    {
      if |payload| == 0 { return NilPacket, output; }
      error, newOutput := ParseBody(payload);
    }

    static method IsPartitionHead(payload: Packet) returns (r: bool)
      ensures r <==> |payload| >= 2 && (NaluType(payload[0]) in {FUA_NALU_TYPE, FUB_NALU_TYPE} ==> FuStart(payload[1]))
    {
      if |payload| < 2 { return false; }
      var naluType := NaluType(payload[0]);
      if naluType == FUA_NALU_TYPE || naluType == FUB_NALU_TYPE {
        return FuStart(payload[1]);
      }
      return true;
    }
  }
}

/** `H264Depacketizer::IsKeyFrame`, the second reader of aggregation packets. */
module H264RtpDepacketizer {
  import opened Bytes
  import opened H264Nalu

  /** The keyframe test's own walk over an aggregation packet's body. */
  predicate KeyWalk(r: Octets) {
    && |r| > STAPA_NALU_LENGTH_SIZE
    && (|| NaluType(r[2]) == IDR_NALU_TYPE
        || (var size := From16(r[0], r[1]); 2 + size <= |r| && KeyWalk(r[2 + size..])))
  }

  predicate KeyFrame(p: Packet) {
    p != [] &&
    var t := NaluType(p[0]);
    || t == IDR_NALU_TYPE
    || (t == STAPA_NALU_TYPE && |p| >= 3 && KeyWalk(p[1..]))
    || (t == FUA_NALU_TYPE && |p| >= 2 && FuStart(p[1]) && NaluType(p[1]) == IDR_NALU_TYPE)
  }

  method IsKeyFrame(payload: Packet) returns (r: bool)
    ensures r <==> KeyFrame(payload)
  {
    if |payload| < 1 { return false; }
    var naluType := NaluType(payload[0]);
    if naluType == IDR_NALU_TYPE { return true; }
    if naluType == STAPA_NALU_TYPE && |payload| >= 3 {
      var currentOffset := STAPA_HEADER_SIZE;
      while currentOffset + STAPA_NALU_LENGTH_SIZE < |payload|
        invariant 1 <= currentOffset
        invariant KeyWalk(payload[1..]) <==> currentOffset <= |payload| && KeyWalk(payload[currentOffset..])
        decreases |payload| - currentOffset
      {
        ghost var rest := payload[currentOffset..];
        var naluSize := From16(payload[currentOffset], payload[currentOffset + 1]);
        currentOffset := currentOffset + STAPA_NALU_LENGTH_SIZE;
        if currentOffset < |payload| && NaluType(payload[currentOffset]) == IDR_NALU_TYPE {
          return true;
        }
        currentOffset := currentOffset + naluSize;
        assert currentOffset <= |payload| ==> rest[2 + naluSize..] == payload[currentOffset..];
      }
    }
    if naluType == FUA_NALU_TYPE && |payload| >= 2 {
      var isStart := FuStart(payload[1]);
      if isStart && NaluType(payload[1]) == IDR_NALU_TYPE { return true; }
    }
    return false;
  }

  /** What the walk reads as a unit header for member `k`: its first byte, or, when it is empty, the high
      length byte of the member after it. */
  predicate ReadsIdr(nalus: seq<Nalu>, k: nat)
    requires k < |nalus|
  {
    if nalus[k] != [] then NaluType(nalus[k][0]) == IDR_NALU_TYPE
    else k + 1 < |nalus| && |nalus[k + 1]| / 0x100 % 0x20 == IDR_NALU_TYPE
  }

  lemma ReadsIdrHead(nalus: seq<Nalu>)
    requires nalus != [] && forall n | n in nalus :: |n| < 0x1_0000
    ensures var r := StapABody(nalus);
            && |r| >= 2 && From16(r[0], r[1]) == |nalus[0]| && 2 + |nalus[0]| <= |r|
            && r[2 + |nalus[0]|..] == StapABody(nalus[1..])
            && (|r| > 2 && NaluType(r[2]) == IDR_NALU_TYPE <==> ReadsIdr(nalus, 0))
  {
    var n := nalus[0];
    var tail := StapABody(nalus[1..]);
    var r := StapABody(nalus);
    assert r == Be16(|n|) + n + tail;
    assert r[0] == Be16(|n|)[0] && r[1] == Be16(|n|)[1];
    if n != [] {
      assert r[2] == n[0];
    } else if tail != [] {
      assert tail[0] == Be16(|nalus[1]|)[0];
      assert |nalus[1]| / 0x100 < 0x100;
      assert r[2] == tail[0];
    }
  }

  /** Exactly when the walk answers yes on an aggregation packet. */
  lemma {:induction false} KeyWalkExact(nalus: seq<Nalu>)
    requires forall n | n in nalus :: |n| < 0x1_0000
    ensures KeyWalk(StapABody(nalus)) <==> exists k :: 0 <= k < |nalus| && ReadsIdr(nalus, k)
  {
    if nalus != [] {
      var rest := nalus[1..];
      ReadsIdrHead(nalus);
      KeyWalkExact(rest);
      forall k | 0 <= k < |rest| ensures ReadsIdr(rest, k) <==> ReadsIdr(nalus, k + 1) {
      }
      if k :| 0 <= k < |rest| && ReadsIdr(rest, k) {
        assert ReadsIdr(nalus, k + 1);
      }
      if k :| 0 <= k < |nalus| && ReadsIdr(nalus, k) && k != 0 {
        assert ReadsIdr(rest, k - 1);
      }
    }
  }

  /** On an aggregation of non-empty units the walk finds an IDR unit exactly when there is one. */
  lemma KeyWalkOfStapA(nalus: seq<Nalu>)
    requires forall n | n in nalus :: 0 < |n| < 0x1_0000
    ensures KeyWalk(StapABody(nalus)) <==> exists n | n in nalus :: NaluType(n[0]) == IDR_NALU_TYPE
  {
    KeyWalkExact(nalus);
    if n :| n in nalus && NaluType(n[0]) == IDR_NALU_TYPE {
      var k :| 0 <= k < |nalus| && nalus[k] == n;
      assert ReadsIdr(nalus, k);
    }
  }

  /** Some member is an IDR unit. */
  predicate HasIdr(nalus: seq<Nalu>) {
    exists k :: 0 <= k < |nalus| && nalus[k] != [] && NaluType(nalus[k][0]) == IDR_NALU_TYPE
  }

  /** Member `k` is empty, and the length of the one behind it passes for the header of an IDR unit. */
  predicate Misleads(nalus: seq<Nalu>, k: nat) {
    k + 1 < |nalus| && nalus[k] == [] && |nalus[k + 1]| / 0x100 % 0x20 == IDR_NALU_TYPE
  }

  /** The walk is wrong, on any aggregation packet, exactly when no member is an IDR unit and an empty one misleads it. */
  lemma KeyWalkWrongExactly(nalus: seq<Nalu>)
    requires forall n | n in nalus :: |n| < 0x1_0000
    ensures KeyWalk(StapABody(nalus)) != HasIdr(nalus) <==> !HasIdr(nalus) && exists k :: 0 <= k < |nalus| && Misleads(nalus, k)
  {
    hide KeyWalk, StapABody;
    KeyWalkExact(nalus);
    forall k | 0 <= k < |nalus| ensures ReadsIdr(nalus, k) <==>
        (nalus[k] != [] && NaluType(nalus[k][0]) == IDR_NALU_TYPE) || Misleads(nalus, k) {
    }
  }

  /** An empty member can make a packet without IDR units pass for a keyframe: 0x0500 is read as a header. */
  lemma KeyWalkMisledByEmptyMember(nalus: seq<Nalu>)
    requires forall n | n in nalus :: |n| < 0x1_0000
    requires |nalus| == 2 && nalus[0] == [] && |nalus[1]| == 0x500 && nalus[1][0] == 1
    ensures KeyWalk(StapABody(nalus))
    ensures forall n | n in nalus && n != [] :: NaluType(n[0]) != IDR_NALU_TYPE
  {
    hide KeyWalk, StapABody;
    KeyWalkExact(nalus);
    assert ReadsIdr(nalus, 0);
  }
}
