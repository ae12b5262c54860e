/** The browser's `H264Packet.parseBody`: the depacketizer that survives lost fragments. */
module H264Resync {
  import opened Bytes
  import opened H264Nalu
  import opened H264RtpPacket
  import Sender = H264RtpPacketizer

  const MAX_FUA_BUFFER_SIZE := 1024 * 1024

  // --- one packet

  /** The members of an aggregation packet up to the first unusable one; in order if there is none, or something came
      before it. */
  function WalkMembers(r: Octets, found: bool): Walk {
    if r == [] then Walk(true, [])
    else if |r| < STAPA_NALU_LENGTH_SIZE then Walk(found, [])
    else
      var size := From16(r[0], r[1]);
      if size == 0 || 2 + size > |r| then Walk(found, [])
      else
        var more := WalkMembers(r[2 + size..], true);
        Walk(more.complete, [r[2..2 + size]] + more.nalus)
  }

  function StepFragment(buffer: Octets, p: Packet): Parsed
    requires p != []
  {
    if |p| < FUA_HEADER_SIZE then Parsed(ShortPacket, buffer, [])
    else if NaluType(p[1]) > 23 then Parsed(UnhandledNaluType, [], [])
    else if !FuStart(p[1]) && buffer == [] then Parsed(ShortPacket, [], [])
    else
      var kept := if FuStart(p[1]) then [] else buffer;
      if |kept| + |p| > MAX_FUA_BUFFER_SIZE then Parsed(ShortPacket, [], [])
      else if FuEnd(p[1]) then Parsed(Ok, [], [[RefIdc(p[0]) + NaluType(p[1])] + (kept + p[2..])])
      else Parsed(Ok, kept + p[2..], [])
  }

  function Step(buffer: Octets, p: Packet): Parsed {
    if p == [] then Parsed(NilPacket, buffer, [])
    else
      var t := NaluType(p[0]);
      if SingleType(t) then
        if (t == SPS_NALU_TYPE || t == PPS_NALU_TYPE) && |p| < 4 then Parsed(ShortPacket, buffer, [])
        else Parsed(Ok, buffer, [p])
      else if t == STAPA_NALU_TYPE then
        var w := WalkMembers(p[1..], false);
        Parsed(if w.complete then Ok else ShortPacket, buffer, w.nalus)
      else if t == FUA_NALU_TYPE then StepFragment(buffer, p)
      else Parsed(UnhandledNaluType, buffer, [])
  }

  /** The aggregation loop: `output`, with what the walk from `offset` on packages to, is the whole output. */
  ghost predicate WalkGoesOn(avc: bool, p: Packet, output: Octets, found: bool, offset: nat) {
    && 1 <= offset <= |p|
    && var all, left := WalkMembers(p[1..], false), WalkMembers(p[offset..], found);
       all.complete == left.complete && PackageAll(avc, all.nalus) == output + PackageAll(avc, left.nalus)
  }

  /** The aggregation loop's answer. */
  ghost predicate WalkAnswer(avc: bool, p: Packet, complete: bool, output: Octets)
    requires p != []
  {
    complete == WalkMembers(p[1..], false).complete && output == PackageAll(avc, WalkMembers(p[1..], false).nalus)
  }

  lemma WalkStart(avc: bool, p: Packet)
    requires p != []
    ensures WalkGoesOn(avc, p, [], false, 1)
  {
    hide WalkMembers, PackageAll;
    var all := PackageAll(avc, WalkMembers(p[1..], false).nalus);
    assert [] + all == all;
  }

  /** No usable member at `offset`. */
  lemma WalkStops(avc: bool, p: Packet, output: Octets, found: bool, offset: nat)
    requires offset < |p| && WalkGoesOn(avc, p, output, found, offset)
    requires offset + 2 > |p| || From16(p[offset], p[offset + 1]) == 0
             || offset + 2 + From16(p[offset], p[offset + 1]) > |p|
    ensures WalkAnswer(avc, p, found, output)
  {
    assert WalkMembers(p[offset..], found) == Walk(found, []);
    assert output + [] == output;
  }

  lemma WalkStep(avc: bool, p: Packet, output: Octets, found: bool, offset: nat, size: nat, nalu: Nalu)
    requires offset + 2 + size <= |p| && WalkGoesOn(avc, p, output, found, offset)
    requires size == From16(p[offset], p[offset + 1]) > 0 && nalu == p[offset + 2..offset + 2 + size]
    ensures WalkGoesOn(avc, p, output + Package(avc, nalu), true, offset + 2 + size)
  {
    hide Package;
    var r := p[offset..];
    assert r[2..2 + size] == nalu && r[2 + size..] == p[offset + 2 + size..];
    var more := WalkMembers(r[2 + size..], true);
    assert WalkMembers(r, found) == Walk(more.complete, [nalu] + more.nalus);
    hide WalkMembers;
    assert ([nalu] + more.nalus)[1..] == more.nalus;
    Regroup(output, Package(avc, nalu), PackageAll(avc, more.nalus));
  }

  lemma WalkEnd(avc: bool, p: Packet, output: Octets, found: bool)
    requires p != [] && WalkGoesOn(avc, p, output, found, |p|)
    ensures WalkAnswer(avc, p, true, output)
  {
    assert p[|p|..] == [] && output + [] == output;
  }

  lemma PackageFew(avc: bool, n: Nalu)
    ensures PackageAll(avc, []) == [] && PackageAll(avc, [n]) == [] + Package(avc, n)
  {
    assert PackageAll(avc, [n]) == Package(avc, n) + PackageAll(avc, []);
  }

  class ResyncPacket {
    var isAvc: bool
    var fuaBuffer: Octets

    constructor ()
      ensures !isAvc && fuaBuffer == []
    {
      isAvc, fuaBuffer := false, [];
    }

    method DoPackaging(buffer: Octets, nalu: Nalu) returns (r: Octets)
      ensures r == buffer + Package(isAvc, nalu)
    {
      if isAvc {
        r := H264Packet.PushLength(buffer, |nalu|);
      } else {
        r := buffer + AnnexB.LONG_CODE;
      }
      ghost var prefix := r;
      for i := 0 to |nalu|
        invariant r == prefix + nalu[..i]
      {
        r := r + [nalu[i]];
      }
      assert nalu[..|nalu|] == nalu;
    }

    method ParseStapA(payload: Packet) returns (error: Error, output: Octets)
      requires |payload| >= 1
      ensures var w := WalkMembers(payload[1..], false);
              error == (if w.complete then Ok else ShortPacket) && output == PackageAll(isAvc, w.nalus)
    {
      var complete;
      complete, output := WalkStapA(payload);
      error := if complete then Ok else ShortPacket;
    }

    method WalkStapA(payload: Packet) returns (validNaluFound: bool, output: Octets)
      requires |payload| >= 1
      ensures WalkAnswer(isAvc, payload, validNaluFound, output)
    {
      hide WalkMembers, PackageAll, Package, From16, WalkGoesOn, WalkAnswer;
      output := [];
      var currentOffset := STAPA_HEADER_SIZE;
      validNaluFound := false;
      WalkStart(isAvc, payload);
      while currentOffset < |payload|
        invariant 1 <= currentOffset <= |payload|
        invariant WalkGoesOn(isAvc, payload, output, validNaluFound, currentOffset)
      {
        if currentOffset + STAPA_NALU_LENGTH_SIZE > |payload| {
          WalkStops(isAvc, payload, output, validNaluFound, currentOffset);
          return;
        }
        var naluSize := From16(payload[currentOffset], payload[currentOffset + 1]);
        if naluSize == 0 || currentOffset + STAPA_NALU_LENGTH_SIZE + naluSize > |payload| {
          WalkStops(isAvc, payload, output, validNaluFound, currentOffset);
          return;
        }
        ghost var offset := currentOffset;
        currentOffset := currentOffset + STAPA_NALU_LENGTH_SIZE;
        var nalu := payload[currentOffset..currentOffset + naluSize];
        WalkStep(isAvc, payload, output, validNaluFound, offset, naluSize, nalu);
        output := DoPackaging(output, nalu);
        validNaluFound := true;
        currentOffset := currentOffset + naluSize;
      }
      WalkEnd(isAvc, payload, output, validNaluFound);
      return true, output;
    }

    method ParseFragment(payload: Packet) returns (error: Error, output: Octets)
      requires |payload| >= 1
      modifies this`fuaBuffer
      ensures var r := StepFragment(old(fuaBuffer), payload);
              error == r.error && fuaBuffer == r.fua && output == PackageAll(isAvc, r.nalus)
    {
      output := [];
      assert PackageAll(isAvc, []) == [];
      if |payload| < FUA_HEADER_SIZE { return ShortPacket, output; }
      hide PackageAll, Package;
      var fuFlags := payload[1];
      var isStart, isEnd := FuStart(fuFlags), FuEnd(fuFlags);
      var fragmentedNaluType := NaluType(fuFlags);
      if fragmentedNaluType > 23 {
        fuaBuffer := [];
        return UnhandledNaluType, output;
      }
      if isStart {
        if |fuaBuffer| > 0 { fuaBuffer := []; }
      } else if |fuaBuffer| == 0 {
        return ShortPacket, output;
      }
      if |fuaBuffer| + |payload| > MAX_FUA_BUFFER_SIZE {
        fuaBuffer := [];
        return ShortPacket, output;
      }
      fuaBuffer := fuaBuffer + payload[FUA_HEADER_SIZE..];
      if isEnd {
        var naluRefIdc := RefIdc(payload[0]);
        var completeNalu := Rebuild(naluRefIdc + fragmentedNaluType);
        PackageFew(isAvc, completeNalu);
        output := DoPackaging(output, completeNalu);
        fuaBuffer := [];
      }
      return Ok, output;
    }

    method Rebuild(header: uint8) returns (completeNalu: Nalu)
      ensures completeNalu == [header] + fuaBuffer
    {
      completeNalu := [header];
      for i := 0 to |fuaBuffer|
        invariant completeNalu == [header] + fuaBuffer[..i]
      {
        completeNalu := completeNalu + [fuaBuffer[i]];
      }
      assert fuaBuffer[..|fuaBuffer|] == fuaBuffer;
    }

    method Unmarshal(payload: Packet, output: Octets) returns (error: Error, newOutput: Octets)
      modifies this`fuaBuffer
      ensures var r := Step(old(fuaBuffer), payload);
              && error == r.error && fuaBuffer == r.fua
              && newOutput == (if payload == [] then output else PackageAll(isAvc, r.nalus))
    {
      if |payload| == 0 { return NilPacket, output; }
      newOutput := [];
      var naluType := NaluType(payload[0]);
      if 1 <= naluType <= 12 || 19 <= naluType <= 23 {
        if (naluType == SPS_NALU_TYPE || naluType == PPS_NALU_TYPE) && |payload| < 4 { return ShortPacket, newOutput; }
        newOutput := DoPackaging(newOutput, payload);
        return Ok, newOutput;
      }
      if naluType == STAPA_NALU_TYPE {
        error, newOutput := ParseStapA(payload);
        return;
      }
      if naluType == FUA_NALU_TYPE {
        error, newOutput := ParseFragment(payload);
        return;
      }
      return UnhandledNaluType, newOutput;
    }
  }

  /** Units aggregated by the sender, none of them empty, are all read back. */
  lemma {:induction false} WalkOfStapA(nalus: seq<Nalu>, found: bool)
    requires forall n | n in nalus :: 0 < |n| < 0x1_0000
    ensures WalkMembers(StapABody(nalus), found) == Walk(true, nalus)
    decreases |nalus|
  {
    if nalus != [] {
      var n, r := nalus[0], StapABody(nalus);
      assert n in nalus && forall m | m in nalus[1..] :: m in nalus;
      assert r[0] == Be16(|n|)[0] && r[1] == Be16(|n|)[1] && r[2..2 + |n|] == n && r[2 + |n|..] == StapABody(nalus[1..]);
      WalkOfStapA(nalus[1..], true);
      assert nalus == [n] + nalus[1..];
    }
  }

  // --- any sequence of arrivals

  function BufferAfter(ps: seq<Packet>): Octets {
    if ps == [] then [] else Step(BufferAfter(ps[..|ps| - 1]), ps[|ps| - 1]).fua
  }

  /** All units emitted, in order. */
  function Emitted(ps: seq<Packet>): seq<Nalu> {
    if ps == [] then []
    else Emitted(ps[..|ps| - 1]) + Step(BufferAfter(ps[..|ps| - 1]), ps[|ps| - 1]).nalus
  }

  predicate IsFragment(p: Packet) {
    |p| >= FUA_HEADER_SIZE && NaluType(p[0]) == FUA_NALU_TYPE
  }

  type Fragment = p: Packet | IsFragment(p) witness [FUA_NALU_TYPE, 0]

  /** The fragments among the arrivals; everything else leaves the buffer alone. */
  function FragmentsOf(ps: seq<Packet>): seq<Fragment>
  {
    if ps == [] then []
    else FragmentsOf(ps[..|ps| - 1]) + if IsFragment(ps[|ps| - 1]) then [ps[|ps| - 1]] else []
  }

  function Bodies(fs: seq<Fragment>): Octets { Sender.Bodies(fs) }

  lemma {:induction false} BodiesAppend(fs: seq<Fragment>, p: Fragment)
    ensures Bodies(fs + [p]) == Bodies(fs) + p[2..]
    decreases |fs|
  {
    if fs == [] {
      assert fs + [p] == [p] && Bodies([p]) == p[2..] + Bodies([]);
    } else {
      BodiesAppend(fs[1..], p);
      assert (fs + [p])[1..] == fs[1..] + [p] && (fs + [p])[0] == fs[0];
    }
  }

  /** `fs[m]` is the most recent start, and nothing since has made the receiver give up: usable types, no end before the
      last fragment, a body in the start if anything follows it, and within the cap at every fragment. */
  ghost predicate Sound(fs: seq<Fragment>, m: nat)
  {
    && m < |fs| && FuStart(fs[m][1])
    && (m < |fs| - 1 ==> |fs[m]| > FUA_HEADER_SIZE)
    && (forall k | m < k < |fs| :: !FuStart(fs[k][1]))
    && (forall k | m <= k < |fs| - 1 :: !FuEnd(fs[k][1]))
    && (forall k | m <= k < |fs| :: NaluType(fs[k][1]) <= 23)
    && (forall k | m <= k < |fs| :: |Bodies(fs[m..k])| + |fs[k]| <= MAX_FUA_BUFFER_SIZE)
  }

  ghost predicate Open(fs: seq<Fragment>, m: nat)
  {
    Sound(fs, m) && !FuEnd(fs[|fs| - 1][1]) && |fs[m]| > FUA_HEADER_SIZE
  }

  ghost predicate Complete(fs: seq<Fragment>, m: nat)
  {
    Sound(fs, m) && FuEnd(fs[|fs| - 1][1])
  }

  /** The last fragment either starts afresh or continues an open run. */
  lemma SoundStep(fs: seq<Fragment>, p: Fragment, m: nat)
    ensures Sound(fs + [p], m) <==>
            NaluType(p[1]) <= 23 &&
            if m == |fs| then FuStart(p[1]) && |p| <= MAX_FUA_BUFFER_SIZE
            else m < |fs| && Open(fs, m) && !FuStart(p[1]) && |Bodies(fs[m..])| + |p| <= MAX_FUA_BUFFER_SIZE
  {
    hide Sender.Bodies, NaluType, FuStart, FuEnd;
    var gs, n := fs + [p], |fs|;
    assert gs[n] == p && forall k | 0 <= k < n :: gs[k] == fs[k];
    if m < n {
      assert forall k | m <= k <= n :: gs[m..k] == fs[m..k];
      assert fs[m..n] == fs[m..];
    } else if m == n {
      assert gs[m..n] == [] && Bodies([]) == [] by { NoBodies(); }
    }
  }

  lemma NoBodies()
    ensures Bodies([]) == []
  {
  }

  /** Some run of fragments is open. */
  ghost predicate HasOpen(fs: seq<Fragment>)
  {
    exists m: nat :: Open(fs, m)
  }

  /** The buffer, said without running the receiver. */
  ghost predicate Holds(buffer: Octets, fs: seq<Fragment>)
  {
    && (forall m: nat | Open(fs, m) :: buffer == Bodies(fs[m..]) && buffer != [])
    && (!HasOpen(fs) ==> buffer == [])
  }

  lemma OpenUnique(fs: seq<Fragment>, m: nat, k: nat)
    requires Sound(fs, m) && Sound(fs, k)
    ensures m == k
  {
  }

  lemma OpenShows(fs: seq<Fragment>, m: nat)
    requires Open(fs, m)
    ensures HasOpen(fs)
  {
  }

  lemma OpenHasBody(fs: seq<Fragment>, m: nat)
    requires Open(fs, m)
    ensures Bodies(fs[m..]) != []
  {
    assert fs[m..][0] == fs[m];
  }

  /** What stays of the buffer when `p` arrives, and whether `p` is taken. */
  function Kept(buffer: Octets, p: Fragment): Octets
  {
    if FuStart(p[1]) then [] else buffer
  }

  predicate Taken(buffer: Octets, p: Fragment)
  {
    NaluType(p[1]) <= 23 && (FuStart(p[1]) || buffer != []) && |Kept(buffer, p)| + |p| <= MAX_FUA_BUFFER_SIZE
  }

  lemma TakenFrom(buffer: Octets, fs: seq<Fragment>, p: Fragment, k: nat)
    requires Holds(buffer, fs)
    requires k == |fs| || Open(fs, k)
    ensures k <= |fs| && (Sound(fs + [p], k) ==> Taken(buffer, p) && Bodies((fs + [p])[k..]) == Kept(buffer, p) + p[2..])
    ensures Taken(buffer, p) && (FuStart(p[1]) <==> k == |fs|) ==> Sound(fs + [p], k)
  {
    hide Sender.Bodies, NaluType, FuStart, FuEnd;
    var n := |fs|;
    SoundStep(fs, p, k);
    if k == n {
      assert (fs + [p])[k..] == [p];
      BodiesAppend([], p);
      NoBodies();
      assert [] + [p] == [p] && [] + p[2..] == p[2..];
    } else {
      assert (fs + [p])[k..] == fs[k..] + [p];
      BodiesAppend(fs[k..], p);
    }
    hide Bodies;
  }

  /** A fragment is taken exactly when it belongs to a sound run, and then the run's bodies are what is kept and its own. */
  lemma TakenExactly(buffer: Octets, fs: seq<Fragment>, p: Fragment)
    requires Holds(buffer, fs)
    ensures Taken(buffer, p) <==> exists k: nat :: Sound(fs + [p], k)
    ensures forall k: nat | Sound(fs + [p], k) :: Bodies((fs + [p])[k..]) == Kept(buffer, p) + p[2..]
  {
    hide NaluType, FuStart, FuEnd, Bodies;
    var n := |fs|;
    TakenFrom(buffer, fs, p, n);
    forall k: nat | Sound(fs + [p], k)
      ensures Taken(buffer, p) && Bodies((fs + [p])[k..]) == Kept(buffer, p) + p[2..]
    {
      SoundStep(fs, p, k);
      TakenFrom(buffer, fs, p, k);
    }
    if Taken(buffer, p) && !FuStart(p[1]) {
      var k: nat :| Open(fs, k);
      TakenFrom(buffer, fs, p, k);
    }
  }

  /** One fragment: from a buffer that holds what the fragments say, it emits a unit exactly when it completes a sound run,
      with the run's bodies behind the header, and again leaves what the fragments say. */
  lemma FragmentStep(buffer: Octets, fs: seq<Fragment>, p: Fragment)
    requires Holds(buffer, fs)
    ensures var r, gs := StepFragment(buffer, p), fs + [p];
            && Holds(r.fua, gs)
            && (r.nalus == [] || (exists m: nat :: Complete(gs, m)))
            && (forall m: nat | Complete(gs, m) :: r.nalus == [[RefIdc(p[0]) + NaluType(p[1])] + Bodies(gs[m..])])
  {
    hide Sound, NaluType, FuStart, FuEnd, RefIdc, Bodies, StepFragment, Taken, Kept;
    TakenExactly(buffer, fs, p);
    Outcome(buffer, p);
    var r, gs := StepFragment(buffer, p), fs + [p];
    assert gs[|gs| - 1] == p;
    if Taken(buffer, p) {
      var k: nat :| Sound(gs, k);
      forall j: nat | Sound(gs, j) ensures j == k { OpenUnique(gs, k, j); }
      SoundShape(gs, k);
      if FuEnd(p[1]) {
        assert Complete(gs, k);
      } else if |gs[k]| > FUA_HEADER_SIZE {
        OpenHasBody(gs, k);
        assert HasOpen(gs) by { OpenShows(gs, k); }
      } else {
        assert gs[k] == p;
        StartKeepsNothing(buffer, p);
        assert p[2..] == [];
      }
    }
  }

  lemma Outcome(buffer: Octets, p: Fragment)
    ensures var r, all := StepFragment(buffer, p), Kept(buffer, p) + p[2..];
            if !Taken(buffer, p) then r.fua == [] && r.nalus == []
            else if FuEnd(p[1]) then r.fua == [] && r.nalus == [[RefIdc(p[0]) + NaluType(p[1])] + all]
            else r.fua == all && r.nalus == []
  {
  }

  lemma StartKeepsNothing(buffer: Octets, p: Fragment)
    requires FuStart(p[1])
    ensures Kept(buffer, p) == []
  {
  }

  lemma SoundShape(fs: seq<Fragment>, m: nat)
    requires Sound(fs, m)
    ensures m < |fs| && FuStart(fs[m][1]) && (m < |fs| - 1 ==> |fs[m]| > FUA_HEADER_SIZE && !FuStart(fs[|fs| - 1][1]))
  {
  }

  /** Over every sequence of arrivals, whatever was lost, repeated or mixed in, the buffer is exactly the bodies of all
      fragments since the most recent start, as long as that run is sound, and empty otherwise. */
  lemma {:induction false} BufferExactly(ps: seq<Packet>)
    ensures Holds(BufferAfter(ps), FragmentsOf(ps))
    decreases |ps|
  {
    hide Sound, StepFragment;
    if ps != [] {
      var front, p := ps[..|ps| - 1], ps[|ps| - 1];
      BufferExactly(front);
      if IsFragment(p) {
        FragmentStep(BufferAfter(front), FragmentsOf(front), p);
      } else {
        NotAFragment(BufferAfter(front), p);
        assert FragmentsOf(ps) == FragmentsOf(front);
      }
    } else {
      assert forall m: nat :: !Open([], m) by { NeverOpen(); }
    }
  }

  lemma NeverOpen()
    ensures forall m: nat :: !Open([], m)
  {
  }

  lemma NotAFragment(buffer: Octets, p: Packet)
    requires !IsFragment(p)
    ensures Step(buffer, p).fua == buffer
  {
  }

  /** A fragment makes the receiver emit exactly when it completes a sound run since the most recent start; the unit is that
      run's bodies behind the header, never a byte from before the start. */
  lemma EmittedExactly(ps: seq<Packet>, p: Fragment)
    ensures var r, gs := Step(BufferAfter(ps), p), FragmentsOf(ps) + [p];
            && (r.nalus == [] || (exists m: nat :: Complete(gs, m)))
            && (forall m: nat | Complete(gs, m) :: r.nalus == [[RefIdc(p[0]) + NaluType(p[1])] + Bodies(gs[m..])])
  {
    hide Sound, StepFragment;
    BufferExactly(ps);
    FragmentStep(BufferAfter(ps), FragmentsOf(ps), p);
  }

  /** Over every sequence of arrivals the buffer stays below the cap, by at least the two header bytes. */
  lemma {:induction false} BufferBounded(ps: seq<Packet>)
    ensures |BufferAfter(ps)| <= MAX_FUA_BUFFER_SIZE - FUA_HEADER_SIZE
    decreases |ps|
  {
    if ps != [] { BufferBounded(ps[..|ps| - 1]); }
  }

  // --- recovery

  lemma {:induction false} BodiesUpTo(fs: seq<Fragment>, k: nat)
    requires k < |fs|
    ensures |Bodies(fs[..k])| + |fs[k]| - FUA_HEADER_SIZE <= |Bodies(fs)|
    ensures k == |fs| - 1 ==> |Bodies(fs[..k])| + |fs[k]| - FUA_HEADER_SIZE == |Bodies(fs)|
    decreases |fs|
  {
    var n := |fs| - 1;
    assert fs == fs[..n] + [fs[n]];
    BodiesAppend(fs[..n], fs[n]);
    if k < n {
      assert fs[..n][..k] == fs[..k];
      BodiesUpTo(fs[..n], k);
    }
  }

  lemma {:induction false} FragmentsConcat(ps: seq<Packet>, qs: seq<Fragment>)
    ensures FragmentsOf(ps + qs) == FragmentsOf(ps) + qs
    decreases |qs|
  {
    if qs == [] {
      assert ps + qs == ps && FragmentsOf(ps) + [] == FragmentsOf(ps);
    } else {
      var n := |qs| - 1;
      assert (ps + qs)[..|ps| + n] == ps + qs[..n];
      FragmentsConcat(ps, qs[..n]);
      assert FragmentsOf(ps) + qs[..n] + [qs[n]] == FragmentsOf(ps) + qs by { assert qs == qs[..n] + [qs[n]]; }
    }
  }

  /** The fragments of one unit: S on the first only, E on the last only, a usable type, a body in each. */
  ghost predicate WholeUnit(qs: seq<Fragment>) {
    && qs != []
    && forall k | 0 <= k < |qs| ::
         && |qs[k]| > FUA_HEADER_SIZE && NaluType(qs[k][1]) <= 23
         && (FuStart(qs[k][1]) <==> k == 0) && (FuEnd(qs[k][1]) <==> k == |qs| - 1)
  }

  lemma WholeUnitAlone(fs: seq<Fragment>, qs: seq<Fragment>)
    requires WholeUnit(qs)
    ensures forall m: nat | Sound(fs + qs, m) :: m == |fs|
  {
    hide Sender.Bodies, NaluType, FuStart, FuEnd, Bodies;
    var gs, n := fs + qs, |fs|;
    assert forall k | n <= k < |gs| :: gs[k] == qs[k - n];
    assert FuStart(gs[n][1]) && forall k | n < k < |gs| :: !FuStart(gs[k][1]);
  }

  /** Every fragment of the unit fits just when the last one does. */
  lemma WholeUnitFits(fs: seq<Fragment>, qs: seq<Fragment>)
    requires qs != []
    ensures var gs := fs + qs;
            (forall k | |fs| <= k < |gs| :: |Bodies(gs[|fs|..k])| + |gs[k]| <= MAX_FUA_BUFFER_SIZE)
            <==> |Bodies(qs)| + FUA_HEADER_SIZE <= MAX_FUA_BUFFER_SIZE
  {
    hide Sender.Bodies, Bodies, IsFragment;
    var gs, n := fs + qs, |fs|;
    forall k | n <= k < |gs|
      ensures |Bodies(gs[n..k])| + |gs[k]| <= |Bodies(qs)| + FUA_HEADER_SIZE
      ensures k == |gs| - 1 ==> |Bodies(gs[n..k])| + |gs[k]| == |Bodies(qs)| + FUA_HEADER_SIZE
    {
      assert gs[n..k] == qs[..k - n] && gs[k] == qs[k - n];
      BodiesUpTo(qs, k - n);
    }
    var last := |gs| - 1;
    assert |Bodies(gs[n..last])| + |gs[last]| == |Bodies(qs)| + FUA_HEADER_SIZE;
  }

  lemma WholeUnitSound(fs: seq<Fragment>, qs: seq<Fragment>)
    requires WholeUnit(qs)
    ensures Complete(fs + qs, |fs|) <==> |Bodies(qs)| + FUA_HEADER_SIZE <= MAX_FUA_BUFFER_SIZE
  {
    WholeUnitFits(fs, qs);
    hide Sender.Bodies, NaluType, FuStart, FuEnd, Bodies, IsFragment;
    var gs, n := fs + qs, |fs|;
    assert forall k | n <= k < |gs| :: gs[k] == qs[k - n];
  }

  /** Until the last fragment of a unit has come, nothing is emitted. */
  lemma {:induction false} SilentUntilEnd(history: seq<Packet>, qs: seq<Fragment>, k: nat)
    requires WholeUnit(qs) && k < |qs|
    ensures Emitted(history + qs[..k]) == Emitted(history)
    decreases k
  {
    hide Sound, StepFragment, Step, NaluType, FuStart, FuEnd;
    if k == 0 {
      assert history + qs[..0] == history;
    } else {
      var front, p := history + qs[..k - 1], qs[k - 1];
      SilentUntilEnd(history, qs, k - 1);
      assert (history + qs[..k])[..|history| + k - 1] == front && (history + qs[..k])[|history| + k - 1] == p;
      EmittedExactly(front, p);
      assert (FragmentsOf(front) + [p])[|FragmentsOf(front)|] == p;
      assert Step(BufferAfter(front), p).nalus == [];
      assert Emitted(front) + [] == Emitted(front);
    }
  }

  lemma Snoc(history: seq<Packet>, qs: seq<Fragment>)
    requires qs != []
    ensures var front, p := history + qs[..|qs| - 1], qs[|qs| - 1];
            && Emitted(history + qs) == Emitted(front) + Step(BufferAfter(front), p).nalus
            && FragmentsOf(front) + [p] == FragmentsOf(history) + qs == FragmentsOf(history + qs)
  {
    hide Step;
    var n := |qs| - 1;
    var ps, front, p := history + qs, history + qs[..n], qs[n];
    assert ps[..|history| + n] == front && ps[|history| + n] == p;
    FragmentsConcat(history, qs);
    FragmentsConcat(history, qs[..n]);
    assert qs == qs[..n] + [p];
    Regroup(FragmentsOf(history), qs[..n], [p]);
  }

  /** Recovery: after any history at all, the fragments of one unit that arrive together yield that unit and nothing else,
      exactly when its body is at most 1 MiB less the two header bytes, and leave the buffer empty in any case. */
  lemma Recovers(history: seq<Packet>, qs: seq<Fragment>)
    requires WholeUnit(qs)
    ensures var last := qs[|qs| - 1];
            Emitted(history + qs) == Emitted(history)
            + if |Bodies(qs)| <= MAX_FUA_BUFFER_SIZE - FUA_HEADER_SIZE then [[RefIdc(last[0]) + NaluType(last[1])] + Bodies(qs)] else []
    ensures BufferAfter(history + qs) == []
  {
    hide Sound, Step, NaluType, FuStart, FuEnd, Bodies, BufferAfter, FragmentsOf, RefIdc, Emitted, IsFragment, Sender.Bodies;
    var n := |qs| - 1;
    var fs, front, p := FragmentsOf(history), history + qs[..n], qs[n];
    Snoc(history, qs);
    WholeUnitSound(fs, qs);
    WholeUnitAlone(fs, qs);
    assert (fs + qs)[|fs|..] == qs && (fs + qs)[|fs + qs| - 1] == p && FuEnd(p[1]);
    SilentUntilEnd(history, qs, n);
    EmittedExactly(front, p);
    BufferExactly(history + qs);
    assert !HasOpen(fs + qs);
  }

  /** The fragments the server makes of a unit. */
  lemma FragmentsOfUnit(mtu: uint16, nalu: Nalu) returns (qs: seq<Fragment>)
    requires mtu != FUA_HEADER_SIZE && |nalu| >= 2
    ensures qs == Sender.Fragments(mtu, nalu) != [] && Bodies(qs) == nalu[1..]
    ensures if NaluType(nalu[0]) <= 23 then WholeUnit(qs) else AllRefused(qs)
    ensures var last := qs[|qs| - 1]; RefIdc(last[0]) == RefIdc(nalu[0]) && NaluType(last[1]) == NaluType(nalu[0])
  {
    var max, ps := Sender.MaxFragment(mtu), Sender.Fragments(mtu, nalu);
    Sender.FragmentBodiesFrom(max, nalu, 1);
    assert ps == Sender.FragmentsFrom(max, nalu, 1);
    hide Sender.Fragments, Sender.FragmentsFrom, NaluType, RefIdc, FuStart, FuEnd, Sender.Bodies;
    forall k | 0 <= k < |ps| ensures Sender.FragmentHeader(ps[k], nalu, k == 0, k == |ps| - 1) {
      Sender.FragmentHeaderAt(max, nalu, 1, k);
    }
    assert forall p | p in ps :: IsFragment(p);
    qs := ps;
    if qs == [] { BodiesOfNone(qs); }
    assert Sender.FragmentHeader(ps[|ps| - 1], nalu, |ps| - 1 == 0, true);
  }

  lemma BodiesOfNone(qs: seq<Fragment>)
    requires qs == []
    ensures Bodies(qs) == []
  {
  }

  /** Fragments of a type the browser does not take. */
  predicate AllRefused(qs: seq<Fragment>) {
    forall q | q in qs :: NaluType(q[1]) > 23
  }

  /** They empty the buffer and yield nothing. */
  lemma {:induction false} Refused(history: seq<Packet>, qs: seq<Fragment>)
    requires AllRefused(qs)
    ensures Emitted(history + qs) == Emitted(history)
    ensures qs != [] ==> BufferAfter(history + qs) == []
    decreases |qs|
  {
    hide NaluType, FuStart, FuEnd, RefIdc;
    if qs == [] {
      assert history + qs == history;
    } else {
      var n := |qs| - 1;
      var front, q := history + qs[..n], qs[n];
      assert (history + qs)[..|history| + n] == front && (history + qs)[|history| + n] == q;
      assert q in qs && forall p | p in qs[..n] :: p in qs;
      Refused(history, qs[..n]);
      RefusedFragment(BufferAfter(front), q);
      assert Emitted(front) + [] == Emitted(front);
    }
  }

  lemma RefusedFragment(buffer: Octets, q: Fragment)
    requires NaluType(q[1]) > 23
    ensures Step(buffer, q) == Parsed(UnhandledNaluType, [], [])
  {
  }

  /** What the browser emits for it. */
  function Recovered(nalu: Nalu): seq<Nalu>
    requires nalu != []
  {
    if NaluType(nalu[0]) <= 23 && |nalu| < MAX_FUA_BUFFER_SIZE then [[nalu[0] % 0x80] + nalu[1..]] else []
  }

  lemma AfterFragments(history: seq<Packet>, mtu: uint16, nalu: Nalu)
    requires mtu != FUA_HEADER_SIZE && |nalu| >= 2
    ensures Emitted(history + Sender.Fragments(mtu, nalu)) == Emitted(history) + Recovered(nalu)
    ensures BufferAfter(history + Sender.Fragments(mtu, nalu)) == []
  {
    hide Sender.Fragments, WholeUnit, AllRefused, NaluType, FuStart, FuEnd, RefIdc, Bodies, Emitted, BufferAfter, Sender.Bodies;
    HeaderRebuilt(nalu);
    var qs := FragmentsOfUnit(mtu, nalu);
    if NaluType(nalu[0]) <= 23 {
      Recovers(history, qs);
    } else {
      Refused(history, qs);
      assert Emitted(history) + [] == Emitted(history);
    }
  }

  /** What the browser makes of a unit the server has fragmented, after any losses before it: the unit with its top bit
      cleared when its type is at most 23 and it is shorter than 1 MiB, and nothing otherwise. So it recovers the unit itself
      exactly when also that bit was clear. */
  lemma FragmentedUnitSurvives(history: seq<Packet>, mtu: uint16, nalu: Nalu)
    requires mtu != FUA_HEADER_SIZE && |nalu| >= 2
    ensures var after := Emitted(history + Sender.Fragments(mtu, nalu));
            && after == Emitted(history) + Recovered(nalu)
            && (after == Emitted(history) + [nalu]
                <==> NaluType(nalu[0]) <= 23 && |nalu| < MAX_FUA_BUFFER_SIZE && nalu[0] < 0x80)
    ensures BufferAfter(history + Sender.Fragments(mtu, nalu)) == []
  {
    hide Sender.Fragments, NaluType, RefIdc, Emitted, BufferAfter;
    AfterFragments(history, mtu, nalu);
    HeaderRebuilt(nalu);
    Longer(Emitted(history), [nalu[0] % 0x80] + nalu[1..], nalu);
  }

  lemma HeaderRebuilt(nalu: Nalu)
    requires nalu != []
    ensures [RefIdc(nalu[0]) + NaluType(nalu[0])] + nalu[1..] == [nalu[0] % 0x80] + nalu[1..]
    ensures [nalu[0] % 0x80] + nalu[1..] == nalu <==> nalu[0] < 0x80
  {
    FuHeaderBits(nalu[0], true, true);
    var n := [nalu[0] % 0x80] + nalu[1..];
    assert n[0] == nalu[0] % 0x80 && nalu == [nalu[0]] + nalu[1..];
  }

  lemma Longer(before: seq<Nalu>, n: Nalu, nalu: Nalu)
    ensures before + [n] == before + [nalu] <==> n == nalu
    ensures before + [] == before && before != before + [nalu]
  {
    assert (before + [n])[|before|] == n && (before + [nalu])[|before|] == nalu;
    assert |before + [nalu]| == |before| + 1;
  }
}
