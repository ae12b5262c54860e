/** What the browser's receiver emits for every kind of packet, and for everything the server sends. */
module H264Browser {
  import opened Bytes
  import opened H264Nalu
  import opened H264RtpPacketizer
  import opened H264RtpPacket
  import opened H264EndToEnd
  import Browser = H264Resync

  // --- one packet, after any history

  /** One more packet: what it adds, and what it leaves. */
  lemma Arrive(ps: seq<Packet>, p: Packet)
    ensures var r := Browser.Step(Browser.BufferAfter(ps), p);
            Browser.Emitted(ps + [p]) == Browser.Emitted(ps) + r.nalus && Browser.BufferAfter(ps + [p]) == r.fua
  {
    hide Browser.Step;
    assert (ps + [p])[..|ps|] == ps && (ps + [p])[|ps|] == p;
  }

  /** A unit sent whole is emitted as it is, fragments under way or not, unless it is a parameter set of less than four bytes. */
  lemma WholeUnitIsEmitted(ps: seq<Packet>, p: Packet)
    requires p != [] && (1 <= p[0] % 0x20 <= 12 || 19 <= p[0] % 0x20 <= 23)
    ensures var taken := p[0] % 0x20 in {7, 8} ==> |p| >= 4;
            && Browser.Emitted(ps + [p]) == Browser.Emitted(ps) + (if taken then [p] else [])
            && Browser.BufferAfter(ps + [p]) == Browser.BufferAfter(ps)
            && Browser.Step(Browser.BufferAfter(ps), p).error == if taken then Ok else ShortPacket
  {
    Arrive(ps, p);
  }

  /** Where the walk over an aggregation packet stops: no room for a length, an empty member or one that overruns the end. */
  predicate Unusable(tail: Octets) {
    |tail| < 2 || From16(tail[0], tail[1]) == 0 || 2 + From16(tail[0], tail[1]) > |tail|
  }

  lemma FirstMember(n: Nalu, more: seq<Nalu>, tail: Octets)
    requires |n| < 0x1_0000 && forall m | m in more :: |m| < 0x1_0000
    ensures forall m | m in [n] + more :: |m| < 0x1_0000
    ensures var r := StapABody([n] + more) + tail;
            && |r| >= 2 + |n| && From16(r[0], r[1]) == |n| && r[2..2 + |n|] == n && r[2 + |n|..] == StapABody(more) + tail
  {
    var length := Be16(|n|);
    assert ([n] + more)[1..] == more;
    assert StapABody([n] + more) == length + n + StapABody(more);
    hide StapABody, Be16, From16;
    Regroup(length + n, StapABody(more), tail);
    ThreePieces(length, n, StapABody(more) + tail);
  }

  lemma ThreePieces(length: Octets, n: Octets, rest: Octets)
    requires |length| == 2
    ensures var r := length + n + rest;
            r[0] == length[0] && r[1] == length[1] && r[2..2 + |n|] == n && r[2 + |n|..] == rest
  {
  }

  lemma {:induction false} WalkUpTo(nalus: seq<Nalu>, tail: Octets, found: bool)
    requires (forall n | n in nalus :: 0 < |n| < 0x1_0000) && Unusable(tail)
    ensures Browser.WalkMembers(StapABody(nalus) + tail, found) == Walk(tail == [] || found || nalus != [], nalus)
    decreases |nalus|
  {
    if nalus == [] {
      assert StapABody(nalus) + tail == tail;
    } else {
      hide StapABody, From16, Unusable;
      var n, more := nalus[0], nalus[1..];
      assert nalus == [n] + more && n in nalus && forall m | m in more :: m in nalus;
      FirstMember(n, more, tail);
      WalkUpTo(more, tail, true);
    }
  }

  /** An aggregation packet is its usable members and what stops the walk behind them. */
  lemma {:induction false} AggregateDecomposes(r: Octets) returns (nalus: seq<Nalu>, tail: Octets)
    ensures (forall n | n in nalus :: 0 < |n| < 0x1_0000) && Unusable(tail) && r == StapABody(nalus) + tail
    decreases |r|
  {
    if Unusable(r) {
      nalus, tail := [], r;
      assert [] + r == r;
    } else {
      var size := From16(r[0], r[1]);
      var n, more := r[2..2 + size], [];
      more, tail := AggregateDecomposes(r[2 + size..]);
      nalus := [n] + more;
      assert nalus[1..] == more;
      SameLength(r[0], r[1]);
      assert StapABody(nalus) == Be16(size) + n + StapABody(more);
      hide StapABody, Be16, From16, Unusable;
      assert r == [r[0], r[1]] + n + r[2 + size..];
      Regroup([r[0], r[1]] + n, StapABody(more), tail);
    }
  }

  lemma SameLength(hi: uint8, lo: uint8)
    ensures Be16(From16(hi, lo)) == [hi, lo]
  {
  }

  /** An aggregation packet emits its members up to the first unusable one; it is refused only when that comes first. */
  lemma AggregateIsEmitted(ps: seq<Packet>, header: uint8, nalus: seq<Nalu>, tail: Octets)
    requires header % 0x20 == 24 && (forall n | n in nalus :: 0 < |n| < 0x1_0000) && Unusable(tail)
    ensures var p := [header] + (StapABody(nalus) + tail);
            && Browser.Emitted(ps + [p]) == Browser.Emitted(ps) + nalus
            && Browser.BufferAfter(ps + [p]) == Browser.BufferAfter(ps)
            && Browser.Step(Browser.BufferAfter(ps), p).error == if tail == [] || nalus != [] then Ok else ShortPacket
  {
    var p := [header] + (StapABody(nalus) + tail);
    Arrive(ps, p);
    WalkUpTo(nalus, tail, false);
    assert p[1..] == StapABody(nalus) + tail;
    hide StapABody, Browser.WalkMembers;
  }

  /** Every other packet that is no fragment changes nothing. */
  lemma NothingIsEmitted(ps: seq<Packet>, p: Packet)
    requires p == [] || p[0] % 0x20 in {0, 13, 14, 15, 16, 17, 18, 25, 26, 27, 29, 30, 31} || (p[0] % 0x20 == 28 && |p| < 2)
    ensures Browser.Emitted(ps + [p]) == Browser.Emitted(ps) && Browser.BufferAfter(ps + [p]) == Browser.BufferAfter(ps)
    ensures Browser.Step(Browser.BufferAfter(ps), p).error
         == if p == [] then NilPacket else if p[0] % 0x20 == 28 then ShortPacket else UnhandledNaluType
  {
    Arrive(ps, p);
    assert Browser.Emitted(ps) + [] == Browser.Emitted(ps);
  }

  /** A fragment is accepted, after any arrivals, exactly when it belongs to a sound run since the most recent start; otherwise
      the answer says whether its type or the run is the matter. */
  lemma FragmentIsAccepted(ps: seq<Packet>, p: Browser.Fragment)
    ensures var error := Browser.Step(Browser.BufferAfter(ps), p).error;
            && (error == Ok <==> exists m: nat :: Browser.Sound(Browser.FragmentsOf(ps) + [p], m))
            && (error != Ok ==> error == if p[1] % 0x20 > 23 then UnhandledNaluType else ShortPacket)
  {
    hide Browser.Sound, Browser.FragmentsOf;
    Browser.BufferExactly(ps);
    Browser.TakenExactly(Browser.BufferAfter(ps), Browser.FragmentsOf(ps), p);
    AcceptedIsTaken(Browser.BufferAfter(ps), p);
  }

  lemma AcceptedIsTaken(buffer: Octets, p: Browser.Fragment)
    ensures var error := Browser.Step(buffer, p).error;
            && (error == Ok <==> Browser.Taken(buffer, p))
            && (error != Ok ==> error == if p[1] % 0x20 > 23 then UnhandledNaluType else ShortPacket)
  {
  }

  // --- everything the server sends

  /** The unit reaches the browser unchanged: inside an aggregate; whole, if its type is taken and a parameter set is not
      shorter than four bytes; or in fragments, if it has a body, its type is at most 23, its top bit is clear and it is shorter
      than 1 MiB. */
  predicate Shown(c: Cache, j: Job) {
    Whole(c, j) && (j.nalu == [] || Aggregates(c, j) || |j.nalu| <= j.mtu || j.nalu[0] < 0x80)
  }

  /** It comes through in some form. */
  predicate Whole(c: Cache, j: Job) {
    || j.nalu == [] || Aggregates(c, j)
    || if |j.nalu| <= j.mtu
       then SingleType(NaluType(j.nalu[0])) && (NaluType(j.nalu[0]) in {7, 8} ==> |j.nalu| >= 4)
       else |j.nalu| >= 2 && NaluType(j.nalu[0]) <= 23 && |j.nalu| < Browser.MAX_FUA_BUFFER_SIZE
  }

  predicate AllShown(c: Cache, js: seq<Job>)
    requires AllEnd(js)
    decreases |js|
  {
    js == [] || (Shown(c, js[0]) && AllShown(Emit(c, js[0]).cache, js[1..]))
  }

  predicate AllWhole(c: Cache, js: seq<Job>)
    requires AllEnd(js)
    decreases |js|
  {
    js == [] || (Whole(c, js[0]) && AllWhole(Emit(c, js[0]).cache, js[1..]))
  }

  lemma {:induction false} WalkMass(r: Octets, found: bool)
    ensures Mass(Browser.WalkMembers(r, found).nalus) <= |r|
    decreases |r|
  {
    if |r| >= 2 {
      var size := From16(r[0], r[1]);
      if 0 < size && 2 + size <= |r| {
        WalkMass(r[2 + size..], true);
        var more := Browser.WalkMembers(r[2 + size..], true).nalus;
        assert ([r[2..2 + size]] + more)[1..] == more;
      }
    }
  }

  /** A packet makes no bytes, and loses some unless it is a unit sent whole that the browser takes. */
  lemma StepMass(buffer: Octets, p: Packet)
    requires p != []
    ensures var r := Browser.Step(buffer, p);
            && Mass(r.nalus) + |r.fua| <= |buffer| + |p|
            && (Mass(r.nalus) + |r.fua| == |buffer| + |p| ==>
                  SingleType(NaluType(p[0])) && (NaluType(p[0]) in {7, 8} ==> |p| >= 4))
  {
    hide SingleType, FuStart, FuEnd;
    MassOne(p);
    WalkMass(p[1..], false);
    assert Mass([]) == 0;
    if |p| >= 2 {
      var kept := if FuStart(p[1]) then [] else buffer;
      MassOne([RefIdc(p[0]) + NaluType(p[1])] + (kept + p[2..]));
    }
  }

  /** What the packets of one unit bring, after any arrivals: no more bytes than are to be delivered, fewer unless the unit comes
      through, and then as many units, the very ones exactly when it is shown. */
  lemma UnitAtBrowser(h: seq<Packet>, c: Cache, j: Job) returns (out: seq<Nalu>)
    requires FragmentationEnds(j.mtu, j.nalu)
    ensures var ps, due := Emit(c, j).packets, Nalus(Delivers(c, j));
            && Browser.Emitted(h + ps) == Browser.Emitted(h) + out
            && Mass(out) + |Browser.BufferAfter(h + ps)| <= |Browser.BufferAfter(h)| + Mass(due)
            && (!Whole(c, j) ==> Mass(out) + |Browser.BufferAfter(h + ps)| < |Browser.BufferAfter(h)| + Mass(due))
            && (Whole(c, j) ==> |out| == |due| && (out == due <==> Shown(c, j)))
  {
    hide Fragments, StapA, FragmentationEnds, Browser.Step, Browser.Emitted, Browser.BufferAfter, NaluType, SingleType, StapASize;
    var n := j.nalu;
    if n == [] {
      out := [];
      assert h + [] == h && Browser.Emitted(h) + [] == Browser.Emitted(h) && Mass([]) == 0;
    } else if Aggregates(c, j) {
      out := [c.sps, c.pps, n];
      DeliverAggregate(c, j);
      TripleAtBrowser(h, c, j);
    } else {
      DeliveryAlone(Original(n));
      MassOne(n);
      if |n| <= j.mtu {
        Arrive(h, n);
        StepMass(Browser.BufferAfter(h), n);
        out := Browser.Step(Browser.BufferAfter(h), n).nalus;
        if Whole(c, j) { TakenWhole(h, n); }
      } else if |n| >= 2 {
        NotTwo(j.mtu, n);
        Browser.AfterFragments(h, j.mtu, n);
        out := Browser.Recovered(n);
        assert Mass([]) == 0;
        MassOne([n[0] % 0x80] + n[1..]);
        TopBit(n);
      } else {
        NoFragments(j.mtu, n);
        out := [];
        assert h + [] == h && Browser.Emitted(h) + [] == Browser.Emitted(h) && Mass([]) == 0;
      }
    }
  }

  lemma TopBit(n: Nalu)
    requires n != []
    ensures [[n[0] % 0x80] + n[1..]] == [n] <==> n[0] < 0x80
  {
    var m := [n[0] % 0x80] + n[1..];
    assert n == [n[0]] + n[1..] && m[0] == n[0] % 0x80;
    assert [m] == [n] <==> m == n by { assert [m][0] == m && [n][0] == n; }
  }

  lemma TakenWhole(h: seq<Packet>, n: Nalu)
    requires n != [] && SingleType(NaluType(n[0])) && (NaluType(n[0]) in {7, 8} ==> |n| >= 4)
    ensures Browser.Step(Browser.BufferAfter(h), n).nalus == [n]
  {
  }

  lemma TripleAtBrowser(h: seq<Packet>, c: Cache, j: Job)
    requires Aggregates(c, j)
    ensures var p := StapA([c.sps, c.pps, j.nalu]);
            && Browser.Emitted(h + [p]) == Browser.Emitted(h) + [c.sps, c.pps, j.nalu]
            && Browser.BufferAfter(h + [p]) == Browser.BufferAfter(h)
  {
    var ms := [c.sps, c.pps, j.nalu];
    assert StapA(ms) == [0x78] + (StapABody(ms) + []);
    AggregateIsEmitted(h, 0x78, ms, []);
  }

  lemma {:induction false} UnitsAtBrowser(h: seq<Packet>, c: Cache, js: seq<Job>) returns (out: seq<Nalu>)
    requires AllEnd(js)
    ensures var ps, due := EmitAll(c, js).packets, Nalus(DeliversAll(c, js));
            && Browser.Emitted(h + ps) == Browser.Emitted(h) + out
            && Mass(out) + |Browser.BufferAfter(h + ps)| <= |Browser.BufferAfter(h)| + Mass(due)
            && (!AllWhole(c, js) ==> Mass(out) + |Browser.BufferAfter(h + ps)| < |Browser.BufferAfter(h)| + Mass(due))
            && (AllWhole(c, js) ==> |out| == |due| && (out == due <==> AllShown(c, js)))
    decreases |js|
  {
    hide Browser.Emitted, Browser.BufferAfter, Emit, Whole, Shown, Delivers, FragmentationEnds, Nalus, Mass;
    if js == [] {
      out := [];
      assert h + [] == h && Browser.Emitted(h) + [] == Browser.Emitted(h);
      NoNalus();
    } else {
      var j, rest := js[0], js[1..];
      assert j in js && forall k | k in rest :: k in js;
      var one := Emit(c, j);
      var more := EmitAll(one.cache, rest).packets;
      var first := UnitAtBrowser(h, c, j);
      var later := UnitsAtBrowser(h + one.packets, one.cache, rest);
      out := first + later;
      Regroup(h, one.packets, more);
      Regroup(Browser.Emitted(h), first, later);
      MassConcat(first, later);
      NalusConcat(Delivers(c, j), DeliversAll(one.cache, rest));
      MassConcat(Nalus(Delivers(c, j)), Nalus(DeliversAll(one.cache, rest)));
      if AllWhole(c, js) { SplitEqual(first, Nalus(Delivers(c, j)), later, Nalus(DeliversAll(one.cache, rest))); }
    }
  }

  /** From server to browser without loss, for every sequence of units of whatever types, aggregation on or off: the browser
      emits exactly what is to be delivered if and only if every unit is one that can be shown. */
  lemma BrowserLosslessExactly(c: Cache, js: seq<Job>)
    requires AllEnd(js)
    ensures Browser.Emitted(EmitAll(c, js).packets) == Nalus(DeliversAll(c, js)) <==> AllShown(c, js)
  {
    hide EmitAll, DeliversAll, AllShown, AllWhole, Nalus, Mass, FragmentationEnds;
    var out := UnitsAtBrowser([], c, js);
    assert [] + EmitAll(c, js).packets == EmitAll(c, js).packets && Browser.Emitted([]) == [] && [] + out == out;
    ShownIsWhole(c, js);
  }

  lemma {:induction false} ShownIsWhole(c: Cache, js: seq<Job>)
    requires AllEnd(js)
    ensures AllShown(c, js) ==> AllWhole(c, js)
    decreases |js|
  {
    hide Emit, Whole, FragmentationEnds;
    if js != [] {
      assert js[0] in js && forall k | k in js[1..] :: k in js;
      ShownIsWhole(Emit(c, js[0]).cache, js[1..]);
    }
  }

  /** The browser's object over a list of packets: its outputs one behind the other are the emitted units, packaged. */
  method ReceiveAtBrowser(packets: seq<Packet>, avc: bool) returns (output: Octets)
    ensures output == PackageAll(avc, Browser.Emitted(packets)) && ReadsBack(avc, output, Browser.Emitted(packets))
  {
    var reader := new Browser.ResyncPacket();
    reader.isAvc := avc;
    output := [];
    for i := 0 to |packets|
      invariant reader.isAvc == avc && reader.fuaBuffer == Browser.BufferAfter(packets[..i])
      invariant output == PackageAll(avc, Browser.Emitted(packets[..i]))
    {
      hide Browser.Step, PackageAll;
      assert packets[..i + 1] == packets[..i] + [packets[i]];
      Arrive(packets[..i], packets[i]);
      ghost var nalus := Browser.Step(Browser.BufferAfter(packets[..i]), packets[i]).nalus;
      PackageAllConcat(avc, Browser.Emitted(packets[..i]), nalus);
      EmptyAtBrowser(Browser.BufferAfter(packets[..i]), packets[i], avc);
      var error, more := reader.Unmarshal(packets[i], []);
      output := output + more;
    }
    assert packets[..|packets|] == packets;
    OutputReadsBack(avc, Browser.Emitted(packets));
  }

  lemma EmptyAtBrowser(buffer: Octets, p: Packet, avc: bool)
    ensures p == [] ==> PackageAll(avc, Browser.Step(buffer, p).nalus) == []
  {
  }
}
