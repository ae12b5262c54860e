/** The packetizer and the depacketizer together. */
module H264EndToEnd {
  import opened Bytes
  import opened H264Nalu
  import opened H264RtpPacketizer
  import opened H264RtpPacket
  import opened H264RtpDepacketizer

  // --- what the receiver makes of a stream of packets

  datatype Decoding = Decoding(ok: bool, fua: Octets, nalus: seq<Nalu>)

  function DecodeAll(fua: Octets, ps: seq<Packet>): Decoding
    decreases |ps|
  {
    if ps == [] then Decoding(true, fua, [])
    else
      var first := Parse(fua, ps[0]);
      var rest := DecodeAll(first.fua, ps[1..]);
      Decoding(first.error == Ok && rest.ok, rest.fua, first.nalus + rest.nalus)
  }

  lemma {:induction false} DecodeAllConcat(fua: Octets, xs: seq<Packet>, ys: seq<Packet>)
    ensures var x := DecodeAll(fua, xs); var y := DecodeAll(x.fua, ys);
            DecodeAll(fua, xs + ys) == Decoding(x.ok && y.ok, y.fua, x.nalus + y.nalus)
    decreases |xs|
  {
    hide Parse;
    if xs == [] {
      assert xs + ys == ys;
    } else {
      var first := Parse(fua, xs[0]);
      DecodeAllConcat(first.fua, xs[1..], ys);
      assert (xs + ys)[1..] == xs[1..] + ys && (xs + ys)[0] == xs[0];
      var x := DecodeAll(first.fua, xs[1..]);
      var y := DecodeAll(x.fua, ys);
      Regroup(first.nalus, x.nalus, y.nalus);
    }
  }

  /** What reassembly makes of a unit when `left` is already in the buffer: the unit with its forbidden_zero_bit cleared, all
      that the FU-A headers carry of its first byte, and the left-over bytes in front of its body. */
  function Rebuilt(left: Octets, n: Nalu): Nalu
    requires n != []
  {
    [n[0] % 0x80] + (left + n[1..])
  }

  /** One fragment extends the buffer; the last one releases the unit. */
  lemma ParseFragment(left: Octets, n: Nalu, i: nat, size: nat)
    requires 1 <= i && 0 < size && i + size <= |n|
    ensures Parse(left + n[1..i], Fragment(n, i, size)) ==
            if i + size < |n| then Parsed(Ok, left + n[1..i + size], []) else Parsed(Ok, [], [Rebuilt(left, n)])
  {
    hide NaluType, RefIdc, FuStart, FuEnd;
    var f := Fragment(n, i, size);
    FuHeaderBits(n[0], i == 1, i + size == |n|);
    assert f[2..] == n[i..i + size] && n[1..i] + f[2..] == n[1..i + size];
    Regroup(left, n[1..i], f[2..]);
    if i + size == |n| {
      assert n[1..i + size] == n[1..];
      Regroup([n[0] % 0x80], left + n[1..i], f[2..]);
    }
  }

  /** Reassembly from fragment `i` on, the earlier body bytes already in the buffer. */
  lemma {:induction false} ReassembleFrom(left: Octets, max: nat, n: Nalu, i: nat)
    requires max > 0 && 1 <= i < |n|
    ensures DecodeAll(left + n[1..i], FragmentsFrom(max, n, i)) == Decoding(true, [], [Rebuilt(left, n)])
    decreases |n| - i
  {
    hide Parse, Fragment;
    var size := Min(max, |n| - i);
    var ps := FragmentsFrom(max, n, i);
    ParseFragment(left, n, i, size);
    assert ps[0] == Fragment(n, i, size) && ps[1..] == FragmentsFrom(max, n, i + size);
    if i + size < |n| {
      ReassembleFrom(left, max, n, i + size);
    } else {
      assert DecodeAll([], ps[1..]) == Decoding(true, [], []);
    }
  }

  lemma ReassembleBehind(left: Octets, mtu: uint16, n: Nalu)
    requires mtu != 2 && |n| >= 2
    ensures DecodeAll(left, Fragments(mtu, n)) == Decoding(true, [], [Rebuilt(left, n)])
  {
    hide FragmentsFrom, DecodeAll;
    assert left + n[1..1] == left;
    ReassembleFrom(left, MaxFragment(mtu), n, 1);
  }

  /** Fragmenting and reassembling any unit with a body clears its top bit and changes nothing else; so it
      restores the unit exactly when that bit was clear. */
  lemma Reassemble(mtu: uint16, n: Nalu)
    requires mtu != 2 && |n| >= 2
    ensures DecodeAll([], Fragments(mtu, n)) == Decoding(true, [], [[n[0] % 0x80] + n[1..]])
    ensures [n[0] % 0x80] + n[1..] == n <==> n[0] < 0x80
  {
    hide Fragments, DecodeAll;
    ReassembleBehind([], mtu, n);
    assert [] + n[1..] == n[1..];
    var u := [n[0] % 0x80] + n[1..];
    assert n == [n[0]] + n[1..] && u[0] == n[0] % 0x80;
  }

  // --- one unit

  /** The unit reaches the receiver unchanged: inside an aggregate, whole if its type is one the reader takes, or in fragments
      if it has a body and a clear top bit. */
  predicate Carried(c: Cache, j: Job) {
    j.nalu == [] || Aggregates(c, j) || CarriedAlone(j)
  }

  predicate CarriedAlone(j: Job) {
    j.nalu == [] ||
    if |j.nalu| <= j.mtu then SingleType(NaluType(j.nalu[0])) else |j.nalu| >= 2 && j.nalu[0] < 0x80
  }

  /** A delivered unit: one of the sender's, or a parameter set copied in by aggregation. */
  datatype Delivery = Original(nalu: Nalu) | Inserted(nalu: Nalu)

  function Delivers(c: Cache, j: Job): seq<Delivery> {
    if j.nalu == [] then []
    else if Aggregates(c, j) then [Inserted(c.sps), Inserted(c.pps), Original(j.nalu)]
    else [Original(j.nalu)]
  }

  function Nalus(ds: seq<Delivery>): seq<Nalu> {
    if ds == [] then [] else [ds[0].nalu] + Nalus(ds[1..])
  }

  /** The delivered units with the inserted ones deleted. */
  function Originals(ds: seq<Delivery>): seq<Nalu> {
    if ds == [] then [] else (if ds[0].Original? then [ds[0].nalu] else []) + Originals(ds[1..])
  }

  lemma {:induction false} NalusConcat(xs: seq<Delivery>, ys: seq<Delivery>)
    ensures Nalus(xs + ys) == Nalus(xs) + Nalus(ys)
    decreases |xs|
  {
    if xs == [] {
      assert xs + ys == ys;
    } else {
      NalusConcat(xs[1..], ys);
      assert (xs + ys)[1..] == xs[1..] + ys && (xs + ys)[0] == xs[0];
      Regroup([xs[0].nalu], Nalus(xs[1..]), Nalus(ys));
    }
  }

  lemma {:induction false} OriginalsConcat(xs: seq<Delivery>, ys: seq<Delivery>)
    ensures Originals(xs + ys) == Originals(xs) + Originals(ys)
    decreases |xs|
  {
    if xs == [] {
      assert xs + ys == ys;
    } else {
      OriginalsConcat(xs[1..], ys);
      assert (xs + ys)[1..] == xs[1..] + ys && (xs + ys)[0] == xs[0];
      Regroup(if xs[0].Original? then [xs[0].nalu] else [], Originals(xs[1..]), Originals(ys));
    }
  }

  lemma DeliveriesConcat(xs: seq<Delivery>, ys: seq<Delivery>)
    ensures Nalus(xs + ys) == Nalus(xs) + Nalus(ys)
    ensures Originals(xs + ys) == Originals(xs) + Originals(ys)
  {
    NalusConcat(xs, ys);
    OriginalsConcat(xs, ys);
  }

  lemma DeliverThree(a: Delivery, b: Delivery, c: Delivery)
    requires a.Inserted? && b.Inserted? && c.Original?
    ensures Nalus([a, b, c]) == [a.nalu, b.nalu, c.nalu] && Originals([a, b, c]) == [c.nalu]
  {
    hide Nalus, Originals;
    assert [a, b, c] == [a] + [b] + [c];
    DeliveriesConcat([a] + [b], [c]);
    DeliveriesConcat([a], [b]);
    DeliveryAlone(a);
    DeliveryAlone(b);
    DeliveryAlone(c);
  }

  lemma DeliverAggregate(c: Cache, j: Job)
    requires Aggregates(c, j)
    ensures DecodeAll([], [StapA([c.sps, c.pps, j.nalu])]) == Decoding(true, [], [c.sps, c.pps, j.nalu])
    ensures Nalus(Delivers(c, j)) == [c.sps, c.pps, j.nalu]
    ensures Originals(Delivers(c, j)) == [j.nalu]
  {
    hide Nalus, Originals, Members, StapABody, DecodeAll;
    var ms := [c.sps, c.pps, j.nalu];
    var p := StapA(ms);
    MembersOfStapA(ms);
    assert p[1..] == StapABody(ms);
    assert NaluType(p[0]) == STAPA_NALU_TYPE;
    DecodeSingle([], p);
    DeliverThree(Inserted(c.sps), Inserted(c.pps), Original(j.nalu));
  }

  lemma DeliveryAlone(d: Delivery)
    ensures Nalus([d]) == [d.nalu]
    ensures Originals([d]) == if d.Original? then [d.nalu] else []
  {
    assert [d][1..] == [];
  }

  lemma DeliverOne(c: Cache, j: Job)
    requires FragmentationEnds(j.mtu, j.nalu) && Carried(c, j)
    ensures DecodeAll([], Emit(c, j).packets) == Decoding(true, [], Nalus(Delivers(c, j)))
    ensures Originals(Delivers(c, j)) == if j.nalu == [] then [] else [j.nalu]
  {
    hide FragmentsFrom;
    if j.nalu == [] {
    } else if Aggregates(c, j) {
      DeliverAggregate(c, j);
    } else {
      DeliveryAlone(Original(j.nalu));
      if |j.nalu| <= j.mtu {
        DecodeSingle([], j.nalu);
      } else {
        Reassemble(j.mtu, j.nalu);
      }
    }
  }

  lemma DecodeSingle(fua: Octets, p: Packet)
    ensures var r := Parse(fua, p); DecodeAll(fua, [p]) == Decoding(r.error == Ok, r.fua, r.nalus)
  {
    assert DecodeAll(Parse(fua, p).fua, [p][1..]) == Decoding(true, Parse(fua, p).fua, []);
  }

  // --- whole streams

  predicate AllCarried(c: Cache, js: seq<Job>)
    decreases |js|
  {
    AllEnd(js) && (js == [] || (Carried(c, js[0]) && AllCarried(Emit(c, js[0]).cache, js[1..])))
  }

  /** Whatever is held, units that can be sent alone are carried. */
  lemma {:induction false} AllCarriedAlone(c: Cache, js: seq<Job>)
    requires AllEnd(js) && forall j | j in js :: CarriedAlone(j)
    ensures AllCarried(c, js)
    decreases |js|
  {
    hide Emit, CarriedAlone, FragmentationEnds;
    if js != [] {
      assert js[0] in js && forall j | j in js[1..] :: j in js;
      AllCarriedAlone(Emit(c, js[0]).cache, js[1..]);
    }
  }

  function DeliversAll(c: Cache, js: seq<Job>): seq<Delivery>
    requires AllEnd(js)
    decreases |js|
  {
    if js == [] then [] else Delivers(c, js[0]) + DeliversAll(Emit(c, js[0]).cache, js[1..])
  }

  /** The sender's units, in order, without the empty ones that the scanner drops. */
  function Sent(js: seq<Job>): seq<Nalu> {
    if js == [] then [] else (if js[0].nalu == [] then [] else [js[0].nalu]) + Sent(js[1..])
  }

  /** Lossless delivery: the receiver decodes every packet, ends with an empty fragmentation buffer, and its
      units with the inserted parameter sets deleted are the sender's units. */
  lemma {:induction false} Lossless(c: Cache, js: seq<Job>)
    requires AllCarried(c, js)
    ensures DecodeAll([], EmitAll(c, js).packets) == Decoding(true, [], Nalus(DeliversAll(c, js)))
    ensures Originals(DeliversAll(c, js)) == Sent(js)
    decreases |js|
  {
    if js != [] {
      var one := Emit(c, js[0]);
      DeliverOne(c, js[0]);
      Lossless(one.cache, js[1..]);
      DecodeAllConcat([], one.packets, EmitAll(one.cache, js[1..]).packets);
      DeliveriesConcat(Delivers(c, js[0]), DeliversAll(one.cache, js[1..]));
    }
  }

  // --- nothing else gets through

  /** The bytes of a list of units. */
  function Mass(nalus: seq<Nalu>): nat {
    if nalus == [] then 0 else |nalus[0]| + Mass(nalus[1..])
  }

  lemma {:induction false} MassConcat(xs: seq<Nalu>, ys: seq<Nalu>)
    ensures Mass(xs + ys) == Mass(xs) + Mass(ys)
    decreases |xs|
  {
    if xs == [] {
      assert xs + ys == ys;
    } else {
      MassConcat(xs[1..], ys);
      assert (xs + ys)[1..] == xs[1..] + ys && (xs + ys)[0] == xs[0];
    }
  }

  lemma MassOne(n: Nalu)
    ensures Mass([n]) == |n|
  {
    assert [n][1..] == [];
  }

  lemma {:induction false} MembersMass(r: Octets)
    ensures Mass(Members(r).nalus) <= |r|
    decreases |r|
  {
    if |r| >= 2 {
      var size := From16(r[0], r[1]);
      if 2 + size <= |r| {
        MembersMass(r[2 + size..]);
        var more := Members(r[2 + size..]).nalus;
        assert ([r[2..2 + size]] + more)[1..] == more;
      }
    }
  }

  /** Reading a packet makes no bytes, and loses some unless the packet is a unit of a type the reader takes. */
  lemma ParseMass(fua: Octets, p: Packet)
    requires p != []
    ensures Mass(Parse(fua, p).nalus) + |Parse(fua, p).fua| <= |fua| + |p|
    ensures !SingleType(NaluType(p[0])) ==> Mass(Parse(fua, p).nalus) + |Parse(fua, p).fua| < |fua| + |p|
  {
    hide FuEnd, SingleType;
    var r := Parse(fua, p);
    MassOne(p);
    MembersMass(p[1..]);
    if |p| >= 2 { MassOne([RefIdc(p[0]) + NaluType(p[1])] + fua + p[2..]); }
    assert Mass([]) == 0;
  }

  /** The unit comes through in some form: only its type, when sent whole, and its body, when not, decide that. */
  predicate Intact(c: Cache, j: Job) {
    j.nalu == [] || Aggregates(c, j) || if |j.nalu| <= j.mtu then SingleType(NaluType(j.nalu[0])) else |j.nalu| >= 2
  }

  predicate AllIntact(c: Cache, js: seq<Job>)
    requires AllEnd(js)
    decreases |js|
  {
    js == [] || (Intact(c, js[0]) && AllIntact(Emit(c, js[0]).cache, js[1..]))
  }

  /** The packets of one unit bring no more bytes than are to be delivered, and fewer when the unit does not come through. */
  lemma MassOfOne(fua: Octets, c: Cache, j: Job)
    requires FragmentationEnds(j.mtu, j.nalu)
    ensures var d, due := DecodeAll(fua, Emit(c, j).packets), Mass(Nalus(Delivers(c, j)));
            Mass(d.nalus) + |d.fua| <= |fua| + due && (!Intact(c, j) ==> Mass(d.nalus) + |d.fua| < |fua| + due)
  {
    hide Parse, NaluType, SingleType, Fragments, StapA, FragmentationEnds;
    var n := j.nalu;
    assert Mass([]) == 0 && DecodeAll(fua, []) == Decoding(true, fua, []);
    if n == [] {
    } else if Aggregates(c, j) {
      MassOfAggregate(fua, c, j);
    } else {
      DeliveryAlone(Original(n));
      MassOne(n);
      if |n| <= j.mtu {
        ParseMass(fua, n);
        DecodeSingle(fua, n);
      } else if |n| >= 2 {
        NotTwo(j.mtu, n);
        ReassembleBehind(fua, j.mtu, n);
        MassOne(Rebuilt(fua, n));
      } else {
        NoFragments(j.mtu, n);
      }
    }
  }

  lemma NotTwo(mtu: uint16, n: Nalu)
    requires FragmentationEnds(mtu, n) && |n| > mtu
    ensures mtu != FUA_HEADER_SIZE || |n| <= 1
  {
  }

  lemma NoFragments(mtu: uint16, n: Nalu)
    requires |n| == 1
    ensures Fragments(mtu, n) == []
  {
  }

  lemma MassOfAggregate(fua: Octets, c: Cache, j: Job)
    requires Aggregates(c, j)
    ensures DecodeAll(fua, [StapA([c.sps, c.pps, j.nalu])]) == Decoding(true, fua, Nalus(Delivers(c, j)))
  {
    hide Members, StapABody;
    var ms := [c.sps, c.pps, j.nalu];
    var p := StapA(ms);
    DeliverAggregate(c, j);
    MembersOfStapA(ms);
    assert p[1..] == StapABody(ms) && NaluType(p[0]) == STAPA_NALU_TYPE;
    DecodeSingle(fua, p);
  }

  /** A whole stream brings no more bytes than are to be delivered, and fewer as soon as one unit does not come through. */
  lemma {:induction false} MassOfAll(fua: Octets, c: Cache, js: seq<Job>)
    requires AllEnd(js)
    ensures var d, due := DecodeAll(fua, EmitAll(c, js).packets), Mass(Nalus(DeliversAll(c, js)));
            Mass(d.nalus) + |d.fua| <= |fua| + due && (!AllIntact(c, js) ==> Mass(d.nalus) + |d.fua| < |fua| + due)
    decreases |js|
  {
    hide Parse, Emit, Intact, Delivers, FragmentationEnds;
    if js == [] {
      assert DecodeAll(fua, []) == Decoding(true, fua, []) && Mass([]) == 0;
    } else {
      var j, rest := js[0], js[1..];
      assert j in js && forall k | k in rest :: k in js;
      var one := Emit(c, j);
      var first := DecodeAll(fua, one.packets);
      MassOfOne(fua, c, j);
      MassOfAll(first.fua, one.cache, rest);
      DecodeAllConcat(fua, one.packets, EmitAll(one.cache, rest).packets);
      MassConcat(first.nalus, DecodeAll(first.fua, EmitAll(one.cache, rest).packets).nalus);
      NalusConcat(Delivers(c, j), DeliversAll(one.cache, rest));
      MassConcat(Nalus(Delivers(c, j)), Nalus(DeliversAll(one.cache, rest)));
    }
  }

  /** A unit that comes through arrives as itself exactly when it is carried, and leaves the buffer empty. */
  lemma IntactOne(c: Cache, j: Job)
    requires FragmentationEnds(j.mtu, j.nalu) && Intact(c, j)
    ensures var d, due := DecodeAll([], Emit(c, j).packets), Nalus(Delivers(c, j));
            d.ok && d.fua == [] && |d.nalus| == |due| && (d.nalus == due <==> Carried(c, j))
  {
    hide Parse, Fragments, StapA, FragmentationEnds;
    var n := j.nalu;
    if n == [] {
      DecodeNone();
    } else if Aggregates(c, j) {
      MassOfAggregate([], c, j);
    } else {
      DeliveryAlone(Original(n));
      if |n| <= j.mtu {
        DecodeSingle([], n);
        WholeUnit(n);
      } else {
        NotTwo(j.mtu, n);
        Reassemble(j.mtu, n);
      }
    }
  }

  lemma WholeUnit(n: Nalu)
    requires n != [] && SingleType(NaluType(n[0]))
    ensures Parse([], n) == Parsed(Ok, [], [n])
  {
  }

  lemma DecodeNone()
    ensures DecodeAll([], []) == Decoding(true, [], [])
  {
  }

  lemma {:induction false} IntactAll(c: Cache, js: seq<Job>)
    requires AllEnd(js) && AllIntact(c, js)
    ensures var d, due := DecodeAll([], EmitAll(c, js).packets), Nalus(DeliversAll(c, js));
            d.fua == [] && |d.nalus| == |due| && (d.nalus == due <==> AllCarried(c, js))
    decreases |js|
  {
    hide DecodeAll, Emit, Intact, Carried, Delivers, FragmentationEnds, Nalus;
    if js == [] {
      DecodeNone();
      assert Nalus([]) == [] by { NoNalus(); }
    } else {
      var j, rest := js[0], js[1..];
      assert j in js && forall k | k in rest :: k in js;
      var one := Emit(c, j);
      IntactOne(c, j);
      IntactAll(one.cache, rest);
      DecodeAllConcat([], one.packets, EmitAll(one.cache, rest).packets);
      NalusConcat(Delivers(c, j), DeliversAll(one.cache, rest));
      SplitEqual(DecodeAll([], one.packets).nalus, Nalus(Delivers(c, j)),
                 DecodeAll([], EmitAll(one.cache, rest).packets).nalus, Nalus(DeliversAll(one.cache, rest)));
    }
  }

  lemma NoNalus()
    ensures Nalus([]) == []
  {
  }

  lemma SplitEqual(a: seq<Nalu>, x: seq<Nalu>, b: seq<Nalu>, y: seq<Nalu>)
    requires |a| == |x| && |b| == |y|
    ensures a + b == x + y <==> a == x && b == y
    ensures |a + b| == |x + y|
  {
    assert (a + b)[..|a|] == a && (a + b)[|a|..] == b && (x + y)[..|x|] == x && (x + y)[|x|..] == y;
  }

  /** Exactly when it is lossless, for every sequence of units of whatever types, with or without aggregation: the receiver
      decodes what is to be delivered if and only if every unit is carried. */
  lemma LosslessExactly(c: Cache, js: seq<Job>)
    requires AllEnd(js)
    ensures DecodeAll([], EmitAll(c, js).packets).nalus == Nalus(DeliversAll(c, js)) <==> AllCarried(c, js)
    ensures (forall j | j in js :: !j.stapa) ==>
              (DecodeAll([], EmitAll(c, js).packets).nalus == Sent(js) <==> AllCarried(c, js))
  {
    hide DecodeAll, EmitAll, DeliversAll, AllCarried, AllIntact, Nalus, Sent, Originals, FragmentationEnds, Mass;
    MassOfAll([], c, js);
    if AllIntact(c, js) {
      IntactAll(c, js);
    } else {
      CarriedIsIntact(c, js);
    }
    OriginalsAreSent(c, js);
    if forall j | j in js :: !j.stapa { NothingInserted(c, js); }
  }

  lemma {:induction false} CarriedIsIntact(c: Cache, js: seq<Job>)
    requires AllEnd(js)
    ensures AllCarried(c, js) ==> AllIntact(c, js)
    decreases |js|
  {
    hide Emit, Aggregates, FragmentationEnds, NaluType, SingleType;
    if js != [] {
      assert js[0] in js && forall k | k in js[1..] :: k in js;
      CarriedIsIntact(Emit(c, js[0]).cache, js[1..]);
    }
  }

  lemma {:induction false} OriginalsAreSent(c: Cache, js: seq<Job>)
    requires AllEnd(js)
    ensures Originals(DeliversAll(c, js)) == Sent(js)
    decreases |js|
  {
    hide Emit, FragmentationEnds, Aggregates;
    if js != [] {
      var j, rest := js[0], js[1..];
      assert j in js && forall k | k in rest :: k in js;
      OriginalsAreSent(Emit(c, j).cache, rest);
      OriginalsConcat(Delivers(c, j), DeliversAll(Emit(c, j).cache, rest));
      OneOriginal(c, j);
    }
  }

  lemma OneOriginal(c: Cache, j: Job)
    ensures Originals(Delivers(c, j)) == if j.nalu == [] then [] else [j.nalu]
  {
    hide Aggregates;
    var ds := Delivers(c, j);
    if j.nalu != [] {
      DeliveryAlone(Original(j.nalu));
      if |ds| == 3 {
        DeliveryAlone(ds[0]);
        DeliveryAlone(ds[1]);
        OriginalsConcat([ds[0]], [ds[1]] + [ds[2]]);
        OriginalsConcat([ds[1]], [ds[2]]);
        assert ds == [ds[0]] + ([ds[1]] + [ds[2]]);
      }
    }
  }

  /** Without aggregation nothing is inserted. */
  lemma {:induction false} NothingInserted(c: Cache, js: seq<Job>)
    requires AllEnd(js) && forall j | j in js :: !j.stapa
    ensures Nalus(DeliversAll(c, js)) == Originals(DeliversAll(c, js))
    decreases |js|
  {
    if js != [] {
      var rest := DeliversAll(Emit(c, js[0]).cache, js[1..]);
      NothingInserted(Emit(c, js[0]).cache, js[1..]);
      DeliveriesConcat(Delivers(c, js[0]), rest);
    }
  }

  /** The last unit of type `t` among the jobs that may be remembered, or `start` when there is none. */
  function Latest(t: uint8, start: Nalu, js: seq<Job>): Nalu
    decreases |js|
  {
    if js == [] then start
    else
      var j := js[|js| - 1];
      if j.stapa && j.nalu != [] && NaluType(j.nalu[0]) == t then j.nalu else Latest(t, start, js[..|js| - 1])
  }

  /** A held parameter set is always the latest one sent. */
  lemma {:induction false} HeldIsLatest(c: Cache, js: seq<Job>)
    requires AllEnd(js)
    ensures EmitAll(c, js).cache.sps in [[], Latest(SPS_NALU_TYPE, c.sps, js)]
    ensures EmitAll(c, js).cache.pps in [[], Latest(PPS_NALU_TYPE, c.pps, js)]
    decreases |js|
  {
    if js != [] {
      var init, last := js[..|js| - 1], js[|js| - 1];
      assert js == init + [last];
      assert last in js && forall j | j in init :: j in js;
      HeldIsLatest(c, init);
      CacheAfterLast(c, init, last);
      hide EmitAll, Emit, FragmentationEnds;
      HeldAfter(EmitAll(c, init).cache, last);
    }
  }

  lemma CacheAfterLast(c: Cache, init: seq<Job>, last: Job)
    requires AllEnd(init) && FragmentationEnds(last.mtu, last.nalu)
    ensures AllEnd(init + [last]) && EmitAll(c, init + [last]).cache == Emit(EmitAll(c, init).cache, last).cache
  {
    hide Emit, FragmentationEnds;
    EmitAllConcat(c, init, [last]);
    assert EmitAll(EmitAll(c, init).cache, [last]).cache == Emit(EmitAll(c, init).cache, last).cache;
  }

  /** One unit sent: a parameter set is held unchanged, dropped, or replaced by the unit itself. */
  lemma HeldAfter(c: Cache, j: Job)
    requires FragmentationEnds(j.mtu, j.nalu)
    ensures var of := (t: uint8) => j.stapa && j.nalu != [] && NaluType(j.nalu[0]) == t;
            && Emit(c, j).cache.sps in [[], if of(SPS_NALU_TYPE) then j.nalu else c.sps]
            && Emit(c, j).cache.pps in [[], if of(PPS_NALU_TYPE) then j.nalu else c.pps]
  {
    hide Fragments, StapASize;
  }

  /** What aggregation inserts ahead of unit `k` is the latest SPS and the latest PPS sent before it. */
  lemma InsertedIsLatest(c: Cache, js: seq<Job>, k: nat)
    requires AllEnd(js) && k < |js|
    ensures AllEnd(js[..k])
    ensures var held := EmitAll(c, js[..k]).cache;
            Aggregates(held, js[k]) ==>
              Delivers(held, js[k]) == [Inserted(Latest(SPS_NALU_TYPE, c.sps, js[..k])),
                                        Inserted(Latest(PPS_NALU_TYPE, c.pps, js[..k])), Original(js[k].nalu)]
  {
    HeldIsLatest(c, js[..k]);
  }

  lemma PacketsFitOne(c: Cache, j: Job)
    requires j.mtu >= 3
    ensures FragmentationEnds(j.mtu, j.nalu)
    ensures forall p | p in Emit(c, j).packets :: 0 < |p| <= j.mtu
  {
    if j.nalu == [] {
    } else if Aggregates(c, j) {
      StapATriple(c.sps, c.pps, j.nalu);
    } else if |j.nalu| > j.mtu {
      FragmentsShape(j.mtu, j.nalu);
    }
  }

  /** Every packet respects an MTU of three or more, whatever is sent. */
  lemma {:induction false} PacketsFit(c: Cache, js: seq<Job>, mtu: uint16)
    requires mtu >= 3 && forall j | j in js :: j.mtu == mtu
    ensures AllEnd(js)
    ensures forall p | p in EmitAll(c, js).packets :: 0 < |p| <= mtu
    decreases |js|
  {
    if js != [] {
      assert js[0] in js;
      PacketsFitOne(c, js[0]);
      PacketsFit(Emit(c, js[0]).cache, js[1..], mtu);
    }
  }

  // --- keyframes

  function KeyFrames(ps: seq<Packet>): nat {
    if ps == [] then 0 else (if KeyFrame(ps[0]) then 1 else 0) + KeyFrames(ps[1..])
  }

  lemma {:induction false} KeyFramesConcat(xs: seq<Packet>, ys: seq<Packet>)
    ensures KeyFrames(xs + ys) == KeyFrames(xs) + KeyFrames(ys)
    decreases |xs|
  {
    if xs == [] {
      assert xs + ys == ys;
    } else {
      KeyFramesConcat(xs[1..], ys);
      assert (xs + ys)[1..] == xs[1..] + ys;
    }
  }

  predicate IsIdr(n: Nalu) {
    n != [] && NaluType(n[0]) == IDR_NALU_TYPE
  }

  function IdrUnits(nalus: seq<Nalu>): nat {
    if nalus == [] then 0 else (if IsIdr(nalus[0]) then 1 else 0) + IdrUnits(nalus[1..])
  }

  /** The cache holds nothing, or units that really are parameter sets. */
  predicate ParameterSets(c: Cache) {
    && (c.sps == [] || NaluType(c.sps[0]) == SPS_NALU_TYPE)
    && (c.pps == [] || NaluType(c.pps[0]) == PPS_NALU_TYPE)
  }

  lemma {:induction false} FragmentKeyFramesFrom(max: nat, n: Nalu, i: nat)
    requires max > 0 && 1 <= i < |n|
    ensures KeyFrames(FragmentsFrom(max, n, i)) == if i == 1 && IsIdr(n) then 1 else 0
    decreases |n| - i
  {
    var size := Min(max, |n| - i);
    var ps := FragmentsFrom(max, n, i);
    FragmentHeaderAt(max, n, i, 0);
    assert KeyFrame(ps[0]) <==> i == 1 && IsIdr(n);
    assert ps[1..] == FragmentsFrom(max, n, i + size);
    if i + size < |n| {
      FragmentKeyFramesFrom(max, n, i + size);
    }
  }

  lemma KeyFrameOne(c: Cache, j: Job)
    requires FragmentationEnds(j.mtu, j.nalu) && Carried(c, j) && ParameterSets(c)
    ensures KeyFrames(Emit(c, j).packets) == if IsIdr(j.nalu) then 1 else 0
    ensures ParameterSets(Emit(c, j).cache)
  {
    hide KeyWalk, FragmentsFrom;
    var n := j.nalu;
    if n == [] {
    } else if Aggregates(c, j) {
      var ms := [c.sps, c.pps, n];
      var p := StapA(ms);
      assert n in ms && c.sps in ms && c.pps in ms;
      KeyWalkOfStapA(ms);
      assert p[1..] == StapABody(ms);
      assert |p| >= 3;
      assert KeyFrame(p) <==> IsIdr(n);
      assert KeyFrames([p]) == (if KeyFrame(p) then 1 else 0) + KeyFrames([]);
    } else if |n| <= j.mtu {
      assert KeyFrame(n) <==> IsIdr(n);
      assert KeyFrames([n]) == (if KeyFrame(n) then 1 else 0) + KeyFrames([]);
    } else {
      FragmentKeyFramesFrom(MaxFragment(j.mtu), n, 1);
    }
  }

  /** Keyframe detection is exact: as many packets are keyframes as there are IDR units in the stream. */
  lemma {:induction false} KeyFramesExact(c: Cache, js: seq<Job>)
    requires AllCarried(c, js) && ParameterSets(c)
    ensures KeyFrames(EmitAll(c, js).packets) == IdrUnits(Sent(js))
    decreases |js|
  {
    if js != [] {
      var one := Emit(c, js[0]);
      KeyFrameOne(c, js[0]);
      KeyFramesExact(one.cache, js[1..]);
      KeyFramesConcat(one.packets, EmitAll(one.cache, js[1..]).packets);
      if js[0].nalu != [] {
        assert Sent(js) == [js[0].nalu] + Sent(js[1..]);
        assert Sent(js)[1..] == Sent(js[1..]);
      } else {
        assert Sent(js) == Sent(js[1..]);
      }
    }
  }

  // --- sequences of Payload calls

  /** One call of `Payload`, with the aggregation setting in force. */
  datatype Call = Call(mtu: uint16, stapa: bool, buffer: Octets)

  function JobsOf(calls: seq<Call>): seq<Job> {
    if calls == [] then []
    else Jobs(calls[0].mtu, calls[0].stapa, AnnexB.Split(calls[0].buffer)) + JobsOf(calls[1..])
  }

  /** The packets of the calls one after the other, the cache carried along. */
  function SendAll(c: Cache, calls: seq<Call>): Emission
    requires AllEnd(JobsOf(calls))
    decreases |calls|
  {
    if calls == [] then Emission(c, [])
    else
      var js := Jobs(calls[0].mtu, calls[0].stapa, AnnexB.Split(calls[0].buffer));
      assert JobsOf(calls) == js + JobsOf(calls[1..]);
      var first := EmitAll(c, js);
      var rest := SendAll(first.cache, calls[1..]);
      Emission(rest.cache, first.packets + rest.packets)
  }

  lemma {:induction false} SendAllIsEmitAll(c: Cache, calls: seq<Call>)
    requires AllEnd(JobsOf(calls))
    ensures SendAll(c, calls) == EmitAll(c, JobsOf(calls))
    decreases |calls|
  {
    if calls != [] {
      var js := Jobs(calls[0].mtu, calls[0].stapa, AnnexB.Split(calls[0].buffer));
      assert JobsOf(calls) == js + JobsOf(calls[1..]);
      SendAllIsEmitAll(EmitAll(c, js).cache, calls[1..]);
      EmitAllConcat(c, js, JobsOf(calls[1..]));
    }
  }

  /** The main result, for every sequence of `Payload` calls from a fresh payloader to a fresh packet reader:
      nothing is rejected, nothing is left over, deleting the inserted parameter sets gives the scanned units,
      and the keyframe test fires once for each IDR unit. */
  lemma EndToEnd(calls: seq<Call>)
    requires AllCarried(Cache([], []), JobsOf(calls))
    ensures var js := JobsOf(calls);
            var got := DecodeAll([], SendAll(Cache([], []), calls).packets);
            && got == Decoding(true, [], Nalus(DeliversAll(Cache([], []), js)))
            && Originals(DeliversAll(Cache([], []), js)) == Sent(js)
            && KeyFrames(SendAll(Cache([], []), calls).packets) == IdrUnits(Sent(js))
  {
    var js := JobsOf(calls);
    SendAllIsEmitAll(Cache([], []), calls);
    Lossless(Cache([], []), js);
    KeyFramesExact(Cache([], []), js);
  }

  /** With aggregation off the receiver decodes the sender's units. */
  lemma EndToEndPlain(calls: seq<Call>)
    requires AllCarried(Cache([], []), JobsOf(calls)) && forall j | j in JobsOf(calls) :: !j.stapa
    ensures DecodeAll([], SendAll(Cache([], []), calls).packets) == Decoding(true, [], Sent(JobsOf(calls)))
  {
    EndToEnd(calls);
    NothingInserted(Cache([], []), JobsOf(calls));
  }

  /** The receiver object over a list of packets: the outputs one behind the other are what is decoded, packaged. */
  method ReceivePackets(reader: H264Packet, packets: seq<Packet>) returns (ok: bool, output: Octets)
    modifies reader`fuaBuffer
    ensures var d := DecodeAll(old(reader.fuaBuffer), packets);
            ok == d.ok && output == PackageAll(reader.isAvc, d.nalus) && reader.fuaBuffer == d.fua
            && ReadsBack(reader.isAvc, output, d.nalus)
  {
    ok, output := true, [];
    ghost var done := Decoding(true, reader.fuaBuffer, []);
    assert DecodeAll(reader.fuaBuffer, []) == done;
    for i := 0 to |packets|
      invariant DecodeAll(old(reader.fuaBuffer), packets[..i]) == Decoding(ok, reader.fuaBuffer, done.nalus)
      invariant output == PackageAll(reader.isAvc, done.nalus)
    {
      hide Parse, PackageAll;
      ghost var fua := reader.fuaBuffer;
      assert packets[..i + 1] == packets[..i] + [packets[i]];
      DecodeAllConcat(old(reader.fuaBuffer), packets[..i], [packets[i]]);
      DecodeSingle(fua, packets[i]);
      var error, more := reader.Unmarshal(packets[i], []);
      ghost var r := Parse(fua, packets[i]);
      EmptyPacket(fua, packets[i], reader.isAvc);
      PackageAllConcat(reader.isAvc, done.nalus, r.nalus);
      done := Decoding(done.ok && error == Ok, r.fua, done.nalus + r.nalus);
      ok := ok && error == Ok;
      output := output + more;
    }
    assert packets[..|packets|] == packets;
    OutputReadsBack(reader.isAvc, done.nalus);
  }

  lemma EmptyPacket(fua: Octets, p: Packet, avc: bool)
    ensures p == [] ==> PackageAll(avc, Parse(fua, p).nalus) == []
  {
  }

  lemma DeliversThese(c: Cache, j: Job)
    ensures forall n | n in Nalus(Delivers(c, j)) :: n != [] && (n == j.nalu || n == c.sps || n == c.pps)
  {
    hide StapASize;
    if j.nalu != [] {
      if Aggregates(c, j) { DeliverAggregate(c, j); } else { DeliveryAlone(Original(j.nalu)); }
    }
  }

  /** What is delivered are units that were sent, or were held at the start. */
  lemma {:induction false} DeliveredIsSent(c: Cache, js: seq<Job>)
    requires AllEnd(js)
    ensures forall n | n in Nalus(DeliversAll(c, js)) :: n in Sent(js) || (n != [] && (n == c.sps || n == c.pps))
    decreases |js|
  {
    hide FragmentationEnds, Fragments, StapASize, Nalus, Delivers;
    if js == [] {
      NothingDelivered();
    } else {
      var j, rest, c1 := js[0], js[1..], Emit(c, js[0]).cache;
      DeliveredIsSent(c1, rest);
      NalusConcat(Delivers(c, j), DeliversAll(c1, rest));
      DeliversThese(c, j);
      assert Sent(js) == (if j.nalu == [] then [] else [j.nalu]) + Sent(rest);
      assert c1.sps in [[], c.sps, j.nalu] && c1.pps in [[], c.pps, j.nalu];
    }
  }

  lemma NothingDelivered()
    ensures Nalus([]) == []
  {
  }

  /** The units of buffers that begin with start codes hold none. */
  lemma {:induction false} SentIsCodeFree(calls: seq<Call>)
    requires forall call | call in calls :: AnnexB.StartCoded(call.buffer)
    ensures forall n | n in Sent(JobsOf(calls)) :: AnnexB.CodeFree(n)
    decreases |calls|
  {
    hide AnnexB.CodeFree, AnnexB.StartCoded, AnnexB.Split;
    if calls != [] {
      var call := calls[0];
      var js := Jobs(call.mtu, call.stapa, AnnexB.Split(call.buffer));
      assert call in calls && forall k | k in calls[1..] :: k in calls;
      AnnexB.SplitCodeFree(call.buffer);
      SentIsCodeFree(calls[1..]);
      SentConcat(js, JobsOf(calls[1..]));
      SentIsOfJobs(js);
      forall n | n in Sent(js) ensures AnnexB.CodeFree(n) {
        var k :| 0 <= k < |js| && js[k].nalu == n;
        assert AnnexB.Split(call.buffer)[k] == n;
      }
    }
  }

  lemma {:induction false} SentConcat(xs: seq<Job>, ys: seq<Job>)
    ensures Sent(xs + ys) == Sent(xs) + Sent(ys)
    decreases |xs|
  {
    if xs == [] {
      assert xs + ys == ys;
    } else {
      SentConcat(xs[1..], ys);
      assert (xs + ys)[1..] == xs[1..] + ys && (xs + ys)[0] == xs[0];
    }
  }

  lemma {:induction false} SentIsOfJobs(js: seq<Job>)
    ensures forall n | n in Sent(js) :: exists k :: 0 <= k < |js| && js[k].nalu == n
    decreases |js|
  {
    if js != [] {
      SentIsOfJobs(js[1..]);
      forall n | n in Sent(js) ensures exists k :: 0 <= k < |js| && js[k].nalu == n {
        if n in Sent(js[1..]) {
          var k :| 0 <= k < |js[1..]| && js[1..][k].nalu == n;
          assert js[k + 1].nalu == n;
        }
      }
    }
  }

  /** Both objects: any sequence of `Payload` calls, every packet handed to one reader. The bytes that come out are the split
      units repackaged, behind the parameter sets that aggregation inserts when it is on. */
  method Transfer(calls: seq<Call>, avc: bool) returns (ok: bool, output: Octets)
    requires AllCarried(Cache([], []), JobsOf(calls))
    ensures ok && output == PackageAll(avc, Nalus(DeliversAll(Cache([], []), JobsOf(calls))))
    ensures ReadsBack(avc, output, Nalus(DeliversAll(Cache([], []), JobsOf(calls))))
    ensures !avc && output != [] && (forall call | call in calls :: AnnexB.StartCoded(call.buffer)) ==>
              AnnexB.Split(output) == AnnexB.WithTrailingZero(Nalus(DeliversAll(Cache([], []), JobsOf(calls))))
    ensures (forall j | j in JobsOf(calls) :: !j.stapa) ==> output == PackageAll(avc, Sent(JobsOf(calls)))
  {
    hide ReadsBack, AnnexB.Split, AnnexB.StartCoded, AnnexB.WithTrailingZero, PackageAll, DecodeAll, DeliversAll, Nalus;
    var sender := new H264Payloader();
    var reader := new H264Packet();
    reader.SetAVC(avc);
    var packets: seq<Packet> := [];
    ghost var all := SendAll(Cache([], []), calls);
    assert [] + all.packets == all.packets;
    for i := 0 to |calls|
      invariant fresh(sender) && fresh(reader) && reader.isAvc == avc && reader.fuaBuffer == []
      invariant AllEnd(JobsOf(calls[i..]))
      invariant var left := SendAll(sender.Held(), calls[i..]);
                all.packets == packets + left.packets
    {
      var call := calls[i];
      FirstCall(calls[i..]);
      assert calls[i..][1..] == calls[i + 1..];
      sender.DisableSTAPA(!call.stapa);
      ghost var held := sender.Held();
      var more := sender.Payload(call.mtu, call.buffer);
      Regroup(packets, more, SendAll(sender.Held(), calls[i + 1..]).packets);
      packets := packets + more;
    }
    assert packets + [] == packets;
    EndToEnd(calls);
    if forall j | j in JobsOf(calls) :: !j.stapa { NothingInserted(Cache([], []), JobsOf(calls)); }
    ok, output := ReceivePackets(reader, packets);
    if !avc && output != [] && forall call | call in calls :: AnnexB.StartCoded(call.buffer) { ScannedBack(calls, output); }
  }

  lemma ScannedBack(calls: seq<Call>, output: Octets)
    requires AllEnd(JobsOf(calls)) && ReadsBack(false, output, Nalus(DeliversAll(Cache([], []), JobsOf(calls))))
    requires output != [] && forall call | call in calls :: AnnexB.StartCoded(call.buffer)
    ensures AnnexB.Split(output) == AnnexB.WithTrailingZero(Nalus(DeliversAll(Cache([], []), JobsOf(calls))))
  {
    hide AnnexB.Split, AnnexB.CodeFree, AnnexB.StartCoded, AnnexB.WithTrailingZero;
    DeliveredIsSent(Cache([], []), JobsOf(calls));
    SentIsCodeFree(calls);
  }

  lemma FirstCall(calls: seq<Call>)
    requires calls != [] && AllEnd(JobsOf(calls))
    ensures AllEnd(Jobs(calls[0].mtu, calls[0].stapa, AnnexB.Split(calls[0].buffer))) && AllEnd(JobsOf(calls[1..]))
    ensures forall n | n in AnnexB.Split(calls[0].buffer) :: FragmentationEnds(calls[0].mtu, n)
  {
    hide AnnexB.Split, FragmentationEnds;
    var nalus := AnnexB.Split(calls[0].buffer);
    var js := Jobs(calls[0].mtu, calls[0].stapa, nalus);
    assert JobsOf(calls) == js + JobsOf(calls[1..]);
    assert forall j | j in js :: j in JobsOf(calls);
    assert forall j | j in JobsOf(calls[1..]) :: j in JobsOf(calls);
    forall n | n in nalus ensures FragmentationEnds(calls[0].mtu, n) {
      var k :| 0 <= k < |nalus| && nalus[k] == n;
      assert js[k] in js;
    }
  }

  /** An elementary stream of code-free, non-empty units, joined by start codes of either length, arrives: its units come back,
      each but the last with one zero behind it when the codes have four bytes, and nothing else comes but the parameter sets
      that aggregation inserts. */
  lemma ElementaryStream(mtu: uint16, stapa: bool, long: bool, nalus: seq<Nalu>)
    requires nalus != [] && forall n | n in nalus :: n != [] && AnnexB.CodeFree(n)
    requires AllCarried(Cache([], []), Jobs(mtu, stapa, if long then AnnexB.WithTrailingZero(nalus) else nalus))
    ensures var units := if long then AnnexB.WithTrailingZero(nalus) else nalus;
            var buffer := if long then AnnexB.LONG_CODE + AnnexB.LongJoin(nalus) else AnnexB.CODE + AnnexB.Join(nalus);
            var call := Call(mtu, stapa, buffer);
            && AllEnd(JobsOf([call]))
            && var got := DecodeAll([], SendAll(Cache([], []), [call]).packets);
               var ds := DeliversAll(Cache([], []), JobsOf([call]));
               got == Decoding(true, [], Nalus(ds)) && Originals(ds) == units && (!stapa ==> got.nalus == units)
  {
    var units := if long then AnnexB.WithTrailingZero(nalus) else nalus;
    var buffer := if long then AnnexB.LONG_CODE + AnnexB.LongJoin(nalus) else AnnexB.CODE + AnnexB.Join(nalus);
    if long { AnnexB.SplitLongJoin(nalus); } else { AnnexB.SplitJoin(AnnexB.CODE, nalus); }
    var call := Call(mtu, stapa, buffer);
    var js := Jobs(mtu, stapa, units);
    OneCall(call);
    hide AnnexB.Split, AnnexB.Join, AnnexB.LongJoin, AnnexB.CodeFree, DecodeAll, SendAll, AllCarried, DeliversAll;
    assert JobsOf([call]) == js;
    EndToEnd([call]);
    NotEmpty(nalus);
    SentAll(mtu, stapa, units);
    if !stapa { NothingInserted(Cache([], []), js); }
  }

  lemma OneCall(call: Call)
    ensures JobsOf([call]) == Jobs(call.mtu, call.stapa, AnnexB.Split(call.buffer))
  {
    var js := Jobs(call.mtu, call.stapa, AnnexB.Split(call.buffer));
    assert [call][1..] == [] && js + [] == js;
  }

  lemma {:induction false} NotEmpty(nalus: seq<Nalu>)
    requires forall n | n in nalus :: n != []
    ensures forall n | n in AnnexB.WithTrailingZero(nalus) :: n != []
    decreases |nalus|
  {
    if |nalus| > 1 {
      assert forall n | n in nalus[1..] :: n in nalus;
      NotEmpty(nalus[1..]);
    }
  }

  lemma {:induction false} SentAll(mtu: uint16, stapa: bool, nalus: seq<Nalu>)
    requires forall n | n in nalus :: n != []
    ensures Sent(Jobs(mtu, stapa, nalus)) == nalus
    decreases |nalus|
  {
    if nalus == [] {
      assert Jobs(mtu, stapa, nalus) == [];
    } else {
      forall n | n in nalus[1..] ensures n != [] { assert n in nalus; }
      SentAll(mtu, stapa, nalus[1..]);
      var js := Jobs(mtu, stapa, nalus);
      assert js[1..] == Jobs(mtu, stapa, nalus[1..]);
      assert js[0].nalu == nalus[0] && nalus[0] in nalus;
      assert nalus == [nalus[0]] + nalus[1..];
    }
  }
}
