/** When parameter sets are held and when they travel together with a unit, said of the history of units alone. */
module H264Aggregation {
  import opened Bytes
  import opened H264Nalu
  import opened H264RtpPacketizer
  import opened H264RtpPacket
  import opened H264EndToEnd

  /** A sequence (7) or picture (8) parameter set handed in with aggregation on. */
  predicate Stores(j: Job, t: nat) {
    j.stapa && j.nalu != [] && j.nalu[0] % 0x20 == t
  }

  /** A unit that may take held parameter sets along: aggregation is on, and it is no parameter set, access unit delimiter (9)
      or filler (12). */
  predicate TakesAlong(j: Job) {
    j.stapa && j.nalu != [] && j.nalu[0] % 0x20 !in {7, 8, 9, 12}
  }

  /** With `held` it goes out in one packet: header byte, and three lengths of two bytes each. */
  predicate Together(held: Cache, j: Job) {
    TakesAlong(j) && held.sps != [] && held.pps != [] && 7 + |held.sps| + |held.pps| + |j.nalu| <= j.mtu
  }

  /** The parameter sets held after `js`: each the last one handed in, until a unit takes both along. */
  function Held(c: Cache, js: seq<Job>): Cache
    decreases |js|
  {
    if js == [] then c
    else
      var before, last := Held(c, js[..|js| - 1]), js[|js| - 1];
      if Together(before, last) then Cache([], [])
      else Cache(if Stores(last, 7) then last.nalu else before.sps, if Stores(last, 8) then last.nalu else before.pps)
  }

  lemma HeldStep(c: Cache, js: seq<Job>, j: Job)
    ensures var before := Held(c, js);
            Held(c, js + [j]) == if Together(before, j) then Cache([], [])
                                 else Cache(if Stores(j, 7) then j.nalu else before.sps, if Stores(j, 8) then j.nalu else before.pps)
  {
    assert (js + [j])[..|js|] == js;
  }

  /** One more unit: what is held becomes what its history says, and what goes out is the aggregate, the unit or its fragments. */
  lemma UnitGoesOut(c: Cache, j: Job)
    requires FragmentationEnds(j.mtu, j.nalu)
    ensures var e := Emit(c, j);
            && e.cache == (if Together(c, j) then Cache([], [])
                           else Cache(if Stores(j, 7) then j.nalu else c.sps, if Stores(j, 8) then j.nalu else c.pps))
            && if j.nalu == [] then e.packets == []
               else if Together(c, j) then
                 && |e.packets| == 1 && |e.packets[0]| > 0 && e.packets[0][0] == 0x78
                 && Members(e.packets[0][1..]) == Walk(true, [c.sps, c.pps, j.nalu])
               else if |j.nalu| <= j.mtu then e.packets == [j.nalu]
               else e.packets == Fragments(j.mtu, j.nalu)
  {
    hide Fragments;
    if Together(c, j) {
      var ms := [c.sps, c.pps, j.nalu];
      MembersOfStapA(ms);
      assert StapA(ms)[1..] == StapABody(ms);
    }
  }

  /** What the payloader holds is what the history of units says. */
  lemma {:induction false} HeldExactly(c: Cache, js: seq<Job>)
    requires AllEnd(js)
    ensures EmitAll(c, js).cache == Held(c, js)
    decreases |js|
  {
    if js != [] {
      var init, last := js[..|js| - 1], js[|js| - 1];
      assert js == init + [last];
      assert last in js && forall j | j in init :: j in js;
      HeldExactly(c, init);
      CacheAfterLast(c, init, last);
      HeldStep(c, init, last);
      UnitGoesOut(Held(c, init), last);
    }
  }

  /** The packets of one unit, for any units before it. It travels in one aggregation packet behind the held parameter sets,
      from which all three are read back, if and only if both are held and the packet fits; otherwise alone or in fragments. */
  lemma NextUnit(c: Cache, js: seq<Job>, j: Job) returns (ps: seq<Packet>)
    requires AllEnd(js + [j])
    ensures AllEnd(js) && EmitAll(c, js + [j]).packets == EmitAll(c, js).packets + ps
    ensures var held := Held(c, js);
            if j.nalu == [] then ps == []
            else if Together(held, j) then
              |ps| == 1 && |ps[0]| > 0 && ps[0][0] == 0x78 && Members(ps[0][1..]) == Walk(true, [held.sps, held.pps, j.nalu])
            else if |j.nalu| <= j.mtu then ps == [j.nalu]
            else ps == Fragments(j.mtu, j.nalu)
  {
    hide Fragments, Members, Emit, FragmentationEnds;
    assert j in js + [j] && forall k | k in js :: k in js + [j];
    HeldExactly(c, js);
    EmitAllConcat(c, js, [j]);
    UnitGoesOut(Held(c, js), j);
    ps := Emit(Held(c, js), j).packets;
    LastEmission(Held(c, js), j);
  }

  lemma LastEmission(c: Cache, j: Job)
    requires FragmentationEnds(j.mtu, j.nalu)
    ensures AllEnd([j]) && EmitAll(c, [j]) == Emit(c, j)
  {
    hide Emit, FragmentationEnds;
    var e := Emit(c, j);
    assert [j][1..] == [] && EmitAll(e.cache, []) == Emission(e.cache, []);
    assert e.packets + [] == e.packets;
  }

  /** Unit `k` travels with parameter sets. */
  predicate TogetherAt(js: seq<Job>, k: nat)
    requires k < |js|
  {
    Together(Held(Cache([], []), js[..k]), js[k])
  }

  function Part(c: Cache, t: nat): Nalu { if t == 7 then c.sps else c.pps }

  /** Unit `i` is the last parameter set of its type, and none has been taken along since. */
  ghost predicate LastSet(js: seq<Job>, t: nat, i: nat) {
    && i < |js| && Stores(js[i], t)
    && forall k | i < k < |js| :: !Stores(js[k], t) && !TogetherAt(js, k)
  }

  /** What a fresh payloader holds of either type: the last set handed in since parameter sets were last taken along, and
      nothing exactly when there is none. */
  lemma {:induction false} HeldMeaning(js: seq<Job>, t: nat)
    requires t == 7 || t == 8
    ensures var h := Part(Held(Cache([], []), js), t);
            && (h == [] <==> forall i: nat :: !LastSet(js, t, i))
            && forall i: nat | LastSet(js, t, i) :: h == js[i].nalu
    decreases |js|
  {
    hide Held, Together;
    if js == [] {
      NoneHeld();
    } else {
      var init, last, n := js[..|js| - 1], js[|js| - 1], |js| - 1;
      assert js == init + [last];
      HeldStep(Cache([], []), init, last);
      HeldMeaning(init, t);
      assert TogetherAt(js, n) <==> Together(Held(Cache([], []), init), last);
      forall i: nat ensures LastSet(js, t, i) <==> if i == n then Stores(last, t)
                                                  else LastSet(init, t, i) && !Stores(last, t) && !TogetherAt(js, n)
      {
        forall k | 0 <= k < n ensures TogetherAt(js, k) <==> TogetherAt(init, k) { assert js[..k] == init[..k]; }
      }
      assert Stores(last, t) ==> !Together(Held(Cache([], []), init), last) by { SetsTravelAlone(Held(Cache([], []), init), last, t); }
      assert LastSet(js, t, n) <==> Stores(last, t);
      assert last.nalu == js[n].nalu;
    }
  }

  lemma NoneHeld()
    ensures Held(Cache([], []), []) == Cache([], [])
  {
  }

  lemma SetsTravelAlone(c: Cache, j: Job, t: nat)
    requires t == 7 || t == 8
    ensures Stores(j, t) ==> !Together(c, j)
  {
  }

  lemma ThreeUnits(mtu: uint16, sps: Nalu, pps: Nalu, n: Nalu)
    requires sps != [] && sps[0] % 0x20 == 7 && pps != [] && pps[0] % 0x20 == 8
    requires n != [] && n[0] % 0x20 !in {7, 8, 9, 12} && 7 + |sps| + |pps| + |n| <= mtu
    ensures AllEnd(Jobs(mtu, true, [sps, pps, n]))
    ensures var ps := EmitAll(Cache([], []), Jobs(mtu, true, [sps, pps, n])).packets;
            && |ps| == 3 && ps[0] == sps && ps[1] == pps
            && |ps[2]| > 0 && ps[2][0] == 0x78 && Members(ps[2][1..]) == Walk(true, [sps, pps, n])
  {
    hide Members, Emit, EmitAll, Fragments, Held;
    var none := Cache([], []);
    var j1, j2, j3 := Job(mtu, true, sps), Job(mtu, true, pps), Job(mtu, true, n);
    assert Jobs(mtu, true, [sps, pps, n]) == [] + [j1] + [j2] + [j3];
    var p1 := NextUnit(none, [], j1);
    var p2 := NextUnit(none, [] + [j1], j2);
    var p3 := NextUnit(none, [] + [j1] + [j2], j3);
    HeldStep(none, [], j1);
    HeldStep(none, [] + [j1], j2);
    NoneHeld();
    NoneSent(none);
    assert [] + p1 + p2 + p3 == [sps, pps, p3[0]];
  }

  lemma NoneSent(c: Cache)
    ensures EmitAll(c, []).packets == []
  {
  }

  /** The start of a stream: a fresh payloader, one buffer with both parameter sets and a unit that fits behind them. The sets
      go out, and then once more in the unit's packet. */
  lemma FirstAggregate(mtu: uint16, sps: Nalu, pps: Nalu, n: Nalu)
    requires sps != [] && sps[0] % 0x20 == 7 && pps != [] && pps[0] % 0x20 == 8
    requires n != [] && n[0] % 0x20 !in {7, 8, 9, 12} && 7 + |sps| + |pps| + |n| <= mtu
    requires AnnexB.CodeFree(sps) && AnnexB.CodeFree(pps) && AnnexB.CodeFree(n)
    ensures var call := Call(mtu, true, AnnexB.LONG_CODE + AnnexB.Join([sps, pps, n]));
            && AllEnd(JobsOf([call]))
            && var ps := SendAll(Cache([], []), [call]).packets;
               && |ps| == 3 && ps[0] == sps && ps[1] == pps
               && |ps[2]| > 0 && ps[2][0] == 0x78 && Members(ps[2][1..]) == Walk(true, [sps, pps, n])
  {
    var units := [sps, pps, n];
    var call := Call(mtu, true, AnnexB.LONG_CODE + AnnexB.Join(units));
    AnnexB.SplitJoin(AnnexB.LONG_CODE, units);
    OneCall(call);
    ThreeUnits(mtu, sps, pps, n);
    SendAllIsEmitAll(Cache([], []), [call]);
  }
}
