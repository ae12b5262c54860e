/** What the server's reader makes of packets of any kind, in any order, whoever sent them. */
module H264Arrivals {
  import opened Bytes
  import opened H264Nalu
  import opened H264RtpPacket
  import opened H264EndToEnd

  /** The answer for any packet but an aggregate, and that nothing but a fragment touches the buffer. */
  lemma AnswersByType(fua: Octets, p: Packet)
    requires p != [] ==> p[0] % 0x20 != 24
    ensures var r := Parse(fua, p);
            if p == [] then r == Parsed(NilPacket, fua, [])
            else if 1 <= p[0] % 0x20 <= 12 || 19 <= p[0] % 0x20 <= 23 then r == Parsed(Ok, fua, [p])
            else if p[0] % 0x20 != 28 then r == Parsed(UnhandledNaluType, fua, [])
            else if |p| < 2 then r == Parsed(ShortPacket, fua, [])
            else r.error == Ok
  {
  }

  /** No room for a length, or a length that overruns the end. */
  predicate Cut(tail: Octets) {
    |tail| < 2 || 2 + From16(tail[0], tail[1]) > |tail|
  }

  lemma {:induction false} MembersUpTo(nalus: seq<Nalu>, tail: Octets)
    requires (forall n | n in nalus :: |n| < 0x1_0000) && Cut(tail)
    ensures Members(StapABody(nalus) + tail) == Walk(|tail| < 2, nalus)
    decreases |nalus|
  {
    if nalus == [] {
      assert StapABody(nalus) + tail == tail;
    } else {
      var n, more := nalus[0], nalus[1..];
      assert nalus == [n] + more && n in nalus && forall m | m in more :: m in nalus;
      var length := Be16(|n|);
      assert StapABody(nalus) == length + n + StapABody(more);
      MembersUpTo(more, tail);
      var r := length + n + (StapABody(more) + tail);
      assert r[0] == length[0] && r[1] == length[1] && r[2..2 + |n|] == n && r[2 + |n|..] == StapABody(more) + tail;
      hide StapABody, Be16, From16, Cut;
      Regroup(length + n, StapABody(more), tail);
    }
  }

  /** An aggregation packet gives its members, empty ones included, up to its end or the first length that overruns it; and it
      is refused exactly in the second case. */
  lemma AggregateAnswer(fua: Octets, header: uint8, nalus: seq<Nalu>, tail: Octets)
    requires header % 0x20 == 24 && (forall n | n in nalus :: |n| < 0x1_0000) && Cut(tail)
    ensures Parse(fua, [header] + (StapABody(nalus) + tail)) == Parsed(if |tail| < 2 then Ok else ShortPacket, fua, nalus)
  {
    var p := [header] + (StapABody(nalus) + tail);
    MembersUpTo(nalus, tail);
    assert p[1..] == StapABody(nalus) + tail;
    hide StapABody, Members;
  }

  predicate IsFragment(p: Packet) {
    |p| >= 2 && p[0] % 0x20 == 28
  }

  /** A fragment with its E bit set. */
  predicate EndsUnit(p: Packet) {
    IsFragment(p) && p[1] / 0x40 % 2 == 1
  }

  /** The bodies of the fragments among `ps`. */
  function BodiesOf(ps: seq<Packet>): Octets {
    if ps == [] then []
    else BodiesOf(ps[..|ps| - 1]) + if IsFragment(ps[|ps| - 1]) then ps[|ps| - 1][2..] else []
  }

  /** Packet `m` is the first behind the last end of a unit. */
  ghost predicate SinceEnd(ps: seq<Packet>, m: nat) {
    && m <= |ps| && (m == 0 || EndsUnit(ps[m - 1]))
    && forall k | m <= k < |ps| :: !EndsUnit(ps[k])
  }

  lemma OneMore(ps: seq<Packet>, p: Packet)
    ensures DecodeAll([], ps + [p]).fua == Parse(DecodeAll([], ps).fua, p).fua
    ensures DecodeAll([], ps + [p]).nalus == DecodeAll([], ps).nalus + Parse(DecodeAll([], ps).fua, p).nalus
  {
    hide Parse;
    DecodeAllConcat([], ps, [p]);
    DecodeSingle(DecodeAll([], ps).fua, p);
  }

  /** Over every sequence of arrivals the buffer is the bodies of all fragments since the last end of a unit, whether they
      belong together or not: this reader does not look at the S bit. */
  lemma {:induction false} BufferSinceEnd(ps: seq<Packet>, m: nat)
    requires SinceEnd(ps, m)
    ensures DecodeAll([], ps).fua == BodiesOf(ps[m..])
    decreases |ps|
  {
    if ps == [] {
      assert ps[m..] == [];
    } else {
      var init, last := ps[..|ps| - 1], ps[|ps| - 1];
      assert ps == init + [last];
      OneMore(init, last);
      if m == |ps| {
        assert ps[m..] == [];
        LeavesNothing(DecodeAll([], init).fua, last);
      } else {
        BufferSinceEnd(init, m);
        assert ps[m..][..|ps| - m - 1] == init[m..] && ps[m..][|ps| - m - 1] == last;
        Extends(DecodeAll([], init).fua, last);
      }
    }
  }

  lemma LeavesNothing(fua: Octets, p: Packet)
    requires EndsUnit(p)
    ensures Parse(fua, p) == Parsed(Ok, [], [[RefIdc(p[0]) + p[1] % 0x20] + fua + p[2..]])
  {
  }

  lemma Extends(fua: Octets, p: Packet)
    requires !EndsUnit(p)
    ensures Parse(fua, p).fua == fua + if IsFragment(p) then p[2..] else []
  {
    assert fua + [] == fua;
  }

  /** And the end of a unit releases it: the header of the last fragment and everything collected. */
  lemma EndReleases(ps: seq<Packet>, m: nat, p: Packet)
    requires SinceEnd(ps, m) && EndsUnit(p)
    ensures DecodeAll([], ps + [p]).nalus
         == DecodeAll([], ps).nalus + [[p[0] / 0x20 % 4 * 0x20 + p[1] % 0x20] + BodiesOf(ps[m..]) + p[2..]]
  {
    BufferSinceEnd(ps, m);
    OneMore(ps, p);
    LeavesNothing(DecodeAll([], ps).fua, p);
  }

  /** A fragment that ends no unit gives none. */
  lemma OthersReleaseNothing(ps: seq<Packet>, p: Packet)
    requires IsFragment(p) && !EndsUnit(p)
    ensures DecodeAll([], ps + [p]).nalus == DecodeAll([], ps).nalus
  {
    OneMore(ps, p);
    assert DecodeAll([], ps).nalus + [] == DecodeAll([], ps).nalus;
  }
}
