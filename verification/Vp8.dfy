/** VP8 over RTP: the payload descriptor, its reader, and the fragmenter with its picture counter (RFC 7741, section 4.2). */
module Vp8Packet {
  import opened Bytes

  type bit = x: int | 0 <= x < 2

  /** The descriptor as the reader keeps it. */
  datatype Descriptor = Descriptor(
    x: bit, n: bit, s: bit, pid: nat, i: bit, l: bit, t: bit, k: bit,
    pictureId: nat, tl0PicIdx: nat, tid: nat, y: nat, keyIdx: nat)

  datatype Outcome = Payload(bytes: Octets) | NilPacket | ShortPacket

  // --- the wire format

  /** Field widths, and absent fields zero. */
  predicate WellFormed(d: Descriptor) {
    && d.pid < 8 && d.pictureId < 0x8000 && d.tl0PicIdx < 0x100 && d.tid < 4 && d.y < 2 && d.keyIdx < 32
    && (d.x == 0 ==> d.i == 0 && d.l == 0 && d.t == 0 && d.k == 0)
    && (d.i == 0 ==> d.pictureId == 0)
    && (d.l == 0 ==> d.tl0PicIdx == 0)
    && (d.t == 0 ==> d.tid == 0 && d.y == 0)
    && (d.k == 0 ==> d.keyIdx == 0)
  }

  function PictureIdField(d: Descriptor, wide: bool): Octets
    requires WellFormed(d) && (wide || d.pictureId < 128)
  {
    if d.i == 0 then []
    else if wide then [0x80 + d.pictureId / 0x100, d.pictureId % 0x100]
    else [d.pictureId]
  }

  function TailFields(d: Descriptor): Octets
    requires WellFormed(d)
  {
    (if d.l == 1 then [d.tl0PicIdx] else [])
    + (if d.t == 1 || d.k == 1 then [d.tid * 64 + d.y * 32 + d.keyIdx] else [])
  }

  /** The octets of a descriptor; `wide` chooses the two-octet picture number. */
  function Encode(d: Descriptor, wide: bool): Octets
    requires WellFormed(d) && (wide || d.pictureId < 128)
  {
    [d.x * 128 + d.n * 32 + d.s * 16 + d.pid]
    + (if d.x == 1 then [d.i * 128 + d.l * 64 + d.t * 32 + d.k * 16] else [])
    + PictureIdField(d, wide)
    + TailFields(d)
  }

  // --- what the reader computes, from what it held before

  function Bit(b: uint8, weight: int): bit
    requires weight > 0
  {
    b / weight % 2
  }

  function ReadFirst(d: Descriptor, b: Octets): (Descriptor, Outcome)
    requires b != []
  {
    var d1 := d.(x := Bit(b[0], 128), n := Bit(b[0], 32), s := Bit(b[0], 16), pid := b[0] % 8);
    if d1.x == 0 then ReadPictureId(d1.(i := 0, l := 0, t := 0, k := 0), b[1..])
    else if |b| == 1 then (d1, ShortPacket)
    else ReadPictureId(d1.(i := Bit(b[1], 128), l := Bit(b[1], 64), t := Bit(b[1], 32), k := Bit(b[1], 16)), b[2..])
  }

  function ReadPictureId(d: Descriptor, b: Octets): (Descriptor, Outcome) {
    if d.i == 0 then ReadTl0(d.(pictureId := 0), b)
    else if b == [] then (d, ShortPacket)
    else if b[0] < 128 then ReadTl0(d.(pictureId := b[0]), b[1..])
    else if |b| == 1 then (d, ShortPacket)
    else ReadTl0(d.(pictureId := b[0] as int % 128 * 0x100 + b[1] as int), b[2..])
  }

  function ReadTl0(d: Descriptor, b: Octets): (Descriptor, Outcome) {
    if d.l == 0 then ReadTidKey(d.(tl0PicIdx := 0), b)
    else if b == [] then (d, ShortPacket)
    else ReadTidKey(d.(tl0PicIdx := b[0]), b[1..])
  }

  function ReadTidKey(d: Descriptor, b: Octets): (Descriptor, Outcome) {
    if d.t == 0 && d.k == 0 then (d.(tid := 0, y := 0, keyIdx := 0), Payload(b))
    else if b == [] then (d, ShortPacket)
    else
      (d.(tid := if d.t == 1 then b[0] / 64 else 0, y := if d.t == 1 then b[0] / 32 % 2 else 0,
          keyIdx := if d.k == 1 then b[0] % 32 else 0),
       Payload(b[1..]))
  }

  function Unmarshalled(d: Descriptor, b: Octets): (Descriptor, Outcome) {
    if b == [] then (d, NilPacket) else ReadFirst(d, b)
  }

  lemma ReadTailFields(d0: Descriptor, d: Descriptor, t: Octets)
    requires WellFormed(d) && d0.(tl0PicIdx := d.tl0PicIdx, tid := d.tid, y := d.y, keyIdx := d.keyIdx) == d
    ensures ReadTl0(d0, TailFields(d) + t) == (d, Payload(t))
  {
    var tk: Octets := if d.t == 1 || d.k == 1 then [d.tid * 64 + d.y * 32 + d.keyIdx] else [];
    var d1 := d0.(tl0PicIdx := d.tl0PicIdx);
    assert (tk + t)[|tk|..] == t;
    assert ReadTidKey(d1, tk + t) == (d, Payload(t));
    if d.l == 1 {
      assert (TailFields(d) + t)[1..] == tk + t;
    } else {
      assert TailFields(d) + t == tk + t;
    }
  }

  lemma ReadPictureIdField(d0: Descriptor, d: Descriptor, wide: bool, rest: Octets)
    requires WellFormed(d) && (wide || d.pictureId < 128) && d0.i == d.i
    ensures ReadPictureId(d0, PictureIdField(d, wide) + rest) == ReadTl0(d0.(pictureId := d.pictureId), rest)
  {
    hide ReadTl0;
    var f := PictureIdField(d, wide);
    assert (f + rest)[|f|..] == rest;
  }

  /** Reading undoes the wire format for every descriptor and payload, whatever the reader held before. */
  lemma UnmarshalInvertsEncode(old_: Descriptor, d: Descriptor, wide: bool, t: Octets)
    requires WellFormed(d) && (wide || d.pictureId < 128)
    ensures Unmarshalled(old_, Encode(d, wide) + t) == (d, Payload(t))
  {
    hide ReadTl0, PictureIdField, TailFields, ReadPictureId;
    var b := Encode(d, wide) + t;
    var head: Octets := [d.x * 128 + d.n * 32 + d.s * 16 + d.pid] + (if d.x == 1 then [d.i * 128 + d.l * 64 + d.t * 32 + d.k * 16] else []);
    var rest := TailFields(d) + t;
    assert b == head + (PictureIdField(d, wide) + rest);
    assert b[|head|..] == PictureIdField(d, wide) + rest;
    var d1 := old_.(x := d.x, n := d.n, s := d.s, pid := d.pid, i := d.i, l := d.l, t := d.t, k := d.k);
    FirstOctet(d);
    assert ReadFirst(old_, b) == ReadPictureId(d1, PictureIdField(d, wide) + rest);
    ReadPictureIdField(d1, d, wide, rest);
    ReadTailFields(d1.(pictureId := d.pictureId), d, t);
  }

  lemma FlagsOfFirst(x: nat, n: nat, s: nat, low: nat)
    requires x < 2 && n < 2 && s < 2 && low < 8
    ensures var b := x * 128 + n * 32 + s * 16 + low; Bit(b, 128) == x && Bit(b, 32) == n && Bit(b, 16) == s && b % 8 == low
  {
    var b := x * 128 + n * 32 + s * 16 + low;
    assert b / 128 == x && b / 32 == x * 4 + n && b / 16 == x * 8 + n * 2 + s;
  }

  lemma FlagsOfSecond(i: nat, l: nat, t: nat, k: nat)
    requires i < 2 && l < 2 && t < 2 && k < 2
    ensures var b := i * 128 + l * 64 + t * 32 + k * 16; Bit(b, 128) == i && Bit(b, 64) == l && Bit(b, 32) == t && Bit(b, 16) == k
  {
    var b := i * 128 + l * 64 + t * 32 + k * 16;
    assert b / 128 == i && b / 64 == i * 2 + l && b / 32 == i * 4 + l * 2 + t && b / 16 == i * 8 + l * 4 + t * 2 + k;
  }

  lemma FirstOctet(d: Descriptor)
    requires WellFormed(d)
    ensures var b := d.x * 128 + d.n * 32 + d.s * 16 + d.pid;
            Bit(b, 128) == d.x && Bit(b, 32) == d.n && Bit(b, 16) == d.s && b % 8 == d.pid
    ensures var b := d.i * 128 + d.l * 64 + d.t * 32 + d.k * 16;
            Bit(b, 128) == d.i && Bit(b, 64) == d.l && Bit(b, 32) == d.t && Bit(b, 16) == d.k
  {
    FlagsOfFirst(d.x, d.n, d.s, d.pid);
    FlagsOfSecond(d.i, d.l, d.t, d.k);
  }

  /** The fields every reading has set before it comes to the picture number. */
  ghost predicate SameFlags(d1: Descriptor, d2: Descriptor) {
    d1.x == d2.x && d1.n == d2.n && d1.s == d2.s && d1.pid == d2.pid && d1.i == d2.i && d1.l == d2.l && d1.t == d2.t && d1.k == d2.k
  }

  ghost predicate FlagsOk(d: Descriptor) {
    d.pid < 8 && (d.x == 0 ==> d.i == 0 && d.l == 0 && d.t == 0 && d.k == 0)
  }

  lemma TidKeyForgets(d1: Descriptor, d2: Descriptor, b: Octets)
    requires SameFlags(d1, d2) && d1.pictureId == d2.pictureId && d1.tl0PicIdx == d2.tl0PicIdx && ReadTidKey(d1, b).1.Payload?
    ensures ReadTidKey(d2, b) == ReadTidKey(d1, b)
    ensures var d := ReadTidKey(d1, b).0;
            && SameFlags(d, d1) && d.pictureId == d1.pictureId && d.tl0PicIdx == d1.tl0PicIdx
            && d.tid < 4 && d.y < 2 && d.keyIdx < 32 && (d.t == 0 ==> d.tid == 0 && d.y == 0) && (d.k == 0 ==> d.keyIdx == 0)
  {
  }

  lemma Tl0Forgets(d1: Descriptor, d2: Descriptor, b: Octets)
    requires SameFlags(d1, d2) && d1.pictureId == d2.pictureId && ReadTl0(d1, b).1.Payload?
    requires FlagsOk(d1) && d1.pictureId < 0x8000 && (d1.i == 0 ==> d1.pictureId == 0)
    ensures ReadTl0(d2, b) == ReadTl0(d1, b) && WellFormed(ReadTl0(d1, b).0)
  {
    hide ReadTidKey;
    var v := if d1.l == 0 then 0 else b[0];
    TidKeyForgets(d1.(tl0PicIdx := v), d2.(tl0PicIdx := v), if d1.l == 0 then b else b[1..]);
  }

  lemma PictureIdForgets(d1: Descriptor, d2: Descriptor, b: Octets)
    requires SameFlags(d1, d2) && FlagsOk(d1) && ReadPictureId(d1, b).1.Payload?
    ensures ReadPictureId(d2, b) == ReadPictureId(d1, b) && WellFormed(ReadPictureId(d1, b).0)
  {
    hide ReadTl0, WellFormed;
    if d1.i == 0 {
      Tl0Forgets(d1.(pictureId := 0), d2.(pictureId := 0), b);
    } else if b[0] < 128 {
      Tl0Forgets(d1.(pictureId := b[0]), d2.(pictureId := b[0]), b[1..]);
    } else {
      var v := b[0] as int % 128 * 0x100 + b[1] as int;
      Tl0Forgets(d1.(pictureId := v), d2.(pictureId := v), b[2..]);
    }
  }

  /** A successful reading leaves nothing of the previous packet, and a well-formed descriptor. */
  lemma SuccessForgets(d1: Descriptor, d2: Descriptor, b: Octets)
    requires Unmarshalled(d1, b).1.Payload?
    ensures Unmarshalled(d2, b) == Unmarshalled(d1, b) && WellFormed(Unmarshalled(d1, b).0)
  {
    hide ReadPictureId, WellFormed;
    var e1 := d1.(x := Bit(b[0], 128), n := Bit(b[0], 32), s := Bit(b[0], 16), pid := b[0] % 8);
    var e2 := d2.(x := Bit(b[0], 128), n := Bit(b[0], 32), s := Bit(b[0], 16), pid := b[0] % 8);
    if e1.x == 0 {
      PictureIdForgets(e1.(i := 0, l := 0, t := 0, k := 0), e2.(i := 0, l := 0, t := 0, k := 0), b[1..]);
    } else {
      PictureIdForgets(e1.(i := Bit(b[1], 128), l := Bit(b[1], 64), t := Bit(b[1], 32), k := Bit(b[1], 16)),
                       e2.(i := Bit(b[1], 128), l := Bit(b[1], 64), t := Bit(b[1], 32), k := Bit(b[1], 16)), b[2..]);
    }
  }

  /** How many octets the flags ask for. */
  function DescriptorLength(b: Octets): nat
    requires b != []
  {
    if b[0] < 128 then 1
    else if |b| < 2 then 2
    else
      2 + (if b[1] < 128 then 0 else if |b| > 2 && b[2] >= 128 then 2 else 1)
        + Bit(b[1], 64) + if Bit(b[1], 32) == 1 || Bit(b[1], 16) == 1 then 1 else 0
  }

  /** The flags are those of the first octet, and of the second when there is one, whether or not the rest could be read. */
  lemma FlagsStay(d: Descriptor, b: Octets)
    requires b != []
    ensures var r := Unmarshalled(d, b).0;
            && r.x == b[0] / 128 && r.n == b[0] / 32 % 2 && r.s == b[0] / 16 % 2 && r.pid == b[0] % 8
            && (if b[0] < 128 then r.i == 0 && r.l == 0 && r.t == 0 && r.k == 0
                else if |b| == 1 then r.i == d.i && r.l == d.l && r.t == d.t && r.k == d.k
                else r.i == b[1] / 128 && r.l == b[1] / 64 % 2 && r.t == b[1] / 32 % 2 && r.k == b[1] / 16 % 2)
  {
    hide ReadPictureId;
    var d1 := d.(x := Bit(b[0], 128), n := Bit(b[0], 32), s := Bit(b[0], 16), pid := b[0] % 8);
    if d1.x == 0 {
      TailKeepsFlags(d1.(i := 0, l := 0, t := 0, k := 0), b[1..]);
    } else if |b| > 1 {
      TailKeepsFlags(d1.(i := Bit(b[1], 128), l := Bit(b[1], 64), t := Bit(b[1], 32), k := Bit(b[1], 16)), b[2..]);
    }
  }

  /** The reserved bits, 0x40 of the first octet and the low four of the second, make no difference. */
  lemma ReservedIgnored(d: Descriptor, b: Octets)
    requires b != []
    ensures var b1 := b[0 := b[0] - b[0] / 64 % 2 * 64];
            Unmarshalled(d, b1) == Unmarshalled(d, b)
            && (b[0] >= 128 && |b| > 1 ==> Unmarshalled(d, b[1 := b[1] - b[1] % 16]) == Unmarshalled(d, b))
  {
    hide ReadPictureId;
    var b1 := b[0 := b[0] - b[0] / 64 % 2 * 64];
    WithoutReserved(b[0]);
    assert b1[1..] == b[1..];
    if |b| > 1 {
      assert b1[2..] == b[2..];
      WithoutLow(b[1]);
      assert b[1 := b[1] - b[1] % 16][2..] == b[2..];
    }
  }

  /** The bits of an octet, from the top. */
  lemma Bits(x: uint8) returns (a: nat, m: nat, n: nat, s: nat, low: nat)
    ensures a < 2 && m < 2 && n < 2 && s < 2 && low < 16 && x == a * 128 + m * 64 + n * 32 + s * 16 + low
    ensures a == Bit(x, 128) && m == x / 64 % 2 && n == Bit(x, 32) && s == Bit(x, 16) && low == x % 16
  {
    a, m, n, s, low := x / 128, x / 64 % 2, x / 32 % 2, x / 16 % 2, x % 16;
    assert x / 16 == x / 32 * 2 + s && x / 32 == x / 64 * 2 + n && x / 64 == a * 2 + m;
  }

  lemma Composed(a: nat, m: nat, n: nat, s: nat, low: nat)
    requires a < 2 && m < 2 && n < 2 && s < 2 && low < 16
    ensures var x := a * 128 + m * 64 + n * 32 + s * 16 + low;
            x / 128 == a && x / 64 % 2 == m && x / 32 % 2 == n && x / 16 % 2 == s && x % 8 == low % 8 && x % 16 == low
  {
    var x := a * 128 + m * 64 + n * 32 + s * 16 + low;
    assert x / 64 == a * 2 + m && x / 32 == a * 4 + m * 2 + n && x / 16 == a * 8 + m * 4 + n * 2 + s;
  }

  lemma WithoutReserved(x: uint8)
    ensures var y := x - x / 64 % 2 * 64;
            y >= 0 && Bit(y, 128) == Bit(x, 128) && Bit(y, 32) == Bit(x, 32) && Bit(y, 16) == Bit(x, 16) && y % 8 == x % 8
  {
    var a, m, n, s, low := Bits(x);
    Composed(a, 0, n, s, low);
    Composed(a, m, n, s, low);
  }

  lemma WithoutLow(x: uint8)
    ensures var y := x - x % 16;
            y >= 0 && Bit(y, 128) == Bit(x, 128) && Bit(y, 64) == Bit(x, 64) && Bit(y, 32) == Bit(x, 32) && Bit(y, 16) == Bit(x, 16)
  {
    var a, m, n, s, low := Bits(x);
    Composed(a, m, n, s, 0);
    Composed(a, m, n, s, low);
  }

  lemma TidKeyKeepsFlags(d: Descriptor, b: Octets)
    ensures SameFlags(ReadTidKey(d, b).0, d)
  {
  }

  lemma Tl0KeepsFlags(d: Descriptor, b: Octets)
    ensures SameFlags(ReadTl0(d, b).0, d)
  {
    hide ReadTidKey;
    TidKeyKeepsFlags(d.(tl0PicIdx := 0), b);
    if b != [] { TidKeyKeepsFlags(d.(tl0PicIdx := b[0]), b[1..]); }
  }

  lemma TailKeepsFlags(d: Descriptor, b: Octets)
    ensures SameFlags(ReadPictureId(d, b).0, d)
  {
    hide ReadTl0;
    if d.i == 0 {
      Tl0KeepsFlags(d.(pictureId := 0), b);
    } else if b != [] {
      Tl0KeepsFlags(d.(pictureId := b[0]), b[1..]);
      if |b| > 1 { Tl0KeepsFlags(d.(pictureId := b[0] as int % 128 * 0x100 + b[1] as int), b[2..]); }
    }
  }

  /** A packet is refused exactly when it is shorter than its own flags ask for; otherwise the payload is all the rest. */
  lemma ShortExactly(d: Descriptor, b: Octets)
    requires b != []
    ensures Unmarshalled(d, b).1 == if |b| < DescriptorLength(b) then ShortPacket else Payload(b[DescriptorLength(b)..])
  {
  }

  class VP8Packet {
    var d: Descriptor

    constructor ()
      ensures d == Descriptor(0, 0, 0, 0, 0, 0, 0, 0, 0, 0, 0, 0, 0)
    {
      d := Descriptor(0, 0, 0, 0, 0, 0, 0, 0, 0, 0, 0, 0, 0);
    }

    method Unmarshal(packet: Octets) returns (outcome: Outcome)
      modifies this
      ensures (d, outcome) == Unmarshalled(old(d), packet)
    {
      if packet == [] { return NilPacket; }
      var index := 0;
      d := d.(x := Bit(packet[0], 128), n := Bit(packet[0], 32), s := Bit(packet[0], 16), pid := packet[0] % 8);
      index := 1;
      if d.x == 1 {
        if index >= |packet| { return ShortPacket; }
        d := d.(i := Bit(packet[index], 128), l := Bit(packet[index], 64),
                t := Bit(packet[index], 32), k := Bit(packet[index], 16));
        index := index + 1;
      } else {
        d := d.(i := 0, l := 0, t := 0, k := 0);
      }
      assert Unmarshalled(old(d), packet) == ReadPictureId(d, packet[index..]);
      if d.i == 1 {
        if index >= |packet| { return ShortPacket; }
        if packet[index] >= 128 {
          if index + 1 >= |packet| { return ShortPacket; }
          assert packet[index..][2..] == packet[index + 2..];
          d := d.(pictureId := packet[index] as int % 128 * 0x100 + packet[index + 1] as int);
          index := index + 2;
        } else {
          assert packet[index..][1..] == packet[index + 1..];
          d := d.(pictureId := packet[index]);
          index := index + 1;
        }
      } else {
        d := d.(pictureId := 0);
      }
      assert Unmarshalled(old(d), packet) == ReadTl0(d, packet[index..]);
      hide Unmarshalled, ReadTl0;
      outcome := UnmarshalTail(packet, index);
    }

    /** The part of `Unmarshal` behind the picture number. */
    method UnmarshalTail(packet: Octets, start: nat) returns (outcome: Outcome)
      requires start <= |packet|
      modifies this
      ensures (d, outcome) == ReadTl0(old(d), packet[start..])
    {
      var index := start;
      if d.l == 1 {
        if index >= |packet| { return ShortPacket; }
        assert packet[index..][1..] == packet[index + 1..];
        d := d.(tl0PicIdx := packet[index]);
        index := index + 1;
      } else {
        d := d.(tl0PicIdx := 0);
      }
      assert ReadTl0(old(d), packet[start..]) == ReadTidKey(d, packet[index..]);
      hide ReadTl0;
      if d.t == 1 || d.k == 1 {
        if index >= |packet| { return ShortPacket; }
        assert packet[index..][1..] == packet[index + 1..];
        if d.t == 1 {
          d := d.(tid := packet[index] / 64, y := packet[index] / 32 % 2);
        } else {
          d := d.(tid := 0, y := 0);
        }
        if d.k == 1 {
          d := d.(keyIdx := packet[index] % 32);
        } else {
          d := d.(keyIdx := 0);
        }
        index := index + 1;
      } else {
        d := d.(tid := 0, y := 0, keyIdx := 0);
      }
      outcome := Payload(packet[index..]);
    }

    predicate IsKeyFrame()
      reads this
    {
      d.s == 1 && d.pid == 0
    }
  }
}

module Vp8RtpPacketizer {
  import opened Bytes
  import opened Vp8Packet

  const VP8_HEADER_SIZE := 1

  function HeaderSize(enabled: bool, id: nat): (n: nat)
    ensures n == 1 || n == 3 || n == 4
  {
    if !enabled || id == 0 then VP8_HEADER_SIZE
    else if id < 128 then VP8_HEADER_SIZE + 2
    else VP8_HEADER_SIZE + 3
  }

  /** The descriptor a packet should carry: S on the first packet only, the picture number when there is one. */
  function Stamp(enabled: bool, id: nat, first: bool): (d: Descriptor)
    requires id < 0x8000
    ensures WellFormed(d)
  {
    var on: bit := if enabled && id != 0 then 1 else 0;
    Descriptor(on, 0, if first then 1 else 0, 0, on, 0, 0, 0, if on == 1 then id else 0, 0, 0, 0, 0)
  }

  function StampBytes(enabled: bool, id: nat, first: bool): (b: Octets)
    requires id < 0x8000
    ensures |b| == HeaderSize(enabled, id)
  {
    Encode(Stamp(enabled, id, first), id >= 128)
  }

  function Fragments(enabled: bool, id: nat, max: nat, rest: Octets, first: bool): seq<Octets>
    requires id < 0x8000 && max > 0
    decreases |rest|
  {
    if rest == [] then []
    else
      var n := if max < |rest| then max else |rest|;
      [StampBytes(enabled, id, first) + rest[..n]] + Fragments(enabled, id, max, rest[n..], false)
  }

  /** The packets of one frame; none when there is nothing to send or no room behind the header. */
  function Packets(enabled: bool, id: nat, mtu: nat, frame: Octets): seq<Octets>
    requires id < 0x8000
  {
    if frame == [] || mtu <= HeaderSize(enabled, id) then []
    else Fragments(enabled, id, mtu - HeaderSize(enabled, id), frame, true)
  }

  function NextId(enabled: bool, id: nat, mtu: nat, frame: Octets): (next: nat)
    requires id < 0x8000
    ensures next < 0x8000
  {
    if frame == [] || mtu <= HeaderSize(enabled, id) then id else (id + 1) % 0x8000
  }

  /** The octets of the stamp, one by one. */
  lemma StampShape(enabled: bool, id: nat, first: bool)
    requires id < 0x8000
    ensures var b := StampBytes(enabled, id, first);
            var hs := HeaderSize(enabled, id);
            && |b| == hs
            && b[0] == (if first then 0x10 else 0) + (if hs > 1 then 0x80 else 0)
            && (hs > 1 ==> b[1] == 0x80)
            && (hs == 3 ==> b[2] == id % 128)
            && (hs == 4 ==> b[2] == 0x80 + id / 0x100 % 128 && b[3] == id % 0x100)
  {
    var d := Stamp(enabled, id, first);
    assert TailFields(d) == [];
  }

  class VP8Payloader {
    var enablePictureId: bool
    var pictureId: nat

    ghost predicate Valid()
      reads this
    {
      pictureId < 0x8000
    }

    constructor ()
      ensures Valid() && !enablePictureId && pictureId == 0
    {
      enablePictureId, pictureId := false, 0;
    }

    method EnablePictureID(enable: bool)
      requires Valid()
      modifies this`enablePictureId
      ensures Valid() && enablePictureId == enable
    {
      enablePictureId := enable;
    }

    method SetPictureID(id: uint16)
      modifies this`pictureId
      ensures Valid() && pictureId == id % 0x8000
    {
      pictureId := id % 0x8000;
    }

    /** `memcpy` of the fragment behind the header. */
    static method CopyTo(out: array<uint8>, at: nat, fragment: Octets)
      requires at + |fragment| == out.Length
      modifies out
      ensures out[..at] == old(out[..at]) && out[at..] == fragment
    {
      for i := 0 to |fragment|
        invariant forall j | 0 <= j < at :: out[j] == old(out[j])
        invariant forall j | 0 <= j < i :: out[at + j] == fragment[j]
      {
        out[at + i] := fragment[i];
      }
    }

    method FillHeader(out: array<uint8>, first: bool, headerSize: nat)
      requires Valid() && headerSize == HeaderSize(enablePictureId, pictureId) == |StampBytes(enablePictureId, pictureId, first)|
      requires headerSize <= out.Length
      modifies out
      ensures out[..headerSize] == StampBytes(enablePictureId, pictureId, first)
    {
      hide StampBytes;
      StampShape(enablePictureId, pictureId, first);
      if first { out[0] := 0x10; } else { out[0] := 0x00; }
      if enablePictureId {
        if headerSize == VP8_HEADER_SIZE + 2 {
          out[0] := out[0] + 0x80;
          out[1] := 0x80;
          out[2] := pictureId % 128;
        } else if headerSize == VP8_HEADER_SIZE + 3 {
          out[0] := out[0] + 0x80;
          out[1] := 0x80;
          out[2] := 0x80 + pictureId / 0x100 % 128;
          out[3] := pictureId % 0x100;
        }
      }
    }

    /** One packet, written into its buffer in place. */
    method FillPacket(first: bool, headerSize: nat, fragment: Octets) returns (packet: Octets)
      requires Valid() && headerSize == HeaderSize(enablePictureId, pictureId)
      ensures packet == StampBytes(enablePictureId, pictureId, first) + fragment
    {
      hide StampBytes;
      StampShape(enablePictureId, pictureId, first);
      var out := new uint8[headerSize + |fragment|](_ => 0);
      FillHeader(out, first, headerSize);
      CopyTo(out, headerSize, fragment);
      packet := out[..];
      assert packet == out[..headerSize] + out[headerSize..];
    }

    method Payload(mtu: uint16, payload: Octets) returns (payloads: seq<Octets>)
      requires Valid()
      modifies this`pictureId
      ensures Valid()
      ensures payloads == Packets(enablePictureId, old(pictureId), mtu, payload)
      ensures pictureId == NextId(enablePictureId, old(pictureId), mtu, payload)
    {
      payloads := [];
      if |payload| == 0 { return; }
      var headerSize := VP8_HEADER_SIZE;
      if enablePictureId {
        if pictureId == 0 {
        } else if pictureId < 128 {
          headerSize := VP8_HEADER_SIZE + 2;
        } else {
          headerSize := VP8_HEADER_SIZE + 3;
        }
      }
      var maxFragmentSize := mtu - headerSize;
      if maxFragmentSize <= 0 { return; }
      payloads := CutFrame(headerSize, maxFragmentSize, payload);
      pictureId := (pictureId + 1) % 0x8000;
    }

    /** The loop of `Payload` over the fragments. */
    method CutFrame(headerSize: nat, maxFragmentSize: nat, payload: Octets) returns (payloads: seq<Octets>)
      requires Valid() && headerSize == HeaderSize(enablePictureId, pictureId) && maxFragmentSize > 0
      ensures payloads == Fragments(enablePictureId, pictureId, maxFragmentSize, payload, true)
    {
      payloads := [];
      var remaining, index, first := |payload|, 0, true;
      CutStart(enablePictureId, pictureId, maxFragmentSize, payload);
      hide StampBytes, Fragments, Cutting, HeaderSize;
      while remaining > 0
        invariant 0 <= index && 0 <= remaining && index + remaining == |payload|
        invariant Cutting(enablePictureId, pictureId, maxFragmentSize, payload, payloads, index, first)
      {
        var size := if maxFragmentSize < remaining then maxFragmentSize else remaining;
        CutStep(enablePictureId, pictureId, maxFragmentSize, payload, payloads, index, first, size);
        var packet := FillPacket(first, headerSize, payload[index..index + size]);
        first := false;
        payloads := payloads + [packet];
        remaining := remaining - size;
        index := index + size;
      }
      CutEnd(enablePictureId, pictureId, maxFragmentSize, payload, payloads, first);
    }
  }

  /** Loop invariant: what is cut so far, continued behind `index`, is the cutting of the whole frame. */
  ghost predicate Cutting(enabled: bool, id: nat, max: nat, frame: Octets, done: seq<Octets>, index: nat, first: bool) {
    && id < 0x8000 && max > 0 && index <= |frame|
    && done + Fragments(enabled, id, max, frame[index..], first) == Fragments(enabled, id, max, frame, true)
  }

  lemma CutStart(enabled: bool, id: nat, max: nat, frame: Octets)
    requires id < 0x8000 && max > 0
    ensures Cutting(enabled, id, max, frame, [], 0, true)
  {
    assert frame[0..] == frame;
    assert [] + Fragments(enabled, id, max, frame, true) == Fragments(enabled, id, max, frame, true);
  }

  lemma CutStep(enabled: bool, id: nat, max: nat, frame: Octets, done: seq<Octets>, index: nat, first: bool, size: nat)
    requires Cutting(enabled, id, max, frame, done, index, first) && index < |frame|
    requires size == if max < |frame| - index then max else |frame| - index
    ensures Cutting(enabled, id, max, frame, done + [StampBytes(enabled, id, first) + frame[index..index + size]], index + size, false)
  {
    hide StampBytes;
    var rest := frame[index..];
    assert rest[..size] == frame[index..index + size] && rest[size..] == frame[index + size..];
    Regroup(done, [StampBytes(enabled, id, first) + rest[..size]], Fragments(enabled, id, max, rest[size..], false));
  }

  lemma CutEnd(enabled: bool, id: nat, max: nat, frame: Octets, done: seq<Octets>, first: bool)
    requires Cutting(enabled, id, max, frame, done, |frame|, first)
    ensures done == Fragments(enabled, id, max, frame, true)
  {
    assert done + [] == done;
  }

  // --- what the receiver makes of it

  const FRESH := Descriptor(0, 0, 0, 0, 0, 0, 0, 0, 0, 0, 0, 0, 0)

  /** The payloads of a list of packets, read one after the other by the same reader. */
  function Payloads(d: Descriptor, packets: seq<Octets>): Octets
    decreases |packets|
  {
    if packets == [] then []
    else
      var (d1, r) := Unmarshalled(d, packets[0]);
      (if r.Payload? then r.bytes else []) + Payloads(d1, packets[1..])
  }

  lemma OnePacket(d: Descriptor, enabled: bool, id: nat, first: bool, part: Octets)
    requires id < 0x8000
    ensures Unmarshalled(d, StampBytes(enabled, id, first) + part) == (Stamp(enabled, id, first), Vp8Packet.Payload(part))
  {
    hide Encode, Unmarshalled;
    UnmarshalInvertsEncode(d, Stamp(enabled, id, first), id >= 128, part);
  }

  /** Number of packets for `n` octets, `max` in each. */
  function Ceil(n: nat, max: nat): nat
    requires max > 0
  {
    (n + max - 1) / max
  }

  lemma CeilStep(n: nat, max: nat)
    requires max > 0 && n > 0
    ensures Ceil(n, max) == 1 + Ceil(if max < n then n - max else 0, max)
  {
    var m := n + max - 1;
    PlusOne(m - max, max);
    if n <= max {
      assert n - 1 < max;
      assert Ceil(0, max) == 0 by { CeilZero(max); }
    }
  }

  lemma PlusOne(m: nat, d: nat)
    requires d > 0
    ensures (m + d) / d == m / d + 1
    ensures m < d ==> m / d == 0
  {
    var q := m / d;
    QuotientUnique(m + d, d, q + 1, m % d);
  }

  lemma NoPackets(d: Descriptor)
    ensures Payloads(d, []) == []
  {
  }

  lemma OneMorePacket(d: Descriptor, d1: Descriptor, p: Octets, part: Octets, more: seq<Octets>)
    requires Unmarshalled(d, p) == (d1, Vp8Packet.Payload(part))
    ensures Payloads(d, [p] + more) == part + Payloads(d1, more)
  {
    assert ([p] + more)[0] == p && ([p] + more)[1..] == more;
  }

  lemma {:induction false} FragmentsDecode(d: Descriptor, enabled: bool, id: nat, max: nat, rest: Octets, first: bool)
    requires id < 0x8000 && max > 0
    ensures var ps := Fragments(enabled, id, max, rest, first);
            && |ps| == Ceil(|rest|, max)
            && Payloads(d, ps) == rest
            && forall j | 0 <= j < |ps| ::
                 && HeaderSize(enabled, id) < |ps[j]| <= HeaderSize(enabled, id) + max
                 && Unmarshalled(FRESH, ps[j]).1.Payload?
                 && Unmarshalled(FRESH, ps[j]).0 == Stamp(enabled, id, first && j == 0)
    decreases |rest|
  {
    hide StampBytes, Unmarshalled, Stamp, Ceil, Payloads, HeaderSize;
    if rest == [] {
      NoPackets(d);
      CeilZero(max);
    } else {
      var n := if max < |rest| then max else |rest|;
      var p := StampBytes(enabled, id, first) + rest[..n];
      OnePacket(d, enabled, id, first, rest[..n]);
      OnePacket(FRESH, enabled, id, first, rest[..n]);
      FragmentsDecode(Stamp(enabled, id, first), enabled, id, max, rest[n..], false);
      CeilStep(|rest|, max);
      var more := Fragments(enabled, id, max, rest[n..], false);
      OneMorePacket(d, Stamp(enabled, id, first), p, rest[..n], more);
      assert Fragments(enabled, id, max, rest, first) == [p] + more && rest == rest[..n] + rest[n..];
    }
  }

  lemma CeilZero(max: nat)
    requires max > 0
    ensures Ceil(0, max) == 0
  {
  }

  /** One frame over the wire: nothing is sent exactly when the frame is empty or the header fills the packet; otherwise
      the packets fit, their number is the least possible, their payloads are the frame in order, every one carries the
      picture number (0 when disabled), and S marks exactly the first, which is also the only one taken for a key frame. */
  lemma FrameRoundTrip(d: Descriptor, enabled: bool, id: nat, mtu: nat, frame: Octets)
    requires id < 0x8000
    ensures var ps := Packets(enabled, id, mtu, frame);
            var hs := HeaderSize(enabled, id);
            if frame == [] || mtu <= hs then ps == []
            else
              && |ps| == Ceil(|frame|, mtu - hs) > 0
              && Payloads(d, ps) == frame
              && forall j | 0 <= j < |ps| ::
                   var (g, r) := Unmarshalled(FRESH, ps[j]);
                   && |ps[j]| <= mtu && r.Payload?
                   && g.pictureId == (if enabled then id else 0)
                   && (g.s == 1 <==> j == 0) && (g.s == 1 && g.pid == 0 <==> j == 0)
  {
    hide Unmarshalled, Ceil;
    if frame != [] && mtu > HeaderSize(enabled, id) {
      FragmentsDecode(d, enabled, id, mtu - HeaderSize(enabled, id), frame, true);
      CeilStep(|frame|, mtu - HeaderSize(enabled, id));
    }
  }

  // --- many frames

  function IdAfter(enabled: bool, id: nat, mtu: nat, frames: seq<Octets>): (after: nat)
    requires id < 0x8000
    ensures after < 0x8000
    decreases |frames|
  {
    if frames == [] then id else IdAfter(enabled, NextId(enabled, id, mtu, frames[0]), mtu, frames[1..])
  }

  function SendAll(enabled: bool, id: nat, mtu: nat, frames: seq<Octets>): seq<Octets>
    requires id < 0x8000
    decreases |frames|
  {
    if frames == [] then []
    else Packets(enabled, id, mtu, frames[0]) + SendAll(enabled, NextId(enabled, id, mtu, frames[0]), mtu, frames[1..])
  }

  function NonEmpty(frames: seq<Octets>): nat {
    if frames == [] then 0 else (if frames[0] == [] then 0 else 1) + NonEmpty(frames[1..])
  }

  /** There is room behind the header of each of the next `n` frames. */
  predicate Room(enabled: bool, id: nat, mtu: nat, n: nat)
    requires id < 0x8000
    decreases n
  {
    n == 0 || (mtu > HeaderSize(enabled, id) && Room(enabled, (id + 1) % 0x8000, mtu, n - 1))
  }

  /** Of the next `n` frames, how many are sent before a header fills the packet. */
  function Served(enabled: bool, id: nat, mtu: nat, n: nat): (k: nat)
    requires id < 0x8000
    ensures k <= n && (k == n <==> Room(enabled, id, mtu, n))
    decreases n
  {
    if n == 0 || mtu <= HeaderSize(enabled, id) then 0 else 1 + Served(enabled, (id + 1) % 0x8000, mtu, n - 1)
  }

  /** For any MTU the counter advances by one, modulo 2^15, for every frame that is sent. */
  lemma {:induction false} CounterAdvances(enabled: bool, id: nat, mtu: nat, frames: seq<Octets>)
    requires id < 0x8000
    ensures IdAfter(enabled, id, mtu, frames) == (id + Served(enabled, id, mtu, NonEmpty(frames))) % 0x8000
    ensures Room(enabled, id, mtu, NonEmpty(frames)) ==> IdAfter(enabled, id, mtu, frames) == (id + NonEmpty(frames)) % 0x8000
    decreases |frames|
  {
    hide HeaderSize, Room;
    if frames != [] {
      var next := NextId(enabled, id, mtu, frames[0]);
      CounterAdvances(enabled, next, mtu, frames[1..]);
      if frames[0] != [] { ModStep(id, Served(enabled, next, mtu, NonEmpty(frames[1..]))); }
    }
  }

  lemma ModStep(id: nat, n: nat)
    requires id < 0x8000
    ensures ((id + 1) % 0x8000 + n) % 0x8000 == (id + 1 + n) % 0x8000
  {
  }

  lemma {:induction false} PayloadsAppend(d: Descriptor, d': Descriptor, ps: seq<Octets>, qs: seq<Octets>)
    requires forall e1, e2 :: Payloads(e1, qs) == Payloads(e2, qs)
    ensures Payloads(d, ps + qs) == Payloads(d, ps) + Payloads(d', qs)
    decreases |ps|
  {
    hide Unmarshalled;
    if ps == [] {
      assert ps + qs == qs;
    } else {
      var (d1, r) := Unmarshalled(d, ps[0]);
      assert (ps + qs)[1..] == ps[1..] + qs && (ps + qs)[0] == ps[0];
      PayloadsAppend(d1, d', ps[1..], qs);
      Regroup(if r.Payload? then r.bytes else [], Payloads(d1, ps[1..]), Payloads(d', qs));
    }
  }

  /** What the first `n` frames that are not empty hold. */
  function First(frames: seq<Octets>, n: nat): Octets
    decreases |frames|
  {
    if frames == [] || n == 0 then []
    else frames[0] + First(frames[1..], if frames[0] == [] then n else n - 1)
  }

  lemma {:induction false} FirstIsAll(frames: seq<Octets>, n: nat)
    ensures if n >= NonEmpty(frames) then First(frames, n) == Flatten(frames) else |First(frames, n)| < |Flatten(frames)|
    decreases |frames|
  {
    if frames != [] {
      if n > 0 || frames[0] == [] {
        FirstIsAll(frames[1..], if frames[0] == [] then n else n - 1);
      }
    }
  }

  /** A header that fills the packet is the end of the stream: the counter stands still, so the header never gets shorter
      again. Nothing at all is sent exactly when there is nothing to send or the first header fills the packet. */
  lemma {:induction false} Starves(enabled: bool, id: nat, mtu: nat, frames: seq<Octets>)
    requires id < 0x8000
    ensures SendAll(enabled, id, mtu, frames) == [] <==> NonEmpty(frames) == 0 || mtu <= HeaderSize(enabled, id)
    ensures mtu <= HeaderSize(enabled, id) ==> IdAfter(enabled, id, mtu, frames) == id
    decreases |frames|
  {
    hide Unmarshalled, HeaderSize;
    if frames != [] {
      FrameRoundTrip(FRESH, enabled, id, mtu, frames[0]);
      Starves(enabled, NextId(enabled, id, mtu, frames[0]), mtu, frames[1..]);
    }
  }

  /** Any number of frames through one payloader and one reader, for any MTU: what arrives is the frames in order, up to the
      first whose header fills the packet. */
  lemma {:induction false} StreamRoundTrip(d: Descriptor, enabled: bool, id: nat, mtu: nat, frames: seq<Octets>)
    requires id < 0x8000
    ensures Payloads(d, SendAll(enabled, id, mtu, frames)) == First(frames, Served(enabled, id, mtu, NonEmpty(frames)))
    decreases |frames|
  {
    hide Unmarshalled, Packets, HeaderSize;
    if frames != [] {
      var next := NextId(enabled, id, mtu, frames[0]);
      var ps, qs := Packets(enabled, id, mtu, frames[0]), SendAll(enabled, next, mtu, frames[1..]);
      forall e1, e2 ensures Payloads(e1, qs) == Payloads(e2, qs) {
        StreamRoundTrip(e1, enabled, next, mtu, frames[1..]);
        StreamRoundTrip(e2, enabled, next, mtu, frames[1..]);
      }
      PayloadsAppend(d, d, ps, qs);
      StreamRoundTrip(d, enabled, next, mtu, frames[1..]);
      FrameRoundTrip(d, enabled, id, mtu, frames[0]);
    }
  }

  /** When a given stream arrives, for any counter, MTU and frames: exactly when there is room for all of it. */
  lemma DeliversExactly(d: Descriptor, enabled: bool, id: nat, mtu: nat, frames: seq<Octets>)
    requires id < 0x8000
    ensures Payloads(d, SendAll(enabled, id, mtu, frames)) == Flatten(frames) <==> Room(enabled, id, mtu, NonEmpty(frames))
  {
    StreamRoundTrip(d, enabled, id, mtu, frames);
    FirstIsAll(frames, Served(enabled, id, mtu, NonEmpty(frames)));
  }

  /** When there is room, worked out: always behind the longest header; up to counter 127 with an MTU of 4; and for frame 0
      alone with an MTU of 2 or 3. */
  lemma {:induction false} RoomExactly(enabled: bool, id: nat, mtu: nat, n: nat)
    requires id < 0x8000
    ensures Room(enabled, id, mtu, n) <==>
            || n == 0 || mtu > 4 || (!enabled && mtu > 1)
            || (mtu == 4 && id + n <= 128) || (2 <= mtu <= 3 && id == 0 && n == 1)
    decreases n
  {
    if n > 0 { RoomExactly(enabled, (id + 1) % 0x8000, mtu, n - 1); }
  }

  /** With picture numbers and an MTU of 2 or 3 a new payloader sends one frame and no more. */
  lemma OneFrameOnly(d: Descriptor, mtu: nat, frames: seq<Octets>)
    requires 2 <= mtu <= 3
    ensures Payloads(d, SendAll(true, 0, mtu, frames)) == First(frames, 1)
    ensures IdAfter(true, 0, mtu, frames) == if NonEmpty(frames) == 0 then 0 else 1
  {
    StreamRoundTrip(d, true, 0, mtu, frames);
    CounterAdvances(true, 0, mtu, frames);
    if NonEmpty(frames) == 0 { FirstIsAll(frames, 0); FirstIsAll(frames, 1); }
  }

  /** Everything arrives, for all streams from all counters, exactly when the MTU has room for the longest header. */
  lemma DeliversAlways(enabled: bool, mtu: nat)
    ensures (forall id: nat, frames: seq<Octets> | id < 0x8000 ::
               Payloads(FRESH, SendAll(enabled, id, mtu, frames)) == Flatten(frames))
            <==> mtu > 4 || (!enabled && mtu > 1)
  {
    if mtu > 4 || (!enabled && mtu > 1) {
      forall id: nat, frames: seq<Octets> | id < 0x8000 ensures Payloads(FRESH, SendAll(enabled, id, mtu, frames)) == Flatten(frames) {
        DeliversExactly(FRESH, enabled, id, mtu, frames);
        RoomExactly(enabled, id, mtu, NonEmpty(frames));
      }
    } else {
      var one: Octets := [0];
      DeliversExactly(FRESH, enabled, 128, mtu, [one]);
      RoomExactly(enabled, 128, mtu, NonEmpty([one]));
      assert NonEmpty([one]) == 1;
    }
  }
}
