/** The RTP packet reader (RFC 3550, section 5.1), with what it keeps from one packet to the next. */
module Rtp {
  import opened Bytes

  /** The reader's fields. */
  datatype Fields = Fields(
    version: nat, padding: bool, extension: bool, csrcCount: nat, marker: bool, payloadType: nat,
    sequenceNumber: nat, timestamp: nat, ssrc: nat, csrcs: seq<nat>,
    extensionHeaderId: nat, extensionLength: nat, extensionValue: Octets,
    paddingSize: nat, payload: Octets)

  const BLANK := Fields(0, false, false, 0, false, 0, 0, 0, 0, [], 0, 0, [], 0, [])

  // --- the wire format

  function Flag(b: bool): nat { if b then 1 else 0 }

  function Fixed(f: Fields): (b: Octets)
    requires InRange(f)
    ensures |b| == 12
  {
    [f.version * 64 + Flag(f.padding) * 32 + Flag(f.extension) * 16 + f.csrcCount, Flag(f.marker) * 128 + f.payloadType]
    + BigEndian(f.sequenceNumber, 2) + BigEndian(f.timestamp, 4) + BigEndian(f.ssrc, 4)
  }

  function CsrcBytes(csrcs: seq<nat>): (b: Octets)
    ensures |b| == 4 * |csrcs|
  {
    if csrcs == [] then [] else BigEndian(csrcs[0], 4) + CsrcBytes(csrcs[1..])
  }

  function ExtensionBytes(f: Fields): Octets
    requires InRange(f)
  {
    if f.extension then BigEndian(f.extensionHeaderId, 2) + BigEndian(f.extensionLength, 2) + f.extensionValue else []
  }

  predicate InRange(f: Fields) {
    && f.version < 4 && f.csrcCount < 16 && f.payloadType < 128
    && f.sequenceNumber < Pow256(2) && f.timestamp < Pow256(4) && f.ssrc < Pow256(4)
    && |f.csrcs| == f.csrcCount && (forall c | c in f.csrcs :: c < Pow256(4))
    && f.extensionHeaderId < Pow256(2) && f.extensionLength < Pow256(2)
    && (f.extension ==> |f.extensionValue| == 4 * f.extensionLength)
    && f.paddingSize < 0x100
  }

  /** Padding as section 5.1 has it: absent, or octets of which the last one counts them all. */
  predicate PaddingOk(f: Fields, pad: Octets) {
    |pad| == f.paddingSize && if pad == [] then !f.padding else f.padding && pad[|pad| - 1] == |pad|
  }

  function Encode(f: Fields, pad: Octets): Octets
    requires InRange(f)
  {
    Fixed(f) + CsrcBytes(f.csrcs) + ExtensionBytes(f) + f.payload + pad
  }

  // --- what the reader computes, from what it held before

  function ReadCsrcs(b: Octets, n: nat): (cs: seq<nat>)
    requires |b| >= 4 * n
    ensures |cs| == n
    decreases n
  {
    if n == 0 then [] else [Value(b[..4])] + ReadCsrcs(b[4..], n - 1)
  }

  function ReadHead(f: Fields, b: Octets): Fields
    requires |b| >= 12
  {
    f.(extensionValue := [], payload := [],
       version := b[0] / 64, padding := b[0] / 32 % 2 == 1, extension := b[0] / 16 % 2 == 1, csrcCount := b[0] % 16,
       marker := b[1] / 128 == 1, payloadType := b[1] % 128,
       sequenceNumber := Value(b[2..4]), timestamp := Value(b[4..8]), ssrc := Value(b[8..12]))
  }

  function ReadFixed(f: Fields, b: Octets): (Fields, bool) {
    if |b| < 12 then (f.(extensionValue := [], payload := []), false)
    else
      var f1 := ReadHead(f, b);
      if |b| < 12 + f1.csrcCount * 4 then (f1, false)
      else ReadExtension(f1.(csrcs := ReadCsrcs(b[12..], f1.csrcCount)), b[12 + f1.csrcCount * 4..])
  }

  function ReadExtension(f: Fields, b: Octets): (Fields, bool) {
    if !f.extension then ReadPayload(f, b)
    else if |b| < 4 then (f, false)
    else
      var f1 := f.(extensionHeaderId := Value(b[..2]), extensionLength := Value(b[2..4]));
      var size := f1.extensionLength * 4;
      if |b| < 4 + size then (f1, false)
      else ReadPayload(f1.(extensionValue := b[4..4 + size]), b[4 + size..])
  }

  function ReadPayload(f: Fields, b: Octets): (Fields, bool) {
    if f.padding && b != [] then
      var n := b[|b| - 1];
      if n == 0 || n > |b| then (f.(paddingSize := n), false)
      else (f.(paddingSize := n, payload := b[..|b| - n]), true)
    else (f.(paddingSize := 0, payload := b), true)
  }

  lemma CsrcStep(buffer: Octets, at: nat, csrcs: seq<nat>, csrc: nat, n: nat)
    requires n > 0 && at + 4 * n <= |buffer| && csrc == Value(buffer[at..at + 4])
    ensures csrcs + [csrc] + ReadCsrcs(buffer[at + 4..], n - 1) == csrcs + ReadCsrcs(buffer[at..], n)
  {
    var left := buffer[at..];
    assert left[..4] == buffer[at..at + 4] && left[4..] == buffer[at + 4..];
    Regroup(csrcs, [csrc], ReadCsrcs(left[4..], n - 1));
  }

  class RTPPacket {
    var f: Fields

    constructor ()
      ensures f == BLANK
    {
      f := BLANK;
    }

    method Unmarshal(buffer: Octets) returns (ok: bool)
      modifies this
      ensures (f, ok) == ReadFixed(old(f), buffer)
    {
      hide Value;
      f := f.(extensionValue := [], payload := []);
      if |buffer| < 12 { return false; }
      f := f.(version := buffer[0] / 64, padding := buffer[0] / 32 % 2 == 1, extension := buffer[0] / 16 % 2 == 1,
              csrcCount := buffer[0] % 16, marker := buffer[1] / 128 == 1, payloadType := buffer[1] % 128);
      var sequenceNumber := ReadBigEndian(buffer, 2, 2);
      var timestamp := ReadBigEndian(buffer, 4, 4);
      var ssrc := ReadBigEndian(buffer, 8, 4);
      f := f.(sequenceNumber := sequenceNumber, timestamp := timestamp, ssrc := ssrc);
      var headerSize := 12 + f.csrcCount * 4;
      if |buffer| < headerSize { return false; }
      var csrcs := ReadCsrcList(buffer, f.csrcCount);
      f := f.(csrcs := csrcs);
      assert ReadFixed(old(f), buffer) == ReadExtension(f, buffer[headerSize..]);
      hide ReadFixed, ReadExtension;
      ok := UnmarshalExtension(buffer, headerSize);
    }

    /** The part of `Unmarshal` behind the sources. */
    method UnmarshalExtension(buffer: Octets, headerSize: nat) returns (ok: bool)
      requires headerSize <= |buffer| && f.payload == []
      modifies this
      ensures (f, ok) == ReadExtension(old(f), buffer[headerSize..])
    {
      hide Value, ReadPayload;
      var size := headerSize;
      if f.extension {
        if |buffer| < size + 4 { return false; }
        ghost var b := buffer[size..];
        assert b[..2] == buffer[size..size + 2] && b[2..4] == buffer[size + 2..size + 4];
        var id := ReadBigEndian(buffer, size, 2);
        var length := ReadBigEndian(buffer, size + 2, 2);
        f := f.(extensionHeaderId := id, extensionLength := length);
        var extensionSize := f.extensionLength * 4;
        if |buffer| < size + 4 + extensionSize { return false; }
        assert b[4..4 + extensionSize] == buffer[size + 4..size + 4 + extensionSize];
        assert b[4 + extensionSize..] == buffer[size + 4 + extensionSize..];
        f := f.(extensionValue := buffer[size + 4..size + 4 + extensionSize]);
        size := size + 4 + extensionSize;
      }
      ok := UnmarshalPayload(buffer, size);
    }

    /** The part of `Unmarshal` behind the extension. */
    method UnmarshalPayload(buffer: Octets, headerSize: nat) returns (ok: bool)
      requires headerSize <= |buffer| && f.payload == []
      modifies this
      ensures (f, ok) == ReadPayload(old(f), buffer[headerSize..])
    {
      ghost var rest := buffer[headerSize..];
      var payloadSize: int := |buffer| - headerSize;
      if f.padding && payloadSize > 0 {
        f := f.(paddingSize := buffer[|buffer| - 1]);
        if f.paddingSize == 0 || f.paddingSize > payloadSize { return false; }
        payloadSize := payloadSize - f.paddingSize;
      } else {
        f := f.(paddingSize := 0);
        assert rest[..payloadSize] == rest;
      }
      assert rest[..payloadSize] == buffer[headerSize..headerSize + payloadSize];
      if payloadSize > 0 {
        f := f.(payload := buffer[headerSize..headerSize + payloadSize]);
      } else {
        assert rest[..payloadSize] == [];
      }
      ok := true;
    }

    /** The loop over the contributing sources. */
    static method ReadCsrcList(buffer: Octets, count: nat) returns (csrcs: seq<nat>)
      requires |buffer| >= 12 + 4 * count
      ensures csrcs == ReadCsrcs(buffer[12..], count)
    {
      csrcs := [];
      for i := 0 to count
        invariant csrcs + ReadCsrcs(buffer[12 + 4 * i..], count - i) == ReadCsrcs(buffer[12..], count)
      {
        var csrc := ReadBigEndian(buffer, 12 + 4 * i, 4);
        CsrcStep(buffer, 12 + 4 * i, csrcs, csrc, count - i);
        csrcs := csrcs + [csrc];
      }
      assert csrcs + [] == csrcs;
    }
  }

  // --- reading undoes writing

  lemma {:induction false} ReadCsrcBytes(cs: seq<nat>, t: Octets)
    requires forall c | c in cs :: c < Pow256(4)
    ensures ReadCsrcs(CsrcBytes(cs) + t, |cs|) == cs
  {
    hide Value, BigEndian, Pow256;
    if cs != [] {
      var b := CsrcBytes(cs) + t;
      assert cs[0] in cs && forall c | c in cs[1..] :: c in cs;
      assert b[..4] == BigEndian(cs[0], 4) && b[4..] == CsrcBytes(cs[1..]) + t;
      ValueOfBigEndian(cs[0], 4);
      ReadCsrcBytes(cs[1..], t);
    }
  }

  lemma ReadBackPayload(f0: Fields, f: Fields, pad: Octets)
    requires InRange(f) && PaddingOk(f, pad) && f0.padding == f.padding
    ensures ReadPayload(f0, f.payload + pad) == (f0.(paddingSize := f.paddingSize, payload := f.payload), true)
  {
    var b := f.payload + pad;
    if pad != [] {
      assert b[|b| - 1] == pad[|pad| - 1] && b[..|b| - |pad|] == f.payload;
    } else {
      assert b == f.payload;
    }
  }

  lemma ReadBackExtension(f0: Fields, f: Fields, rest: Octets)
    requires InRange(f) && f0.extension == f.extension
    ensures ReadExtension(f0, ExtensionBytes(f) + rest)
         == ReadPayload(if f.extension then f0.(extensionHeaderId := f.extensionHeaderId, extensionLength := f.extensionLength,
                                                extensionValue := f.extensionValue) else f0, rest)
  {
    hide ReadPayload;
    if f.extension {
      var b := ExtensionBytes(f) + rest;
      var size := f.extensionLength * 4;
      ValueOfBigEndian(f.extensionHeaderId, 2);
      ValueOfBigEndian(f.extensionLength, 2);
      hide BigEndian, Value, InRange;
      assert b[..2] == BigEndian(f.extensionHeaderId, 2) && b[2..4] == BigEndian(f.extensionLength, 2);
      assert b[4..4 + size] == f.extensionValue && b[4 + size..] == rest;
    } else {
      assert [] + rest == rest;
    }
  }

  lemma FixedFields(f: Fields, rest: Octets)
    requires InRange(f)
    ensures var b := Fixed(f) + rest;
            && b[0] / 64 == f.version && (b[0] / 32 % 2 == 1 <==> f.padding) && (b[0] / 16 % 2 == 1 <==> f.extension)
            && b[0] % 16 == f.csrcCount && (b[1] / 128 == 1 <==> f.marker) && b[1] % 128 == f.payloadType
            && Value(b[2..4]) == f.sequenceNumber && Value(b[4..8]) == f.timestamp && Value(b[8..12]) == f.ssrc
  {
    ValueOfBigEndian(f.sequenceNumber, 2);
    ValueOfBigEndian(f.timestamp, 4);
    ValueOfBigEndian(f.ssrc, 4);
    FlagByte(f.version, Flag(f.padding), Flag(f.extension), f.csrcCount);
    hide Value, BigEndian, Pow256;
    var b := Fixed(f) + rest;
    assert b[2..4] == BigEndian(f.sequenceNumber, 2) && b[4..8] == BigEndian(f.timestamp, 4) && b[8..12] == BigEndian(f.ssrc, 4);
  }

  lemma FlagByte(v: nat, p: nat, x: nat, cc: nat)
    requires v < 4 && p < 2 && x < 2 && cc < 16
    ensures var b := v * 64 + p * 32 + x * 16 + cc;
            b / 64 == v && b / 32 % 2 == p && b / 16 % 2 == x && b % 16 == cc
  {
    var b := v * 64 + p * 32 + x * 16 + cc;
    assert b / 32 == v * 2 + p && b / 16 == v * 4 + p * 2 + x;
  }

  /** What a reading leaves of the fields held before: the extension's number and length when there is no extension. */
  function Carried(held: Fields, f: Fields): Fields {
    if f.extension then f
    else f.(extensionHeaderId := held.extensionHeaderId, extensionLength := held.extensionLength, extensionValue := [])
  }

  /** Reading undoes the encoding for all field values, whatever packet was read before. */
  lemma UnmarshalInvertsEncode(held: Fields, f: Fields, pad: Octets)
    requires InRange(f) && PaddingOk(f, pad)
    ensures ReadFixed(held, Encode(f, pad)) == (Carried(held, f), true)
  {
    hide Fixed, CsrcBytes, ExtensionBytes, ReadExtension, ReadCsrcs, Value, Pow256;
    var rest := f.payload + pad;
    var ext := ExtensionBytes(f) + rest;
    var cs := CsrcBytes(f.csrcs) + ext;
    var b := Fixed(f) + cs;
    EncodeGrouped(Fixed(f), CsrcBytes(f.csrcs), ExtensionBytes(f), f.payload, pad);
    FixedFields(f, cs);
    ReadCsrcBytes(f.csrcs, ext);
    assert b[12..] == cs && b[12 + f.csrcCount * 4..] == ext;
    var f0 := held.(version := f.version, padding := f.padding, extension := f.extension, csrcCount := f.csrcCount,
                    marker := f.marker, payloadType := f.payloadType, sequenceNumber := f.sequenceNumber,
                    timestamp := f.timestamp, ssrc := f.ssrc, csrcs := f.csrcs, extensionValue := [], payload := []);
    hide InRange, PaddingOk;
    assert ReadFixed(held, b) == ReadExtension(f0, ext);
    ReadBackExtension(f0, f, rest);
    var f1 := if f.extension then f0.(extensionHeaderId := f.extensionHeaderId, extensionLength := f.extensionLength,
                                      extensionValue := f.extensionValue) else f0;
    ReadBackPayload(f1, f, pad);
  }

  lemma EncodeGrouped(a: Octets, b: Octets, c: Octets, d: Octets, e: Octets)
    ensures a + b + c + d + e == a + (b + (c + (d + e)))
  {
  }

  // --- a successful reading accounts for every octet

  lemma {:induction false} CsrcsCover(b: Octets, n: nat)
    requires |b| >= 4 * n
    ensures CsrcBytes(ReadCsrcs(b, n)) == b[..4 * n] && forall c | c in ReadCsrcs(b, n) :: c < Pow256(4)
    decreases n
  {
    if n > 0 {
      BigEndianOfValue(b[..4]);
      CsrcsCover(b[4..], n - 1);
      assert b[..4 * n] == b[..4] + b[4..][..4 * (n - 1)];
    }
  }

  lemma PayloadCovers(f: Fields, b: Octets) returns (pad: Octets)
    requires ReadPayload(f, b).1
    ensures var f' := ReadPayload(f, b).0;
            && b == f'.payload + pad && |pad| == f'.paddingSize < 0x100
            && f' == f.(paddingSize := f'.paddingSize, payload := f'.payload)
            && if pad == [] then (f.padding ==> f'.payload == []) else f.padding && pad[|pad| - 1] == |pad|
  {
    pad := if f.padding && b != [] then b[|b| - b[|b| - 1]..] else [];
    assert b + [] == b;
  }

  lemma ExtensionCovers(f: Fields, b: Octets) returns (ext: Octets, pad: Octets)
    requires ReadExtension(f, b).1
    ensures var f' := ReadExtension(f, b).0;
            && b == ext + (f'.payload + pad) && |pad| == f'.paddingSize < 0x100
            && f' == f.(paddingSize := f'.paddingSize, payload := f'.payload, extensionHeaderId := f'.extensionHeaderId,
                        extensionLength := f'.extensionLength, extensionValue := f'.extensionValue)
            && (if pad == [] then (f.padding ==> f'.payload == []) else f.padding && pad[|pad| - 1] == |pad|)
            && if f.extension
               then
                 && f'.extensionHeaderId < Pow256(2) && f'.extensionLength < Pow256(2)
                 && |f'.extensionValue| == 4 * f'.extensionLength
                 && ext == BigEndian(f'.extensionHeaderId, 2) + BigEndian(f'.extensionLength, 2) + f'.extensionValue
               else ext == [] && f'.extensionHeaderId == f.extensionHeaderId && f'.extensionLength == f.extensionLength
                    && f'.extensionValue == f.extensionValue
  {
    hide ReadPayload;
    if f.extension {
      BigEndianOfValue(b[..2]);
      BigEndianOfValue(b[2..4]);
      var n := Value(b[2..4]) * 4;
      ext := b[..4 + n];
      assert ext == b[..2] + b[2..4] + b[4..4 + n] && b == ext + b[4 + n..];
      var f1 := f.(extensionHeaderId := Value(b[..2]), extensionLength := Value(b[2..4]), extensionValue := b[4..4 + n]);
      pad := PayloadCovers(f1, b[4 + n..]);
    } else {
      ext := [];
      pad := PayloadCovers(f, b);
      assert [] + b == b;
    }
  }

  lemma FlagByteSplit(x: uint8)
    ensures x == x / 64 * 64 + x / 32 % 2 * 32 + x / 16 % 2 * 16 + x % 16
  {
    assert x / 32 == x / 64 * 2 + x / 32 % 2 && x / 16 == x / 32 * 2 + x / 16 % 2;
  }

  lemma FixedCovers(b: Octets, f: Fields)
    requires |b| >= 12 && InRange(f)
    requires f == ReadHead(f, b).(extensionValue := f.extensionValue, payload := f.payload)
    ensures Fixed(f) == b[..12]
  {
    hide Value, BigEndian, Pow256;
    BigEndianOfValue(b[2..4]);
    BigEndianOfValue(b[4..8]);
    BigEndianOfValue(b[8..12]);
    FlagByteSplit(b[0]);
    assert b[0] == f.version * 64 + Flag(f.padding) * 32 + Flag(f.extension) * 16 + f.csrcCount;
    assert b[1] == Flag(f.marker) * 128 + f.payloadType;
    hide InRange;
    assert [b[0], b[1]] + b[2..4] + b[4..8] + b[8..12] == b[..12];
  }

  /** On success the packet is its header, sources, extension, payload and padding, one behind the other with nothing left
      over; all fields are in range. Only a packet that announces padding and has no room for any departs from the format:
      it is accepted with a padding of zero octets. */
  lemma SuccessAccountsForAll(held: Fields, b: Octets) returns (pad: Octets)
    requires ReadFixed(held, b).1 && held.extensionHeaderId < Pow256(2) && held.extensionLength < Pow256(2)
    ensures var f := ReadFixed(held, b).0;
            && InRange(f) && b == Encode(f, pad) && |pad| == f.paddingSize
            && (PaddingOk(f, pad) || (f.padding && f.payload == [] && pad == []))
  {
    hide ReadExtension, Value, ReadCsrcs, Pow256, Fixed, BigEndian;
    var n := b[0] as int % 16;
    var f0 := ReadHead(held, b).(csrcs := ReadCsrcs(b[12..], n));
    var rest := b[12 + n * 4..];
    var f := ReadFixed(held, b).0;
    assert (f, true) == ReadExtension(f0, rest);
    hide ReadFixed;
    var ext;
    ext, pad := ExtensionCovers(f0, rest);
    CsrcsCover(b[12..], n);
    NumbersFit(b);
    assert InRange(f);
    FixedCovers(b, f);
    assert ExtensionBytes(f) == ext;
    hide ExtensionBytes, InRange, CsrcBytes;
    Halves(b, n);
    EncodeGrouped(Fixed(f), CsrcBytes(f.csrcs), ext, f.payload, pad);
  }

  lemma Halves(b: Octets, n: nat)
    requires |b| >= 12 + n * 4
    ensures b == b[..12] + (b[12..][..4 * n] + b[12 + n * 4..])
  {
  }

  lemma NumbersFit(b: Octets)
    requires |b| >= 12
    ensures Value(b[2..4]) < Pow256(2) && Value(b[4..8]) < Pow256(4) && Value(b[8..12]) < Pow256(4)
  {
    hide Value, Pow256;
    BigEndianOfValue(b[2..4]);
    BigEndianOfValue(b[4..8]);
    BigEndianOfValue(b[8..12]);
  }

  /** The octets reach as far as the length of the extension, if they announce one. */
  predicate HeaderStarts(b: Octets) {
    |b| >= 12 && |b| >= 12 + b[0] as int % 16 * 4 + if b[0] / 16 % 2 == 1 then 4 else 0
  }

  /** The length of header, sources and extension that the octets announce. */
  function HeaderLen(b: Octets): nat
    requires HeaderStarts(b)
  {
    var sources := 12 + b[0] as int % 16 * 4;
    sources + if b[0] / 16 % 2 == 1 then 4 + Value(b[sources + 2..sources + 4]) * 4 else 0
  }

  predicate Padded(b: Octets)
    requires b != []
  {
    b[0] / 32 % 2 == 1
  }

  /** The octets that are accepted, said of the octets alone. */
  predicate Acceptable(b: Octets) {
    && HeaderStarts(b) && |b| >= HeaderLen(b)
    && (Padded(b) && |b| > HeaderLen(b) ==> 1 <= b[|b| - 1] as int <= |b| - HeaderLen(b))
  }

  lemma ExtensionExactly(f: Fields, b: Octets, at: nat)
    requires at <= |b|
    ensures ReadExtension(f, b[at..]).1 <==>
            && |b| >= at + (if f.extension then 4 else 0)
            && var header := at + if f.extension then 4 + Value(b[at + 2..at + 4]) * 4 else 0;
               |b| >= header && (f.padding && |b| > header ==> 1 <= b[|b| - 1] as int <= |b| - header)
  {
    hide Value;
    Shift(b, at);
    if f.extension && |b| >= at + 4 {
      var header := at + 4 + Value(b[at + 2..at + 4]) * 4;
      if |b| >= header {
        Shift(b, header);
        assert b[at..][header - at..] == b[header..];
      }
    }
  }

  lemma SuccessExactly(held: Fields, b: Octets)
    ensures ReadFixed(held, b).1 <==> Acceptable(b)
  {
    hide Value, ReadExtension;
    if |b| >= 12 {
      var n := b[0] as int % 16;
      if |b| >= 12 + n * 4 {
        var f0 := ReadHead(held, b).(csrcs := ReadCsrcs(b[12..], n));
        ExtensionExactly(f0, b, 12 + n * 4);
        assert ReadFixed(held, b) == ReadExtension(f0, b[12 + n * 4..]);
      }
    }
  }

  lemma ExtensionFailure(f: Fields, b: Octets, at: nat)
    requires at <= |b| && !ReadExtension(f, b[at..]).1 && f.payload == []
    ensures var g := ReadExtension(f, b[at..]).0;
            var header := at + if f.extension && |b| >= at + 4 then 4 + Value(b[at + 2..at + 4]) * 4 else 0;
            && g == f.(extensionHeaderId := g.extensionHeaderId, extensionLength := g.extensionLength,
                       extensionValue := g.extensionValue, paddingSize := g.paddingSize)
            && (if f.extension && |b| >= at + 4
                then g.extensionHeaderId == Value(b[at..at + 2]) && g.extensionLength == Value(b[at + 2..at + 4])
                else g.extensionHeaderId == f.extensionHeaderId && g.extensionLength == f.extensionLength)
            && g.paddingSize == if (f.extension && |b| < at + 4) || |b| < header then f.paddingSize else b[|b| - 1]
  {
    hide Value;
    Shift(b, at);
    assert |b| >= at + 4 ==> b[at..][..2] == b[at..at + 2];
    if f.extension && |b| >= at + 4 {
      var header := at + 4 + Value(b[at + 2..at + 4]) * 4;
      if |b| >= header {
        Shift(b, header);
        assert b[at..][header - at..] == b[header..];
      }
    }
  }

  /** What a refused packet leaves behind. Nothing of it is taken for payload; with fewer than twelve octets everything else but
      the extension's value is as it was; otherwise the fixed fields are the packet's, and so are the sources, the extension's
      number and length and the padding size, each as far as the octets for it are there. */
  lemma FailureLeaves(held: Fields, b: Octets)
    requires !Acceptable(b)
    ensures var f := ReadFixed(held, b).0;
            if |b| < 12 then f == held.(extensionValue := [], payload := [])
            else
              var at := 12 + b[0] as int % 16 * 4;
              && f.payload == []
              && f.version == b[0] / 64 && f.csrcCount == b[0] % 16 && (f.padding <==> b[0] / 32 % 2 == 1)
              && (f.extension <==> b[0] / 16 % 2 == 1) && (f.marker <==> b[1] >= 128) && f.payloadType == b[1] % 128
              && f.sequenceNumber == Value(b[2..4]) && f.timestamp == Value(b[4..8]) && f.ssrc == Value(b[8..12])
              && f.csrcs == (if |b| < at then held.csrcs else ReadCsrcs(b[12..], f.csrcCount))
              && (if f.extension && |b| >= at + 4
                  then f.extensionHeaderId == Value(b[at..at + 2]) && f.extensionLength == Value(b[at + 2..at + 4])
                  else f.extensionHeaderId == held.extensionHeaderId && f.extensionLength == held.extensionLength)
              && f.paddingSize == if HeaderStarts(b) && |b| >= HeaderLen(b) then b[|b| - 1] else held.paddingSize
  {
    hide Value, ReadCsrcs, ReadExtension;
    if |b| >= 12 {
      var at := 12 + b[0] as int % 16 * 4;
      if |b| >= at {
        SuccessExactly(held, b);
        var f0 := ReadHead(held, b).(csrcs := ReadCsrcs(b[12..], b[0] as int % 16));
        assert ReadFixed(held, b) == ReadExtension(f0, b[at..]);
        ExtensionFailure(f0, b, at);
      }
    }
  }

  // --- which octets are packets

  /** The octets are an RTP packet: they encode some fields, with padding as section 5.1 has it. */
  ghost predicate IsPacket(b: Octets) {
    exists f: Fields, pad: Octets :: InRange(f) && PaddingOk(f, pad) && b == Encode(f, pad)
  }

  /** Where payload and padding begin in what encodes `f`. */
  lemma HeaderLenOfEncode(f: Fields, pad: Octets)
    requires InRange(f)
    ensures var b := Encode(f, pad);
            && HeaderStarts(b) && HeaderLen(b) == |b| - |f.payload| - |pad|
            && (Padded(b) <==> f.padding)
  {
    hide BigEndian, Value;
    var ext := ExtensionBytes(f);
    var rest := CsrcBytes(f.csrcs) + (ext + (f.payload + pad));
    EncodeGrouped(Fixed(f), CsrcBytes(f.csrcs), ext, f.payload, pad);
    FixedFields(f, rest);
    if f.extension {
      ValueOfBigEndian(f.extensionLength, 2);
      var at := 12 + f.csrcCount * 4;
      ExtensionAt(Fixed(f), CsrcBytes(f.csrcs), BigEndian(f.extensionHeaderId, 2), BigEndian(f.extensionLength, 2),
                  f.extensionValue, f.payload + pad);
      hide InRange, CsrcBytes;
      assert Encode(f, pad)[at + 2..at + 4] == BigEndian(f.extensionLength, 2);
    }
  }

  lemma ExtensionAt(a: Octets, b: Octets, id: Octets, length: Octets, value: Octets, rest: Octets)
    requires |id| == 2 && |length| == 2
    ensures var at := |a| + |b|; (a + (b + (id + length + value + rest)))[at + 2..at + 4] == length
  {
  }

  /** The reader against the format, on every octet string: a packet is always accepted, and what is accepted without being
      one is exactly what announces padding and ends with its header. */
  lemma PacketsExactly(b: Octets)
    ensures IsPacket(b) <==> Acceptable(b) && !(Padded(b) && |b| == HeaderLen(b))
  {
    hide Value, HeaderLen, InRange, Encode, ReadFixed;
    if f: Fields, pad: Octets :| InRange(f) && PaddingOk(f, pad) && b == Encode(f, pad) {
      UnmarshalInvertsEncode(BLANK, f, pad);
      SuccessExactly(BLANK, b);
      HeaderLenOfEncode(f, pad);
    }
    if Acceptable(b) && !(Padded(b) && |b| == HeaderLen(b)) {
      SuccessExactly(BLANK, b);
      BlankFits();
      var pad := SuccessAccountsForAll(BLANK, b);
      var f := ReadFixed(BLANK, b).0;
      HeaderLenOfEncode(f, pad);
      assert InRange(f) && PaddingOk(f, pad) && b == Encode(f, pad);
    }
  }

  lemma BlankFits()
    ensures BLANK.extensionHeaderId < Pow256(2) && BLANK.extensionLength < Pow256(2)
  {
  }

  /** The shortest such octets: twelve, announcing padding. The reader says yes and reports no padding. */
  lemma PaddingWithoutRoom(held: Fields, b: Octets)
    requires |b| == 12 && b[0] == 0xA0
    ensures ReadFixed(held, b).1 && ReadFixed(held, b).0.padding && ReadFixed(held, b).0.paddingSize == 0 && !IsPacket(b)
  {
    PacketsExactly(b);
    hide Value, IsPacket;
    SuccessExactly(held, b);
  }

  lemma Shift(b: Octets, at: nat)
    requires at <= |b|
    ensures |b| >= at + 4 ==> b[at..][2..4] == b[at + 2..at + 4]
    ensures |b| > at ==> b[at..][|b| - at - 1] == b[|b| - 1]
  {
  }

  /** Two packets one after the other: a packet without an extension still shows the number and length of the last one
      that had one, with an empty value. */
  lemma StaleExtension(held: Fields, f: Fields, pad: Octets)
    requires InRange(f) && PaddingOk(f, pad) && !f.extension
    ensures var g := ReadFixed(held, Encode(f, pad)).0;
            && !g.extension && g.extensionValue == []
            && g.extensionHeaderId == held.extensionHeaderId && g.extensionLength == held.extensionLength
  {
    UnmarshalInvertsEncode(held, f, pad);
  }
}
