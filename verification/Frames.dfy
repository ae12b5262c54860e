/** Length-prefixed frames on a byte stream: the server's printer and the client's reader and reassembly loop. */
module Frames {
  import opened Bytes

  const HEADER := 13
  const MAX_DATA := 0x1_0000_0000

  datatype Frame = Frame(kind: uint8, timestamp: nat, data: Octets)

  datatype Result<T> = Ok(value: T) | Error(message: string)

  // --- the printer

  lemma {:induction false} BigEndianDigit(n: nat, k: nat, j: nat)
    requires j < k
    ensures BigEndian(n, k)[j] == n / Pow256(k - 1 - j) % 0x100
    decreases k
  {
    if j < k - 1 {
      BigEndianDigit(n / 0x100, k - 1, j);
      DivDiv(n, 0x100, Pow256(k - 2 - j));
    }
  }

  lemma DivDiv(n: nat, a: nat, b: nat)
    requires a > 0 && b > 0
    ensures a * b > 0 && n / a / b == n / (a * b)
  {
    var q, r := n / a, n % a;
    var q', r' := q / b, q % b;
    Below(a, b, r', r);
    Combine(n, a, b, q, r, q', r');
    QuotientUnique(n, a * b, q', a * r' + r);
  }

  lemma Spread(a: nat, b: nat, q: nat, r: nat)
    ensures a * (b * q + r) == (a * b) * q + a * r
  {
  }

  lemma Combine(n: nat, a: nat, b: nat, q: nat, r: nat, q': nat, r': nat)
    requires n == a * q + r && q == b * q' + r'
    ensures n == (a * b) * q' + (a * r' + r)
  {
    Spread(a, b, q', r');
  }

  lemma Distribute(a: nat, x: nat, y: nat)
    ensures a * (x + y) == a * x + y * a
  {
  }

  lemma Below(a: nat, b: nat, r': nat, r: nat)
    requires r' < b && r < a
    ensures a * r' + r < a * b
  {
    Distribute(a, r', b - r');
    MulSign(b - r', a);
  }

  function Header(kind: uint8, timestamp: nat, size: nat): (h: Octets)
    ensures |h| == HEADER
  {
    [kind] + BigEndian(timestamp, 8) + BigEndian(size, 4)
  }

  /** The bytes on the wire; only the low 32 bits of the length fit the size field. */
  function Serialized(f: Frame): Octets {
    Header(f.kind, f.timestamp, |f.data| % MAX_DATA) + f.data
  }

  method Serialize(f: Frame) returns (framed: Octets)
    ensures framed == Serialized(f)
  {
    framed := [f.kind];
    var i := 7;
    while i >= 0
      invariant -1 <= i <= 7
      invariant framed == [f.kind] + BigEndian(f.timestamp, 8)[..7 - i]
    {
      BigEndianDigit(f.timestamp, 8, 7 - i);
      framed := framed + [f.timestamp / Pow256(i) % 0x100];
      i := i - 1;
    }
    ghost var stamped := framed;
    assert stamped == [f.kind] + BigEndian(f.timestamp, 8);
    var size := |f.data| % MAX_DATA;
    i := 3;
    while i >= 0
      invariant -1 <= i <= 3
      invariant framed == stamped + BigEndian(size, 4)[..3 - i]
    {
      BigEndianDigit(size, 4, 3 - i);
      framed := framed + [size / Pow256(i) % 0x100];
      i := i - 1;
    }
    assert framed == stamped + BigEndian(size, 4);
    framed := framed + f.data;
  }

  // --- the reader of one frame

  function SizeField(b: Octets): nat
    requires |b| >= HEADER
  {
    Value(b[9..HEADER])
  }

  function Deserialized(b: Octets): Result<Frame> {
    if |b| < HEADER then Error("Buffer too small to be a valid frame")
    else if |b| < HEADER + SizeField(b) then Error("Incomplete frame payload")
    else Ok(Frame(b[0], Value(b[1..9]), b[HEADER..HEADER + SizeField(b)]))
  }

  method Deserialize(b: Octets) returns (r: Result<Frame>)
    ensures r == Deserialized(b)
  {
    if |b| < HEADER { return Error("Buffer too small to be a valid frame"); }
    var offset := 0;
    var kind := b[offset];
    offset := offset + 1;
    var timestamp := ReadBigEndian(b, offset, 8);
    offset := offset + 8;
    var size := ReadBigEndian(b, offset, 4);
    offset := offset + 4;
    if |b| < offset + size { return Error("Incomplete frame payload"); }
    r := Ok(Frame(kind, timestamp, b[offset..offset + size]));
  }

  // --- the reassembly loop

  /** The frames at the front of a byte stream, and what is left behind them. */
  datatype Cut = Cut(frames: seq<Frame>, rest: Octets)

  predicate Complete(b: Octets) {
    |b| >= HEADER && HEADER + SizeField(b) <= |b|
  }

  /** A complete front is readable: the reader cannot fail on it. */
  function Front(b: Octets): (f: Frame)
    requires Complete(b)
    ensures Deserialized(b[..HEADER + SizeField(b)]) == Ok(f)
  {
    var end := HEADER + SizeField(b);
    assert b[..end][9..HEADER] == b[9..HEADER];
    Deserialized(b[..end]).value
  }

  lemma FrontSize(b: Octets)
    requires Complete(b)
    ensures |Front(b).data| == SizeField(b)
  {
    hide Value;
    var end := HEADER + SizeField(b);
    assert b[..end][9..HEADER] == b[9..HEADER];
  }

  function Extract(b: Octets): Cut
    decreases |b|
  {
    if !Complete(b) then Cut([], b)
    else
      var later := Extract(b[HEADER + SizeField(b)..]);
      Cut([Front(b)] + later.frames, later.rest)
  }

  class Receiver {
    var pendingBuffer: Octets
    var received: seq<Frame>

    constructor ()
      ensures pendingBuffer == [] && received == []
    {
      pendingBuffer, received := [], [];
    }

    /** One chunk from the stream: all frames it completes are read, the rest is kept. */
    method Receive(value: Octets)
      modifies this
      ensures received == old(received) + Extract(old(pendingBuffer) + value).frames
      ensures pendingBuffer == Extract(old(pendingBuffer) + value).rest
    {
      var combined := pendingBuffer + value;
      ghost var before := received;
      var offset := 0;
      ResumeStart(before, combined);
      hide Resumes, Extract, Value, Deserialized, Complete;
      while offset <= |combined| - HEADER
        invariant 0 <= offset <= |combined|
        invariant Resumes(before, combined, received, offset)
      {
        var dataSize := ReadBigEndian(combined, offset + 9, 4);
        var frameEnd := offset + HEADER + dataSize;
        if frameEnd > |combined| {
          ResumeStops(before, combined, received, offset, dataSize);
          pendingBuffer := combined[offset..];
          return;
        }
        var frameBytes := combined[offset..frameEnd];
        ResumeStep(before, combined, received, offset, frameEnd, frameBytes);
        var frame := Deserialize(frameBytes);
        received := received + [frame.value];
        offset := frameEnd;
      }
      ResumeEnds(before, combined, received, offset);
      pendingBuffer := combined[offset..];
    }
  }

  /** The front of what lies behind `offset`, in the loop's terms. */
  lemma FrontAt(all: Octets, offset: nat)
    requires offset + HEADER <= |all|
    ensures var left := all[offset..];
            var size := Value(all[offset + 9..offset + HEADER]);
            && SizeField(left) == size
            && (Complete(left) <==> offset + HEADER + size <= |all|)
            && (Complete(left) ==> Deserialized(all[offset..offset + HEADER + size]) == Ok(Front(left))
                                   && left[HEADER + size..] == all[offset + HEADER + size..])
  {
    hide Value, Deserialized;
    var left := all[offset..];
    assert left[9..HEADER] == all[offset + 9..offset + HEADER];
    var size := SizeField(left);
    if Complete(left) {
      assert left[..HEADER + size] == all[offset..offset + HEADER + size];
    }
  }

  /** Loop invariant: what has been read so far, continued at `offset`, is the whole cut of `all`. */
  ghost predicate Resumes(before: seq<Frame>, all: Octets, now: seq<Frame>, offset: nat) {
    && offset <= |all|
    && before + Extract(all).frames == now + Extract(all[offset..]).frames
    && Extract(all).rest == Extract(all[offset..]).rest
  }

  lemma ResumeStart(before: seq<Frame>, all: Octets)
    ensures Resumes(before, all, before, 0)
  {
    assert all[0..] == all;
  }

  lemma ResumeStep(before: seq<Frame>, all: Octets, now: seq<Frame>, offset: nat, end: nat, bytes: Octets)
    requires offset + HEADER <= end <= |all| && end == offset + HEADER + Value(all[offset + 9..offset + 13])
    requires bytes == all[offset..end] && Resumes(before, all, now, offset)
    ensures Deserialized(bytes).Ok? && Resumes(before, all, now + [Deserialized(bytes).value], end)
  {
    hide Value, Deserialized, Front;
    FrontAt(all, offset);
    var left := all[offset..];
    Regroup(now, [Front(left)], Extract(left[HEADER + SizeField(left)..]).frames);
  }

  /** Nothing complete is left: what has been read is all there is. */
  lemma Stops(before: seq<Frame>, all: Octets, now: seq<Frame>, offset: nat)
    requires Resumes(before, all, now, offset) && !Complete(all[offset..])
    ensures now == before + Extract(all).frames && all[offset..] == Extract(all).rest
  {
    assert now + [] == now;
  }

  lemma ResumeStops(before: seq<Frame>, all: Octets, now: seq<Frame>, offset: nat, size: nat)
    requires offset + HEADER <= |all| < offset + HEADER + size && size == Value(all[offset + 9..offset + 13])
    requires Resumes(before, all, now, offset)
    ensures now == before + Extract(all).frames && all[offset..] == Extract(all).rest
  {
    hide Value;
    FrontAt(all, offset);
    Stops(before, all, now, offset);
  }

  lemma ResumeEnds(before: seq<Frame>, all: Octets, now: seq<Frame>, offset: nat)
    requires offset <= |all| < offset + HEADER && Resumes(before, all, now, offset)
    ensures now == before + Extract(all).frames && all[offset..] == Extract(all).rest
  {
    Stops(before, all, now, offset);
  }

  // --- any chunking

  lemma CompleteBound(a: Octets)
    requires Complete(a)
    ensures HEADER <= HEADER + SizeField(a) <= |a|
  {
  }

  lemma CompleteStays(a: Octets, b: Octets)
    requires Complete(a)
    ensures Complete(a + b) && SizeField(a + b) == SizeField(a) && Front(a + b) == Front(a)
    ensures (a + b)[HEADER + SizeField(a)..] == a[HEADER + SizeField(a)..] + b
  {
    assert (a + b)[9..HEADER] == a[9..HEADER];
    assert (a + b)[..HEADER + SizeField(a)] == a[..HEADER + SizeField(a)];
  }

  /** Cutting in two goes: what is left of the first stretch, with the second behind it, yields the remaining frames. */
  lemma {:induction false} ExtractInTwo(a: Octets, b: Octets)
    ensures Extract(a + b).frames == Extract(a).frames + Extract(Extract(a).rest + b).frames
    ensures Extract(a + b).rest == Extract(Extract(a).rest + b).rest
    decreases |a|
  {
    hide SizeField, Front, Complete;
    if Complete(a) {
      CompleteBound(a);
      var end := HEADER + SizeField(a);
      CompleteStays(a, b);
      ExtractInTwo(a[end..], b);
      Regroup([Front(a)], Extract(a[end..]).frames, Extract(Extract(a).rest + b).frames);
    }
  }

  /** The receiver's two fields after a run over a list of chunks. */
  function Run(st: Cut, chunks: seq<Octets>): Cut
    decreases |chunks|
  {
    if chunks == [] then st
    else
      var c := Extract(st.rest + chunks[0]);
      Run(Cut(st.frames + c.frames, c.rest), chunks[1..])
  }

  /** Whatever the bytes and however they are cut into chunks, the receiver ends with the frames and the remainder of
      the whole stream. */
  lemma {:induction false} ChunkingIsInvisible(st: Cut, chunks: seq<Octets>)
    requires Extract(st.rest) == Cut([], st.rest)
    ensures Run(st, chunks).frames == st.frames + Extract(st.rest + Flatten(chunks)).frames
    ensures Run(st, chunks).rest == Extract(st.rest + Flatten(chunks)).rest
    decreases |chunks|
  {
    hide Extract;
    if chunks == [] {
      assert st.rest + [] == st.rest && st.frames + [] == st.frames;
    } else {
      var a, later := st.rest + chunks[0], Flatten(chunks[1..]);
      var c := Extract(a);
      Regroup(st.rest, chunks[0], later);
      ExtractInTwo(a, later);
      RestIsBare(a);
      ChunkingIsInvisible(Cut(st.frames + c.frames, c.rest), chunks[1..]);
      Regroup(st.frames, c.frames, Extract(c.rest + later).frames);
    }
  }

  lemma {:induction false} RestIsBare(a: Octets)
    ensures Extract(Extract(a).rest) == Cut([], Extract(a).rest)
    decreases |a|
  {
    if Complete(a) { RestIsBare(a[HEADER + SizeField(a)..]); }
  }

  method ReceiveAll(chunks: seq<Octets>) returns (r: Receiver)
    ensures fresh(r)
    ensures r.received == Extract(Flatten(chunks)).frames && r.pendingBuffer == Extract(Flatten(chunks)).rest
  {
    r := new Receiver();
    hide Extract;
    for i := 0 to |chunks|
      invariant fresh(r)
      invariant Run(Cut(r.received, r.pendingBuffer), chunks[i..]) == Run(Cut([], []), chunks)
    {
      assert chunks[i..][1..] == chunks[i + 1..];
      r.Receive(chunks[i]);
    }
    EmptyCut();
    ChunkingIsInvisible(Cut([], []), chunks);
    assert [] + Flatten(chunks) == Flatten(chunks);
    assert [] + Extract(Flatten(chunks)).frames == Extract(Flatten(chunks)).frames;
  }

  lemma EmptyCut()
    ensures Extract([]) == Cut([], [])
  {
  }

  // --- printed frames

  predicate FrameOk(f: Frame) {
    f.timestamp < Pow256(8)
  }

  lemma SerializedFields(f: Frame, t: Octets)
    requires FrameOk(f)
    ensures var s := Serialized(f) + t;
            |s| >= HEADER && s[0] == f.kind && Value(s[1..9]) == f.timestamp && SizeField(s) == |f.data| % MAX_DATA
  {
    var s := Serialized(f) + t;
    var size := |f.data| % MAX_DATA;
    assert s[1..9] == BigEndian(f.timestamp, 8);
    assert s[9..HEADER] == BigEndian(size, 4);
    ValueOfBigEndian(f.timestamp, 8);
    assert Pow256(1) == 0x100 && Pow256(2) == 0x1_0000 && Pow256(3) == 0x100_0000 && Pow256(4) == MAX_DATA;
    ValueOfBigEndian(size, 4);
  }

  /** A printed frame in front of anything is read back, provided its length fits the size field. */
  lemma SerializedIsFront(f: Frame, t: Octets)
    requires FrameOk(f) && |f.data| < MAX_DATA
    ensures Complete(Serialized(f) + t) && Front(Serialized(f) + t) == f
    ensures HEADER + SizeField(Serialized(f) + t) == |Serialized(f)| && (Serialized(f) + t)[|Serialized(f)|..] == t
  {
    hide Header, Value;
    var s := Serialized(f) + t;
    SerializedFields(f, t);
    var end := |Serialized(f)|;
    assert s[..end] == Serialized(f) && s[HEADER..end] == f.data;
    assert s[..end][1..9] == s[1..9] && s[..end][9..HEADER] == s[9..HEADER] && s[..end][HEADER..end] == f.data;
  }

  /** One frame survives the wire exactly when its data is shorter than 2^32 bytes. */
  lemma FrameRoundTrip(f: Frame)
    requires FrameOk(f)
    ensures Extract(Serialized(f)) == Cut([f], []) <==> |f.data| < MAX_DATA
  {
    hide Header, Value;
    var s := Serialized(f);
    assert s + [] == s;
    SerializedFields(f, []);
    if |f.data| < MAX_DATA {
      SerializedIsFront(f, []);
      EmptyCut();
      assert [f] + [] == [f];
    } else {
      if Complete(s) { FrontSize(s); }
    }
  }

  function SerializedAll(fs: seq<Frame>): Octets {
    if fs == [] then [] else Serialized(fs[0]) + SerializedAll(fs[1..])
  }

  ghost predicate AllFit(fs: seq<Frame>) {
    forall f | f in fs :: FrameOk(f) && |f.data| < MAX_DATA
  }

  /** Printed frames are read back, up to whatever follows them. */
  lemma {:induction false} StreamRoundTrip(fs: seq<Frame>, t: Octets)
    requires AllFit(fs)
    ensures Extract(SerializedAll(fs) + t).frames == fs + Extract(t).frames
    ensures Extract(SerializedAll(fs) + t).rest == Extract(t).rest
    decreases |fs|
  {
    hide Serialized, SizeField, Front, Complete;
    if fs == [] {
      assert [] + t == t && [] + Extract(t).frames == Extract(t).frames;
    } else {
      assert fs[0] in fs && forall f | f in fs[1..] :: f in fs;
      StreamRoundTrip(fs[1..], t);
      Regroup(Serialized(fs[0]), SerializedAll(fs[1..]), t);
      SerializedIsFront(fs[0], SerializedAll(fs[1..]) + t);
      Regroup([fs[0]], fs[1..], Extract(t).frames);
      assert fs == [fs[0]] + fs[1..];
    }
  }

  /** A strict beginning of a printed frame is not complete. */
  lemma PartIsIncomplete(f: Frame, part: Octets, missing: Octets)
    requires FrameOk(f) && |f.data| < MAX_DATA && part + missing == Serialized(f) && missing != []
    ensures !Complete(part)
  {
    hide Header, Value, Front;
    assert Serialized(f) + [] == Serialized(f);
    SerializedFields(f, []);
    if Complete(part) { CompleteStays(part, missing); }
  }

  lemma Prefix(fs: seq<Frame>, k: nat)
    requires k < |fs|
    ensures fs[..k + 1] != [] && fs[..k + 1][0] == fs[0] && fs[..k + 1][1..] == fs[1..][..k] && fs[..k + 1] == [fs[0]] + fs[1..][..k]
  {
  }

  lemma OneMore(fs: seq<Frame>, t: Octets, k: nat)
    requires fs != [] && AllFit(fs) && k < |fs|
    requires Extract(t).frames == fs[1..][..k] && SerializedAll(fs[1..][..k]) + Extract(t).rest == t
    ensures Extract(Serialized(fs[0]) + t).frames == fs[..k + 1] && Extract(Serialized(fs[0]) + t).rest == Extract(t).rest
    ensures SerializedAll(fs[..k + 1]) + Extract(t).rest == Serialized(fs[0]) + t
  {
    hide SizeField, Front, Complete, Serialized;
    var s, ts := Serialized(fs[0]), fs[1..][..k];
    assert fs[0] in fs;
    SerializedIsFront(fs[0], t);
    Prefix(fs, k);
    Regroup(s, SerializedAll(ts), Extract(t).rest);
  }

  /** After any beginning of the stream of printed frames, exactly the frames wholly received are out, and the pending
      bytes are exactly the received part of the next one. */
  lemma {:induction false} PendingIsIncompleteTail(fs: seq<Frame>, got: Octets, toCome: Octets) returns (k: nat)
    requires AllFit(fs) && got + toCome == SerializedAll(fs)
    ensures k <= |fs| && Extract(got).frames == fs[..k] && SerializedAll(fs[..k]) + Extract(got).rest == got
    ensures if k == |fs| then Extract(got).rest == []
            else |Extract(got).rest| < |Serialized(fs[k])| && Extract(got).rest <= Serialized(fs[k])
    decreases |fs|
  {
    hide SizeField, Front, Complete, Serialized;
    if fs == [] {
      assert got == [];
      EmptyCut();
      k := 0;
    } else {
      var s, later := Serialized(fs[0]), SerializedAll(fs[1..]);
      assert fs[0] in fs && forall f | f in fs[1..] :: f in fs;
      assert got == (s + later)[..|got|];
      if |got| < |s| {
        assert s == got + s[|got|..];
        PartIsIncomplete(fs[0], got, s[|got|..]);
        k := 0;
        assert [] + got == got;
      } else {
        var got' := got[|s|..];
        assert got == s + got' && got' + toCome == (got + toCome)[|s|..] == later;
        k := PendingIsIncompleteTail(fs[1..], got', toCome);
        OneMore(fs, got', k);
        k := k + 1;
      }
    }
  }
}
