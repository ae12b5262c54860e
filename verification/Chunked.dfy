/** Chunked transfer coding (RFC 9112 section 7.1): the writer's sink, the line reader and the chunk reader. */
module Chunked {
  import opened Bytes
  import opened TextSearch

  const ULONG_MAX := 0xFFFF_FFFF_FFFF_FFFF
  const HEADER_MAX_LENGTH := 8192
  const RECV_BUFSIZ := 16384

  // --- numbers

  function HexDigit(n: nat): (c: char)
    requires n < 16
    ensures DigitOf(c) == Some(n)
  {
    "0123456789abcdef"[n]
  }

  function DigitOf(c: char): Option<nat> {
    if '0' <= c <= '9' then Some((c - '0') as nat)
    else if 'a' <= c <= 'f' then Some((c - 'a') as nat + 10)
    else if 'A' <= c <= 'F' then Some((c - 'A') as nat + 10)
    else None
  }

  function ToHex(n: nat): (s: string)
    ensures s != ""
  {
    if n < 16 then [HexDigit(n)] else ToHex(n / 16) + [HexDigit(n % 16)]
  }

  lemma HexStep(m: nat, ret: string)
    requires m > 0
    ensures var more := [HexDigit(m % 16)] + ret;
            ToHex(m) + ret == if m >= 16 then ToHex(m / 16) + more else more
  {
    hide HexDigit;
    if m >= 16 { Regroup(ToHex(m / 16), [HexDigit(m % 16)], ret); }
  }

  method FromIToHex(n: nat) returns (ret: string)
    ensures ret == ToHex(n)
  {
    hide HexDigit;
    ret := [HexDigit(n % 16)];
    var m := n / 16;
    while m > 0
      invariant ToHex(n) == if m > 0 then ToHex(m) + ret else ret
    {
      HexStep(m, ret);
      ret := [HexDigit(m % 16)] + ret;
      m := m / 16;
    }
  }

  /** The value of the hexadecimal digits that begin `s`, and how many there are. */
  function DigitsFrom(s: string, v: nat): (r: (nat, nat))
    ensures r.1 <= |s|
  {
    if s == "" || DigitOf(s[0]).None? then (v, 0)
    else
      var more := DigitsFrom(s[1..], v * 16 + DigitOf(s[0]).value);
      (more.0, more.1 + 1)
  }

  predicate IsSpace(c: char) {
    c == ' ' || '\t' <= c <= '\r'
  }

  function SkipSpace(s: string): (r: nat)
    ensures r <= |s|
  {
    if s != "" && IsSpace(s[0]) then 1 + SkipSpace(s[1..]) else 0
  }

  predicate Prefixed(s: string) {
    |s| > 2 && s[0] == '0' && (s[1] == 'x' || s[1] == 'X') && DigitOf(s[2]).Some?
  }

  /** The digits behind a prefix, if there is one: their value, and how many characters that takes. */
  function Unsigned(s: string): (r: (nat, nat)) {
    var k := if Prefixed(s) then 2 else 0;
    var (v, used) := DigitsFrom(s[k..], 0);
    (v, if used == 0 then 0 else k + used)
  }

  /** `strtoul(s, &end, 16)`: the value, and how many characters were used (none when there is no number). */
  function StrToUl16(s: string): (r: (nat, nat))
    ensures r.0 <= ULONG_MAX
  {
    var i := SkipSpace(s);
    var j := if i < |s| && (s[i] == '+' || s[i] == '-') then i + 1 else i;
    var (v, used) := Unsigned(s[j..]);
    if used == 0 then (0, 0)
    else if v > ULONG_MAX then (ULONG_MAX, j + used)
    else (if i < j && s[i] == '-' && v > 0 then ULONG_MAX + 1 - v else v, j + used)
  }

  predicate AllHex(s: string) {
    forall c | c in s :: DigitOf(c).Some?
  }

  lemma {:induction false} ToHexIsHex(n: nat)
    ensures AllHex(ToHex(n))
  {
    if n >= 16 { ToHexIsHex(n / 16); }
  }

  lemma {:induction false} DigitsFromConcat(s: string, t: string, v: nat)
    requires AllHex(s)
    ensures var head := DigitsFrom(s, v); var tail := DigitsFrom(t, head.0);
            head.1 == |s| && DigitsFrom(s + t, v) == (tail.0, |s| + tail.1)
    decreases |s|
  {
    if s == "" {
      assert s + t == t;
    } else {
      assert s[0] in s;
      DigitsFromConcat(s[1..], t, v * 16 + DigitOf(s[0]).value);
      assert (s + t)[1..] == s[1..] + t;
    }
  }

  lemma {:induction false} DigitsOfHex(n: nat)
    ensures DigitsFrom(ToHex(n), 0) == (n, |ToHex(n)|)
  {
    if n >= 16 {
      var last := [HexDigit(n % 16)];
      DigitsOfHex(n / 16);
      ToHexIsHex(n / 16);
      DigitsFromConcat(ToHex(n / 16), last, 0);
      assert last[1..] == "";
      assert DigitsFrom(last, n / 16) == (n / 16 * 16 + n % 16, 1);
    } else {
      assert ToHex(n)[1..] == "";
      assert DigitsFrom(ToHex(n), 0) == (n, 1);
    }
  }

  /** Reading the size line that the writer wrote gives the size, and uses something, up to the largest `unsigned long`. */
  lemma SizeLineReadsBack(n: nat)
    requires n <= ULONG_MAX
    ensures StrToUl16(ToHex(n) + CRLF) == (n, |ToHex(n)|)
  {
    hide ToHex, DigitsFrom, DigitOf, IsSpace;
    var h := ToHex(n);
    var s := h + CRLF;
    ToHexIsHex(n);
    SizeDigits(n);
    assert h[0] in h && s[0] == h[0];
    HexIsPlain(s[0]);
    if |h| > 1 {
      assert h[1] in h && s[1] == h[1];
      HexIsPlain(s[1]);
    } else {
      assert s[1] == '\r';
    }
    assert s[0..] == s;
  }

  lemma HexIsPlain(c: char)
    requires DigitOf(c).Some?
    ensures !IsSpace(c) && c != '+' && c != '-' && c != 'x' && c != 'X'
  {
  }

  lemma SizeDigits(n: nat)
    ensures DigitsFrom(ToHex(n) + CRLF, 0) == (n, |ToHex(n)|)
  {
    ToHexIsHex(n);
    DigitsOfHex(n);
    DigitsFromConcat(ToHex(n), CRLF, 0);
    assert DigitsFrom(CRLF, n) == (n, 0);
  }

  // --- the writer

  function ChunkText(d: string): string {
    if d == "" then "" else ToHex(|d|) + CRLF + d + CRLF
  }

  function ChunksText(writes: seq<string>): string {
    if writes == [] then "" else ChunkText(writes[0]) + ChunksText(writes[1..])
  }

  datatype Field = Field(name: string, value: string)

  function FieldLine(f: Field): string { f.name + ": " + f.value + CRLF }

  function FieldLines(fs: seq<Field>): string {
    if fs == [] then "" else FieldLine(fs[0]) + FieldLines(fs[1..])
  }

  function EndText(trailer: seq<Field>): string {
    "0\r\n" + FieldLines(trailer) + CRLF
  }

  lemma {:induction false} FieldLinesAppend(fs: seq<Field>, f: Field)
    ensures FieldLines(fs + [f]) == FieldLines(fs) + FieldLine(f)
    decreases |fs|
  {
    if fs == [] {
      assert fs + [f] == [f];
      assert FieldLines([f]) == FieldLine(f) + "";
    } else {
      FieldLinesAppend(fs[1..], f);
      assert (fs + [f])[1..] == fs[1..] + [f] && (fs + [f])[0] == fs[0];
      Regroup(FieldLine(fs[0]), FieldLines(fs[1..]), FieldLine(f));
    }
  }

  /** The sink a content provider writes to, over a connection that still takes `budget` characters. */
  class DataSink {
    var ok: bool
    var dataAvailable: bool
    var offset: nat
    var out: string
    var budget: nat

    constructor (budget: nat)
      ensures ok && dataAvailable && offset == 0 && out == "" && this.budget == budget
    {
      ok, dataAvailable, offset, out, this.budget := true, true, 0, "", budget;
    }

    /** Nothing fails while the connection lasts, and what failed stays failed. */
    method WriteData(d: string) returns (r: bool)
      modifies this`out, this`budget
      ensures r <==> |d| <= old(budget)
      ensures out == old(out) + (if r then d else d[..old(budget)])
      ensures budget == if r then old(budget) - |d| else 0
    {
      if |d| <= budget {
        out, budget := out + d, budget - |d|;
        return true;
      }
      out, budget := out + d[..budget], 0;
      return false;
    }

    method Write(d: string) returns (r: bool)
      modifies this
      ensures r == ok
      ensures !old(ok) ==> !ok && out == old(out) && dataAvailable == old(dataAvailable) && offset == old(offset)
      ensures old(ok) ==> dataAvailable == (|d| > 0) && offset == old(offset) + |d|
      ensures ok <==> old(ok) && |ChunkText(d)| <= old(budget)
      ensures ok ==> out == old(out) + ChunkText(d) && budget == old(budget) - |ChunkText(d)|
    {
      if ok {
        dataAvailable := |d| > 0;
        offset := offset + |d|;
        var payload := d;
        if payload != "" {
          var size := FromIToHex(|payload|);
          var chunk := size + CRLF + payload + CRLF;
          var written := WriteData(chunk);
          if !written { ok := false; }
        }
      }
      return ok;
    }

    method Done(trailer: seq<Field>)
      modifies this
      ensures ok ==> old(ok) && !dataAvailable && out == old(out) + EndText(trailer) && budget == old(budget) - |EndText(trailer)|
      ensures ok <==> old(ok) && |EndText(trailer)| <= old(budget)
      ensures offset == old(offset)
    {
      if !ok { return; }
      dataAvailable := false;
      ghost var before, room := out, budget;
      var written := WriteData("0\r\n");
      if !written { ok := false; }
      for i := 0 to |trailer|
        invariant offset == old(offset) && !dataAvailable
        invariant ok ==> out == before + ("0\r\n" + FieldLines(trailer[..i]))
        invariant ok ==> budget + |"0\r\n" + FieldLines(trailer[..i])| == room
        invariant !ok ==> budget == 0 && room < |"0\r\n" + FieldLines(trailer[..i])|
      {
        FieldLinesAppend(trailer[..i], trailer[i]);
        assert trailer[..i + 1] == trailer[..i] + [trailer[i]];
        Regroup("0\r\n", FieldLines(trailer[..i]), FieldLine(trailer[i]));
        Regroup(before, "0\r\n" + FieldLines(trailer[..i]), FieldLine(trailer[i]));
        var line := trailer[i].name + ": " + trailer[i].value + CRLF;
        written := WriteData(line);
        if !written { ok := false; }
      }
      assert trailer[..|trailer|] == trailer;
      Regroup(before, "0\r\n" + FieldLines(trailer), CRLF);
      written := WriteData(CRLF);
      if !written { ok := false; }
    }
  }

  // --- the stream and the line reader

  /** A stream of which `data[pos..]` is still to come; at its end it reports an error when `broken`. */
  class Stream {
    const data: string
    const broken: bool
    var pos: nat

    predicate Valid()
      reads this
    {
      pos <= |data|
    }

    constructor (data: string, broken: bool)
      ensures Valid() && pos == 0 && this.data == data && this.broken == broken
    {
      this.data, this.broken, pos := data, broken, 0;
    }

    /** Reads at least one character while there are any, but as few as it likes. */
    method Read(n: nat) returns (count: int, bytes: string)
      requires Valid() && n > 0
      modifies this`pos
      ensures Valid() && old(pos) <= pos
      ensures old(pos) == |data| ==> pos == old(pos) && bytes == "" && count == (if broken then -1 else 0)
      ensures old(pos) < |data| ==> old(pos) < pos <= old(pos) + n && count == pos - old(pos) && bytes == data[old(pos)..pos]
    {
      if pos == |data| {
        return if broken then -1 else 0, "";
      }
      count :| 1 <= count <= n && pos + count <= |data|;
      bytes := data[pos..pos + count];
      pos := pos + count;
    }
  }

  /** What reading one line from `pos` gives, and where it leaves the stream. */
  datatype LineRead = LineRead(ok: bool, line: string, pos: nat)

  function LineAt(data: string, broken: bool, pos: nat): (r: LineRead)
    requires pos <= |data|
    ensures pos <= r.pos <= |data|
    ensures r.ok ==> pos < r.pos && r.line == data[pos..r.pos]
  {
    var e := FindFrom(data, CRLF, pos);
    if e < |data| then LineRead(true, data[pos..e + 2], e + 2)
    else LineRead(pos < |data| && !broken, data[pos..], |data|)
  }

  /** A C string: the characters before the first NUL. */
  function CString(s: string): string {
    if s == "" || s[0] == '\0' then "" else [s[0]] + CString(s[1..])
  }

  /** The two-tier line buffer: a fixed array, and a growable one once the line outgrows it. */
  class LineReader {
    const fixedBuffer: array<char>
    var used: nat
    var growable: string

    predicate Valid()
      reads this, fixedBuffer
    {
      && fixedBuffer.Length >= 2 && used <= fixedBuffer.Length - 1
      && (used > 0 ==> fixedBuffer[used] == '\0')
      && (growable != "" ==> used == fixedBuffer.Length - 1)
    }

    function Contents(): string
      requires Valid()
      reads this, fixedBuffer
    {
      if growable == "" then fixedBuffer[..used] else growable
    }

    constructor (size: nat)
      requires size >= 2
      ensures Valid() && Contents() == "" && fresh(fixedBuffer)
    {
      fixedBuffer := new char[size];
      used, growable := 0, "";
    }

    method Append(c: char)
      requires Valid()
      modifies this`used, this`growable, fixedBuffer
      ensures Valid() && Contents() == old(Contents()) + [c]
    {
      if used < fixedBuffer.Length - 1 {
        fixedBuffer[used] := c;
        used := used + 1;
        fixedBuffer[used] := '\0';
      } else {
        if growable == "" {
          assert fixedBuffer[used] == '\0';
          growable := fixedBuffer[..used];
        }
        growable := growable + [c];
      }
    }

    method GetLine(strm: Stream) returns (ok: bool)
      requires Valid() && strm.Valid()
      modifies this`used, this`growable, fixedBuffer, strm`pos
      ensures Valid() && strm.Valid()
      ensures var r := LineAt(strm.data, strm.broken, old(strm.pos));
              ok == r.ok && strm.pos == r.pos && (ok ==> Contents() == r.line)
    {
      hide OccursAt, FindFrom, LineAt, Scanned;
      used, growable := 0, "";
      var prev := '\0';
      ghost var start := strm.pos;
      var i := 0;
      ScanStart(strm.data, start);
      while true
        invariant Valid() && strm.Valid() && i >= 0 && strm.pos == start + i
        invariant Contents() == strm.data[start..strm.pos]
        invariant Scanned(strm.data, start, strm.pos, prev)
        decreases |strm.data| - strm.pos
      {
        ghost var at := strm.pos;
        ScanStep(strm.data, strm.broken, start, at, prev);
        var n, bytes := strm.Read(1);
        if n < 0 { return false; }
        if n == 0 {
          if i == 0 { return false; }
          break;
        }
        var byte := bytes[0];
        Append(byte);
        if prev == '\r' && byte == '\n' { break; }
        prev := byte;
        i := i + 1;
      }
      return true;
    }
  }

  /** No line break begins in `data[start..at - 1]`, and `prev` is the character before `at`. */
  ghost predicate Scanned(data: string, start: nat, at: nat, prev: char)
    requires start <= at <= |data|
  {
    && prev == (if start < at then data[at - 1] else '\0')
    && FindFrom(data, CRLF, start) >= (if start < at then at - 1 else start)
  }

  lemma ScanStart(data: string, start: nat)
    requires start <= |data|
    ensures Scanned(data, start, start, '\0')
  {
  }

  lemma ScanStep(data: string, broken: bool, start: nat, at: nat, prev: char)
    requires start <= at <= |data| && Scanned(data, start, at, prev)
    ensures at == |data| ==>
              LineAt(data, broken, start) == LineRead(start < at && !broken, data[start..at], at)
    ensures at < |data| ==>
              && data[start..at] + [data[at]] == data[start..at + 1]
              && if prev == '\r' && data[at] == '\n' then
                   LineAt(data, broken, start) == LineRead(true, data[start..at + 1], at + 1)
                 else Scanned(data, start, at + 1, data[at])
  {
    hide OccursAt, FindFrom;
    if at < |data| && start < at { BreakBefore(data, at); }
  }

  lemma BreakBefore(data: string, at: nat)
    requires 0 < at < |data|
    ensures OccursAt(data, CRLF, at - 1) <==> data[at - 1] == '\r' && data[at] == '\n'
  {
    var w := data[at - 1..at + 1];
    assert w[0] == data[at - 1] && w[1] == data[at];
  }

  // --- the reader

  /** The outcome of reading a chunked body: success, the content delivered, the trailer lines, the position. */
  datatype Decoded = Decoded(ok: bool, body: string, trailers: seq<string>, pos: nat)

  /** The trailer section, from its current line on. */
  function TrailersFrom(data: string, broken: bool, line: string, pos: nat): Decoded
    requires pos <= |data|
    decreases |data| - pos
  {
    if CString(line) == CRLF then Decoded(true, "", [], pos)
    else if |line| > HEADER_MAX_LENGTH then Decoded(false, "", [], pos)
    else
      var next := LineAt(data, broken, pos);
      if !next.ok then Decoded(false, "", [line], next.pos)
      else
        var more := TrailersFrom(data, broken, next.line, next.pos);
        more.(trailers := [line] + more.trailers)
  }

  /** The chunks from a size line that has just been read. */
  function ChunksFrom(data: string, broken: bool, line: string, pos: nat): Decoded
    requires pos <= |data|
    decreases |data| - pos
  {
    var (len, used) := StrToUl16(CString(line));
    if used == 0 || len == ULONG_MAX then Decoded(false, "", [], pos)
    else if len == 0 then
      var first := LineAt(data, broken, pos);
      if !first.ok then Decoded(true, "", [], first.pos) else TrailersFrom(data, broken, first.line, first.pos)
    else if pos + len > |data| then Decoded(false, data[pos..], [], |data|)
    else
      var content := data[pos..pos + len];
      var end := LineAt(data, broken, pos + len);
      if !end.ok || CString(end.line) != CRLF then Decoded(false, content, [], end.pos)
      else
        var next := LineAt(data, broken, end.pos);
        if !next.ok then Decoded(false, content, [], next.pos)
        else
          var more := ChunksFrom(data, broken, next.line, next.pos);
          more.(body := content + more.body)
  }

  function ReadChunked(data: string, broken: bool, pos: nat): Decoded
    requires pos <= |data|
  {
    var first := LineAt(data, broken, pos);
    if !first.ok then Decoded(false, "", [], first.pos) else ChunksFrom(data, broken, first.line, first.pos)
  }

  /** Delivers exactly `len` characters, whatever sizes the stream hands out, or all there are and fails. */
  method ReadContentWithLength(strm: Stream, len: nat, out: string) returns (ok: bool, newOut: string)
    requires strm.Valid()
    modifies strm`pos
    ensures strm.Valid()
    ensures ok <==> old(strm.pos) + len <= |strm.data|
    ensures strm.pos == if ok then old(strm.pos) + len else |strm.data|
    ensures newOut == out + strm.data[old(strm.pos)..strm.pos]
  {
    newOut := out;
    var r := 0;
    ghost var start := strm.pos;
    while r < len
      invariant r <= len && strm.Valid() && strm.pos == start + r
      invariant newOut == out + strm.data[start..strm.pos]
    {
      ghost var at := strm.pos;
      var n, bytes := strm.Read(if len - r < RECV_BUFSIZ then len - r else RECV_BUFSIZ);
      if n <= 0 { return false, newOut; }
      assert strm.data[start..at] + bytes == strm.data[start..strm.pos];
      newOut := newOut + bytes;
      r := r + n;
    }
    return true, newOut;
  }

  lemma TrailerStep(data: string, broken: bool, line: string, pos: nat)
    requires pos <= |data|
    ensures var next := LineAt(data, broken, pos);
            TrailersFrom(data, broken, line, pos) ==
            if CString(line) == CRLF then Decoded(true, "", [], pos)
            else if |line| > HEADER_MAX_LENGTH then Decoded(false, "", [], pos)
            else if !next.ok then Behind([line], Decoded(false, "", [], next.pos))
            else Behind([line], TrailersFrom(data, broken, next.line, next.pos))
  {
    hide LineAt, CString;
  }

  /** `d` with the trailer lines `done` ahead of its own. */
  function Behind(done: seq<string>, d: Decoded): Decoded {
    d.(trailers := done + d.trailers)
  }

  lemma BehindLine(done: seq<string>, line: string, d: Decoded)
    ensures Behind(done, Behind([line], d)) == Behind(done + [line], d)
    ensures d.trailers == [] ==> Behind(done, d) == d.(trailers := done)
  {
    assert done + ([line] + d.trailers) == done + [line] + d.trailers;
    assert done + [] == done;
  }

  /** Reading `line`, having collected `done`, completes to `all`. */
  ghost predicate TrailersReach(all: Decoded, done: seq<string>, data: string, broken: bool, line: string, pos: nat)
    requires pos <= |data|
  {
    all == Behind(done, TrailersFrom(data, broken, line, pos))
  }

  lemma TrailersReachNext(all: Decoded, done: seq<string>, data: string, broken: bool, line: string, pos: nat)
    requires pos <= |data| && TrailersReach(all, done, data, broken, line, pos)
    ensures CString(line) == CRLF ==> all == Decoded(true, "", done, pos)
    ensures CString(line) != CRLF && |line| > HEADER_MAX_LENGTH ==> all == Decoded(false, "", done, pos)
    ensures CString(line) != CRLF && |line| <= HEADER_MAX_LENGTH ==>
              var next := LineAt(data, broken, pos);
              if !next.ok then all == Decoded(false, "", done + [line], next.pos)
              else TrailersReach(all, done + [line], data, broken, next.line, next.pos)
  {
    hide LineAt, CString, TrailersFrom, Behind;
    TrailerStep(data, broken, line, pos);
    var next := LineAt(data, broken, pos);
    BehindLine(done, line, TrailersFrom(data, broken, line, pos));
    BehindLine(done, line, Decoded(false, "", [], next.pos));
    BehindLine(done + [line], line, Decoded(false, "", [], next.pos));
    if next.ok { BehindLine(done, line, TrailersFrom(data, broken, next.line, next.pos)); }
  }

  method ReadTrailers(strm: Stream, reader: LineReader) returns (ok: bool, trailers: seq<string>)
    requires strm.Valid() && reader.Valid()
    modifies strm`pos, reader`used, reader`growable, reader.fixedBuffer
    ensures strm.Valid() && reader.Valid()
    ensures var d := TrailersFrom(strm.data, strm.broken, old(reader.Contents()), old(strm.pos));
            ok == d.ok && trailers == d.trailers && strm.pos == d.pos
  {
    hide LineAt, CString, TrailersFrom, TrailersReach, LineReader.Contents;
    trailers := [];
    ghost var all := TrailersFrom(strm.data, strm.broken, reader.Contents(), strm.pos);
    TrailersReachStart(strm.data, strm.broken, reader.Contents(), strm.pos);
    while CString(reader.Contents()) != CRLF
      invariant strm.Valid() && reader.Valid()
      invariant TrailersReach(all, trailers, strm.data, strm.broken, reader.Contents(), strm.pos)
      decreases |strm.data| - strm.pos
    {
      TrailersReachNext(all, trailers, strm.data, strm.broken, reader.Contents(), strm.pos);
      if |reader.Contents()| > HEADER_MAX_LENGTH { return false, trailers; }
      trailers := trailers + [reader.Contents()];
      var got := reader.GetLine(strm);
      if !got { return false, trailers; }
    }
    TrailersReachNext(all, trailers, strm.data, strm.broken, reader.Contents(), strm.pos);
    return true, trailers;
  }

  lemma TrailersReachStart(data: string, broken: bool, line: string, pos: nat)
    requires pos <= |data|
    ensures TrailersReach(TrailersFrom(data, broken, line, pos), [], data, broken, line, pos)
  {
    hide TrailersFrom;
    var d := TrailersFrom(data, broken, line, pos);
    assert [] + d.trailers == d.trailers;
  }

  /** `d` with the content `out` delivered ahead of its own. */
  function Ahead(out: string, d: Decoded): Decoded {
    d.(body := out + d.body)
  }

  lemma AheadContent(out: string, content: string, d: Decoded)
    ensures Ahead(out, Ahead(content, d)) == Ahead(out + content, d)
    ensures d.body == "" ==> Ahead(out, d) == d.(body := out)
    ensures out == "" ==> Ahead(out, d) == d
  {
    Regroup(out, content, d.body);
    assert out + "" == out && "" + d.body == d.body;
  }

  /** Having delivered `out`, reading chunks from the size line `line` completes to `all`. */
  ghost predicate ChunksReach(all: Decoded, out: string, data: string, broken: bool, line: string, pos: nat)
    requires pos <= |data|
  {
    all == Ahead(out, ChunksFrom(data, broken, line, pos))
  }

  lemma ChunksReachStart(data: string, broken: bool, pos: nat)
    requires pos <= |data|
    ensures var first := LineAt(data, broken, pos);
            if first.ok then ChunksReach(ReadChunked(data, broken, pos), "", data, broken, first.line, first.pos)
            else ReadChunked(data, broken, pos) == Decoded(false, "", [], first.pos)
  {
    hide LineAt, ChunksFrom, Ahead;
    var first := LineAt(data, broken, pos);
    if first.ok { AheadContent("", "", ChunksFrom(data, broken, first.line, first.pos)); }
  }

  lemma ChunksReachContent(all: Decoded, out: string, data: string, broken: bool, line: string, pos: nat, n: nat)
    requires pos <= |data| && ChunksReach(all, out, data, broken, line, pos)
    requires 0 < n < ULONG_MAX && SizeIs(line, n)
    ensures pos + n > |data| ==> all == Decoded(false, out + data[pos..], [], |data|)
    ensures pos + n <= |data| ==>
              var got := out + data[pos..pos + n];
              var end := LineAt(data, broken, pos + n);
              if !end.ok || CString(end.line) != CRLF then all == Decoded(false, got, [], end.pos)
              else
                var next := LineAt(data, broken, end.pos);
                if !next.ok then all == Decoded(false, got, [], next.pos)
                else ChunksReach(all, got, data, broken, next.line, next.pos)
  {
    hide LineAt, CString, ChunksFrom, SizeIs;
    ContentFails(data, broken, line, pos, n);
    if pos + n <= |data| {
      OtherSize(data, broken, line, pos, n);
      var end := LineAt(data, broken, pos + n);
      var next := LineAt(data, broken, end.pos);
      if next.ok { AheadContent(out, data[pos..pos + n], ChunksFrom(data, broken, next.line, next.pos)); }
    }
  }

  lemma ChunksReachEnd(all: Decoded, out: string, data: string, broken: bool, line: string, pos: nat)
    requires pos <= |data| && ChunksReach(all, out, data, broken, line, pos)
    ensures var (len, used) := StrToUl16(CString(line));
            var first := LineAt(data, broken, pos);
            && (used == 0 || len == ULONG_MAX ==> all == Decoded(false, out, [], pos))
            && (used > 0 && len == 0 && !first.ok ==> all == Decoded(true, out, [], first.pos))
            && (used > 0 && len == 0 && first.ok ==>
                  all == TrailersFrom(data, broken, first.line, first.pos).(body := out))
  {
    hide LineAt, StrToUl16, CString, ChunksFrom, TrailersFrom;
    EndingSize(data, broken, line, pos);
    AheadContent(out, "", ChunksFrom(data, broken, line, pos));
    var first := LineAt(data, broken, pos);
    if first.ok { TrailersCarryNoBody(data, broken, first.line, first.pos); }
  }

  method ReadContentChunked(strm: Stream) returns (ok: bool, out: string, trailers: seq<string>)
    requires strm.Valid()
    modifies strm`pos
    ensures strm.Valid()
    ensures Decoded(ok, out, trailers, strm.pos) == ReadChunked(strm.data, strm.broken, old(strm.pos))
  {
    hide LineAt, StrToUl16, CString, ReadChunked, ChunksFrom, TrailersFrom, ChunksReach, LineReader.Contents;
    out, trailers := "", [];
    var reader := new LineReader(16);
    ghost var all := ReadChunked(strm.data, strm.broken, strm.pos);
    ChunksReachStart(strm.data, strm.broken, strm.pos);
    var got := reader.GetLine(strm);
    if !got { return false, out, trailers; }
    var chunkLen := StrToUl16(CString(reader.Contents()));
    while chunkLen.1 != 0 && chunkLen.0 != ULONG_MAX && chunkLen.0 != 0
      invariant strm.Valid() && reader.Valid() && fresh(reader) && fresh(reader.fixedBuffer) && trailers == []
      invariant chunkLen == StrToUl16(CString(reader.Contents()))
      invariant ChunksReach(all, out, strm.data, strm.broken, reader.Contents(), strm.pos)
      decreases |strm.data| - strm.pos
    {
      ChunksReachContent(all, out, strm.data, strm.broken, reader.Contents(), strm.pos, chunkLen.0);
      ok, out := ReadContentWithLength(strm, chunkLen.0, out);
      if !ok { return false, out, trailers; }
      got := reader.GetLine(strm);
      if !got { return false, out, trailers; }
      if CString(reader.Contents()) != CRLF { return false, out, trailers; }
      got := reader.GetLine(strm);
      if !got { return false, out, trailers; }
      chunkLen := StrToUl16(CString(reader.Contents()));
    }
    ChunksReachEnd(all, out, strm.data, strm.broken, reader.Contents(), strm.pos);
    if chunkLen.1 == 0 || chunkLen.0 == ULONG_MAX { return false, out, trailers; }
    got := reader.GetLine(strm);
    if !got { return true, out, trailers; }
    ok, trailers := ReadTrailers(strm, reader);
  }

  lemma EndingSize(data: string, broken: bool, line: string, pos: nat)
    requires pos <= |data|
    ensures var (len, used) := StrToUl16(CString(line));
            var first := LineAt(data, broken, pos);
            var got := ChunksFrom(data, broken, line, pos);
            && (used == 0 || len == ULONG_MAX ==> got == Decoded(false, "", [], pos))
            && (used > 0 && len == 0 && !first.ok ==> got == Decoded(true, "", [], first.pos))
            && (used > 0 && len == 0 && first.ok ==> got == TrailersFrom(data, broken, first.line, first.pos))
  {
    hide LineAt, StrToUl16, TrailersFrom;
  }

  lemma ContentFails(data: string, broken: bool, line: string, pos: nat, n: nat)
    requires 0 < n < ULONG_MAX && pos <= |data| && SizeIs(line, n)
    ensures pos + n > |data| ==> ChunksFrom(data, broken, line, pos) == Decoded(false, data[pos..], [], |data|)
    ensures pos + n <= |data| ==>
              var end := LineAt(data, broken, pos + n);
              var next := LineAt(data, broken, end.pos);
              var got := ChunksFrom(data, broken, line, pos);
              && (!end.ok || CString(end.line) != CRLF ==> got == Decoded(false, data[pos..pos + n], [], end.pos))
              && (end.ok && CString(end.line) == CRLF && !next.ok ==> got == Decoded(false, data[pos..pos + n], [], next.pos))
  {
    hide LineAt, StrToUl16;
  }

  lemma {:induction false} TrailersCarryNoBody(data: string, broken: bool, line: string, pos: nat)
    requires pos <= |data|
    ensures TrailersFrom(data, broken, line, pos).body == ""
    decreases |data| - pos
  {
    var next := LineAt(data, broken, pos);
    if next.ok { TrailersCarryNoBody(data, broken, next.line, next.pos); }
  }

  // --- round trip

  /** A line without a line break of its own is read back whole. */
  lemma LineReads(data: string, broken: bool, pos: nat, line: string)
    requires Free(line, CRLF) && pos + |line| + 2 <= |data| && data[pos..pos + |line| + 2] == line + CRLF
    ensures LineAt(data, broken, pos) == LineRead(true, line + CRLF, pos + |line| + 2)
  {
    hide FindFrom;
    var at := pos + |line|;
    var w := data[pos..at + 2];
    assert line + CRLF + "" == w && w[|line|..|line| + 2] == CRLF;
    OccursInWindow(data, CRLF, pos, at + 2, at);
    CrlfHeadUnique();
    forall k | pos <= k < at ensures !OccursAt(data, CRLF, k) {
      hide OccursAt;
      NoEarlierOccurrence(line, CRLF, "", k - pos);
      OccursInWindow(data, CRLF, pos, at + 2, k);
    }
  }

  lemma CrlfHeadUnique()
    ensures HeadUnique(CRLF)
  {
  }

  ghost predicate NulFree(s: string) {
    forall c | c in s :: c != '\0'
  }

  lemma {:induction false} CStringWhole(s: string)
    requires NulFree(s)
    ensures CString(s) == s
  {
    if s != "" {
      assert s[0] in s && forall c | c in s[1..] :: c in s;
      CStringWhole(s[1..]);
      assert s == [s[0]] + s[1..];
    }
  }

  lemma SizeLine(n: nat)
    requires n <= ULONG_MAX
    ensures Free(ToHex(n), CRLF)
    ensures CString(ToHex(n) + CRLF) == ToHex(n) + CRLF
    ensures StrToUl16(CString(ToHex(n) + CRLF)) == (n, |ToHex(n)|)
  {
    var h := ToHex(n);
    ToHexIsHex(n);
    forall i ensures !OccursAt(h, CRLF, i) {
      if 0 <= i && i + 2 <= |h| {
        assert h[i] in h && h[i..i + 2][0] == h[i];
      }
    }
    assert NulFree(h + CRLF);
    CStringWhole(h + CRLF);
    SizeLineReadsBack(n);
  }

  /** `t` stands in `data` at `pos`. */
  predicate Here(data: string, pos: nat, t: string) {
    pos + |t| <= |data| && data[pos..pos + |t|] == t
  }

  lemma HereSplit(data: string, pos: nat, x: string, y: string)
    requires Here(data, pos, x + y)
    ensures Here(data, pos, x) && Here(data, pos + |x|, y)
  {
    var t := data[pos..pos + |x + y|];
    assert data[pos..pos + |x|] == t[..|x|] == x;
    assert data[pos + |x|..pos + |x| + |y|] == t[|x|..] == y;
  }

  /** A trailer field that survives: its line has no other break, is not blank and is not too long. */
  ghost predicate FieldOk(f: Field) {
    && Free(f.name + ": " + f.value, CRLF)
    && |FieldLine(f)| <= HEADER_MAX_LENGTH
  }

  function FieldLineList(fs: seq<Field>): seq<string> {
    if fs == [] then [] else [FieldLine(fs[0])] + FieldLineList(fs[1..])
  }

  lemma CStringHead(s: string)
    ensures |CString(s)| <= |s| && CString(s) == s[..|CString(s)|]
  {
  }

  lemma FieldLineNotBlank(f: Field)
    requires FieldOk(f)
    ensures CString(FieldLine(f)) != CRLF
  {
    var t := f.name + ": " + f.value;
    var l := FieldLine(f);
    assert l == t + CRLF && |t| >= 2;
    CStringHead(l);
    if CString(l) == CRLF {
      assert l[..2] == CRLF && t[..2] == l[..2];
      assert OccursAt(t, CRLF, 0);
      assert false;
    }
  }

  /** The trailer fields, then the blank line, are read back as written. */
  lemma {:induction false} TrailersReadBack(data: string, broken: bool, pos: nat, fs: seq<Field>)
    requires Here(data, pos, FieldLines(fs) + CRLF) && forall f | f in fs :: FieldOk(f)
    ensures var first := LineAt(data, broken, pos);
            first.ok && TrailersFrom(data, broken, first.line, first.pos)
                        == Decoded(true, "", FieldLineList(fs), pos + |FieldLines(fs) + CRLF|)
    decreases |fs|
  {
    hide LineAt, CString;
    if fs == [] {
      assert FieldLines(fs) + CRLF == CRLF;
      BlankLineAt(data, broken, pos);
    } else {
      var f := fs[0];
      assert f in fs;
      var t := f.name + ": " + f.value;
      Regroup(FieldLine(f), FieldLines(fs[1..]), CRLF);
      HereSplit(data, pos, FieldLine(f), FieldLines(fs[1..]) + CRLF);
      LineReads(data, broken, pos, t);
      FieldLineNotBlank(f);
      assert forall g | g in fs[1..] :: g in fs;
      TrailersReadBack(data, broken, pos + |FieldLine(f)|, fs[1..]);
    }
  }

  lemma SizeLineAt(data: string, broken: bool, pos: nat, n: nat)
    requires n <= ULONG_MAX && Here(data, pos, ToHex(n) + CRLF)
    ensures var r := LineAt(data, broken, pos);
            r.ok && r.pos == pos + |ToHex(n) + CRLF| && SizeIs(r.line, n)
  {
    hide LineAt, StrToUl16;
    SizeLine(n);
    LineReads(data, broken, pos, ToHex(n));
  }

  /** The line is a size line for `n`. */
  predicate SizeIs(line: string, n: nat) {
    var (len, used) := StrToUl16(CString(line));
    used > 0 && len == n
  }

  lemma OtherSize(data: string, broken: bool, line: string, pos: nat, n: nat)
    requires 0 < n < ULONG_MAX && pos + n <= |data| && SizeIs(line, n)
    ensures var end := LineAt(data, broken, pos + n);
            end.ok && CString(end.line) == CRLF && LineAt(data, broken, end.pos).ok ==>
              var next := LineAt(data, broken, end.pos);
              var more := ChunksFrom(data, broken, next.line, next.pos);
              ChunksFrom(data, broken, line, pos) == more.(body := data[pos..pos + n] + more.body)
  {
    hide LineAt, StrToUl16;
  }

  lemma ZeroSize()
    ensures ToHex(0) + CRLF == "0\r\n"
  {
  }

  lemma LastChunkReadsBack(data: string, broken: bool, pos: nat, trailer: seq<Field>)
    requires Here(data, pos, EndText(trailer)) && forall f | f in trailer :: FieldOk(f)
    ensures LineAt(data, broken, pos).ok
    ensures ReadChunked(data, broken, pos) == Decoded(true, "", FieldLineList(trailer), pos + |EndText(trailer)|)
  {
    hide LineAt, StrToUl16, ChunksFrom, TrailersFrom;
    Regroup("0\r\n", FieldLines(trailer), CRLF);
    HereSplit(data, pos, "0\r\n", FieldLines(trailer) + CRLF);
    ZeroSize();
    SizeLineAt(data, broken, pos, 0);
    TrailersReadBack(data, broken, pos + 3, trailer);
    EndingSize(data, broken, LineAt(data, broken, pos).line, pos + 3);
  }

  lemma ChunkTextParts(d: string, rest: string)
    requires d != ""
    ensures ChunkText(d) + rest == ToHex(|d|) + CRLF + (d + (CRLF + rest))
  {
    hide ToHex;
    var size := ToHex(|d|) + CRLF;
    Regroup(size + d, CRLF, rest);
    Regroup(size, d, CRLF + rest);
  }

  /** Where the parts of one chunk stand. */
  lemma ChunkHere(data: string, pos: nat, d: string, rest: string)
    requires d != "" && Here(data, pos, ChunkText(d) + rest)
    ensures var size := ToHex(|d|) + CRLF;
            var at := pos + |size|;
            && |ChunkText(d)| == |size| + |d| + 2
            && Here(data, pos, size) && Here(data, at, d) && Here(data, at + |d|, CRLF)
            && Here(data, pos + |ChunkText(d)|, rest)
  {
    hide Here, ToHex;
    var size := ToHex(|d|) + CRLF;
    ChunkTextParts(d, rest);
    HereSplit(data, pos, size, d + (CRLF + rest));
    HereSplit(data, pos + |size|, d, CRLF + rest);
    HereSplit(data, pos + |size| + |d|, CRLF, rest);
  }

  /** One chunk is read back, and reading goes on behind it. */
  lemma ChunkReadsBack(data: string, broken: bool, pos: nat, d: string, rest: string)
    requires 0 < |d| < ULONG_MAX && Here(data, pos, ChunkText(d) + rest)
    ensures Here(data, pos + |ChunkText(d)|, rest) && LineAt(data, broken, pos).ok
    ensures var after := pos + |ChunkText(d)|;
            LineAt(data, broken, after).ok ==>
              var more := ReadChunked(data, broken, after);
              ReadChunked(data, broken, pos) == more.(body := d + more.body)
  {
    hide LineAt, StrToUl16, ChunkText, ChunksFrom, ToHex, CString;
    var at := pos + |ToHex(|d|) + CRLF|;
    ChunkHere(data, pos, d, rest);
    SizeLineAt(data, broken, pos, |d|);
    BlankLineAt(data, broken, at + |d|);
    OtherSize(data, broken, LineAt(data, broken, pos).line, at, |d|);
  }

  lemma BlankLineAt(data: string, broken: bool, pos: nat)
    requires Here(data, pos, CRLF)
    ensures LineAt(data, broken, pos) == LineRead(true, CRLF, pos + 2) && CString(CRLF) == CRLF
  {
    hide LineAt, CString;
    assert "" + CRLF == CRLF;
    LineReads(data, broken, pos, "");
    CStringWhole(CRLF);
  }

  lemma ChunksTextHead(writes: seq<string>, end: string)
    requires writes != []
    ensures ChunksText(writes) + end == ChunkText(writes[0]) + (ChunksText(writes[1..]) + end)
    ensures writes[0] == "" ==> ChunksText(writes) == ChunksText(writes[1..]) && Join(writes) == Join(writes[1..])
  {
    hide ToHex;
    Regroup(ChunkText(writes[0]), ChunksText(writes[1..]), end);
    if writes[0] == "" {
      assert "" + ChunksText(writes[1..]) == ChunksText(writes[1..]);
      assert "" + Join(writes[1..]) == Join(writes[1..]);
    }
  }

  /** Round trip: for any writes, then `done`, the reader delivers exactly what was written and the trailer lines,
      and stops exactly behind what was emitted, whatever follows it. */
  lemma {:induction false} ChunkedRoundTrip(data: string, broken: bool, pos: nat, writes: seq<string>, trailer: seq<Field>)
    requires Here(data, pos, ChunksText(writes) + EndText(trailer))
    requires forall w | w in writes :: |w| < ULONG_MAX
    requires forall f | f in trailer :: FieldOk(f)
    ensures LineAt(data, broken, pos).ok
    ensures ReadChunked(data, broken, pos)
            == Decoded(true, Join(writes), FieldLineList(trailer), pos + |ChunksText(writes) + EndText(trailer)|)
    decreases |writes|
  {
    hide LineAt, ChunksFrom, ReadChunked, ChunkText, EndText, FieldOk, FieldLineList;
    if writes == [] {
      assert ChunksText(writes) + EndText(trailer) == EndText(trailer);
      LastChunkReadsBack(data, broken, pos, trailer);
    } else {
      var w, rest := writes[0], ChunksText(writes[1..]) + EndText(trailer);
      assert w in writes && forall x | x in writes[1..] :: x in writes;
      ChunksTextHead(writes, EndText(trailer));
      if w == "" {
        ChunkedRoundTrip(data, broken, pos, writes[1..], trailer);
      } else {
        HereSplit(data, pos, ChunkText(w), rest);
        ChunkedRoundTrip(data, broken, pos + |ChunkText(w)|, writes[1..], trailer);
        ChunkReadsBack(data, broken, pos, w, rest);
      }
    }
  }

  /** Chunks without the last one are delivered, but the reader refuses the body when the stream ends. */
  lemma {:induction false} UnfinishedIsRefused(data: string, broken: bool, pos: nat, writes: seq<string>)
    requires Here(data, pos, ChunksText(writes)) && pos + |ChunksText(writes)| == |data|
    requires forall w | w in writes :: |w| < ULONG_MAX
    ensures ReadChunked(data, broken, pos) == Decoded(false, Join(writes), [], |data|)
    decreases |writes|
  {
    hide LineAt, ChunksFrom, ReadChunked, ChunkText;
    if writes == [] {
      AtTheEnd(data, broken);
    } else {
      var w, rest := writes[0], ChunksText(writes[1..]);
      assert w in writes && forall x | x in writes[1..] :: x in writes;
      ChunksTextHead(writes, "");
      assert rest + "" == rest && ChunksText(writes) + "" == ChunksText(writes);
      if w == "" {
        UnfinishedIsRefused(data, broken, pos, writes[1..]);
      } else {
        HereSplit(data, pos, ChunkText(w), rest);
        UnfinishedIsRefused(data, broken, pos + |ChunkText(w)|, writes[1..]);
        ChunkReadsBack(data, broken, pos, w, rest);
        ChunkWithoutNext(data, broken, pos, w, rest);
        if !LineAt(data, broken, pos + |ChunkText(w)|).ok { NoLine(data, broken, pos + |ChunkText(w)|); }
      }
    }
  }

  lemma AtTheEnd(data: string, broken: bool)
    ensures ReadChunked(data, broken, |data|) == Decoded(false, "", [], |data|)
  {
  }

  lemma NoLine(data: string, broken: bool, pos: nat)
    requires pos <= |data| && !LineAt(data, broken, pos).ok
    ensures ReadChunked(data, broken, pos) == Decoded(false, "", [], LineAt(data, broken, pos).pos)
  {
  }

  /** One chunk with no further line behind it. */
  lemma ChunkWithoutNext(data: string, broken: bool, pos: nat, d: string, rest: string)
    requires 0 < |d| < ULONG_MAX && Here(data, pos, ChunkText(d) + rest)
    ensures pos + |ChunkText(d)| <= |data|
    ensures var next := LineAt(data, broken, pos + |ChunkText(d)|);
            !next.ok ==> ReadChunked(data, broken, pos) == Decoded(false, d, [], next.pos)
  {
    hide LineAt, StrToUl16, ChunkText, ChunksFrom, ToHex, CString;
    var at := pos + |ToHex(|d|) + CRLF|;
    ChunkHere(data, pos, d, rest);
    SizeLineAt(data, broken, pos, |d|);
    BlankLineAt(data, broken, at + |d|);
    ContentFails(data, broken, LineAt(data, broken, pos).line, at, |d|);
  }

  /** A chunk whose length is the largest `unsigned long` is refused, whatever follows its size line. */
  lemma LargestChunkRefused(n: nat, rest: string, broken: bool)
    requires n == ULONG_MAX
    ensures !ReadChunked(ToHex(n) + CRLF + rest, broken, 0).ok
  {
    hide LineAt, StrToUl16, ChunksFrom, ToHex;
    var size := ToHex(n) + CRLF;
    var data := size + rest;
    assert data[0..|size|] == size;
    SizeLineAt(data, broken, 0, n);
    EndingSize(data, broken, LineAt(data, broken, 0).line, LineAt(data, broken, 0).pos);
  }
}
