/** Chunked bodies of any peer, not only of this writer: what is read, and what is accepted at all. */
module ChunkedPeers {
  import opened Bytes
  import opened TextSearch
  import opened Chunked

  /** One chunk on the wire: its size line, its content and the line behind that, line breaks included. */
  datatype Wire = Wire(line: string, content: string, end: string)

  function Text(ws: seq<Wire>): string {
    if ws == [] then "" else ws[0].line + ws[0].content + ws[0].end + Text(ws[1..])
  }

  function Content(ws: seq<Wire>): string {
    if ws == [] then "" else ws[0].content + Content(ws[1..])
  }

  /** The size that the line announces: something was read, and it is `n`. */
  predicate Announces(line: string, n: nat) {
    var (v, used) := StrToUl16(CString(line)); used > 0 && v == n
  }

  /** A chunk with the length it announces, and a line break behind it. */
  predicate Fits(w: Wire) {
    w.content != "" && |w.content| < ULONG_MAX && Announces(w.line, |w.content|) && CString(w.end) == CRLF
  }

  /** A line of the text, with its break at its end and nowhere else. */
  ghost predicate IsLine(line: string) {
    |line| >= 2 && line[|line| - 2..] == CRLF && Free(line[..|line| - 2], CRLF)
  }

  predicate IsTrailer(t: string) {
    |t| <= HEADER_MAX_LENGTH && CString(t) != CRLF
  }

  // --- what is accepted

  /** The trailer section that was accepted: lines within the limit up to an empty one. */
  lemma {:induction false} TrailersAccepted(data: string, broken: bool, line: string, from: nat, pos: nat) returns (end: string)
    requires from <= pos <= |data| && line == data[from..pos] && TrailersFrom(data, broken, line, pos).ok
    ensures var got := TrailersFrom(data, broken, line, pos);
            && pos <= got.pos <= |data| && data[from..got.pos] == Join(got.trailers) + end
            && CString(end) == CRLF && forall t | t in got.trailers :: IsTrailer(t)
    decreases |data| - pos
  {
    hide LineAt, CString;
    if CString(line) == CRLF {
      end := line;
    } else {
      var next := LineAt(data, broken, pos);
      var more := TrailersFrom(data, broken, next.line, next.pos);
      end := TrailersAccepted(data, broken, next.line, pos, next.pos);
      var all := [line] + more.trailers;
      assert all[1..] == more.trailers && all[0] == line;
      assert data[from..more.pos] == data[from..pos] + data[pos..more.pos];
      Regroup(line, Join(more.trailers), end);
    }
  }

  /** Behind the last size line of an accepted body: trailer lines and an empty line, or no line at all up to the end of the
      stream, which this reader forgives. */
  ghost predicate Ending(data: string, broken: bool, pos: nat, ts: seq<string>, end: string, stop: nat)
    requires pos <= |data|
  {
    if LineAt(data, broken, pos).ok then
      && pos <= stop <= |data| && data[pos..stop] == Join(ts) + end
      && (forall t | t in ts :: IsTrailer(t)) && CString(end) == CRLF
    else ts == [] && stop == |data|
  }

  lemma EndAccepted(data: string, broken: bool, line: string, pos: nat) returns (end: string)
    requires pos <= |data| && StrToUl16(CString(line)).0 == 0 && ChunksFrom(data, broken, line, pos).ok
    ensures var got := ChunksFrom(data, broken, line, pos); Ending(data, broken, pos, got.trailers, end, got.pos)
    ensures ChunksFrom(data, broken, line, pos).body == "" && Announces(line, 0)
  {
    hide CString, TrailersFrom, StrToUl16;
    var first := LineAt(data, broken, pos);
    if first.ok {
      end := TrailersAccepted(data, broken, first.line, pos, first.pos);
      NoBodyInTrailers(data, broken, first.line, first.pos);
    } else {
      end := "";
    }
  }

  lemma {:induction false} NoBodyInTrailers(data: string, broken: bool, line: string, pos: nat)
    requires pos <= |data|
    ensures TrailersFrom(data, broken, line, pos).body == ""
    decreases |data| - pos
  {
    hide LineAt, CString;
    if CString(line) != CRLF && |line| <= HEADER_MAX_LENGTH {
      var next := LineAt(data, broken, pos);
      if next.ok { NoBodyInTrailers(data, broken, next.line, next.pos); }
    }
  }

  /** The chunks from a size line that stands in `data[from..pos]`. */
  lemma {:induction false} ChunksAccepted(data: string, broken: bool, line: string, from: nat, pos: nat)
    returns (ws: seq<Wire>, last: string, end: string)
    requires from <= pos <= |data| && line == data[from..pos] && ChunksFrom(data, broken, line, pos).ok
    ensures var got := ChunksFrom(data, broken, line, pos);
            var at := from + |Text(ws)| + |last|;
            && at <= |data| && data[from..at] == Text(ws) + last
            && (forall w | w in ws :: Fits(w)) && got.body == Content(ws)
            && Announces(last, 0) && Ending(data, broken, at, got.trailers, end, got.pos)
    decreases |data| - pos
  {
    hide CString, StrToUl16, Ending, LineAt, ChunksFrom, Text, Content, Fits;
    var len := StrToUl16(CString(line)).0;
    if len == 0 {
      ws, last := [], line;
      end := EndAccepted(data, broken, line, pos);
      NoWires();
      assert "" + line == line;
    } else {
      var w, stop, next := ChunkAccepted(data, broken, line, pos);
      var more;
      more, last, end := ChunksAccepted(data, broken, data[stop..next], stop, next);
      ws := [w] + more;
      OneWire(w, more);
      var at := stop + |Text(more)| + |last|;
      Between(data, from, pos, pos + len, stop, at);
      assert data[stop..at] == Text(more) + last;
      Regroup(w.line + w.content + w.end, Text(more), last);
    }
  }

  lemma NoWires()
    ensures Text([]) == "" && Content([]) == ""
  {
  }

  lemma OneWire(w: Wire, more: seq<Wire>)
    ensures Text([w] + more) == w.line + w.content + w.end + Text(more)
    ensures Content([w] + more) == w.content + Content(more)
  {
    assert ([w] + more)[1..] == more;
  }

  lemma Between(data: string, a: nat, b: nat, c: nat, d: nat, e: nat)
    requires a <= b <= c <= d <= e <= |data|
    ensures data[a..e] == data[a..b] + data[b..c] + data[c..d] + data[d..e]
  {
    assert data[a..c] == data[a..b] + data[b..c] && data[a..d] == data[a..c] + data[c..d];
    assert data[a..e] == data[a..d] + data[d..e];
  }

  /** One chunk of an accepted body, where it stops and where the next size line does. */
  lemma ChunkAccepted(data: string, broken: bool, line: string, pos: nat) returns (w: Wire, stop: nat, next: nat)
    requires pos <= |data| && StrToUl16(CString(line)).0 != 0 && ChunksFrom(data, broken, line, pos).ok
    ensures var len := StrToUl16(CString(line)).0;
            && pos < pos + len < stop < next <= |data|
            && w == Wire(line, data[pos..pos + len], data[pos + len..stop]) && Fits(w)
            && var got, more := ChunksFrom(data, broken, line, pos), ChunksFrom(data, broken, data[stop..next], next);
               more.ok && got.body == w.content + more.body && got.trailers == more.trailers && got.pos == more.pos
  {
    hide CString, StrToUl16, LineAt;
    var len := StrToUl16(CString(line)).0;
    stop := LineAt(data, broken, pos + len).pos;
    next := LineAt(data, broken, stop).pos;
    w := Wire(line, data[pos..pos + len], data[pos + len..stop]);
  }

  /** Whatever a stream holds: a body is accepted only if it consists of chunks, each exactly as long as its size line announces
      and followed by a line break, then a size line announcing nothing, then trailer lines within the limit up to an empty
      line, or nothing but the end of the stream; and what is delivered is the chunks' content. */
  lemma AcceptedIsWellFormed(data: string, broken: bool, pos: nat) returns (ws: seq<Wire>, last: string, end: string)
    requires pos <= |data| && ReadChunked(data, broken, pos).ok
    ensures var got := ReadChunked(data, broken, pos);
            var at := pos + |Text(ws)| + |last|;
            && at <= |data| && data[pos..at] == Text(ws) + last
            && (forall w | w in ws :: Fits(w)) && got.body == Content(ws)
            && Announces(last, 0) && Ending(data, broken, at, got.trailers, end, got.pos)
  {
    hide LineAt, ChunksFrom, Ending;
    var first := LineAt(data, broken, pos);
    ws, last, end := ChunksAccepted(data, broken, first.line, pos, first.pos);
  }

  // --- what is read

  lemma LineIsRead(data: string, broken: bool, pos: nat, line: string)
    requires Here(data, pos, line) && IsLine(line)
    ensures LineAt(data, broken, pos) == LineRead(true, line, pos + |line|)
  {
    var l := line[..|line| - 2];
    assert line == l + CRLF;
    hide IsLine;
    LineReads(data, broken, pos, l);
  }

  lemma {:induction false} TrailersAreRead(data: string, broken: bool, pos: nat, ts: seq<string>, end: string)
    requires Here(data, pos, Join(ts) + end) && IsLine(end) && CString(end) == CRLF
    requires forall t | t in ts :: IsLine(t) && IsTrailer(t)
    ensures var first := LineAt(data, broken, pos);
            first.ok && TrailersFrom(data, broken, first.line, first.pos) == Decoded(true, "", ts, pos + |Join(ts) + end|)
    decreases |ts|
  {
    hide LineAt, CString, IsLine, TrailersFrom, IsTrailer;
    if ts == [] {
      assert Join(ts) + end == end;
      LineIsRead(data, broken, pos, end);
      EmptyLineEnds(data, broken, end, pos + |end|);
    } else {
      var t, rest := ts[0], Join(ts[1..]) + end;
      assert t in ts && forall x | x in ts[1..] :: x in ts;
      Regroup(t, Join(ts[1..]), end);
      HereSplit(data, pos, t, rest);
      LineIsRead(data, broken, pos, t);
      TrailersAreRead(data, broken, pos + |t|, ts[1..], end);
      TrailerGoesOn(data, broken, t, pos + |t|);
      assert ts == [t] + ts[1..];
    }
  }

  lemma EmptyLineEnds(data: string, broken: bool, line: string, pos: nat)
    requires pos <= |data| && CString(line) == CRLF
    ensures TrailersFrom(data, broken, line, pos) == Decoded(true, "", [], pos)
  {
  }

  lemma TrailerGoesOn(data: string, broken: bool, line: string, pos: nat)
    requires pos <= |data| && IsTrailer(line) && LineAt(data, broken, pos).ok
    ensures var next := LineAt(data, broken, pos);
            var more := TrailersFrom(data, broken, next.line, next.pos);
            TrailersFrom(data, broken, line, pos) == more.(trailers := [line] + more.trailers)
  {
    hide LineAt, CString;
  }

  lemma LastIsRead(data: string, broken: bool, pos: nat, last: string, ts: seq<string>, end: string)
    requires Here(data, pos, last + (Join(ts) + end)) && IsLine(last) && Announces(last, 0)
    requires IsLine(end) && CString(end) == CRLF && forall t | t in ts :: IsLine(t) && IsTrailer(t)
    ensures ReadChunked(data, broken, pos) == Decoded(true, "", ts, pos + |last| + |Join(ts) + end|)
  {
    hide LineAt, CString, IsLine, TrailersFrom, StrToUl16;
    HereSplit(data, pos, last, Join(ts) + end);
    LineIsRead(data, broken, pos, last);
    TrailersAreRead(data, broken, pos + |last|, ts, end);
  }

  /** Where the three pieces of a chunk stand, and the line breaks the reader sees. */
  lemma ChunkStands(data: string, broken: bool, pos: nat, w: Wire, rest: string)
    requires Here(data, pos, w.line + w.content + w.end + rest) && IsLine(w.line) && w.end == CRLF
    ensures var at, to := pos + |w.line|, pos + |w.line| + |w.content|;
            && to + 2 <= |data| && data[at..to] == w.content
            && LineAt(data, broken, pos) == LineRead(true, w.line, at)
            && LineAt(data, broken, to) == LineRead(true, CRLF, to + 2)
  {
    hide LineAt, IsLine;
    Regroup(w.line + w.content, w.end, rest);
    Regroup(w.line, w.content, w.end + rest);
    HereSplit(data, pos, w.line, w.content + (w.end + rest));
    HereSplit(data, pos + |w.line|, w.content, w.end + rest);
    HereSplit(data, pos + |w.line| + |w.content|, w.end, rest);
    LineIsRead(data, broken, pos, w.line);
    EmptyIsLine();
    LineIsRead(data, broken, pos + |w.line| + |w.content|, w.end);
  }

  lemma ChunkIsRead(data: string, broken: bool, pos: nat, w: Wire, rest: string)
    requires Here(data, pos, w.line + w.content + w.end + rest) && Fits(w) && IsLine(w.line) && w.end == CRLF
    ensures LineAt(data, broken, pos).ok
    ensures pos + |w.line| + |w.content| + 2 <= |data|
    ensures var more := ReadChunked(data, broken, pos + |w.line| + |w.content| + 2);
            ReadChunked(data, broken, pos) == more.(body := w.content + more.body)
  {
    hide LineAt, CString, StrToUl16, IsLine, Here;
    ChunkStands(data, broken, pos, w, rest);
  }

  lemma EmptyIsLine()
    ensures IsLine(CRLF)
  {
    assert CRLF[..0] == "" && CRLF[0..] == CRLF;
  }

  /** Whatever comes behind them, well-formed chunks are delivered and reading goes on there. */
  lemma {:induction false} ChunksInFront(data: string, broken: bool, pos: nat, ws: seq<Wire>, rest: string)
    requires Here(data, pos, Text(ws) + rest) && forall w | w in ws :: Fits(w) && IsLine(w.line) && w.end == CRLF
    ensures pos + |Text(ws)| <= |data|
    ensures var more := ReadChunked(data, broken, pos + |Text(ws)|);
            ReadChunked(data, broken, pos) == more.(body := Content(ws) + more.body)
    decreases |ws|
  {
    hide LineAt, ChunksFrom, ReadChunked, Fits, IsLine;
    if ws == [] {
      var more := ReadChunked(data, broken, pos);
      assert "" + more.body == more.body;
    } else {
      var w, later := ws[0], Text(ws[1..]) + rest;
      assert w in ws && forall x | x in ws[1..] :: x in ws;
      var chunk := w.line + w.content + w.end;
      Regroup(chunk, Text(ws[1..]), rest);
      HereSplit(data, pos, chunk, later);
      ChunkIsRead(data, broken, pos, w, later);
      ChunksInFront(data, broken, pos + |chunk|, ws[1..], rest);
      Regroup(w.content, Content(ws[1..]), ReadChunked(data, broken, pos + |Text(ws)|).body);
    }
  }

  /** Any peer's body is read as it was meant: chunks with size lines of any spelling and extension, content of any kind, a last
      size line, trailer lines and an empty line; and reading stops right behind that, whatever follows. */
  lemma PeersBodyIsRead(data: string, broken: bool, pos: nat, ws: seq<Wire>, last: string, ts: seq<string>, end: string)
    requires Here(data, pos, Text(ws) + (last + (Join(ts) + end)))
    requires forall w | w in ws :: Fits(w) && IsLine(w.line) && w.end == CRLF
    requires IsLine(last) && Announces(last, 0)
    requires IsLine(end) && CString(end) == CRLF && forall t | t in ts :: IsLine(t) && IsTrailer(t)
    ensures ReadChunked(data, broken, pos)
         == Decoded(true, Content(ws), ts, pos + |Text(ws) + (last + (Join(ts) + end))|)
  {
    hide ReadChunked, Fits, IsLine, Announces, CString, IsTrailer, Text, Content;
    var rest := last + (Join(ts) + end);
    ChunksInFront(data, broken, pos, ws, rest);
    HereSplit(data, pos, Text(ws), rest);
    LastIsRead(data, broken, pos + |Text(ws)|, last, ts, end);
    assert Content(ws) + "" == Content(ws);
  }

  /** At the end of a stream a line without its break is one, unless the stream has failed or nothing is left. */
  lemma LineAtEnd(data: string, broken: bool, pos: nat, line: string)
    requires pos <= |data| && data[pos..] == line && Free(line, CRLF)
    ensures LineAt(data, broken, pos) == LineRead(line != "" && !broken, line, |data|)
  {
    hide FindFrom;
    assert data[pos..|data|] == line;
    forall k | pos <= k ensures !OccursAt(data, CRLF, k) {
      if k + 2 <= |data| { OccursInWindow(data, CRLF, pos, |data|, k); }
    }
  }

  /** A last size line with nothing behind it is enough, and even its own break may be missing; but a stream that has failed by
      then ends no body. */
  lemma BareEndIsForgiven(data: string, broken: bool, pos: nat, ws: seq<Wire>, last: string)
    requires Here(data, pos, Text(ws) + last) && pos + |Text(ws) + last| == |data|
    requires forall w | w in ws :: Fits(w) && IsLine(w.line) && w.end == CRLF
    requires Announces(last, 0) && (IsLine(last) || (last != "" && Free(last, CRLF)))
    ensures ReadChunked(data, broken, pos) == Decoded(IsLine(last) || !broken, Content(ws), [], |data|)
  {
    hide Fits, Announces, CString, Text, Content, LineAt, StrToUl16;
    var at := pos + |Text(ws)|;
    ChunksInFront(data, broken, pos, ws, last);
    HereSplit(data, pos, Text(ws), last);
    assert data[at..] == last && data[|data|..] == "";
    NothingIsFree();
    LineAtEnd(data, broken, |data|, "");
    if IsLine(last) {
      LineIsRead(data, broken, at, last);
    } else {
      LineAtEnd(data, broken, at, last);
    }
    assert Content(ws) + "" == Content(ws);
    AnnouncesMeans(last, 0);
  }

  lemma NothingIsFree()
    ensures Free("", CRLF)
  {
  }

  lemma AnnouncesMeans(line: string, n: nat)
    requires Announces(line, n)
    ensures StrToUl16(CString(line)).0 == n && StrToUl16(CString(line)).1 > 0
  {
  }

  /** A chunk cut short by the end of the stream is delivered as far as it came, and the body is refused. */
  lemma CutShortIsRefused(data: string, broken: bool, pos: nat, ws: seq<Wire>, line: string, n: nat, some: string)
    requires Here(data, pos, Text(ws) + (line + some)) && pos + |Text(ws) + (line + some)| == |data|
    requires forall w | w in ws :: Fits(w) && IsLine(w.line) && w.end == CRLF
    requires IsLine(line) && Announces(line, n) && |some| < n < ULONG_MAX
    ensures ReadChunked(data, broken, pos) == Decoded(false, Content(ws) + some, [], |data|)
  {
    hide Fits, Announces, CString, Text, Content, LineAt, StrToUl16, IsLine;
    var at := pos + |Text(ws)|;
    ChunksInFront(data, broken, pos, ws, line + some);
    HereSplit(data, pos, Text(ws), line + some);
    HereSplit(data, at, line, some);
    LineIsRead(data, broken, at, line);
    AnnouncesMeans(line, n);
    assert data[at + |line|..] == some;
  }
}
