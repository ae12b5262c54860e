/** What the multipart parser makes of a document whose opening line does not come in one chunk. */
module MultipartOpening {
  import opened TextSearch
  import opened Multipart

  // --- where the opening line can stand

  /** The text of an opening line stands only where a part begins. */
  ghost predicate OpensOnlyParts(d: Delims, es: seq<Entry>)
    requires es != []
  {
    forall i | OccursAt(Document(d, es), d.Open(), i) :: exists k :: PartAt(d, es, i, k)
  }

  ghost predicate PartAt(d: Delims, es: seq<Entry>, i: int, k: nat)
    requires es != []
  {
    k < |es| && 0 <= i <= |Document(d, es)| && Document(d, es)[i..] == Document(d, es[k..])
  }

  /** No header line and no content holds the text of an opening line, and the boundary is not made of dashes alone. */
  ghost predicate NoOpeningInside(d: Delims, es: seq<Entry>) {
    && d.boundary + DASH != DASH + d.boundary
    && forall e | e in es :: Free(e.content + CRLF, d.Open()) && forall l | l in e.lines :: Free(l + CRLF, d.Open())
  }

  /** An occurrence does not begin in text that is free of the opening line and ends a line. */
  lemma NoneBegins(d: Delims, x: string, y: string, i: nat)
    requires BoundaryOk(d.boundary) && |x| >= 2 && x[|x| - 2..] == CRLF && Free(x, d.Open()) && i < |x|
    ensures !OccursAt(x + y, d.Open(), i)
  {
    var o, t := d.Open(), x + y;
    assert x[|x| - 1] == x[|x| - 2..][1] == '\n' && x[|x| - 2] == x[|x| - 2..][0] == '\r';
    if i + |o| <= |x| {
      assert !OccursAt(x, o, i) && t[i..i + |o|] == x[i..i + |o|];
    } else if i == |x| - 1 {
      if i + |o| <= |t| { assert t[i..i + |o|][0] == t[i] == '\n'; }
    } else {
      var k := |x| - 2 - i;
      NoBreakInside(d, k);
      if i + |o| <= |t| { assert t[i..i + |o|][k] == t[|x| - 2] == '\r'; }
    }
  }

  lemma NotBefore(d: Delims, x: string, y: string, i: int)
    requires BoundaryOk(d.boundary) && |x| >= 2 && x[|x| - 2..] == CRLF && Free(x, d.Open())
    requires OccursAt(x + y, d.Open(), i)
    ensures i >= |x| && OccursAt(y, d.Open(), i - |x|)
  {
    var o, t := d.Open(), x + y;
    if 0 <= i < |x| { NoneBegins(d, x, y, i); }
    assert t[i..i + |o|] == y[i - |x|..i - |x| + |o|];
  }

  lemma NoBreakInside(d: Delims, k: nat)
    requires BoundaryOk(d.boundary) && k < |d.Open()| - 2
    ensures d.Open()[k] != '\r'
  {
    if k >= 2 { assert d.Open()[k] == d.boundary[k - 2] && d.boundary[k - 2] in d.boundary; }
  }

  lemma {:induction false} NotInHeaders(d: Delims, lines: seq<string>, y: string, i: int)
    requires BoundaryOk(d.boundary) && forall l | l in lines :: Free(l + CRLF, d.Open())
    requires OccursAt(HeaderText(lines) + y, d.Open(), i)
    ensures var n := |HeaderText(lines)|; i >= n && OccursAt(y, d.Open(), i - n)
    decreases |lines|
  {
    hide OccursAt, Free;
    if lines == [] {
      assert HeaderText(lines) + y == y;
      InBounds(y, d.Open(), i);
    } else {
      var x := lines[0] + CRLF;
      assert lines[0] in lines && forall l | l in lines[1..] :: l in lines;
      assert HeaderText(lines) + y == x + (HeaderText(lines[1..]) + y);
      assert x[|x| - 2..] == CRLF;
      NotBefore(d, x, HeaderText(lines[1..]) + y, i);
      NotInHeaders(d, lines[1..], y, i - |x|);
    }
  }

  /** What follows a part's content and the line break behind it. */
  function Rest(d: Delims, es: seq<Entry>): string {
    if es == [] then DASH + d.boundary + DASH + CRLF else Document(d, es)
  }

  lemma DocumentParts(d: Delims, es: seq<Entry>)
    requires es != []
    ensures Document(d, es) == d.Open() + (HeaderText(es[0].lines) + (CRLF + ((es[0].content + CRLF) + Rest(d, es[1..]))))
  {
    var h, c, r := HeaderText(es[0].lines), es[0].content, Rest(d, es[1..]);
    assert d.Close() + After(d, es[1..]) == CRLF + r;
    DocumentHead(d, es);
    assert h + CRLF + c + (CRLF + r) == h + (CRLF + ((c + CRLF) + r));
  }

  lemma ShorterIsFree(x: string, pat: string)
    requires |x| < |pat|
    ensures Free(x, pat)
  {
  }

  /** The closing line is no opening line. */
  lemma ClosingLine(d: Delims, i: int)
    requires BoundaryOk(d.boundary) && d.boundary + DASH != DASH + d.boundary
    ensures !OccursAt(DASH + d.boundary + DASH + CRLF, d.Open(), i)
  {
    var o, t, b := d.Open(), DASH + d.boundary + DASH + CRLF, d.boundary;
    if i == 0 || i == 1 {
      assert o[|o| - 2] == '\r' && t[i..i + |o|][|o| - 2] == t[i + |o| - 2] == '-';
    } else if i == 2 {
      assert t[2..2 + |o|] == b + DASH + CRLF;
      assert (b + DASH + CRLF)[..|o| - 2] == b + DASH && o[..|o| - 2] == DASH + b;
    }
  }

  /** An occurrence behind the first place stands behind the whole first part. */
  lemma BehindFirstPart(d: Delims, es: seq<Entry>, i: int)
    requires BoundaryOk(d.boundary) && es != [] && NoOpeningInside(d, es) && OccursAt(Document(d, es), d.Open(), i) && i > 0
    ensures var n := |Document(d, es)| - |Rest(d, es[1..])|;
            0 <= n <= i && OccursAt(Rest(d, es[1..]), d.Open(), i - n) && Document(d, es)[n..] == Rest(d, es[1..])
  {
    hide OccursAt, Document, HeaderText, Rest;
    var o, h, c, rest := d.Open(), HeaderText(es[0].lines), es[0].content, Rest(d, es[1..]);
    assert es[0] in es;
    DocumentParts(d, es);
    var y2 := (c + CRLF) + rest;
    var y1 := CRLF + y2;
    InTail(o, h + y1, o, i);
    ShorterIsFree(o[1..], o);
    assert o[1..][|o| - 3..] == CRLF;
    NotBefore(d, o[1..], h + y1, i - 1);
    NotInHeaders(d, es[0].lines, y1, i - |o|);
    ShorterIsFree(CRLF, o);
    assert CRLF[|CRLF| - 2..] == CRLF;
    NotBefore(d, CRLF, y2, i - |o| - |h|);
    assert (c + CRLF)[|c|..] == CRLF;
    NotBefore(d, c + CRLF, rest, i - |o| - |h| - 2);
    Suffix(o, h, CRLF, c + CRLF, rest);
  }

  lemma {:induction false} OpeningsAreParts(d: Delims, es: seq<Entry>, i: int) returns (k: nat)
    requires BoundaryOk(d.boundary) && es != [] && NoOpeningInside(d, es) && OccursAt(Document(d, es), d.Open(), i)
    ensures PartAt(d, es, i, k)
    decreases |es|
  {
    hide Free, OccursAt, Document, Rest;
    var doc, rest := Document(d, es), es[1..];
    InBounds(doc, d.Open(), i);
    k := 0;
    if i == 0 {
      assert es[0..] == es && doc[0..] == doc;
    } else {
      BehindFirstPart(d, es, i);
      var n := |doc| - |Rest(d, rest)|;
      RestIs(d, rest);
      if rest == [] {
        ClosingLine(d, i - n);
      } else {
        assert forall e | e in rest :: e in es;
        k := OpeningsAreParts(d, rest, i - n);
        assert rest[k..] == es[k + 1..] && doc[i..] == doc[n..][i - n..];
        k := k + 1;
      }
    }
  }

  lemma InBounds(t: string, pat: string, i: int)
    requires OccursAt(t, pat, i)
    ensures 0 <= i && i + |pat| <= |t|
  {
  }

  /** Behind its first character the text holds the same occurrences, one place earlier. */
  lemma InTail(x: string, y: string, pat: string, i: int)
    requires x != "" && i > 0 && OccursAt(x + y, pat, i)
    ensures OccursAt(x[1..] + y, pat, i - 1)
  {
    assert x[1..] + y == (x + y)[1..];
    assert (x + y)[1..][i - 1..i - 1 + |pat|] == (x + y)[i..i + |pat|];
  }

  lemma Suffix(a: string, b: string, c: string, x: string, y: string)
    ensures (a + (b + (c + (x + y))))[|a| + |b| + |c| + |x|..] == y
  {
  }

  lemma RestIs(d: Delims, es: seq<Entry>)
    ensures Rest(d, es) == if es == [] then DASH + d.boundary + DASH + CRLF else Document(d, es)
  {
  }

  /** Ordinary documents are of this kind. */
  lemma OpeningOnlyAtParts(d: Delims, es: seq<Entry>)
    requires BoundaryOk(d.boundary) && es != [] && NoOpeningInside(d, es)
    ensures OpensOnlyParts(d, es)
  {
    forall i | OccursAt(Document(d, es), d.Open(), i) ensures exists k :: PartAt(d, es, i, k) {
      var k := OpeningsAreParts(d, es, i);
    }
  }

  // --- a parser still looking for it

  /** A parser in its initial state drops everything in front of the first opening line that it can see whole, or all. */
  lemma Looking(env: Env, d: Delims, chunk: string)
    ensures var p := Find(chunk, d.Open());
            ParseChunk(env, d, INITIAL, chunk) ==
            if p < |chunk| then Run(env, d, State(1, false, NO_FILE, chunk[p + |d.Open()|..], [])) else (INITIAL, true)
  {
    hide Step;
    var p, o := Find(chunk, d.Open()), d.Open();
    assert "" + chunk == chunk;
    if chunk != "" {
      var s := INITIAL.(buf := chunk);
      assert Step(env, d, s) == OpeningStep(d, s) by { FirstStep(env, d, s); }
      if p < |chunk| {
        assert chunk[p..][|o|..] == chunk[p + |o|..];
      } else {
        assert chunk[p..] == "";
      }
    }
  }

  lemma FirstStep(env: Env, d: Delims, s: State)
    requires s.buf != "" && s.phase == 0
    ensures Step(env, d, s) == OpeningStep(d, s)
  {
  }

  lemma PartsLater(env: Env, d: Delims, es: seq<Entry>, k: nat)
    requires k <= |es| && EntriesOk(env, d, es)
    ensures EntriesOk(env, d, es[k..]) && |Received(env, es[k..])| == |es| - k
  {
    forall e | e in es[k..] ensures EntryOk(env, d, NO_FILE, e) { assert e in es; }
    ReceivedItems(env, d, es[k..]);
  }

  /** A chunk with an opening line in it, at `p`: the parser takes the document up at that part. */
  lemma StartsAt(env: Env, d: Delims, es: seq<Entry>, from: nat, chunks: seq<string>, p: nat) returns (k: nat)
    requires Accepting(env) && BoundaryOk(d.boundary) && es != [] && EntriesOk(env, d, es) && OpensOnlyParts(d, es)
    requires 0 < from <= |Document(d, es)| && Join(chunks) == Document(d, es)[from..]
    requires chunks != [] && p == Find(chunks[0], d.Open()) < |chunks[0]|
    ensures var (s, ok) := ParseAll(env, d, INITIAL, chunks);
            ok && s.valid && 0 < k < |es| && s.parts == Received(env, es[k..])
  {
    hide Accepting, EntriesOk, Run, Document, Step, Find;
    var chunk, tail, o, doc := chunks[0], Join(chunks[1..]), d.Open(), Document(d, es);
    Looking(env, d, chunk);
    FoundThere(chunk, tail, o, doc, from);
    k :| PartAt(d, es, from + p, k);
    assert es[0..] == es;
    PartsLater(env, d, es, k);
    var later := es[k..];
    var s1 := State(1, false, NO_FILE, chunk[p + |o|..], []);
    DocumentOpens(d, later);
    Peel(chunk[p..], tail, o, Body(d, later));
    assert chunk[p..][|o|..] == chunk[p + |o|..];
    AtFirst(env, d, s1, tail, later);
    var w, es' := RunKeeps(env, d, s1, tail, AtEntry, later, Received(env, later));
    if chunks[1..] == [] { assert tail == ""; }
    ChunksKeep(env, d, ParseChunk(env, d, INITIAL, chunk).0, chunks[1..], w, es', Received(env, later));
  }

  /** What is found in a chunk stands in the whole text. */
  lemma FoundThere(chunk: string, tail: string, pat: string, doc: string, from: nat)
    requires from <= |doc| && chunk + tail == doc[from..] && Find(chunk, pat) < |chunk|
    ensures var p := Find(chunk, pat);
            OccursAt(doc, pat, from + p) && doc[from + p..] == chunk[p..] + tail && |chunk[p..]| >= |pat|
  {
    var p := Find(chunk, pat);
    assert (chunk + tail)[p..p + |pat|] == chunk[p..p + |pat|];
    assert doc[from..][p..p + |pat|] == doc[from + p..from + p + |pat|];
    assert doc[from..][p..] == doc[from + p..] && (chunk + tail)[p..] == chunk[p..] + tail;
  }

  /** Having missed the opening line, the parser still succeeds at every call, but starts at a later part or never. */
  lemma {:induction false} StartsLate(env: Env, d: Delims, es: seq<Entry>, from: nat, chunks: seq<string>)
    requires Accepting(env) && BoundaryOk(d.boundary) && es != [] && EntriesOk(env, d, es) && OpensOnlyParts(d, es)
    requires 0 < from <= |Document(d, es)| && Join(chunks) == Document(d, es)[from..]
    ensures var (s, ok) := ParseAll(env, d, INITIAL, chunks);
            ok && |s.parts| < |es| && if s.valid then exists k: nat :: 0 < k < |es| && s.parts == Received(env, es[k..]) else s.parts == []
    decreases |chunks|
  {
    hide Accepting, EntriesOk, Run, Document, Step, OpensOnlyParts, Find, ParseChunk;
    if chunks != [] {
      var chunk, tail, doc := chunks[0], Join(chunks[1..]), Document(d, es);
      var p := Find(chunk, d.Open());
      if p < |chunk| {
        var k := StartsAt(env, d, es, from, chunks, p);
        PartsLater(env, d, es, k);
      } else {
        Looking(env, d, chunk);
        assert doc[from..][|chunk|..] == doc[from + |chunk|..] && (chunk + tail)[|chunk|..] == tail;
        StartsLate(env, d, es, from + |chunk|, chunks[1..]);
      }
    }
  }

  lemma DocumentOpens(d: Delims, es: seq<Entry>)
    requires es != []
    ensures Document(d, es) == d.Open() + Body(d, es)
  {
  }

  lemma AtFirst(env: Env, d: Delims, s: State, tail: string, es: seq<Entry>)
    requires es != [] && EntriesOk(env, d, es) && s.phase == 1 && s.parts == [] && s.buf + tail == Body(d, es)
    ensures At(env, d, s, tail, AtEntry, es, Received(env, es))
  {
    assert [] + Received(env, es) == Received(env, es);
  }

  function FirstChunk(chunks: seq<string>): string {
    if chunks == [] then "" else if chunks[0] != "" then chunks[0] else FirstChunk(chunks[1..])
  }

  /** When a document is rebuilt, for every division into chunks: every call succeeds, and the parse ends valid with each part
      as it was, in order, if and only if the first chunk that is not empty holds the whole opening line. Otherwise the first
      part is missing, and perhaps others behind it, or nothing has been found at all. */
  lemma {:induction false} RebuiltExactly(env: Env, d: Delims, es: seq<Entry>, chunks: seq<string>)
    requires Accepting(env) && BoundaryOk(d.boundary) && es != [] && EntriesOk(env, d, es) && OpensOnlyParts(d, es)
    requires Join(chunks) == Document(d, es)
    ensures var (s, ok) := ParseAll(env, d, INITIAL, chunks);
            && ok
            && (s.valid && s.parts == Received(env, es) <==> |FirstChunk(chunks)| >= |d.Open()|)
            && (s.parts == Received(env, es) <==> |FirstChunk(chunks)| >= |d.Open()|)
            && (|FirstChunk(chunks)| < |d.Open()| ==>
                  if s.valid then exists k: nat :: 0 < k < |es| && s.parts == Received(env, es[k..]) else s.parts == [])
    decreases |chunks|
  {
    hide Accepting, EntriesOk, Run, Step, OpensOnlyParts;
    DocumentOpens(d, es);
    assert chunks != [];
    var chunk, rest := chunks[0], chunks[1..];
    hide Document;
    PartsLater(env, d, es, 0);
    assert es[0..] == es;
    if chunk == "" {
      Looking(env, d, "");
      assert "" + Join(rest) == Join(rest);
      RebuiltExactly(env, d, es, rest);
    } else if |chunk| >= |d.Open()| {
      ParseUndoesDocument(env, d, es, chunks);
    } else {
      ShortOpeningDiscarded(env, d, chunk);
      assert Document(d, es)[|chunk|..] == Join(rest) by { assert (chunk + Join(rest))[|chunk|..] == Join(rest); }
      StartsLate(env, d, es, |chunk|, rest);
    }
  }

  /** So for a document of one part: when the opening line is missed, the parse does not even end valid. */
  lemma SinglePartExactly(env: Env, d: Delims, e: Entry, chunks: seq<string>)
    requires Accepting(env) && BoundaryOk(d.boundary) && EntriesOk(env, d, [e]) && NoOpeningInside(d, [e])
    requires Join(chunks) == Document(d, [e])
    ensures ParseAll(env, d, INITIAL, chunks).1
    ensures ParseAll(env, d, INITIAL, chunks).0.valid <==> |FirstChunk(chunks)| >= |d.Open()|
  {
    hide Accepting, EntriesOk, ParseAll, NoOpeningInside;
    OpeningOnlyAtParts(d, [e]);
    RebuiltExactly(env, d, [e], chunks);
  }

  /** The round trip of form items, exactly: for every division into chunks the items come back if and only if the first chunk
      that is not empty holds the whole opening line. */
  lemma RoundTripExactly(env: Env, d: Delims, items: seq<FormItem>, chunks: seq<string>)
    requires Accepting(env) && BoundaryOk(d.boundary) && items != [] && EntriesOk(env, d, Entries(items))
    requires NoOpeningInside(d, Entries(items))
    requires Join(chunks) == SerializedItems(items, d.boundary) + ("--" + d.boundary + "--\r\n")
    ensures var r := ParseAll(env, d, INITIAL, chunks);
            r.1 && (r.0.valid && Rebuilt(env, items, r.0.parts) <==> |FirstChunk(chunks)| >= |d.Open()|)
  {
    hide Accepting, ParseAll, NoOpeningInside, EntriesOk;
    var es := Entries(items);
    SerializedIsDocument(items, d);
    OpeningOnlyAtParts(d, es);
    RebuiltExactly(env, d, es, chunks);
    ReceivedItems(env, d, es);
    if |FirstChunk(chunks)| < |d.Open()| {
      var parts := ParseAll(env, d, INITIAL, chunks).0.parts;
      if k: nat :| 0 < k < |es| && parts == Received(env, es[k..]) { PartsLater(env, d, es, k); }
    }
  }
}
