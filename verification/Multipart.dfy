/** `MultipartFormDataParser` and the serializer it must undo (RFC 2046 section 5.1.1). */
module Multipart {
  import opened Bytes
  import opened TextSearch

  const DASH := "--"
  const HEADER_MAX_LENGTH := 8192

  datatype FileInfo = FileInfo(name: string, filename: string, contentType: string)
  datatype Part = Part(file: FileInfo, content: string)

  const NO_FILE := FileInfo("", "", "")

  /** What the parser calls: how a header line changes the file information (None rejects the line), and
      whether the header and content callbacks, knowing all parts received so far, want to go on. */
  datatype Env = Env(interpret: (string, FileInfo) -> Option<FileInfo>,
                     onHeader: (seq<Part>, FileInfo) -> bool,
                     onContent: (seq<Part>, string) -> bool)

  // --- the parser as a step function

  datatype Delims = Delims(boundary: string) {
    function Open(): string { DASH + boundary + CRLF }
    function Close(): string { CRLF + DASH + boundary }
  }

  datatype State = State(phase: nat, valid: bool, file: FileInfo, buf: string, parts: seq<Part>)

  const INITIAL := State(0, false, NO_FILE, "", [])

  datatype Verdict = Continue | Return(result: bool)

  /** The content callback, as its receiver sees it: more content for the part opened last. */
  function AddContent(parts: seq<Part>, more: string): seq<Part> {
    if parts == [] then []
    else
      var last := parts[|parts| - 1];
      parts[|parts| - 1 := last.(content := last.content + more)]
  }

  /** The header loop, entered with the first line break already looked up. */
  function Headers(env: Env, s: State): (r: (State, Verdict))
    ensures |r.0.buf| <= |s.buf| && r.0.phase in {s.phase, 3}
    ensures r.1 == Continue ==> |r.0.buf| < |s.buf| && r.0.phase == 3
    decreases |s.buf|
  {
    var pos := Find(s.buf, CRLF);
    if pos >= |s.buf| then (s, Return(true))
    else if pos == 0 then
      if !env.onHeader(s.parts, s.file) then (s.(valid := false), Return(false))
      else (s.(buf := s.buf[2..], phase := 3, parts := s.parts + [Part(s.file, "")]), Continue)
    else
      match env.interpret(s.buf[..pos], s.file)
      case None => (s.(valid := false), Return(false))
      case Some(file) => Headers(env, s.(file := file, buf := s.buf[pos + 2..]))
  }

  function OpeningStep(d: Delims, s: State): (State, Verdict) {
    var buf := s.buf[Find(s.buf, d.Open())..];
    if |d.Open()| > |buf| then (s.(buf := buf), Return(true))
    else (s.(buf := buf[|d.Open()|..], phase := 1), Continue)
  }

  /** Delivers the first `n` characters and drops `drop`, unless the receiver refuses. */
  function DeliverStep(env: Env, s: State, n: nat, drop: nat): (State, Verdict)
    requires n <= drop <= |s.buf|
  {
    if !env.onContent(s.parts, s.buf[..n]) then (s.(valid := false), Return(false))
    else (s.(buf := s.buf[drop..], parts := AddContent(s.parts, s.buf[..n])), Continue)
  }

  function ContentStep(env: Env, d: Delims, s: State): (State, Verdict) {
    if |d.Close()| > |s.buf| then (s, Return(true))
    else
      var pos := Find(s.buf, d.Close());
      if pos < |s.buf| then
        var (s', v) := DeliverStep(env, s, pos, pos + |d.Close()|);
        (if v == Continue then s'.(phase := 4) else s', v)
      else
        var len := |s.buf| - |d.Close()|;
        if len == 0 then (s, Return(true))
        else
          var (s', v) := DeliverStep(env, s, len, len);
          (s', if v == Continue then Return(true) else v)
  }

  /** What stands behind a delimiter, as far as it can be seen. */
  datatype Mark = Unseen | NextPart | Last | Other

  function MarkOf(b: string): (m: Mark)
    ensures m in {NextPart, Last} ==> |b| >= 2
  {
    if |CRLF| > |b| then Unseen
    else if OccursAt(b, CRLF, 0) then NextPart
    else if OccursAt(b, DASH, 0) then Last
    else Other
  }

  function BoundaryStep(s: State): (State, Verdict) {
    match MarkOf(s.buf)
    case Unseen => (s, Return(true))
    case NextPart => (s.(buf := s.buf[2..], phase := 1), Continue)
    case Last => (s.(buf := "", valid := true), Continue)
    case Other => (s, Return(true))
  }

  /** One turn of the parser's loop. */
  function Step(env: Env, d: Delims, s: State): (r: (State, Verdict))
    requires s.buf != "" && s.phase <= 4
    ensures r.0.phase <= 4
    ensures r.1 == Continue ==>
              |r.0.buf| < |s.buf| || (r.0.buf == s.buf && s.phase == 1 && r.0.phase == 2)
  {
    if s.phase == 0 then OpeningStep(d, s)
    else if s.phase == 1 then (s.(file := NO_FILE, phase := 2), Continue)
    else if s.phase == 2 then
      if Find(s.buf, CRLF) > HEADER_MAX_LENGTH then (s, Return(false)) else Headers(env, s)
    else if s.phase == 3 then ContentStep(env, d, s)
    else BoundaryStep(s)
  }

  function Run(env: Env, d: Delims, s: State): (r: (State, bool))
    requires s.phase <= 4
    ensures r.0.phase <= 4
    decreases |s.buf|, if s.phase == 1 then 1 else 0
  {
    if s.buf == "" then (s, true)
    else
      var (s', v) := Step(env, d, s);
      match v
      case Return(result) => (s', result)
      case Continue => Run(env, d, s')
  }

  function ParseChunk(env: Env, d: Delims, s: State, chunk: string): (r: (State, bool))
    requires s.phase <= 4
    ensures r.0.phase <= 4
  {
    Run(env, d, s.(buf := s.buf + chunk))
  }

  /** A sequence of `parse` calls, stopped by the first that fails. */
  function ParseAll(env: Env, d: Delims, s: State, chunks: seq<string>): (State, bool)
    requires s.phase <= 4
    decreases |chunks|
  {
    if chunks == [] then (s, true)
    else
      var (s', ok) := ParseChunk(env, d, s, chunks[0]);
      if ok then ParseAll(env, d, s', chunks[1..]) else (s', false)
  }

  // --- the text the parser is meant for

  /** A part as text: its header lines and its content. */
  datatype Entry = Entry(lines: seq<string>, content: string)

  function HeaderText(lines: seq<string>): string {
    if lines == [] then "" else lines[0] + CRLF + HeaderText(lines[1..])
  }

  /** The text from a part's first header line to the end. */
  function Body(d: Delims, es: seq<Entry>): string
    requires es != []
    decreases |es|, 1
  {
    HeaderText(es[0].lines) + CRLF + es[0].content + d.Close() + After(d, es[1..])
  }

  /** The text behind a closing delimiter, with the parts `es` still to come. */
  function After(d: Delims, es: seq<Entry>): string
    decreases |es|, 2
  {
    if es == [] then DASH + CRLF else CRLF + Body(d, es)
  }

  function Document(d: Delims, es: seq<Entry>): string
    requires es != []
  {
    d.Open() + Body(d, es)
  }

  /** The file information after a part's header lines, when none is rejected. */
  function Interpret(env: Env, file: FileInfo, lines: seq<string>): Option<FileInfo>
    decreases |lines|
  {
    if lines == [] then Some(file)
    else
      match env.interpret(lines[0], file)
      case None => None
      case Some(f) => Interpret(env, f, lines[1..])
  }

  predicate LineOk(line: string) {
    0 < |line| < HEADER_MAX_LENGTH
  }

  ghost predicate EntryOk(env: Env, d: Delims, file: FileInfo, e: Entry) {
    && (forall l | l in e.lines :: LineOk(l) && Free(l, CRLF))
    && Interpret(env, file, e.lines).Some?
    && Free(e.content, d.Close())
  }

  ghost predicate EntriesOk(env: Env, d: Delims, es: seq<Entry>) {
    forall e | e in es :: EntryOk(env, d, NO_FILE, e)
  }

  function Received(env: Env, es: seq<Entry>): seq<Part> {
    if es == [] then []
    else
      var f := Interpret(env, NO_FILE, es[0].lines);
      [Part(if f.Some? then f.value else NO_FILE, es[0].content)] + Received(env, es[1..])
  }

  ghost predicate Accepting(env: Env) {
    && (forall ps, f :: env.onHeader(ps, f))
    && (forall ps, c :: env.onContent(ps, c))
  }

  /** The characters that `is_multipart_boundary_chars_valid` allows. */
  predicate BoundaryOk(b: string) {
    forall c | c in b :: 'A' <= c <= 'Z' || 'a' <= c <= 'z' || '0' <= c <= '9' || c == '-' || c == '_'
  }

  /** The delimiter cannot overlap itself: a boundary has no carriage return. */
  lemma DelimiterHeadUnique(d: Delims)
    requires BoundaryOk(d.boundary)
    ensures HeadUnique(d.Close()) && HeadUnique(CRLF)
  {
    var c := d.Close();
    forall k | 1 <= k < |c| ensures c[k] != c[0] {
      if k >= 4 {
        assert c[k] == d.boundary[k - 4] && d.boundary[k - 4] in d.boundary;
      }
    }
  }

  // --- where the parser stands in that text

  datatype Where = AtEntry | InHeaders | InContent(left: string) | AtBoundary | Finished

  /** The parser, at `w` with the entries `es` ahead (the current one first while in its headers), has buffered
      text that `tail` will continue, and on reading it all will have delivered exactly `want`. */
  ghost predicate At(env: Env, d: Delims, s: State, tail: string, w: Where, es: seq<Entry>, want: seq<Part>) {
    match w
    case AtEntry =>
      && s.phase == 1 && es != [] && s.buf + tail == Body(d, es)
      && EntriesOk(env, d, es) && want == s.parts + Received(env, es)
    case InHeaders =>
      && s.phase == 2 && es != [] && s.buf + tail == Body(d, es)
      && EntryOk(env, d, s.file, es[0]) && EntriesOk(env, d, es[1..])
      && want == s.parts + [Part(Interpret(env, s.file, es[0].lines).value, es[0].content)] + Received(env, es[1..])
    case InContent(left) =>
      && s.phase == 3 && s.parts != [] && s.buf + tail == left + d.Close() + After(d, es)
      && Free(left, d.Close()) && EntriesOk(env, d, es)
      && want == AddContent(s.parts, left) + Received(env, es)
    case AtBoundary =>
      && s.phase == 4 && s.buf + tail == After(d, es)
      && EntriesOk(env, d, es) && want == s.parts + Received(env, es)
    case Finished =>
      && s.phase in {1, 4} && s.valid && s.parts == want
      && s.buf + tail in {"", "\n", "\r\n"}
      && (s.phase == 1 ==> s.buf + tail == "")
  }

  lemma AddContentTwice(parts: seq<Part>, x: string, y: string)
    requires parts != []
    ensures AddContent(AddContent(parts, x), y) == AddContent(parts, x + y)
  {
    var last := parts[|parts| - 1];
    assert last.content + x + y == last.content + (x + y);
  }

  lemma AddContentLast(parts: seq<Part>, f: FileInfo, c: string)
    ensures AddContent(parts + [Part(f, "")], c) == parts + [Part(f, c)]
  {
    assert "" + c == c;
  }

  /** What follows an entry's header lines in the text. */
  function Ending(d: Delims, es: seq<Entry>): string
    requires es != []
  {
    es[0].content + d.Close() + After(d, es[1..])
  }

  /** At the empty line: it is consumed once both of its characters are there. */
  lemma BlankLineKeeps(env: Env, d: Delims, s: State, tail: string, es: seq<Entry>, want: seq<Part>)
    requires Accepting(env) && BoundaryOk(d.boundary)
    requires At(env, d, s, tail, InHeaders, es, want) && es[0].lines == []
    ensures var (s', v) := Headers(env, s);
            if |s.buf| < 2 then s' == s && v == Return(true) && tail != ""
            else v == Continue && At(env, d, s', tail, InContent(es[0].content), es[1..], want)
  {
    DelimiterHeadUnique(d);
    BodySplits(d, es);
    FindInPrefix(s.buf, tail, "", CRLF, Ending(d, es));
    if |s.buf| < 2 {
      assert |s.buf + tail| >= 2;
    } else {
      assert s.buf[2..] + tail == (s.buf + tail)[2..] == Ending(d, es);
      AddContentLast(s.parts, s.file, es[0].content);
      var parts := s.parts + [Part(s.file, "")];
      assert AddContent(parts, es[0].content) == s.parts + [Part(s.file, es[0].content)];
    }
  }

  /** The state behind the first header line of the current entry. */
  function PastLine(env: Env, s: State, line: string): State
    requires |line| + 2 <= |s.buf|
  {
    match env.interpret(line, s.file)
    case None => s
    case Some(file) => s.(file := file, buf := s.buf[|line| + 2..])
  }

  /** The entries ahead once the current one's first line is read. */
  function NextLine(es: seq<Entry>): (r: seq<Entry>)
    requires es != [] && es[0].lines != []
    ensures r != [] && r[0] == Entry(es[0].lines[1..], es[0].content) && r[1..] == es[1..]
  {
    [Entry(es[0].lines[1..], es[0].content)] + es[1..]
  }

  lemma BodySplits(d: Delims, es: seq<Entry>)
    requires es != []
    ensures es[0].lines == [] ==> Body(d, es) == "" + CRLF + Ending(d, es)
    ensures es[0].lines != [] ==> Body(d, es) == es[0].lines[0] + CRLF + Body(d, NextLine(es))
  {
  }

  lemma HeaderLineFound(env: Env, d: Delims, s: State, tail: string, es: seq<Entry>, want: seq<Part>)
    requires BoundaryOk(d.boundary) && At(env, d, s, tail, InHeaders, es, want) && es[0].lines != []
    ensures var line := es[0].lines[0];
            && 0 < |line| < HEADER_MAX_LENGTH
            && Find(s.buf, CRLF) == (if |s.buf| >= |line| + 2 then |line| else |s.buf|)
            && (|s.buf| < |line| + 2 ==> tail != "")
            && (|s.buf| >= |line| + 2 ==>
                  s.buf[..|line|] == line && s.buf[|line| + 2..] + tail == Body(d, NextLine(es)))
  {
    var line := es[0].lines[0];
    assert line in es[0].lines;
    var more := Body(d, NextLine(es));
    BodySplits(d, es);
    DelimiterHeadUnique(d);
    FindInPrefix(s.buf, tail, line, CRLF, more);
    assert |s.buf| + |tail| == |line| + 2 + |more|;
    if |s.buf| >= |line| + 2 {
      Peel(s.buf, tail, line + CRLF, more);
      assert s.buf[..|line|] == (line + CRLF)[..|line|];
    }
  }

  lemma HeaderLineRead(env: Env, d: Delims, s: State, tail: string, es: seq<Entry>, want: seq<Part>)
    requires BoundaryOk(d.boundary) && At(env, d, s, tail, InHeaders, es, want) && es[0].lines != []
    ensures var line := es[0].lines[0];
            if |s.buf| < |line| + 2 then Headers(env, s) == (s, Return(true)) && tail != ""
            else
              var s' := PastLine(env, s, line);
              && Headers(env, s) == Headers(env, s')
              && |s'.buf| < |s.buf|
              && At(env, d, s', tail, InHeaders, NextLine(es), want)
  {
    HeaderLineFound(env, d, s, tail, es, want);
    hide Body, Find, Received, EntriesOk, Free;
  }

  /** From the header lines of an entry the parser only moves forward in the text. */
  lemma {:induction false} HeadersKeep(env: Env, d: Delims, s: State, tail: string, es: seq<Entry>, want: seq<Part>)
    returns (w: Where, es': seq<Entry>)
    requires Accepting(env) && BoundaryOk(d.boundary) && At(env, d, s, tail, InHeaders, es, want)
    ensures var (s', v) := Headers(env, s);
            At(env, d, s', tail, w, es', want) && v in {Continue, Return(true)}
            && (w.InContent? || w.InHeaders?) && (v == Return(true) ==> tail != "")
    decreases |s.buf|
  {
    w, es' := InHeaders, es;
    if es[0].lines == [] {
      BlankLineKeeps(env, d, s, tail, es, want);
      if |s.buf| >= 2 {
        w, es' := InContent(es[0].content), es[1..];
      }
    } else {
      HeaderLineRead(env, d, s, tail, es, want);
      var line := es[0].lines[0];
      if |s.buf| >= |line| + 2 {
        w, es' := HeadersKeep(env, d, PastLine(env, s, line), tail, NextLine(es), want);
      }
    }
  }

  lemma HeaderLineFits(env: Env, d: Delims, s: State, tail: string, es: seq<Entry>, want: seq<Part>)
    requires BoundaryOk(d.boundary) && At(env, d, s, tail, InHeaders, es, want)
    ensures Find(s.buf, CRLF) <= HEADER_MAX_LENGTH
  {
    if es[0].lines == [] {
      BodySplits(d, es);
      DelimiterHeadUnique(d);
      FindInPrefix(s.buf, tail, "", CRLF, Ending(d, es));
    } else {
      HeaderLineFound(env, d, s, tail, es, want);
    }
  }

  lemma FreeSuffix(left: string, c: string, len: nat)
    requires Free(left, c) && len <= |left|
    ensures Free(left[len..], c)
  {
    var rest := left[len..];
    forall i ensures !OccursAt(rest, c, i) {
      if 0 <= i && i + |c| <= |rest| {
        assert !OccursAt(left, c, len + i);
        assert rest[i..i + |c|] == left[len + i..len + i + |c|];
      }
    }
  }

  /** With the delimiter not all in the buffer, everything that cannot belong to it is delivered. */
  lemma ContentGrows(env: Env, d: Delims, s: State, tail: string, left: string, es: seq<Entry>, want: seq<Part>)
    requires Accepting(env) && BoundaryOk(d.boundary) && At(env, d, s, tail, InContent(left), es, want)
    requires |d.Close()| < |s.buf| < |left| + |d.Close()|
    ensures var (s', v) := ContentStep(env, d, s);
            v == Return(true) && At(env, d, s', tail, InContent(left[|s.buf| - |d.Close()|..]), es, want)
  {
    var c := d.Close();
    var len := |s.buf| - |c|;
    var rest := left[len..];
    assert Find(s.buf, c) == |s.buf| by {
      DelimiterHeadUnique(d);
      FindInPrefix(s.buf, tail, left, c, After(d, es));
    }
    assert left[..len] + rest == left;
    assert s.buf + tail == left[..len] + (rest + c + After(d, es));
    Peel(s.buf, tail, left[..len], rest + c + After(d, es));
    FreeSuffix(left, c, len);
    AddContentTwice(s.parts, left[..len], rest);
  }

  lemma ContentEnds(env: Env, d: Delims, s: State, tail: string, left: string, es: seq<Entry>, want: seq<Part>)
    requires Accepting(env) && BoundaryOk(d.boundary) && At(env, d, s, tail, InContent(left), es, want)
    requires |s.buf| >= |left| + |d.Close()|
    ensures var (s', v) := ContentStep(env, d, s);
            v == Continue && At(env, d, s', tail, AtBoundary, es, want)
  {
    var c := d.Close();
    assert Find(s.buf, c) == |left| by {
      DelimiterHeadUnique(d);
      FindInPrefix(s.buf, tail, left, c, After(d, es));
    }
    Peel(s.buf, tail, left + c, After(d, es));
    assert s.buf[..|left|] == (left + c)[..|left|];
  }

  lemma ContentKeeps(env: Env, d: Delims, s: State, tail: string, left: string, es: seq<Entry>, want: seq<Part>)
    returns (w: Where)
    requires Accepting(env) && BoundaryOk(d.boundary) && At(env, d, s, tail, InContent(left), es, want) && s.buf != ""
    ensures var (s', v) := ContentStep(env, d, s);
            At(env, d, s', tail, w, es, want) && v in {Continue, Return(true)} && (v == Return(true) ==> tail != "")
  {
    var c := d.Close();
    assert |s.buf + tail| == |left| + |c| + |After(d, es)| && |After(d, es)| > 0;
    if |s.buf| >= |left| + |c| {
      ContentEnds(env, d, s, tail, left, es, want);
      w := AtBoundary;
    } else if |s.buf| <= |c| {
      assert |s.buf| == |c| ==> Find(s.buf, c) == |s.buf| by {
        DelimiterHeadUnique(d);
        FindInPrefix(s.buf, tail, left, c, After(d, es));
      }
      w := InContent(left);
    } else {
      ContentGrows(env, d, s, tail, left, es, want);
      w := InContent(left[|s.buf| - |c|..]);
    }
  }

  lemma BoundaryKeeps(env: Env, d: Delims, s: State, tail: string, es: seq<Entry>, want: seq<Part>)
    returns (w: Where)
    requires At(env, d, s, tail, AtBoundary, es, want) && s.buf != ""
    ensures var (s', v) := Step(env, d, s);
            At(env, d, s', tail, w, es, want) && v in {Continue, Return(true)} && (v == Return(true) ==> tail != "")
  {
    var t := After(d, es);
    assert |t| >= 2 && t[0] == (if es == [] then '-' else '\r') && t[1] == (if es == [] then '-' else '\n');
    if |s.buf| < 2 {
      w := AtBoundary;
    } else {
      assert s.buf[0] == t[0] && s.buf[1] == t[1];
      if es != [] {
        assert s.buf[..2] == CRLF;
        assert s.buf[2..] + tail == (s.buf + tail)[2..] == Body(d, es);
        w := AtEntry;
      } else {
        assert s.buf[..2] == DASH;
        assert Received(env, es) == [];
        assert t == "--\r\n" && tail == t[|s.buf|..] && "" + tail == tail;
        if |s.buf| == 2 { assert tail == "\r\n"; } else if |s.buf| == 3 { assert tail == "\n"; } else { assert tail == ""; }
        w := Finished;
      }
    }
  }

  lemma FinishedKeeps(env: Env, d: Delims, s: State, tail: string, es: seq<Entry>, want: seq<Part>)
    requires At(env, d, s, tail, Finished, es, want) && s.buf != ""
    ensures var (s', v) := Step(env, d, s);
            At(env, d, s', tail, Finished, es, want) && v in {Continue, Return(true)}
  {
    if |s.buf| == 2 {
      var t := s.buf + tail;
      assert t == "" || t == "\n" || t == CRLF;
      assert |t| == 2 + |tail| && t == CRLF;
      assert s.buf == (s.buf + tail)[..2] == CRLF && tail == "";
      assert s.buf[2..] + tail == "";
    }
  }

  /** One turn keeps the parser on course; it stops only to wait for more text, or when finished. */
  lemma StepKeeps(env: Env, d: Delims, s: State, tail: string, w: Where, es: seq<Entry>, want: seq<Part>)
    returns (w': Where, es': seq<Entry>)
    requires Accepting(env) && BoundaryOk(d.boundary) && At(env, d, s, tail, w, es, want) && s.buf != ""
    ensures var (s', v) := Step(env, d, s);
            At(env, d, s', tail, w', es', want) && v in {Continue, Return(true)}
            && (v == Return(true) && tail == "" ==> w'.Finished?)
  {
    w', es' := w, es;
    match w
    case AtEntry =>
      assert es[0] in es;
      assert forall e | e in es[1..] :: e in es;
      assert Received(env, es)[1..] == Received(env, es[1..]);
      assert s.parts + Received(env, es) == s.parts + [Received(env, es)[0]] + Received(env, es[1..]);
      w' := InHeaders;
    case InHeaders =>
      HeaderLineFits(env, d, s, tail, es, want);
      w', es' := HeadersKeep(env, d, s, tail, es, want);
    case InContent(left) => w' := ContentKeeps(env, d, s, tail, left, es, want);
    case AtBoundary => w' := BoundaryKeeps(env, d, s, tail, es, want);
    case Finished => FinishedKeeps(env, d, s, tail, es, want);
  }

  lemma {:induction false} RunKeeps(env: Env, d: Delims, s: State, tail: string, w: Where, es: seq<Entry>, want: seq<Part>)
    returns (w': Where, es': seq<Entry>)
    requires Accepting(env) && BoundaryOk(d.boundary) && s.phase <= 4 && At(env, d, s, tail, w, es, want)
    ensures var (s', ok) := Run(env, d, s);
            ok && At(env, d, s', tail, w', es', want) && (tail == "" ==> w'.Finished?)
    decreases |s.buf|, if s.phase == 1 then 1 else 0
  {
    if s.buf == "" {
      w', es' := w, es;
      assert s.buf + tail == tail;
    } else {
      w', es' := StepKeeps(env, d, s, tail, w, es, want);
      var (s', v) := Step(env, d, s);
      if v == Continue {
        w', es' := RunKeeps(env, d, s', tail, w', es', want);
      }
    }
  }

  lemma {:induction false} ChunksKeep(env: Env, d: Delims, s: State, chunks: seq<string>, w: Where, es: seq<Entry>, want: seq<Part>)
    requires Accepting(env) && BoundaryOk(d.boundary) && s.phase <= 4 && At(env, d, s, Join(chunks), w, es, want)
    requires chunks == [] ==> w.Finished?
    ensures var (s', ok) := ParseAll(env, d, s, chunks);
            ok && s'.valid && s'.parts == want
    decreases |chunks|
  {
    if chunks != [] {
      var s1 := s.(buf := s.buf + chunks[0]);
      var tail := Join(chunks[1..]);
      assert s.buf + Join(chunks) == s1.buf + tail;
      var w', es' := RunKeeps(env, d, s1, tail, w, es, want);
      if chunks[1..] == [] { assert tail == ""; }
      ChunksKeep(env, d, ParseChunk(env, d, s, chunks[0]).0, chunks[1..], w', es', want);
    }
  }

  /** The first chunk, once it holds the opening line, puts the parser at the first entry. */
  lemma OpeningFound(env: Env, d: Delims, chunk: string, tail: string, es: seq<Entry>)
    requires es != [] && chunk + tail == Document(d, es) && |chunk| >= |d.Open()|
    ensures ParseChunk(env, d, INITIAL, chunk) ==
            Run(env, d, State(1, false, NO_FILE, chunk[|d.Open()|..], []))
    ensures chunk[|d.Open()|..] + tail == Body(d, es)
  {
    var o := d.Open();
    assert chunk[..|o|] == (chunk + tail)[..|o|] == o;
    assert OccursAt(chunk, o, 0);
    assert "" + chunk == chunk;
    assert Find(chunk, o) == 0;
    assert chunk[0..] == chunk;
    assert chunk[|o|..] + tail == (chunk + tail)[|o|..];
  }

  /** Chunk independence and round trip: however a document is cut, as long as the first chunk holds the opening
      line, every call succeeds, the parse ends valid, and the callbacks have rebuilt every part, in order. */
  lemma ParseUndoesDocument(env: Env, d: Delims, es: seq<Entry>, chunks: seq<string>)
    requires Accepting(env) && BoundaryOk(d.boundary) && es != [] && EntriesOk(env, d, es)
    requires Join(chunks) == Document(d, es)
    requires chunks != [] && |chunks[0]| >= |d.Open()|
    ensures var (s, ok) := ParseAll(env, d, INITIAL, chunks);
            ok && s.valid && s.parts == Received(env, es)
  {
    var tail := Join(chunks[1..]);
    var want := Received(env, es);
    OpeningFound(env, d, chunks[0], tail, es);
    var s1 := State(1, false, NO_FILE, chunks[0][|d.Open()|..], []);
    assert [] + want == want;
    var w, es' := RunKeeps(env, d, s1, tail, AtEntry, es, want);
    if chunks[1..] == [] { assert tail == ""; }
    ChunksKeep(env, d, ParseChunk(env, d, INITIAL, chunks[0]).0, chunks[1..], w, es', want);
  }

  /** A shorter first chunk is thrown away whole: the opening line is lost and the parser is where it began. */
  lemma ShortOpeningDiscarded(env: Env, d: Delims, chunk: string)
    requires |chunk| < |d.Open()|
    ensures ParseChunk(env, d, INITIAL, chunk) == (INITIAL, true)
  {
    assert "" + chunk == chunk;
    assert chunk[|chunk|..] == "";
  }

  // --- the serializer

  datatype FormItem = FormItem(name: string, filename: string, contentType: string, content: string)

  function ItemLines(item: FormItem): seq<string> {
    ["Content-Disposition: form-data; name=\"" + item.name + "\""
     + (if item.filename != "" then "; filename=\"" + item.filename + "\"" else "")]
    + (if item.contentType != "" then ["Content-Type: " + item.contentType] else [])
  }

  function ItemEntry(item: FormItem): Entry {
    Entry(ItemLines(item), item.content)
  }

  function Entries(items: seq<FormItem>): (es: seq<Entry>)
    ensures |es| == |items|
    ensures forall k :: 0 <= k < |items| ==> es[k] == ItemEntry(items[k])
  {
    seq(|items|, k requires 0 <= k < |items| => ItemEntry(items[k]))
  }

  function ItemBegin(item: FormItem, boundary: string): string {
    "--" + boundary + "\r\n"
    + "Content-Disposition: form-data; name=\"" + item.name + "\""
    + (if item.filename != "" then "; filename=\"" + item.filename + "\"" else "")
    + "\r\n"
    + (if item.contentType != "" then "Content-Type: " + item.contentType + "\r\n" else "")
    + "\r\n"
  }

  function ItemText(item: FormItem, boundary: string): string {
    ItemBegin(item, boundary) + (item.content + "\r\n")
  }

  function SerializedItems(items: seq<FormItem>, boundary: string): string {
    if items == [] then "" else ItemText(items[0], boundary) + SerializedItems(items[1..], boundary)
  }

  lemma {:induction false} SerializedItemsAppend(items: seq<FormItem>, item: FormItem, boundary: string)
    ensures SerializedItems(items + [item], boundary) == SerializedItems(items, boundary) + ItemText(item, boundary)
    decreases |items|
  {
    if items == [] {
      assert items + [item] == [item];
      assert SerializedItems([item], boundary) == ItemText(item, boundary) + "";
    } else {
      SerializedItemsAppend(items[1..], item, boundary);
      assert (items + [item])[1..] == items[1..] + [item] && (items + [item])[0] == items[0];
      Regroup(ItemText(items[0], boundary), SerializedItems(items[1..], boundary), ItemText(item, boundary));
    }
  }

  method SerializeItemBegin(item: FormItem, boundary: string) returns (body: string)
    ensures body == ItemBegin(item, boundary)
  {
    body := "--" + boundary + "\r\n";
    body := body + "Content-Disposition: form-data; name=\"" + item.name + "\"";
    if item.filename != "" {
      body := body + ("; filename=\"" + item.filename + "\"");
    }
    body := body + "\r\n";
    if item.contentType != "" {
      body := body + ("Content-Type: " + item.contentType + "\r\n");
    }
    body := body + "\r\n";
  }

  lemma OneMoreItem(items: seq<FormItem>, i: nat, boundary: string, begin: string)
    requires i < |items| && begin == ItemBegin(items[i], boundary)
    ensures SerializedItems(items[..i + 1], boundary) == SerializedItems(items[..i], boundary) + begin + (items[i].content + "\r\n")
  {
    SerializedItemsAppend(items[..i], items[i], boundary);
    assert items[..i + 1] == items[..i] + [items[i]];
    hide SerializedItems, ItemBegin;
    Regroup(SerializedItems(items[..i], boundary), begin, items[i].content + "\r\n");
  }

  method SerializeMultipartFormdata(items: seq<FormItem>, boundary: string, finish: bool) returns (body: string)
    ensures body == SerializedItems(items, boundary) + (if finish then "--" + boundary + "--\r\n" else "")
  {
    body := "";
    for i := 0 to |items|
      invariant body == SerializedItems(items[..i], boundary)
    {
      hide SerializedItems, ItemBegin;
      var begin := SerializeItemBegin(items[i], boundary);
      OneMoreItem(items, i, boundary, begin);
      body := body + begin;
      body := body + (items[i].content + "\r\n");
    }
    assert items[..|items|] == items;
    if finish {
      body := body + ("--" + boundary + "--\r\n");
    }
  }

  lemma ItemBeginIsHeaders(item: FormItem, d: Delims)
    ensures ItemBegin(item, d.boundary) == d.Open() + HeaderText(ItemLines(item)) + CRLF
  {
    var lines := ItemLines(item);
    if item.contentType != "" {
      assert lines[1..] == ["Content-Type: " + item.contentType] && lines[1..][1..] == [];
      assert HeaderText(lines[1..]) == "Content-Type: " + item.contentType + CRLF + "";
      assert HeaderText(lines) == lines[0] + CRLF + ("Content-Type: " + item.contentType + CRLF);
    } else {
      assert lines[1..] == [];
      assert HeaderText(lines) == lines[0] + CRLF + "";
    }
  }

  lemma ItemTextIsEntry(item: FormItem, d: Delims, more: string)
    ensures ItemText(item, d.boundary) + more ==
            d.Open() + (HeaderText(ItemLines(item)) + CRLF + item.content + (CRLF + more))
  {
    ItemBeginIsHeaders(item, d);
    RegroupSix(d.Open(), HeaderText(ItemLines(item)), CRLF, item.content, CRLF, more);
  }

  lemma RegroupSix(a: string, b: string, c: string, x: string, y: string, z: string)
    ensures a + b + c + (x + y) + z == a + (b + c + x + (y + z))
  {
  }

  lemma CloseAndOpen(d: Delims, es: seq<Entry>)
    ensures es == [] ==> CRLF + ("--" + d.boundary + "--\r\n") == d.Close() + After(d, es)
    ensures es != [] ==> CRLF + Document(d, es) == d.Close() + After(d, es)
  {
  }

  lemma DocumentHead(d: Delims, es: seq<Entry>)
    requires es != []
    ensures Document(d, es) == d.Open() + (HeaderText(es[0].lines) + CRLF + es[0].content + (d.Close() + After(d, es[1..])))
  {
  }

  /** What the serializer writes is the text the parser is meant for. */
  lemma {:induction false} SerializedIsDocument(items: seq<FormItem>, d: Delims)
    requires items != []
    ensures SerializedItems(items, d.boundary) + ("--" + d.boundary + "--\r\n") == Document(d, Entries(items))
    decreases |items|
  {
    var finish := "--" + d.boundary + "--\r\n";
    var rest := Entries(items[1..]);
    var more := SerializedItems(items[1..], d.boundary);
    assert Entries(items)[1..] == rest;
    if items[1..] == [] {
      assert more + finish == finish;
    } else {
      SerializedIsDocument(items[1..], d);
    }
    CloseAndOpen(d, rest);
    assert CRLF + (more + finish) == d.Close() + After(d, rest);
    Regroup(ItemText(items[0], d.boundary), more, finish);
    ItemTextIsEntry(items[0], d, more + finish);
    DocumentHead(d, Entries(items));
  }

  /** Serializing form items and parsing the result, cut anywhere behind the opening line, gives back each item's
      content in order under the file information its header lines stand for. */
  lemma RoundTrip(env: Env, d: Delims, items: seq<FormItem>, chunks: seq<string>)
    requires Accepting(env) && BoundaryOk(d.boundary) && items != [] && EntriesOk(env, d, Entries(items))
    requires Join(chunks) == SerializedItems(items, d.boundary) + ("--" + d.boundary + "--\r\n")
    requires chunks != [] && |chunks[0]| >= |d.Open()|
    ensures var r := ParseAll(env, d, INITIAL, chunks);
            r.1 && r.0.valid && Rebuilt(env, items, r.0.parts)
  {
    SerializedIsDocument(items, d);
    ParseUndoesDocument(env, d, Entries(items), chunks);
    ReceivedItems(env, d, Entries(items));
  }

  /** One part for each item: its content, under the file information its header lines stand for. */
  ghost predicate Rebuilt(env: Env, items: seq<FormItem>, parts: seq<Part>) {
    && |parts| == |items|
    && forall k :: 0 <= k < |items| ==>
                     && parts[k].content == items[k].content
                     && Some(parts[k].file) == Interpret(env, NO_FILE, ItemLines(items[k]))
  }

  lemma {:induction false} ReceivedItems(env: Env, d: Delims, es: seq<Entry>)
    requires EntriesOk(env, d, es)
    ensures |Received(env, es)| == |es|
    ensures forall k :: 0 <= k < |es| ==>
                          && Received(env, es)[k].content == es[k].content
                          && Some(Received(env, es)[k].file) == Interpret(env, NO_FILE, es[k].lines)
    decreases |es|
  {
    if es != [] {
      assert es[0] in es;
      assert forall e | e in es[1..] :: e in es;
      ReceivedItems(env, d, es[1..]);
    }
  }

  // --- the parser object

  /** The parser with its own buffer, of which `buf[bufSpos..bufEpos]` is in use. */
  class MultipartFormDataParser {
    const boundary: string
    const dashBoundaryCrlf: string
    const crlfDashBoundary: string
    var state: nat
    var isValid: bool
    var file: FileInfo
    var buf: string
    var bufSpos: nat
    var bufEpos: nat
    /** What the callbacks have been given. */
    var parts: seq<Part>

    predicate Valid()
      reads this
    {
      && state <= 4 && bufSpos <= bufEpos <= |buf|
      && dashBoundaryCrlf == Delims(boundary).Open() && crlfDashBoundary == Delims(boundary).Close()
    }

    function Abstract(): State
      requires Valid()
      reads this
    {
      State(state, isValid, file, buf[bufSpos..bufEpos], parts)
    }

    constructor (boundary: string)
      ensures Valid() && this.boundary == boundary && Abstract() == INITIAL
    {
      this.boundary := boundary;
      dashBoundaryCrlf := DASH + boundary + CRLF;
      crlfDashBoundary := CRLF + DASH + boundary;
      state, isValid, file, buf, bufSpos, bufEpos, parts := 0, false, NO_FILE, "", 0, 0, [];
    }

    method BufSize() returns (n: nat)
      requires Valid()
      ensures n == |Abstract().buf|
    {
      n := bufEpos - bufSpos;
    }

    method StartWith(pos: nat, pat: string) returns (r: bool)
      requires Valid() && bufSpos <= pos <= bufEpos
      ensures r <==> OccursAt(Abstract().buf, pat, pos - bufSpos)
    {
      ghost var b, o := Abstract().buf, pos - bufSpos;
      if bufEpos - pos < |pat| { return false; }
      ghost var window := b[o..o + |pat|];
      assert forall k :: 0 <= k < |pat| ==> window[k] == buf[pos + k];
      for i := 0 to |pat|
        invariant forall k :: 0 <= k < i ==> buf[pos + k] == pat[k]
      {
        if buf[i + pos] != pat[i] {
          assert window[i] != pat[i];
          return false;
        }
      }
      assert window == pat;
      return true;
    }

    method BufFind(pat: string) returns (r: nat)
      requires Valid() && pat != ""
      ensures r == Find(Abstract().buf, pat)
    {
      ghost var b := Abstract().buf;
      var c := pat[0];
      var off := bufSpos;
      while off < bufEpos
        invariant bufSpos <= off <= bufEpos
        invariant forall k :: 0 <= k < off - bufSpos ==> !OccursAt(b, pat, k)
      {
        var pos := off;
        while pos < bufEpos && buf[pos] != c
          invariant off <= pos <= bufEpos
          invariant forall k :: 0 <= k < pos - bufSpos ==> !OccursAt(b, pat, k)
        {
          assert b[pos - bufSpos] != pat[0];
          pos := pos + 1;
        }
        if pos == bufEpos { return bufEpos - bufSpos; }
        var remaining := bufEpos - pos;
        if |pat| > remaining { return bufEpos - bufSpos; }
        var found := StartWith(pos, pat);
        if found { return pos - bufSpos; }
        off := pos + 1;
      }
      return bufEpos - bufSpos;
    }

    method BufErase(n: nat)
      requires Valid() && n <= |Abstract().buf|
      modifies this`bufSpos
      ensures Valid() && Abstract() == old(Abstract()).(buf := old(Abstract()).buf[n..])
    {
      bufSpos := bufSpos + n;
    }

    /** Moves the `n` characters in use to the front. */
    method ShiftDown(n: nat)
      requires Valid() && n == bufEpos - bufSpos
      modifies this`buf
      ensures |buf| == old(|buf|) && buf[..n] == old(Abstract().buf)
    {
      ghost var was := Abstract().buf;
      if n > 0 && bufSpos > 0 {
        for i := 0 to n
          invariant |buf| == old(|buf|)
          invariant forall k :: 0 <= k < i ==> buf[k] == was[k]
          invariant forall k :: i <= k < n ==> buf[bufSpos + k] == was[k]
        {
          buf := buf[i := buf[bufSpos + i]];
        }
        assert buf[..n] == was;
      }
    }

    method CopyIn(at: nat, data: string)
      requires at + |data| <= |buf|
      modifies this`buf
      ensures |buf| == old(|buf|) && buf[..at + |data|] == old(buf[..at]) + data
    {
      for i := 0 to |data|
        invariant |buf| == old(|buf|)
        invariant buf[..at] == old(buf[..at])
        invariant forall k :: 0 <= k < i ==> buf[at + k] == data[k]
      {
        buf := buf[at + i := data[i]];
      }
    }

    /** Moves what is left to the front of the buffer and appends `data`, growing the buffer when needed. */
    method BufAppend(data: string)
      requires Valid()
      modifies this`buf, this`bufSpos, this`bufEpos
      ensures Valid() && Abstract() == old(Abstract()).(buf := old(Abstract()).buf + data)
    {
      var remaining := bufEpos - bufSpos;
      ShiftDown(remaining);
      bufSpos := 0;
      bufEpos := remaining;
      if remaining + |data| > |buf| {
        ghost var front := buf[..remaining];
        buf := buf + seq(remaining + |data| - |buf|, _ => '\0');
        assert buf[..remaining] == front;
      }
      CopyIn(bufEpos, data);
      bufEpos := bufEpos + |data|;
    }

    /** The empty line: the header callback opens a part. */
    method BlankLine(env: Env) returns (v: Verdict)
      requires Valid() && Abstract().buf != "" && Find(Abstract().buf, CRLF) == 0
      modifies this`state, this`isValid, this`bufSpos, this`parts
      ensures Valid() && (Abstract(), v) == Headers(env, old(Abstract()))
    {
      if !env.onHeader(parts, file) {
        isValid := false;
        return Return(false);
      }
      parts := parts + [Part(file, "")];
      BufErase(2);
      state := 3;
      return Continue;
    }

    /** One header line, which may be rejected. */
    method HeaderLine(env: Env, pos: nat) returns (ok: bool)
      requires Valid() && 0 < pos < |Abstract().buf| && pos == Find(Abstract().buf, CRLF)
      modifies this`isValid, this`file, this`bufSpos
      ensures Valid() && state == old(state)
      ensures if ok then Headers(env, Abstract()) == Headers(env, old(Abstract())) && |Abstract().buf| < old(|Abstract().buf|)
              else (Abstract(), Return(false)) == Headers(env, old(Abstract()))
    {
      var header := buf[bufSpos..bufSpos + pos];
      assert header == Abstract().buf[..pos];
      match env.interpret(header, file) {
        case None =>
          isValid := false;
          return false;
        case Some(f) =>
          file := f;
      }
      BufErase(pos + 2);
      return true;
    }

    /** Phase 2: the header loop. */
    method ParseHeaders(env: Env) returns (v: Verdict)
      requires Valid() && state == 2 && Abstract().buf != ""
      modifies this`state, this`isValid, this`file, this`bufSpos, this`parts
      ensures Valid() && (Abstract(), v) == Step(env, Delims(boundary), old(Abstract()))
    {
      hide Find;
      var pos := BufFind(CRLF);
      if pos > HEADER_MAX_LENGTH { return Return(false); }
      var size := BufSize();
      while pos < size
        invariant Valid() && state == 2
        invariant pos == Find(Abstract().buf, CRLF) && size == |Abstract().buf|
        invariant Headers(env, Abstract()) == Headers(env, old(Abstract()))
        decreases size
      {
        if pos == 0 {
          v := BlankLine(env);
          return;
        }
        var ok := HeaderLine(env, pos);
        if !ok { return Return(false); }
        pos := BufFind(CRLF);
        size := BufSize();
      }
      return Return(true);
    }

    /** Phase 0: what precedes the opening line, or everything when it is not there, is dropped. */
    method ParseOpening() returns (v: Verdict)
      requires Valid() && state == 0 && Abstract().buf != ""
      modifies this`state, this`bufSpos
      ensures Valid() && (Abstract(), v) == OpeningStep(Delims(boundary), old(Abstract()))
    {
      var pos := BufFind(dashBoundaryCrlf);
      BufErase(pos);
      var size := BufSize();
      if |dashBoundaryCrlf| > size { return Return(true); }
      BufErase(|dashBoundaryCrlf|);
      state := 1;
      return Continue;
    }

    /** Hands `n` characters to the content callback. */
    method Deliver(env: Env, n: nat) returns (ok: bool)
      requires Valid() && n <= |Abstract().buf|
      modifies this`isValid, this`parts
      ensures Valid() && ok == env.onContent(old(parts), Abstract().buf[..n])
      ensures Abstract() == if ok then old(Abstract()).(parts := AddContent(old(parts), Abstract().buf[..n]))
                            else old(Abstract()).(valid := false)
    {
      var content := buf[bufSpos..bufSpos + n];
      assert content == Abstract().buf[..n];
      ok := env.onContent(parts, content);
      if ok {
        parts := AddContent(parts, content);
      } else {
        isValid := false;
      }
    }

    /** Phase 3: content up to the delimiter, or all but the last characters when it is not there yet. */
    method ParseContent(env: Env) returns (v: Verdict)
      requires Valid() && state == 3 && Abstract().buf != ""
      modifies this`state, this`isValid, this`bufSpos, this`parts
      ensures Valid() && (Abstract(), v) == ContentStep(env, Delims(boundary), old(Abstract()))
    {
      hide Find, AddContent, DeliverStep;
      var size := BufSize();
      ghost var was, d := Abstract(), Delims(boundary);
      if |crlfDashBoundary| > size { return Return(true); }
      var pos := BufFind(crlfDashBoundary);
      assert pos == Find(was.buf, d.Close());
      if pos < size {
        v := DeliverAndErase(env, pos, pos + |crlfDashBoundary|);
        if v.Continue? { state := 4; }
        return;
      }
      var len := size - |crlfDashBoundary|;
      if len > 0 {
        v := DeliverAndErase(env, len, len);
        if v.Return? { return; }
      }
      return Return(true);
    }

    /** Hands the first `n` characters to the content callback and, when it agrees, erases `drop` of them. */
    method DeliverAndErase(env: Env, n: nat, drop: nat) returns (v: Verdict)
      requires Valid() && n <= drop <= |Abstract().buf|
      modifies this`isValid, this`bufSpos, this`parts
      ensures Valid() && (Abstract(), v) == DeliverStep(env, old(Abstract()), n, drop)
    {
      var ok := Deliver(env, n);
      if !ok { return Return(false); }
      BufErase(drop);
      return Continue;
    }

    /** Removes the epilogue. */
    method DropAll()
      requires Valid()
      modifies this`bufSpos
      ensures Valid() && Abstract() == old(Abstract()).(buf := "")
    {
      var size := BufSize();
      BufErase(size);
    }

    method SeeMark() returns (mark: Mark)
      requires Valid()
      ensures mark == MarkOf(Abstract().buf)
    {
      hide Abstract, OccursAt;
      var size := BufSize();
      if |CRLF| > size { return Unseen; }
      var crlf := StartWith(bufSpos, CRLF);
      if crlf { return NextPart; }
      var dash := StartWith(bufSpos, DASH);
      return if dash then Last else Other;
    }

    /** Phase 4: behind a delimiter, another part or the end. */
    method ParseBoundary() returns (v: Verdict)
      requires Valid() && state == 4 && Abstract().buf != ""
      modifies this`state, this`isValid, this`bufSpos
      ensures Valid() && (Abstract(), v) == BoundaryStep(old(Abstract()))
    {
      hide MarkOf;
      var mark := SeeMark();
      match mark {
        case Unseen => return Return(true);
        case NextPart =>
          BufErase(2);
          state := 1;
          return Continue;
        case Last =>
          BufErase(2);
          isValid := true;
          DropAll();
          return Continue;
        case Other => return Return(true);
      }
    }

    /** One turn of the loop in `parse`. */
    method Turn(env: Env) returns (v: Verdict)
      requires Valid() && Abstract().buf != ""
      modifies this`state, this`isValid, this`file, this`bufSpos, this`parts
      ensures Valid() && (Abstract(), v) == Step(env, Delims(boundary), old(Abstract()))
    {
      if state == 0 {
        v := ParseOpening();
      } else if state == 1 {
        file := NO_FILE;
        state := 2;
        v := Continue;
      } else if state == 2 {
        v := ParseHeaders(env);
      } else if state == 3 {
        v := ParseContent(env);
      } else {
        v := ParseBoundary();
      }
    }

    method Parse(env: Env, chunk: string) returns (ok: bool)
      requires Valid()
      modifies this`state, this`isValid, this`file, this`buf, this`bufSpos, this`bufEpos, this`parts
      ensures Valid() && (Abstract(), ok) == ParseChunk(env, Delims(boundary), old(Abstract()), chunk)
    {
      BufAppend(chunk);
      var size := BufSize();
      while size > 0
        invariant Valid() && size == |Abstract().buf|
        invariant Run(env, Delims(boundary), Abstract()) == ParseChunk(env, Delims(boundary), old(Abstract()), chunk)
        decreases size, if state == 1 then 1 else 0
      {
        var v := Turn(env);
        if v.Return? { return v.result; }
        size := BufSize();
      }
      return true;
    }
  }
}
