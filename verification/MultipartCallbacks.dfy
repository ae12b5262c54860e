/** The multipart parser with callbacks that may refuse and header lines that may be rejected. */
module MultipartCallbacks {
  import opened Bytes
  import opened TextSearch
  import opened Multipart

  /** What the callbacks make of the parts one after the other: whether all of them go on, and what they have been given. */
  datatype Heard = Heard(ok: bool, parts: seq<Part>)

  function Hear(env: Env, parts: seq<Part>, es: seq<Entry>): Heard
    decreases |es|
  {
    if es == [] then Heard(true, parts)
    else
      match Interpret(env, NO_FILE, es[0].lines)
      case None => Heard(false, parts)
      case Some(f) =>
        if !env.onHeader(parts, f) then Heard(false, parts)
        else if !env.onContent(parts + [Part(f, "")], es[0].content) then Heard(false, parts + [Part(f, "")])
        else Hear(env, parts + [Part(f, es[0].content)], es[1..])
  }

  ghost predicate TextOk(d: Delims, e: Entry) {
    (forall l | l in e.lines :: LineOk(l) && Free(l, CRLF)) && Free(e.content, d.Close())
  }

  lemma CrlfOnce()
    ensures HeadUnique(CRLF) && Free("", CRLF)
  {
  }

  lemma BreakBehind(line: string, rest: string)
    requires Free(line, CRLF)
    ensures Find(line + CRLF + rest, CRLF) == |line|
  {
    var t := line + CRLF + rest;
    CrlfOnce();
    assert t + "" == t;
    FindInPrefix(t, "", line, CRLF, rest);
  }

  /** All header lines in one go. */
  lemma {:induction false} HeadersWhole(env: Env, s: State, lines: seq<string>, rest: string)
    requires s.buf == HeaderText(lines) + CRLF + rest && forall l | l in lines :: LineOk(l) && Free(l, CRLF)
    ensures var (t, v) := Headers(env, s);
            var f := Interpret(env, s.file, lines);
            if f.Some? && env.onHeader(s.parts, f.value)
            then v == Continue && t == s.(file := f.value, buf := rest, phase := 3, parts := s.parts + [Part(f.value, "")])
            else v == Return(false) && !t.valid && t.parts == s.parts
    decreases |lines|
  {
    hide Find;
    if lines == [] {
      assert s.buf == "" + CRLF + rest;
      CrlfOnce();
      BreakBehind("", rest);
      assert s.buf[2..] == rest;
    } else {
      var l, more := lines[0], HeaderText(lines[1..]) + CRLF + rest;
      assert l in lines && forall k | k in lines[1..] :: k in lines;
      assert s.buf == l + CRLF + more;
      BreakBehind(l, more);
      assert s.buf[..|l|] == l && s.buf[|l| + 2..] == more;
      match env.interpret(l, s.file) {
        case None =>
        case Some(f) => HeadersWhole(env, s.(file := f, buf := more), lines[1..], rest);
      }
    }
  }

  lemma OneStep(env: Env, d: Delims, s: State)
    requires s.phase <= 4 && s.buf != ""
    ensures var (t, v) := Step(env, d, s);
            Run(env, d, s) == match v case Continue => Run(env, d, t) case Return(result) => (t, result)
  {
    hide Step;
  }

  lemma FirstLineFits(s: State, lines: seq<string>, rest: string)
    requires s.buf == HeaderText(lines) + CRLF + rest && forall l | l in lines :: LineOk(l) && Free(l, CRLF)
    ensures Find(s.buf, CRLF) <= HEADER_MAX_LENGTH
  {
    hide Find;
    if lines == [] {
      CrlfOnce();
      assert s.buf == "" + CRLF + rest;
      BreakBehind("", rest);
    } else {
      var l := lines[0];
      assert l in lines && s.buf == l + CRLF + (HeaderText(lines[1..]) + CRLF + rest);
      BreakBehind(l, HeaderText(lines[1..]) + CRLF + rest);
    }
  }

  /** The content of a part, all there with its delimiter. */
  lemma ContentWhole(env: Env, d: Delims, s: State, content: string, rest: string)
    requires BoundaryOk(d.boundary) && Free(content, d.Close()) && s.buf == content + d.Close() + rest
    ensures ContentStep(env, d, s)
         == if env.onContent(s.parts, content) then (s.(buf := rest, phase := 4, parts := AddContent(s.parts, content)), Continue)
            else (s.(valid := false), Return(false))
  {
    hide Find;
    var c := d.Close();
    DelimiterHeadUnique(d);
    assert s.buf + "" == s.buf;
    FindInPrefix(s.buf, "", content, c, rest);
    assert s.buf[..|content|] == content && s.buf[|content| + |c|..] == rest;
  }

  lemma AddToLast(parts: seq<Part>, f: FileInfo, content: string)
    ensures AddContent(parts + [Part(f, "")], content) == parts + [Part(f, content)]
  {
    assert "" + content == content;
  }

  /** The text from a part's first header line on, in one piece. */
  lemma {:induction false} BodyWhole(env: Env, d: Delims, s: State, es: seq<Entry>)
    requires BoundaryOk(d.boundary) && es != [] && s.phase == 1 && s.buf == Body(d, es) && forall e | e in es :: TextOk(d, e)
    ensures var (t, ok) := Run(env, d, s);
            var h := Hear(env, s.parts, es);
            ok == h.ok && t.parts == h.parts && (t.valid <==> h.ok)
    decreases |es|
  {
    hide Run, Headers, ContentStep, Find, HeaderText, Free;
    var e, later := es[0], es[1..];
    assert e in es && forall k | k in later :: k in es;
    var rest := e.content + d.Close() + After(d, later);
    assert s.buf == HeaderText(e.lines) + CRLF + rest;
    var s1 := s.(file := NO_FILE, phase := 2);
    OneStep(env, d, s);
    OneStep(env, d, s1);
    FirstLineFits(s1, e.lines, rest);
    HeadersWhole(env, s1, e.lines, rest);
    var f := Interpret(env, NO_FILE, e.lines);
    if f.Some? && env.onHeader(s.parts, f.value) {
      var s2 := s1.(file := f.value, buf := rest, phase := 3, parts := s.parts + [Part(f.value, "")]);
      OneStep(env, d, s2);
      ContentWhole(env, d, s2, e.content, After(d, later));
      if env.onContent(s2.parts, e.content) {
        AddToLast(s.parts, f.value, e.content);
        var s3 := s2.(buf := After(d, later), phase := 4, parts := s.parts + [Part(f.value, e.content)]);
        OneStep(env, d, s3);
        if later == [] {
          AtTheEnd(env, d, s3);
        } else {
          var s4 := s3.(buf := Body(d, later), phase := 1);
          assert s3.buf == CRLF + Body(d, later) && s3.buf[..2] == CRLF && s3.buf[2..] == Body(d, later);
          BodyWhole(env, d, s4, later);
        }
      }
    }
  }

  lemma AtTheEnd(env: Env, d: Delims, s: State)
    requires s.phase == 4 && s.buf == DASH + CRLF
    ensures Run(env, d, s) == (s.(buf := "", valid := true), true)
  {
    assert s.buf[..2] == DASH && s.buf[0] == '-';
    OneStep(env, d, s);
  }

  /** A whole document in one call, whatever the callbacks do and however they read header lines: the call succeeds, and the
      parse is valid, exactly when no header line is rejected and no callback refuses; and the callbacks are asked part after
      part, up to the first that refuses. */
  lemma CallbacksDecide(env: Env, d: Delims, es: seq<Entry>)
    requires BoundaryOk(d.boundary) && es != [] && forall e | e in es :: TextOk(d, e)
    ensures var (t, ok) := ParseChunk(env, d, INITIAL, Document(d, es));
            var h := Hear(env, [], es);
            ok == h.ok && t.parts == h.parts && (t.valid <==> h.ok)
  {
    hide Run, Body, Find, Free;
    var text := Document(d, es);
    var s := INITIAL.(buf := text);
    assert "" + text == text;
    OpensAtOnce(d, es);
    OneStep(env, d, s);
    BodyWhole(env, d, s.(buf := Body(d, es), phase := 1), es);
  }

  lemma OpensAtOnce(d: Delims, es: seq<Entry>)
    requires es != []
    ensures var text := Document(d, es);
            && text != "" && |text| >= |d.Open()| && Find(text, d.Open()) == 0
            && text[0..] == text && text[|d.Open()|..] == Body(d, es)
  {
    var text := Document(d, es);
    assert text[0..|d.Open()|] == d.Open();
    assert OccursAt(text, d.Open(), 0);
  }

  /** A header line longer than the limit fails the call, as soon as so much of it is there without a break. */
  lemma LongLineFails(env: Env, d: Delims, s: State, chunk: string)
    requires s.phase == 2 && |s.buf + chunk| > 8192
    requires forall i | 0 <= i <= 8192 :: !OccursAt(s.buf + chunk, CRLF, i)
    ensures ParseChunk(env, d, s, chunk) == (s.(buf := s.buf + chunk), false)
  {
    hide OccursAt;
    var t := s.(buf := s.buf + chunk);
    assert Find(t.buf, CRLF) > 8192;
    OneStep(env, d, t);
  }

  /** Behind a delimiter that neither a line break nor two dashes follow, the parser waits for ever: every later call succeeds,
      nothing more is delivered, and the parse never becomes valid. */
  lemma {:induction false} StuckBehindDelimiter(env: Env, d: Delims, s: State, chunks: seq<string>)
    requires s.phase == 4 && |s.buf| >= 2 && s.buf[..2] != CRLF && s.buf[..2] != DASH
    ensures ParseAll(env, d, s, chunks) == (s.(buf := s.buf + Join(chunks)), true)
    decreases |chunks|
  {
    if chunks == [] {
      assert s.buf + "" == s.buf;
    } else {
      var t := s.(buf := s.buf + chunks[0]);
      assert t.buf[..2] == s.buf[..2];
      OneStep(env, d, t);
      hide Run;
      StuckBehindDelimiter(env, d, t, chunks[1..]);
      Regroup(s.buf, chunks[0], Join(chunks[1..]));
    }
  }
}
