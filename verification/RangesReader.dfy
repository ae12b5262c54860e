/** A client's reader of the multipart range body: it finds every range, the size of the whole, and the bytes. */
module RangesReader {
  import opened Bytes
  import opened TextSearch
  import opened Ranges

  // --- decimal numbers

  predicate IsDigit(c: char) { '0' <= c <= '9' }

  /** The number that begins the text, continuing `v`, and the text behind it. */
  function ReadDecimal(s: string, v: nat): (r: (nat, string))
    ensures |r.1| <= |s|
  {
    if s == "" || !IsDigit(s[0]) then (v, s) else ReadDecimal(s[1..], v * 10 + (s[0] - '0') as nat)
  }

  lemma {:induction false} DigitsInFront(s: string, t: string, v: nat)
    requires forall c | c in s :: IsDigit(c)
    ensures ReadDecimal(s, v).1 == "" && ReadDecimal(s + t, v) == ReadDecimal(t, ReadDecimal(s, v).0)
    decreases |s|
  {
    if s == "" {
      assert s + t == t;
    } else {
      assert s[0] in s && forall c | c in s[1..] :: c in s;
      DigitsInFront(s[1..], t, v * 10 + (s[0] - '0') as nat);
      assert (s + t)[1..] == s[1..] + t && (s + t)[0] == s[0];
    }
  }

  lemma DigitIs(n: nat)
    requires n < 10
    ensures var c := "0123456789"[n]; IsDigit(c) && (c - '0') as nat == n
  {
  }

  /** Decimal text denotes the number it was made from. */
  lemma {:induction false} DecimalIsRead(n: nat)
    ensures Decimal(n) != "" && (forall c | c in Decimal(n) :: IsDigit(c)) && ReadDecimal(Decimal(n), 0) == (n, "")
  {
    DigitIs(n % 10);
    var last := ["0123456789"[n % 10]];
    assert last[1..] == "";
    if n >= 10 {
      DecimalIsRead(n / 10);
      DigitsInFront(Decimal(n / 10), last, 0);
      assert ReadDecimal(last, n / 10) == ReadDecimal("", n / 10 * 10 + n % 10);
    } else {
      assert Decimal(n) == last && ReadDecimal(last, 0) == ReadDecimal("", n);
    }
  }

  lemma NumberInFront(n: nat, t: string)
    requires t == "" || !IsDigit(t[0])
    ensures ReadDecimal(Decimal(n) + t, 0) == (n, t)
  {
    DecimalIsRead(n);
    DigitsInFront(Decimal(n), t, 0);
  }

  // --- the reader

  /** The text behind `lead`, if it begins with that. */
  function Behind(s: string, lead: string): (r: Option<string>)
    ensures r.Some? ==> |r.value| == |s| - |lead|
  {
    if |lead| <= |s| && s[..|lead|] == lead then Some(s[|lead|..]) else None
  }

  /** A part as the client finds it. */
  datatype Found = Found(first: nat, last: nat, total: nat, bytes: string)

  /** The field's three numbers, and the text behind it. */
  function ReadField(s: string): (r: Option<(nat, nat, nat, string)>)
    ensures r.Some? ==> |r.value.3| <= |s|
  {
    match Behind(s, "bytes ")
    case None => None
    case Some(s1) =>
      var (first, s2) := ReadDecimal(s1, 0);
      match Behind(s2, "-")
      case None => None
      case Some(s3) =>
        var (last, s4) := ReadDecimal(s3, 0);
        match Behind(s4, "/")
        case None => None
        case Some(s5) =>
          var (total, s6) := ReadDecimal(s5, 0);
          Some((first, last, total, s6))
  }

  function Lead(boundary: string, contentType: string): string {
    "--" + boundary + "\r\n" + (if contentType == "" then "" else "Content-Type: " + contentType + "\r\n") + "Content-Range: "
  }

  /** One part, as many bytes as its range says, and the text behind it. */
  function ReadPart(s: string, boundary: string, contentType: string): (r: Option<(Found, string)>)
    ensures r.Some? ==> |r.value.1| < |s|
  {
    match Behind(s, Lead(boundary, contentType))
    case None => None
    case Some(s1) =>
      match ReadField(s1)
      case None => None
      case Some((first, last, total, s2)) =>
        match Behind(s2, "\r\n\r\n")
        case None => None
        case Some(s3) =>
          if first > last || |s3| < last - first + 1 then None
          else
            var n := last - first + 1;
            match Behind(s3[n..], "\r\n")
            case None => None
            case Some(rest) => Some((Found(first, last, total, s3[..n]), rest))
  }

  /** All parts up to the closing line. */
  function ReadBody(s: string, boundary: string, contentType: string): Option<seq<Found>>
    decreases |s|
  {
    if s == "--" + boundary + "--" then Some([])
    else
      match ReadPart(s, boundary, contentType)
      case None => None
      case Some((part, rest)) =>
        match ReadBody(rest, boundary, contentType)
        case None => None
        case Some(more) => Some([part] + more)
  }

  // --- it finds what was asked for

  lemma BehindLead(lead: string, t: string)
    ensures Behind(lead + t, lead) == Some(t)
  {
  }

  lemma FieldIsRead(offset: nat, length: nat, total: nat, t: string)
    requires length > 0 && t != "" && !IsDigit(t[0])
    ensures ReadField(ContentRangeField((offset, length), total) + t) == Some((offset, offset + length - 1, total, t))
  {
    hide Decimal, ReadDecimal, Behind;
    var last := offset + length - 1;
    var s5 := Decimal(total) + t;
    var s3 := Decimal(last) + ("/" + s5);
    var s1 := Decimal(offset) + ("-" + s3);
    assert ContentRangeField((offset, length), total) + t == "bytes " + s1;
    BehindLead("bytes ", s1);
    NumberInFront(offset, "-" + s3);
    BehindLead("-", s3);
    NumberInFront(last, "/" + s5);
    BehindLead("/", s5);
    NumberInFront(total, t);
  }

  function PartText(r: Range, boundary: string, contentType: string, body: string): string
    requires Inside(r, |body|)
  {
    PartHead(r, boundary, contentType, |body|) + body[r.first..r.last + 1] + CRLF
  }

  lemma HeadIsLead(r: Range, boundary: string, contentType: string, len: nat)
    requires Inside(r, len)
    ensures PartHead(r, boundary, contentType, len)
         == Lead(boundary, contentType) + (ContentRangeField((r.first, r.last - r.first + 1), len) + "\r\n\r\n")
  {
    hide ContentRangeField;
    var field := ContentRangeField((r.first, r.last - r.first + 1), len);
    assert CRLF + CRLF == "\r\n\r\n";
    assert Lead(boundary, contentType) + field + CRLF + CRLF == Lead(boundary, contentType) + (field + (CRLF + CRLF));
  }

  lemma PartInPieces(r: Range, boundary: string, contentType: string, body: string, rest: string)
    requires Inside(r, |body|)
    ensures var field := ContentRangeField((r.first, r.last - r.first + 1), |body|);
            PartText(r, boundary, contentType, body) + rest
            == Lead(boundary, contentType) + (field + ("\r\n\r\n" + (body[r.first..r.last + 1] + ("\r\n" + rest))))
  {
    HeadIsLead(r, boundary, contentType, |body|);
    hide ContentRangeField, Lead, PartHead;
    Pieces(Lead(boundary, contentType), ContentRangeField((r.first, r.last - r.first + 1), |body|), "\r\n\r\n",
           body[r.first..r.last + 1], CRLF, rest);
  }

  lemma Pieces(a: string, b: string, c: string, d: string, e: string, f: string)
    ensures a + (b + c) + d + e + f == a + (b + (c + (d + (e + f))))
  {
  }

  lemma PartIsRead(r: Range, boundary: string, contentType: string, body: string, rest: string)
    requires Inside(r, |body|)
    ensures ReadPart(PartText(r, boundary, contentType, body) + rest, boundary, contentType)
         == Some((Found(r.first, r.last, |body|, body[r.first..r.last + 1]), rest))
  {
    hide ContentRangeField, ReadField, Behind, Lead, PartHead, PartText;
    PartInPieces(r, boundary, contentType, body, rest);
    var field, bytes := ContentRangeField((r.first, r.last - r.first + 1), |body|), body[r.first..r.last + 1];
    var s3 := bytes + ("\r\n" + rest);
    var s2 := "\r\n\r\n" + s3;
    BehindLead(Lead(boundary, contentType), field + s2);
    FieldIsRead(r.first, r.last - r.first + 1, |body|, s2);
    BehindLead("\r\n\r\n", s3);
    TakeAndDrop(bytes, "\r\n" + rest);
    BehindLead("\r\n", rest);
  }

  lemma TakeAndDrop(x: string, y: string)
    ensures (x + y)[..|x|] == x && (x + y)[|x|..] == y
  {
  }

  lemma {:induction false} PartsCons(rs: seq<Range>, boundary: string, contentType: string, body: string)
    requires rs != [] && forall r | r in rs :: Inside(r, |body|)
    ensures Parts(rs, boundary, contentType, body)
         == PartText(rs[0], boundary, contentType, body) + Parts(rs[1..], boundary, contentType, body)
    decreases |rs|
  {
    hide PartText, Parts, Inside;
    PartsSnoc(rs, boundary, contentType, body);
    var n := |rs| - 1;
    if n == 0 {
      NoParts(boundary, contentType, body);
      assert rs[..0] == [] && rs[1..] == [];
    } else {
      var more := rs[1..];
      assert forall r | r in more :: r in rs;
      PartsCons(rs[..n], boundary, contentType, body);
      PartsSnoc(more, boundary, contentType, body);
      assert rs[..n][1..] == more[..n - 1] && more[n - 1] == rs[n] && rs[..n][0] == rs[0];
      Regroup(PartText(rs[0], boundary, contentType, body), Parts(more[..n - 1], boundary, contentType, body),
              PartText(rs[n], boundary, contentType, body));
    }
  }

  lemma PartsSnoc(rs: seq<Range>, boundary: string, contentType: string, body: string)
    requires rs != [] && forall r | r in rs :: Inside(r, |body|)
    ensures rs[0] in rs && rs[|rs| - 1] in rs && forall r | r in rs[..|rs| - 1] :: r in rs
    ensures Parts(rs, boundary, contentType, body)
         == Parts(rs[..|rs| - 1], boundary, contentType, body) + PartText(rs[|rs| - 1], boundary, contentType, body)
  {
    hide PartHead, Inside;
  }

  lemma NoParts(boundary: string, contentType: string, body: string)
    ensures Parts([], boundary, contentType, body) == ""
    ensures forall t: string :: "" + t == t && t + "" == t
  {
  }

  lemma NotTheEnd(r: Range, boundary: string, contentType: string, body: string, rest: string)
    requires Inside(r, |body|)
    ensures PartText(r, boundary, contentType, body) + rest != "--" + boundary + "--"
  {
    PartInPieces(r, boundary, contentType, body, rest);
    hide ContentRangeField, PartText;
    var s, t := PartText(r, boundary, contentType, body) + rest, "--" + boundary + "--";
    var lead := Lead(boundary, contentType);
    assert s[2 + |boundary|] == lead[2 + |boundary|] == '\r' && t[2 + |boundary|] == '-';
  }

  /** What the client asked for: each range with its positions, the size of the whole, and its bytes. */
  function Asked(rs: seq<Range>, body: string): seq<Found>
    requires forall r | r in rs :: Inside(r, |body|)
  {
    if rs == [] then []
    else
      assert rs[0] in rs && Inside(rs[0], |body|) && forall r | r in rs[1..] :: r in rs;
      [Found(rs[0].first, rs[0].last, |body|, body[rs[0].first..rs[0].last + 1])] + Asked(rs[1..], body)
  }

  /** The body of any ranges inside the content reads back, whatever the content holds: each part with the first and last
      position asked for, the size of the whole, and exactly the bytes from the one to the other, in order. */
  lemma {:induction false} BodyIsRead(rs: seq<Range>, boundary: string, contentType: string, body: string)
    requires forall r | r in rs :: Inside(r, |body|)
    ensures ReadBody(MultipartBody(rs, boundary, contentType, body), boundary, contentType) == Some(Asked(rs, body))
    decreases |rs|
  {
    hide PartText, ReadPart, Parts, Inside;
    var end := "--" + boundary + "--";
    if rs == [] {
      NoParts(boundary, contentType, body);
    } else {
      var r, more := rs[0], rs[1..];
      assert r in rs && forall q | q in more :: q in rs;
      PartsCons(rs, boundary, contentType, body);
      var rest := MultipartBody(more, boundary, contentType, body);
      Regroup(PartText(r, boundary, contentType, body), Parts(more, boundary, contentType, body), end);
      NotTheEnd(r, boundary, contentType, body, rest);
      PartIsRead(r, boundary, contentType, body, rest);
      BodyIsRead(more, boundary, contentType, body);
    }
  }
}
