/** Query strings: percent encoding, splitting, and the multimap they carry. Text is a sequence of bytes, kept in
    `char`s below 256. */
module Query {
  import opened Bytes
  import opened TextSearch

  // --- percent encoding

  predicate Unreserved(c: char) {
    'a' <= c <= 'z' || 'A' <= c <= 'Z' || '0' <= c <= '9' || c in "-_.!~*'()"
  }

  function HexUpper(n: nat): (c: char)
    requires n < 16
    ensures HexValue(c) == Some(n) && c != 'u'
  {
    "0123456789ABCDEF"[n]
  }

  function HexValue(c: char): Option<nat> {
    if '0' <= c <= '9' then Some((c - '0') as nat)
    else if 'A' <= c <= 'F' then Some((c - 'A') as nat + 10)
    else if 'a' <= c <= 'f' then Some((c - 'a') as nat + 10)
    else None
  }

  predicate ByteText(s: string) {
    forall c | c in s :: c as int < 256
  }

  function EncodeChar(c: char): string {
    if Unreserved(c) then [c]
    else ['%', HexUpper(c as int / 16 % 16), HexUpper(c as int % 16)]
  }

  function Encode(s: string): string {
    if s == "" then "" else EncodeChar(s[0]) + Encode(s[1..])
  }

  lemma {:induction false} EncodeAppend(s: string, c: char)
    ensures Encode(s + [c]) == Encode(s) + EncodeChar(c)
    decreases |s|
  {
    hide EncodeChar;
    if s == "" {
      assert s + [c] == [c];
      assert Encode([c]) == EncodeChar(c) + "";
    } else {
      EncodeAppend(s[1..], c);
      assert (s + [c])[1..] == s[1..] + [c] && (s + [c])[0] == s[0];
      Regroup(EncodeChar(s[0]), Encode(s[1..]), EncodeChar(c));
    }
  }

  method EncodeQueryParam(value: string) returns (escaped: string)
    requires ByteText(value)
    ensures escaped == Encode(value)
  {
    escaped := "";
    for i := 0 to |value|
      invariant escaped == Encode(value[..i])
    {
      var c := value[i];
      EncodeAppend(value[..i], c);
      assert value[..i + 1] == value[..i] + [c];
      if Unreserved(c) {
        escaped := escaped + [c];
      } else {
        var n := c as int;
        escaped := escaped + ['%', HexUpper(n / 16 % 16), HexUpper(n % 16)];
      }
    }
    assert value[..|value|] == value;
  }

  /** `count` hexadecimal digits at the front of `s`, continuing the number `v`. */
  function HexRun(s: string, count: nat, v: nat): Option<nat>
    decreases count
  {
    if count == 0 then Some(v)
    else if s == "" then None
    else
      match HexValue(s[0])
      case None => None
      case Some(d) => HexRun(s[1..], count - 1, v * 16 + d)
  }

  /** `from_hex_to_i`: it refuses an empty rest even when no digit is asked for. */
  function FromHex(s: string, count: nat): Option<nat> {
    if s == "" then None else HexRun(s, count, 0)
  }

  predicate IsHex(c: char) { HexValue(c).Some? }

  /** The digits are read exactly when there are so many of them. */
  lemma {:induction false} HexRunReads(s: string, count: nat, v: nat)
    ensures HexRun(s, count, v).Some? <==> count <= |s| && forall j | 0 <= j < count :: IsHex(s[j])
    decreases count
  {
    hide HexValue;
    if count > 0 && s != "" && IsHex(s[0]) {
      HexRunReads(s[1..], count - 1, v * 16 + HexValue(s[0]).value);
      assert forall j | 0 < j < count && j < |s| :: s[j] == s[1..][j - 1];
      if count <= |s| && forall j | 0 <= j < count :: IsHex(s[j]) {
        assert forall j | 0 <= j < count - 1 :: s[1..][j] == s[j + 1];
      }
    }
  }

  lemma {:induction false} HexRunBound(s: string, count: nat, v: nat, bound: nat)
    requires v < bound
    ensures HexRun(s, count, v).Some? ==> HexRun(s, count, v).value < bound * Pow16(count)
    decreases count
  {
    if count > 0 && s != "" && HexValue(s[0]).Some? {
      HexRunBound(s[1..], count - 1, v * 16 + HexValue(s[0]).value, bound * 16);
      assert bound * 16 * Pow16(count - 1) == bound * (16 * Pow16(count - 1)) by { MulAssoc(bound, 16, Pow16(count - 1)); }
    }
  }

  function Pow16(n: nat): nat {
    if n == 0 then 1 else 16 * Pow16(n - 1)
  }

  lemma MulAssoc(a: nat, b: nat, c: nat)
    ensures a * b * c == a * (b * c)
  {
  }

  lemma FromHexBound(two: string, four: string)
    ensures FromHex(two, 2).Some? ==> FromHex(two, 2).value < 0x100
    ensures FromHex(four, 4).Some? ==> FromHex(four, 4).value < 0x1_0000
  {
    hide HexRun;
    HexRunBound(two, 2, 0, 1);
    HexRunBound(four, 4, 0, 1);
    assert Pow16(4) == 0x1_0000 && Pow16(2) == 0x100 by { assert Pow16(1) == 16 && Pow16(3) == 4096; }
  }

  function Utf8(code: nat): string
    requires code < 0x1_0000
  {
    if code < 0x80 then [code as char]
    else if code < 0x800 then [(0xC0 + code / 0x40) as char, (0x80 + code % 0x40) as char]
    else if 0xD800 <= code < 0xE000 then ""
    else [(0xE0 + code / 0x1000) as char, (0x80 + code / 0x40 % 0x40) as char, (0x80 + code % 0x40) as char]
  }

  /** What stands for the front of `s`, and how many characters that takes. */
  function DecodeHead(s: string, plus: bool): (r: (string, nat))
    requires s != ""
    ensures 0 < r.1 <= |s|
  {
    if s[0] == '%' && |s| > 1 then
      if s[1] == 'u' then
        HexRunReads(s[2..], 4, 0);
        FromHexBound(s[1..], s[2..]);
        (match FromHex(s[2..], 4)
         case Some(v) => (Utf8(v), 6)
         case None => ([s[0]], 1))
      else
        HexRunReads(s[1..], 2, 0);
        FromHexBound(s[1..], s[1..]);
        (match FromHex(s[1..], 2)
         case Some(v) => ([v as char], 3)
         case None => ([s[0]], 1))
    else if plus && s[0] == '+' then (" ", 1)
    else ([s[0]], 1)
  }

  function Decode(s: string, plus: bool): string {
    if s == "" then ""
    else
      var (head, n) := DecodeHead(s, plus);
      head + Decode(s[n..], plus)
  }

  /** `from_hex_to_i`: the loop over `count` digits from `start`; behind the end stands a NUL. */
  method FromHexToI(s: string, start: nat, count: nat) returns (ok: bool, val: nat)
    ensures if start > |s| then !ok else FromHex(s[start..], count) == if ok then Some(val) else None
  {
    val := 0;
    if start >= |s| { return false, val; }
    var i, cnt := start, count;
    while cnt > 0
      invariant start <= i <= |s|
      invariant HexRun(s[start..], count, 0) == HexRun(s[i..], cnt, val)
    {
      if i == |s| || s[i] == '\0' { return false, val; }
      assert s[i..][1..] == s[i + 1..];
      match HexValue(s[i]) {
        case None => return false, val;
        case Some(v) => val := val * 16 + v;
      }
      i, cnt := i + 1, cnt - 1;
    }
    ok := true;
  }

  /** What the loop of `decode_url` finds at `i`. */
  lemma DecodeAt(s: string, plus: bool, i: nat)
    requires i < |s|
    ensures var (head, n) := DecodeHead(s[i..], plus);
            && i + n <= |s| && Decode(s[i..], plus) == head + Decode(s[i + n..], plus)
            && (s[i] == '%' && i + 1 < |s| && s[i + 1] == 'u' ==>
                  match FromHex(s[i + 2..], 4)
                  case Some(v) => v < 0x1_0000 && head == Utf8(v) && n == 6
                  case None => head == [s[i]] && n == 1)
            && (s[i] == '%' && i + 1 < |s| && s[i + 1] != 'u' ==>
                  match FromHex(s[i + 1..], 2)
                  case Some(v) => v < 0x100 && head == [v as char] && n == 3
                  case None => head == [s[i]] && n == 1)
            && (!(s[i] == '%' && i + 1 < |s|) ==> head == (if plus && s[i] == '+' then " " else [s[i]]) && n == 1)
  {
    hide HexRun, FromHex, Utf8;
    var t := s[i..];
    var (head, n) := DecodeHead(t, plus);
    assert t[n..] == s[i + n..] && t[0] == s[i];
    if i + 1 < |s| {
      assert t[1] == s[i + 1] && t[1..] == s[i + 1..] && t[2..] == s[i + 2..];
      FromHexBound(t[1..], t[2..]);
    }
  }

  method DecodeUrl(s: string, plus: bool) returns (result: string)
    ensures result == Decode(s, plus)
  {
    hide Decode, DecodeHead, FromHex, Utf8;
    result := "";
    var i := 0;
    assert s[0..] == s && "" + Decode(s, plus) == Decode(s, plus);
    while i < |s|
      invariant 0 <= i <= |s|
      invariant result + Decode(s[i..], plus) == Decode(s, plus)
      decreases |s| - i
    {
      ghost var (head, n) := DecodeHead(s[i..], plus);
      ghost var at, before := i, result;
      DecodeAt(s, plus, i);
      if s[i] == '%' && i + 1 < |s| {
        if s[i + 1] == 'u' {
          var ok, val := FromHexToI(s, i + 2, 4);
          if ok {
            result := result + Utf8(val);
            i := i + 5;
          } else {
            result := result + [s[i]];
          }
        } else {
          var ok, val := FromHexToI(s, i + 1, 2);
          if ok {
            result := result + [val as char];
            i := i + 2;
          } else {
            result := result + [s[i]];
          }
        }
      } else if plus && s[i] == '+' {
        result := result + " ";
      } else {
        result := result + [s[i]];
      }
      i := i + 1;
      assert i == at + n && result == before + head;
      Regroup(before, head, Decode(s[i..], plus));
    }
    NothingDecoded(s, plus);
    assert result + "" == result;
  }

  lemma NothingDecoded(s: string, plus: bool)
    ensures Decode(s[|s|..], plus) == ""
  {
  }

  lemma TwoHexDigits(hi: nat, lo: nat, t: string)
    requires hi < 16 && lo < 16
    ensures FromHex([HexUpper(hi), HexUpper(lo)] + t, 2) == Some(hi * 16 + lo)
  {
    hide HexValue;
    var w := [HexUpper(hi), HexUpper(lo)] + t;
    assert w[1..] == [HexUpper(lo)] + t && w[1..][1..] == t;
    assert HexRun(t, 0, hi * 16 + lo) == Some(hi * 16 + lo);
    assert HexRun(w[1..], 1, hi) == HexRun(t, 0, hi * 16 + lo);
    assert HexRun(w, 2, 0) == HexRun(w[1..], 1, 0 * 16 + hi);
  }

  lemma HeadOfPercent(c: char, hi: nat, lo: nat, t: string)
    requires c as int < 256 && hi == c as int / 16 && lo == c as int % 16
    ensures DecodeHead(['%', HexUpper(hi), HexUpper(lo)] + t, true) == ([c], 3)
  {
    hide HexRun, FromHex, Utf8, HexValue;
    var s := ['%', HexUpper(hi), HexUpper(lo)] + t;
    TwoHexDigits(hi, lo, t);
    assert s[1] == HexUpper(hi);
    assert s[1..] == [HexUpper(hi), HexUpper(lo)] + t;
  }

  lemma HeadOfPlain(c: char, t: string)
    requires c != '%' && c != '+'
    ensures DecodeHead([c] + t, true) == ([c], 1)
  {
    hide HexRun, FromHex, Utf8, HexValue;
    assert ([c] + t)[0] == c;
  }

  lemma DecodeUnfold(s: string, head: string, n: nat)
    requires s != "" && DecodeHead(s, true) == (head, n)
    ensures Decode(s, true) == head + Decode(s[n..], true)
  {
    hide DecodeHead;
  }

  lemma DecodeEncodedChar(c: char, t: string)
    requires c as int < 256
    ensures Decode(EncodeChar(c) + t, true) == [c] + Decode(t, true)
  {
    hide DecodeHead, Decode, HexValue;
    var s := EncodeChar(c) + t;
    if Unreserved(c) {
      HeadOfPlain(c, t);
      DecodeUnfold(s, [c], 1);
      assert s[1..] == t;
    } else {
      var n := c as int;
      assert n / 16 % 16 == n / 16;
      HeadOfPercent(c, n / 16, n % 16, t);
      DecodeUnfold(s, [c], 3);
      assert s[3..] == t;
    }
  }

  /** Percent encoding is undone for every byte string, whatever follows it. */
  lemma {:induction false} DecodeEncoded(v: string, t: string)
    requires ByteText(v)
    ensures Decode(Encode(v) + t, true) == v + Decode(t, true)
    decreases |v|
  {
    if v == "" {
      assert "" + t == t && "" + Decode(t, true) == Decode(t, true);
    } else {
      hide Decode, EncodeChar;
      assert v[0] in v && forall c | c in v[1..] :: c in v;
      DecodeEncoded(v[1..], t);
      DecodeEncodedChar(v[0], Encode(v[1..]) + t);
      Regroup(EncodeChar(v[0]), Encode(v[1..]), t);
      Regroup([v[0]], v[1..], Decode(t, true));
      assert v == [v[0]] + v[1..];
    }
  }

  // --- splitting

  predicate IsBlank(c: char) { c == ' ' || c == '\t' }

  function StripLeft(s: string): string {
    if s != "" && IsBlank(s[0]) then StripLeft(s[1..]) else s
  }

  function StripRight(s: string): string {
    if s != "" && IsBlank(s[|s| - 1]) then StripRight(s[..|s| - 1]) else s
  }

  function Strip(s: string): string { StripRight(StripLeft(s)) }

  /** The stretches of `s[beg..]` between delimiters, the scan having come to `i`. */
  function Segments(s: string, d: char, beg: nat, i: nat): seq<string>
    requires beg <= i <= |s|
    decreases |s| - i
  {
    if i == |s| then [s[beg..]]
    else if s[i] == d then [s[beg..i]] + Segments(s, d, i + 1, i + 1)
    else Segments(s, d, beg, i + 1)
  }

  /** The stretches without blanks around them, empty ones dropped. */
  function Pieces(segments: seq<string>): seq<string> {
    if segments == [] then []
    else (if Strip(segments[0]) == "" then [] else [Strip(segments[0])]) + Pieces(segments[1..])
  }

  lemma StripLeftAt(s: string, l: nat, right: nat)
    requires l <= right <= |s|
    ensures StripLeft(s[l..right]) == if l < right && IsBlank(s[l]) then StripLeft(s[l + 1..right]) else s[l..right]
  {
    if l < right { assert s[l..right][1..] == s[l + 1..right]; }
  }

  lemma StripRightAt(s: string, l: nat, r: nat)
    requires l <= r <= |s|
    ensures StripRight(s[l..r]) == if l < r && IsBlank(s[r - 1]) then StripRight(s[l..r - 1]) else s[l..r]
    ensures l == r ==> s[l..r] == ""
  {
    if l < r { assert s[l..r][..r - 1 - l] == s[l..r - 1]; }
  }

  /** The loops of `trim`: `left` moves right over blanks up to the end of the text, `right` moves left. */
  method Trim(s: string, left: nat, right: nat) returns (l: nat, r: nat)
    requires left <= right <= |s|
    ensures l <= |s| && r <= |s|
    ensures (if l < r then s[l..r] else "") == Strip(s[left..right])
  {
    hide StripLeft, StripRight, IsBlank;
    l, r := left, right;
    while l < |s| && IsBlank(s[l])
      invariant left <= l <= |s|
      invariant StripLeft(s[left..right]) == if l <= right then StripLeft(s[l..right]) else ""
    {
      if l <= right { StripLeftAt(s, l, right); }
      l := l + 1;
    }
    if l <= right { StripLeftAt(s, l, right); }
    ghost var core := if l <= right then s[l..right] else "";
    StripRightAt("", 0, 0);
    while r > 0 && IsBlank(s[r - 1])
      invariant r <= right
      invariant StripRight(core) == if l <= r then StripRight(s[l..r]) else ""
    {
      if l <= r { StripRightAt(s, l, r); }
      r := r - 1;
    }
    if l <= r { StripRightAt(s, l, r); }
  }

  method Split(s: string, d: char) returns (pieces: seq<string>)
    ensures pieces == Pieces(Segments(s, d, 0, 0))
  {
    hide Strip;
    pieces := [];
    var i, beg := 0, 0;
    while i < |s|
      invariant 0 <= beg <= i <= |s|
      invariant pieces + Pieces(Segments(s, d, beg, i)) == Pieces(Segments(s, d, 0, 0))
    {
      if s[i] == d {
        var l, r := Trim(s, beg, i);
        PiecesHead(pieces, s[beg..i], Segments(s, d, i + 1, i + 1));
        if l < r { pieces := pieces + [s[l..r]]; }
        beg := i + 1;
      }
      i := i + 1;
    }
    EmptyStrips();
    PiecesHead(pieces, s[beg..], []);
    assert s[beg..i] == s[beg..];
    if i > 0 {
      var l, r := Trim(s, beg, i);
      if l < r { pieces := pieces + [s[l..r]]; }
    }
  }

  lemma EmptyStrips()
    ensures Strip("") == "" && Pieces([]) == []
  {
  }

  lemma PiecesHead(done: seq<string>, seg: string, rest: seq<string>)
    ensures done + Pieces([seg] + rest) == (if Strip(seg) == "" then done else done + [Strip(seg)]) + Pieces(rest)
  {
    hide Strip;
    assert ([seg] + rest)[1..] == rest;
  }

  /** The text on both sides of the first `d`; all of it on the left when there is none. */
  function DivideAt(s: string, d: char): (string, string) {
    if s == "" then ("", "")
    else if s[0] == d then ("", s[1..])
    else var (l, r) := DivideAt(s[1..], d); ([s[0]] + l, r)
  }

  method Divide(s: string, d: char) returns (lhs: string, rhs: string)
    ensures (lhs, rhs) == DivideAt(s, d)
  {
    var it := 0;
    assert s[..0] == "" && s[0..] == s && "" + DivideAt(s, d).0 == DivideAt(s, d).0;
    while it < |s| && s[it] != d
      invariant 0 <= it <= |s|
      invariant DivideAt(s, d) == (s[..it] + DivideAt(s[it..], d).0, DivideAt(s[it..], d).1)
    {
      assert s[it..][1..] == s[it + 1..];
      assert s[..it] + ([s[it]] + DivideAt(s[it + 1..], d).0) == s[..it + 1] + DivideAt(s[it + 1..], d).0;
      it := it + 1;
    }
    var found := if it < |s| then 1 else 0;
    assert s[..it] + "" == s[..it];
    assert it < |s| ==> s[it..][1..] == s[it + 1..];
    lhs, rhs := s[..it], s[it + found..];
  }

  // --- the multimap

  datatype Param = Param(key: string, value: string)

  /** Byte-wise lexicographic order. */
  predicate LexLe(a: string, b: string) {
    a == "" || (b != "" && (a[0] < b[0] || (a[0] == b[0] && LexLe(a[1..], b[1..]))))
  }

  predicate Sorted(m: seq<Param>) {
    forall i, j :: 0 <= i < j < |m| ==> LexLe(m[i].key, m[j].key)
  }

  /** `multimap::emplace`: behind all entries whose key is not greater. */
  function Emplace(m: seq<Param>, p: Param): seq<Param> {
    if m != [] && LexLe(m[0].key, p.key) then [m[0]] + Emplace(m[1..], p) else [p] + m
  }

  // --- printing and parsing

  function PairText(p: Param): string {
    p.key + "=" + Encode(p.value)
  }

  function Print(m: seq<Param>): string {
    if m == [] then "" else if |m| == 1 then PairText(m[0]) else PairText(m[0]) + "&" + Print(m[1..])
  }

  lemma {:induction false} PrintAppend(m: seq<Param>, p: Param)
    requires m != []
    ensures Print(m + [p]) == Print(m) + "&" + PairText(p)
    decreases |m|
  {
    hide PairText;
    assert (m + [p])[1..] == m[1..] + [p] && (m + [p])[0] == m[0];
    if |m| == 1 {
      assert m[1..] + [p] == [p];
    } else {
      PrintAppend(m[1..], p);
      assert PairText(m[0]) + "&" + (Print(m[1..]) + "&" + PairText(p)) == PairText(m[0]) + "&" + Print(m[1..]) + "&" + PairText(p);
    }
  }

  lemma EmptyPrint()
    ensures Print([]) == ""
  {
  }

  lemma PrintLast(m: seq<Param>, p: Param)
    ensures Print(m + [p]) == (if m == [] then "" else Print(m) + "&") + PairText(p)
  {
    hide PairText;
    if m == [] {
      assert m + [p] == [p] && "" + PairText(p) == PairText(p);
    } else {
      PrintAppend(m, p);
    }
  }

  method ParamsToQueryStr(params: seq<Param>) returns (query: string)
    requires forall p | p in params :: ByteText(p.value)
    ensures query == Print(params)
  {
    hide Print;
    assert Print([]) == "" by { EmptyPrint(); }
    assert params[..0] == [];
    query := "";
    for i := 0 to |params|
      invariant query == Print(params[..i])
    {
      assert params[i] in params && params[..i + 1] == params[..i] + [params[i]];
      if i != 0 {
        query := query + "&";
      }
      ghost var before := query;
      query := query + params[i].key;
      query := query + "=";
      var value := EncodeQueryParam(params[i].value);
      query := query + value;
      assert query == before + PairText(params[i]);
      PrintLast(params[..i], params[i]);
    }
    assert params[..|params|] == params;
  }

  /** The parser's state: the multimap so far and the pieces already met. */
  datatype Parsed = Parsed(params: seq<Param>, cache: set<string>)

  function ParsePiece(st: Parsed, kv: string): Parsed {
    if kv in st.cache then st
    else
      var (key, val) := DivideAt(kv, '=');
      Parsed(if key == "" then st.params else Emplace(st.params, Param(Decode(key, true), Decode(val, true))), st.cache + {kv})
  }

  function ParsePieces(st: Parsed, pieces: seq<string>): Parsed
    decreases |pieces|
  {
    if pieces == [] then st else ParsePieces(ParsePiece(st, pieces[0]), pieces[1..])
  }

  function Parse(s: string): seq<Param> {
    ParsePieces(Parsed([], {}), Pieces(Segments(s, '&', 0, 0))).params
  }

  method EmplaceInto(m: seq<Param>, p: Param) returns (r: seq<Param>)
    ensures r == Emplace(m, p)
  {
    var i := 0;
    while i < |m| && LexLe(m[i].key, p.key)
      invariant 0 <= i <= |m|
      invariant Emplace(m, p) == m[..i] + Emplace(m[i..], p)
    {
      assert m[i..][1..] == m[i + 1..] && m[..i] + ([m[i]] + Emplace(m[i + 1..], p)) == m[..i + 1] + Emplace(m[i + 1..], p);
      i := i + 1;
    }
    r := m[..i] + [p] + m[i..];
  }

  method ParseQueryText(s: string) returns (params: seq<Param>)
    ensures params == Parse(s)
  {
    hide ParsePiece, Pieces, Segments;
    params := [];
    var cache: set<string> := {};
    var pieces := Split(s, '&');
    for i := 0 to |pieces|
      invariant ParsePieces(Parsed(params, cache), pieces[i..]).params == Parse(s)
    {
      assert pieces[i..][1..] == pieces[i + 1..];
      params, cache := ParseOne(params, cache, pieces[i]);
    }
  }

  method ParseOne(params: seq<Param>, cache: set<string>, kv: string) returns (params': seq<Param>, cache': set<string>)
    ensures Parsed(params', cache') == ParsePiece(Parsed(params, cache), kv)
  {
    params', cache' := params, cache;
    if kv in cache { return; }
    cache' := cache + {kv};
    var key, val := Divide(kv, '=');
    if key != "" {
      var k := DecodeUrl(key, true);
      var v := DecodeUrl(val, true);
      params' := EmplaceInto(params, Param(k, v));
    }
  }

  // --- the parsed multimap is ordered

  lemma {:induction false} LexOrder(a: string, b: string, c: string)
    ensures LexLe(a, b) || LexLe(b, a)
    ensures LexLe(a, b) && LexLe(b, c) ==> LexLe(a, c)
    decreases |a|
  {
    if a != "" && b != "" {
      LexOrder(a[1..], b[1..], if c == "" then "" else c[1..]);
    }
  }

  lemma {:induction false} EmplaceAdds(m: seq<Param>, p: Param)
    ensures multiset(Emplace(m, p)) == multiset(m) + multiset{p}
    decreases |m|
  {
    hide LexLe;
    if m != [] {
      assert m == [m[0]] + m[1..];
      EmplaceAdds(m[1..], p);
    }
  }

  ghost predicate AllFrom(k: string, m: seq<Param>) {
    forall q | q in m :: LexLe(k, q.key)
  }

  lemma SortedCons(q: Param, m: seq<Param>)
    ensures Sorted([q] + m) <==> AllFrom(q.key, m) && Sorted(m)
  {
    hide LexLe;
    var s := [q] + m;
    if Sorted(s) {
      forall p | p in m ensures LexLe(q.key, p.key) {
        var j :| 0 <= j < |m| && m[j] == p;
        assert s[0] == q && s[j + 1] == p;
      }
      forall i, j | 0 <= i < j < |m| ensures LexLe(m[i].key, m[j].key) {
        assert s[i + 1] == m[i] && s[j + 1] == m[j];
      }
    }
    if AllFrom(q.key, m) && Sorted(m) {
      forall i, j | 0 <= i < j < |s| ensures LexLe(s[i].key, s[j].key) {
        assert s[j] == m[j - 1] && m[j - 1] in m;
        if i > 0 { assert s[i] == m[i - 1]; }
      }
    }
  }

  lemma {:induction false} EmplaceKeeps(m: seq<Param>, p: Param)
    requires Sorted(m)
    ensures Sorted(Emplace(m, p))
    decreases |m|
  {
    hide LexLe, Sorted;
    if m != [] {
      var rest := m[1..];
      assert m == [m[0]] + rest;
      SortedCons(m[0], rest);
      LexOrder(m[0].key, p.key, p.key);
      if LexLe(m[0].key, p.key) {
        EmplaceKeeps(rest, p);
        EmplaceAdds(rest, p);
        assert forall q | q in Emplace(rest, p) :: q in multiset(Emplace(rest, p));
        SortedCons(m[0], Emplace(rest, p));
      } else {
        forall q | q in m ensures LexLe(p.key, q.key) { LexOrder(p.key, m[0].key, q.key); LexOrder(p.key, p.key, p.key); }
        SortedCons(p, m);
      }
    } else {
      SortedSingle(p);
      assert [p] + m == [p];
    }
  }

  lemma SortedSingle(p: Param)
    ensures Sorted([p])
  {
  }

  lemma {:induction false} PiecesKeepSorted(st: Parsed, pieces: seq<string>)
    requires Sorted(st.params)
    ensures Sorted(ParsePieces(st, pieces).params)
    decreases |pieces|
  {
    hide Sorted, Emplace, Decode, DivideAt;
    if pieces != [] {
      var (key, val) := DivideAt(pieces[0], '=');
      EmplaceKeeps(st.params, Param(Decode(key, true), Decode(val, true)));
      PiecesKeepSorted(ParsePiece(st, pieces[0]), pieces[1..]);
    }
  }

  /** Whatever text is parsed, the multimap stays ordered by key. */
  lemma ParsedIsSorted(s: string)
    ensures Sorted(Parse(s))
  {
    PiecesKeepSorted(Parsed([], {}), Pieces(Segments(s, '&', 0, 0)));
  }

  // --- round trip

  /** At `i` stands a percent sign with hexadecimal digits behind it: two, or four behind a `u`. */
  predicate Escapes(k: string, i: nat) {
    && i + 2 < |k| && k[i] == '%'
    && if k[i + 1] == 'u' then i + 5 < |k| && IsHex(k[i + 2]) && IsHex(k[i + 3]) && IsHex(k[i + 4]) && IsHex(k[i + 5])
       else IsHex(k[i + 1]) && IsHex(k[i + 2])
  }

  /** The text holds nothing that decoding would change. */
  predicate Literal(k: string) {
    '+' !in k && forall i | 0 <= i < |k| :: !Escapes(k, i)
  }

  /** A key that survives, keys being printed as they are: it begins with something that is no blank, holds no separator, and
      nothing that stands for something else. */
  predicate KeyOk(k: string) {
    k != "" && !IsBlank(k[0]) && '&' !in k && '=' !in k && Literal(k)
  }

  ghost predicate ParamOk(p: Param) {
    KeyOk(p.key) && ByteText(p.value)
  }

  lemma {:induction false} EncodedChars(v: string)
    requires ByteText(v)
    ensures forall c | c in Encode(v) :: Unreserved(c) || c == '%'
  {
    if v != "" {
      assert v[0] in v && forall c | c in v[1..] :: c in v;
      EncodedChars(v[1..]);
      var n := v[0] as int;
      HexUpperUnreserved(n / 16 % 16);
      HexUpperUnreserved(n % 16);
    }
  }

  lemma HexUpperUnreserved(n: nat)
    requires n < 16
    ensures Unreserved(HexUpper(n))
  {
  }

  /** The front of the text stands for itself unless it is a plus sign or an escape. */
  lemma HeadIsLiteral(s: string)
    requires s != ""
    ensures DecodeHead(s, true) == ([s[0]], 1) <==> s[0] != '+' && !Escapes(s, 0)
  {
    hide HexValue, Utf8, IsHex;
    if s[0] == '%' && |s| > 1 {
      var w := s[if s[1] == 'u' then 2 else 1..];
      HexRunReads(w, if s[1] == 'u' then 4 else 2, 0);
      hide HexRun;
      assert |w| > 1 ==> w[0] == s[|s| - |w|] && w[1] == s[|s| - |w| + 1];
      assert |w| > 3 ==> w[2] == s[|s| - |w| + 2] && w[3] == s[|s| - |w| + 3];
    }
  }

  lemma LiteralStep(s: string)
    requires s != ""
    ensures Literal(s) <==> s[0] != '+' && !Escapes(s, 0) && Literal(s[1..])
  {
    var t := s[1..];
    assert s == [s[0]] + t;
    forall i | 0 <= i < |t| ensures Escapes(t, i) <==> Escapes(s, i + 1) {
    }
    if Literal(t) && !Escapes(s, 0) {
      forall i | 0 <= i < |s| ensures !Escapes(s, i) {
        if i > 0 { assert !Escapes(t, i - 1); }
      }
    }
  }

  lemma {:induction false} LiteralDecodes(k: string)
    requires Literal(k)
    ensures Decode(k, true) == k
  {
    if k != "" {
      hide DecodeHead, Escapes, Literal;
      LiteralStep(k);
      HeadIsLiteral(k);
      LiteralDecodes(k[1..]);
      assert k == [k[0]] + k[1..];
    }
  }

  /** A key of ordinary characters is such a key. */
  lemma PlainKeyOk(k: string)
    requires k != "" && !IsBlank(k[0]) && forall c | c in k :: c !in "&=%+"
    ensures KeyOk(k)
  {
    forall i | 0 <= i < |k| ensures !Escapes(k, i) {
      assert k[i] in k;
    }
  }

  lemma {:induction false} DivideFirst(k: string, d: char, t: string)
    requires d !in k
    ensures DivideAt(k + [d] + t, d) == (k, t)
    decreases |k|
  {
    var s := k + [d] + t;
    if k == "" {
      assert s[0] == d && s[1..] == t;
    } else {
      assert k[0] in k && forall c | c in k[1..] :: c in k;
      assert s[0] == k[0] && s[1..] == k[1..] + [d] + t;
      DivideFirst(k[1..], d, t);
      assert k == [k[0]] + k[1..];
    }
  }

  lemma NothingToStrip(t: string)
    requires t != "" && !IsBlank(t[0]) && !IsBlank(t[|t| - 1])
    ensures Strip(t) == t
  {
  }

  lemma EncodedIsClean(v: string)
    requires ByteText(v)
    ensures forall c | c in Encode(v) :: c != '&' && !IsBlank(c)
  {
    hide Encode;
    EncodedChars(v);
  }

  /** A printed pair is one piece: no separator inside and no blank at either end. */
  lemma PairTextIsPiece(p: Param)
    requires ParamOk(p)
    ensures '&' !in PairText(p) && PairText(p) != "" && Strip(PairText(p)) == PairText(p)
  {
    hide Encode, Strip, IsBlank, ByteText, Decode;
    var e := Encode(p.value);
    var t := p.key + "=" + e;
    EncodedIsClean(p.value);
    assert t[0] == p.key[0];
    assert !IsBlank('=') by { PlainSign(); }
    assert t[|t| - 1] == if e == "" then '=' else e[|e| - 1];
    NothingToStrip(t);
  }

  lemma PlainSign()
    ensures !IsBlank('=')
  {
  }

  lemma PairTextParses(p: Param)
    requires ParamOk(p)
    ensures DivideAt(PairText(p), '=') == (p.key, Encode(p.value))
    ensures Decode(p.key, true) == p.key && Decode(Encode(p.value), true) == p.value
  {
    assert '=' !in p.key;
    DivideFirst(p.key, '=', Encode(p.value));
    DecodeEncoded(p.value, "");
    LiteralDecodes(p.key);
    assert Decode("", true) == "" && p.value + "" == p.value && Encode(p.value) + "" == Encode(p.value);
  }

  /** Different pairs print differently. */
  lemma PairTextInjective(p: Param, q: Param)
    requires ParamOk(p) && ParamOk(q) && PairText(p) == PairText(q)
    ensures p == q
  {
    PairTextParses(p);
    PairTextParses(q);
  }

  /** The stretches of `s` between delimiters, said without positions. */
  function Cuts(s: string, d: char): (cs: seq<string>)
    ensures cs != []
  {
    if s == "" then [""]
    else
      var cs := Cuts(s[1..], d);
      if s[0] == d then [""] + cs else [[s[0]] + cs[0]] + cs[1..]
  }

  lemma CutHere(part: string, none: string, cs: seq<string>)
    requires cs != [] && none == ""
    ensures [part + ([""] + cs)[0]] + ([""] + cs)[1..] == [part] + ([none + cs[0]] + cs[1..])
  {
    assert ([""] + cs)[1..] == cs && part + "" == part && none + cs[0] == cs[0];
  }

  lemma CutLater(part: string, c: char, cs: seq<string>)
    requires cs != []
    ensures var cs' := [[c] + cs[0]] + cs[1..]; [part + cs'[0]] + cs'[1..] == [part + [c] + cs[0]] + cs[1..]
  {
    Regroup(part, [c], cs[0]);
    assert ([[c] + cs[0]] + cs[1..])[1..] == cs[1..];
  }

  lemma {:induction false} SegmentsAreCuts(s: string, d: char, beg: nat, i: nat)
    requires beg <= i <= |s|
    ensures var cs := Cuts(s[i..], d); Segments(s, d, beg, i) == [s[beg..i] + cs[0]] + cs[1..]
    decreases |s| - i
  {
    if i == |s| {
      assert s[beg..i] + "" == s[beg..] && [""][1..] == [];
    } else {
      var cs := Cuts(s[i + 1..], d);
      assert s[i..] == [s[i]] + s[i + 1..];
      CutsStep(s[i], s[i + 1..], d);
      SegmentsAreCuts(s, d, if s[i] == d then i + 1 else beg, i + 1);
      hide Cuts;
      if s[i] == d {
        CutHere(s[beg..i], s[i + 1..i + 1], cs);
      } else {
        assert s[beg..i + 1] == s[beg..i] + [s[i]];
        CutLater(s[beg..i], s[i], cs);
      }
    }
  }

  lemma CutsStep(c: char, s: string, d: char)
    ensures Cuts([c] + s, d) == if c == d then [""] + Cuts(s, d) else [[c] + Cuts(s, d)[0]] + Cuts(s, d)[1..]
  {
    assert ([c] + s)[0] == c && ([c] + s)[1..] == s;
  }

  /** A delimiter separates what stands on its two sides. */
  lemma {:induction false} CutsAtDelimiter(a: string, d: char, b: string)
    ensures Cuts(a + [d] + b, d) == Cuts(a, d) + Cuts(b, d)
    decreases |a|
  {
    if a == "" {
      CutsStep(d, b, d);
      assert "" + [d] + b == [d] + b;
    } else {
      hide Cuts;
      var c, more := a[0], a[1..];
      CutsAtDelimiter(more, d, b);
      assert a == [c] + more && a + [d] + b == [c] + (more + [d] + b);
      CutsStep(c, more + [d] + b, d);
      CutsStep(c, more, d);
      CutsGlue(c, Cuts(more, d), Cuts(b, d));
      Regroup([""], Cuts(more, d), Cuts(b, d));
    }
  }

  lemma CutsGlue(c: char, x: seq<string>, y: seq<string>)
    requires x != []
    ensures [[c] + (x + y)[0]] + (x + y)[1..] == [[c] + x[0]] + x[1..] + y
  {
    assert (x + y)[0] == x[0] && (x + y)[1..] == x[1..] + y;
  }

  lemma {:induction false} CutsWhole(s: string, d: char)
    requires d !in s
    ensures Cuts(s, d) == [s]
    decreases |s|
  {
    if s != "" {
      assert s[0] in s && forall c | c in s[1..] :: c in s;
      CutsWhole(s[1..], d);
      assert [s[0]] + s[1..] == s && [s[1..]][1..] == [];
    }
  }

  function PairTexts(m: seq<Param>): seq<string> {
    if m == [] then [] else [PairText(m[0])] + PairTexts(m[1..])
  }

  /** Splitting the printed text gives the printed pairs. */
  lemma {:induction false} PrintedCuts(m: seq<Param>)
    requires m != [] && forall p | p in m :: ParamOk(p)
    ensures Cuts(Print(m), '&') == PairTexts(m)
    decreases |m|
  {
    hide PairText, ParamOk, Cuts;
    assert m[0] in m;
    PairTextIsPiece(m[0]);
    CutsWhole(PairText(m[0]), '&');
    if |m| == 1 {
      assert PairTexts(m[1..]) == [];
    } else {
      assert forall p | p in m[1..] :: p in m;
      PrintedCuts(m[1..]);
      CutsAtDelimiter(PairText(m[0]), '&', Print(m[1..]));
    }
  }

  lemma {:induction false} PairTextsAsPieces(m: seq<Param>)
    requires forall p | p in m :: ParamOk(p)
    ensures Pieces(PairTexts(m)) == PairTexts(m)
  {
    hide PairText, Strip, ParamOk;
    if m != [] {
      assert m[0] in m && forall p | p in m[1..] :: p in m;
      PairTextIsPiece(m[0]);
      PairTextsAsPieces(m[1..]);
      assert PairTexts(m)[1..] == PairTexts(m[1..]);
    }
  }

  lemma AllSegments(s: string)
    ensures Segments(s, '&', 0, 0) == Cuts(s, '&')
  {
    SegmentsAreCuts(s, '&', 0, 0);
    var cs := Cuts(s, '&');
    assert s[0..] == s && s[0..0] + cs[0] == cs[0] && [cs[0]] + cs[1..] == cs;
  }

  lemma PrintedPieces(m: seq<Param>)
    requires forall p | p in m :: ParamOk(p)
    ensures Pieces(Segments(Print(m), '&', 0, 0)) == PairTexts(m)
  {
    hide ParamOk, Print, Cuts;
    AllSegments(Print(m));
    if m == [] {
      NothingPrinted();
    } else {
      PrintedCuts(m);
      PairTextsAsPieces(m);
    }
  }

  lemma NothingPrinted()
    ensures Print([]) == "" && Pieces(Cuts("", '&')) == []
  {
    assert Strip("") == "" && [""][1..] == [];
  }

  /** The entries of `m`, those already in `seen` or met before left out. */
  function Dedup(seen: seq<Param>, m: seq<Param>): seq<Param>
    decreases |m|
  {
    if m == [] then []
    else if m[0] in seen then Dedup(seen, m[1..])
    else [m[0]] + Dedup(seen + [m[0]], m[1..])
  }

  lemma {:induction false} EmplaceLast(m: seq<Param>, p: Param)
    requires forall q | q in m :: LexLe(q.key, p.key)
    ensures Emplace(m, p) == m + [p]
  {
    if m != [] {
      assert m[0] in m && forall q | q in m[1..] :: q in m;
      EmplaceLast(m[1..], p);
      assert m == [m[0]] + m[1..];
    }
  }

  /** The parser's state once the pairs `done` are in the multimap. */
  ghost function Having(done: seq<Param>): Parsed {
    Parsed(done, set q | q in done :: PairText(q))
  }

  lemma SeenPiece(done: seq<Param>, p: Param)
    requires p in done
    ensures ParsePiece(Having(done), PairText(p)) == Having(done)
  {
    hide PairText, Decode, DivideAt, Emplace;
    assert PairText(p) in Having(done).cache;
  }

  lemma NewPiece(done: seq<Param>, p: Param)
    requires forall q | q in done :: ParamOk(q) && LexLe(q.key, p.key)
    requires ParamOk(p) && p !in done
    ensures ParsePiece(Having(done), PairText(p)) == Having(done + [p])
  {
    hide PairText, Decode, DivideAt, Emplace, LexLe, Encode;
    if PairText(p) in Having(done).cache {
      var q :| q in done && PairText(q) == PairText(p);
      PairTextInjective(p, q);
    }
    PairTextParses(p);
    EmplaceLast(done, p);
    KeyNotEmpty(p);
    assert Having(done + [p]).cache == Having(done).cache + {PairText(p)};
  }

  /** What `m` printed still has to find: it belongs behind `done`. */
  ghost predicate Behind(done: seq<Param>, m: seq<Param>) {
    && (forall p | p in done + m :: ParamOk(p))
    && (forall q, p | q in done && p in m :: LexLe(q.key, p.key))
    && Sorted(m)
  }

  lemma BehindStep(done: seq<Param>, m: seq<Param>)
    requires m != [] && Behind(done, m)
    ensures Behind(done, m[1..]) && Behind(done + [m[0]], m[1..])
    ensures ParamOk(m[0]) && forall q | q in done :: ParamOk(q) && LexLe(q.key, m[0].key)
  {
    hide LexLe, ParamOk;
    var p, rest := m[0], m[1..];
    assert forall q | q in done :: q in done + m;
    assert p in m && p in done + m && forall q | q in rest :: q in m && q in done + m;
    forall q, r | q in done + [p] && r in rest ensures LexLe(q.key, r.key) {
      var j :| 0 <= j < |rest| && rest[j] == r;
      assert m[j + 1] == r && r in m;
      if q !in done { assert q == m[0]; }
    }
    forall q | q in done + [p] + rest ensures ParamOk(q) { assert q in done + m; }
    forall i, j | 0 <= i < j < |rest| ensures LexLe(rest[i].key, rest[j].key) {
      assert rest[i] == m[i + 1] && rest[j] == m[j + 1];
    }
  }

  /** Parsing printed pairs behind what has been parsed appends exactly the new ones. */
  lemma {:induction false} PairTextsParse(done: seq<Param>, m: seq<Param>)
    requires Behind(done, m)
    ensures ParsePieces(Having(done), PairTexts(m)).params == done + Dedup(done, m)
    decreases |m|
  {
    hide PairText, LexLe, ParamOk, ParsePiece, Having, Behind;
    if m == [] {
      EmptyHaving(done);
      assert done + [] == done;
    } else {
      var p, rest := m[0], m[1..];
      assert PairTexts(m)[1..] == PairTexts(rest) && PairTexts(m)[0] == PairText(p);
      BehindStep(done, m);
      if p in done {
        SeenPiece(done, p);
        PairTextsParse(done, rest);
      } else {
        NewPiece(done, p);
        PairTextsParse(done + [p], rest);
        Regroup(done, [p], Dedup(done + [p], rest));
      }
    }
  }

  lemma EmptyHaving(done: seq<Param>)
    ensures Having(done).params == done
  {
  }

  lemma KeyNotEmpty(p: Param)
    requires ParamOk(p)
    ensures p.key != ""
  {
  }

  predicate NoRepeats(m: seq<Param>) {
    forall i, j :: 0 <= i < j < |m| ==> m[i] != m[j]
  }

  lemma {:induction false} DedupLength(seen: seq<Param>, m: seq<Param>)
    ensures |Dedup(seen, m)| <= |m|
    ensures Dedup(seen, m) == m <==> NoRepeats(m) && forall p | p in m :: p !in seen
    decreases |m|
  {
    if m != [] {
      var p, rest := m[0], m[1..];
      assert m == [p] + rest;
      if p in seen {
        DedupLength(seen, rest);
        assert p in m;
      } else {
        DedupLength(seen + [p], rest);
        assert Dedup(seen, m) == m <==> Dedup(seen + [p], rest) == rest;
        if NoRepeats(m) && forall q | q in m :: q !in seen {
          forall q | q in rest ensures q !in seen + [p] {
            var j :| 0 <= j < |rest| && rest[j] == q;
            assert m[0] != m[j + 1] && q in m;
          }
        }
        if NoRepeats(rest) && forall q | q in rest :: q !in seen + [p] {
          forall i, j | 0 <= i < j < |m| ensures m[i] != m[j] {
            assert m[j] == rest[j - 1] && rest[j - 1] in rest;
            if i > 0 { assert m[i] == rest[i - 1]; }
          }
          forall q | q in m ensures q !in seen { assert q == p || q in rest; }
        }
      }
    }
  }

  /** Round trip: when every key means itself, parsing a printed multimap gives it back with repeated pairs dropped. */
  lemma QueryRoundTrip(m: seq<Param>)
    requires Sorted(m) && forall p | p in m :: ParamOk(p)
    ensures Parse(Print(m)) == Dedup([], m)
    ensures Parse(Print(m)) == m <==> NoRepeats(m)
  {
    hide ParamOk, Print, Pieces, Segments, PairText;
    PrintedPieces(m);
    assert [] + m == m;
    assert Having([]) == Parsed([], {});
    PairTextsParse([], m);
    assert [] + Dedup([], m) == Dedup([], m);
    DedupLength([], m);
  }
}
