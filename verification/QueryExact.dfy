/** Which multimaps survive being printed as a query string and parsed again: exactly those below. */
module QueryExact {
  import opened Query

  // --- a weight that parsing never raises

  /** What is decoded weighs less than what stands for it, and what is taken apart less than the whole. */
  function Heft(c: char): nat {
    if c == '%' then 4 else if c == '&' then 3 else if c == '+' then 2 else 1
  }

  function Weight(s: string): nat {
    if s == "" then 0 else Heft(s[0]) + Weight(s[1..])
  }

  lemma {:induction false} WeightConcat(a: string, b: string)
    ensures Weight(a + b) == Weight(a) + Weight(b)
    decreases |a|
  {
    if a == "" {
      assert a + b == b;
    } else {
      WeightConcat(a[1..], b);
      assert (a + b)[1..] == a[1..] + b && (a + b)[0] == a[0];
    }
  }

  lemma {:induction false} WeightBound(s: string)
    ensures |s| <= Weight(s) <= 4 * |s|
    ensures (forall c | c in s :: Heft(c) == 1) ==> Weight(s) == |s|
    decreases |s|
  {
    if s != "" {
      WeightBound(s[1..]);
      assert s[0] in s && forall c | c in s[1..] :: c in s;
    }
  }

  lemma WeightOne(c: char)
    ensures Weight([c]) == Heft(c)
  {
    assert [c][1..] == "";
  }

  lemma Utf8Weight(code: nat)
    requires code < 0x1_0000
    ensures Weight(Utf8(code)) <= 4
  {
    var u := Utf8(code);
    WeightBound(u);
    if code >= 0x80 {
      assert forall c | c in u :: c as int >= 0x80;
      assert forall c | c in u :: Heft(c) == 1;
    }
  }

  /** What stands for the front of `s` weighs no more than the front, and the same only when it is the front. */
  lemma HeadWeight(s: string)
    requires s != ""
    ensures var (head, n) := DecodeHead(s, true);
            Weight(head) <= Weight(s[..n]) && (head == s[..n] || Weight(head) < Weight(s[..n]))
  {
    hide HexRun, FromHex, Weight, Utf8;
    var (head, n) := DecodeHead(s, true);
    if n == 1 {
      assert s[..1] == [s[0]];
      WeightOne(s[0]);
      WeightOne(' ');
    } else {
      assert s[0] == '%' && s[..n] == ['%'] + s[1..n];
      WeightOne('%');
      WeightConcat(['%'], s[1..n]);
      WeightBound(s[1..n]);
      if n == 6 {
        LongEscape(s);
      } else {
        WeightOne(head[0]);
      }
    }
  }

  lemma LongEscape(s: string)
    requires s != "" && DecodeHead(s, true).1 == 6
    ensures Weight(DecodeHead(s, true).0) <= 4
  {
    hide Weight, Utf8, HexRun;
    FromHexBound(s[1..], s[2..]);
    Utf8Weight(FromHex(s[2..], 4).value);
  }

  /** Decoding never adds weight, and takes some away unless it changes nothing. */
  lemma {:induction false} DecodeWeight(s: string)
    ensures Weight(Decode(s, true)) <= Weight(s)
    ensures Decode(s, true) == s || Weight(Decode(s, true)) < Weight(s)
    decreases |s|
  {
    hide DecodeHead, Weight;
    if s != "" {
      var (head, n) := DecodeHead(s, true);
      HeadWeight(s);
      DecodeWeight(s[n..]);
      WeightConcat(head, Decode(s[n..], true));
      WeightConcat(s[..n], s[n..]);
      assert s == s[..n] + s[n..];
    }
  }

  /** Decoding leaves a text as it is exactly when it holds no plus sign and no escape. */
  lemma {:induction false} UnchangedExactly(s: string)
    ensures Decode(s, true) == s <==> Literal(s)
    decreases |s|
  {
    hide DecodeHead, Weight, Escapes, Literal;
    if Literal(s) { LiteralDecodes(s); }
    if s == "" {
      NothingIsLiteral();
    } else if Decode(s, true) == s {
      var (head, n) := DecodeHead(s, true);
      HeadWeight(s);
      DecodeWeight(s[n..]);
      WeightConcat(head, Decode(s[n..], true));
      WeightConcat(s[..n], s[n..]);
      assert s == s[..n] + s[n..] && head == s[..n];
      SameHead(s);
      HeadIsLiteral(s);
      UnchangedExactly(s[1..]);
      LiteralStep(s);
    }
  }

  lemma NothingIsLiteral()
    ensures Literal("")
  {
  }

  /** An escape is longer than what it stands for. */
  lemma SameHead(s: string)
    requires s != "" && DecodeHead(s, true).0 == s[..DecodeHead(s, true).1]
    ensures DecodeHead(s, true) == ([s[0]], 1)
  {
    hide HexRun, FromHex;
    var (head, n) := DecodeHead(s, true);
    assert |head| == n;
    assert s[..1] == [s[0]];
  }

  // --- the weight of what is parsed

  /** What a piece of text adds to the multimap. */
  function PieceValue(piece: string): nat {
    var key := DivideAt(piece, '=').0;
    if key == "" then 0 else Weight(Decode(key, true)) + 1
  }

  function Sum(pieces: seq<string>): nat {
    if pieces == [] then 0 else PieceValue(pieces[0]) + Sum(pieces[1..])
  }

  /** The same for the stretches between separators, blanks still on. */
  function SumStripped(segments: seq<string>): nat {
    if segments == [] then 0 else PieceValue(Strip(segments[0])) + SumStripped(segments[1..])
  }

  function Total(m: seq<Param>): nat {
    if m == [] then 0 else Weight(m[0].key) + 1 + Total(m[1..])
  }

  lemma {:induction false} SumOfPieces(segments: seq<string>)
    ensures Sum(Pieces(segments)) == SumStripped(segments)
    decreases |segments|
  {
    hide Strip, PieceValue;
    if segments != [] {
      SumOfPieces(segments[1..]);
      var t := Strip(segments[0]);
      assert PieceValue("") == 0 by { NoValue(); }
      assert ([t] + Pieces(segments[1..]))[1..] == Pieces(segments[1..]);
      assert [] + Pieces(segments[1..]) == Pieces(segments[1..]);
    }
  }

  lemma NoValue()
    ensures PieceValue("") == 0
  {
  }

  lemma {:induction false} SumStrippedConcat(xs: seq<string>, ys: seq<string>)
    ensures SumStripped(xs + ys) == SumStripped(xs) + SumStripped(ys)
    decreases |xs|
  {
    hide Strip, PieceValue;
    if xs == [] {
      assert xs + ys == ys;
    } else {
      SumStrippedConcat(xs[1..], ys);
      assert (xs + ys)[1..] == xs[1..] + ys && (xs + ys)[0] == xs[0];
    }
  }

  lemma {:induction false} EmplaceTotal(m: seq<Param>, p: Param)
    ensures Total(Emplace(m, p)) == Total(m) + Weight(p.key) + 1
    decreases |m|
  {
    hide LexLe, Weight;
    if m != [] && LexLe(m[0].key, p.key) {
      EmplaceTotal(m[1..], p);
      assert ([m[0]] + Emplace(m[1..], p))[1..] == Emplace(m[1..], p);
    } else {
      assert ([p] + m)[1..] == m;
    }
  }

  lemma {:induction false} ParsedTotal(st: Parsed, pieces: seq<string>)
    ensures Total(ParsePieces(st, pieces).params) <= Total(st.params) + Sum(pieces)
    decreases |pieces|
  {
    hide Emplace, Decode, DivideAt, Weight, Total;
    if pieces != [] {
      var (key, val) := DivideAt(pieces[0], '=');
      EmplaceTotal(st.params, Param(Decode(key, true), Decode(val, true)));
      ParsedTotal(ParsePiece(st, pieces[0]), pieces[1..]);
    }
  }

  // --- one printed pair

  lemma {:induction false} StripLeftWeight(s: string)
    ensures Weight(StripLeft(s)) <= Weight(s) && (StripLeft(s) == s || Weight(StripLeft(s)) < Weight(s))
    ensures s != "" && IsBlank(s[0]) ==> StripLeft(s) != s
    ensures StripLeft(s) == "" || !IsBlank(StripLeft(s)[0])
    decreases |s|
  {
    if s != "" && IsBlank(s[0]) { StripLeftWeight(s[1..]); }
  }

  lemma {:induction false} StripRightWeight(s: string)
    ensures Weight(StripRight(s)) <= Weight(s)
    decreases |s|
  {
    if s != "" && IsBlank(s[|s| - 1]) {
      StripRightWeight(s[..|s| - 1]);
      assert s == s[..|s| - 1] + [s[|s| - 1]];
      WeightConcat(s[..|s| - 1], [s[|s| - 1]]);
    }
  }

  lemma {:induction false} DivideWeight(s: string, d: char)
    ensures Weight(DivideAt(s, d).0) <= Weight(s)
    ensures d in s ==> Weight(DivideAt(s, d).0) < Weight(s)
    ensures d !in s ==> DivideAt(s, d).0 == s
    decreases |s|
  {
    if s != "" {
      DivideWeight(s[1..], d);
      assert s == [s[0]] + s[1..];
      if s[0] != d {
        var l := DivideAt(s[1..], d).0;
        assert ([s[0]] + l)[1..] == l;
      }
    }
  }

  lemma AnyPieceValue(s: string)
    ensures PieceValue(Strip(s)) <= Weight(s) + 1
  {
    hide Weight, Decode, DivideAt, StripLeft, StripRight;
    StripLeftWeight(s);
    StripRightWeight(StripLeft(s));
    var t := Strip(s);
    DivideWeight(t, '=');
    DecodeWeight(DivideAt(t, '=').0);
  }

  lemma {:induction false} StripLeftBefore(k: string, t: string)
    requires t != "" && !IsBlank(t[0])
    ensures StripLeft(k + t) == StripLeft(k) + t
    decreases |k|
  {
    if k == "" {
      assert k + t == t && StripLeft(k) + t == t;
    } else {
      assert (k + t)[0] == k[0] && (k + t)[1..] == k[1..] + t;
      StripLeftBefore(k[1..], t);
    }
  }

  lemma {:induction false} DivideBefore(k: string, d: char, t: string)
    ensures DivideAt(k + [d] + t, d).0 == DivideAt(k, d).0
    decreases |k|
  {
    var s := k + [d] + t;
    if k == "" {
      assert s[0] == d;
    } else {
      assert s[0] == k[0] && s[1..] == k[1..] + [d] + t;
      DivideBefore(k[1..], d, t);
    }
  }

  /** Nothing in the printed value ends the piece or is cut off it. */
  ghost predicate Clean(e: string) {
    forall c | c in e :: c != '&' && !IsBlank(c)
  }

  lemma StripPair(k: string, e: string)
    requires Clean(e)
    ensures Strip(k + "=" + e) == StripLeft(k) + "=" + e
  {
    hide StripLeft;
    var t := "=" + e;
    assert k + "=" + e == k + t && StripLeft(k) + "=" + e == StripLeft(k) + t;
    StripLeftBefore(k, t);
    var r := StripLeft(k) + t;
    assert r[|r| - 1] == t[|t| - 1] && (e == "" || t[|t| - 1] in e);
    assert StripRight(r) == r;
  }

  /** A pair whose key holds no separator is worth its weight exactly when the key is one that survives, and less otherwise. */
  lemma OnePieceValue(k: string, e: string)
    requires Clean(e) && '&' !in k
    ensures PieceValue(Strip(k + "=" + e)) <= Weight(k) + 1
    ensures !KeyOk(k) ==> PieceValue(Strip(k + "=" + e)) < Weight(k) + 1
  {
    hide Weight, Decode, DivideAt, StripLeft, Strip;
    var k' := StripLeft(k);
    StripPair(k, e);
    DivideBefore(k', '=', e);
    StripLeftWeight(k);
    DivideWeight(k', '=');
    DecodeWeight(DivideAt(k', '=').0);
    UnchangedExactly(k);
  }

  lemma FirstSeparator(k: string) returns (a: string, b: string)
    requires '&' in k
    ensures k == a + "&" + b && '&' !in a && |b| < |k|
  {
    var i := 0;
    while k[i] != '&'
      invariant 0 <= i < |k| && '&' in k[i..] && '&' !in k[..i]
      decreases |k| - i
    {
      assert k[i..] == [k[i]] + k[i + 1..];
      assert k[..i + 1] == k[..i] + [k[i]];
      assert k[i + 1..] != "";
      i := i + 1;
    }
    a, b := k[..i], k[i + 1..];
  }

  /** All pieces a printed pair falls into together are worth no more than the pair, and less unless its key survives. */
  lemma {:induction false} PairValue(k: string, e: string)
    requires Clean(e)
    ensures SumStripped(Cuts(k + "=" + e, '&')) <= Weight(k) + 1
    ensures !KeyOk(k) ==> SumStripped(Cuts(k + "=" + e, '&')) < Weight(k) + 1
    decreases |k|
  {
    hide Weight, Strip, PieceValue, Cuts;
    var t := k + "=" + e;
    if '&' in k {
      var a, b := FirstSeparator(k);
      assert t == a + ['&'] + (b + "=" + e);
      CutsAtDelimiter(a, '&', b + "=" + e);
      CutsWhole(a, '&');
      SumStrippedConcat([a], Cuts(b + "=" + e, '&'));
      OneStretch(a);
      AnyPieceValue(a);
      PairValue(b, e);
      WeightConcat(a + "&", b);
      WeightConcat(a, "&");
      WeightOne('&');
    } else {
      assert '&' !in t;
      CutsWhole(t, '&');
      OneStretch(t);
      OnePieceValue(k, e);
    }
  }

  lemma OneStretch(s: string)
    ensures SumStripped([s]) == PieceValue(Strip(s))
  {
    hide Strip, PieceValue;
    assert [s][1..] == [];
  }

  // --- the whole multimap

  lemma {:induction false} PrintedValue(m: seq<Param>)
    requires m != [] && forall p | p in m :: ByteText(p.value)
    ensures SumStripped(Cuts(Print(m), '&')) <= Total(m)
    ensures (exists p :: p in m && !KeyOk(p.key)) ==> SumStripped(Cuts(Print(m), '&')) < Total(m)
    decreases |m|
  {
    hide Weight, Cuts, SumStripped, KeyOk, Encode, ByteText;
    var p, rest := m[0], m[1..];
    assert p in m && m == [p] + rest;
    EncodedIsClean(p.value);
    PairValue(p.key, Encode(p.value));
    if |m| > 1 {
      assert forall q | q in rest :: q in m;
      PrintedValue(rest);
      CutsAtDelimiter(PairText(p), '&', Print(rest));
      SumStrippedConcat(Cuts(PairText(p), '&'), Cuts(Print(rest), '&'));
    } else {
      assert Total(rest) == 0;
    }
  }

  lemma PrintedTotal(m: seq<Param>)
    requires forall p | p in m :: ByteText(p.value)
    ensures Total(Parse(Print(m))) <= Total(m)
    ensures (exists p :: p in m && !KeyOk(p.key)) ==> Total(Parse(Print(m))) < Total(m)
  {
    hide Print, Total, Pieces, Sum, SumStripped, Cuts, ParsePieces, KeyOk, ByteText;
    var segments := Segments(Print(m), '&', 0, 0);
    AllSegments(Print(m));
    ParsedTotal(Parsed([], {}), Pieces(segments));
    SumOfPieces(segments);
    assert Total([]) == 0 by { NothingTotal(); }
    if m == [] {
      NothingPrinted();
      NothingTotal();
    } else {
      PrintedValue(m);
    }
  }

  lemma NothingTotal()
    ensures Total([]) == 0 && Sum([]) == 0
  {
  }

  /** The round trip, exactly: an ordered multimap of byte strings comes back as it was if and only if no pair is repeated and
      every key is non-empty, begins with no blank, holds no separator and means itself when decoded. */
  lemma RoundTripExactly(m: seq<Param>)
    requires Sorted(m) && forall p | p in m :: ByteText(p.value)
    ensures Parse(Print(m)) == m <==> NoRepeats(m) && forall p | p in m :: KeyOk(p.key)
  {
    hide Sorted, NoRepeats, Parse, Print, KeyOk, ByteText;
    PrintedTotal(m);
    if forall p | p in m :: KeyOk(p.key) {
      QueryRoundTrip(m);
    }
  }
}
