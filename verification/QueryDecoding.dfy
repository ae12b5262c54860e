/** What decoding makes of escapes that this encoder never writes: lower-case digits, code points, and what is no escape. */
module QueryDecoding {
  import opened TextSearch
  import opened Query

  /** The hexadecimal digit `n`, in either case. */
  predicate Writes(c: char, n: nat) {
    n < 16 && (c == "0123456789abcdef"[n] || c == "0123456789ABCDEF"[n])
  }

  lemma DigitsExactly(c: char)
    ensures IsHex(c) <==> exists n: nat :: Writes(c, n)
    ensures forall n: nat | Writes(c, n) :: HexValue(c) == Some(n)
  {
    forall n: nat | Writes(c, n) ensures HexValue(c) == Some(n) { OneDigit(c, n); }
    if IsHex(c) { IsWritten(c); }
    hide HexValue, Writes;
  }

  lemma OneDigit(c: char, n: nat)
    requires Writes(c, n)
    ensures HexValue(c) == Some(n)
  {
  }

  lemma IsWritten(c: char)
    requires IsHex(c)
    ensures Writes(c, HexValue(c).value)
  {
  }

  lemma {:induction false} RunOfDigits(s: string, ds: seq<nat>, t: string, v: nat)
    requires |s| == |ds| && forall i | 0 <= i < |s| :: Writes(s[i], ds[i])
    ensures HexRun(s + t, |s|, v) == Some(Positional(ds, v))
    decreases |s|
  {
    hide HexValue, Writes;
    if s == "" {
      assert s + t == t;
    } else {
      DigitsExactly(s[0]);
      assert (s + t)[0] == s[0] && (s + t)[1..] == s[1..] + t;
      RunOfDigits(s[1..], ds[1..], t, v * 16 + ds[0]);
    }
  }

  /** The number that hexadecimal digits denote, behind `v`. */
  function Positional(ds: seq<nat>, v: nat): nat {
    if ds == [] then v else Positional(ds[1..], v * 16 + ds[0])
  }

  lemma Positional2(a: nat, b: nat)
    ensures Positional([a, b], 0) == a * 16 + b
  {
    assert [a, b][1..] == [b] && [b][1..] == [];
    assert Positional([b], a) == Positional([], a * 16 + b);
  }

  lemma Positional4(a: nat, b: nat, c: nat, d: nat)
    ensures Positional([a, b, c, d], 0) == a * 0x1000 + b * 0x100 + c * 0x10 + d
  {
    assert [a, b, c, d][1..] == [b, c, d] && [b, c, d][1..] == [c, d] && [c, d][1..] == [d] && [d][1..] == [];
    assert Positional([d], (a * 16 + b) * 16 + c) == Positional([], ((a * 16 + b) * 16 + c) * 16 + d);
    assert Positional([a, b, c, d], 0) == Positional([b, c, d], a) == Positional([c, d], a * 16 + b);
  }

  lemma FrontDecides(s: string, plus: bool)
    requires s != ""
    ensures var (head, n) := DecodeHead(s, plus); Decode(s, plus) == head + Decode(s[n..], plus)
  {
    hide DecodeHead;
  }

  /** A percent sign and two digits of either case are the byte they denote. */
  lemma ByteIsDecoded(hi: nat, lo: nat, a: char, b: char, t: string, plus: bool)
    requires Writes(a, hi) && Writes(b, lo)
    ensures Decode("%" + [a, b] + t, plus) == [(hi * 16 + lo) as char] + Decode(t, plus)
  {
    var s := "%" + [a, b] + t;
    hide Decode, HexValue, HexRun, Utf8;
    DigitsExactly(a);
    NotU(a, hi);
    RunOfDigits([a, b], [hi, lo], t, 0);
    Positional2(hi, lo);
    assert s[0] == '%' && s[1] == a && s[1..] == [a, b] + t && s[3..] == t;
    FrontDecides(s, plus);
  }

  lemma NotU(c: char, n: nat)
    requires Writes(c, n)
    ensures c != 'u'
  {
  }

  /** A percent sign, a `u` and four digits of either case are the code point they denote, in UTF-8. */
  lemma CodePointIsDecoded(ds: seq<nat>, digits: string, t: string, plus: bool)
    requires |ds| == |digits| == 4 && forall i | 0 <= i < 4 :: Writes(digits[i], ds[i])
    ensures var code := ds[0] * 0x1000 + ds[1] * 0x100 + ds[2] * 0x10 + ds[3];
            code < 0x1_0000 && Decode("%u" + digits + t, plus) == Utf8(code) + Decode(t, plus)
  {
    var s := "%u" + digits + t;
    hide Decode, HexValue, HexRun, Utf8;
    RunOfDigits(digits, ds, t, 0);
    Positional4(ds[0], ds[1], ds[2], ds[3]);
    assert ds == [ds[0], ds[1], ds[2], ds[3]];
    assert s[0] == '%' && s[1] == 'u' && s[2..] == digits + t && s[6..] == t;
    FrontDecides(s, plus);
  }

  /** Everything else stands for itself, but for the plus sign when it is to be a blank. */
  lemma TheRestIsKept(s: string, plus: bool)
    requires s != "" && !Escapes(s, 0)
    ensures Decode(s, plus) == (if plus && s[0] == '+' then " " else [s[0]]) + Decode(s[1..], plus)
  {
    FrontDecides(s, plus);
    if s[0] == '%' && |s| > 1 {
      var w, count := s[if s[1] == 'u' then 2 else 1..], if s[1] == 'u' then 4 else 2;
      HexRunReads(w, count, 0);
      hide HexRun, Decode, IsHex;
      if count <= |w| {
        assert w[0] == s[|s| - |w|] && w[1] == s[|s| - |w| + 1];
        if count == 4 { assert w[2] == s[4] && w[3] == s[5]; }
      }
    }
  }

  // --- UTF-8

  predicate Continues(c: char) { 0x80 <= c as int < 0xC0 }

  /** A reader of UTF-8 (RFC 3629, section 3) up to three bytes: the code point in front, and how many bytes that is. */
  function ReadUtf8(s: string): Option<(nat, nat)> {
    if s == "" then None
    else
      var b := s[0] as int;
      if b < 0x80 then Some((b, 1))
      else if 0xC0 <= b < 0xE0 && |s| > 1 && Continues(s[1]) then Some(((b - 0xC0) * 0x40 + (s[1] as int - 0x80), 2))
      else if 0xE0 <= b < 0xF0 && |s| > 2 && Continues(s[1]) && Continues(s[2]) then
        Some((((b - 0xE0) * 0x40 + (s[1] as int - 0x80)) * 0x40 + (s[2] as int - 0x80), 3))
      else None
  }

  /** What is written for a code point reads back as that code point, in the fewest bytes; surrogates are written as nothing. */
  lemma Utf8IsRead(code: nat, t: string)
    requires code < 0x1_0000
    ensures if 0xD800 <= code < 0xE000 then Utf8(code) == ""
            else ReadUtf8(Utf8(code) + t) == Some((code, if code < 0x80 then 1 else if code < 0x800 then 2 else 3))
                 && |Utf8(code)| == ReadUtf8(Utf8(code) + t).value.1
  {
    var u := Utf8(code);
    if u != "" {
      assert (u + t)[0] == u[0];
      if |u| > 1 { assert (u + t)[1] == u[1]; }
      if |u| > 2 {
        assert (u + t)[2] == u[2];
        assert code / 0x40 == code / 0x1000 * 0x40 + code / 0x40 % 0x40;
      }
    }
  }
}
