/** What the chunk reader's `strtoul` makes of any size line, not only of those this writer prints. */
module ChunkSizes {
  import opened TextSearch
  import opened Chunked

  /** The hexadecimal digit `n`, in either case. */
  predicate Writes(c: char, n: nat) {
    n < 16 && (c == "0123456789abcdef"[n] || c == "0123456789ABCDEF"[n])
  }

  lemma OneDigit(c: char, n: nat)
    requires Writes(c, n)
    ensures DigitOf(c) == Some(n) && !IsSpace(c) && c != '+' && c != '-' && c != 'x' && c != 'X'
  {
  }

  lemma IsWritten(c: char)
    requires DigitOf(c).Some?
    ensures Writes(c, DigitOf(c).value)
  {
  }

  /** A digit is one of those, and its value is its place among them. */
  lemma DigitsExactly(c: char)
    ensures DigitOf(c).Some? <==> exists n: nat :: Writes(c, n)
    ensures forall n: nat | Writes(c, n) :: DigitOf(c) == Some(n)
  {
    forall n: nat | Writes(c, n) ensures DigitOf(c) == Some(n) { OneDigit(c, n); }
    if DigitOf(c).Some? { IsWritten(c); }
    hide DigitOf, Writes;
  }

  ghost predicate Spells(s: string, ds: seq<nat>) {
    |s| == |ds| && forall i | 0 <= i < |s| :: Writes(s[i], ds[i])
  }

  /** The number that hexadecimal digits denote, behind `v`. */
  function Positional(ds: seq<nat>, v: nat): nat {
    if ds == [] then v else Positional(ds[1..], v * 16 + ds[0])
  }

  /** Digits of either case are read in turn, up to what is no digit. */
  lemma {:induction false} DigitsAreRead(s: string, ds: seq<nat>, t: string, v: nat)
    requires Spells(s, ds) && (t == "" || DigitOf(t[0]).None?)
    ensures DigitsFrom(s + t, v) == (Positional(ds, v), |s|)
    decreases |s|
  {
    hide DigitOf, Writes;
    if s == "" {
      assert s + t == t;
    } else {
      DigitsExactly(s[0]);
      assert (s + t)[0] == s[0] && (s + t)[1..] == s[1..] + t;
      DigitsAreRead(s[1..], ds[1..], t, v * 16 + ds[0]);
    }
  }

  lemma {:induction false} SpacesAreSkipped(blanks: string, t: string)
    requires (forall c | c in blanks :: IsSpace(c)) && (t == "" || !IsSpace(t[0]))
    ensures SkipSpace(blanks + t) == |blanks|
    decreases |blanks|
  {
    hide IsSpace;
    if blanks == "" {
      assert blanks + t == t;
    } else {
      assert blanks[0] in blanks && forall c | c in blanks[1..] :: c in blanks;
      assert (blanks + t)[0] == blanks[0] && (blanks + t)[1..] == blanks[1..] + t;
      SpacesAreSkipped(blanks[1..], t);
    }
  }

  lemma PunctuationIsNoSpace()
    ensures !IsSpace('+') && !IsSpace('-') && !IsSpace('0')
  {
  }

  lemma ZeroIsDigit()
    ensures DigitOf('0') == Some(0) && DigitOf('x').None? && DigitOf('X').None?
  {
  }

  /** Digits with a prefix or without. */
  lemma UnsignedIsRead(prefix: string, s: string, ds: seq<nat>, t: string)
    requires prefix == "" || prefix == "0x" || prefix == "0X"
    requires Spells(s, ds) && s != "" && (t == "" || (DigitOf(t[0]).None? && t[0] != 'x' && t[0] != 'X'))
    ensures Unsigned(prefix + (s + t)) == (Positional(ds, 0), |prefix| + |s|)
    ensures (prefix + (s + t))[0] == if prefix != "" then '0' else s[0]
  {
    hide DigitOf, Writes, Positional, DigitsFrom;
    var u := s + t;
    OneDigit(s[0], ds[0]);
    DigitsAreRead(s, ds, t, 0);
    assert u[0] == s[0];
    if prefix == "" {
      assert prefix + u == u && u[0..] == u;
      if |s| > 1 { OneDigit(s[1], ds[1]); assert u[1] == s[1]; } else if t != "" { assert u[1] == t[0]; }
      assert !Prefixed(u);
    } else {
      assert (prefix + u)[0] == '0' && (prefix + u)[1] == prefix[1] && (prefix + u)[2] == u[0] && (prefix + u)[2..] == u;
    }
  }

  lemma Signed(blanks: string, sign: string, u: string)
    requires (forall c | c in blanks :: IsSpace(c)) && (sign == "" || sign == "+" || sign == "-")
    requires u == "" || (!IsSpace(u[0]) && u[0] != '+' && u[0] != '-')
    ensures var (v, used) := Unsigned(u);
            StrToUl16(blanks + (sign + u))
            == if used == 0 then (0, 0)
               else (if v > ULONG_MAX then ULONG_MAX else if sign == "-" && v > 0 then ULONG_MAX + 1 - v else v,
                     |blanks| + |sign| + used)
  {
    hide Unsigned, SkipSpace, IsSpace;
    var tail := sign + u;
    var all := blanks + tail;
    PunctuationIsNoSpace();
    if sign != "" { assert tail[0] == sign[0]; } else { assert tail == u; }
    SpacesAreSkipped(blanks, tail);
    if tail != "" { assert all[|blanks|] == tail[0]; }
    assert all[|blanks| + |sign|..] == u;
  }

  /** A size as C reads it: blanks, a sign, `0x`, digits of either case, and then something else. The value is that of the
      digits, or the largest there is when they say more; a minus sign takes it from the next power of two. */
  lemma SizeIsRead(blanks: string, sign: string, prefix: string, s: string, ds: seq<nat>, t: string)
    requires (forall c | c in blanks :: IsSpace(c)) && (sign == "" || sign == "+" || sign == "-")
    requires prefix == "" || prefix == "0x" || prefix == "0X"
    requires Spells(s, ds) && s != "" && (t == "" || (DigitOf(t[0]).None? && t[0] != 'x' && t[0] != 'X'))
    ensures var v := Positional(ds, 0);
            StrToUl16(blanks + (sign + (prefix + (s + t))))
            == (if v > ULONG_MAX then ULONG_MAX else if sign == "-" && v > 0 then ULONG_MAX + 1 - v else v,
                |blanks| + |sign| + |prefix| + |s|)
  {
    hide Unsigned, StrToUl16, IsSpace, Positional, DigitOf, Writes;
    var u := prefix + (s + t);
    UnsignedIsRead(prefix, s, ds, t);
    OneDigit(s[0], ds[0]);
    PunctuationIsNoSpace();
    assert !IsSpace(u[0]) && u[0] != '+' && u[0] != '-';
    Signed(blanks, sign, u);
  }

  /** Without digits there is no number, and the size line is refused. */
  lemma NoSizeIsRead(blanks: string, sign: string, t: string)
    requires (forall c | c in blanks :: IsSpace(c)) && (sign == "" || sign == "+" || sign == "-")
    requires t == "" || (DigitOf(t[0]).None? && !IsSpace(t[0]) && t[0] != '+' && t[0] != '-')
    ensures StrToUl16(blanks + (sign + t)) == (0, 0)
  {
    ZeroIsDigit();
    assert t[0..] == t && Unsigned(t).1 == 0;
    hide Unsigned, StrToUl16, IsSpace, DigitOf;
    Signed(blanks, sign, t);
  }
}
