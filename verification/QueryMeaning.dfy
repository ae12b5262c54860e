/** What a query string means, whoever wrote it: which pairs are parsed from any text, and how many. */
module QueryMeaning {
  import opened Bytes
  import opened Query

  // --- the stretches of a text

  /** The stretches with the separator between them again. */
  function Rejoin(cs: seq<string>, d: char): string {
    if cs == [] then "" else if |cs| == 1 then cs[0] else cs[0] + [d] + Rejoin(cs[1..], d)
  }

  /** Stretches hold no separator, and with separators between them are the text. */
  lemma {:induction false} CutsMeaning(s: string, d: char)
    ensures Rejoin(Cuts(s, d), d) == s && forall c | c in Cuts(s, d) :: d !in c
  {
    if s != "" {
      var cs := Cuts(s[1..], d);
      CutsMeaning(s[1..], d);
      var all := Cuts(s, d);
      assert s == [s[0]] + s[1..];
      if s[0] == d {
        assert all[1..] == cs && "" + [d] + Rejoin(cs, d) == [d] + Rejoin(cs, d);
      } else {
        assert all[1..] == cs[1..] && cs[0] in cs;
        if |cs| > 1 { assert [s[0]] + cs[0] + [d] + Rejoin(cs[1..], d) == [s[0]] + (cs[0] + [d] + Rejoin(cs[1..], d)); }
        forall c | c in all ensures d !in c { assert c == all[0] || c in cs[1..]; }
      }
    }
  }

  predicate AllBlank(s: string) {
    forall c | c in s :: c == ' ' || c == '\t'
  }

  lemma {:induction false} StripLeftMeaning(s: string) returns (a: string)
    ensures s == a + StripLeft(s) && AllBlank(a) && (StripLeft(s) != "" ==> StripLeft(s)[0] !in " \t")
  {
    if s != "" && IsBlank(s[0]) {
      var a' := StripLeftMeaning(s[1..]);
      a := [s[0]] + a';
      assert s == [s[0]] + s[1..];
    } else {
      a := "";
    }
  }

  lemma {:induction false} StripRightMeaning(s: string) returns (b: string)
    ensures s == StripRight(s) + b && AllBlank(b) && (StripRight(s) != "" ==> StripRight(s)[|StripRight(s)| - 1] !in " \t")
    ensures StripRight(s) != "" ==> s != "" && StripRight(s)[0] == s[0]
    decreases |s|
  {
    if s != "" && IsBlank(s[|s| - 1]) {
      var front, last := s[..|s| - 1], [s[|s| - 1]];
      assert s == front + last;
      var b' := StripRightMeaning(front);
      b := b' + last;
      Regroup(StripRight(front), b', last);
    } else {
      b := "";
      assert s + "" == s;
    }
  }

  /** Stripping takes blanks and tabs off both ends, and leaves nothing or a text with neither at its ends. */
  lemma StripMeaning(s: string) returns (a: string, b: string)
    ensures s == a + Strip(s) + b && AllBlank(a) && AllBlank(b)
    ensures var t := Strip(s); t != "" ==> t[0] !in " \t" && t[|t| - 1] !in " \t"
  {
    hide StripLeft, StripRight, AllBlank;
    a := StripLeftMeaning(s);
    b := StripRightMeaning(StripLeft(s));
    Regroup(a, Strip(s), b);
  }

  // --- the pair of a piece

  /** The piece `kv` stands for the pair `p`: a key and, behind the first equals sign if there is one, a value. */
  ghost predicate Gives(kv: string, p: Param) {
    || (kv != "" && '=' !in kv && p == Param(Decode(kv, true), Decode("", true)))
    || (exists k, v :: Divided(kv, k, v) && k != "" && p == Param(Decode(k, true), Decode(v, true)))
  }

  ghost predicate Divided(kv: string, k: string, v: string) {
    kv == k + "=" + v && '=' !in k
  }

  lemma {:induction false} NothingToDivide(s: string, d: char)
    ensures d !in s ==> DivideAt(s, d) == (s, "")
  {
    if s != "" {
      NothingToDivide(s[1..], d);
      assert s[0] in s && s == [s[0]] + s[1..] && forall c | c in s[1..] :: c in s;
    }
  }

  lemma {:induction false} DividedSomewhere(s: string, d: char) returns (k: string, v: string)
    requires d in s
    ensures s == k + [d] + v && d !in k
  {
    if s[0] == d {
      k, v := "", s[1..];
      assert s == "" + [s[0]] + s[1..];
    } else {
      assert s == [s[0]] + s[1..];
      var k';
      k', v := DividedSomewhere(s[1..], d);
      k := [s[0]] + k';
      assert s == k + [d] + v;
    }
  }

  lemma GivesExactly(kv: string, p: Param)
    ensures var (key, val) := DivideAt(kv, '=');
            Gives(kv, p) <==> key != "" && p == Param(Decode(key, true), Decode(val, true))
  {
    hide Decode, DivideAt;
    forall k, v | Divided(kv, k, v) ensures '=' in kv { assert kv[|k|] == '='; }
    if '=' in kv {
      var k, v := DividedSomewhere(kv, '=');
      assert Divided(kv, k, v);
      DivideFirst(k, '=', v);
      forall k', v' | Divided(kv, k', v') ensures k' == k && v' == v { DivideFirst(k', '=', v'); }
    } else {
      NothingToDivide(kv, '=');
    }
  }

  // --- all pieces

  lemma {:induction false} EmplaceHolds(m: seq<Param>, p: Param, q: Param)
    ensures q in Emplace(m, p) <==> q in m || q == p
    ensures |Emplace(m, p)| == |m| + 1
    decreases |m|
  {
    hide LexLe;
    if m != [] && LexLe(m[0].key, p.key) {
      EmplaceHolds(m[1..], p, q);
      assert m == [m[0]] + m[1..];
    }
  }

  predicate HasKey(kv: string) { DivideAt(kv, '=').0 != "" }

  /** The multimap holds the pairs of the pieces met, one for each that has a key. */
  ghost predicate Describes(st: Parsed) {
    && (forall p :: p in st.params <==> exists kv :: kv in st.cache && Gives(kv, p))
    && |st.params| == |set kv | kv in st.cache && HasKey(kv)|
  }

  lemma OnePiece(st: Parsed, kv: string, p: Param)
    requires kv !in st.cache
    ensures var t := ParsePiece(st, kv);
            && (p in t.params <==> p in st.params || Gives(kv, p))
            && |t.params| == |st.params| + (if HasKey(kv) then 1 else 0) && t.cache == st.cache + {kv}
  {
    hide Gives, DivideAt, Decode, Emplace;
    var (key, val) := DivideAt(kv, '=');
    EmplaceHolds(st.params, Param(Decode(key, true), Decode(val, true)), p);
    GivesExactly(kv, p);
  }

  lemma OneMoreKey(cache: set<string>, kv: string)
    requires kv !in cache
    ensures |set k | k in cache + {kv} && HasKey(k)| == |set k | k in cache && HasKey(k)| + if HasKey(kv) then 1 else 0
  {
    hide HasKey;
    var keyed := set k | k in cache && HasKey(k);
    assert (set k | k in cache + {kv} && HasKey(k)) == keyed + if HasKey(kv) then {kv} else {};
  }

  lemma PieceDescribes(st: Parsed, kv: string)
    requires Describes(st)
    ensures Describes(ParsePiece(st, kv)) && ParsePiece(st, kv).cache == st.cache + {kv}
  {
    hide Gives, HasKey;
    var t := ParsePiece(st, kv);
    if kv in st.cache {
      assert st.cache + {kv} == st.cache;
    } else {
      hide ParsePiece;
      OneMoreKey(st.cache, kv);
      OnePiece(st, kv, Param("", ""));
      forall p ensures p in t.params <==> exists k :: k in t.cache && Gives(k, p) {
        OnePiece(st, kv, p);
        if k :| k in st.cache && Gives(k, p) { assert k in t.cache && Gives(k, p); }
        if Gives(kv, p) { assert kv in t.cache && Gives(kv, p); }
      }
    }
  }

  lemma {:induction false} PiecesDescribe(st: Parsed, pieces: seq<string>)
    requires Describes(st)
    ensures var t := ParsePieces(st, pieces);
            Describes(t) && forall kv :: kv in t.cache <==> kv in st.cache || kv in pieces
    decreases |pieces|
  {
    hide Describes, ParsePiece;
    if pieces != [] {
      PieceDescribes(st, pieces[0]);
      PiecesDescribe(ParsePiece(st, pieces[0]), pieces[1..]);
      assert pieces == [pieces[0]] + pieces[1..];
    }
  }

  lemma {:induction false} PiecesAre(cs: seq<string>, kv: string)
    ensures kv in Pieces(cs) <==> kv != "" && exists i :: 0 <= i < |cs| && Strip(cs[i]) == kv
  {
    hide Strip;
    if cs != [] {
      PiecesAre(cs[1..], kv);
      var one := if Strip(cs[0]) == "" then [] else [Strip(cs[0])];
      assert Pieces(cs) == one + Pieces(cs[1..]);
      if i :| 0 <= i < |cs[1..]| && Strip(cs[1..][i]) == kv { assert Strip(cs[i + 1]) == kv; }
      if i :| 0 <= i < |cs| && Strip(cs[i]) == kv && i > 0 { assert Strip(cs[1..][i - 1]) == kv; }
    }
  }

  lemma SegmentsOfAll(s: string)
    ensures Segments(s, '&', 0, 0) == Cuts(s, '&')
  {
    hide Cuts, Segments;
    SegmentsAreCuts(s, '&', 0, 0);
    var cs := Cuts(s, '&');
    assert s[0..] == s && s[0..0] + cs[0] == cs[0] && [cs[0]] + cs[1..] == cs;
  }

  lemma NothingDescribed()
    ensures Describes(Parsed([], {}))
  {
    var none: set<string> := {};
    assert (set kv | kv in none && HasKey(kv)) == {};
  }

  /** Of any text, a pair is parsed if and only if some stretch between ampersands, stripped, gives it; and there are as many
      entries as different pieces that have a key. */
  lemma ParseMeaning(s: string, p: Param)
    ensures p in Parse(s) <==> exists i :: 0 <= i < |Cuts(s, '&')| && Strip(Cuts(s, '&')[i]) != "" && Gives(Strip(Cuts(s, '&')[i]), p)
    ensures |Parse(s)| == |set kv | kv in Pieces(Cuts(s, '&')) && HasKey(kv)|
  {
    hide Cuts, Gives, Pieces, Strip, Segments, ParsePieces, HasKey;
    var cs := Cuts(s, '&');
    SegmentsOfAll(s);
    NothingDescribed();
    PiecesDescribe(Parsed([], {}), Pieces(cs));
    var t := ParsePieces(Parsed([], {}), Pieces(cs));
    assert (set kv | kv in t.cache && HasKey(kv)) == set kv | kv in Pieces(cs) && HasKey(kv);
    if kv :| kv in t.cache && Gives(kv, p) { PiecesAre(cs, kv); }
    if i :| 0 <= i < |cs| && Strip(cs[i]) != "" && Gives(Strip(cs[i]), p) {
      PiecesAre(cs, Strip(cs[i]));
      assert Strip(cs[i]) in t.cache;
    }
  }

  /** The two texts agree up to `i`, where the first holds the smaller character. */
  predicate SmallerAt(a: string, b: string, i: nat) {
    i < |a| && i < |b| && a[..i] == b[..i] && a[i] < b[i]
  }

  /** Keys are ordered like words: the first difference decides, and a beginning comes before the whole. */
  lemma {:induction false} OrderMeaning(a: string, b: string)
    ensures LexLe(a, b) <==> a <= b || exists i: nat :: SmallerAt(a, b, i)
    decreases |a|
  {
    if a != "" && b != "" {
      OrderMeaning(a[1..], b[1..]);
      assert a == [a[0]] + a[1..] && b == [b[0]] + b[1..];
      if a[0] < b[0] { assert SmallerAt(a, b, 0); }
      if i: nat :| SmallerAt(a, b, i) && i > 0 {
        assert a[..i][0] == b[..i][0] && a[1..][..i - 1] == a[..i][1..] && b[1..][..i - 1] == b[..i][1..];
        assert SmallerAt(a[1..], b[1..], i - 1);
      }
      if i: nat :| a[0] == b[0] && SmallerAt(a[1..], b[1..], i) {
        assert a[..i + 1] == [a[0]] + a[1..][..i] && b[..i + 1] == [b[0]] + b[1..][..i];
        assert SmallerAt(a, b, i + 1);
      }
    }
  }

  // --- what is written

  /** Which characters the encoder leaves alone, and how it writes the others. */
  lemma EncodedExactly(c: char)
    requires c as int < 256
    ensures EncodeChar(c)
         == if 'A' <= c <= 'Z' || 'a' <= c <= 'z' || '0' <= c <= '9' || c in ['-', '_', '.', '!', '~', '*', '\'', '(', ')'] then [c]
            else ['%', "0123456789ABCDEF"[c as int / 16], "0123456789ABCDEF"[c as int % 16]]
  {
    assert c as int / 16 % 16 == c as int / 16;
  }
}
