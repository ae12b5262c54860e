/** Searching text, and the facts about delimiters that the HTTP parsers rest on. */
module TextSearch {

  const CRLF := "\r\n"

  datatype Option<T> = None | Some(value: T)

  predicate OccursAt(b: string, pat: string, i: int) {
    0 <= i && i + |pat| <= |b| && b[i..i + |pat|] == pat
  }

  /** The first occurrence of `pat`, or the length of `b`. */
  function Find(b: string, pat: string): (r: nat)
    ensures r <= |b|
    ensures r < |b| ==> r + |pat| <= |b|
  {
    FindFrom(b, pat, 0)
  }

  function FindFrom(b: string, pat: string, i: nat): (r: nat)
    requires i <= |b|
    ensures i <= r <= |b|
    ensures r < |b| ==> OccursAt(b, pat, r)
    ensures forall k :: i <= k < r ==> !OccursAt(b, pat, k)
    decreases |b| - i
  {
    if i == |b| || OccursAt(b, pat, i) then i else FindFrom(b, pat, i + 1)
  }

  ghost predicate Free(b: string, pat: string) {
    forall i :: !OccursAt(b, pat, i)
  }

  /** A pattern whose first character does not come back cannot overlap itself. */
  predicate HeadUnique(pat: string) {
    pat != "" && forall k :: 1 <= k < |pat| ==> pat[k] != pat[0]
  }

  /** In `x + pat + y`, where `x` is free of such a pattern, the first occurrence is the one shown: no earlier
      one can begin inside `x` and end inside `pat`. */
  lemma NoEarlierOccurrence(x: string, pat: string, y: string, i: int)
    requires HeadUnique(pat) && Free(x, pat) && i < |x|
    ensures !OccursAt(x + pat + y, pat, i)
  {
    var t := x + pat + y;
    if 0 <= i && i + |pat| <= |t| {
      if i + |pat| <= |x| {
        assert !OccursAt(x, pat, i);
        assert t[i..i + |pat|] == x[i..i + |pat|];
      } else {
        var k := |x| - i;
        assert t[i..i + |pat|][k] == t[|x|] == pat[0] != pat[k];
      }
    }
  }

  /** Searching a prefix of `x + pat + y` finds the shown occurrence, or nothing when it is not all there. */
  lemma FindInPrefix(b: string, tail: string, x: string, pat: string, y: string)
    requires HeadUnique(pat) && Free(x, pat) && b + tail == x + pat + y
    ensures Find(b, pat) == if |b| >= |x| + |pat| then |x| else |b|
  {
    var t := x + pat + y;
    var r := Find(b, pat);
    if r < |b| {
      assert b[r..r + |pat|] == (b + tail)[r..r + |pat|];
      assert OccursAt(t, pat, r);
      if r < |x| { NoEarlierOccurrence(x, pat, y, r); }
      assert r >= |x|;
    }
    if |b| >= |x| + |pat| {
      assert b[|x|..|x| + |pat|] == (b + tail)[|x|..|x| + |pat|] == pat;
      assert OccursAt(b, pat, |x|);
    }
  }

  /** An occurrence inside a window of the text is one in the window. */
  lemma OccursInWindow(t: string, pat: string, from: nat, to: nat, i: nat)
    requires from <= i && i + |pat| <= to <= |t|
    ensures OccursAt(t, pat, i) <==> OccursAt(t[from..to], pat, i - from)
  {
    var w, o := t[from..to], i - from;
    var x, y := t[i..i + |pat|], w[o..o + |pat|];
    forall k | 0 <= k < |pat| ensures x[k] == y[k] {
      assert y[k] == w[o + k] == t[i + k];
    }
    assert x == y;
  }

  /** Text in two cuts: when the first piece `b` covers `x`, it begins with `x` and the rest goes on with `y`. */
  lemma Peel(b: string, tail: string, x: string, y: string)
    requires b + tail == x + y && |b| >= |x|
    ensures b[..|x|] == x && b[|x|..] + tail == y
  {
    assert b[..|x|] == (b + tail)[..|x|];
    assert b[|x|..] + tail == (b + tail)[|x|..];
  }

  function Join(chunks: seq<string>): string {
    if chunks == [] then "" else chunks[0] + Join(chunks[1..])
  }
}
