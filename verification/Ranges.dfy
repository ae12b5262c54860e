/** Byte ranges of a request: how the server replaces, checks and limits them, and the multipart body built from them. */
module Ranges {
  import opened TextSearch

  /** `Range(-1, n)` asks for the last `n` bytes, `Range(f, -1)` for everything from `f` on. */
  datatype Range = Range(first: int, last: int)

  const RANGE_MAX_COUNT := 1024

  function Normalized(r: Range, len: nat): Range {
    var r1 := if r.first == -1 && r.last == -1 then Range(0, len) else r;
    var r2 := if r1.first == -1 then Range(len - r1.last, len - 1) else r1;
    if r2.last == -1 || r2.last >= len then Range(r2.first, len - 1) else r2
  }

  function NormalizedAll(rs: seq<Range>, len: nat): (ns: seq<Range>)
    ensures |ns| == |rs|
    ensures forall i | 0 <= i < |rs| :: ns[i] == Normalized(rs[i], len)
  {
    seq(|rs|, i requires 0 <= i < |rs| => Normalized(rs[i], len))
  }

  predicate Inside(r: Range, len: nat) {
    0 <= r.first <= r.last < len
  }

  // --- what a range asks for, and what it is replaced by

  /** The bytes of a representation of `len` bytes that a range names (RFC 9110, section 14.1.2). */
  predicate Names(r: Range, len: nat, byte: nat) {
    byte < len &&
    if r.first == -1 then r.last == -1 || len - r.last <= byte
    else r.first <= byte && (r.last == -1 || byte <= r.last)
  }

  /** A range that passes the check inside the content selects exactly the bytes it names. */
  lemma NormalizedMeaning(r: Range, len: nat, byte: nat)
    requires Inside(Normalized(r, len), len)
    ensures Names(r, len, byte) <==> Normalized(r, len).first <= byte <= Normalized(r, len).last
  {
  }

  /** A range over no byte at all never passes; a range that names some byte fails only as a suffix longer than the
      content, although RFC 9110 then grants the whole content. */
  lemma InsideExactly(r: Range, len: nat)
    requires r.first >= -1 && r.last >= -1
    ensures Inside(Normalized(r, len), len) <==> (exists byte: nat :: Names(r, len, byte)) && !(r.first == -1 && r.last > len)
  {
    var n := Normalized(r, len);
    if Inside(n, len) {
      assert Names(r, len, n.first);
    }
    if byte: nat :| Names(r, len, byte) {
      assert (r.first == -1 && r.last > len) || Inside(n, len);
    }
  }

  lemma LongSuffixRefused()
    ensures Names(Range(-1, 500), 100, 0) && !Inside(Normalized(Range(-1, 500), 100), 100)
  {
  }

  // --- the limits on the whole list

  /** Range `i` begins no later than some earlier range ends. */
  ghost predicate Overlaps(rs: seq<Range>, i: nat)
    requires i < |rs|
  {
    exists j :: 0 <= j < i && rs[i].first <= rs[j].last
  }

  ghost function OverlapCount(rs: seq<Range>): nat {
    if rs == [] then 0
    else OverlapCount(rs[..|rs| - 1]) + if Overlaps(rs, |rs| - 1) then 1 else 0
  }

  ghost predicate AllInside(rs: seq<Range>, len: nat) {
    forall r | r in rs :: Inside(r, len)
  }

  ghost predicate Ascending(rs: seq<Range>) {
    forall i, j :: 0 <= i < j < |rs| ==> rs[i].first < rs[j].first
  }

  ghost predicate Acceptable(rs: seq<Range>, len: nat) {
    AllInside(rs, len) && Ascending(rs) && OverlapCount(rs) <= 2
  }

  ghost predicate Satisfiable(rs: seq<Range>, len: nat) {
    |rs| <= RANGE_MAX_COUNT && Acceptable(NormalizedAll(rs, len), len)
  }

  lemma {:induction false} OverlapCountGrows(rs: seq<Range>, k: nat)
    requires k <= |rs|
    ensures OverlapCount(rs[..k]) <= OverlapCount(rs)
    decreases |rs| - k
  {
    if k < |rs| {
      assert rs[..k + 1][..k] == rs[..k];
      OverlapCountGrows(rs, k + 1);
    } else {
      assert rs[..k] == rs;
    }
  }

  /** A list with an unacceptable beginning is not acceptable. */
  lemma AcceptablePrefix(rs: seq<Range>, len: nat, k: nat)
    requires k <= |rs| && Acceptable(rs, len)
    ensures Acceptable(rs[..k], len)
  {
    OverlapCountGrows(rs, k);
    assert forall r | r in rs[..k] :: r in rs;
  }

  /** The largest start and the largest end met, -1 before the first range. */
  ghost predicate Highest(rs: seq<Range>, first: int, last: int) {
    && (forall r | r in rs :: r.first <= first && r.last <= last)
    && (rs == [] ==> first == -1 && last == -1)
    && (rs != [] ==> (exists i :: 0 <= i < |rs| && rs[i].first == first) && (exists i :: 0 <= i < |rs| && rs[i].last == last))
  }

  function Max(a: int, b: int): int { if a < b then b else a }

  lemma HighestStep(rs: seq<Range>, r: Range, len: nat, first: int, last: int)
    requires Highest(rs, first, last) && Inside(r, len)
    ensures Highest(rs + [r], Max(first, r.first), Max(last, r.last))
  {
    var ext := rs + [r];
    assert ext[|rs|] == r && forall i | 0 <= i < |rs| :: ext[i] == rs[i];
    assert forall q | q in ext :: q in rs || q == r;
  }

  lemma AllInsideStep(rs: seq<Range>, r: Range, len: nat)
    ensures AllInside(rs + [r], len) <==> AllInside(rs, len) && Inside(r, len)
  {
    assert (rs + [r])[|rs|] == r;
    assert forall q | q in rs :: q in rs + [r];
  }

  /** Comparing with the largest start is comparing with every start. */
  lemma AscendingStep(rs: seq<Range>, r: Range, first: int, last: int)
    requires Ascending(rs) && Highest(rs, first, last) && r.first >= 0
    ensures Ascending(rs + [r]) <==> r.first > first
  {
    var ext, n := rs + [r], |rs|;
    assert ext[n] == r && forall i | 0 <= i < n :: ext[i] == rs[i] && rs[i] in rs;
    if r.first <= first {
      var i :| 0 <= i < n && rs[i].first == first;
      assert !(ext[i].first < ext[n].first);
    }
  }

  /** Comparing with the largest end is comparing with every end. */
  lemma OverlapStep(rs: seq<Range>, r: Range, first: int, last: int)
    requires Highest(rs, first, last) && r.first >= 0
    ensures OverlapCount(rs + [r]) == OverlapCount(rs) + if r.first <= last then 1 else 0
  {
    var ext, n := rs + [r], |rs|;
    assert ext[..n] == rs && ext[n] == r && forall i | 0 <= i < n :: ext[i] == rs[i] && rs[i] in rs;
    if r.first <= last {
      var j :| 0 <= j < n && rs[j].last == last;
      assert ext[n].first <= ext[j].last;
    }
    assert Overlaps(ext, n) <==> r.first <= last;
  }

  /** One more range: acceptable just when it passes the three tests against the running maxima. */
  lemma AcceptableStep(rs: seq<Range>, r: Range, len: nat, first: int, last: int)
    requires Acceptable(rs, len) && Highest(rs, first, last)
    ensures Acceptable(rs + [r], len) <==>
            Inside(r, len) && r.first > first && !(r.first <= last && OverlapCount(rs) == 2)
    ensures Inside(r, len) ==> OverlapCount(rs + [r]) == OverlapCount(rs) + if r.first <= last then 1 else 0
    ensures Inside(r, len) ==> Highest(rs + [r], Max(first, r.first), Max(last, r.last))
  {
    AllInsideStep(rs, r, len);
    if Inside(r, len) {
      AscendingStep(rs, r, first, last);
      OverlapStep(rs, r, first, last);
      HighestStep(rs, r, len, first, last);
    }
    hide AllInside, Ascending, OverlapCount, Highest, Max;
  }

  lemma NothingYet(len: nat)
    ensures Acceptable([], len) && Highest([], -1, -1) && OverlapCount([]) == 0
  {
  }

  /** One turn of the loop: failing a test settles that the list is refused, passing them all extends what is accepted. */
  lemma CheckStep(given: seq<Range>, len: nat, i: nat, first: int, last: int)
    requires i < |given| && Acceptable(NormalizedAll(given, len)[..i], len)
    requires Highest(NormalizedAll(given, len)[..i], first, last)
    ensures var all := NormalizedAll(given, len);
            var count := OverlapCount(all[..i]);
            if Inside(all[i], len) && all[i].first > first && !(all[i].first <= last && count >= 2)
            then
              && Acceptable(all[..i + 1], len)
              && Highest(all[..i + 1], Max(first, all[i].first), Max(last, all[i].last))
              && OverlapCount(all[..i + 1]) == count + if all[i].first <= last then 1 else 0
            else !Satisfiable(given, len)
  {
    var all := NormalizedAll(given, len);
    assert all[..i + 1] == all[..i] + [all[i]];
    AcceptableStep(all[..i], all[i], len, first, last);
    assert OverlapCount(all[..i]) <= 2;
    hide AllInside, Ascending, OverlapCount, Highest, Max;
    if Satisfiable(given, len) { AcceptablePrefix(all, len, i + 1); }
  }

  /** A beginning of the list is replaced, the rest is as given. */
  ghost predicate PartlyNormalized(rs: seq<Range>, given: seq<Range>, len: nat) {
    exists k :: 0 <= k <= |given| && rs == NormalizedAll(given, len)[..k] + given[k..]
  }

  /** The answer `bad` is right for the list given, which is left as `rs`: wholly replaced when it is accepted. */
  ghost predicate Verdict(given: seq<Range>, len: nat, bad: bool, rs: seq<Range>) {
    bad == !Satisfiable(given, len) && if bad then PartlyNormalized(rs, given, len) else rs == NormalizedAll(given, len)
  }

  /** The loop of `RangeError` before turn `i`. */
  ghost predicate Progress(rs: seq<Range>, given: seq<Range>, len: nat, i: nat, first: int, last: int, overlapping: nat) {
    var all := NormalizedAll(given, len);
    && i <= |given|
    && rs == all[..i] + given[i..]
    && Acceptable(all[..i], len)
    && Highest(all[..i], first, last)
    && overlapping == OverlapCount(all[..i])
  }

  lemma ProgressStarts(given: seq<Range>, len: nat)
    ensures Progress(given, given, len, 0, -1, -1, 0)
    ensures |given| > RANGE_MAX_COUNT ==> Verdict(given, len, true, given)
  {
    NothingYet(len);
    assert given == NormalizedAll(given, len)[..0] + given[0..];
  }

  lemma ProgressStep(rs: seq<Range>, given: seq<Range>, len: nat, i: nat, first: int, last: int, overlapping: nat)
    requires i < |given| && Progress(rs, given, len, i, first, last, overlapping)
    ensures |rs| == |given| && rs[i] == given[i]
    ensures var r := Normalized(given[i], len);
            if Inside(r, len) && r.first > first && !(r.first <= last && overlapping >= 2)
            then Progress(rs[i := r], given, len, i + 1, Max(first, r.first), Max(last, r.last),
                          overlapping + if r.first <= last then 1 else 0)
            else Verdict(given, len, true, rs[i := r])
  {
    hide Acceptable, Highest, OverlapCount, Satisfiable, Max, Inside, Normalized, NormalizedAll;
    CheckStep(given, len, i, first, last);
    assert OverlapCount(NormalizedAll(given, len)[..i]) == overlapping;
    var all := NormalizedAll(given, len);
    assert rs[i := all[i]] == all[..i + 1] + given[i + 1..];
  }

  lemma ProgressEnds(rs: seq<Range>, given: seq<Range>, len: nat, first: int, last: int, overlapping: nat)
    requires Progress(rs, given, len, |given|, first, last, overlapping) && |given| <= RANGE_MAX_COUNT
    ensures Verdict(given, len, false, rs)
  {
    hide Acceptable, Highest, OverlapCount, Normalized;
    var all := NormalizedAll(given, len);
    assert all[..|given|] == all;
  }

  /** The replacements at the head of the loop body, in place there. */
  method Normalize(r: Range, len: nat) returns (n: Range)
    ensures n == Normalized(r, len)
  {
    var first, last := r.first, r.last;
    if first == -1 && last == -1 {
      first := 0;
      last := len;
    }
    if first == -1 {
      first := len - last;
      last := len - 1;
    }
    if last == -1 || last >= len {
      last := len - 1;
    }
    n := Range(first, last);
  }

  /** The loop over the ranges, each replaced before it is checked. */
  method CheckRanges(given: seq<Range>, len: nat) returns (bad: bool, ranges: seq<Range>)
    ensures Verdict(given, len, bad, ranges)
  {
    ranges := given;
    ProgressStarts(given, len);
    hide Verdict, Progress, Normalized, Max;
    if |ranges| > RANGE_MAX_COUNT { return true, ranges; }
    var prevFirst, prevLast: int, overlapping: nat := -1, -1, 0;
    for i := 0 to |ranges|
      invariant |ranges| == |given|
      invariant Progress(ranges, given, len, i, prevFirst, prevLast, overlapping)
    {
      ProgressStep(ranges, given, len, i, prevFirst, prevLast, overlapping);
      var r := Normalize(ranges[i], len);
      ranges := ranges[i := r];
      if !(0 <= r.first <= r.last <= len - 1) { return true, ranges; }
      if r.first <= prevFirst { return true, ranges; }
      if r.first <= prevLast {
        overlapping := overlapping + 1;
        if overlapping > 2 { return true, ranges; }
      }
      prevFirst := Max(prevFirst, r.first);
      prevLast := Max(prevLast, r.last);
    }
    ProgressEnds(ranges, given, len, prevFirst, prevLast, overlapping);
    bad := false;
  }

  class Request {
    var ranges: seq<Range>

    constructor (rs: seq<Range>)
      ensures ranges == rs
    {
      ranges := rs;
    }

    /** True exactly for a 2xx response whose ranges are too many, out of the content, out of order, or overlap more than
        twice. When it returns false, the ranges have been replaced by positions inside the content. */
    method RangeError(status: int, contentLength: nat, bodySize: nat) returns (bad: bool)
      modifies this
      ensures if old(ranges) != [] && 200 <= status < 300
              then Verdict(old(ranges), if contentLength != 0 then contentLength else bodySize, bad, ranges)
              else !bad && ranges == old(ranges)
    {
      if ranges == [] || !(200 <= status < 300) { return false; }
      bad, ranges := CheckRanges(ranges, if contentLength != 0 then contentLength else bodySize);
    }
  }

  /** One byte after the other, the first `n` of the content. */
  function EachByte(n: nat): (rs: seq<Range>)
    ensures |rs| == n && forall i | 0 <= i < n :: rs[i] == Range(i, i)
  {
    seq(n, i => Range(i, i))
  }

  lemma {:induction false} NoOverlaps(rs: seq<Range>)
    requires forall i, j | 0 <= i < j < |rs| :: rs[i].last < rs[j].first
    ensures OverlapCount(rs) == 0
    decreases |rs|
  {
    if rs != [] {
      var n := |rs| - 1;
      assert forall i | 0 <= i < n :: rs[..n][i] == rs[i];
      NoOverlaps(rs[..n]);
      assert !Overlaps(rs, n);
    }
  }

  /** Nothing but the number stands against ranges side by side: as many as 1024 are accepted, and no more. */
  lemma CountLimit(n: nat, len: nat)
    requires n <= len
    ensures Satisfiable(EachByte(n), len) <==> n <= 1024
  {
    var rs := EachByte(n);
    var all := NormalizedAll(rs, len);
    assert all == rs;
    NoOverlaps(rs);
  }

  // --- what the limits give

  function Total(rs: seq<Range>): int {
    if rs == [] then 0 else Total(rs[..|rs| - 1]) + rs[|rs| - 1].last - rs[|rs| - 1].first + 1
  }

  /** How many of the ranges contain the byte. */
  function Cover(rs: seq<Range>, byte: nat): nat {
    if rs == [] then 0
    else Cover(rs[..|rs| - 1], byte) + if rs[|rs| - 1].first <= byte <= rs[|rs| - 1].last then 1 else 0
  }

  lemma {:induction false} HighestExists(rs: seq<Range>, len: nat) returns (first: int, last: int)
    requires AllInside(rs, len)
    ensures Highest(rs, first, last) && first < len && -1 <= last < len
    decreases |rs|
  {
    if rs == [] {
      first, last := -1, -1;
    } else {
      var n := |rs| - 1;
      assert rs == rs[..n] + [rs[n]];
      AllInsideStep(rs[..n], rs[n], len);
      first, last := HighestExists(rs[..n], len);
      HighestStep(rs[..n], rs[n], len, first, last);
      first, last := Max(first, rs[n].first), Max(last, rs[n].last);
    }
  }

  /** The last range against the ranges in front of it. */
  lemma LastRange(rs: seq<Range>, len: nat, first: int, last: int) returns (f: int, l: int)
    requires rs != [] && AllInside(rs, len) && Highest(rs, first, last)
    ensures var front, r := rs[..|rs| - 1], rs[|rs| - 1];
            && AllInside(front, len) && Highest(front, f, l) && -1 <= l && Inside(r, len)
            && last == Max(l, r.last)
            && OverlapCount(rs) == OverlapCount(front) + if r.first <= l then 1 else 0
  {
    var front, r := rs[..|rs| - 1], rs[|rs| - 1];
    assert rs == front + [r];
    AllInsideStep(front, r, len);
    hide AllInside, Overlaps, OverlapCount;
    f, l := HighestExists(front, len);
    OverlapStep(front, r, f, l);
    HighestStep(front, r, len, f, l);
    SameHighest(rs, first, last, Max(f, r.first), Max(l, r.last));
  }

  /** The ranges that do not overlap earlier ones lie side by side below the highest end. */
  lemma {:induction false} Packed(rs: seq<Range>, len: nat, first: int, last: int, byte: nat)
    requires AllInside(rs, len) && Highest(rs, first, last)
    ensures Total(rs) <= last + 1 + OverlapCount(rs) * len
    ensures Cover(rs, byte) <= OverlapCount(rs) + if byte <= last then 1 else 0
    decreases |rs|
  {
    hide AllInside, Overlaps;
    if rs == [] {
      assert OverlapCount(rs) == 0 && OverlapCount(rs) * len == 0;
    } else {
      hide Highest, OverlapCount;
      var front := rs[..|rs| - 1];
      var f, l := LastRange(rs, len, first, last);
      Packed(front, len, f, l, byte);
      MulSucc(OverlapCount(front), len);
    }
  }

  lemma MulSucc(n: nat, len: nat)
    ensures (n + 1) * len == n * len + len
  {
  }

  lemma SameHighest(rs: seq<Range>, first: int, last: int, first': int, last': int)
    requires Highest(rs, first, last) && Highest(rs, first', last')
    ensures first == first' && last == last'
  {
  }

  lemma AtMostTwice(n: nat, len: nat)
    requires n <= 2
    ensures n * len <= 2 * len
  {
  }

  /** Whatever the client asks, no byte is sent more than three times and the accepted ranges add up to at most three
      times the content. */
  lemma AcceptedIsBounded(rs: seq<Range>, len: nat, byte: nat)
    requires Satisfiable(rs, len)
    ensures Cover(NormalizedAll(rs, len), byte) <= 3
    ensures Total(NormalizedAll(rs, len)) <= 3 * len
  {
    hide Normalized, Inside, Highest, OverlapCount, Total, Cover;
    var ns := NormalizedAll(rs, len);
    var first, last := HighestExists(ns, len);
    Packed(ns, len, first, last, byte);
    AtMostTwice(OverlapCount(ns), len);
  }

  // --- the multipart body

  function Decimal(n: nat): string {
    if n < 10 then ["0123456789"[n]] else Decimal(n / 10) + ["0123456789"[n % 10]]
  }

  function GetRangeOffsetAndLength(r: Range, contentLength: nat): (ol: (nat, nat))
    requires Inside(r, contentLength)
    ensures ol.1 > 0 && ol.0 + ol.1 <= contentLength
    ensures ol.0 == r.first && ol.0 + ol.1 - 1 == r.last
  {
    (r.first, r.last - r.first + 1)
  }

  function ContentRangeField(ol: (nat, nat), contentLength: nat): string
    requires ol.1 > 0
  {
    "bytes " + Decimal(ol.0) + "-" + Decimal(ol.0 + ol.1 - 1) + "/" + Decimal(contentLength)
  }

  /** What comes before a part's content. */
  function PartHead(r: Range, boundary: string, contentType: string, len: nat): string
    requires Inside(r, len)
  {
    "--" + boundary + CRLF
    + (if contentType == "" then "" else "Content-Type: " + contentType + CRLF)
    + "Content-Range: " + ContentRangeField(GetRangeOffsetAndLength(r, len), len) + CRLF + CRLF
  }

  function Parts(rs: seq<Range>, boundary: string, contentType: string, body: string): string
    requires forall r | r in rs :: Inside(r, |body|)
  {
    if rs == [] then ""
    else
      var r := rs[|rs| - 1];
      Parts(rs[..|rs| - 1], boundary, contentType, body)
      + (PartHead(r, boundary, contentType, |body|) + body[r.first..r.last + 1] + CRLF)
  }

  function MultipartBody(rs: seq<Range>, boundary: string, contentType: string, body: string): string
    requires forall r | r in rs :: Inside(r, |body|)
  {
    Parts(rs, boundary, contentType, body) + ("--" + boundary + "--")
  }

  /** The header text, appended token by token. */
  lemma HeadIs(before: string, data: string, r: Range, boundary: string, contentType: string, len: nat)
    requires Inside(r, len)
    requires data == (if contentType == "" then before + "--" + boundary + CRLF
                      else before + "--" + boundary + CRLF + "Content-Type: " + contentType + CRLF)
                     + "Content-Range: " + ContentRangeField(GetRangeOffsetAndLength(r, len), len) + CRLF + CRLF
    ensures data == before + PartHead(r, boundary, contentType, len)
  {
    hide ContentRangeField;
    if contentType != "" {
      var t := "Content-Type: " + contentType + CRLF;
      assert before + "--" + boundary + CRLF + "Content-Type: " + contentType + CRLF == before + "--" + boundary + CRLF + t;
    } else {
      assert before + "--" + boundary + CRLF + "" == before + "--" + boundary + CRLF;
    }
    Behind(before, boundary, if contentType == "" then "" else "Content-Type: " + contentType + CRLF,
           ContentRangeField(GetRangeOffsetAndLength(r, len), len));
  }

  lemma Behind(before: string, boundary: string, t: string, field: string)
    ensures before + "--" + boundary + CRLF + t + "Content-Range: " + field + CRLF + CRLF
            == before + ("--" + boundary + CRLF + t + "Content-Range: " + field + CRLF + CRLF)
  {
  }

  method MakeMultipartRangesData(rs: seq<Range>, boundary: string, contentType: string, body: string) returns (data: string)
    requires forall r | r in rs :: Inside(r, |body|)
    ensures data == MultipartBody(rs, boundary, contentType, body)
  {
    hide PartHead, ContentRangeField, GetRangeOffsetAndLength;
    data := "";
    for i := 0 to |rs|
      invariant forall r | r in rs[..i] :: Inside(r, |body|)
      invariant data == Parts(rs[..i], boundary, contentType, body)
    {
      assert rs[i] in rs && rs[..i + 1][..i] == rs[..i];
      ghost var before := data;
      data := data + "--";
      data := data + boundary;
      data := data + CRLF;
      if contentType != "" {
        data := data + "Content-Type: ";
        data := data + contentType;
        data := data + CRLF;
      }
      var (offset, length) := GetRangeOffsetAndLength(rs[i], |body|);
      data := data + "Content-Range: ";
      data := data + ContentRangeField((offset, length), |body|);
      data := data + CRLF;
      data := data + CRLF;
      ghost var head := PartHead(rs[i], boundary, contentType, |body|);
      HeadIs(before, data, rs[i], boundary, contentType, |body|);
      data := data + body[offset..offset + length];
      data := data + CRLF;
      assert data == before + (head + body[offset..offset + length] + CRLF);
    }
    assert rs[..|rs|] == rs;
    ghost var parts := data;
    data := data + "--";
    data := data + boundary;
    data := data + "--";
    assert data == parts + ("--" + boundary + "--");
  }

  lemma HeadLength(r: Range, boundary: string, contentType: string, len: nat)
    requires Inside(r, len)
    ensures |PartHead(r, boundary, contentType, len)|
            == (if contentType == "" then 0 else |"Content-Type: "| + |contentType| + 2)
               + 2 + |boundary| + 2 + |"Content-Range: "| + |ContentRangeField(GetRangeOffsetAndLength(r, len), len)| + 4
  {
  }

  lemma {:induction false} PartsLength(rs: seq<Range>, boundary: string, contentType: string, b1: string, b2: string)
    requires |b1| == |b2| && forall r | r in rs :: Inside(r, |b1|)
    ensures |Parts(rs, boundary, contentType, b1)| == |Parts(rs, boundary, contentType, b2)|
    decreases |rs|
  {
    hide PartHead;
    if rs != [] {
      assert rs[|rs| - 1] in rs;
      PartsLength(rs[..|rs| - 1], boundary, contentType, b1, b2);
    }
  }

  /** The length is announced before the body is built, from the ranges alone: it is the length of the body built from
      any content of that size. */
  method GetMultipartRangesDataLength(rs: seq<Range>, boundary: string, contentType: string, contentLength: nat)
    returns (length: nat)
    requires forall r | r in rs :: Inside(r, contentLength)
    ensures forall body: string | |body| == contentLength :: length == |MultipartBody(rs, boundary, contentType, body)|
  {
    hide PartHead, ContentRangeField, GetRangeOffsetAndLength;
    ghost var any: string := seq(contentLength, i => 'x');
    length := 0;
    for i := 0 to |rs|
      invariant forall r | r in rs[..i] :: Inside(r, contentLength)
      invariant length == |Parts(rs[..i], boundary, contentType, any)|
    {
      assert rs[i] in rs && rs[..i + 1][..i] == rs[..i];
      ghost var before := length;
      length := length + |"--"|;
      length := length + |boundary|;
      length := length + |CRLF|;
      if contentType != "" {
        length := length + |"Content-Type: "|;
        length := length + |contentType|;
        length := length + |CRLF|;
      }
      var (offset, partLength) := GetRangeOffsetAndLength(rs[i], contentLength);
      length := length + |"Content-Range: "|;
      length := length + |ContentRangeField((offset, partLength), contentLength)|;
      length := length + |CRLF|;
      length := length + |CRLF|;
      HeadLength(rs[i], boundary, contentType, contentLength);
      length := length + partLength;
      length := length + |CRLF|;
    }
    assert rs[..|rs|] == rs;
    length := length + |"--"|;
    length := length + |boundary|;
    length := length + |"--"|;
    forall body: string | |body| == contentLength ensures length == |MultipartBody(rs, boundary, contentType, body)| {
      PartsLength(rs, boundary, contentType, any, body);
    }
  }
}
