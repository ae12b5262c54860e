/** Bytes and the few sequence facts every codec in this project uses. */
module Bytes {

  type uint8 = x: int | 0 <= x < 0x100
  type uint16 = x: int | 0 <= x < 0x1_0000
  type uint32 = x: int | 0 <= x < 0x1_0000_0000

  type Octets = seq<uint8>

  /** The concatenation, in order, of all the sequences in `parts`. */
  function Flatten<T>(parts: seq<seq<T>>): (r: seq<T>)
    ensures parts == [] ==> r == []
  {
    if parts == [] then [] else parts[0] + Flatten(parts[1..])
  }

  lemma Regroup<T>(x: seq<T>, y: seq<T>, z: seq<T>)
    ensures x + (y + z) == x + y + z
  {
  }

  lemma {:induction false} FlattenConcat<T>(xs: seq<seq<T>>, ys: seq<seq<T>>)
    ensures Flatten(xs + ys) == Flatten(xs) + Flatten(ys)
  {
    if xs == [] {
      assert xs + ys == ys;
    } else {
      FlattenConcat(xs[1..], ys);
      assert (xs + ys)[1..] == xs[1..] + ys && (xs + ys)[0] == xs[0];
      Regroup(xs[0], Flatten(xs[1..]), Flatten(ys));
    }
  }

  /** Two bytes, most significant first. */
  function Be16(n: uint16): (r: Octets)
    ensures |r| == 2 && From16(r[0], r[1]) == n
  {
    [n / 0x100, n % 0x100]
  }

  function From16(hi: uint8, lo: uint8): uint16 {
    hi as int * 0x100 + lo as int
  }

  /** The low `k` bytes of `n`, most significant first. */
  function BigEndian(n: nat, k: nat): (r: Octets)
    ensures |r| == k
    decreases k
  {
    if k == 0 then [] else BigEndian(n / 0x100, k - 1) + [n % 0x100]
  }

  /** The number that big-endian bytes denote. */
  function Value(b: Octets): nat {
    if b == [] then 0 else Value(b[..|b| - 1]) * 0x100 + b[|b| - 1]
  }

  function Pow256(k: nat): (p: nat)
    ensures p > 0
  {
    if k == 0 then 1 else 0x100 * Pow256(k - 1)
  }

  lemma {:induction false} ValueOfBigEndian(n: nat, k: nat)
    requires n < Pow256(k)
    ensures Value(BigEndian(n, k)) == n
    decreases k
  {
    if k > 0 {
      ValueOfBigEndian(n / 0x100, k - 1);
      assert BigEndian(n, k)[..k - 1] == BigEndian(n / 0x100, k - 1);
    }
  }

  lemma {:induction false} BigEndianOfValue(b: Octets)
    ensures Value(b) < Pow256(|b|)
    ensures BigEndian(Value(b), |b|) == b
    decreases |b|
  {
    if b != [] {
      BigEndianOfValue(b[..|b| - 1]);
      assert b == b[..|b| - 1] + [b[|b| - 1]];
      assert Value(b) / 0x100 == Value(b[..|b| - 1]);
    }
  }

  /** The four bytes as the shifts and masks of the sources compute them. */
  lemma BigEndian4(n: nat)
    ensures BigEndian(n, 4) == [n / 0x100_0000 % 0x100, n / 0x1_0000 % 0x100, n / 0x100 % 0x100, n % 0x100]
  {
    var n1 := n / 0x100;
    var n2 := n1 / 0x100;
    var n3 := n2 / 0x100;
    assert BigEndian(n3, 1) == [n3 % 0x100];
    assert BigEndian(n2, 2) == [n3 % 0x100, n2 % 0x100];
    assert BigEndian(n1, 3) == [n3 % 0x100, n2 % 0x100, n1 % 0x100];
    assert n2 == n / 0x1_0000 && n3 == n / 0x100_0000;
  }

  lemma QuotientUnique(n: nat, d: nat, q: nat, r: nat)
    requires d > 0 && r < d && n == d * q + r
    ensures n / d == q
  {
    var p: int := n / d;
    MulSign(p - q, d);
    assert (p - q) * d == p * d - q * d;
    assert p * d + n % d == n;
  }

  lemma MulSign(e: int, d: nat)
    ensures (e >= 1 ==> e * d >= d) && (e <= -1 ==> e * d + d <= 0)
  {
  }

  /** A big-endian number, read one byte after the other. */
  method ReadBigEndian(b: Octets, offset: nat, count: nat) returns (n: nat)
    requires offset + count <= |b|
    ensures n == Value(b[offset..offset + count])
  {
    n := 0;
    for i := 0 to count
      invariant n == Value(b[offset..offset + i])
    {
      assert b[offset..offset + i + 1][..i] == b[offset..offset + i];
      n := n * 0x100 + b[offset + i];
    }
  }
}
