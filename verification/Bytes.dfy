/** Bytes as bounded integers and the fixed-width encodings the kernel uses.
    Shifts and masks of the C code are written as divisions and remainders. */
module Bytes {

  type Byte = x: int | 0 <= x < 256

  const U16: int := 0x1_0000
  const U32: int := 0x1_0000_0000
  const U64: int := 0x1_0000_0000_0000_0000

  function Zeros(n: nat): (s: seq<Byte>)
    ensures |s| == n && forall i :: 0 <= i < n ==> s[i] == 0
  {
    seq(n, i => 0)
  }

  /** Number of values n bytes can hold. */
  function Pow256(n: nat): (p: nat)
    ensures p > 0
  {
    if n == 0 then 1 else 256 * Pow256(n - 1)
  }

  /** v in n bytes, least significant first. */
  function LE(v: nat, n: nat): (s: seq<Byte>)
    ensures |s| == n
  {
    if n == 0 then [] else [v % 256] + LE(v / 256, n - 1)
  }

  function FromLE(s: seq<Byte>): (v: nat)
    ensures v < Pow256(|s|)
  {
    if |s| == 0 then 0 else s[0] + 256 * FromLE(s[1..])
  }

  lemma {:induction false} LERoundTrip(v: nat, n: nat)
    requires v < Pow256(n)
    ensures FromLE(LE(v, n)) == v
    decreases n
  {
    if n > 0 {
      assert LE(v, n)[1..] == LE(v / 256, n - 1);
      LERoundTrip(v / 256, n - 1);
    }
  }

  lemma {:induction false} FromLERoundTrip(s: seq<Byte>)
    ensures LE(FromLE(s), |s|) == s
    decreases |s|
  {
    if |s| > 0 {
      FromLERoundTrip(s[1..]);
      var v := FromLE(s);
      assert v % 256 == s[0] && v / 256 == FromLE(s[1..]);
    }
  }

  lemma {:induction false} FromLESplit(s: seq<Byte>, n: nat)
    requires n <= |s|
    ensures FromLE(s) == FromLE(s[..n]) + Pow256(n) * FromLE(s[n..])
    decreases n
  {
    if n > 0 {
      FromLESplit(s[1..], n - 1);
      assert s[1..][..n - 1] == s[..n][1..] && s[1..][n - 1..] == s[n..];
      SplitStep(s[0], FromLE(s[1..]), FromLE(s[..n][1..]), Pow256(n - 1), FromLE(s[n..]));
    } else {
      assert s[..0] == [] && s[0..] == s;
    }
  }

  lemma SplitStep(b: int, rest: nat, lo: nat, p: nat, hi: nat)
    requires rest == lo + p * hi
    ensures b + 256 * rest == b + 256 * lo + (256 * p) * hi
  {
    assert (256 * p) * hi == 256 * (p * hi);
  }

  /** Little-endian words in bytes. */
  lemma TwoLE(s: seq<Byte>)
    requires |s| == 2
    ensures var b0: int, b1: int := s[0], s[1]; FromLE(s) == b0 + 256 * b1
  {
    var b1: int := s[1];
    assert s[1..][1..] == [] && FromLE(s[1..]) == b1;
  }

  lemma FourLE(s: seq<Byte>)
    requires |s| == 4
    ensures var b0: int, b1: int, b2: int, b3: int := s[0], s[1], s[2], s[3];
            FromLE(s) == b0 + 256 * b1 + 65536 * b2 + 16777216 * b3
  {
    assert s[1..][1..] == s[2..] && s[2..][1..] == s[3..] && s[3..][1..] == [];
    var b2: int, b3: int := s[2], s[3];
    assert FromLE(s[3..]) == b3 && FromLE(s[2..]) == b2 + 256 * b3;
  }

  /** Quotient and remainder from a decomposition. */
  lemma DivMod(x: int, n: int, q: int, r: int)
    requires 0 <= r < n && x == q * n + r
    ensures x / n == q && x % n == r
  {
    UniqueParts(n, x / n, x % n, q, r);
  }

  lemma UniqueParts(n: int, a: int, s: int, q: int, r: int)
    requires 0 <= s < n && 0 <= r < n && a * n + s == q * n + r
    ensures a == q && s == r
  {
    if a < q {
      AtLeastOne(q - a, n);
    } else if q < a {
      AtLeastOne(a - q, n);
    }
  }

  lemma AtLeastOne(d: int, n: int)
    requires d >= 1 && n >= 0
    ensures d * n >= n
  {
  }

  lemma Powers()
    ensures Pow256(1) == 256 && Pow256(2) == U16 && Pow256(4) == U32 && Pow256(8) == U64
  {
    assert Pow256(3) == 256 * Pow256(2);
    assert Pow256(5) == 256 * Pow256(4);
    assert Pow256(6) == 256 * Pow256(5);
    assert Pow256(7) == 256 * Pow256(6);
  }
}
