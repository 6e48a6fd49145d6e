/** Byte strings: fixed-width integers and the file patching done by pwrite. */
module Bytes {

  type byte = x: int | 0 <= x < 256

  const TWO31: int := 0x8000_0000
  const TWO32: int := 0x1_0000_0000
  const TWO63: int := 0x8000_0000_0000_0000
  const TWO64: int := 0x1_0000_0000_0000_0000

  function Zeros(n: nat): (z: seq<byte>)
    ensures |z| == n
    ensures forall k :: 0 <= k < n ==> z[k] == 0
  {
    seq(n, k => 0)
  }

  function Max(a: int, b: int): int {
    if a >= b then a else b
  }

  function Min(a: int, b: int): int {
    if a <= b then a else b
  }

  /** The content of a file after `d` is written at position `at`: bytes in the way are replaced,
      a gap beyond the old end reads as zero, and an empty write changes nothing. */
  function Patch(f: seq<byte>, at: nat, d: seq<byte>): (r: seq<byte>)
    ensures |r| == if d == [] then |f| else Max(|f|, at + |d|)
    ensures forall k :: 0 <= k < |r| ==>
              r[k] == if at <= k < at + |d| then d[k - at] else if k < |f| then f[k] else 0
  {
    if d == [] then f
    else seq(Max(|f|, at + |d|), k requires 0 <= k =>
               if at <= k < at + |d| then d[k - at] else if k < |f| then f[k] else 0)
  }

  lemma PatchAt(f: seq<byte>, at: nat, d: seq<byte>, k: nat)
    requires at + |d| <= |f| && k < |f|
    ensures |Patch(f, at, d)| == |f|
    ensures Patch(f, at, d)[k] == if at <= k < at + |d| then d[k - at] else f[k]
  {
  }

  lemma PatchNothing(f: seq<byte>, at: nat)
    ensures Patch(f, at, []) == f
  {
  }

  /** A write inside `lo..hi` of a file leaves every other byte as it was. */
  lemma PatchFrame(f: seq<byte>, at: nat, d: seq<byte>, lo: nat, hi: nat)
    requires lo <= at && at + |d| <= hi <= |f|
    ensures |Patch(f, at, d)| == |f|
    ensures forall p :: 0 <= p < |f| && !(lo <= p < hi) ==> Patch(f, at, d)[p] == f[p]
  {
  }

  /** `s` with the bytes from `at` on replaced by `d`. */
  function Splice(s: seq<byte>, at: nat, d: seq<byte>): (r: seq<byte>)
    requires at + |d| <= |s|
  {
    s[..at] + d + s[at + |d|..]
  }

  // ---------- fixed-width integers ----------

  ghost function Pow256(n: nat): (p: nat)
    ensures p > 0
  {
    if n == 0 then 1 else 256 * Pow256(n - 1)
  }

  /** Little-endian encoding of the low `n` bytes of `v`. */
  function Le(v: nat, n: nat): (s: seq<byte>)
    ensures |s| == n
  {
    if n == 0 then [] else [v % 256] + Le(v / 256, n - 1)
  }

  function FromLe(s: seq<byte>): nat {
    if s == [] then 0 else s[0] + 256 * FromLe(s[1..])
  }

  lemma {:induction false} FromLeOfLe(v: nat, n: nat)
    requires v < Pow256(n)
    ensures FromLe(Le(v, n)) == v
  {
    if n != 0 {
      FromLeOfLe(v / 256, n - 1);
      assert Le(v, n)[1..] == Le(v / 256, n - 1);
    }
  }

  lemma {:induction false} FromLeBound(s: seq<byte>)
    ensures FromLe(s) < Pow256(|s|)
  {
    if s != [] {
      FromLeBound(s[1..]);
    }
  }

  /** The 32-bit little-endian number at `p`. */
  function Le32(t: seq<byte>, p: nat): nat
    requires p + 4 <= |t|
  {
    var a: int, b: int, c: int, d: int := t[p], t[p + 1], t[p + 2], t[p + 3];
    a + 0x100 * b + 0x1_0000 * c + 0x100_0000 * d
  }

  lemma FromLeFour(s: seq<byte>)
    requires |s| == 4
    ensures FromLe(s) == Le32(s, 0)
  {
    assert FromLe(s) == s[0] + 256 * FromLe(s[1..]);
    assert FromLe(s[1..]) == s[1] + 256 * FromLe(s[1..][1..]);
    assert FromLe(s[1..][1..]) == s[2] + 256 * FromLe(s[1..][1..][1..]);
    assert FromLe(s[1..][1..][1..]) == s[3] + 256 * FromLe(s[1..][1..][1..][1..]);
  }

  /** The 64-bit little-endian number at `p`. */
  function Le64(t: seq<byte>, p: nat): nat
    requires p + 8 <= |t|
  {
    Le32(t, p) + 0x1_0000_0000 * Le32(t, p + 4)
  }

  lemma FromLeEight(s: seq<byte>, p: nat)
    requires p + 8 <= |s|
    ensures FromLe(s[p..p + 8]) == Le64(s, p) < TWO64
  {
    hide Pow256;
    var t := s[p..p + 8];
    assert FromLe(t) == t[0] + 256 * FromLe(t[1..]);
    assert FromLe(t[1..]) == t[1] + 256 * FromLe(t[1..][1..]);
    assert FromLe(t[1..][1..]) == t[2] + 256 * FromLe(t[1..][1..][1..]);
    assert FromLe(t[1..][1..][1..]) == t[3] + 256 * FromLe(t[1..][1..][1..][1..]);
    assert t[1..][1..][1..][1..] == t[4..];
    FromLeFour(t[4..]);
    Pow256Values();
    FromLeBound(t);
  }

  lemma Pow256Values()
    ensures Pow256(4) == TWO32 && Pow256(8) == TWO64
  {
    assert Pow256(4) == 256 * (256 * (256 * (256 * Pow256(0))));
    assert Pow256(8) == 256 * (256 * (256 * (256 * Pow256(4))));
  }

  /** Big-endian 32-bit value of the four bytes at `at` (what ntohl yields). */
  function Be32(s: seq<byte>, at: nat): (v: nat)
    requires at + 4 <= |s|
    ensures v < TWO32
  {
    var a: int := s[at];
    var b: int := a * 256 + s[at + 1];
    var c: int := b * 256 + s[at + 2];
    c * 256 + s[at + 3]
  }

  /** The four bytes that htonl stores for `v`. */
  function Be32Bytes(v: nat): (s: seq<byte>)
    requires v < TWO32
    ensures |s| == 4 && Be32(s, 0) == v
  {
    var c := v / 256;
    var b := c / 256;
    var a := b / 256;
    [a, b % 256, c % 256, v % 256]
  }

  // ---------- products and quotients ----------

  lemma MulMono(a: nat, b: nat, c: nat)
    ensures a <= b ==> a * c <= b * c
  {
  }

  lemma MulStep(a: nat, b: nat, c: nat)
    ensures a < b ==> a * c + c <= b * c
  {
    if a < b {
      MulMono(a + 1, b, c);
    }
  }

  lemma QuotientBelow(n: nat, b: nat, k: nat)
    requires b > 0
    ensures n < k * b <==> n / b < k
  {
    assert n == n / b * b + n % b;
    MulStep(n / b, k, b);
    MulMono(k, n / b, b);
  }

  /** The quotient and remainder of a number written in a base. */
  lemma DivModOf(q: nat, b: nat, r: nat)
    requires r < b
    ensures (q * b + r) / b == q && (q * b + r) % b == r
  {
    QuotientBelow(q * b + r, b, q + 1);
    QuotientBelow(q * b + r, b, q);
    assert (q + 1) * b == q * b + b;
    assert (q * b + r) == (q * b + r) / b * b + (q * b + r) % b;
  }
}
