/** Bytes, and the little-endian integers that the storage formats are made of. */
module Bytes {

  newtype byte = b: int | 0 <= b < 256

  function ReadU16(d: seq<byte>, at: nat): (v: nat)
    requires at + 2 <= |d|
    ensures v < 0x1_0000
  {
    d[at] as int + 256 * (d[at + 1] as int)
  }

  function ReadU32(d: seq<byte>, at: nat): (v: nat)
    requires at + 4 <= |d|
    ensures v < 0x1_0000_0000
  {
    ReadU16(d, at) + 0x1_0000 * ReadU16(d, at + 2)
  }

  /** The `n` low bytes of `v`, least significant first. */
  function ToLE(v: nat, n: nat): (s: seq<byte>)
    ensures |s| == n
  {
    if n == 0 then [] else [(v % 256) as byte] + ToLE(v / 256, n - 1)
  }

  function FromLE(s: seq<byte>): nat {
    if s == [] then 0 else s[0] as int + 256 * FromLE(s[1..])
  }

  function Pow256(n: nat): (p: nat)
    ensures p > 0
  {
    if n == 0 then 1 else 256 * Pow256(n - 1)
  }

  /** A value that fits the width is decoded to itself. */
  lemma {:induction false} FromToLE(v: nat, n: nat)
    requires v < Pow256(n)
    ensures FromLE(ToLE(v, n)) == v
  {
    if n != 0 {
      FromToLE(v / 256, n - 1);
      assert ToLE(v, n)[1..] == ToLE(v / 256, n - 1);
    }
  }

  lemma {:induction false} ToFromLE(s: seq<byte>)
    ensures FromLE(s) < Pow256(|s|) && ToLE(FromLE(s), |s|) == s
  {
    if s != [] {
      var low, w := s[0] as int, FromLE(s[1..]);
      ToFromLE(s[1..]);
      LowByte(low, w);
      assert FromLE(s) == low + 256 * w;
      assert [s[0]] + s[1..] == s;
    }
  }

  /** Byte `k` is the `k`-th digit to the base 256. */
  lemma {:induction false} ToLEDigits(v: nat, n: nat, k: nat)
    requires k < n
    ensures ToLE(v, n)[k] as nat == v / Pow256(k) % 256
  {
    if k > 0 {
      ToLEDigits(v / 256, n - 1, k - 1);
      DivideTwice(v, 256, Pow256(k - 1));
    }
  }

  lemma DivideTwice(v: nat, a: nat, b: nat)
    requires a > 0 && b > 0
    ensures a * b > 0 && v / a / b == v / (a * b)
  {
    var w, low := v / a, v % a;
    var q, r := w / b, w % b;
    Expanded(a, b, q, r, low);
    QuotientIs(v, a * b, q, a * r + low);
  }

  lemma Expanded(a: nat, b: nat, q: nat, r: nat, low: nat)
    requires low < a && r < b
    ensures a * b > 0 && a * (b * q + r) + low == (a * b) * q + (a * r + low) && a * r + low < a * b
  {
    assert a * (b * q + r) == a * (b * q) + a * r;
    assert a * (b * q) == (a * b) * q;
    assert a * (r + 1) == a * r + a;
    Scaled(a, r + 1, b);
  }

  lemma Scaled(a: nat, x: nat, y: nat)
    requires x <= y
    ensures a * x <= a * y
  {
  }

  lemma QuotientIs(v: nat, d: nat, q: nat, r: nat)
    requires v == d * q + r && r < d
    ensures v / d == q
  {
    assert v == d * (v / d) + v % d;
    assert d * (v / d - q) == r - v % d && d * (q - v / d) == v % d - r;
    NoWholeMultiple(d, v / d - q);
    NoWholeMultiple(d, q - v / d);
  }

  lemma NoWholeMultiple(d: int, x: int)
    requires d > 0 && d * x < d
    ensures x <= 0
  {
  }

  lemma LowByte(low: nat, w: nat)
    requires low < 256
    ensures (low + 256 * w) % 256 == low && (low + 256 * w) / 256 == w
  {
  }

  lemma PowValues()
    ensures Pow256(1) == 0x100 && Pow256(2) == 0x1_0000 && Pow256(4) == 0x1_0000_0000
    ensures Pow256(8) == 0x1_0000_0000_0000_0000
  {
    assert Pow256(0) == 1;
    assert Pow256(3) == 0x100_0000;
    assert Pow256(5) == 256 * Pow256(4);
    assert Pow256(6) == 256 * Pow256(5);
    assert Pow256(7) == 256 * Pow256(6);
  }

  /** `d` with `bs` written over the bytes from `at` on. */
  function Splice(d: seq<byte>, at: nat, bs: seq<byte>): (r: seq<byte>)
    requires at + |bs| <= |d|
    ensures |r| == |d|
  {
    d[..at] + bs + d[at + |bs|..]
  }

  function Zeros(n: nat): (z: seq<byte>)
    ensures |z| == n
  {
    seq(n, _ => 0)
  }
}
