/** Fixed-width machine integers and their little-endian byte images, as used by every
    packed structure, packet header and argument word of the program. */
module Bytes {

  const TWO_16: nat := 0x1_0000
  const TWO_32: nat := 0x1_0000_0000
  const TWO_64: nat := 0x1_0000_0000_0000_0000

  type byte = n: int | 0 <= n < 0x100
  type u16 = n: int | 0 <= n < 0x1_0000
  type u32 = n: int | 0 <= n < 0x1_0000_0000
  type u64 = n: int | 0 <= n < 0x1_0000_0000_0000_0000

  /** What is left of n in an unsigned variable of 16, 32 or 64 bits. */
  function Wrap16(n: nat): (r: u16)
    ensures n < TWO_16 ==> r == n
  {
    n % 0x1_0000
  }

  function Wrap32(n: nat): (r: u32)
    ensures n < TWO_32 ==> r == n
  {
    n % 0x1_0000_0000
  }

  function Wrap64(n: nat): (r: u64)
    ensures n < TWO_64 ==> r == n
  {
    n % 0x1_0000_0000_0000_0000
  }

  function Min(a: nat, b: nat): nat {
    if a < b then a else b
  }

  /** The number of values that fit in n bytes. */
  function Radix(n: nat): (r: nat)
    ensures r > 0
  {
    if n == 0 then 1 else 256 * Radix(n - 1)
  }

  lemma RadixValues()
    ensures Radix(2) == TWO_16 && Radix(4) == TWO_32 && Radix(8) == TWO_64
  {
    assert Radix(2) == 256 * Radix(1) && Radix(1) == 256 * Radix(0);
    assert Radix(4) == 256 * Radix(3) && Radix(3) == 256 * Radix(2);
    assert Radix(6) == 256 * Radix(5) && Radix(5) == 256 * Radix(4);
    assert Radix(8) == 256 * Radix(7) && Radix(7) == 256 * Radix(6);
  }

  function ToLE(n: nat, v: nat): (s: seq<byte>)
    ensures |s| == n
  {
    if n == 0 then [] else [v % 256] + ToLE(n - 1, v / 256)
  }

  function FromLE(s: seq<byte>): nat {
    if s == [] then 0 else s[0] + 256 * FromLE(s[1..])
  }

  lemma {:induction false} FromToLE(n: nat, v: nat)
    requires v < Radix(n)
    ensures FromLE(ToLE(n, v)) == v
  {
    if n == 0 {
    } else {
      FromToLE(n - 1, v / 256);
      assert ToLE(n, v)[1..] == ToLE(n - 1, v / 256);
    }
  }

  lemma {:induction false} ToFromLE(s: seq<byte>)
    ensures FromLE(s) < Radix(|s|)
    ensures ToLE(|s|, FromLE(s)) == s
  {
    if s == [] {
    } else {
      ToFromLE(s[1..]);
      assert FromLE(s) / 256 == FromLE(s[1..]) && FromLE(s) % 256 == s[0];
    }
  }

  lemma {:induction false} FromLEConcat(a: seq<byte>, b: seq<byte>)
    ensures FromLE(a + b) == FromLE(a) + Radix(|a|) * FromLE(b)
  {
    if a == [] {
      assert a + b == b;
    } else {
      FromLEConcat(a[1..], b);
      assert (a + b)[1..] == a[1..] + b;
      calc {
        FromLE(a + b);
        a[0] + 256 * (FromLE(a[1..]) + Radix(|a| - 1) * FromLE(b));
        a[0] + 256 * FromLE(a[1..]) + 256 * (Radix(|a| - 1) * FromLE(b));
        { assert 256 * (Radix(|a| - 1) * FromLE(b)) == (256 * Radix(|a| - 1)) * FromLE(b); }
        FromLE(a) + Radix(|a|) * FromLE(b);
      }
    }
  }

  function Zeros(n: nat): (s: seq<byte>)
    ensures |s| == n && forall i :: 0 <= i < n ==> s[i] == 0
  {
    seq(n, _ => 0)
  }

  /** CeilByAlignSize<8> on a 32-bit argument: the addition wraps around. */
  function CeilByAlign8(v: u32): u32 {
    Wrap32(v + 7) / 8 * 8
  }

  /** The result is the least multiple of 8 that is not below v exactly when the 32-bit
      addition does not wrap; past that point the result falls to zero. */
  lemma CeilByAlign8Exact(v: u32)
    ensures (v <= CeilByAlign8(v) < v + 8 && CeilByAlign8(v) % 8 == 0) <==> v <= TWO_32 - 8
    ensures v > TWO_32 - 8 ==> CeilByAlign8(v) == 0
  {
    if v <= TWO_32 - 8 {
      assert Wrap32(v + 7) == v + 7;
    } else {
      assert Wrap32(v + 7) == v + 7 - TWO_32;
    }
  }

  lemma CeilByAlign8Fixed(v: u32)
    requires v % 8 == 0 && v <= TWO_32 - 8
    ensures CeilByAlign8(v) == v
  {
    CeilByAlign8Exact(v);
  }

  lemma SliceOfSlice<T>(s: seq<T>, lo: nat, hi: nat, a: nat, b: nat)
    requires lo <= hi <= |s| && a <= b <= hi - lo
    ensures s[lo..hi][a..b] == s[lo + a..lo + b]
  {
    var x, y := s[lo..hi][a..b], s[lo + a..lo + b];
    forall i | 0 <= i < |x| ensures x[i] == y[i] {
      assert x[i] == s[lo..hi][a + i];
    }
  }

  lemma SliceAfterPrefix<T>(s: seq<T>, a: seq<T>, b: seq<T>)
    requires a + b <= s
    ensures a <= s && |a| + |b| <= |s| && s[|a|..|a| + |b|] == b
    ensures b <= s[|a|..]
  {
    assert forall i :: 0 <= i < |a + b| ==> s[i] == (a + b)[i];
  }
}
