/**
 Machine integers and the bit and byte operations the kernel performs on them.
 Bit tests and updates are defined on the binary expansion of a natural number.
 */
module Bytes {

  type byte = x: int | 0 <= x < 0x100
  type u16 = x: int | 0 <= x < 0x1_0000
  type u32 = x: int | 0 <= x < 0x1_0000_0000
  type u64 = x: int | 0 <= x < 0x1_0000_0000_0000_0000

  /** Size of a page frame in bytes. */
  const PAGE_SIZE: nat := 4096

  function Min(a: nat, b: nat): nat { if a < b then a else b }

  function Max(a: nat, b: nat): nat { if a < b then b else a }

  /** A list without repeats. */
  ghost predicate Distinct<T>(s: seq<T>) {
    forall i, j :: 0 <= i < j < |s| ==> s[i] != s[j]
  }

  /** 64-bit unsigned arithmetic wraps around. */
  function Wrap64(x: nat): (r: u64) {
    x % 0x1_0000_0000_0000_0000
  }

  function Wrap32(x: nat): (r: u32) {
    x % 0x1_0000_0000
  }

  /** `(n >> j) & 1` */
  predicate Bit(n: nat, j: nat) {
    if j == 0 then n % 2 == 1 else Bit(n / 2, j - 1)
  }

  lemma {:induction false} ZeroBit(j: nat)
    ensures !Bit(0, j)
  {
    if j > 0 { ZeroBit(j - 1); }
  }

  /** `n | (1 << j)` */
  function SetBit(n: nat, j: nat): nat {
    if j == 0 then n - n % 2 + 1 else 2 * SetBit(n / 2, j - 1) + n % 2
  }

  /** `n & ~(1 << j)` */
  function ClearBit(n: nat, j: nat): nat {
    if j == 0 then n - n % 2 else 2 * ClearBit(n / 2, j - 1) + n % 2
  }

  function Pow2(n: nat): nat {
    if n == 0 then 1 else 2 * Pow2(n - 1)
  }

  lemma {:induction false} SetBitReads(n: nat, j: nat, k: nat)
    ensures Bit(SetBit(n, j), k) == (k == j || Bit(n, k))
  {
    if j > 0 && k > 0 {
      SetBitReads(n / 2, j - 1, k - 1);
    }
  }

  lemma {:induction false} ClearBitReads(n: nat, j: nat, k: nat)
    ensures Bit(ClearBit(n, j), k) == (k != j && Bit(n, k))
  {
    if j > 0 && k > 0 {
      ClearBitReads(n / 2, j - 1, k - 1);
    }
  }

  lemma {:induction false} ClearBitShrinks(n: nat, j: nat)
    ensures ClearBit(n, j) <= n
  {
    if j > 0 {
      ClearBitShrinks(n / 2, j - 1);
    }
  }

  lemma {:induction false} BitUpdateRange(n: nat, j: nat, w: nat)
    requires j < w && n < Pow2(w)
    ensures SetBit(n, j) < Pow2(w)
    ensures ClearBit(n, j) < Pow2(w)
  {
    var h := Pow2(w - 1);
    HalfBelow(n, h);
    if j > 0 {
      BitUpdateRange(n / 2, j - 1, w - 1);
      DoubleBelow(SetBit(n / 2, j - 1), n % 2, h);
      DoubleBelow(ClearBit(n / 2, j - 1), n % 2, h);
    }
  }

  lemma HalfBelow(n: nat, h: nat)
    requires n < 2 * h
    ensures n / 2 < h && n - n % 2 + 1 < 2 * h && n - n % 2 < 2 * h
  {
  }

  lemma DoubleBelow(x: nat, b: nat, h: nat)
    requires x < h && b < 2
    ensures 2 * x + b < 2 * h
  {
  }

  lemma Pow2Eight()
    ensures Pow2(8) == 0x100
  {
    assert Pow2(4) == 16;
  }

  /** `a | b` */
  function Or(a: nat, b: nat): nat {
    if a == 0 && b == 0 then 0
    else 2 * Or(a / 2, b / 2) + (if a % 2 == 1 || b % 2 == 1 then 1 else 0)
  }

  lemma {:induction false} OrReads(a: nat, b: nat, j: nat)
    ensures Bit(Or(a, b), j) == (Bit(a, j) || Bit(b, j))
  {
    if a == 0 && b == 0 {
      ZeroBit(j);
    } else if j > 0 {
      OrReads(a / 2, b / 2, j - 1);
    }
  }

  lemma {:induction false} OrRange(a: nat, b: nat, w: nat)
    requires a < Pow2(w) && b < Pow2(w)
    ensures Or(a, b) < Pow2(w)
  {
    if w > 0 && !(a == 0 && b == 0) {
      OrRange(a / 2, b / 2, w - 1);
    }
  }

  lemma {:induction false} Pow2Sum(m: nat, n: nat)
    ensures Pow2(m + n) == Pow2(m) * Pow2(n)
  {
    if m > 0 {
      Pow2Sum(m - 1, n);
      DoubleProduct(Pow2(m - 1), Pow2(n));
    }
  }

  lemma DoubleProduct(a: nat, b: nat)
    ensures 2 * a * b == 2 * (a * b)
  {
  }

  lemma Pow2SixtyFour()
    ensures Pow2(64) == 0x1_0000_0000_0000_0000
  {
    hide Pow2;
    Pow2Eight();
    Pow2Sum(8, 8);
    Pow2Sum(16, 16);
    Pow2Sum(32, 32);
  }

  /** `a | b` on 64-bit values. */
  function Or64(a: u64, b: u64): (r: u64)
    ensures forall j: nat :: Bit(r, j) == (Bit(a, j) || Bit(b, j))
  {
    Or64Facts(a, b);
    Or(a, b)
  }

  lemma Or64Facts(a: u64, b: u64)
    ensures Or(a, b) < 0x1_0000_0000_0000_0000
    ensures forall j: nat :: Bit(Or(a, b), j) == (Bit(a, j) || Bit(b, j))
  {
    hide Pow2, Or, Bit;
    Pow2SixtyFour();
    OrRange(a, b, 64);
    forall j: nat { OrReads(a, b, j); }
  }

  /** A bit as a digit. */
  lemma {:induction false} BitIs(n: nat, j: nat)
    ensures Pow2(j) > 0 && Bit(n, j) == (n / Pow2(j) % 2 == 1)
  {
    if j > 0 {
      BitIs(n / 2, j - 1);
      Halved(n, Pow2(j - 1));
    }
  }

  lemma Halved(n: nat, p: nat)
    requires p > 0
    ensures n / 2 / p == n / (2 * p)
  {
    var m, d := n / 2, 2 * p;
    var q, s := m / p, m % p;
    var x := q * p;
    assert m == x + s && n == 2 * x + (2 * s + n % 2);
    assert q * d == 2 * x;
    ModOfSum(q, d, 2 * s + n % 2);
  }

  lemma SmallPowers()
    ensures Pow2(7) == 0x80 && Pow2(12) == 0x1000 && Pow2(13) == 0x2000 && Pow2(14) == 0x4000 && Pow2(15) == 0x8000
  {
    assert Pow2(3) == 8 && Pow2(7) == 16 * Pow2(3);
    assert Pow2(11) == 16 * Pow2(7) && Pow2(15) == 16 * Pow2(11);
  }

  /** A `w`-bit number that is not all ones has a clear bit, and all ones has none. */
  lemma {:induction false} AllOnes(n: nat, w: nat)
    requires n == Pow2(w) - 1
    ensures forall j: nat :: j < w ==> Bit(n, j)
  {
    forall j: nat | j < w ensures Bit(n, j) {
      assert n / 2 == Pow2(w - 1) - 1 && n % 2 == 1;
      if j > 0 { AllOnes(n / 2, w - 1); }
    }
  }

  /** `b |= 1 << j` on a byte. */
  function WithBit(b: byte, j: nat): (r: byte)
    requires j < 8
    ensures forall k: nat :: Bit(r, k) == (k == j || Bit(b, k))
  {
    ByteBitFacts(b, j);
    SetBit(b, j)
  }

  /** `b &= ~(1 << j)` on a byte. */
  function WithoutBit(b: byte, j: nat): (r: byte)
    requires j < 8
    ensures forall k: nat :: Bit(r, k) == (k != j && Bit(b, k))
  {
    ByteBitFacts(b, j);
    ClearBit(b, j)
  }

  lemma ByteBitFacts(b: byte, j: nat)
    requires j < 8
    ensures SetBit(b, j) < 0x100 && ClearBit(b, j) < 0x100
    ensures forall k: nat :: Bit(SetBit(b, j), k) == (k == j || Bit(b, k))
    ensures forall k: nat :: Bit(ClearBit(b, j), k) == (k != j && Bit(b, k))
  {
    Pow2Eight();
    BitUpdateRange(b, j, 8);
    forall k: nat { SetBitReads(b, j, k); }
    forall k: nat { ClearBitReads(b, j, k); }
  }

  /** Little-endian layout of 16- and 32-bit fields. */
  function U16(s: seq<byte>): (v: u16)
    requires |s| == 2
    ensures v % 0x100 == s[0] && v / 0x100 == s[1]
  {
    (s[0] as int) + 0x100 * (s[1] as int)
  }

  function EncodeU16(v: u16): (s: seq<byte>)
    ensures |s| == 2 && U16(s) == v
  {
    [v % 0x100, v / 0x100]
  }

  function U32(s: seq<byte>): (v: u32)
    requires |s| == 4
    ensures v % 0x100 == s[0] && v / 0x100 % 0x100 == s[1] && v / 0x1_0000 % 0x100 == s[2] && v / 0x100_0000 == s[3]
  {
    U16(s[..2]) + 0x1_0000 * U16(s[2..])
  }

  /** A word is its two halves. */
  lemma Halves(s: seq<byte>)
    requires |s| == 4
    ensures U32(s) % 0x1_0000 == U16(s[..2]) && U32(s) / 0x1_0000 == U16(s[2..])
  {
  }

  function EncodeU32(v: u32): (s: seq<byte>)
    ensures |s| == 4 && U32(s) == v
  {
    var s := EncodeU16(v % 0x1_0000) + EncodeU16(v / 0x1_0000);
    assert s[..2] == EncodeU16(v % 0x1_0000) && s[2..] == EncodeU16(v / 0x1_0000);
    s
  }

  /** A byte string as little-endian 32-bit words, and back. */
  function Words(s: seq<byte>): (w: seq<u32>)
    ensures |w| == |s| / 4
  {
    seq(|s| / 4, k requires 0 <= k < |s| / 4 => U32(s[4 * k .. 4 * k + 4]))
  }

  function Unwords(w: seq<u32>): (s: seq<byte>)
    ensures |s| == 4 * |w|
  {
    if w == [] then [] else Unwords(w[..|w| - 1]) + EncodeU32(w[|w| - 1])
  }

  lemma {:induction false} UnwordsAt(w: seq<u32>, k: nat)
    requires k < |w|
    ensures Unwords(w)[4 * k .. 4 * k + 4] == EncodeU32(w[k])
  {
    var n := |w| - 1;
    if k < n {
      UnwordsAt(w[..n], k);
    }
  }

  lemma WordsUnwords(w: seq<u32>)
    ensures Words(Unwords(w)) == w
  {
    forall k: nat | k < |w| ensures Words(Unwords(w))[k] == w[k] {
      UnwordsAt(w, k);
    }
  }

  /** `s` with `t` written at `off`. */
  function Splice(s: seq<byte>, off: nat, t: seq<byte>): (r: seq<byte>)
    requires off + |t| <= |s|
    ensures |r| == |s|
    ensures forall i :: 0 <= i < |s| ==> r[i] == if off <= i < off + |t| then t[i - off] else s[i]
  {
    s[..off] + t + s[off + |t|..]
  }

  lemma ModOfSum(a: nat, m: nat, x: nat)
    requires x < m
    ensures (a * m + x) % m == x && (a * m + x) / m == a
  {
    var y := a * m + x;
    var q, r := y / m, y % m;
    assert y == q * m + r;
    var d := a - q;
    assert d * m == r - x;
    MultipleBelow(d, m);
  }

  lemma MultipleBelow(d: int, m: int)
    requires -m < d * m < m
    ensures d == 0
  {
    if d > 0 {
      assert false;
    } else if d < 0 {
      assert false;
    }
  }

  /** Splitting a remainder by a product of moduli. */
  lemma SplitMod(x: nat, a: nat, b: nat)
    requires a > 0 && b > 0
    ensures x % (a * b) == a * (x / a % b) + x % a
  {
    var q, r := x / a, x % a;
    var t, u := q / b, q % b;
    Regroup(x, a, b, q, r, t, u);
    BelowProduct(a, u, b, r);
    ModOfSum(t, a * b, a * u + r);
  }

  lemma Regroup(x: nat, a: nat, b: nat, q: nat, r: nat, t: nat, u: nat)
    requires x == q * a + r && q == t * b + u
    ensures x == t * (a * b) + (a * u + r)
  {
    assert (t * b + u) * a == t * b * a + u * a;
    assert t * b * a == t * (a * b);
  }

  lemma BelowProduct(a: nat, u: nat, b: nat, r: nat)
    requires u < b && r < a
    ensures a * u + r < a * b
  {
    assert a * (u + 1) <= a * b;
  }
}
