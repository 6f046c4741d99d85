/** Unsigned machine arithmetic on naturals: bytes, Go's uint64, the bitwise
    operators `|`, `&` and `<<` that the handshake uses to assemble its header
    fields and to pick out the record-kind bit, and little-endian byte
    sequences. */
module Bits {

  /** One byte of the serial stream (Go's `byte`). */
  type Byte = x: int | 0 <= x < 256

  /** 2^64: the number of values of Go's `uint64`. */
  const Word: nat := 0x1_0000_0000_0000_0000

  /** Go's `uint64`. */
  type Uint64 = x: int | 0 <= x < Word

  function Pow2(k: nat): (r: nat)
    ensures r >= 1
  {
    if k == 0 then 1 else 2 * Pow2(k - 1)
  }

  lemma {:induction false} Pow2Add(j: nat, k: nat)
    ensures Pow2(j + k) == Pow2(j) * Pow2(k)
  {
    if k > 0 {
      Pow2Add(j, k - 1);
      assert Pow2(j + k) == 2 * Pow2(j + k - 1);
    }
  }

  /** The powers of two the byte-wise shifts of the header use. */
  lemma Pow2Bytes()
    ensures Pow2(7) == 128 && Pow2(8) == 256 && Pow2(16) == 65536
    ensures Pow2(24) == 0x100_0000 && Pow2(32) == 0x1_0000_0000
  {
    assert Pow2(8) == 256;
    Pow2Add(8, 8);
    Pow2Add(16, 8);
    Pow2Add(16, 16);
  }

  /** Bitwise or of two naturals, one binary digit at a time. */
  function Or(a: nat, b: nat): (r: nat)
    ensures a <= r && b <= r && r <= a + b
    decreases a
  {
    if a == 0 then b
    else if b == 0 then a
    else 2 * Or(a / 2, b / 2) + (if a % 2 == 1 || b % 2 == 1 then 1 else 0)
  }

  /** Bitwise and of two naturals, one binary digit at a time. */
  function And(a: nat, b: nat): (r: nat)
    ensures r <= a && r <= b
    decreases a
  {
    if a == 0 || b == 0 then 0
    else 2 * And(a / 2, b / 2) + (if a % 2 == 1 && b % 2 == 1 then 1 else 0)
  }

  /** Go's `x << k` on a `uint64`: bits shifted past bit 63 are lost. */
  function Shl(x: Uint64, k: nat): (r: Uint64)
    ensures x * Pow2(k) < Word ==> r == x * Pow2(k)
  {
    (x * Pow2(k)) % Word
  }

  /** Or-ing a value into bit positions the accumulator leaves clear is addition:
      this is why `acc |= b << k` assembles a little-endian number. */
  lemma {:induction false} OrDisjoint(a: nat, b: nat, k: nat)
    requires a < Pow2(k)
    ensures Or(a, b * Pow2(k)) == a + b * Pow2(k)
  {
    if k == 0 || a == 0 || b == 0 {
    } else {
      var m := b * Pow2(k - 1);
      assert b * Pow2(k) == 2 * m;
      assert (2 * m) / 2 == m && (2 * m) % 2 == 0;
      assert a / 2 < Pow2(k - 1);
      OrDisjoint(a / 2, b, k - 1);
      assert Or(a, 2 * m) == 2 * Or(a / 2, m) + a % 2;
    }
  }

  /** And-ing with a single bit 2^k keeps exactly that bit of `a`. */
  lemma {:induction false} AndPow2(a: nat, k: nat)
    ensures And(a, Pow2(k)) == if (a / Pow2(k)) % 2 == 1 then Pow2(k) else 0
  {
    if a == 0 {
    } else if k == 0 {
      assert And(a, 1) == 2 * And(a / 2, 0) + (if a % 2 == 1 then 1 else 0);
    } else {
      var p := Pow2(k - 1);
      assert Pow2(k) == 2 * p;
      assert (2 * p) / 2 == p && (2 * p) % 2 == 0;
      AndPow2(a / 2, k - 1);
      assert And(a, 2 * p) == 2 * And(a / 2, p);
      DivHalf(a, p);
    }
  }

  /** Halving and then dividing by `p` is dividing by `2 * p`. */
  lemma DivHalf(a: nat, p: nat)
    requires p > 0
    ensures a / 2 / p == a / (2 * p)
  {
    var q, r := a / 2 / p, (a / 2) % p;
    assert a / 2 == p * q + r;
    assert a == (2 * p) * q + (2 * r + a % 2);
    assert 0 <= 2 * r + a % 2 < 2 * p;
    DivUnique(a, 2 * p, q, 2 * r + a % 2);
  }

  /** Quotient and remainder are unique. */
  lemma DivUnique(a: nat, d: nat, q: nat, r: nat)
    requires d > 0 && a == d * q + r && r < d
    ensures a / d == q
  {
    MulBound(d, a / d - q, r - a % d);
  }

  lemma MulBound(d: int, x: int, y: int)
    requires d > 0 && d * x == y && -d < y < d
    ensures x == 0
  {
  }

  /** The number a byte sequence denotes, least significant byte first. */
  function LittleEndian(s: seq<Byte>): nat
  {
    if s == [] then 0 else s[0] + 256 * LittleEndian(s[1..])
  }

  lemma LittleEndianTwo(s: seq<Byte>)
    requires |s| == 2
    ensures LittleEndian(s) == s[0] as int + 256 * s[1] as int
  {
    assert LittleEndian(s[1..][1..]) == 0;
  }

  lemma LittleEndianFour(s: seq<Byte>)
    requires |s| == 4
    ensures LittleEndian(s) == s[0] as int + 256 * s[1] as int + 0x1_0000 * s[2] as int + 0x100_0000 * s[3] as int
  {
    LittleEndianTwo(s[2..]);
    assert s[1..][1..] == s[2..];
  }

  /** The `n` bytes of `v`, least significant first (the instrument's side). */
  function ToLittleEndian(v: nat, n: nat): (s: seq<Byte>)
    ensures |s| == n
  {
    if n == 0 then [] else [v % 256] + ToLittleEndian(v / 256, n - 1)
  }

  lemma {:induction false} LittleEndianBound(s: seq<Byte>)
    ensures LittleEndian(s) < Pow2(8 * |s|)
  {
    if s != [] {
      LittleEndianBound(s[1..]);
      Pow2Add(8, 8 * (|s| - 1));
      assert Pow2(8) == 256;
    }
  }

  lemma {:induction false} LittleEndianRoundTrip(v: nat, n: nat)
    requires v < Pow2(8 * n)
    ensures LittleEndian(ToLittleEndian(v, n)) == v
  {
    if n > 0 {
      Pow2Add(8, 8 * (n - 1));
      assert Pow2(8) == 256;
      LittleEndianRoundTrip(v / 256, n - 1);
      var s := ToLittleEndian(v, n);
      assert s[1..] == ToLittleEndian(v / 256, n - 1);
    } else {
      assert Pow2(0) == 1;
    }
  }

  lemma {:induction false} ToLittleEndianRoundTrip(s: seq<Byte>)
    ensures ToLittleEndian(LittleEndian(s), |s|) == s
  {
    if s != [] {
      var v := LittleEndian(s);
      assert v % 256 == s[0] && v / 256 == LittleEndian(s[1..]);
      ToLittleEndianRoundTrip(s[1..]);
    }
  }
}
