/** 64-bit machine words: wrap-around arithmetic, bitwise masks and the little-endian codec. */
module Words {
  const TWO64 := 0x1_0000_0000_0000_0000

  /** A Rust slice, `Vec` or memory map never exceeds `isize::MAX` bytes. */
  const ISIZE_MAX := 0x7fff_ffff_ffff_ffff

  type Byte = x: int | 0 <= x < 256
  type U64 = x: int | 0 <= x < TWO64

  // ---------- wrap-around arithmetic (release builds) ----------

  function WrapAdd(a: U64, b: U64): U64 {
    if a + b < TWO64 then a + b else a + b - TWO64
  }

  function WrapMul(a: U64, b: U64): U64 {
    var product := a * b;
    if product < TWO64 then product else product % TWO64
  }

  /** Both operations are the integer ones modulo 2^64. */
  lemma WrapIsModular(a: U64, b: U64)
    ensures WrapAdd(a, b) == (a + b) % TWO64
    ensures WrapMul(a, b) == (a * b) % TWO64
  {
  }

  lemma WrapMulExact(a: U64, b: U64)
    requires a * b < TWO64
    ensures WrapMul(a, b) == a * b
  {
  }

  // ---------- bitwise operators on words of a given width ----------

  /** `a & !b` on words of `width` bits. */
  function AndNot(width: nat, a: nat, b: nat): nat {
    if width == 0 then 0
    else (if a % 2 == 1 && b % 2 == 0 then 1 else 0) + 2 * AndNot(width - 1, a / 2, b / 2)
  }

  function Pow2(n: nat): (p: nat)
    ensures p > 0
  {
    if n == 0 then 1 else 2 * Pow2(n - 1)
  }

  lemma {:induction false} AndNotZero(width: nat, a: nat)
    requires a < Pow2(width)
    ensures AndNot(width, a, 0) == a
  {
    if width > 0 {
      AndNotZero(width - 1, a / 2);
    }
  }

  lemma {:induction false} HalfMod(a: nat, low: nat)
    requires low > 0
    ensures a % Pow2(low) == a % 2 + 2 * ((a / 2) % Pow2(low - 1))
  {
    var p := Pow2(low - 1);
    var q, r := (a / 2) / p, (a / 2) % p;
    assert a / 2 == q * p + r;
    assert a == a % 2 + 2 * (a / 2);
    assert a == q * (2 * p) + (a % 2 + 2 * r);
    ModUnique(a, 2 * p, q, a % 2 + 2 * r);
  }

  lemma MulAtLeast(k: int, d: int)
    requires k >= 1 && d > 0
    ensures k * d >= d
  {
  }

  lemma ModUnique(a: int, d: int, q: int, r: int)
    requires d > 0 && 0 <= r < d && a == q * d + r
    ensures a / d == q && a % d == r
  {
    var k := q - a / d;
    assert k * d == a % d - r;
    if k >= 1 {
      MulAtLeast(k, d);
    } else if k <= -1 {
      MulAtLeast(-k, d);
    }
  }

  /** The value of the `low` lowest bits. */
  function LowBits(low: nat, a: nat): nat {
    if low == 0 then 0 else a % 2 + 2 * LowBits(low - 1, a / 2)
  }

  /** The word with exactly the `low` lowest bits set. */
  function Ones(low: nat): nat {
    if low == 0 then 0 else 1 + 2 * Ones(low - 1)
  }

  lemma {:induction false} LowBitsIsRemainder(low: nat, a: nat)
    ensures LowBits(low, a) == a % Pow2(low)
  {
    if low > 0 {
      LowBitsIsRemainder(low - 1, a / 2);
      HalfMod(a, low);
    }
  }

  /** Masking with the complement of `low` ones clears exactly the `low` lowest bits. */
  lemma {:induction false} AndNotLow(width: nat, low: nat, a: nat)
    requires low <= width && a < Pow2(width)
    ensures AndNot(width, a, Ones(low)) == a - LowBits(low, a)
  {
    if low == 0 {
      AndNotZero(width, a);
    } else {
      AndNotLow(width - 1, low - 1, a / 2);
      assert Ones(low) % 2 == 1 && Ones(low) / 2 == Ones(low - 1);
    }
  }

  lemma Pow2Values()
    ensures Pow2(12) == 4096 && Pow2(64) == TWO64
  {
    assert Pow2(8) == 256;
    assert Pow2(12) == 4096;
    assert Pow2(16) == 65536;
    assert Pow2(24) == 0x100_0000;
    assert Pow2(32) == 0x1_0000_0000;
    assert Pow2(40) == 0x100_0000_0000;
    assert Pow2(48) == 0x1_0000_0000_0000;
    assert Pow2(56) == 0x100_0000_0000_0000;
  }

  lemma MaskLow12(a: U64)
    ensures AndNot(64, a, 4095) == 4096 * (a / 4096)
  {
    Pow2Values();
    assert Ones(6) == 63;
    assert Ones(12) == 4095;
    AndNotLow(64, 12, a);
    LowBitsIsRemainder(12, a);
  }

  // ---------- little-endian integers ----------

  function Pow256(n: nat): (p: nat)
    ensures p > 0
  {
    if n == 0 then 1 else 256 * Pow256(n - 1)
  }

  function ToLe(width: nat, x: nat): (b: seq<Byte>)
    ensures |b| == width
  {
    if width == 0 then [] else [x % 256] + ToLe(width - 1, x / 256)
  }

  function FromLe(b: seq<Byte>): (x: nat)
    ensures x < Pow256(|b|)
  {
    if b == [] then 0 else b[0] + 256 * FromLe(b[1..])
  }

  lemma {:induction false} FromToLe(width: nat, x: nat)
    requires x < Pow256(width)
    ensures FromLe(ToLe(width, x)) == x
  {
    if width > 0 {
      FromToLe(width - 1, x / 256);
      assert ToLe(width, x)[1..] == ToLe(width - 1, x / 256);
    }
  }

  lemma {:induction false} ToFromLe(b: seq<Byte>)
    ensures ToLe(|b|, FromLe(b)) == b
  {
    if b != [] {
      ToFromLe(b[1..]);
      assert FromLe(b) / 256 == FromLe(b[1..]);
      assert b == [b[0]] + b[1..];
    }
  }

  lemma Pow256Of8()
    ensures Pow256(8) == TWO64
  {
    assert Pow256(4) == 0x1_0000_0000;
  }

  /** `u64::to_le_bytes`. */
  function LeBytes(x: U64): (b: seq<Byte>)
    ensures |b| == 8
  {
    ToLe(8, x)
  }

  /** `u64::from_le_bytes`. */
  function LeValue(b: seq<Byte>): (x: U64)
    requires |b| == 8
  {
    Pow256Of8();
    FromLe(b)
  }

  lemma DivDiv(x: nat, d: nat)
    requires d > 0
    ensures (x / 256) / d == x / (256 * d)
  {
    var q, r := (x / 256) / d, (x / 256) % d;
    assert x / 256 == q * d + r;
    assert x == x % 256 + 256 * (x / 256);
    assert x == q * (256 * d) + (x % 256 + 256 * r);
    ModUnique(x, 256 * d, q, x % 256 + 256 * r);
  }

  lemma {:induction false} ToLeDigit(width: nat, x: nat, i: nat)
    requires i < width
    ensures ToLe(width, x)[i] == (x / Pow256(i)) % 256
  {
    if i > 0 {
      ToLeDigit(width - 1, x / 256, i - 1);
      DivDiv(x, Pow256(i - 1));
    }
  }

  /** Byte `i` is the base-256 digit of weight 256^i: the lowest byte comes first. */
  lemma LeDigit(x: U64, i: nat)
    requires i < 8
    ensures LeBytes(x)[i] == (x / Pow256(i)) % 256
  {
    ToLeDigit(8, x, i);
  }

  /** The 8-byte little-endian codec is a bijection between words and byte strings. */
  lemma LeRoundTrip(x: U64)
    ensures LeValue(LeBytes(x)) == x
  {
    Pow256Of8();
    FromToLe(8, x);
  }

  lemma LeInverse(b: seq<Byte>)
    requires |b| == 8
    ensures LeBytes(LeValue(b)) == b
  {
    ToFromLe(b);
  }
}
