/**
 * Rust's `i32` and the operations on it that the generator uses.
 *
 * A value is an integer in [-2^31, 2^31). The `wrapping_*` operations reduce
 * their exact result modulo 2^32 into that interval; `wrapping_shr` on a
 * signed integer is an arithmetic (sign-extending) shift, that is, division
 * rounded towards negative infinity; `^` works on the 32-bit two's-complement
 * representation. The checked operators `+`, `-` and `abs` appear as
 * preconditions that rule out overflow (Rust panics there in debug builds and
 * wraps in release builds); `%` panics on a zero divisor and on
 * `i32::MIN % -1` in every build, and its precondition excludes exactly those.
 */
module I32 {
  import opened Bits

  const MIN: int := -0x8000_0000
  const MAX: int := 0x7FFF_FFFF
  /** 2^32, the number of distinct `i32` values. */
  const MODULUS: int := 0x1_0000_0000

  newtype i32 = x: int | -0x8000_0000 <= x < 0x8000_0000

  lemma Pow2Constants()
    ensures Pow2(31) == 0x8000_0000 && Pow2(32) == MODULUS
  {
    assert Pow2(8) == 0x100;
    assert Pow2(16) == 0x1_0000 by {
      assert Pow2(12) == 0x1000;
    }
    assert Pow2(24) == 0x100_0000 by {
      assert Pow2(20) == 0x10_0000;
    }
    assert Pow2(28) == 0x1000_0000;
  }

  /** The two's-complement bit pattern of `x`, read as an unsigned number. */
  function Unsigned(x: i32): (u: nat)
    ensures u < MODULUS
    ensures u >= 0x8000_0000 <==> x < 0
    ensures (u - x as int) % MODULUS == 0
  {
    if x < 0 then x as int + MODULUS else x as int
  }

  /** The `i32` whose two's-complement bit pattern is the unsigned number `u`. */
  function Signed(u: nat): (x: i32)
    requires u < MODULUS
    ensures x < 0 <==> u >= 0x8000_0000
    ensures Unsigned(x) == u
  {
    if u >= 0x8000_0000 then (u - MODULUS) as i32 else u as i32
  }

  /** Bit `i` of the two's-complement representation of `x`. */
  predicate Bit32(x: i32, i: nat) {
    Bit(Unsigned(x), i)
  }

  /** Reduction of an exact result modulo 2^32 into the `i32` range. */
  function Wrap(x: int): (r: i32)
    ensures (r as int - x) % MODULUS == 0
    ensures MIN <= x <= MAX ==> r as int == x
  {
    ((x - MIN) % MODULUS + MIN) as i32
  }

  /** `i32::wrapping_add`. */
  function WrappingAdd(a: i32, b: i32): (r: i32)
    ensures (r as int - (a as int + b as int)) % MODULUS == 0
    ensures MIN <= a as int + b as int <= MAX ==> r as int == a as int + b as int
  {
    Wrap(a as int + b as int)
  }

  /** `i32::wrapping_sub`. */
  function WrappingSub(a: i32, b: i32): (r: i32)
    ensures (r as int - (a as int - b as int)) % MODULUS == 0
    ensures MIN <= a as int - b as int <= MAX ==> r as int == a as int - b as int
  {
    Wrap(a as int - b as int)
  }

  /** `i32::wrapping_mul`. */
  function WrappingMul(a: i32, b: i32): (r: i32)
    ensures (r as int - a as int * b as int) % MODULUS == 0
  {
    Wrap(a as int * b as int)
  }

  /** `i32::wrapping_shl`: the shift amount is masked to its low five bits. */
  function WrappingShl(a: i32, k: nat): (r: i32)
    ensures (r as int - a as int * Pow2(k % 32)) % MODULUS == 0
  {
    Wrap(a as int * Pow2(k % 32))
  }

  lemma MulNonneg(x: int, y: int)
    requires x >= 0 && y >= 0
    ensures x * y >= 0
  {
  }

  /** A multiple of `d` that lies in [0, |d|) is zero. */
  lemma SmallMultiple(k: int, d: int)
    requires d != 0 && 0 <= k * d < (if d < 0 then -d else d)
    ensures k == 0
  {
    var m := if d < 0 then -d else d;
    var j := if d < 0 then -k else k;
    assert j * m == k * d;
    if j != 0 {
      MulNonneg((if j < 0 then -j else j) - 1, m);
    }
  }

  /** Every multiple of `d` leaves remainder 0. */
  lemma MultipleMod(k: int, d: int)
    requires d != 0
    ensures (k * d) % d == 0
  {
    var q, r := (k * d) / d, (k * d) % d;
    assert k * d == q * d + r;
    assert r == (k - q) * d;
    SmallMultiple(k - q, d);
  }

  /** Division by a positive number rounds towards negative infinity, so the
      quotient lies between 0 and the dividend. */
  lemma FloorDivBounds(a: int, d: int)
    requires d >= 1
    ensures a >= 0 ==> 0 <= a / d <= a
    ensures a < 0 ==> a <= a / d < 0
  {
    var q := a / d;
    var r := a % d;
    assert a == q * d + r && 0 <= r < d;
    if q >= 0 {
      MulNonneg(q, d - 1);
      assert q * d == q * (d - 1) + q;
    } else {
      MulNonneg(-(q + 1), d - 1);
      assert (q + 1) * d == (q + 1) * (d - 1) + (q + 1);
      assert a < (q + 1) * d;
    }
  }

  /** `i32::wrapping_shr`: an arithmetic shift, which keeps the sign and
      rounds towards negative infinity; the shift amount is masked to its low
      five bits. */
  function WrappingShr(a: i32, k: nat): (r: i32)
    ensures r < 0 <==> a < 0
    ensures r as int * Pow2(k % 32) <= a as int < (r as int + 1) * Pow2(k % 32)
  {
    var d := Pow2(k % 32);
    FloorDivBounds(a as int, d);
    var q := a as int / d;
    assert a as int == q * d + a as int % d;
    q as i32
  }

  /** The `^` operator on `i32`. */
  function Xor(a: i32, b: i32): (r: i32)
    ensures r < 0 <==> ((a < 0) != (b < 0))
  {
    Pow2Constants();
    XorNTop(Unsigned(a), Unsigned(b), 31);
    Signed(XorN(Unsigned(a), Unsigned(b), 32))
  }

  /** Each of the 32 bits of `a ^ b` is the exclusive-or of the operands' bits. */
  lemma XorBit(a: i32, b: i32, i: nat)
    requires i < 32
    ensures Bit32(Xor(a, b), i) <==> (Bit32(a, i) != Bit32(b, i))
  {
    Pow2Constants();
    XorNBit(Unsigned(a), Unsigned(b), 32, i);
  }

  /** `i32::abs`, which overflows on `i32::MIN`. */
  function Abs(a: i32): (r: i32)
    requires a as int != MIN
    ensures r >= 0 && (r == a || r == -a)
  {
    if a < 0 then -a else a
  }

  /** The remainder of division truncated towards zero: the remainder of the
      magnitudes, carrying the sign of the dividend. */
  function TruncRem(a: int, b: int): (r: int)
    requires b != 0
    ensures -b < r < b || b < r < -b
    ensures a >= 0 ==> r >= 0
    ensures a <= 0 ==> r <= 0
    ensures a >= 0 && b > 0 ==> r == a % b
  {
    var m := if b < 0 then -b else b;
    if a >= 0 then a % m else -((-a) % m)
  }

  /** The truncated remainder differs from the dividend by a multiple of the
      divisor. */
  lemma TruncRemDivides(a: int, b: int)
    requires b != 0
    ensures (a - TruncRem(a, b)) % b == 0
  {
    var r := TruncRem(a, b);
    var m := if b < 0 then -b else b;
    var x := if a >= 0 then a else -a;
    var q := x / m;
    assert x == q * m + x % m;
    var k: int;
    if a >= 0 {
      assert a - r == q * m;
      if b > 0 {
        k := q;
      } else {
        k := -q;
        MulNegate(q, b);
      }
    } else {
      assert a - r == -(q * m);
      if b > 0 {
        k := -q;
        MulNegate(q, b);
      } else {
        k := q;
        MulNegate(q, b);
      }
    }
    assert a - r == k * b;
    MultipleMod(k, b);
  }

  lemma MulNegate(q: int, b: int)
    ensures q * (-b) == (-q) * b == -(q * b)
  {
  }

  /** Rust's `%` on `i32`: the remainder of division truncated towards zero.
      It panics on a zero divisor and on `i32::MIN % -1`. */
  function Rem(a: i32, b: i32): (r: i32)
    requires b != 0 && !(a as int == MIN && b == -1)
    ensures (a as int - r as int) % b as int == 0
    ensures -(b as int) < r as int < b as int || b as int < r as int < -(b as int)
    ensures a >= 0 ==> r >= 0
    ensures a <= 0 ==> r <= 0
    ensures a >= 0 && b > 0 ==> r as int == a as int % b as int
  {
    TruncRemDivides(a as int, b as int);
    hide TruncRem;
    TruncRem(a as int, b as int) as i32
  }

  /** Two `i32` values with the same 32 bits are equal. */
  lemma Bit32Determine(x: i32, y: i32)
    requires forall i :: 0 <= i < 32 ==> (Bit32(x, i) <==> Bit32(y, i))
    ensures x == y
  {
    Pow2Constants();
    forall i | 0 <= i < 32
      ensures Bit(Unsigned(x), i) <==> Bit(Unsigned(y), i)
    {
      assert Bit32(x, i) <==> Bit32(y, i);
    }
    BitsDetermine(Unsigned(x), Unsigned(y), 32);
  }

  /** `-1 - x` is the bitwise complement `!x` of `x`. */
  lemma Bit32Complement(x: i32, i: nat)
    requires i < 32
    ensures Bit32(-1 - x, i) <==> !Bit32(x, i)
  {
    Pow2Constants();
    assert Unsigned(-1 - x) == Pow2(32) - 1 - Unsigned(x);
    BitComplement(Unsigned(x), 32, i);
  }

  /** An arithmetic shift commutes with bitwise complement: `(!a) >> k == !(a >> k)`. */
  lemma ShrComplement(a: i32, k: nat)
    ensures WrappingShr(-1 - a, k) == -1 - WrappingShr(a, k)
  {
    var d := Pow2(k % 32);
    var q, q' := WrappingShr(a, k) as int, WrappingShr(-1 - a, k) as int;
    assert (-1 - q) * d <= -1 - a as int < (-1 - q + 1) * d;
    assert q' * d <= -1 - a as int < (q' + 1) * d;
    if q' > -1 - q {
      MulNonneg(q' - (-1 - q) - 1, d);
    } else if q' < -1 - q {
      MulNonneg((-1 - q) - q' - 1, d);
    }
  }
}
