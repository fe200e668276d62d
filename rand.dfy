/**
 * The generator of the `sol_prng` crate: an immutable value `Rand` holding a
 * seed and the value mixed from it. Every `next_*` operation leaves the
 * receiver alone and returns a fresh `Rand` together with the drawn value;
 * callers thread the returned `Rand` into the next call.
 */
module SolPrng {
  import opened Bits
  import opened I32

  /** `Rand::HALF_I32`, that is `i32::MAX / 2`. */
  const HALF_I32: i32 := (MAX / 2) as i32

  /** The multiplier of the mixing function's fourth step. */
  const MULTIPLIER: i32 := 0x27d4eb2d

  datatype Rand = Rand(seed: i32, value: i32) {

    /** Every `Rand` the crate can build caches the mix of its seed; the
        fields are private, so `New` and `NextI32` are the only constructors. */
    predicate Valid() {
      value == Gen(seed)
    }

    /** `Rand::new`: a generator for `seed`. */
    static function New(seed: i32): (r: Rand)
      ensures r.seed == seed && r.Valid()
    {
      Rand(seed, Gen(seed))
    }

    /** `Rand::gen`: Thomas Wang's 32-bit integer hash computed on `i32`, so
        every right shift sign-extends, followed by a wrapping subtraction of
        `HALF_I32`. Because each `n ^ (n >> k)` with a sign-extending shift
        clears bit 31, the last exclusive-or leaves a non-negative number and
        the result never leaves [-HALF_I32, HALF_I32 + 1]; in particular it is
        never `i32::MIN`. */
    static function Gen(seed: i32): (n: i32)
      ensures -(HALF_I32 as int) <= n as int <= HALF_I32 as int + 1
    {
      var n := Xor(Xor(seed, 61), WrappingShr(seed, 16));
      var n := WrappingAdd(n, WrappingShl(n, 3));
      var n := Xor(n, WrappingShr(n, 4));
      var n := WrappingMul(n, MULTIPLIER);
      var n := Xor(n, WrappingShr(n, 15));
      WrappingSub(n, HALF_I32)
    }

    /** `Rand::next_i32`: the successor is the generator seeded with this
        one's value, and the drawn number is the successor's value. */
    function NextI32(): (res: (Rand, i32))
      ensures res.0 == New(value)
      ensures res.0.seed == value && res.1 == res.0.value
      ensures res.0.Valid()
    {
      var seed := value;
      var value := Gen(seed);
      (Rand(seed, value), value)
    }

    /** `Rand::next_bool`: the same successor as `NextI32`, and `true`
        exactly when the drawn number has its sign bit set. */
    function NextBool(): (res: (Rand, bool))
      ensures res.0 == NextI32().0
      ensures res.1 <==> Bit32(NextI32().1, 31)
    {
      Bit32Sign(NextI32().1);
      var (r, n) := NextI32();
      (r, n < 0)
    }

    /** `Rand::next_i32_ranged`: the same successor as `NextI32`, and the
        number `from + |n| % (|to - from| + 1)` for the drawn `n`. The bounds
        are not reordered: the result lies between `from` and
        `from + |to - from|`, whichever of `from` and `to` is larger. */
    function NextI32Ranged(from: i32, to: i32): (res: (Rand, i32))
      requires RangedDefined(Gen(value), from, to)
      ensures res.0 == NextI32().0
      ensures res.1 as int == from as int + Magnitude(NextI32().1) % (Distance(from, to) + 1)
      ensures from as int <= res.1 as int <= from as int + Distance(from, to)
    {
      var (r, n) := NextI32();
      var divisor := Abs(to - from) + 1;
      assert divisor as int == Distance(from, to) + 1;
      var offset := Rem(Abs(n), divisor);
      assert offset as int == Magnitude(n) % (Distance(from, to) + 1);
      var result := from + offset;
      (r, result)
    }
  }

  /** `|to - from|` computed on unbounded integers. */
  function Distance(from: i32, to: i32): (d: nat)
    ensures d == to as int - from as int || d == from as int - to as int
  {
    if from <= to then to as int - from as int else from as int - to as int
  }

  /** `|n|` computed on unbounded integers. */
  function Magnitude(n: i32): (m: nat)
    ensures m == n as int || m == -(n as int)
  {
    if n < 0 then -(n as int) else n as int
  }

  /** None of the checked operations of `from + (n.abs()) % ((to - from).abs() + 1)`
      overflows: `n.abs()`, `to - from`, its `abs()`, the `+ 1`, and the final
      `from + …` (the divisor is at least 1, so `%` cannot fail). */
  predicate RangedDefined(n: i32, from: i32, to: i32) {
    && n as int != MIN
    && MIN <= to as int - from as int <= MAX
    && to as int - from as int != MIN
    && Distance(from, to) + 1 <= MAX
    && from as int + Magnitude(n) % (Distance(from, to) + 1) <= MAX
  }

  /** A negative `i32` is exactly one whose bit 31 is set. */
  lemma Bit32Sign(n: i32)
    ensures Bit32(n, 31) <==> n < 0
  {
    Pow2Constants();
    TopBit(Unsigned(n), 31);
  }

  /** The drawn number is never `i32::MIN`, so the `n.abs()` in
      `next_i32_ranged` cannot overflow. */
  lemma DrawNeverMin(r: Rand)
    ensures r.NextI32().1 as int != MIN
    ensures -(HALF_I32 as int) <= r.NextI32().1 as int <= HALF_I32 as int + 1
  {
  }

  /** A seed and its bitwise complement `!seed == -1 - seed` mix to the same
      number: a sign-extending shift commutes with complement, so the first
      step `(n ^ 61) ^ (n >> 16)` already maps both to the same value. The two
      seeds always differ, so the mixing function is not injective. */
  lemma GenComplement(s: i32)
    ensures -1 - s != s
    ensures Rand.Gen(-1 - s) == Rand.Gen(s)
  {
    var t := -1 - s;
    var a, b := Xor(Xor(t, 61), WrappingShr(t, 16)), Xor(Xor(s, 61), WrappingShr(s, 16));
    ShrComplement(s, 16);
    forall i | 0 <= i < 32
      ensures Bit32(a, i) <==> Bit32(b, i)
    {
      XorBit(Xor(t, 61), WrappingShr(t, 16), i);
      XorBit(t, 61, i);
      XorBit(Xor(s, 61), WrappingShr(s, 16), i);
      XorBit(s, 61, i);
      Bit32Complement(s, i);
      Bit32Complement(WrappingShr(s, 16), i);
    }
    Bit32Determine(a, b);
  }

  /** What `next_i32` returns depends only on the receiver's `value`; in
      particular two calls on the same `Rand` agree. */
  lemma NextI32DependsOnValue(r1: Rand, r2: Rand)
    requires r1.value == r2.value
    ensures r1.NextI32() == r2.NextI32()
  {
  }

  /** `Rand::gen` applied k times. */
  function GenPow(s: i32, k: nat): i32 {
    if k == 0 then s else Rand.Gen(GenPow(s, k - 1))
  }

  /** The generator after k calls of `next_i32`, each on the previous result. */
  function Advance(r: Rand, k: nat): Rand {
    if k == 0 then r else Advance(r, k - 1).NextI32().0
  }

  /** The numbers drawn by k calls of `next_i32`, each on the previous result. */
  function Draws(r: Rand, k: nat): (xs: seq<i32>)
    ensures |xs| == k
    decreases k
  {
    if k == 0 then [] else [r.NextI32().1] + Draws(r.NextI32().0, k - 1)
  }

  /** After k steps from `Rand::new(s)` the seed is gen^k(s) and the value
      gen^(k+1)(s). */
  lemma {:induction false} AdvanceFromNew(s: i32, k: nat)
    ensures Advance(Rand.New(s), k) == Rand(GenPow(s, k), GenPow(s, k + 1))
  {
    hide Rand.Gen;
    if k > 0 {
      AdvanceFromNew(s, k - 1);
    }
  }

  /** Taking one step first and then k steps is taking k + 1 steps. */
  lemma {:induction false} AdvanceShift(r: Rand, k: nat)
    ensures Advance(r.NextI32().0, k) == Advance(r, k + 1)
    decreases k
  {
    hide Rand.Gen;
    if k > 0 {
      AdvanceShift(r, k - 1);
    }
  }

  /** The i-th drawn number is the value of the generator after i + 1 steps. */
  lemma {:induction false} DrawsAt(r: Rand, k: nat, i: nat)
    requires i < k
    ensures Draws(r, k)[i] == Advance(r, i + 1).value
    decreases i
  {
    hide Rand.Gen;
    if i > 0 {
      DrawsAt(r.NextI32().0, k - 1, i - 1);
      AdvanceShift(r, i);
    }
  }

  /** Starting from `Rand::new(s)`, the (i+1)-th number drawn by repeated
      `next_i32` is gen applied i + 2 times to `s`. */
  lemma StreamFromNew(s: i32, k: nat, i: nat)
    requires i < k
    ensures Draws(Rand.New(s), k)[i] == GenPow(s, i + 2)
  {
    hide Rand.Gen;
    DrawsAt(Rand.New(s), k, i);
    AdvanceFromNew(s, i + 1);
  }

  /** Every generator reached from a valid one is valid. */
  lemma {:induction false} AdvanceValid(r: Rand, k: nat)
    requires r.Valid()
    ensures Advance(r, k).Valid()
  {
    hide Rand.Gen;
    if k > 0 {
      AdvanceValid(r, k - 1);
    }
  }

  /** Seeds `s` and `!s` give generators that draw the same numbers forever. */
  lemma ComplementSeedsSameDraws(s: i32, k: nat)
    ensures Draws(Rand.New(-1 - s), k) == Draws(Rand.New(s), k)
  {
    hide Rand.Gen;
    GenComplement(s);
    if k > 0 {
      NextI32DependsOnValue(Rand.New(-1 - s), Rand.New(s));
    }
  }

  /** With ordered bounds, the arithmetic is free of overflow exactly when
      `to - from < i32::MAX`. */
  lemma RangedDefinedOrdered(r: Rand, from: i32, to: i32)
    requires from <= to
    ensures RangedDefined(Rand.Gen(r.value), from, to) <==> to as int - from as int < MAX
  {
    DrawNeverMin(r);
  }

  /** With `from <= to` and `to - from < i32::MAX` the result lies in
      [from, to]. */
  lemma RangedWithin(r: Rand, from: i32, to: i32)
    requires from <= to && to as int - from as int < MAX
    ensures RangedDefined(Rand.Gen(r.value), from, to)
    ensures from <= r.NextI32Ranged(from, to).1 <= to
  {
    RangedDefinedOrdered(r, from, to);
  }

  /** A one-element range always yields that element. */
  lemma RangedSingle(r: Rand, v: i32)
    ensures RangedDefined(Rand.Gen(r.value), v, v)
    ensures r.NextI32Ranged(v, v).1 == v
  {
    RangedDefinedOrdered(r, v, v);
  }

  /** With `from > to` the bounds are not swapped: the result lies in
      [from, 2 * from - to], so the only value of [to, from] it can take is
      `from`. */
  lemma RangedReversed(r: Rand, from: i32, to: i32)
    requires from > to && RangedDefined(Rand.Gen(r.value), from, to)
    ensures from as int <= r.NextI32Ranged(from, to).1 as int <= 2 * from as int - to as int
    ensures r.NextI32Ranged(from, to).1 <= from ==> r.NextI32Ranged(from, to).1 == from
  {
    hide Rand.Gen;
  }

  /** Exchanging the bounds shifts the result by `from - to` instead of
      leaving it in the same range: the offset from the first argument is the
      same either way. */
  lemma RangedExchange(r: Rand, from: i32, to: i32)
    requires RangedDefined(Rand.Gen(r.value), from, to) && RangedDefined(Rand.Gen(r.value), to, from)
    ensures r.NextI32Ranged(from, to).1 as int - from as int == r.NextI32Ranged(to, from).1 as int - to as int
    ensures from != to ==> r.NextI32Ranged(from, to).1 != r.NextI32Ranged(to, from).1
  {
    hide Rand.Gen;
  }
}
