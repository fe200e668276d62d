# sol_prng in Dafny

This project models `sol_prng`, a small pseudo-random generator written in Rust. The generator
is the immutable value `Rand { seed: i32, value: i32 }`:

- `Rand::new(seed)` stores the seed and caches `value = gen(seed)`.
- `gen` is Thomas Wang's 32-bit integer hash computed on `i32`, followed by a wrapping
  subtraction of `HALF_I32 = i32::MAX / 2`.
- `next_i32` returns the successor `Rand { seed: value, value: gen(value) }` together with the
  new value.
- `next_bool` and `next_i32_ranged` are derived from `next_i32`.

Nothing is ever mutated, so the model is purely functional:

- `Rand` is a `datatype` with member functions.
- Each Rust `(Rand, T)` result is a Dafny pair.
- Calling an operation twice on the same value gives the same result by construction.

The files:

- `bits.dfy` (module `Bits`): powers of two, single bits, and bitwise exclusive-or on natural
  numbers. Exclusive-or is defined one bit at a time, and there are lemmas that describe it bit
  by bit.
- `i32.dfy` (module `I32`): Rust's `i32` as the integers in [-2^31, 2^31), and the operations
  `gen` and `next_i32_ranged` use on it:
  - `wrapping_add`, `wrapping_sub`, `wrapping_mul` and `wrapping_shl` reduce the exact result
    modulo 2^32.
  - `wrapping_shr` on a signed integer is an arithmetic shift: division rounded towards negative
    infinity, which keeps the sign.
  - `^` works on the two's-complement bit pattern.
  - `abs` and the truncating `%` are modelled with their panic conditions as preconditions.
- `rand.dfy` (module `SolPrng`): the generator itself, repeated use of `next_i32`, and the
  properties below.

What is proved about the generator:

- Every arithmetic right shift in `gen` sign-extends, so each `n ^ (n >> k)` clears bit 31. The
  fifth step therefore leaves a non-negative number. After the subtraction of `HALF_I32`, every
  output of `gen` lies in [-1073741823, 1073741824]. In particular `gen` never returns
  `i32::MIN`, so the `n.abs()` in `next_i32_ranged` cannot overflow.
- An arithmetic shift commutes with bitwise complement. As a result, `gen(s) == gen(!s)` (that is,
  `gen(-1 - s)`) for every seed. The mixer is therefore not injective: `Rand::new(s)` and
  `Rand::new(!s)` draw exactly the same numbers forever.
- Starting from `Rand::new(s)`, the (i+1)-th number drawn by repeated `next_i32` is `gen`
  applied i + 2 times to `s`.
- `next_i32_ranged(from, to)` computes `from + |n| % (|to - from| + 1)`:
  - With `from <= to`, none of its checked operations overflows exactly when
    `to - from < i32::MAX`. The result then lies in [from, to], and when `from == to` it is
    exactly `from`.
  - With `from > to` the bounds are not swapped. The result lies in [from, 2·from - to].
  - Exchanging the bounds shifts the result by `from - to`; it does not give the same number.

A few facts about the code that the model keeps:

- The seed and every intermediate value are `i32`, and every right shift in `gen` sign-extends.
- `gen` ends with a `wrapping_sub` of `HALF_I32`.
- `next_bool` returns `n < 0` for the drawn number `n`.
- `next_i32_ranged` does not reorder its bounds.

## Model

| member | source | states |
|---|---|---|
| `SolPrng.Rand.New` | src/lib.rs:28-33 | the generator keeps the given seed and satisfies the invariant `value == gen(seed)` |
| `SolPrng.Rand.Gen` | src/lib.rs:35-46 | total on every `i32` seed (every step wraps or shifts by less than 32); the result lies in [-HALF_I32, HALF_I32 + 1], so it is never `i32::MIN` |
| `SolPrng.GenComplement` | src/lib.rs:35-46 | seeds `s` and `!s` (which always differ) mix to the same number, so `gen` is not injective |
| `I32.Xor` | src/lib.rs:38-42 | `^` on `i32`: the result is negative exactly when exactly one operand is negative |
| `I32.XorBit` | src/lib.rs:38-42 | each of the 32 bits of `a ^ b` is the exclusive-or of the operands' bits |
| `I32.WrappingShr` | src/lib.rs:38-42 | `wrapping_shr` is an arithmetic shift: the sign is kept and the result is the quotient rounded down (`r·2^k <= a < (r+1)·2^k`, with the shift amount masked to five bits) |
| `I32.ShrComplement` | src/lib.rs:38 | an arithmetic right shift commutes with bitwise complement: `(!a) >> k == !(a >> k)` |
| `I32.WrappingAdd` | src/lib.rs:39 | `wrapping_add` agrees with the exact sum modulo 2^32, and equals it when the sum fits |
| `I32.WrappingShl` | src/lib.rs:39 | `wrapping_shl` agrees with `a·2^(k mod 32)` modulo 2^32 |
| `I32.WrappingMul` | src/lib.rs:41 | `wrapping_mul` agrees with the exact product modulo 2^32 |
| `I32.WrappingSub` | src/lib.rs:43 | `wrapping_sub` agrees with the exact difference modulo 2^32, and equals it when the difference fits |
| `I32.Wrap` | src/lib.rs:39-43 | the reduction into `i32` is congruent to its argument modulo 2^32 and leaves in-range values alone |
| `SolPrng.Rand.NextI32` | src/lib.rs:51-55 | the successor is `Rand::new(self.value)`: its seed is the old value, its value is `gen` of it, and the drawn number is that value; the successor satisfies the invariant |
| `SolPrng.NextI32DependsOnValue` | src/lib.rs:51-55 | what `next_i32` returns depends only on the receiver's `value`, so two calls on the same `Rand` agree |
| `SolPrng.AdvanceFromNew` | src/lib.rs:28-55 | after k calls of `next_i32` from `Rand::new(s)`, the seed is gen^k(s) and the value is gen^(k+1)(s) |
| `SolPrng.AdvanceShift` | src/lib.rs:51-55 | taking one step and then k steps is the same as taking k + 1 steps |
| `SolPrng.DrawsAt` | src/lib.rs:51-55 | the i-th drawn number is the value of the generator after i + 1 steps |
| `SolPrng.StreamFromNew` | src/lib.rs:28-55 | the (i+1)-th number drawn from `Rand::new(s)` is `gen` applied i + 2 times to `s` |
| `SolPrng.AdvanceValid` | src/lib.rs:28-55 | every generator reached by `next_i32` from a valid one satisfies `value == gen(seed)` |
| `SolPrng.ComplementSeedsSameDraws` | src/lib.rs:28-55 | `Rand::new(s)` and `Rand::new(!s)` draw the same sequence of numbers |
| `SolPrng.Rand.NextBool` | src/lib.rs:58-61 | the same successor as `next_i32`, and `true` exactly when bit 31 of the drawn number is set |
| `SolPrng.Bit32Sign` | src/lib.rs:60 | the test `n < 0` is the test of bit 31 |
| `SolPrng.Rand.NextI32Ranged` | src/lib.rs:65-69 | the same successor as `next_i32`; the result is `from + abs(n) % (abs(to - from) + 1)` on unbounded integers, and it lies in [from, from + abs(to - from)] |
| `I32.Abs` | src/lib.rs:67 | `i32::abs` (undefined on `i32::MIN`) is non-negative and equals `a` or `-a` |
| `I32.Rem` | src/lib.rs:67 | Rust's `%`: differs from the dividend by a multiple of the divisor, is smaller than the divisor in magnitude, takes the dividend's sign, and equals the Euclidean remainder for a non-negative dividend and a positive divisor |
| `I32.TruncRem` | src/lib.rs:67 | the truncating remainder on unbounded integers: smaller than the divisor in magnitude, with the dividend's sign, and the Euclidean remainder for a non-negative dividend and a positive divisor |
| `I32.TruncRemDivides` | src/lib.rs:67 | the truncating remainder differs from the dividend by a multiple of the divisor |
| `SolPrng.DrawNeverMin` | src/lib.rs:66-67 | the drawn `n` is never `i32::MIN`, so `n.abs()` never overflows |
| `SolPrng.RangedDefinedOrdered` | src/lib.rs:67 | with `from <= to`, the expression is free of overflow exactly when `to - from < i32::MAX` |
| `SolPrng.RangedWithin` | src/lib.rs:65-69 | with `from <= to` and `to - from < i32::MAX`, the call is defined and the result lies in [from, to] |
| `SolPrng.RangedSingle` | src/lib.rs:65-69 | `next_i32_ranged(v, v)` is always defined and returns `v` |
| `SolPrng.RangedReversed` | src/lib.rs:67 | with `from > to` the result lies in [from, 2·from - to]; the only value of [to, from] it can return is `from` |
| `SolPrng.RangedExchange` | src/lib.rs:67 | exchanging the bounds keeps the offset from the first argument, so for `from != to` the two results differ |

## Left out

- The usage example in the doc comment (src/lib.rs:2-18) is left out. It only prints, and as
  written it uses `r` before binding it. The model's `Advance` and `Draws` functions capture the
  threading of `Rand` values that the example shows.
- Rust's build-dependent overflow behaviour of `abs`, `-` and `+` is left out. Debug builds
  panic there and release builds wrap. The model makes "no overflow" a precondition
  (`RangedDefined`) instead of choosing either behaviour. The `%` is different: Rust panics on a
  zero divisor and on `i32::MIN % -1` in every build, and `Rem` requires exactly that neither
  happens. In `next_i32_ranged` the divisor `(to - from).abs() + 1` is at least 1, so the `%`
  there never panics.
- Statistical quality (uniformity, modulo bias) is left out. The code makes no such claim, and
  it is not a property of single calls.
