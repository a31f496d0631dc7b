/** The fixed-point arithmetic of the paravirtual clock. */
module ClockScaling {
  import opened Words

  const NSEC_PER_SEC: nat := 1_000_000_000

  function Pow2(k: nat): (p: nat)
    ensures 0 < p
  {
    if k == 0 then 1 else 2 * Pow2(k - 1)
  }

  lemma StrictMul(a: nat, b: nat, c: nat)
    requires a < b && 0 < c
    ensures a * c < b * c
  {
  }

  lemma DivBounds(x: nat, d: nat)
    requires 0 < d
    ensures 0 <= x / d <= x && x / d * d <= x < (x / d + 1) * d
  {
    var q := x / d;
    assert x == q * d + x % d;
    MulMono(1, d, q);
  }

  /** A number between two consecutive multiples determines the quotient. */
  lemma DivUnique(x: nat, d: nat, q: nat)
    requires 0 < d && q * d <= x < (q + 1) * d
    ensures x / d == q
  {
    DivBounds(x, d);
    if q < x / d {
      MulMono(q + 1, x / d, d);
    } else if x / d < q {
      MulMono(x / d + 1, q, d);
    }
  }

  lemma DivMono(a: nat, b: nat, d: nat)
    requires a <= b && 0 < d
    ensures a / d <= b / d
  {
    DivBounds(a, d);
    DivBounds(b, d);
    if b / d < a / d {
      MulMono(b / d + 1, a / d, d);
    }
  }

  /** `mul64_32`: the 128-bit product of `mul`, shifted right by 32 into the low register by `shrd`. */
  function Mul64x32(a: U64, b: U32): U64 {
    ProductBound(a, b);
    var high, low := a * b / TWO_64, a * b % TWO_64;
    low / TWO_32 + high % TWO_32 * TWO_32
  }

  lemma ProductBound(a: U64, b: U32)
    ensures 0 <= a * b < TWO_64 * TWO_32
  {
    MulMono(b, TWO_32, a);
  }

  /** No high bit is lost: the result is the exact quotient, for all operands. */
  lemma Mul64x32Exact(a: U64, b: U32)
    ensures Mul64x32(a, b) == a * b / TWO_32
  {
    ProductBound(a, b);
    var p := a * b;
    var high, low := p / TWO_64, p % TWO_64;
    assert high < TWO_32;
    assert p == (high * TWO_32 + low / TWO_32) * TWO_32 + low % TWO_32;
  }

  /** The hardware masks shift counts to six bits. */
  function ShiftRight(x: U64, k: int): U64 {
    DivBounds(x, Pow2(k % 64));
    x / Pow2(k % 64)
  }

  function ShiftLeft(x: U64, k: int): U64 {
    x * Pow2(k % 64) % TWO_64
  }

  /** A difference of the counter, scaled by the record's power of two. */
  function Shifted(delta: U64, shift: int): U64 {
    if shift < 0 then ShiftRight(delta, -shift) else ShiftLeft(delta, shift)
  }

  /** The nanoseconds since a record's timestamp, as `pvclock_monotonic_read` computes them. */
  function Elapsed(delta: U64, shift: int, mul: U32): U64 {
    Mul64x32(Shifted(delta, shift), mul)
  }

  /** What a record says about the clock. */
  datatype Scale = Scale(timestamp: U64, shift: int, mul: U32, systemTime: U64)

  /** How far the counter is past the timestamp, modulo 2^64. */
  function Delta(tsc: U64, s: Scale): U64 {
    Wrap64(tsc - s.timestamp)
  }

  /** The nanoseconds before they are reduced to 64 bits. */
  function Sum(tsc: U64, s: Scale): nat {
    Elapsed(Delta(tsc, s), s.shift, s.mul) + s.systemTime
  }

  /** The value the clock reads for one record at one value of the counter. */
  function ClockTime(tsc: U64, s: Scale): U64 {
    Wrap64(Sum(tsc, s))
  }

  /** Scaling down loses less than two nanoseconds of delta * mul / 2^(32 - shift), and never gains. */
  lemma ElapsedRightShiftError(delta: U64, k: int, mul: U32)
    requires 0 < k < 64
    ensures var r := Elapsed(delta, -k, mul);
            0 <= r && r * (TWO_32 * Pow2(k)) <= delta * mul < (r + 2) * (TWO_32 * Pow2(k))
  {
    hide Mul64x32, Pow2;
    var p := Pow2(k);
    DivBounds(delta, p);
    var q: U64 := delta / p;
    Mul64x32Exact(q, mul);
    DivBounds(q * mul, TWO_32);
    RightShiftBounds(delta, p, q, mul, q * mul / TWO_32);
  }

  lemma RightShiftBounds(delta: nat, p: nat, q: nat, m: nat, r: nat)
    requires 0 < p && q * p <= delta < (q + 1) * p && m < TWO_32
    requires r * TWO_32 <= q * m < (r + 1) * TWO_32
    ensures r * (TWO_32 * p) <= delta * m < (r + 2) * (TWO_32 * p)
  {
    calc {
      r * (TWO_32 * p);
      r * TWO_32 * p;
      <= { MulMono(r * TWO_32, q * m, p); }
      q * m * p;
      q * p * m;
      <= { MulMono(q * p, delta, m); }
      delta * m;
    }
    calc {
      delta * m;
      <= { MulMono(delta, (q + 1) * p, m); }
      (q + 1) * p * m;
      (q * m) * p + m * p;
      < { StrictMul(q * m + m, (r + 1) * TWO_32 + TWO_32, p); }
      ((r + 1) * TWO_32 + TWO_32) * p;
      (r + 2) * (TWO_32 * p);
    }
  }

  /**
   Scaling up is the floor of the exact value, within one nanosecond, if and only if the shifted
   difference still fits 64 bits (or the multiplier is zero).
   */
  lemma ElapsedLeftShiftExactIff(delta: U64, k: nat, mul: U32)
    requires k < 64
    ensures 0 <= delta * Pow2(k) * mul
    ensures Elapsed(delta, k, mul) == delta * Pow2(k) * mul / TWO_32 <==> delta * Pow2(k) < TWO_64 || mul == 0
  {
    hide Mul64x32, Pow2;
    MulMono(0, delta, Pow2(k));
    assert k % 64 == k;
    var d: nat := delta * Pow2(k);
    var low: U64, c: nat := d % TWO_64, d / TWO_64;
    MulMono(0, d, mul);
    Mul64x32Exact(low, mul);
    OverflowLoss(c, low, mul, d);
  }

  /** Dropping `c` times 2^64 before the multiplication loses exactly `c * m * 2^32` afterwards. */
  lemma OverflowLoss(c: nat, low: nat, m: nat, d: nat)
    requires d == c * TWO_64 + low
    ensures d * m / TWO_32 == c * m * TWO_32 + low * m / TWO_32
    ensures 0 <= c * m && (c * m == 0 <==> c == 0 || m == 0)
  {
    var x := low * m;
    DivBounds(x, TWO_32);
    assert d * m == c * TWO_64 * m + x;
    assert c * TWO_64 * m == (c * m) * TWO_64;
    DivUnique(d * m, TWO_32, c * m * TWO_32 + x / TWO_32);
    if c > 0 && m > 0 {
      MulMono(1, c, m);
    }
  }

  /** Shifting loses no bit of a difference; counts are below the word size, as C demands. */
  predicate ShiftFits(delta: U64, shift: int) {
    -64 < shift < 64 && (0 <= shift ==> delta * Pow2(shift) < TWO_64)
  }

  lemma ShiftMonotone(a: U64, b: U64, shift: int)
    requires a <= b && ShiftFits(b, shift)
    ensures Shifted(a, shift) <= Shifted(b, shift)
  {
    hide Pow2, ShiftLeft, ShiftRight;
    if shift < 0 {
      RightMonotone(a, b, -shift);
    } else {
      LeftMonotone(a, b, shift);
    }
  }

  /** The elapsed time grows with the difference while the shift does not overflow. */
  lemma ElapsedMonotone(a: U64, b: U64, shift: int, mul: U32)
    requires a <= b && ShiftFits(b, shift)
    ensures Elapsed(a, shift, mul) <= Elapsed(b, shift, mul)
  {
    hide Mul64x32, Shifted;
    ShiftMonotone(a, b, shift);
    ScaledMonotone(Shifted(a, shift), Shifted(b, shift), mul);
  }

  /** The whole computation on exact numbers. */
  lemma ClockTimeInFull(tsc: U64, s: Scale)
    requires -64 < s.shift < 64
    ensures var delta := (tsc - s.timestamp) % TWO_64;
            ClockTime(tsc, s) == (ShiftedInFull(delta, s.shift) * s.mul / TWO_32 + s.systemTime) % TWO_64
  {
    hide Mul64x32, Pow2, ShiftedInFull;
    var delta := Delta(tsc, s);
    ShiftedIs(delta, s.shift);
    Mul64x32Exact(Shifted(delta, s.shift), s.mul);
  }

  /** The shift on exact numbers. */
  function ShiftedInFull(delta: U64, shift: int): int
    requires -64 < shift < 64
  {
    if shift < 0 then delta / Pow2(-shift) else delta * Pow2(shift) % TWO_64
  }

  lemma ShiftedIs(delta: U64, shift: int)
    requires -64 < shift < 64
    ensures Shifted(delta, shift) == ShiftedInFull(delta, shift)
  {
    hide Pow2;
    if shift < 0 {
      assert (-shift) % 64 == -shift;
    } else {
      assert shift % 64 == shift;
    }
  }

  lemma RightMonotone(a: U64, b: U64, k: nat)
    requires a <= b
    ensures ShiftRight(a, k) <= ShiftRight(b, k)
  {
    hide Pow2;
    DivMono(a, b, Pow2(k % 64));
  }

  lemma LeftMonotone(a: U64, b: U64, k: nat)
    requires a <= b && k < 64 && b * Pow2(k) < TWO_64
    ensures ShiftLeft(a, k) <= ShiftLeft(b, k)
  {
    hide Pow2;
    assert k % 64 == k;
    MulMono(0, a, Pow2(k));
    MulMono(a, b, Pow2(k));
  }

  lemma ScaledMonotone(a: U64, b: U64, mul: U32)
    requires a <= b
    ensures Mul64x32(a, mul) <= Mul64x32(b, mul)
  {
    Mul64x32Exact(a, mul);
    Mul64x32Exact(b, mul);
    MulMono(a, b, mul);
    DivMono(a * mul, b * mul, TWO_32);
  }
}
