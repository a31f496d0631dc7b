/**
 Whether two readings of the clock from one record are in the order of the counter: past the
 record's timestamp, behind it, and across it.
 */
module ClockOrder {
  import opened Words
  import opened ClockScaling

  /** Of two sums below 2^65, whether the first is still no larger when both are reduced to 64 bits. */
  predicate InOrder(x: nat, y: nat) {
    if x <= y then !(x < TWO_64 <= y) else y < TWO_64 <= x
  }

  /** For any record and any two values of the counter: the readings are in order exactly so. */
  lemma ClockOrderIff(t1: U64, t2: U64, s: Scale)
    ensures ClockTime(t1, s) <= ClockTime(t2, s) <==> InOrder(Sum(t1, s), Sum(t2, s))
  {
    hide Elapsed, Delta;
  }

  /** The sums are in the order of the shifted differences. */
  lemma SumFollowsShift(t1: U64, t2: U64, s: Scale)
    requires Shifted(Delta(t1, s), s.shift) <= Shifted(Delta(t2, s), s.shift)
    ensures Sum(t1, s) <= Sum(t2, s)
  {
    hide Shifted, Delta, Mul64x32;
    ScaledMonotone(Shifted(Delta(t1, s), s.shift), Shifted(Delta(t2, s), s.shift), s.mul);
  }

  /** A distance of counters that a shift takes at most once round 2^64. */
  predicate Near(distance: nat, shift: int) {
    -64 < shift < 64 && (0 <= shift ==> distance * Pow2(shift) <= TWO_64)
  }

  lemma RemainderIs(x: int, q: int, r: int)
    requires x == q * TWO_64 + r && 0 <= r < TWO_64
    ensures x % TWO_64 == r
  {
  }

  /** The difference of a counter behind the timestamp, shifted to the left. */
  lemma ShiftLeftBehind(behind: nat, k: nat)
    requires 0 < behind < TWO_64 && k < 64 && behind * Pow2(k) <= TWO_64
    ensures ShiftLeft(TWO_64 - behind, k) == TWO_64 - behind * Pow2(k)
  {
    hide Pow2;
    var p := Pow2(k);
    assert k % 64 == k;
    MulMono(1, behind, p);
    assert (TWO_64 - behind) * p == (p - 1) * TWO_64 + (TWO_64 - behind * p);
    RemainderIs((TWO_64 - behind) * p, p - 1, TWO_64 - behind * p);
  }

  // ---------------------------------------------------------------- the three positions

  /** The shift keeps the order of counters on one side of the timestamp. */
  predicate SameSide(t1: U64, t2: U64, s: Scale) {
    || (s.timestamp <= t1 <= t2 && ShiftFits(t2 - s.timestamp, s.shift))
    || (t1 <= t2 < s.timestamp && (ShiftFits(Delta(t2, s), s.shift) || Near(s.timestamp - t1, s.shift)))
  }

  /** The shift keeps the order of the wrapped differences of counters across the timestamp. */
  predicate Across(t1: U64, t2: U64, s: Scale) {
    t1 < s.timestamp <= t2 && (ShiftFits(Delta(t1, s), s.shift) || Near(t2 - t1, s.shift))
  }

  lemma DeltaIs(t: U64, s: Scale)
    ensures Delta(t, s) == if s.timestamp <= t then t - s.timestamp else TWO_64 - (s.timestamp - t)
  {
  }

  lemma ShiftedBehind(t1: U64, t2: U64, s: Scale)
    requires t1 <= t2 < s.timestamp && 0 <= s.shift && Near(s.timestamp - t1, s.shift)
    ensures Shifted(Delta(t1, s), s.shift) <= Shifted(Delta(t2, s), s.shift)
  {
    DeltaIs(t1, s);
    DeltaIs(t2, s);
    hide Pow2, ShiftLeft, Delta;
    MulMono(s.timestamp - t2, s.timestamp - t1, Pow2(s.shift));
    ShiftLeftBehind(s.timestamp - t1, s.shift);
    ShiftLeftBehind(s.timestamp - t2, s.shift);
  }

  lemma SameSideShifts(t1: U64, t2: U64, s: Scale)
    requires SameSide(t1, t2, s)
    ensures Shifted(Delta(t1, s), s.shift) <= Shifted(Delta(t2, s), s.shift)
  {
    hide Pow2, Shifted;
    if t2 < s.timestamp && 0 <= s.shift && Near(s.timestamp - t1, s.shift) {
      ShiftedBehind(t1, t2, s);
    } else {
      hide Near;
      ShiftMonotone(Delta(t1, s), Delta(t2, s), s.shift);
    }
  }

  lemma ShiftedAcross(t1: U64, t2: U64, s: Scale)
    requires t1 < s.timestamp <= t2 && 0 <= s.shift && Near(t2 - t1, s.shift)
    ensures Shifted(Delta(t2, s), s.shift) <= Shifted(Delta(t1, s), s.shift)
  {
    DeltaIs(t1, s);
    DeltaIs(t2, s);
    hide Pow2, Delta, ShiftLeft;
    var p := Pow2(s.shift);
    var behind, past := s.timestamp - t1, t2 - s.timestamp;
    Distribute(behind, past, p);
    assert (behind + past) * p <= TWO_64;
    ShiftLeftBehind(behind, s.shift);
    ShiftLeftPast(past, s.shift);
  }

  lemma Distribute(a: nat, b: nat, p: nat)
    requires 0 < a && 0 < p
    ensures (a + b) * p == a * p + b * p && 0 < a * p && 0 <= b * p
  {
  }

  lemma ShiftLeftPast(past: U64, k: nat)
    requires k < 64 && past * Pow2(k) < TWO_64
    ensures ShiftLeft(past, k) == past * Pow2(k)
  {
    hide Pow2;
    assert k % 64 == k;
    MulMono(0, past, Pow2(k));
    RemainderIs(past * Pow2(k), 0, past * Pow2(k));
  }

  /**
   For one record and counters on one side of its timestamp the readings are in the counter's order
   if and only if the nanoseconds do not pass 2^64 between them.
   */
  lemma ClockSameSideIff(t1: U64, t2: U64, s: Scale)
    requires SameSide(t1, t2, s)
    ensures Sum(t1, s) <= Sum(t2, s)
    ensures ClockTime(t1, s) <= ClockTime(t2, s) <==> !(Sum(t1, s) < TWO_64 <= Sum(t2, s))
  {
    hide Delta, Shifted, Sum, ClockTime, SameSide;
    SameSideShifts(t1, t2, s);
    SumFollowsShift(t1, t2, s);
    ClockOrderIff(t1, t2, s);
  }

  /**
   Across the timestamp the difference wraps, so the nanoseconds of the counter behind are no fewer.
   The readings are in the counter's order if and only if they are equal, or only the counter behind
   takes the nanoseconds past 2^64.
   */
  lemma ClockAcrossIff(t1: U64, t2: U64, s: Scale)
    requires Across(t1, t2, s)
    ensures Sum(t2, s) <= Sum(t1, s)
    ensures ClockTime(t1, s) <= ClockTime(t2, s) <==> Sum(t1, s) == Sum(t2, s) || Sum(t2, s) < TWO_64 <= Sum(t1, s)
  {
    hide Pow2, Shifted, Sum, ClockTime;
    if 0 <= s.shift && Near(t2 - t1, s.shift) {
      ShiftedAcross(t1, t2, s);
    } else {
      ShiftMonotone(Delta(t2, s), Delta(t1, s), s.shift);
    }
    SumFollowsShift(t2, t1, s);
    ClockOrderIff(t1, t2, s);
  }

  /** Both happen one tick before the timestamp: with no system time the clock reads ahead of it ... */
  lemma ClockReadsAhead(timestamp: U64, mul: U32)
    requires 0 < timestamp && 0 < mul
    ensures var s := Scale(timestamp, 0, mul, 0);
            ClockTime(timestamp, s) < ClockTime(timestamp - 1, s)
  {
    hide Mul64x32;
    OneTickBehind(mul);
    MulMono(1, mul, TWO_64 - 1);
    DivMono(TWO_64 - 1, (TWO_64 - 1) * mul, TWO_32);
  }

  /** ... and with a counter just above 1 GHz and 8.6 seconds of system time it reads behind it. */
  lemma ClockReadsBehind(timestamp: U64)
    requires 0 < timestamp
    ensures var s := Scale(timestamp, 0, 0xFFFF_FFFF, 0x2_0000_0000);
            ClockTime(timestamp - 1, s) < ClockTime(timestamp, s)
  {
    hide Mul64x32;
    OneTickBehind(0xFFFF_FFFF);
  }

  lemma OneTickBehind(mul: U32)
    ensures Elapsed(TWO_64 - 1, 0, mul) == (TWO_64 - 1) * mul / TWO_32
    ensures Elapsed(0, 0, mul) == 0
  {
    hide Mul64x32;
    assert Pow2(0) == 1;
    Mul64x32Exact(TWO_64 - 1, mul);
    Mul64x32Exact(0, mul);
  }
}
