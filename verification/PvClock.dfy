/**
 The clock reads of the kernel against the shared clock page: each load sees the page after any
 number of further writer steps, and a torn attempt is retried.
 */
module PvClocks {
  import opened Words
  import opened Seqlock
  import opened ClockScaling
  import opened ClockOrder

  // Field numbers of the two shared records.
  const TSC_TIMESTAMP: nat := 0
  const SYSTEM_TIME: nat := 1
  const TSC_TO_SYSTEM_MUL: nat := 2
  const TSC_SHIFT: nat := 3
  const WC_SEC: nat := 0
  const WC_NSEC: nat := 1

  /** The loads of one attempt, in program order; the sign test loads the shift once more. */
  const MONOTONIC_PLAN: seq<nat> := [TSC_TIMESTAMP, TSC_SHIFT, TSC_SHIFT, TSC_TO_SYSTEM_MUL, SYSTEM_TIME]
  const WALL_CLOCK_PLAN: seq<nat> := [WC_SEC, WC_NSEC]

  /** A value as a signed 8-bit field holds it. */
  function AsInt8(v: int): int { (v + 128) % 256 - 128 }

  /** What a published record says about the clock. */
  function ScaleOf(r: Record): Scale
    requires |r| == 4
  {
    Scale(Wrap64(r[TSC_TIMESTAMP]), AsInt8(r[TSC_SHIFT]), Wrap32(r[TSC_TO_SYSTEM_MUL]), Wrap64(r[SYSTEM_TIME]))
  }

  /** The clock's value for one published record and one reading of the time stamp counter. */
  function MonotonicTime(r: Record, tsc: U64): U64
    requires |r| == 4
  {
    ClockTime(tsc, ScaleOf(r))
  }

  function WallClockTime(r: Record): U64
    requires |r| == 2
  {
    Wrap64(Wrap32(r[WC_SEC]) * NSEC_PER_SEC + Wrap32(r[WC_NSEC]))
  }

  /** The multiplication and addition of the wall clock stay inside 64 bits. */
  lemma WallClockFits(r: Record)
    requires |r| == 2
    ensures WallClockTime(r) == r[0] % 0x1_0000_0000 * 1_000_000_000 + r[1] % 0x1_0000_0000
  {
  }

  /** The arithmetic of one attempt, on the values its loads returned, torn or not. */
  function AttemptTime(tsc: U64, timestamp: int, sign: int, shift: int, mul: int, system: int): U64 {
    var delta := Wrap64(tsc - Wrap64(timestamp));
    var shifted :=
      if AsInt8(sign) < 0 then ShiftRight(delta, -AsInt8(shift)) else ShiftLeft(delta, AsInt8(shift));
    Wrap64(Mul64x32(shifted, Wrap32(mul)) + Wrap64(system))
  }

  lemma AttemptTimeOfRecord(tsc: U64, r: Record)
    requires |r| == 4
    ensures AttemptTime(tsc, r[TSC_TIMESTAMP], r[TSC_SHIFT], r[TSC_SHIFT], r[TSC_TO_SYSTEM_MUL], r[SYSTEM_TIME])
              == MonotonicTime(r, tsc)
  {
    hide Mul64x32, ShiftRight, ShiftLeft;
  }

  /** Fields in the range of their types: timestamp, system time, multiplier and signed shift. */
  predicate InRange(r: Record) {
    && |r| == 4
    && 0 <= r[0] < 0x1_0000_0000_0000_0000 && 0 <= r[1] < 0x1_0000_0000_0000_0000
    && 0 <= r[2] < 0x1_0000_0000 && -128 <= r[3] < 128
  }

  /**
   The time from the raw fields: a negative shift divides the difference, any other multiplies it,
   both in 64 bits; then come the multiplier, in units of 2^-32, and the system time.
   */
  lemma MonotonicTimeFromFields(r: Record, tsc: U64)
    requires InRange(r) && -64 < r[3] < 64
    ensures var delta := (tsc - r[0]) % TWO_64;
            && (r[3] < 0 ==> MonotonicTime(r, tsc) == (delta / Pow2(-r[3]) * r[2] / TWO_32 + r[1]) % TWO_64)
            && (0 <= r[3] ==> MonotonicTime(r, tsc) == (delta * Pow2(r[3]) % TWO_64 * r[2] / TWO_32 + r[1]) % TWO_64)
  {
    hide Pow2, ClockTime;
    ScaleFromFields(r);
    ClockTimeInFull(tsc, ScaleOf(r));
  }

  lemma ScaleFromFields(r: Record)
    requires InRange(r)
    ensures ScaleOf(r) == Scale(r[0], r[3], r[2], r[1])
  {
  }

  /** Readings in numbers: three seconds of a 3 GHz counter from a shift of -1, and a shift of 2. */
  lemma MonotonicTimeExamples()
    ensures MonotonicTime([0, 0, 0xAAAA_AAAB, -1], 3_000_000_000) == 1_000_000_000
    ensures MonotonicTime([500, 7, 0x8000_0000, 2], 1500) == 2007
  {
    hide MonotonicTime;
    MonotonicTimeFromFields([0, 0, 0xAAAA_AAAB, -1], 3_000_000_000);
    MonotonicTimeFromFields([500, 7, 0x8000_0000, 2], 1500);
    SmallPowers();
  }

  lemma SmallPowers()
    ensures Pow2(0) == 1 && Pow2(1) == 2 && Pow2(2) == 4 && Pow2(3) == 8
  {
  }

  /**
   For every record and any two values of the counter, when the value returned for the first is no
   larger: in general, on one side of the record's timestamp, and across it.
   */
  lemma MonotonicTimeOrderIff(r: Record, t1: U64, t2: U64)
    requires |r| == 4
    ensures var (s, before, after) := (ScaleOf(r), MonotonicTime(r, t1), MonotonicTime(r, t2));
            && (before <= after <==> InOrder(Sum(t1, s), Sum(t2, s)))
            && (SameSide(t1, t2, s) ==> (before <= after <==> !(Sum(t1, s) < TWO_64 <= Sum(t2, s))))
            && (Across(t1, t2, s) ==>
                  (before <= after <==> Sum(t1, s) == Sum(t2, s) || Sum(t2, s) < TWO_64 <= Sum(t1, s)))
  {
    hide ClockTime, Sum, SameSide, Across, InOrder;
    var s := ScaleOf(r);
    ClockOrderIff(t1, t2, s);
    if SameSide(t1, t2, s) {
      ClockSameSideIff(t1, t2, s);
    }
    if Across(t1, t2, s) {
      ClockAcrossIff(t1, t2, s);
    }
  }

  /** A counter just behind the timestamp can read ahead of it or behind it, depending on the record. */
  lemma MonotonicTimeAcrossExamples(timestamp: U64, mul: U32)
    requires 0 < timestamp && 0 < mul
    ensures var r := [timestamp, 0, mul, 0];
            MonotonicTime(r, timestamp) < MonotonicTime(r, timestamp - 1)
    ensures var r := [timestamp, 0x2_0000_0000, 0xFFFF_FFFF, 0];
            MonotonicTime(r, timestamp - 1) < MonotonicTime(r, timestamp)
  {
    hide ClockTime;
    ClockReadsAhead(timestamp, mul);
    ClockReadsBehind(timestamp);
  }

  lemma MonotonicFields(r: Record)
    requires |r| == 4
    ensures Selected(r, MONOTONIC_PLAN)
              == [r[TSC_TIMESTAMP], r[TSC_SHIFT], r[TSC_SHIFT], r[TSC_TO_SYSTEM_MUL], r[SYSTEM_TIME]]
  {
  }

  lemma WallClockFields(r: Record)
    requires |r| == 2
    ensures Selected(r, WALL_CLOCK_PLAN) == [r[WC_SEC], r[WC_NSEC]]
  {
  }

  lemma SameFive(a: seq<int>, x0: int, x1: int, x2: int, x3: int, x4: int)
    requires a == [x0, x1, x2, x3, x4]
    ensures a[0] == x0 && a[1] == x1 && a[2] == x2 && a[3] == x3 && a[4] == x4
  {
  }

  /** An update was going on when the version was `before`, or has happened since. */
  predicate Disturbed(before: nat, after: nat) {
    before % 2 == 1 || before < after
  }

  /** The shared page, with the one reader of this guest and all records published so far. */
  class ClockPage {
    var version: nat
    var fields: Record
    ghost var published: seq<Record>
    ghost var plan: seq<nat>
    ghost var pc: Pc
    ghost var seen: nat
    ghost var got: seq<int>

    ghost function Now(): State
      reads this
    {
      State(version, fields, published, plan, pc, seen, got)
    }

    ghost predicate Valid()
      reads this
    {
      Inv(Now())
    }

    /** The page right after its first record is published. */
    constructor (record: Record)
      ensures Valid() && fields == record && published == [record] && version == 0
    {
      version, fields, published := 0, record, [record];
      plan, pc, seen, got := [], ReadVersion, 0, [];
    }

    /** Takes over the ghost part of a step whose real part has been done. */
    ghost method Record(after: State)
      requires Inv(after) && version == after.version && fields == after.fields
      modifies `published, `plan, `pc, `seen, `got
      ensures Valid() && Now() == after
    {
      published, plan, pc, seen, got := after.published, after.plan, after.pc, after.seen, after.got;
    }

    /** Any finite number of writer steps. */
    method Writer()
      requires Valid()
      modifies this
      ensures Valid() && old(version) <= version && old(published) <= published && |fields| == |old(fields)|
      ensures pc == old(pc) && seen == old(seen) && got == old(got) && plan == old(plan)
    {
      var steps: nat := *;
      while steps > 0
        invariant Valid() && old(version) <= version && old(published) <= published && |fields| == |old(fields)|
        invariant pc == old(pc) && seen == old(seen) && got == old(got) && plan == old(plan)
      {
        var index: nat := *;
        var value: int := *;
        WriterStep(index, value);
        steps := steps - 1;
      }
    }

    /** One step of the writer: open an update, store a field of it, or close it. */
    method WriterStep(index: nat, value: int)
      requires Valid()
      modifies this
      ensures Valid() && old(version) <= version && old(published) <= published && |fields| == |old(fields)|
      ensures pc == old(pc) && seen == old(seen) && got == old(got) && plan == old(plan)
    {
      ghost var before := Now();
      var close: bool := *;
      if version % 2 == 0 {
        version := version + 1;
        WriterKeepsInv(before, Begin);
        Record(Apply(before, Begin));
      } else if close {
        version := version + 1;
        WriterKeepsInv(before, End);
        Record(Apply(before, End));
      } else if index < |fields| {
        fields := fields[index := value];
        WriterKeepsInv(before, Put(index, value));
        Record(Apply(before, Put(index, value)));
      }
    }

    // The loads of a reader; the writer may act before each.

    method LoadVersion() returns (v: nat)
      requires Valid() && pc == ReadVersion
      modifies this
      ensures Valid() && old(version) <= v == seen <= version
      ensures old(published) <= published && |fields| == |old(fields)|
      ensures pc == ReadField && got == [] && plan == old(plan)
    {
      Writer();
      v := version;
      ReaderKeepsInv(Now());
      Record(ReaderStep(Now()));
    }

    method LoadField(index: nat) returns (x: int)
      requires Valid() && pc == ReadField && |got| < |plan| && plan[|got|] == index
      modifies this
      ensures Valid() && old(version) <= version && old(published) <= published && |fields| == |old(fields)|
      ensures pc == ReadField && got == old(got) + [x] && plan == old(plan) && seen == old(seen)
    {
      Writer();
      x := fields[index];
      ReaderKeepsInv(Now());
      Record(ReaderStep(Now()));
    }

    /** The first half of the exit test; an odd version sends the reader back. */
    method VersionIsOdd() returns (odd: bool)
      requires Valid() && pc == ReadField && |got| == |plan|
      modifies this
      ensures Valid() && old(version) <= version && old(published) <= published && |fields| == |old(fields)|
      ensures plan == old(plan) && seen == old(seen)
      ensures if odd then pc == ReadVersion else pc == TestSame && got == old(got)
      ensures odd ==> old(version) % 2 == 1 || old(version) < version
    {
      ReaderKeepsInv(Now());
      Record(ReaderStep(Now()));
      Writer();
      odd := version % 2 == 1;
      ReaderKeepsInv(Now());
      Record(ReaderStep(Now()));
    }

    /** The second half; on success everything read belongs to one published record. */
    method VersionIs(v: nat) returns (same: bool)
      requires Valid() && pc == TestSame && v == seen
      modifies this
      ensures Valid() && old(version) <= version && old(published) <= published && |fields| == |old(fields)|
      ensures plan == old(plan) && seen == old(seen)
      ensures !same ==> pc == ReadVersion && v < version
      ensures same ==>
                && pc == Done && got == old(got) && v / 2 < |published| && |published[v / 2]| == |fields|
                && got == Selected(published[v / 2], plan)
    {
      Writer();
      same := version == v;
      ReaderKeepsInv(Now());
      Record(ReaderStep(Now()));
      assert same ==> Taken(got, published[v / 2], plan);
    }

    ghost method NewReader(p: seq<nat>)
      requires Valid() && forall k :: 0 <= k < |p| ==> p[k] < |fields|
      modifies `plan, `pc, `seen, `got
      ensures Valid() && plan == p && pc == ReadVersion
    {
      plan, pc, seen, got := p, ReadVersion, 0, [];
    }

    /** One round of the loop of `pvclock_monotonic_read`. */
    method TryMonotonicRead() returns (time: Option<U64>, ghost tsc: U64, ghost k: nat)
      requires Valid() && |fields| == 4 && pc == ReadVersion && plan == MONOTONIC_PLAN
      modifies this
      ensures Valid() && |fields| == 4 && plan == old(plan) && old(version) <= version && old(published) <= published
      ensures time.None? ==> pc == ReadVersion && Disturbed(old(version), version)
      ensures time.Some? ==>
                && old(version) / 2 <= k < |published| && |published[k]| == 4
                && time.value == MonotonicTime(published[k], tsc)
    {
      hide Valid, Selected, AttemptTime, MonotonicTime;
      var v := LoadVersion();
      var t: U64 := *;
      tsc, k := t, v / 2;
      var timestamp := LoadField(TSC_TIMESTAMP);
      var sign := LoadField(TSC_SHIFT);
      var shift := LoadField(TSC_SHIFT);
      var mul := LoadField(TSC_TO_SYSTEM_MUL);
      var system := LoadField(SYSTEM_TIME);
      var now := AttemptTime(t, timestamp, sign, shift, mul, system);
      time := None;
      var odd := VersionIsOdd();
      if !odd {
        var same := VersionIs(v);
        if same {
          ghost var r := published[k];
          MonotonicFields(r);
          AttemptTimeOfRecord(t, r);
          SameFive(got, timestamp, sign, shift, mul, system);
          SameFive(got, r[TSC_TIMESTAMP], r[TSC_SHIFT], r[TSC_SHIFT], r[TSC_TO_SYSTEM_MUL], r[SYSTEM_TIME]);
          time := Some(now);
        }
      }
    }

    /**
     `pvclock_monotonic_read`, giving up after `attempts` torn rounds.  A result is the clock's
     value for one published record, no older than the one current at the call; an undisturbed
     round succeeds.
     */
    method MonotonicRead(attempts: nat) returns (time: Option<U64>, ghost tsc: U64, ghost k: nat)
      requires Valid() && |fields| == 4
      modifies this
      ensures Valid() && old(published) <= published
      ensures time.None? ==> attempts == 0 || Disturbed(old(version), version)
      ensures time.Some? ==>
                && |old(published)| - 1 <= k < |published| && |published[k]| == 4
                && time.value == MonotonicTime(published[k], tsc)
    {
      time, tsc, k := None, 0, 0;
      NewReader(MONOTONIC_PLAN);
      ghost var start := version;
      var left := attempts;
      while left > 0 && time.None?
        invariant Valid() && |fields| == 4 && plan == MONOTONIC_PLAN && start <= version && old(published) <= published
        invariant time.None? ==> pc == ReadVersion && (left < attempts ==> Disturbed(start, version))
        invariant time.Some? ==>
                    && start / 2 <= k < |published| && |published[k]| == 4
                    && time.value == MonotonicTime(published[k], tsc)
      {
        time, tsc, k := TryMonotonicRead();
        left := left - 1;
      }
    }

    /** One round of the loop of `pvclock_wc_read`. */
    method TryWallClockRead() returns (time: Option<U64>, ghost k: nat)
      requires Valid() && |fields| == 2 && pc == ReadVersion && plan == WALL_CLOCK_PLAN
      modifies this
      ensures Valid() && |fields| == 2 && plan == old(plan) && old(version) <= version && old(published) <= published
      ensures time.None? ==> pc == ReadVersion && Disturbed(old(version), version)
      ensures time.Some? ==>
                && old(version) / 2 <= k < |published| && |published[k]| == 2
                && time.value == WallClockTime(published[k])
    {
      hide Valid;
      var v := LoadVersion();
      k := v / 2;
      var sec := LoadField(WC_SEC);
      var boot := Wrap64(Wrap32(sec) * NSEC_PER_SEC);
      var nsec := LoadField(WC_NSEC);
      boot := Wrap64(boot + Wrap32(nsec));
      time := None;
      var odd := VersionIsOdd();
      if !odd {
        var same := VersionIs(v);
        if same {
          ghost var r := published[k];
          WallClockFields(r);
          assert got == [sec, nsec] && got[0] == sec && got[1] == nsec;
          time := Some(boot);
        }
      }
    }

    /** `pvclock_wc_read`, giving up after `attempts` torn rounds. */
    method WallClockRead(attempts: nat) returns (time: Option<U64>, ghost k: nat)
      requires Valid() && |fields| == 2
      modifies this
      ensures Valid() && old(published) <= published
      ensures time.None? ==> attempts == 0 || Disturbed(old(version), version)
      ensures time.Some? ==>
                && |old(published)| - 1 <= k < |published| && |published[k]| == 2
                && time.value == WallClockTime(published[k])
    {
      time, k := None, 0;
      NewReader(WALL_CLOCK_PLAN);
      ghost var start := version;
      var left := attempts;
      while left > 0 && time.None?
        invariant Valid() && |fields| == 2 && plan == WALL_CLOCK_PLAN && start <= version && old(published) <= published
        invariant time.None? ==> pc == ReadVersion && (left < attempts ==> Disturbed(start, version))
        invariant time.Some? ==>
                    && start / 2 <= k < |published| && |published[k]| == 2
                    && time.value == WallClockTime(published[k])
      {
        time, k := TryWallClockRead();
        left := left - 1;
      }
    }
  }
}
