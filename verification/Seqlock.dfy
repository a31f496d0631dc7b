/**
 The version protocol of the paravirtual clocks: a writer that makes the version odd, stores the
 fields in any order and any number of times, and makes it even again, against a reader that
 takes a list of fields between two looks at the version.  Versions do not wrap.
 */
module Seqlock {
  type Record = seq<int>

  /** The reader's next access. */
  datatype Pc =
    | ReadVersion
    | ReadField
    | TestOdd
    | TestSame
    | Done

  /**
   Shared memory, the records published so far (number k had version 2k), and the reader: the
   fields it is to read, the version it started from, and what it has read since.
   */
  datatype State = State(
    version: nat,
    fields: Record,
    published: seq<Record>,
    plan: seq<nat>,
    pc: Pc,
    seen: nat,
    got: seq<int>)

  datatype Action =
    | Begin
    | Put(index: nat, value: int)
    | End
    | Read

  predicate WellShaped(s: State) {
    forall k :: 0 <= k < |s.plan| ==> s.plan[k] < |s.fields|
  }

  function Retry(s: State): State {
    s.(pc := ReadVersion, got := [])
  }

  /** One access of the reader; the exit test looks at the version twice. */
  function ReaderStep(s: State): (t: State)
    requires WellShaped(s)
    ensures WellShaped(t) && t.plan == s.plan && t.fields == s.fields
  {
    match s.pc
    case ReadVersion => s.(seen := s.version, got := [], pc := ReadField)
    case ReadField =>
      if |s.got| < |s.plan|
      then s.(got := s.got + [s.fields[s.plan[|s.got|]]])
      else s.(pc := TestOdd)
    case TestOdd => if s.version % 2 == 1 then Retry(s) else s.(pc := TestSame)
    case TestSame => if s.version != s.seen then Retry(s) else s.(pc := Done)
    case Done => s
  }

  /** One step of either side; a writer step out of turn does nothing. */
  function Apply(s: State, a: Action): (t: State)
    requires WellShaped(s)
    ensures WellShaped(t) && t.plan == s.plan && |t.fields| == |s.fields|
  {
    match a
    case Begin => if s.version % 2 == 0 then s.(version := s.version + 1) else s
    case Put(i, v) => if s.version % 2 == 1 && i < |s.fields| then s.(fields := s.fields[i := v]) else s
    case End =>
      if s.version % 2 == 1 then s.(version := s.version + 1, published := s.published + [s.fields]) else s
    case Read => ReaderStep(s)
  }

  function Run(s: State, run: seq<Action>): (t: State)
    requires WellShaped(s)
    ensures WellShaped(t) && t.plan == s.plan && |t.fields| == |s.fields|
    decreases |run|
  {
    if run == [] then s else Run(Apply(s, run[0]), run[1..])
  }

  function Start(fields: Record, plan: seq<nat>): State {
    State(0, fields, [fields], plan, ReadVersion, 0, [])
  }

  /** `got` holds the first fields of the plan as they are in `r`. */
  predicate Taken(got: seq<int>, r: Record, plan: seq<nat>)
    requires forall k :: 0 <= k < |plan| ==> plan[k] < |r|
  {
    |got| <= |plan| && forall k :: 0 <= k < |got| ==> got[k] == r[plan[k]]
  }

  ghost predicate Inv(s: State) {
    && WellShaped(s)
    && |s.published| == s.version / 2 + 1
    && (s.version % 2 == 0 ==> s.fields == s.published[s.version / 2])
    && (forall k :: 0 <= k < |s.published| ==> |s.published[k]| == |s.fields|)
    && s.seen <= s.version
    && |s.got| <= |s.plan|
    && (s.pc.TestOdd? || s.pc.TestSame? || s.pc.Done? ==> |s.got| == |s.plan|)
    && (s.seen % 2 == 0 && !s.pc.ReadVersion? && !s.pc.Done? && s.version == s.seen ==> Taken(s.got, s.fields, s.plan))
    && (s.pc.TestSame? && s.version == s.seen ==> s.seen % 2 == 0)
    && (s.pc.Done? ==> s.seen % 2 == 0 && Taken(s.got, s.published[s.seen / 2], s.plan))
  }

  lemma WriterKeepsInv(s: State, a: Action)
    requires Inv(s) && !a.Read?
    ensures Inv(Apply(s, a))
  {
  }

  lemma ReaderKeepsInv(s: State)
    requires Inv(s)
    ensures Inv(ReaderStep(s))
  {
  }

  lemma {:induction false} RunKeepsInv(s: State, run: seq<Action>)
    requires Inv(s)
    ensures Inv(Run(s, run))
    decreases |run|
  {
    if run != [] {
      if run[0].Read? {
        ReaderKeepsInv(s);
      } else {
        WriterKeepsInv(s, run[0]);
      }
      RunKeepsInv(Apply(s, run[0]), run[1..]);
    }
  }

  /** The fields a plan selects from a record. */
  function Selected(r: Record, plan: seq<nat>): seq<int>
    requires forall k :: 0 <= k < |plan| ==> plan[k] < |r|
  {
    seq(|plan|, k requires 0 <= k < |plan| => r[plan[k]])
  }

  /**
   In every run, a reader that has left the loop holds exactly the fields of one published record,
   number `seen` / 2, however the writer interleaved.
   */
  lemma ReadsOneRecord(fields: Record, plan: seq<nat>, run: seq<Action>)
    requires WellShaped(Start(fields, plan))
    requires Run(Start(fields, plan), run).pc.Done?
    ensures var t := Run(Start(fields, plan), run);
            && t.seen % 2 == 0 && t.seen / 2 < |t.published|
            && |t.published[t.seen / 2]| == |fields|
            && t.got == Selected(t.published[t.seen / 2], plan)
  {
    RunKeepsInv(Start(fields, plan), run);
  }

  /** The record is not stale: when the last test succeeds it is the one in memory. */
  lemma ReadsCurrentRecord(fields: Record, plan: seq<nat>, run: seq<Action>)
    requires WellShaped(Start(fields, plan))
    requires Run(Start(fields, plan), run).pc.TestSame?
    requires Apply(Run(Start(fields, plan), run), Read).pc.Done?
    ensures var t := Run(Start(fields, plan), run);
            && t.got == Selected(t.fields, plan)
            && t.published != [] && t.fields == t.published[|t.published| - 1]
  {
    RunKeepsInv(Start(fields, plan), run);
  }

  /** How many reads a reader still needs when the writer is between updates. */
  function Rank(s: State): int {
    var round := |s.plan| + 4;
    var again := if s.seen == s.version then 0 else round;
    match s.pc
    case ReadVersion => round
    case ReadField => |s.plan| - |s.got| + 3 + again
    case TestOdd => 2 + again
    case TestSame => 1 + again
    case Done => 0
  }

  /** Wherever it is, a reader returns within two rounds once the writer pauses between updates. */
  lemma {:induction false} ReaderReturns(s: State, run: seq<Action>)
    requires Inv(s) && s.version % 2 == 0
    requires (forall k :: 0 <= k < |run| ==> run[k].Read?) && Rank(s) <= |run|
    ensures Run(s, run).pc.Done? && Rank(s) <= 2 * |s.plan| + 7
    decreases |run|
  {
    if run != [] {
      ReaderKeepsInv(s);
      ReaderReturns(Apply(s, run[0]), run[1..]);
    }
  }

  /** The first look, at the parity, is needed: here the second would pass on a torn record. */
  lemma ParityTestNeeded(a: int, b: int)
    requires a != b
    ensures var halfway := Apply(Apply(Apply(Start([a, a], [0, 1]), Begin), Read), Read);
            var torn := Apply(Apply(Apply(halfway, Put(1, b)), Read), Read);
            && torn.pc.TestOdd? && torn.version == torn.seen && torn.got == [a, b] && torn.published == [[a, a]]
            && Apply(torn, Read).pc.ReadVersion?
  {
    var s3 := Apply(Apply(Apply(Start([a, a], [0, 1]), Begin), Read), Read);
    assert s3.got == [a] && s3.fields == [a, a];
    assert Apply(s3, Put(1, b)).fields == [a, b];
    assert Apply(Apply(s3, Put(1, b)), Read).got == [a, b];
  }
}
