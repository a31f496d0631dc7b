/** Whether the grant-table routines return: none can be held up, but for the wait for a completion. */
module GrantLiveness {
  import opened Words
  import opened GrantProtocol
  import opened GrantSafety

  predicate EndsTransfer(pc: Pc) {
    pc.TransferRead? || pc.TransferCas? || pc.TransferPoll? || pc.TransferFrame?
  }

  /** The wait of `gnttab_end_transfer`: the hypervisor has committed the transfer and not completed it. */
  predicate Held(s: State)
    requires WellShaped(s)
  {
    && EndsTransfer(s.pc)
    && s.cells[s.pc.ref].entry.flags & GTF_TRANSFER_COMMITTED != 0
    && s.cells[s.pc.ref].entry.flags & GTF_TRANSFER_COMPLETED == 0
  }

  /** A transfer being ended has been completed by the hypervisor; other routines wait for nothing. */
  predicate Ready(s: State)
    requires WellShaped(s)
  {
    EndsTransfer(s.pc) ==> s.cells[s.pc.ref].entry.flags & GTF_TRANSFER_COMPLETED != 0
  }

  /** The number of its own steps after which a routine has returned or is waiting. */
  function Rank(pc: Pc): nat {
    match pc
    case Idle => 0
    case FillFrame(_, _) => 3
    case FillDomid(_, _) => 2
    case Publish(_, _) => 1
    case AccessRead(_) => 4
    case AccessTest(_, _, n) => if n == 0 then 3 else 1
    case AccessCas(_, _, _) => 2
    case TransferRead(_, n) => if n == 0 then 6 else 4
    case TransferCas(_, _, _) => 5
    case TransferPoll(_, flags) => if flags & GTF_TRANSFER_COMPLETED != 0 then 3 else 4
    case TransferFrame(_) => 2
    case PutFree(_, _) => 1
  }

  /** What a routine will return, where that is settled. */
  function Promised(s: State): Option<Outcome>
    requires WellShaped(s)
  {
    if s.pc.Idle? then Some(s.outcome)
    else if s.pc.PutFree? then Some(s.pc.outcome)
    else if EndsTransfer(s.pc) then Some(Delivered(s.cells[s.pc.ref].entry.frame))
    else None
  }

  predicate Keeps(before: Option<Outcome>, after: Option<Outcome>) {
    before.Some? ==> after == before
  }

  /** The entry of a transfer that is being ended. */
  lemma EndedTransfer(s: State)
    requires Inv(s) && EndsTransfer(s.pc)
    ensures var ref := s.pc.ref;
            ref in s.grants && s.grants[ref].Transfer? && CellOk(s.cells[ref], Some(s.grants[ref]))
  {
    assert CellOk(s.cells[s.pc.ref], GrantOf(s, s.pc.ref));
  }

  /** A step of the routine itself brings it closer to its return. */
  lemma TickProgress(s: State)
    requires Inv(s) && !Held(s) && !s.pc.Idle?
    ensures Rank(GuestTick(s).pc) < Rank(s.pc)
    ensures Ready(s) ==> Ready(GuestTick(s)) && Keeps(Promised(s), Promised(GuestTick(s)))
  {
    if EndsTransfer(s.pc) {
      EndedTransfer(s);
    }
    hide Threads, Partitioned;
  }

  /** No other step takes it further away. */
  lemma OthersDoNotHinder(s: State, a: Action)
    requires Inv(s) && !s.pc.Idle? && a != Tick
    ensures Apply(s, a).pc == s.pc
    ensures Ready(s) ==> Ready(Apply(s, a)) && Keeps(Promised(s), Promised(Apply(s, a)))
  {
    hide Threads, Partitioned, HvStep;
    if a.Hv? && EndsTransfer(s.pc) && s.pc.ref == a.ref {
      EndedTransfer(s);
      var g := s.grants[a.ref];
      HvProgressIsSticky(s.cells[a.ref], g.domid, g.frame, a.act);
    }
  }

  lemma ReadyIsNotHeld(s: State)
    requires WellShaped(s) && Ready(s)
    ensures !Held(s)
  {
  }

  function Ticks(run: seq<Action>): nat {
    if run == [] then 0 else (if run[0] == Tick then 1 else 0) + Ticks(run[1..])
  }

  /**
   After the first `k` steps of the run the routine has returned, or waits for a completion.  From a
   ready state it is a return, with what was promised.
   */
  predicate StopsBy(s: State, run: seq<Action>, k: nat)
    requires WellShaped(s) && k <= |run|
  {
    var t := Run(s, run[..k]);
    && (t.pc.Idle? || Held(t))
    && (Ready(s) ==> t.pc.Idle? && Keeps(Promised(s), Promised(t)))
  }

  lemma {:induction false} RankStepsSuffice(s: State, run: seq<Action>) returns (k: nat)
    requires Inv(s) && Rank(s.pc) <= Ticks(run)
    ensures k <= |run| && StopsBy(s, run, k)
    decreases |run|
  {
    InvIsShaped(s);
    hide Inv, WellShaped, Apply, Ready, Held, Promised;
    if Ready(s) {
      ReadyIsNotHeld(s);
    }
    if s.pc.Idle? || Held(s) {
      k := 0;
      assert Run(s, run[..0]) == s;
    } else {
      var a, rest := run[0], run[1..];
      StepKeepsInv(s, a);
      if a == Tick {
        TickProgress(s);
        TickIsGuestTick(s);
      } else {
        OthersDoNotHinder(s, a);
      }
      var j := RankStepsSuffice(Apply(s, a), rest);
      k := j + 1;
      assert run[..k][0] == a && run[..k][1..] == rest[..j];
    }
  }

  lemma InvIsShaped(s: State)
    requires Inv(s)
    ensures WellShaped(s)
  {
  }

  lemma TickIsGuestTick(s: State)
    requires WellShaped(s)
    ensures Apply(s, Tick) == GuestTick(s)
  {
  }

  lemma RankAtMostSix(pc: Pc)
    ensures Rank(pc) <= 6
  {
  }

  /**
   In every run, whatever the hypervisor does, a routine takes at most six further steps of its own
   until it has returned or ends a transfer that is committed and not completed.  Ending a transfer
   that is completed already, it returns with the frame its entry holds at this moment.
   */
  lemma CallsReturn(cells: seq<Cell>, run: seq<Action>, more: seq<Action>)
    requires Untouched(cells) && 6 <= Ticks(more)
    ensures exists k: nat :: k <= |more| && StopsBy(Reached(cells, run), more, k)
  {
    var t := Reached(cells, run);
    ReachedInv(cells, run);
    hide *;
    RankAtMostSix(t.pc);
    var k := RankStepsSuffice(t, more);
  }

  /** The entry is not completed at any moment of the run. */
  ghost predicate NeverCompleted(s: State, ref: nat, run: seq<Action>)
    requires WellShaped(s) && ref < NR_GRANT_ENTRIES
  {
    forall k: nat :: k <= |run| ==> Run(s, run[..k]).cells[ref].entry.flags & GTF_TRANSFER_COMPLETED == 0
  }

  /** A waiting routine waits on after any step that does not complete the transfer. */
  lemma HeldStep(s: State, a: Action)
    requires Inv(s) && Held(s)
    requires Apply(s, a).cells[s.pc.ref].entry.flags & GTF_TRANSFER_COMPLETED == 0
    ensures Held(Apply(s, a)) && Apply(s, a).pc.ref == s.pc.ref
  {
    EndedTransfer(s);
    hide Threads, Partitioned, HvStep;
    if a.Hv? && a.ref == s.pc.ref {
      var g := s.grants[a.ref];
      HvProgressIsSticky(s.cells[a.ref], g.domid, g.frame, a.act);
    }
  }

  /** The wait ends with the completion only: until then the routine does not return, from any point of it. */
  lemma {:induction false} UncompletedTransferWaits(s: State, run: seq<Action>)
    requires Inv(s) && Held(s) && NeverCompleted(s, s.pc.ref, run)
    ensures Held(Run(s, run)) && !Run(s, run).pc.Idle?
    decreases |run|
  {
    if run != [] {
      var t, rest := Apply(s, run[0]), run[1..];
      assert run[..1] == [run[0]] && run[..1][1..] == [] && Run(s, run[..1]) == t;
      HeldStep(s, run[0]);
      StepKeepsInv(s, run[0]);
      hide Apply, Inv;
      forall k: nat | k <= |rest|
        ensures Run(t, rest[..k]).cells[t.pc.ref].entry.flags & GTF_TRANSFER_COMPLETED == 0
      {
        assert run[..k + 1][0] == run[0] && run[..k + 1][1..] == rest[..k];
        assert Run(s, run[..k + 1]) == Run(t, rest[..k]);
      }
      UncompletedTransferWaits(t, rest);
    }
  }
}
