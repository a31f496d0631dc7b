/**
 The grant-table routines on their two arrays, with the hypervisor acting between any two of
 their accesses to the shared one.  Every object records the run that led to its present state,
 so each routine is shown to be a sequence of steps of the protocol.
 */
module GrantTables {
  import opened Words
  import opened GrantProtocol
  import opened GrantSafety

  class GrantTable {
    const list: array<nat>
    const cells: array<Cell>
    ghost const boot: seq<Cell>
    ghost var history: seq<Action>
    ghost var stack: seq<nat>
    ghost var grants: map<nat, Grant>
    ghost var pc: Pc
    ghost var outcome: Outcome

    ghost function Now(): State
      reads this, list, cells
    {
      State(list[..], stack, cells[..], grants, pc, outcome)
    }

    /** The recorded run reaches `s` from a freshly initialised table. */
    ghost predicate Recorded(s: State)
      reads `history
      ensures Recorded(s) ==> Inv(s) && WellShaped(s)
    {
      if Untouched(boot) then ReachedInv(boot, history); s == Reached(boot, history) else false
    }

    ghost predicate Valid()
      reads this, list, cells
    {
      Recorded(Now())
    }

    method PutFreeEntry(ref: nat)
      requires 0 < ref < list.Length
      modifies list, `stack
      ensures list[..] == ListAfterPut(old(list[..]), ref) && stack == [ref] + old(stack)
    {
      list[ref] := list[0];
      list[0] := ref;
      stack := [ref] + stack;
    }

    method GetFreeEntry() returns (ref: nat)
      requires 0 < list.Length && list[0] < list.Length
      modifies list, `stack
      ensures ref == old(list[0]) && list[..] == ListAfterGet(old(list[..]))
      ensures stack == if old(stack) == [] then [] else old(stack)[1..]
    {
      ref := list[0];
      list[0] := list[ref];
      stack := if stack == [] then [] else stack[1..];
    }

    /** `init_gnttab`: threads all usable entries; the table page is fresh. */
    constructor (page: array<Cell>)
      requires Untouched(page[..])
      ensures Valid() && history == [] && cells == page && fresh(list) && boot == page[..] == old(page[..])
      ensures pc == Idle && grants == map[] && list[0] == 511
    {
      list := new nat[NR_GRANT_ENTRIES](_ => 0);
      cells := page;
      boot := page[..];
      history, stack, grants, pc, outcome := [], InitialStack(NR_RESERVED_ENTRIES), map[], Idle, Nothing;
      new;
      assert list[..] == InitialList(NR_RESERVED_ENTRIES);
      for i := NR_RESERVED_ENTRIES to NR_GRANT_ENTRIES
        invariant fresh(list) && list.Length == NR_GRANT_ENTRIES && cells == page && page[..] == old(page[..])
        invariant boot == page[..] && history == [] && grants == map[] && pc == Idle && outcome == Nothing
        invariant list[..] == InitialList(i) && stack == InitialStack(i)
      {
        PutFreeEntry(i);
      }
      BootedInv(boot);
      FirstGrants(NR_GRANT_ENTRIES);
    }

    /** Records that the arrays have just taken the step `a`. */
    ghost method Record(before: State, a: Action)
      requires Recorded(before)
      requires list[..] == Apply(before, a).list && cells[..] == Apply(before, a).cells
      modifies `history, `stack, `grants, `pc, `outcome
      ensures Valid() && Now() == Apply(before, a) && history == old(history) + [a]
    {
      hide CellOk, PcOk, Partitioned, Threads, HvStep;
      var after := Apply(before, a);
      RunSnoc(Booted(boot), history, a);
      history := history + [a];
      stack, grants, pc, outcome := after.stack, after.grants, after.pc, after.outcome;
    }

    /** Any finite number of hypervisor steps, on any entries. */
    method Hypervisor()
      requires Valid()
      modifies this, cells
      ensures Valid() && Now() == old(Now()).(cells := cells[..]) && old(history) <= history
      ensures forall k :: |old(history)| <= k < |history| ==> history[k].Hv?
    {
      var steps: nat := *;
      while steps > 0
        invariant Valid() && Now() == old(Now()).(cells := cells[..]) && old(history) <= history
        invariant forall k :: |old(history)| <= k < |history| ==> history[k].Hv?
      {
        var ref: nat := *;
        var act: HvAct := *;
        if ref < cells.Length {
          HypervisorStep(ref, act);
        }
        steps := steps - 1;
      }
    }

    method HypervisorStep(ref: nat, act: HvAct)
      requires Valid() && ref < cells.Length
      modifies this, cells
      ensures Valid() && Now() == Apply(old(Now()), Hv(ref, act)) && history == old(history) + [Hv(ref, act)]
      ensures Now() == old(Now()).(cells := cells[..])
    {
      hide Recorded, Inv;
      ghost var before := Now();
      cells[ref] := HvStep(cells[ref], act);
      assert cells[..] == Apply(before, Hv(ref, act)).cells;
      Record(before, Hv(ref, act));
    }

    // The accesses of the guest to the shared table.  The hypervisor may act before each.

    method StoreFrame(ref: nat, frame: U32, ghost g: Grant)
      requires Valid() && pc == FillFrame(ref, g) && frame == g.frame
      modifies this, cells
      ensures Valid() && pc == FillDomid(ref, g) && old(history) <= history
      ensures stack == old(stack) && grants == old(grants)
    {
      hide Recorded, Inv;
      Hypervisor();
      ghost var before := Now();
      cells[ref] := cells[ref].(entry := cells[ref].entry.(frame := frame));
      assert cells[..] == Apply(before, Tick).cells;
      Record(before, Tick);
    }

    method StoreDomid(ref: nat, domid: U16, ghost g: Grant)
      requires Valid() && pc == FillDomid(ref, g) && domid == g.domid
      modifies this, cells
      ensures Valid() && pc == Publish(ref, g) && old(history) <= history
      ensures stack == old(stack) && grants == old(grants)
    {
      hide Recorded, Inv;
      Hypervisor();
      ghost var before := Now();
      cells[ref] := cells[ref].(entry := cells[ref].entry.(domid := domid));
      assert cells[..] == Apply(before, Tick).cells;
      Record(before, Tick);
    }

    method StoreFlags(ref: nat, flags: bv16, ghost g: Grant)
      requires Valid() && pc == Publish(ref, g) && flags == PublishedFlags(g)
      modifies this, cells
      ensures Valid() && pc == Idle && outcome == Granted(ref) && old(history) <= history
      ensures stack == old(stack) && grants == if ref == 0 then old(grants) else old(grants)[ref := g]
    {
      hide Recorded, Inv;
      Hypervisor();
      ghost var before := Now();
      cells[ref] := cells[ref].(entry := cells[ref].entry.(flags := flags));
      assert cells[..] == Apply(before, Tick).cells;
      Record(before, Tick);
    }

    /** Every grant routine starts by taking an entry. */
    method TakeEntry(ghost g: Grant) returns (ref: nat)
      requires Valid() && pc.Idle?
      modifies this, list
      ensures Valid() && pc == FillFrame(ref, g) && old(history) <= history && grants == old(grants)
      ensures ref == if old(stack) == [] then 0 else old(stack)[0]
      ensures stack == if old(stack) == [] then [] else old(stack)[1..]
    {
      hide Recorded, CellOk, Partitioned, PcOk;
      ghost var before := Now();
      ref := GetFreeEntry();
      Record(before, CallGrant(g));
    }

    /** `gnttab_grant_access`; the frame number is cut to the width of its field. */
    method GrantAccess(domid: U16, frame: U64, readonly: bool) returns (ref: nat)
      requires Valid() && pc.Idle?
      modifies this, list, cells
      ensures Valid() && pc.Idle? && outcome == Granted(ref) && old(history) <= history
      ensures ref == if old(stack) == [] then 0 else old(stack)[0]
      ensures stack == if old(stack) == [] then [] else old(stack)[1..]
      ensures grants == if ref == 0 then old(grants) else old(grants)[ref := Access(domid, frame % TWO_32, readonly)]
    {
      ghost var g := Access(domid, frame % TWO_32, readonly);
      ref := TakeEntry(g);
      StoreFrame(ref, frame % TWO_32, g);
      StoreDomid(ref, domid, g);
      StoreFlags(ref, GTF_PERMIT_ACCESS | (if readonly then GTF_READONLY else 0), g);
    }

    /** `gnttab_grant_transfer`. */
    method GrantTransfer(domid: U16, pfn: U64) returns (ref: nat)
      requires Valid() && pc.Idle?
      modifies this, list, cells
      ensures Valid() && pc.Idle? && outcome == Granted(ref) && old(history) <= history
      ensures ref == if old(stack) == [] then 0 else old(stack)[0]
      ensures stack == if old(stack) == [] then [] else old(stack)[1..]
      ensures grants == if ref == 0 then old(grants) else old(grants)[ref := Transfer(domid, pfn % TWO_32)]
    {
      ghost var g := Transfer(domid, pfn % TWO_32);
      ref := TakeEntry(g);
      StoreFrame(ref, pfn % TWO_32, g);
      StoreDomid(ref, domid, g);
      StoreFlags(ref, GTF_ACCEPT_TRANSFER, g);
    }

    /** A load of the flags of an entry. */
    method LoadFlags(ref: nat) returns (flags: bv16)
      requires Valid() && (pc.AccessRead? || pc.TransferRead? || pc.TransferPoll?) && pc.ref == ref
      requires pc.TransferPoll? ==> pc.flags & GTF_TRANSFER_COMPLETED == 0
      modifies this, cells
      ensures Valid() && old(history) <= history && stack == old(stack) && grants == old(grants)
      ensures |old(history)| < |history|
      ensures old(pc).AccessRead? ==> pc == AccessTest(ref, flags, 0)
      ensures old(pc).TransferRead? ==>
                pc == if flags & GTF_TRANSFER_COMMITTED == 0 then TransferCas(ref, flags, old(pc).failures)
                      else TransferPoll(ref, flags)
      ensures old(pc).TransferRead? && old(pc).failures > 0 ==> flags & GTF_TRANSFER_COMMITTED != 0
      ensures old(pc).TransferPoll? ==> pc == TransferPoll(ref, flags)
    {
      hide Recorded, CellOk, Partitioned, Threads;
      Hypervisor();
      ghost var before := Now();
      flags := cells[ref].entry.flags;
      Record(before, Tick);
    }

    /** `synch_cmpxchg` of an entry's flags against 0: one atomic step. */
    method CompareAndClear(ref: nat, expected: bv16) returns (seen: bv16)
      requires Valid() && (pc.AccessCas? || pc.TransferCas?) && pc.ref == ref && pc.flags == expected
      modifies this, cells
      ensures Valid() && old(history) <= history && stack == old(stack)
      ensures seen == expected ==>
                && grants == old(grants) - {ref}
                && pc == PutFree(ref, if old(pc).AccessCas? then Ended else Released)
                && ref < cells.Length && cells[ref].entry.flags == 0
      ensures seen != expected ==>
                && grants == old(grants)
                && pc == if old(pc).AccessCas? then AccessTest(ref, seen, old(pc).failures + 1)
                         else TransferRead(ref, old(pc).failures + 1)
    {
      hide Recorded, CellOk, Partitioned, Threads, PcOk;
      Hypervisor();
      ghost var before := Now();
      seen := cells[ref].entry.flags;
      if seen == expected {
        cells[ref] := cells[ref].(entry := cells[ref].entry.(flags := 0));
      }
      assert cells[..] == Apply(before, Tick).cells;
      Record(before, Tick);
    }

    // Decisions of the routines, with no access to shared memory.

    /** The flags show a use: `gnttab_end_access` gives up. */
    ghost method GiveUp()
      requires Valid() && pc.AccessTest? && pc.flags & (GTF_READING | GTF_WRITING) != 0
      modifies this
      ensures Valid() && old(history) <= history && stack == old(stack) && grants == old(grants)
      ensures pc == Idle && outcome == StillInUse
    {
      hide Recorded, Inv;
      Record(Now(), Tick);
    }

    /** The flags show no use: on to the compare-and-swap, which has not failed yet. */
    ghost method GoOn()
      requires Valid() && pc.AccessTest? && pc.flags & (GTF_READING | GTF_WRITING) == 0
      modifies this
      ensures Valid() && old(history) <= history && stack == old(stack) && grants == old(grants)
      ensures old(pc).failures == 0 && pc == AccessCas(old(pc).ref, old(pc).flags, 0)
    {
      hide Recorded, CellOk, Partitioned, Threads;
      Record(Now(), Tick);
    }

    /** The transfer is complete: on to reading the frame. */
    ghost method StopWaiting()
      requires Valid() && pc.TransferPoll? && pc.flags & GTF_TRANSFER_COMPLETED != 0
      modifies this
      ensures Valid() && old(history) <= history && stack == old(stack) && grants == old(grants)
      ensures pc == TransferFrame(old(pc).ref)
    {
      hide Recorded, Inv;
      Record(Now(), Tick);
    }

    /** Reads the frame of a completed transfer. */
    method LoadFrame(ref: nat) returns (frame: U32)
      requires Valid() && pc == TransferFrame(ref)
      modifies this, cells
      ensures Valid() && old(history) <= history && stack == old(stack) && grants == old(grants) - {ref}
      ensures pc == PutFree(ref, Delivered(frame)) && ref < cells.Length
      ensures cells[ref].delivered == Some(frame)
    {
      hide Recorded, Partitioned, Threads;
      Hypervisor();
      ghost var before := Now();
      frame := cells[ref].entry.frame;
      Record(before, Tick);
      assert CellOk(before.cells[ref], GrantOf(before, ref));
    }

    method Finish(ref: nat)
      requires Valid() && pc.PutFree? && pc.ref == ref
      modifies this, list
      ensures Valid() && old(history) <= history && grants == old(grants)
      ensures pc == Idle && outcome == old(pc).outcome && stack == [ref] + old(stack)
    {
      hide Recorded, Inv;
      ghost var before := Now();
      PutFreeEntry(ref);
      Record(before, Tick);
    }

    /** One round of the loop of `gnttab_end_access`; only the first can fail. */
    method TryEndAccess(ref: nat, flags: bv16) returns (inUse: bool, seen: bv16)
      requires Valid() && pc.AccessTest? && pc.ref == ref && pc.flags == flags
      modifies this, cells
      ensures Valid() && old(history) <= history && stack == old(stack)
      ensures inUse ==> pc == Idle && outcome == StillInUse && grants == old(grants)
      ensures !inUse ==> old(pc).failures == 0
      ensures !inUse && seen == flags ==>
                && pc == PutFree(ref, Ended) && grants == old(grants) - {ref}
                && ref < cells.Length && cells[ref].entry.flags == 0
      ensures !inUse && seen != flags ==> pc == AccessTest(ref, seen, 1) && grants == old(grants)
    {
      hide Valid;
      if flags & (GTF_READING | GTF_WRITING) != 0 {
        GiveUp();
        return true, flags;
      }
      GoOn();
      seen := CompareAndClear(ref, flags);
      inUse := false;
    }

    /** `gnttab_end_access`: 1 if the grant was ended, 0 with a warning if it is still in use. */
    method EndAccess(ref: nat) returns (ended: int)
      requires Valid() && pc.Idle? && ref in grants && grants[ref].Access?
      modifies this, list, cells
      ensures Valid() && pc.Idle? && old(history) <= history
      ensures ended == 0 || ended == 1
      ensures ended == 1 ==>
                && outcome == Ended && grants == old(grants) - {ref} && stack == [ref] + old(stack)
                && ref < cells.Length && cells[ref].entry.flags == 0
      ensures ended == 0 ==> outcome == StillInUse && grants == old(grants) && stack == old(stack)
    {
      hide Valid;
      BeginEnd(ref, CallEndAccess(ref));
      var flags := LoadFlags(ref);
      var inUse, nflags := TryEndAccess(ref, flags);
      while !inUse && nflags != flags
        invariant Valid() && old(history) <= history && stack == old(stack)
        invariant inUse ==> pc == Idle && outcome == StillInUse && grants == old(grants)
        invariant !inUse && nflags == flags ==>
                    && pc == PutFree(ref, Ended) && grants == old(grants) - {ref}
                    && ref < cells.Length && cells[ref].entry.flags == 0
        invariant !inUse && nflags != flags ==> pc == AccessTest(ref, nflags, 1) && grants == old(grants)
        decreases !inUse && nflags != flags
      {
        flags := nflags;
        inUse, nflags := TryEndAccess(ref, flags);
      }
      if inUse {
        return 0;
      }
      Finish(ref);
      return 1;
    }

    ghost method BeginEnd(ref: nat, call: Action)
      requires Valid() && pc.Idle? && ref in grants
      requires call == if grants[ref].Access? then CallEndAccess(ref) else CallEndTransfer(ref)
      modifies this
      ensures Valid() && old(history) <= history && stack == old(stack) && grants == old(grants)
      ensures pc == if grants[ref].Access? then AccessRead(ref) else TransferRead(ref, 0)
      ensures ref < cells.Length
    {
      hide Recorded, CellOk, Threads, PcOk;
      Record(Now(), call);
    }

    /** The second half of `gnttab_end_transfer`, giving up after `patience` reads of the flags. */
    method AwaitFrame(ref: nat, seen: bv16, patience: nat) returns (frame: Option<U32>)
      requires Valid() && pc == TransferPoll(ref, seen)
      modifies this, list, cells
      ensures Valid() && old(history) <= history
      ensures frame.None? ==>
                && pc.TransferPoll? && pc.flags & GTF_TRANSFER_COMPLETED == 0
                && grants == old(grants) && stack == old(stack) && |old(history)| + patience <= |history|
      ensures frame.Some? ==>
                && pc == Idle && grants == old(grants) - {ref} && stack == [ref] + old(stack)
                && outcome == Delivered(frame.value) && ref < cells.Length
                && cells[ref].delivered == Some(frame.value)
    {
      hide Valid;
      var flags := seen;
      var left := patience;
      while flags & GTF_TRANSFER_COMPLETED == 0
        invariant Valid() && old(history) <= history && grants == old(grants) && stack == old(stack)
        invariant pc == TransferPoll(ref, flags)
        invariant |old(history)| + patience <= |history| + left
        decreases left
      {
        if left == 0 {
          return None;
        }
        flags := LoadFlags(ref);
        left := left - 1;
      }
      var f := TakeFrame(ref);
      return Some(f);
    }

    method TakeFrame(ref: nat) returns (frame: U32)
      requires Valid() && pc.TransferPoll? && pc.ref == ref && pc.flags & GTF_TRANSFER_COMPLETED != 0
      modifies this, list, cells
      ensures Valid() && old(history) <= history
      ensures pc == Idle && grants == old(grants) - {ref} && stack == [ref] + old(stack)
      ensures outcome == Delivered(frame) && ref < cells.Length && cells[ref].delivered == Some(frame)
    {
      hide Valid;
      StopWaiting();
      frame := LoadFrame(ref);
      Finish(ref);
    }

    /**
     `gnttab_end_transfer`.  The wait for completion depends on the hypervisor, so it is cut off
     after `patience` reads, with the routine still waiting; otherwise the result is 0 for a grant
     withdrawn before any commitment, or the frame the hypervisor delivered.
     */
    method EndTransfer(ref: nat, patience: nat) returns (frame: Option<U32>)
      requires Valid() && pc.Idle? && ref in grants && grants[ref].Transfer?
      modifies this, list, cells
      ensures Valid() && old(history) <= history
      ensures frame.None? ==>
                && pc.TransferPoll? && pc.flags & GTF_TRANSFER_COMPLETED == 0
                && grants == old(grants) && stack == old(stack) && |old(history)| + patience <= |history|
      ensures frame.Some? ==> pc == Idle && grants == old(grants) - {ref} && stack == [ref] + old(stack)
      ensures frame.Some? ==>
                || (outcome == Released && frame.value == 0 && ref < cells.Length && cells[ref].entry.flags == 0)
                || (outcome == Delivered(frame.value) && ref < cells.Length
                    && cells[ref].delivered == Some(frame.value))
    {
      hide Valid;
      BeginEnd(ref, CallEndTransfer(ref));
      var flags := LoadFlags(ref);
      while flags & GTF_TRANSFER_COMMITTED == 0
        invariant Valid() && old(history) <= history && grants == old(grants) && stack == old(stack)
        invariant pc == if flags & GTF_TRANSFER_COMMITTED == 0 then TransferCas(ref, flags, 0)
                        else TransferPoll(ref, flags)
        decreases flags & GTF_TRANSFER_COMMITTED == 0
      {
        var seen := CompareAndClear(ref, flags);
        if seen == flags {
          Finish(ref);
          return Some(0);
        }
        flags := LoadFlags(ref);
      }
      frame := AwaitFrame(ref, flags, patience);
    }
  }
}
