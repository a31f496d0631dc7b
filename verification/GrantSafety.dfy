/** The invariant of the grant protocol, over every interleaving, and what follows from it. */
module GrantSafety {
  import opened Words
  import opened GrantProtocol

  // ---------------------------------------------------------------- one entry

  /** Whatever the hypervisor does to an entry, the entry keeps agreeing with its grant. */
  lemma HvKeepsCell(c: Cell, g: Option<Grant>, a: HvAct)
    requires CellOk(c, g)
    ensures CellOk(HvStep(c, a), g)
  {
  }

  /** The hypervisor never withdraws a commitment nor a completion, nor commits a released entry. */
  lemma HvProgressIsSticky(c: Cell, d: U16, f: U32, a: HvAct)
    requires CellOk(c, Some(Transfer(d, f)))
    ensures c.entry.flags & GTF_TRANSFER_COMMITTED != 0 ==>
              HvStep(c, a).entry.flags & GTF_TRANSFER_COMMITTED != 0
    ensures c.entry.flags & GTF_TRANSFER_COMPLETED != 0 ==>
              HvStep(c, a) == c
  {
  }

  function HvSteps(c: Cell, acts: seq<HvAct>): Cell
    decreases |acts|
  {
    if acts == [] then c else HvSteps(HvStep(c, acts[0]), acts[1..])
  }

  /** An entry without a grant stays exactly as it is, whatever the hypervisor attempts. */
  lemma {:induction false} QuietStaysQuiet(c: Cell, acts: seq<HvAct>)
    requires CellOk(c, None)
    ensures HvSteps(c, acts) == c
  {
    if acts != [] {
      QuietStep(c, acts[0]);
      QuietStaysQuiet(c, acts[1..]);
    }
  }

  // ---------------------------------------------------------------- the free list

  lemma GetThreads(list: seq<nat>, stack: seq<nat>)
    requires Threads(list, stack)
    ensures list[0] < |list|
    ensures Threads(ListAfterGet(list), if stack == [] then [] else stack[1..])
  {
    if stack != [] {
      var l := ListAfterGet(list);
      var rest := stack[1..];
      forall k | 0 <= k < |rest| ensures l[rest[k]] == Below(rest, k) {
        var j := k + 1;
        assert rest[k] == stack[j];
        assert list[stack[j]] == Below(stack, j) == Below(rest, k);
      }
    }
  }

  lemma PutThreads(list: seq<nat>, stack: seq<nat>, ref: nat)
    requires Threads(list, stack)
    requires NR_RESERVED_ENTRIES <= ref < NR_GRANT_ENTRIES && ref !in stack
    ensures Threads(ListAfterPut(list, ref), [ref] + stack)
  {
    var l := ListAfterPut(list, ref);
    var st := [ref] + stack;
    forall k | 0 <= k < |st| ensures l[st[k]] == Below(st, k) {
      if k > 0 {
        var j := k - 1;
        assert st[k] == stack[j] != ref;
        assert list[stack[j]] == Below(stack, j) == Below(st, k);
      }
    }
  }

  // ---------------------------------------------------------------- one step

  lemma QuietStep(c: Cell, a: HvAct)
    requires CellOk(c, None)
    ensures HvStep(c, a) == c
  {
  }

  /** A hypervisor step leaves what the running routine knows about its entry true. */
  lemma HvKeepsPc(s: State, ref: nat, act: HvAct)
    requires WellShaped(s) && PcOk(s) && ref < NR_GRANT_ENTRIES
    requires NR_RESERVED_ENTRIES <= ref ==> CellOk(s.cells[ref], GrantOf(s, ref))
    requires forall r :: r in s.grants ==> NR_RESERVED_ENTRIES <= r
    requires InFlight(s.pc, ref) && NR_RESERVED_ENTRIES <= ref ==> ref !in s.grants
    ensures PcOk(Apply(s, Hv(ref, act)))
  {
    hide CellOk, HvStep, AccessFlags;
    if NR_RESERVED_ENTRIES <= ref && PcRef(s.pc) == ref {
      if InFlight(s.pc, ref) {
        QuietStep(s.cells[ref], act);
      } else if ref in s.grants && s.grants[ref].Transfer? {
        HvProgressIsSticky(s.cells[ref], s.grants[ref].domid, s.grants[ref].frame, act);
      }
    }
  }

  lemma HvKeepsInv(s: State, ref: nat, act: HvAct)
    requires Inv(s) && ref < NR_GRANT_ENTRIES
    ensures Inv(Apply(s, Hv(ref, act)))
  {
    var s' := Apply(s, Hv(ref, act));
    HvKeepsPc(s, ref, act);
    forall r | NR_RESERVED_ENTRIES <= r < NR_GRANT_ENTRIES ensures CellOk(s'.cells[r], GrantOf(s', r)) {
      HvKeepsCell(s.cells[r], GrantOf(s, r), act);
    }
  }

  /** Taking the top of the free list moves exactly that entry from free to being worked on. */
  lemma StartPartition(s: State, g: Grant)
    requires WellShaped(s) && Threads(s.list, s.stack) && Partitioned(s) && s.pc.Idle?
    ensures Partitioned(StartGrant(s, g))
  {
    hide PcOk, CellOk;
    if s.stack != [] {
      var rest := s.stack[1..];
      assert s.stack == [s.stack[0]] + rest;
      assert forall r :: r in s.stack <==> r == s.stack[0] || r in rest;
    }
  }

  lemma CallGrantKeepsInv(s: State, g: Grant)
    requires Inv(s) && s.pc.Idle?
    ensures Inv(StartGrant(s, g))
  {
    GetThreads(s.list, s.stack);
    StartPartition(s, g);
  }

  lemma CallEndKeepsInv(s: State, a: Action)
    requires Inv(s) && s.pc.Idle? && (a.CallEndAccess? || a.CallEndTransfer?)
    ensures Inv(Apply(s, a))
  {
  }

  lemma FillKeepsInv(s: State)
    requires Inv(s) && Granting(s.pc)
    ensures Inv(GuestTick(s))
  {
    hide Threads;
    if s.pc.Publish? {
      assert AccessFlags(true, false, false) == 5 && AccessFlags(false, false, false) == 1;
    }
  }

  lemma EndAccessKeepsInv(s: State)
    requires Inv(s) && (s.pc.AccessRead? || s.pc.AccessTest? || s.pc.AccessCas?)
    ensures Inv(GuestTick(s))
  {
    hide Threads;
    var c := s.cells[s.pc.ref];
    var g := s.grants[s.pc.ref];
    assert CellOk(c, GrantOf(s, s.pc.ref));
    assert c.entry.flags == AccessFlags(g.readonly, c.reading.Some?, c.writing.Some?);
  }

  lemma EndTransferKeepsInv(s: State)
    requires Inv(s)
    requires s.pc.TransferRead? || s.pc.TransferCas? || s.pc.TransferPoll? || s.pc.TransferFrame?
    ensures Inv(GuestTick(s))
  {
    hide Threads;
    assert CellOk(s.cells[s.pc.ref], GrantOf(s, s.pc.ref));
  }

  lemma PutKeepsInv(s: State)
    requires Inv(s) && s.pc.PutFree?
    ensures Inv(GuestTick(s))
  {
    PutThreads(s.list, s.stack, s.pc.ref);
  }

  /** Every atomic step of either side keeps the invariant. */
  lemma StepKeepsInv(s: State, a: Action)
    requires Inv(s)
    ensures Inv(Apply(s, a))
  {
    match a
    case Hv(ref, act) => if ref < NR_GRANT_ENTRIES { HvKeepsInv(s, ref, act); }
    case CallGrant(g) => if s.pc.Idle? { CallGrantKeepsInv(s, g); }
    case CallEndAccess(_) => if s.pc.Idle? { CallEndKeepsInv(s, a); }
    case CallEndTransfer(_) => if s.pc.Idle? { CallEndKeepsInv(s, a); }
    case Tick =>
      if Granting(s.pc) {
        FillKeepsInv(s);
      } else if s.pc.AccessRead? || s.pc.AccessTest? || s.pc.AccessCas? {
        EndAccessKeepsInv(s);
      } else if s.pc.PutFree? {
        PutKeepsInv(s);
      } else if !s.pc.Idle? {
        EndTransferKeepsInv(s);
      }
  }

  // ---------------------------------------------------------------- whole runs

  /** The list `init_gnttab` leaves after putting the entries below `n`: n-1 on top, 8 at the bottom. */
  function InitialList(n: nat): seq<nat>
    requires NR_RESERVED_ENTRIES <= n <= NR_GRANT_ENTRIES
    ensures |InitialList(n)| == NR_GRANT_ENTRIES
    ensures forall k :: 0 <= k < NR_GRANT_ENTRIES ==> InitialList(n)[k] < NR_GRANT_ENTRIES
  {
    if n == NR_RESERVED_ENTRIES then seq(NR_GRANT_ENTRIES, _ => 0)
    else ListAfterPut(InitialList(n - 1), n - 1)
  }

  function InitialStack(n: nat): seq<nat>
    requires NR_RESERVED_ENTRIES <= n
  {
    if n == NR_RESERVED_ENTRIES then [] else [n - 1] + InitialStack(n - 1)
  }

  /** The state after `init_gnttab`, for a table whose usable entries are still untouched. */
  function Booted(cells: seq<Cell>): (s: State)
    requires |cells| == NR_GRANT_ENTRIES
    ensures WellShaped(s)
  {
    State(InitialList(NR_GRANT_ENTRIES), InitialStack(NR_GRANT_ENTRIES), cells, map[], Idle, Nothing)
  }

  predicate Untouched(cells: seq<Cell>) {
    && |cells| == NR_GRANT_ENTRIES
    && forall r :: NR_RESERVED_ENTRIES <= r < NR_GRANT_ENTRIES ==> CellOk(cells[r], None)
  }

  lemma {:induction false} InitialThreads(n: nat)
    requires NR_RESERVED_ENTRIES <= n <= NR_GRANT_ENTRIES
    ensures Threads(InitialList(n), InitialStack(n))
    ensures forall r :: r in InitialStack(n) <==> NR_RESERVED_ENTRIES <= r < n
  {
    if n > NR_RESERVED_ENTRIES {
      InitialThreads(n - 1);
      PutThreads(InitialList(n - 1), InitialStack(n - 1), n - 1);
    }
  }

  lemma BootedInv(cells: seq<Cell>)
    requires Untouched(cells)
    ensures Inv(Booted(cells))
  {
    hide InitialList, InitialStack, Threads, CellOk;
    InitialThreads(NR_GRANT_ENTRIES);
  }

  // ---------------------------------------------------------------- runs

  /** A run: any finite sequence of atomic steps, of either side and in any order. */
  function Run(s: State, run: seq<Action>): (t: State)
    requires WellShaped(s)
    ensures WellShaped(t)
    decreases |run|
  {
    if run == [] then s else Run(Apply(s, run[0]), run[1..])
  }

  lemma {:induction false} RunKeepsInv(s: State, run: seq<Action>)
    requires Inv(s)
    ensures Inv(Run(s, run))
    decreases |run|
  {
    if run != [] {
      StepKeepsInv(s, run[0]);
      RunKeepsInv(Apply(s, run[0]), run[1..]);
    }
  }

  lemma {:induction false} RunSnoc(s: State, run: seq<Action>, a: Action)
    requires WellShaped(s)
    ensures Run(s, run + [a]) == Apply(Run(s, run), a)
    decreases |run|
  {
    if run == [] {
      assert (run + [a])[1..] == [];
    } else {
      assert (run + [a])[1..] == run[1..] + [a];
      RunSnoc(Apply(s, run[0]), run[1..], a);
    }
  }

  lemma {:induction false} RunConcat(s: State, a: seq<Action>, b: seq<Action>)
    requires WellShaped(s)
    ensures Run(s, a + b) == Run(Run(s, a), b)
    decreases |a|
  {
    if a == [] {
      assert a + b == b;
    } else {
      assert (a + b)[1..] == a[1..] + b;
      RunConcat(Apply(s, a[0]), a[1..], b);
    }
  }

  /** The state after `init_gnttab` and any run. */
  function Reached(cells: seq<Cell>, run: seq<Action>): (t: State)
    requires |cells| == NR_GRANT_ENTRIES
    ensures WellShaped(t)
  {
    Run(Booted(cells), run)
  }

  /** The invariant holds in every state that any interleaving reaches. */
  lemma ReachedInv(cells: seq<Cell>, run: seq<Action>)
    requires Untouched(cells)
    ensures Inv(Reached(cells, run))
  {
    BootedInv(cells);
    RunKeepsInv(Booted(cells), run);
  }

  // ---------------------------------------------------------------- what every run guarantees

  /**
   An entry on the free list, or about to be put there, is not read or written through, and no
   transfer into it is committed but unfinished; the hypervisor can do nothing to it at all.
   */
  lemma FreeEntriesAreIdle(cells: seq<Cell>, run: seq<Action>, r: nat, acts: seq<HvAct>)
    requires Untouched(cells)
    requires r in Reached(cells, run).stack || (Reached(cells, run).pc.PutFree? && Reached(cells, run).pc.ref == r)
    ensures r < NR_GRANT_ENTRIES
    ensures var c := Reached(cells, run).cells[r];
            && c.reading.None? && c.writing.None? && !Transferring(c.entry.flags)
            && (c.entry.flags == 0 || c.entry.flags & GTF_TRANSFER_COMPLETED != 0)
            && HvSteps(c, acts) == c
  {
    ReachedInv(cells, run);
    var t := Reached(cells, run);
    assert CellOk(t.cells[r], GrantOf(t, r));
    QuietStaysQuiet(t.cells[r], acts);
  }

  /**
   Whatever the hypervisor uses above the reserved entries belongs to an outstanding access grant,
   and what it saw (domain when it pinned, frame when it fetched) is what that grant asked for.
   */
  lemma UsesSeeTheCurrentGrant(cells: seq<Cell>, run: seq<Action>, r: nat, write: bool)
    requires Untouched(cells) && NR_RESERVED_ENTRIES <= r < NR_GRANT_ENTRIES
    requires UseOf(Reached(cells, run).cells[r], write).Some?
    ensures var t := Reached(cells, run);
            var u := UseOf(t.cells[r], write).value;
            && r in t.grants && t.grants[r].Access?
            && u.domid == t.grants[r].domid && (u.frame.Some? ==> u.frame.value == t.grants[r].frame)
            && t.cells[r].entry.domid == t.grants[r].domid && t.cells[r].entry.frame == t.grants[r].frame
            && t.cells[r].entry.flags & ModeBit(write) != 0
  {
    ReachedInv(cells, run);
    var t := Reached(cells, run);
    assert CellOk(t.cells[r], GrantOf(t, r));
  }

  /**
   What the hypervisor may do with an outstanding access grant that it is not writing through: read,
   and write if and only if the grant was not asked for as read-only.
   */
  lemma WritableIffGrantedSo(cells: seq<Cell>, run: seq<Action>, r: nat)
    requires Untouched(cells)
    requires r in Reached(cells, run).grants && Reached(cells, run).grants[r].Access?
    ensures r < NR_GRANT_ENTRIES
    ensures var t := Reached(cells, run);
            && HvStep(t.cells[r], Pin(false)).reading.Some?
            && (t.grants[r].readonly ==> t.cells[r].writing.None?)
            && (t.cells[r].writing.None? ==> (HvStep(t.cells[r], Pin(true)).writing.Some? <==> !t.grants[r].readonly))
  {
    ReachedInv(cells, run);
    var t := Reached(cells, run);
    assert CellOk(t.cells[r], GrantOf(t, r));
  }

  /**
   The flag word of every outstanding grant, bit by bit: an access grant shows read-only and the uses
   in progress; a transfer is accepted, committed or completed.
   */
  lemma FlagWords(cells: seq<Cell>, run: seq<Action>, r: nat)
    requires Untouched(cells) && r in Reached(cells, run).grants
    ensures r < NR_GRANT_ENTRIES
    ensures var t := Reached(cells, run);
            var c := t.cells[r];
            match t.grants[r]
            case Access(_, _, readonly) =>
              c.entry.flags as int == 1 + (if readonly then 4 else 0) + (if c.reading.Some? then 8 else 0)
                                        + (if c.writing.Some? then 16 else 0)
            case Transfer(_, _) => c.entry.flags == 2 || c.entry.flags == 6 || c.entry.flags == 14
  {
    ReachedInv(cells, run);
    var t := Reached(cells, run);
    assert CellOk(t.cells[r], GrantOf(t, r));
  }

  /** The words the grant routines publish. */
  lemma PublishedWords(g: Grant)
    ensures PublishedFlags(g) == if g.Transfer? then 2 else if g.readonly then 5 else 1
  {
  }

  predicate Usable(r: nat) {
    NR_RESERVED_ENTRIES <= r
  }

  function UsableBelow(n: nat): set<nat> {
    set r: nat | r < n && Usable(r)
  }

  lemma {:induction false} UsableCount(n: nat)
    requires NR_RESERVED_ENTRIES <= n
    ensures |UsableBelow(n)| == n - NR_RESERVED_ENTRIES
  {
    if n == NR_RESERVED_ENTRIES {
      assert UsableBelow(n) == {};
    } else {
      UsableCount(n - 1);
      assert UsableBelow(n) == UsableBelow(n - 1) + {n - 1};
    }
  }

  /** The entry being worked on, unless it is the reserved slot 0. */
  function Busy(pc: Pc): set<nat> {
    if (Granting(pc) || pc.PutFree?) && pc.ref != 0 then {pc.ref} else {}
  }

  ghost function Elements(stack: seq<nat>): (e: set<nat>) {
    set r | r in stack
  }

  lemma {:induction false} DistinctCount(stack: seq<nat>)
    requires forall j, k :: 0 <= j < k < |stack| ==> stack[j] != stack[k]
    ensures |Elements(stack)| == |stack|
  {
    if stack != [] {
      var rest := stack[1..];
      DistinctCount(rest);
      assert stack == [stack[0]] + rest;
      assert Elements(stack) == Elements(rest) + {stack[0]};
      assert stack[0] !in rest;
    }
  }

  lemma BusyIsUsable(s: State)
    requires WellShaped(s) && PcOk(s)
    ensures forall r :: r in Busy(s.pc) ==> NR_RESERVED_ENTRIES <= r < NR_GRANT_ENTRIES && InFlight(s.pc, r)
    ensures forall r :: InFlight(s.pc, r) && r != 0 ==> r in Busy(s.pc)
  {
  }

  lemma PartitionCovers(s: State)
    requires Partitioned(s)
    requires forall r :: r in s.stack ==> NR_RESERVED_ENTRIES <= r < NR_GRANT_ENTRIES
    requires forall r :: r in Busy(s.pc) ==> NR_RESERVED_ENTRIES <= r < NR_GRANT_ENTRIES && InFlight(s.pc, r)
    requires forall r :: InFlight(s.pc, r) && r != 0 ==> r in Busy(s.pc)
    ensures Elements(s.stack) + s.grants.Keys + Busy(s.pc) == UsableBelow(NR_GRANT_ENTRIES)
    ensures Elements(s.stack) !! s.grants.Keys !! Busy(s.pc)
  {
  }

  lemma DisjointCount(a: set<nat>, b: set<nat>, c: set<nat>)
    requires a !! b !! c
    ensures |a + b + c| == |a| + |b| + |c|
  {
  }

  /** No entry is lost or duplicated: free, granted and busy entries are disjoint and make up 8..511. */
  lemma EntriesConserved(cells: seq<Cell>, run: seq<Action>)
    requires Untouched(cells)
    ensures var t := Reached(cells, run);
            && (forall r :: r in Elements(t.stack) + t.grants.Keys + Busy(t.pc) <==> 8 <= r < 512)
            && Elements(t.stack) !! t.grants.Keys !! Busy(t.pc)
            && |t.stack| + |t.grants.Keys| + |Busy(t.pc)| == 504
  {
    ReachedInv(cells, run);
    var t := Reached(cells, run);
    BusyIsUsable(t);
    PartitionCovers(t);
    DistinctCount(t.stack);
    UsableCount(NR_GRANT_ENTRIES);
    DisjointCount(Elements(t.stack), t.grants.Keys, Busy(t.pc));
  }

  /**
   `gnttab_end_access` fails at most one compare-and-swap, so its loop runs at most twice: after a
   failure the very next test sees the hypervisor's use and gives up.
   */
  lemma EndAccessLoopsAtMostTwice(cells: seq<Cell>, run: seq<Action>)
    requires Untouched(cells)
    requires Reached(cells, run).pc.AccessTest? || Reached(cells, run).pc.AccessCas?
    ensures var t := Reached(cells, run);
            && t.pc.failures <= 1
            && (t.pc.failures == 1 ==>
                  t.pc.AccessTest? && GuestTick(t) == t.(pc := Idle, outcome := StillInUse))
  {
    ReachedInv(cells, run);
    var t := Reached(cells, run);
    if t.pc.AccessTest? {
      var r, w :| t.pc.flags == AccessFlags(t.grants[t.pc.ref].readonly, r, w) && (t.pc.failures > 0 ==> r || w);
      assert t.pc.failures > 0 ==> t.pc.flags & (GTF_READING | GTF_WRITING) != 0;
    }
  }

  /** `gnttab_end_transfer` fails at most one compare-and-swap: a failure shows it the commitment. */
  lemma EndTransferFailsAtMostOnce(cells: seq<Cell>, run: seq<Action>)
    requires Untouched(cells)
    requires Reached(cells, run).pc.TransferRead? || Reached(cells, run).pc.TransferCas?
    ensures var t := Reached(cells, run);
            && t.pc.failures <= 1
            && (t.pc.failures == 1 ==> t.pc.TransferRead? && GuestTick(t).pc.TransferPoll?)
  {
    ReachedInv(cells, run);
  }

  /**
   The compare-and-swap of `gnttab_end_access` succeeds exactly when nothing is using the entry,
   and from then on the hypervisor cannot start to.
   */
  lemma EndAccessSucceedsIffUnused(cells: seq<Cell>, run: seq<Action>, acts: seq<HvAct>)
    requires Untouched(cells) && Reached(cells, run).pc.AccessCas?
    ensures var t := Reached(cells, run);
            var c := t.cells[t.pc.ref];
            var t' := GuestTick(t);
            && (t'.pc.PutFree? <==> c.reading.None? && c.writing.None?)
            && (t'.pc.PutFree? ==> t'.cells == t.cells[t.pc.ref := c.(entry := c.entry.(flags := 0))])
            && (t'.pc.PutFree? ==> HvSteps(t'.cells[t.pc.ref], acts) == t'.cells[t.pc.ref])
            && (!t'.pc.PutFree? ==> t'.cells == t.cells && t'.grants == t.grants)
  {
    ReachedInv(cells, run);
    var t := Reached(cells, run);
    assert CellOk(t.cells[t.pc.ref], GrantOf(t, t.pc.ref));
    var t' := GuestTick(t);
    StepKeepsInv(t, Tick);
    if t'.pc.PutFree? {
      QuietStaysQuiet(t'.cells[t.pc.ref], acts);
    }
  }

  /**
   `gnttab_end_transfer` withdraws a grant exactly when it was still uncommitted, and then no
   commitment can follow; the frame it otherwise reads is the one the hypervisor stored.
   */
  lemma EndTransferOutcome(cells: seq<Cell>, run: seq<Action>, acts: seq<HvAct>)
    requires Untouched(cells)
    requires Reached(cells, run).pc.TransferCas? || Reached(cells, run).pc.TransferFrame?
    ensures var t := Reached(cells, run);
            var c := t.cells[t.pc.ref];
            var t' := GuestTick(t);
            && (t.pc.TransferCas? ==>
                  (t'.pc == PutFree(t.pc.ref, Released) <==> c.entry.flags & GTF_TRANSFER_COMMITTED == 0)
                  && (t'.pc.PutFree? ==> t'.cells[t.pc.ref].entry.flags == 0))
            && (t.pc.TransferFrame? ==> c.delivered.Some? && t'.pc == PutFree(t.pc.ref, Delivered(c.delivered.value)))
            && (t'.pc.PutFree? ==> HvSteps(t'.cells[t.pc.ref], acts) == t'.cells[t.pc.ref])
  {
    ReachedInv(cells, run);
    var t := Reached(cells, run);
    assert CellOk(t.cells[t.pc.ref], GrantOf(t, t.pc.ref));
    var t' := GuestTick(t);
    StepKeepsInv(t, Tick);
    if t'.pc.PutFree? {
      QuietStaysQuiet(t'.cells[t.pc.ref], acts);
    }
  }

  // ---------------------------------------------------------------- the order of the free list

  lemma {:induction false} FirstGrants(n: nat)
    requires NR_RESERVED_ENTRIES < n
    ensures InitialStack(n) != [] && InitialStack(n)[0] == n - 1
  {
  }

  /** Right after `init_gnttab` the first grant is 511. */
  lemma FirstGrantIs511(cells: seq<Cell>, g: Grant)
    requires Untouched(cells)
    ensures Inv(Booted(cells)) && Apply(Booted(cells), CallGrant(g)).pc == FillFrame(511, g)
  {
    hide CellOk, Partitioned, PcOk;
    BootedInv(cells);
    FirstGrants(NR_GRANT_ENTRIES);
  }

  /**
   A grant works on the entry freed last, and the two undo each other on the free list: only the
   slot of that entry, which is no longer part of it, keeps what freeing stored there.
   */
  lemma GrantTakesLastFreed(s: State, g: Grant)
    requires WellShaped(s) && s.pc.PutFree?
    ensures var t := Apply(GuestTick(s), CallGrant(g));
            && t.pc == FillFrame(s.pc.ref, g) && t.stack == s.stack
            && t.list == s.list[s.pc.ref := s.list[0]]
  {
    assert Apply(GuestTick(s), CallGrant(g)).list == s.list[s.pc.ref := s.list[0]];
  }

  /** Between two calls the list is empty if and only if 504 grants are outstanding. */
  lemma ListEmptyIff(cells: seq<Cell>, run: seq<Action>)
    requires Untouched(cells) && Reached(cells, run).pc.Idle?
    ensures var t := Reached(cells, run);
            && (t.list[0] == 0 <==> t.stack == [])
            && (t.list[0] == 0 <==> |t.grants.Keys| == 504) && |t.grants.Keys| <= 504
  {
    ReachedInv(cells, run);
    EntriesConserved(cells, run);
  }

  /**
   The free list can run out, and the routines do not check: a grant works on an entry of its own
   if and only if fewer than 504 grants are outstanding; otherwise it works on the reserved entry 0
   and the list stays as it was.
   */
  lemma GrantIsFreshIff(cells: seq<Cell>, run: seq<Action>, g: Grant)
    requires Untouched(cells) && Reached(cells, run).pc.Idle?
    ensures var t := Reached(cells, run);
            var t' := Apply(t, CallGrant(g));
            && (|t.grants.Keys| < 504 <==> NR_RESERVED_ENTRIES <= t'.pc.ref && t'.pc.ref !in t.grants)
            && (|t.grants.Keys| == 504 <==> t'.pc.ref == 0)
            && (|t.grants.Keys| == 504 ==> t'.list == t.list && t'.stack == [])
  {
    ReachedInv(cells, run);
    ListEmptyIff(cells, run);
    var t := Reached(cells, run);
    if t.stack != [] {
      assert t.stack[0] in t.stack;
    }
  }

  /** What a grant call, once its entry is taken, does to the table if nothing interferes. */
  lemma FillPublishes(s: State, ref: nat, g: Grant)
    requires WellShaped(s) && s.pc == FillFrame(ref, g)
    ensures GuestTick(GuestTick(GuestTick(s))) == s.(
              cells := s.cells[ref := s.cells[ref].(entry := Entry(PublishedFlags(g), g.domid, g.frame))],
              pc := Idle, outcome := Granted(ref),
              grants := if ref == 0 then s.grants else s.grants[ref := g])
  {
    var cells := s.cells[ref := s.cells[ref].(entry := Entry(PublishedFlags(g), g.domid, g.frame))];
    assert GuestTick(GuestTick(GuestTick(s))).cells == cells;
  }

  /** The state after a grant call nothing interferes with. */
  function AfterGrant(s: State, g: Grant): State
    requires WellShaped(s)
  {
    var ref := s.list[0];
    StartGrant(s, g).(
      cells := s.cells[ref := s.cells[ref].(entry := Entry(PublishedFlags(g), g.domid, g.frame))],
      pc := Idle, outcome := Granted(ref),
      grants := if ref == 0 then s.grants else s.grants[ref := g])
  }

  function GrantRun(g: Grant): seq<Action> {
    [CallGrant(g), Tick, Tick, Tick]
  }

  lemma RunThree(s: State, a: Action, b: Action, c: Action)
    requires WellShaped(s)
    ensures Run(s, [a, b, c]) == Apply(Apply(Apply(s, a), b), c)
  {
    hide Apply;
    RunSnoc(s, [], a);
    RunSnoc(s, [a], b);
    RunSnoc(s, [a, b], c);
    assert [] + [a] == [a] && [a] + [b] == [a, b] && [a, b] + [c] == [a, b, c];
  }

  lemma GrantRunPublishes(s: State, g: Grant)
    requires WellShaped(s) && s.pc.Idle?
    ensures Run(s, GrantRun(g)) == AfterGrant(s, g)
  {
    hide GuestTick, HvStep, PublishedFlags, ListAfterGet;
    assert GrantRun(g)[1..] == [Tick, Tick, Tick];
    RunThree(StartGrant(s, g), Tick, Tick, Tick);
    FillPublishes(StartGrant(s, g), s.list[0], g);
  }

  /** One undisturbed grant call after the other. */
  function GrantRuns(gs: seq<Grant>): seq<Action> {
    if gs == [] then [] else GrantRuns(gs[..|gs| - 1]) + GrantRun(gs[|gs| - 1])
  }

  lemma InitialStackTop(n: nat)
    requires NR_RESERVED_ENTRIES < n
    ensures InitialStack(n) == [n - 1] + InitialStack(n - 1)
    ensures InitialStack(n)[1..] == InitialStack(n - 1)
  {
  }

  lemma GrantPopsTop(s: State, g: Grant)
    requires WellShaped(s) && s.pc.Idle? && s.stack != [] && s.list[0] != 0
    ensures var t := Run(s, GrantRun(g)); t.pc.Idle? && t.stack == s.stack[1..] && t.cells[0] == s.cells[0]
  {
    hide GrantRun, Run;
    GrantRunPublishes(s, g);
  }

  lemma ReachedMore(cells: seq<Cell>, run: seq<Action>, more: seq<Action>)
    requires |cells| == NR_GRANT_ENTRIES
    ensures Reached(cells, run + more) == Run(Reached(cells, run), more)
  {
    hide Run, Booted, InitialList, InitialStack;
    RunConcat(Booted(cells), run, more);
  }

  /** The first grants after initialisation take the entries from 511 down and leave entry 0 alone. */
  lemma {:induction false} GrantsDrainTheList(cells: seq<Cell>, gs: seq<Grant>)
    requires Untouched(cells) && |gs| <= 504
    ensures var t := Reached(cells, GrantRuns(gs));
            t.pc.Idle? && t.stack == InitialStack(NR_GRANT_ENTRIES - |gs|) && t.cells[0] == cells[0]
    decreases |gs|
  {
    if gs == [] {
      hide InitialStack, InitialList;
      assert Reached(cells, []) == Booted(cells);
    } else {
      hide GrantRun, Untouched, Reached, InitialStack;
      var last := |gs| - 1;
      GrantsDrainTheList(cells, gs[..last]);
      DrainOneMore(cells, GrantRuns(gs[..last]), gs[last], NR_GRANT_ENTRIES - last);
    }
  }

  lemma DrainOneMore(cells: seq<Cell>, run: seq<Action>, g: Grant, n: nat)
    requires Untouched(cells) && NR_RESERVED_ENTRIES < n
    requires Reached(cells, run).pc.Idle? && Reached(cells, run).stack == InitialStack(n)
    ensures var t := Reached(cells, run + GrantRun(g));
            && t.pc.Idle? && t.stack == InitialStack(n - 1)
            && t.cells[0] == Reached(cells, run).cells[0]
  {
    hide GrantRun, Run, Reached, Inv;
    ReachedMore(cells, run, GrantRun(g));
    InitialStackTop(n);
    TopIsUsable(cells, run);
    GrantPopsTop(Reached(cells, run), g);
  }

  lemma TopIsUsable(cells: seq<Cell>, run: seq<Action>)
    requires Untouched(cells) && Reached(cells, run).stack != []
    ensures Reached(cells, run).list[0] == Reached(cells, run).stack[0] >= NR_RESERVED_ENTRIES
  {
    ReachedInv(cells, run);
  }

  /** After any 504 grants with no end between them the list is empty. */
  lemma ListRunsOut(cells: seq<Cell>, gs: seq<Grant>)
    requires Untouched(cells) && |gs| == 504
    ensures var t := Reached(cells, GrantRuns(gs));
            t.pc.Idle? && t.list[0] == 0 && |t.grants.Keys| == 504 && t.cells[0] == cells[0]
  {
    hide Inv, Untouched, InitialList;
    GrantsDrainTheList(cells, gs);
    ListEmptyIff(cells, GrantRuns(gs));
  }

  /**
   Once the list is empty every grant publishes entry 0, so if the hypervisor pins it in between,
   it ends up holding a use that disagrees with the entry.
   */
  lemma EmptyListSharesEntryZero(s: State, g: Grant, h: Grant)
    requires WellShaped(s) && s.pc.Idle? && s.list[0] == 0 && s.cells[0].reading.None?
    requires g.Access? && h.Access? && g.domid != h.domid
    ensures var t := Run(s, GrantRun(g) + ([Hv(0, Pin(false))] + GrantRun(h)));
            t.cells[0].reading == Some(Use(g.domid, None)) && t.cells[0].entry.domid == h.domid
  {
    var pin := Hv(0, Pin(false));
    RunConcat(s, GrantRun(g), [pin] + GrantRun(h));
    GrantRunPublishes(s, g);
    var first := AfterGrant(s, g);
    assert first.cells[0].entry.flags == 1 || first.cells[0].entry.flags == 5;
    assert ([pin] + GrantRun(h))[1..] == GrantRun(h);
    GrantRunPublishes(Apply(first, pin), h);
  }

  /** After 504 grants and two more, with a use in between. */
  function Exhaustion(gs: seq<Grant>, g: Grant, h: Grant): seq<Action> {
    GrantRuns(gs) + (GrantRun(g) + ([Hv(0, Pin(false))] + GrantRun(h)))
  }

  /**
   What the missing check costs, in a run from initialisation: the 505th and the 506th grant share
   entry 0, and a use the hypervisor started between them disagrees with the entry, which no grant
   above the reserved entries suffers.
   */
  lemma ExhaustedGrantsShareEntryZero(cells: seq<Cell>, gs: seq<Grant>, g: Grant, h: Grant)
    requires Untouched(cells) && cells[0].reading.None? && |gs| == 504
    requires g.Access? && h.Access? && g.domid != h.domid
    ensures var t := Reached(cells, Exhaustion(gs, g, h));
            t.cells[0].reading == Some(Use(g.domid, None)) && t.cells[0].entry.domid == h.domid
  {
    hide Inv, Untouched, InitialList, GrantRun, Apply;
    ListRunsOut(cells, gs);
    RunConcat(Booted(cells), GrantRuns(gs), GrantRun(g) + ([Hv(0, Pin(false))] + GrantRun(h)));
    EmptyListSharesEntryZero(Reached(cells, GrantRuns(gs)), g, h);
  }
}
