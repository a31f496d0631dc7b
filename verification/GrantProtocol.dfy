/**
 The Xen grant table of one guest as a state machine.

 A state holds the guest's private free list, the table shared with the hypervisor, and the
 program counter of the grant-table routine the guest is executing.  Guest and hypervisor take
 atomic steps in any order.  `Inv` holds in every reachable state; the safety results are read
 off it.
 */
module GrantProtocol {
  import opened Words

  const NR_GRANT_ENTRIES: nat := 512
  const NR_RESERVED_ENTRIES: nat := 8

  const GTF_PERMIT_ACCESS: bv16 := 1
  const GTF_ACCEPT_TRANSFER: bv16 := 2
  const GTF_TYPE_MASK: bv16 := 3
  const GTF_READONLY: bv16 := 4
  const GTF_READING: bv16 := 8
  const GTF_WRITING: bv16 := 16
  const GTF_TRANSFER_COMMITTED: bv16 := 4
  const GTF_TRANSFER_COMPLETED: bv16 := 8

  /** One entry of the shared table. */
  datatype Entry = Entry(flags: bv16, domid: U16, frame: U32)

  /** What the hypervisor learnt about an entry when it started to use it. */
  datatype Use = Use(domid: U16, frame: Option<U32>)

  /** A shared entry, with what the hypervisor privately remembers about it. */
  datatype Cell = Cell(entry: Entry, reading: Option<Use>, writing: Option<Use>, delivered: Option<U32>)

  /** A grant as its caller asked for it. */
  datatype Grant =
    | Access(domid: U16, frame: U32, readonly: bool)
    | Transfer(domid: U16, frame: U32)

  /** What a finished routine returned. */
  datatype Outcome =
    | Nothing
    | Granted(ref: nat)
    | StillInUse
    | Ended
    | Released
    | Delivered(frame: U32)

  /** The routine being executed, at one of its accesses to shared memory or to the free list. */
  datatype Pc =
    | Idle
    | FillFrame(ref: nat, grant: Grant)
    | FillDomid(ref: nat, grant: Grant)
    | Publish(ref: nat, grant: Grant)
    | AccessRead(ref: nat)
    | AccessTest(ref: nat, flags: bv16, failures: nat)
    | AccessCas(ref: nat, flags: bv16, failures: nat)
    | TransferRead(ref: nat, failures: nat)
    | TransferCas(ref: nat, flags: bv16, failures: nat)
    | TransferPoll(ref: nat, flags: bv16)
    | TransferFrame(ref: nat)
    | PutFree(ref: nat, outcome: Outcome)

  datatype State = State(
    list: seq<nat>,
    stack: seq<nat>,
    cells: seq<Cell>,
    grants: map<nat, Grant>,
    pc: Pc,
    outcome: Outcome)

  /** The atomic steps of the hypervisor on one entry. */
  datatype HvAct =
    | Pin(write: bool)
    | Fetch(write: bool)
    | Unpin(write: bool)
    | Commit
    | StoreFrame(frame: U32)
    | Complete

  datatype Action =
    | Hv(ref: nat, act: HvAct)
    | CallGrant(grant: Grant)
    | CallEndAccess(target: nat)
    | CallEndTransfer(target: nat)
    | Tick

  // ---------------------------------------------------------------- the hypervisor

  function ModeBit(write: bool): bv16 {
    if write then GTF_WRITING else GTF_READING
  }

  function UseOf(c: Cell, write: bool): Option<Use> {
    if write then c.writing else c.reading
  }

  function WithUse(c: Cell, write: bool, u: Option<Use>): Cell {
    if write then c.(writing := u) else c.(reading := u)
  }

  function WithFlags(c: Cell, f: bv16): Cell {
    c.(entry := c.entry.(flags := f))
  }

  predicate Transferring(f: bv16) {
    && f & GTF_TYPE_MASK == GTF_ACCEPT_TRANSFER
    && f & GTF_TRANSFER_COMMITTED != 0
    && f & GTF_TRANSFER_COMPLETED == 0
  }

  /** One hypervisor step; a step whose guard fails leaves the entry alone. */
  function HvStep(c: Cell, a: HvAct): Cell {
    var f := c.entry.flags;
    match a
    case Pin(w) =>
      if f & GTF_TYPE_MASK == GTF_PERMIT_ACCESS && f & ModeBit(w) == 0 && (w ==> f & GTF_READONLY == 0)
      then WithUse(WithFlags(c, f | ModeBit(w)), w, Some(Use(c.entry.domid, None)))
      else c
    case Fetch(w) =>
      if UseOf(c, w).Some?
      then WithUse(c, w, Some(UseOf(c, w).value.(frame := Some(c.entry.frame))))
      else c
    case Unpin(w) =>
      if f & GTF_TYPE_MASK == GTF_PERMIT_ACCESS && UseOf(c, w).Some?
      then WithUse(WithFlags(c, f & !ModeBit(w)), w, None)
      else c
    case Commit =>
      if f & GTF_TYPE_MASK == GTF_ACCEPT_TRANSFER && f & GTF_TRANSFER_COMMITTED == 0 &&
         f & GTF_TRANSFER_COMPLETED == 0
      then WithFlags(c, f | GTF_TRANSFER_COMMITTED).(delivered := None)
      else c
    case StoreFrame(frame) =>
      if Transferring(f)
      then c.(entry := c.entry.(frame := frame), delivered := Some(frame))
      else c
    case Complete =>
      if Transferring(f) && c.delivered.Some? then WithFlags(c, f | GTF_TRANSFER_COMPLETED) else c
  }

  // ---------------------------------------------------------------- the guest

  function PublishedFlags(g: Grant): bv16 {
    match g
    case Access(_, _, readonly) => GTF_PERMIT_ACCESS | (if readonly then GTF_READONLY else 0)
    case Transfer(_, _) => GTF_ACCEPT_TRANSFER
  }

  function SetEntry(s: State, ref: nat, e: Entry): State
    requires ref < |s.cells|
  {
    s.(cells := s.cells[ref := s.cells[ref].(entry := e)])
  }

  /** `get_free_entry` on the array alone. */
  function ListAfterGet(list: seq<nat>): seq<nat>
    requires 0 < |list| && list[0] < |list|
  {
    list[0 := list[list[0]]]
  }

  /** `put_free_entry` on the array alone. */
  function ListAfterPut(list: seq<nat>, ref: nat): seq<nat>
    requires 0 < ref < |list|
  {
    list[ref := list[0]][0 := ref]
  }

  predicate WellShaped(s: State) {
    && |s.list| == NR_GRANT_ENTRIES
    && |s.cells| == NR_GRANT_ENTRIES
    && (forall k :: 0 <= k < |s.list| ==> s.list[k] < NR_GRANT_ENTRIES)
    && PcRef(s.pc) < NR_GRANT_ENTRIES
    && (Granting(s.pc) || 0 < PcRef(s.pc) || s.pc.Idle?)
  }

  /** A grant routine is filling its entry. */
  predicate Granting(pc: Pc) {
    pc.FillFrame? || pc.FillDomid? || pc.Publish?
  }

  function PcRef(pc: Pc): nat {
    if pc.Idle? then 0 else pc.ref
  }

  /** The routine is entered: a grant takes its entry from the free list at once. */
  function StartGrant(s: State, g: Grant): (t: State)
    requires WellShaped(s)
    ensures WellShaped(t)
  {
    s.(pc := FillFrame(s.list[0], g),
       list := ListAfterGet(s.list),
       stack := if s.stack == [] then [] else s.stack[1..])
  }

  /** The guest performs the next access of the routine it is executing. */
  function GuestTick(s: State): (t: State)
    requires WellShaped(s)
    ensures WellShaped(t)
  {
    match s.pc
    case Idle => s
    case FillFrame(ref, g) =>
      SetEntry(s, ref, s.cells[ref].entry.(frame := g.frame)).(pc := FillDomid(ref, g))
    case FillDomid(ref, g) =>
      SetEntry(s, ref, s.cells[ref].entry.(domid := g.domid)).(pc := Publish(ref, g))
    case Publish(ref, g) =>
      SetEntry(s, ref, s.cells[ref].entry.(flags := PublishedFlags(g))).(
        pc := Idle, outcome := Granted(ref),
        grants := if ref == 0 then s.grants else s.grants[ref := g])
    case AccessRead(ref) =>
      s.(pc := AccessTest(ref, s.cells[ref].entry.flags, 0))
    case AccessTest(ref, flags, n) =>
      if flags & (GTF_READING | GTF_WRITING) != 0
      then s.(pc := Idle, outcome := StillInUse)
      else s.(pc := AccessCas(ref, flags, n))
    case AccessCas(ref, flags, n) =>
      var now := s.cells[ref].entry.flags;
      if now == flags
      then SetEntry(s, ref, s.cells[ref].entry.(flags := 0)).(
        pc := PutFree(ref, Ended), grants := s.grants - {ref})
      else s.(pc := AccessTest(ref, now, n + 1))
    case TransferRead(ref, n) =>
      var now := s.cells[ref].entry.flags;
      if now & GTF_TRANSFER_COMMITTED == 0
      then s.(pc := TransferCas(ref, now, n))
      else s.(pc := TransferPoll(ref, now))
    case TransferCas(ref, flags, n) =>
      var now := s.cells[ref].entry.flags;
      if now == flags
      then SetEntry(s, ref, s.cells[ref].entry.(flags := 0)).(
        pc := PutFree(ref, Released), grants := s.grants - {ref})
      else s.(pc := TransferRead(ref, n + 1))
    case TransferPoll(ref, flags) =>
      if flags & GTF_TRANSFER_COMPLETED != 0
      then s.(pc := TransferFrame(ref))
      else s.(pc := TransferPoll(ref, s.cells[ref].entry.flags))
    case TransferFrame(ref) =>
      s.(pc := PutFree(ref, Delivered(s.cells[ref].entry.frame)), grants := s.grants - {ref})
    case PutFree(ref, outcome) =>
      s.(pc := Idle, outcome := outcome,
         list := ListAfterPut(s.list, ref), stack := [ref] + s.stack)
  }

  /**
   One atomic step.  A call is taken only while no routine runs, and only with an outstanding
   grant of the right kind; a step outside these conditions changes nothing.
   */
  function Apply(s: State, a: Action): (t: State)
    requires WellShaped(s)
    ensures WellShaped(t)
  {
    match a
    case Hv(ref, act) =>
      if ref < NR_GRANT_ENTRIES then s.(cells := s.cells[ref := HvStep(s.cells[ref], act)]) else s
    case CallGrant(g) =>
      if s.pc.Idle? then StartGrant(s, g) else s
    case CallEndAccess(ref) =>
      if s.pc.Idle? && ref in s.grants && s.grants[ref].Access? && 0 < ref < NR_GRANT_ENTRIES
      then s.(pc := AccessRead(ref))
      else s
    case CallEndTransfer(ref) =>
      if s.pc.Idle? && ref in s.grants && s.grants[ref].Transfer? && 0 < ref < NR_GRANT_ENTRIES
      then s.(pc := TransferRead(ref, 0))
      else s
    case Tick => GuestTick(s)
  }

  // ---------------------------------------------------------------- the invariant

  /** The element of the stack below position `k`, or the terminating 0. */
  function Below(stack: seq<nat>, k: nat): nat {
    if k + 1 < |stack| then stack[k + 1] else 0
  }

  /** `list` threads exactly the entries of `stack`, top first, from slot 0 to a final 0. */
  ghost predicate Threads(list: seq<nat>, stack: seq<nat>) {
    && |list| == NR_GRANT_ENTRIES
    && (forall k :: 0 <= k < |stack| ==> NR_RESERVED_ENTRIES <= stack[k] < NR_GRANT_ENTRIES)
    && (forall j, k :: 0 <= j < k < |stack| ==> stack[j] != stack[k])
    && list[0] == (if stack == [] then 0 else stack[0])
    && (forall k {:trigger list[stack[k]]} :: 0 <= k < |stack| ==> list[stack[k]] == Below(stack, k))
  }

  /** The flags of an entry no grant is attached to: never used, ended, or a completed transfer. */
  predicate Quiet(f: bv16) {
    || f == 0
    || f == GTF_ACCEPT_TRANSFER | GTF_TRANSFER_COMMITTED | GTF_TRANSFER_COMPLETED
  }

  function AccessFlags(readonly: bool, reading: bool, writing: bool): bv16 {
    GTF_PERMIT_ACCESS | (if readonly then GTF_READONLY else 0)
    | (if reading then GTF_READING else 0) | (if writing then GTF_WRITING else 0)
  }

  predicate UseMatches(u: Option<Use>, domid: U16, frame: U32) {
    u.Some? ==> u.value.domid == domid && (u.value.frame.Some? ==> u.value.frame.value == frame)
  }

  /** A shared entry agrees with the grant it carries, or with carrying none. */
  predicate CellOk(c: Cell, g: Option<Grant>) {
    match g
    case None =>
      Quiet(c.entry.flags) && c.reading.None? && c.writing.None?
    case Some(Access(domid, frame, readonly)) =>
      && c.entry == Entry(AccessFlags(readonly, c.reading.Some?, c.writing.Some?), domid, frame)
      && UseMatches(c.reading, domid, frame) && UseMatches(c.writing, domid, frame)
      && (readonly ==> c.writing.None?)
    case Some(Transfer(domid, frame)) =>
      && c.reading.None? && c.writing.None? && c.entry.domid == domid
      && (if c.entry.flags == GTF_ACCEPT_TRANSFER then
            c.entry.frame == frame
          else if c.entry.flags == GTF_ACCEPT_TRANSFER | GTF_TRANSFER_COMMITTED then
            c.delivered.Some? ==> c.entry.frame == c.delivered.value
          else
            && c.entry.flags == GTF_ACCEPT_TRANSFER | GTF_TRANSFER_COMMITTED | GTF_TRANSFER_COMPLETED
            && c.delivered == Some(c.entry.frame))
  }

  function GrantOf(s: State, r: nat): Option<Grant> {
    if r in s.grants then Some(s.grants[r]) else None
  }

  /** The entry that is neither free nor granted because a routine is working on it. */
  predicate InFlight(pc: Pc, r: nat) {
    (Granting(pc) || pc.PutFree?) && pc.ref == r
  }

  /** What each program point knows about the entry it works on. */
  predicate PcOk(s: State)
    requires WellShaped(s)
  {
    match s.pc
    case Idle => true
    case FillFrame(ref, g) => ref == 0 || NR_RESERVED_ENTRIES <= ref
    case FillDomid(ref, g) =>
      && (ref == 0 || NR_RESERVED_ENTRIES <= ref)
      && (NR_RESERVED_ENTRIES <= ref ==> s.cells[ref].entry.frame == g.frame)
    case Publish(ref, g) =>
      && (ref == 0 || NR_RESERVED_ENTRIES <= ref)
      && (NR_RESERVED_ENTRIES <= ref ==> s.cells[ref].entry.frame == g.frame && s.cells[ref].entry.domid == g.domid)
    case AccessRead(ref) => ref in s.grants && s.grants[ref].Access?
    case AccessTest(ref, flags, n) =>
      && ref in s.grants && s.grants[ref].Access?
      && (exists r, w :: flags == AccessFlags(s.grants[ref].readonly, r, w) && (n > 0 ==> r || w))
      && n <= 1
    case AccessCas(ref, flags, n) =>
      && ref in s.grants && s.grants[ref].Access?
      && flags == AccessFlags(s.grants[ref].readonly, false, false)
      && n == 0
    case TransferRead(ref, n) =>
      && ref in s.grants && s.grants[ref].Transfer?
      && n <= 1
      && (n > 0 ==> s.cells[ref].entry.flags & GTF_TRANSFER_COMMITTED != 0)
    case TransferCas(ref, flags, n) =>
      && ref in s.grants && s.grants[ref].Transfer?
      && flags == GTF_ACCEPT_TRANSFER
      && n == 0
    case TransferPoll(ref, flags) =>
      && ref in s.grants && s.grants[ref].Transfer?
      && s.cells[ref].entry.flags & GTF_TRANSFER_COMMITTED != 0
      && (flags & GTF_TRANSFER_COMPLETED != 0 ==> s.cells[ref].entry.flags & GTF_TRANSFER_COMPLETED != 0)
    case TransferFrame(ref) =>
      && ref in s.grants && s.grants[ref].Transfer?
      && s.cells[ref].entry.flags & GTF_TRANSFER_COMPLETED != 0
    case PutFree(ref, outcome) => NR_RESERVED_ENTRIES <= ref
  }

  /** Every usable entry is free, granted or being worked on, and only one of the three. */
  ghost predicate Partitioned(s: State) {
    && (forall r :: r in s.grants ==> NR_RESERVED_ENTRIES <= r < NR_GRANT_ENTRIES)
    && (forall r :: NR_RESERVED_ENTRIES <= r < NR_GRANT_ENTRIES ==>
          (r in s.stack || r in s.grants || InFlight(s.pc, r)))
    && (forall r :: r in s.stack ==> r !in s.grants)
    && (forall r :: r in s.stack || r in s.grants ==> !InFlight(s.pc, r))
  }

  ghost predicate Inv(s: State) {
    && WellShaped(s)
    && Threads(s.list, s.stack)
    && Partitioned(s)
    && PcOk(s)
    && forall r :: NR_RESERVED_ENTRIES <= r < NR_GRANT_ENTRIES ==> CellOk(s.cells[r], GrantOf(s, r))
  }
}
