/**
 What the two page-table builders of the kernel store, word by word and in order, and how the
 walk from the resulting tables translates every virtual address.
 */
module PageTables {
  import opened Words
  import opened PageWalk

  /** The fields of the boot information the builders read. */
  datatype Info = Info(
    kernelPtBase: U64,
    userPtBase: U64,
    userStackBuffer: U64,
    userAppBuffer: U64,
    tlsBuffer: U64,
    extraPage: U64,
    numUserPtes: U32,
    numUserPdes: U32,
    numUserPdpes: U32,
    numUserPml4es: U32,
    numUserStackPages: U32,
    numUserBinaryPages: U32)

  const KERNEL_PTES: nat := 0x10_0000
  const KERNEL_PDES: nat := 2048
  const KERNEL_WORDS: nat := 0x10_0000 + 2048 + 512 + 512
  const USER_WORDS: nat := 2048
  const USER_BASE: int := 0xFFFF_FFFF_C000_0000

  predicate AlignedRange(base: nat, pages: nat) {
    base % PAGE == 0 && base + pages * PAGE <= PHYS_LIMIT
  }

  predicate Disjoint(a: nat, aPages: nat, b: nat, bPages: nat) {
    a + aPages * PAGE <= b || b + bPages * PAGE <= a
  }

  /** Where the stack starts: `user_stack_buffer` is its upper end. */
  function StackStart(i: Info): int {
    i.userStackBuffer - i.numUserStackPages * PAGE
  }

  /** What the builders assume of the boot loader: aligned buffers, fewer than 512 pages, one table a level. */
  predicate InfoOk(i: Info) {
    && i.numUserPtes == i.numUserStackPages + i.numUserBinaryPages
    && 1 <= i.numUserPtes <= 511
    && i.numUserPdes == i.numUserPdpes == i.numUserPml4es == 1
    && AlignedRange(i.kernelPtBase, KERNEL_WORDS / 512)
    && AlignedRange(i.userPtBase, USER_WORDS / 512)
    && Disjoint(i.kernelPtBase, KERNEL_WORDS / 512, i.userPtBase, USER_WORDS / 512)
    && 0 <= StackStart(i) && AlignedRange(StackStart(i), i.numUserStackPages)
    && AlignedRange(i.userAppBuffer, i.numUserBinaryPages)
    && AlignedRange(i.tlsBuffer, 1)
    && AlignedRange(i.extraPage, 1)
  }

  // ---------------------------------------------------------------- the kernel tables

  function KPde(i: Info): nat { Slot(i.kernelPtBase, KERNEL_PTES) }

  function KPdpe(i: Info): nat { Slot(KPde(i), KERNEL_PDES) }

  function KPml4(i: Info): nat { Slot(KPdpe(i), 512) }

  /** Word `w` of the kernel tables: page table, directories, directory pointers, top level. */
  function KernelWord(i: Info, w: nat): int {
    if w < KERNEL_PTES then PAGE * w + 3
    else if w < KERNEL_PTES + KERNEL_PDES then i.kernelPtBase + PAGE * (w - KERNEL_PTES) + 3
    else if w < KERNEL_PTES + KERNEL_PDES + 4 then KPde(i) + PAGE * (w - KERNEL_PTES - KERNEL_PDES) + 3
    else if w == KERNEL_PTES + KERNEL_PDES + 512 then KPdpe(i) + 3
    else 0
  }

  /** The kernel tables are in place; the last word of the top level is never written. */
  ghost predicate KernelTables(m: Mem, i: Info) {
    forall w :: 0 <= w < KERNEL_WORDS - 1 ==> Load(m, Slot(i.kernelPtBase, w)) == KernelWord(i, w)
  }

  // ---------------------------------------------------------------- the user tables

  function UPde(i: Info): nat { Slot(i.userPtBase, 512) }

  function UPdpe(i: Info): nat { Slot(i.userPtBase, 1024) }

  function UPml4(i: Info): nat { Slot(i.userPtBase, 1536) }

  /** The page-table entry the two copying loops give slot `w`. */
  function UserPte(i: Info, w: nat): int {
    if w < i.numUserStackPages then PAGE * w + StackStart(i) + 7
    else if w < i.numUserPtes then PAGE * (w - i.numUserStackPages) + i.userAppBuffer + 7
    else 0
  }

  /** Word `w` of the user tables above the page table. */
  function UpperWord(i: Info, w: nat): int {
    if w == 512 then i.userPtBase + 7
    else if w == 1535 then UPde(i) + 7
    else if w == 1536 then KPdpe(i) + 3
    else if w == 2047 then UPdpe(i) + 7
    else 0
  }

  /** Word `w` of finished user tables, with the given entries in slots 510 and 511. */
  function UserWord(i: Info, slot510: int, slot511: int, w: nat): int {
    if w == 510 then slot510
    else if w == 511 then slot511
    else if w < 510 then UserPte(i, w)
    else UpperWord(i, w)
  }

  ghost predicate UserTables(m: Mem, i: Info, slot510: int, slot511: int) {
    forall w :: 0 <= w < USER_WORDS ==> Load(m, Slot(i.userPtBase, w)) == UserWord(i, slot510, slot511, w)
  }

  // ---------------------------------------------------------------- the translation

  /** The page of the stack or the program that belongs in user slot `s`. */
  function UserPage(i: Info, s: nat): (a: nat)
    requires InfoOk(i) && s < i.numUserPtes
    ensures a % PAGE == 0 && a + PAGE <= PHYS_LIMIT
  {
    if s < i.numUserStackPages then StackStart(i) + PAGE * s
    else i.userAppBuffer + PAGE * (s - i.numUserStackPages)
  }

  /** What the entry of user slot `s` gives for the address `va`. */
  function UserTranslation(i: Info, slot510: U64, slot511: U64, va: U64): Translation
    requires InfoOk(i)
  {
    var s := (va - USER_BASE) / PAGE;
    if va < USER_BASE || 512 <= s then Fault
    else if s == 510 then FromPte(slot510, va, true, true)
    else if s == 511 then FromPte(slot511, va, true, true)
    else if s < i.numUserPtes then Page(UserPage(i, s) + va % PAGE, true, true)
    else Fault
  }

  /** The whole address space: 4 GB of identity for the kernel, 512 slots at the top for the user. */
  function Expected(i: Info, slot510: U64, slot511: U64, va: U64): Translation
    requires InfoOk(i)
  {
    if va < TWO_32 then Page(va, true, false) else UserTranslation(i, slot510, slot511, va)
  }

  lemma KernelIndices(va: U64)
    requires va < TWO_32
    ensures Canonical(va) && Pml4Index(va) == 0 && PdptIndex(va) < 4
    ensures PdptIndex(va) * 0x4_0000 + PdIndex(va) * 512 + PtIndex(va) == va / PAGE
  {
    var p := va / 0x1000;
    assert va / 0x20_0000 == p / 512;
    assert va / 0x4000_0000 == p / 512 / 512;
    assert va / 0x80_0000_0000 == 0;
  }

  /** An entry the kernel builds leads on to the next table, keeping user mode if its flags say so. */
  lemma Descend(m: Mem, level: nat, a: nat, flags: nat, va: U64, u: bool)
    requires 2 <= level <= 4 && a % PAGE == 0 && a < PHYS_LIMIT && (flags == 3 || flags == 7)
    ensures a + flags < TWO_64
    ensures FromEntry(m, level, a + flags, va, true, u)
              == FromEntry(m, level - 1, Load(m, Slot(a, Index(va, level - 1))), va, true, u && flags == 7)
  {
    EntryParts(a, flags);
  }

  /** Below 4 GB every address is mapped to itself, writable, and only for the supervisor. */
  lemma WalkLow(m: Mem, i: Info, va: U64)
    requires InfoOk(i) && KernelTables(m, i) && va < TWO_32
    requires Load(m, Slot(UPml4(i), 0)) == KPdpe(i) + 3
    ensures Walk(m, UPml4(i), va) == Page(va, true, false)
  {
    hide FromEntry;
    KernelIndices(va);
    var i3, i2, i1 := PdptIndex(va), PdIndex(va), PtIndex(va);
    Descend(m, 4, KPdpe(i), 3, va, true);
    var w3 := KERNEL_PTES + KERNEL_PDES + i3;
    assert Slot(KPdpe(i), i3) == Slot(i.kernelPtBase, w3);
    Descend(m, 3, KPde(i) + PAGE * i3, 3, va, false);
    var w2 := KERNEL_PTES + 512 * i3 + i2;
    assert Slot(KPde(i) + PAGE * i3, i2) == Slot(i.kernelPtBase, w2);
    Descend(m, 2, i.kernelPtBase + PAGE * (512 * i3 + i2), 3, va, false);
    var w1 := 512 * (512 * i3 + i2) + i1;
    assert Slot(i.kernelPtBase + PAGE * (512 * i3 + i2), i1) == Slot(i.kernelPtBase, w1);
    LastEntry(m, PAGE * w1, 3, va, false);
  }

  lemma LastEntry(m: Mem, a: nat, flags: nat, va: U64, u: bool)
    requires a % PAGE == 0 && a < PHYS_LIMIT && (flags == 3 || flags == 7)
    ensures a + flags < TWO_64
    ensures FromEntry(m, 1, a + flags, va, true, u) == Page(a + va % PAGE, true, u && flags == 7)
  {
    EntryParts(a, flags);
  }

  lemma LastLevel(m: Mem, e: U64, va: U64, w: bool, u: bool)
    ensures FromEntry(m, 1, e, va, w, u) == FromPte(e, va, w, u)
  {
  }

  /** An empty slot at any level is a fault. */
  lemma EmptySlot(m: Mem, level: nat, va: U64, w: bool, u: bool)
    requires 1 <= level <= 4
    ensures FromEntry(m, level, 0, va, w, u) == Fault
  {
  }

  lemma UserIndices(va: U64)
    requires USER_BASE <= va
    ensures Canonical(va) && Pml4Index(va) == 511 && PdptIndex(va) == 511
    ensures PdIndex(va) * 512 + PtIndex(va) == (va - USER_BASE) / PAGE
  {
    var d := va - USER_BASE;
    var p := d / 0x1000;
    assert va / 0x80_0000_0000 == 0x1FF_FFFF;
    assert va / 0x4000_0000 == 0x3_FFFF_FFFF;
    assert va / 0x20_0000 == 0x7FF_FFFF_FE00 + d / 0x20_0000;
    assert va / 0x1000 == 0xF_FFFF_FFFC_0000 + p;
    assert d / 0x20_0000 == p / 512;
  }

  /** Outside the low 4 GB and the top 1 GB some table on the way has an empty slot. */
  lemma OtherIndices(va: U64)
    requires TWO_32 <= va < USER_BASE && Canonical(va)
    ensures || (Pml4Index(va) == 0 && 4 <= PdptIndex(va))
            || (Pml4Index(va) == 511 && PdptIndex(va) < 511)
            || 0 < Pml4Index(va) < 511
  {
    if va < 0x80_0000_0000 {
      assert va / 0x80_0000_0000 == 0;
      assert va / 0x4000_0000 < 512;
    } else if 0xFFFF_FF80_0000_0000 <= va {
      assert va / 0x80_0000_0000 == 0x1FF_FFFF;
      assert va / 0x4000_0000 == 0x3_FFFF_FE00 + (va - 0xFFFF_FF80_0000_0000) / 0x4000_0000;
    } else if va < 0x8000_0000_0000 {
      assert 0 < va / 0x80_0000_0000 < 256;
    } else {
      assert 0x1FF_FF00 <= va / 0x80_0000_0000 < 0x1FF_FFFF;
    }
  }

  lemma WalkOther(m: Mem, i: Info, slot510: int, slot511: int, va: U64)
    requires InfoOk(i) && KernelTables(m, i) && UserTables(m, i, slot510, slot511)
    requires TWO_32 <= va < USER_BASE
    ensures Walk(m, UPml4(i), va) == Fault
  {
    hide FromEntry;
    if Canonical(va) {
      OtherIndices(va);
      var i4, i3 := Pml4Index(va), PdptIndex(va);
      EmptySlot(m, 4, va, true, true);
      EmptySlot(m, 3, va, true, i4 == 511);
      assert Slot(UPml4(i), i4) == Slot(i.userPtBase, 1536 + i4);
      if i4 == 0 {
        Descend(m, 4, KPdpe(i), 3, va, true);
        assert Slot(KPdpe(i), i3) == Slot(i.kernelPtBase, KERNEL_PTES + KERNEL_PDES + i3);
      } else if i4 == 511 {
        Descend(m, 4, UPdpe(i), 7, va, true);
        assert Slot(UPdpe(i), i3) == Slot(i.userPtBase, 1024 + i3);
      }
    }
  }

  /** In the top 1 GB the walk ends at the page-table slot, if the directory slot is the first one. */
  lemma WalkTop(m: Mem, i: Info, slot510: U64, slot511: U64, va: U64)
    requires InfoOk(i) && UserTables(m, i, slot510, slot511) && USER_BASE <= va
    ensures Walk(m, UPml4(i), va) ==
              if PdIndex(va) != 0 then Fault
              else FromPte(Load(m, Slot(i.userPtBase, PtIndex(va))), va, true, true)
  {
    hide FromEntry, FromPte;
    UserIndices(va);
    assert Slot(UPml4(i), 511) == Slot(i.userPtBase, 2047);
    Descend(m, 4, UPdpe(i), 7, va, true);
    assert Slot(UPdpe(i), 511) == Slot(i.userPtBase, 1535);
    Descend(m, 3, UPde(i), 7, va, true);
    assert Slot(UPde(i), PdIndex(va)) == Slot(i.userPtBase, 512 + PdIndex(va));
    Descend(m, 2, i.userPtBase, 7, va, true);
    EmptySlot(m, 2, va, true, true);
    LastLevel(m, Load(m, Slot(i.userPtBase, PtIndex(va))), va, true, true);
  }

  lemma UserPteTranslates(i: Info, slot510: U64, slot511: U64, va: U64)
    requires InfoOk(i) && USER_BASE <= va && PdIndex(va) == 0
    ensures UserWord(i, slot510, slot511, PtIndex(va)) < TWO_64
    ensures 0 <= UserWord(i, slot510, slot511, PtIndex(va))
    ensures FromPte(UserWord(i, slot510, slot511, PtIndex(va)), va, true, true)
              == UserTranslation(i, slot510, slot511, va)
  {
    UserIndices(va);
    var w := PtIndex(va);
    if w < 510 && w < i.numUserPtes {
      EntryParts(UserPage(i, w), 7);
    }
  }

  /**
   The walk of every 64-bit address, from any memory holding the two tables: identity below 4 GB,
   the user's slots at the top, and a fault everywhere else.
   */
  lemma WalkCharacterised(m: Mem, i: Info, slot510: U64, slot511: U64, va: U64)
    requires InfoOk(i) && KernelTables(m, i) && UserTables(m, i, slot510, slot511)
    ensures Walk(m, UPml4(i), va) == Expected(i, slot510, slot511, va)
  {
    if va < TWO_32 {
      assert Slot(UPml4(i), 0) == Slot(i.userPtBase, 1536);
      WalkLow(m, i, va);
    } else if va < USER_BASE {
      WalkOther(m, i, slot510, slot511, va);
    } else {
      WalkTop(m, i, slot510, slot511, va);
      UserIndices(va);
      if PdIndex(va) == 0 {
        UserPteTranslates(i, slot510, slot511, va);
      }
    }
  }
}
