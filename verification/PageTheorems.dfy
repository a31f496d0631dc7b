/** What the builders and the page-fault handler do to the translation of every address. */
module PageTheorems {
  import opened Words
  import opened PageWalk
  import opened PageTables
  import opened PageBuilders
  import opened BootCounts

  /** The page that user slot 511 maps. */
  const EXTRA_PAGE_ADDRESS: int := 0xFFFF_FFFF_C01F_F000

  predicate InExtraPage(va: U64) {
    EXTRA_PAGE_ADDRESS <= va < EXTRA_PAGE_ADDRESS + PAGE
  }

  /** The page of the thread-local storage, user slot 510. */
  predicate InTlsPage(va: U64) {
    EXTRA_PAGE_ADDRESS - PAGE <= va < EXTRA_PAGE_ADDRESS
  }

  function AfterKernel(m: Mem, i: Info): Mem
    requires InfoOk(i)
  {
    Replay(m, KernelStores(i, KERNEL_WORDS - 1))
  }

  function AfterUser(m: Mem, i: Info, redef: bool): Mem
    requires InfoOk(i)
  {
    Replay(m, UserStores(i, redef, UserStoreCount(redef)))
  }

  lemma KernelBuilderBuilds(m: Mem, i: Info)
    requires InfoOk(i)
    ensures KernelTables(AfterKernel(m, i), i)
  {
    KernelStoresBuild(m, i, KERNEL_WORDS - 1);
  }

  /** From any initial memory, the translation the kernel boots with, for every address. */
  lemma BootTranslation(m: Mem, i: Info, va: U64)
    requires InfoOk(i)
    ensures Walk(AfterUser(AfterKernel(m, i), i, false), UPml4(i), va) == Expected(i, TlsEntry(i), 0, va)
  {
    KernelBuilderBuilds(m, i);
    UserBuilderBuilds(AfterKernel(m, i), i, false);
    WalkCharacterised(AfterUser(AfterKernel(m, i), i, false), i, TlsEntry(i), 0, va);
  }

  lemma SlotPages(i: Info, slot510: U64, slot511: U64, va: U64)
    requires InfoOk(i)
    ensures InExtraPage(va) ==> Expected(i, slot510, slot511, va) == FromPte(slot511, va, true, true)
    ensures InTlsPage(va) ==> Expected(i, slot510, slot511, va) == FromPte(slot510, va, true, true)
    ensures !InExtraPage(va) && !InTlsPage(va) ==> Expected(i, slot510, slot511, va) == Expected(i, 0, 0, va)
  {
  }

  /** What the entries passing through slots 510 and 511 translate to. */
  lemma LastSlots(i: Info, va: U64)
    requires InfoOk(i)
    ensures FromPte(0, va, true, true) == Fault
    ensures FromPte(TlsEntry(i), va, true, true) == Page(i.tlsBuffer + va % PAGE, true, true)
    ensures FromPte(i.extraPage + 7, va, true, true) == Page(i.extraPage + va % PAGE, true, true)
    ensures 0 <= UserPte(i, 510) < TWO_64
    ensures FromPte(UserPte(i, 510), va, true, true) ==
              if i.numUserPtes <= 510 then Fault else Page(UserPage(i, 510) + va % PAGE, true, true)
  {
    EntryParts(i.tlsBuffer, 7);
    EntryParts(i.extraPage, 7);
    if i.numUserPtes == 511 {
      EntryParts(UserPage(i, 510), 7);
    }
  }

  /**
   While the fault handler rewrites the live tables, after every single store, every address
   outside the last two slots translates exactly as before.  The TLS page is out of place after
   stores 511 and 512, and on a repeated fault the extra page is missing after stores 512 and 513.
   */
  lemma LiveTranslation(m: Mem, i: Info, before: U64, n: nat, va: U64)
    requires InfoOk(i) && KernelTables(m, i) && UserTables(m, i, TlsEntry(i), before)
    requires n <= UserStoreCount(true)
    ensures var now := Walk(Replay(m, UserStores(i, true, n)), UPml4(i), va);
            && (!InExtraPage(va) && !InTlsPage(va) ==> now == Walk(m, UPml4(i), va))
            && (InTlsPage(va) ==> Walk(m, UPml4(i), va) == Page(i.tlsBuffer + va % PAGE, true, true))
            && (InTlsPage(va) ==>
                  now == if !(510 < n <= 512) then Page(i.tlsBuffer + va % PAGE, true, true)
                         else if i.numUserPtes <= 510 then Fault
                         else Page(UserPage(i, 510) + va % PAGE, true, true))
            && (InExtraPage(va) ==>
                  now == if n <= 511 then Walk(m, UPml4(i), va)
                         else if n <= 513 then Fault
                         else Page(i.extraPage + va % PAGE, true, true))
  {
    hide KernelTables, UserTables, Walk, Expected, FromPte, UserPte;
    RebuildKeepsTables(m, i, before, n);
    WalkCharacterised(m, i, TlsEntry(i), before, va);
    WalkCharacterised(Replay(m, UserStores(i, true, n)), i, Live510(i, n), Live511(i, before, n), va);
    SlotPages(i, TlsEntry(i), before, va);
    SlotPages(i, Live510(i, n), Live511(i, before, n), va);
    LastSlots(i, va);
  }

  /** The whole address space by its addresses, before and after the first page fault. */
  function AddressSpace(i: Info, faulted: bool, va: U64): Translation
    requires InfoOk(i)
  {
    var stack := 0x1000 * i.numUserStackPages;
    var d := va - 0xFFFF_FFFF_C000_0000;
    if va < 0x1_0000_0000 then Page(va, true, false)
    else if d < 0 then Fault
    else if 0x1F_E000 <= d < 0x1F_F000 then Page(i.tlsBuffer + (d - 0x1F_E000), true, true)
    else if 0x1F_F000 <= d < 0x20_0000 then
      if faulted then Page(i.extraPage + (d - 0x1F_F000), true, true) else Fault
    else if d < stack then Page(i.userStackBuffer - stack + d, true, true)
    else if d < 0x1000 * i.numUserPtes then Page(i.userAppBuffer + (d - stack), true, true)
    else Fault
  }

  lemma ExpectedIsAddressSpace(i: Info, faulted: bool, va: U64)
    requires InfoOk(i)
    ensures Expected(i, TlsEntry(i), ExtraEntry(i, faulted), va) == AddressSpace(i, faulted, va)
  {
    hide FromPte;
    LastSlots(i, va);
    if USER_BASE <= va {
      SlotAddress(va);
    }
  }

  /** Slot and offset of a user address, by its distance from the base. */
  lemma SlotAddress(va: U64)
    requires USER_BASE <= va
    ensures var d := va - USER_BASE;
            && va % PAGE == d % PAGE && d == PAGE * (d / PAGE) + d % PAGE
            && (InTlsPage(va) <==> d / PAGE == 510) && (InExtraPage(va) <==> d / PAGE == 511)
  {
  }

  /** From any initial memory, the address space the kernel boots with. */
  lemma BootAddressSpace(m: Mem, i: Info, va: U64)
    requires InfoOk(i)
    ensures Walk(AfterUser(AfterKernel(m, i), i, false), UPml4(i), va) == AddressSpace(i, false, va)
  {
    BootTranslation(m, i, va);
    ExpectedIsAddressSpace(i, false, va);
  }

  /** The address space that any number of faults leaves. */
  lemma LiveAddressSpace(m: Mem, i: Info, faulted: bool, va: U64)
    requires InfoOk(i) && KernelTables(m, i) && UserTables(m, i, TlsEntry(i), ExtraEntry(i, faulted))
    ensures Walk(m, UPml4(i), va) == AddressSpace(i, faulted, va)
  {
    WalkCharacterised(m, i, TlsEntry(i), ExtraEntry(i, faulted), va);
    ExpectedIsAddressSpace(i, faulted, va);
  }

  /** Throughout the rewriting the low 4 GB stay identity, writable and supervisor-only. */
  lemma KernelStaysMapped(m: Mem, i: Info, before: U64, n: nat, va: U64)
    requires InfoOk(i) && KernelTables(m, i) && UserTables(m, i, TlsEntry(i), before)
    requires n <= UserStoreCount(true) && va < TWO_32
    ensures Walk(Replay(m, UserStores(i, true, n)), UPml4(i), va) == Page(va, true, false)
  {
    LiveTranslation(m, i, before, n, va);
    WalkCharacterised(m, i, TlsEntry(i), before, va);
  }

  /**
   The handler's own stores go through the tables it is rewriting: at the moment of each, its
   address translates to itself, for the supervisor, or faults if it is not below 4 GB.
   */
  lemma HandlerStoreTranslates(m: Mem, i: Info, before: U64, n: nat)
    requires InfoOk(i) && KernelTables(m, i) && UserTables(m, i, TlsEntry(i), before)
    requires n < UserStoreCount(true)
    ensures var a := UserStore(i, true, n).addr;
            && a < TWO_64
            && Walk(Replay(m, UserStores(i, true, n)), UPml4(i), a)
                 == if a < TWO_32 then Page(a, true, false) else Fault
  {
    hide KernelTables, UserTables, Walk;
    var a := UserStore(i, true, n).addr;
    UserStoresStayInside(i, true, n);
    LiveTranslation(m, i, before, n, a);
    WalkCharacterised(m, i, TlsEntry(i), before, a);
  }

  /** What an address translates to after the first `n` stores of the handler. */
  function During(m: Mem, i: Info, n: nat, va: U64): Translation
    requires InfoOk(i) && n <= UserStoreCount(true)
  {
    Walk(Replay(m, UserStores(i, true, n)), UPml4(i), va)
  }

  /** The number of stores before the handler loads the kernel's top-level entry. */
  const STORES_BEFORE_LOAD: nat := UserStoreCount(true) - 512

  lemma HandlerStoresIff(m: Mem, i: Info, before: U64)
    requires InfoOk(i) && KernelTables(m, i) && UserTables(m, i, TlsEntry(i), before)
    ensures (forall n: nat :: n < UserStoreCount(true) ==> During(m, i, n, UserStore(i, true, n).addr) != Fault)
            <==> i.userPtBase + USER_WORDS / 512 * PAGE <= TWO_32
  {
    hide KernelTables, UserTables, Walk;
    forall n: nat | n < UserStoreCount(true)
      ensures var a := UserStore(i, true, n).addr;
              && a < TWO_64 && a < i.userPtBase + USER_WORDS / 512 * PAGE
              && (During(m, i, n, a) != Fault <==> a < TWO_32)
    {
      UserStoresStayInside(i, true, n);
      HandlerStoreTranslates(m, i, before, n);
    }
    var last := UserStoreCount(true) - 1;
    assert UserStore(i, true, last).addr == Slot(i.userPtBase, 2047);
  }

  /**
   The handler can carry out its accesses to the tables (all its stores, and the load of the
   kernel's top-level entry on the way) if and only if the user tables and that entry are below 4 GB.
   */
  lemma HandlerCompletesIff(m: Mem, i: Info, before: U64)
    requires InfoOk(i) && KernelTables(m, i) && UserTables(m, i, TlsEntry(i), before)
    ensures (forall n: nat :: n < UserStoreCount(true) ==> During(m, i, n, UserStore(i, true, n).addr) != Fault)
            && During(m, i, STORES_BEFORE_LOAD, KPml4(i)) != Fault
            <==> i.userPtBase + USER_WORDS / 512 * PAGE <= TWO_32 && KPml4(i) < TWO_32
  {
    hide KernelTables, UserTables, Walk;
    HandlerStoresIff(m, i, before);
    LiveTranslation(m, i, before, STORES_BEFORE_LOAD, KPml4(i));
    WalkCharacterised(m, i, TlsEntry(i), before, KPml4(i));
  }

  /** Every store of a sequence, and the load of the kernel's entry on the way, translates at its moment. */
  ghost predicate GoesThrough(m: Mem, i: Info, stores: seq<Store>)
    requires |stores| == UserStoreCount(true)
    requires KPml4(i) < TWO_64
  {
    && (forall n: nat :: n < |stores| ==>
          stores[n].addr < TWO_64 && Walk(Replay(m, stores[..n]), UPml4(i), stores[n].addr) != Fault)
    && Walk(Replay(m, stores[..STORES_BEFORE_LOAD]), UPml4(i), KPml4(i)) != Fault
  }

  lemma HandlerGoesThroughIff(m: Mem, i: Info, before: U64)
    requires InfoOk(i) && KernelTables(m, i) && UserTables(m, i, TlsEntry(i), before)
    ensures GoesThrough(m, i, UserStores(i, true, UserStoreCount(true)))
            <==> i.userPtBase + USER_WORDS / 512 * PAGE <= TWO_32 && KPml4(i) < TWO_32
  {
    hide KernelTables, UserTables, Walk, UserStore;
    var stores := UserStores(i, true, UserStoreCount(true));
    forall n: nat | n <= |stores|
      ensures stores[..n] == UserStores(i, true, n)
      ensures n < |stores| ==> stores[n] == UserStore(i, true, n) && stores[n].addr < TWO_64
    {
      if n < |stores| {
        UserStoresStayInside(i, true, n);
      }
    }
    HandlerCompletesIff(m, i, before);
    if GoesThrough(m, i, stores) {
      forall n: nat | n < UserStoreCount(true) ensures During(m, i, n, UserStore(i, true, n).addr) != Fault {
        assert Walk(Replay(m, stores[..n]), UPml4(i), stores[n].addr) != Fault;
      }
    } else {
      assert stores[..STORES_BEFORE_LOAD] == UserStores(i, true, STORES_BEFORE_LOAD);
    }
  }

  /** What the handler's stores do to every address: once all are done, and after each of them. */
  lemma HandlerEffect(m: Mem, i: Info, faulted: bool)
    requires InfoOk(i) && KernelTables(m, i) && UserTables(m, i, TlsEntry(i), ExtraEntry(i, faulted))
    ensures forall va: U64 ::
              && Walk(AfterUser(m, i, true), UPml4(i), va) == AddressSpace(i, true, va)
              && Walk(AfterUser(m, i, true), UPml4(i), va) ==
                   if InExtraPage(va) then Page(i.extraPage + va % PAGE, true, true) else Walk(m, UPml4(i), va)
    ensures var stores := UserStores(i, true, UserStoreCount(true));
            forall n: nat, va: U64 :: n <= |stores| ==>
              && (!InExtraPage(va) && !InTlsPage(va) ==>
                    Walk(Replay(m, stores[..n]), UPml4(i), va) == Walk(m, UPml4(i), va))
              && (!(510 < n <= 512) && InTlsPage(va) ==>
                    Walk(Replay(m, stores[..n]), UPml4(i), va) == Page(i.tlsBuffer + va % PAGE, true, true))
  {
    hide Walk, KernelTables, UserTables, AddressSpace, InTlsPage, InExtraPage, Replay;
    UserBuilderBuilds(m, i, true);
    forall va: U64
      ensures Walk(AfterUser(m, i, true), UPml4(i), va) == AddressSpace(i, true, va)
      ensures Walk(AfterUser(m, i, true), UPml4(i), va) ==
                if InExtraPage(va) then Page(i.extraPage + va % PAGE, true, true) else Walk(m, UPml4(i), va)
    {
      LiveTranslation(m, i, ExtraEntry(i, faulted), UserStoreCount(true), va);
      LiveAddressSpace(AfterUser(m, i, true), i, true, va);
    }
    var stores := UserStores(i, true, UserStoreCount(true));
    forall n: nat, va: U64 | n <= |stores|
      ensures !InExtraPage(va) && !InTlsPage(va) ==>
                Walk(Replay(m, stores[..n]), UPml4(i), va) == Walk(m, UPml4(i), va)
      ensures !(510 < n <= 512) && InTlsPage(va) ==>
                Walk(Replay(m, stores[..n]), UPml4(i), va) == Page(i.tlsBuffer + va % PAGE, true, true)
    {
      assert stores[..n] == UserStores(i, true, n);
      LiveTranslation(m, i, ExtraEntry(i, faulted), n, va);
    }
  }

  /** A first fault changes the translation of the extra page, from a fault, and of nothing else. */
  lemma FirstFaultMapsOnePage(m: Mem, i: Info, va: U64)
    requires InfoOk(i) && KernelTables(m, i) && UserTables(m, i, TlsEntry(i), 0)
    ensures Walk(AfterUser(m, i, true), UPml4(i), va) != Walk(m, UPml4(i), va) <==> InExtraPage(va)
    ensures InExtraPage(va) ==> Walk(m, UPml4(i), va) == Fault
    ensures InExtraPage(va) ==>
              Walk(AfterUser(m, i, true), UPml4(i), va) == Page(i.extraPage + va % PAGE, true, true)
  {
    LiveTranslation(m, i, 0, UserStoreCount(true), va);
    WalkCharacterised(m, i, TlsEntry(i), 0, va);
    SlotPages(i, TlsEntry(i), 0, va);
  }

  /** An access of the given kind goes through; supervisor writes obey read-only pages too. */
  predicate Allowed(t: Translation, write: bool, user: bool) {
    t.Page? && (write ==> t.writable) && (user ==> t.user)
  }

  /**
   The handler ignores the faulting address: an access that faulted, for want of a page or of the
   right to it, goes through afterwards if and only if it was to the extra page.
   */
  lemma HandlerCuresFaultIff(m: Mem, i: Info, faulted: bool, va: U64, write: bool, user: bool)
    requires InfoOk(i) && KernelTables(m, i) && UserTables(m, i, TlsEntry(i), ExtraEntry(i, faulted))
    requires !Allowed(Walk(m, UPml4(i), va), write, user)
    ensures Allowed(Walk(AfterUser(m, i, true), UPml4(i), va), write, user) <==> InExtraPage(va)
  {
    hide KernelTables, UserTables, Walk, InfoOk;
    LiveTranslation(m, i, ExtraEntry(i, faulted), UserStoreCount(true), va);
  }

  /** A second fault changes no word of the tables and so no translation. */
  lemma SecondFaultChangesNothing(m: Mem, i: Info, w: nat, va: U64)
    requires InfoOk(i) && KernelTables(m, i) && UserTables(m, i, TlsEntry(i), ExtraEntry(i, true))
    requires w < USER_WORDS
    ensures var m' := AfterUser(m, i, true);
            && KernelTables(m', i)
            && Load(m', Slot(i.userPtBase, w)) == Load(m, Slot(i.userPtBase, w))
            && Walk(m', UPml4(i), va) == Walk(m, UPml4(i), va)
  {
    UserBuilderBuilds(m, i, true);
    WalkCharacterised(m, i, TlsEntry(i), ExtraEntry(i, true), va);
    WalkCharacterised(AfterUser(m, i, true), i, TlsEntry(i), ExtraEntry(i, true), va);
  }

  /** An address of the stack or the program, by the number of pages the loader asked for. */
  predicate InUserPages(i: Info, va: U64) {
    USER_BASE <= va < USER_BASE + i.numUserPtes * PAGE
  }

  /** Where the loader put the contents of a user address. */
  function Loaded(i: Info, va: U64): nat
    requires InfoOk(i) && InUserPages(i, va)
  {
    UserPage(i, (va - USER_BASE) / PAGE) + va % PAGE
  }

  /**
   The builder takes fewer than 512 pages to be few enough, but slot 510 is for the TLS page: every
   stack and program page is mapped to its contents if and only if there are at most 510.
   */
  lemma UserPagesMappedIff(m: Mem, i: Info, before: U64)
    requires InfoOk(i) && KernelTables(m, i) && UserTables(m, i, TlsEntry(i), before)
    requires i.numUserPtes == 511 ==> i.tlsBuffer != UserPage(i, 510)
    ensures (forall va: U64 :: InUserPages(i, va) ==> Walk(m, UPml4(i), va) == Page(Loaded(i, va), true, true))
            <==> i.numUserPtes <= 510
  {
    if i.numUserPtes <= 510 {
      forall va: U64 | InUserPages(i, va) ensures Walk(m, UPml4(i), va) == Page(Loaded(i, va), true, true) {
        WalkCharacterised(m, i, TlsEntry(i), before, va);
      }
    } else {
      var va: U64 := USER_BASE + 510 * PAGE;
      WalkCharacterised(m, i, TlsEntry(i), before, va);
      EntryParts(i.tlsBuffer, 7);
      assert InUserPages(i, va) && Walk(m, UPml4(i), va) != Page(Loaded(i, va), true, true);
    }
  }

  /** The address the kernel starts the program at, and the initial stack pointer. */
  const ENTRY_ADDRESS: U64 := 0xFFFF_FFFF_C000_1000

  /**
   The hard-coded address is the first byte of the program if and only if the stack has one page;
   the byte below it is then the last one of the stack.
   */
  lemma EntryAddressIff(m: Mem, i: Info, before: U64)
    requires InfoOk(i) && KernelTables(m, i) && UserTables(m, i, TlsEntry(i), before)
    requires 1 <= i.numUserBinaryPages && 2 <= i.numUserPtes
    requires Disjoint(StackStart(i), i.numUserStackPages, i.userAppBuffer, i.numUserBinaryPages)
    ensures Walk(m, UPml4(i), ENTRY_ADDRESS) == Page(i.userAppBuffer, true, true) <==> i.numUserStackPages == 1
    ensures i.numUserStackPages == 1 ==>
              Walk(m, UPml4(i), ENTRY_ADDRESS - 1) == Page(i.userStackBuffer - 1, true, true)
  {
    hide KernelTables, UserTables, Walk;
    WalkCharacterised(m, i, TlsEntry(i), before, ENTRY_ADDRESS);
    WalkCharacterised(m, i, TlsEntry(i), before, ENTRY_ADDRESS - 1);
  }

  predicate ApartFromTables(i: Info, base: int, pages: nat) {
    && (base + pages * PAGE <= i.kernelPtBase || i.kernelPtBase + KERNEL_WORDS * 8 <= base)
    && (base + pages * PAGE <= i.userPtBase || i.userPtBase + USER_WORDS * 8 <= base)
  }

  predicate OutsideTables(i: Info, a: int) {
    && !(i.kernelPtBase <= a < i.kernelPtBase + KERNEL_WORDS * 8)
    && !(i.userPtBase <= a < i.userPtBase + USER_WORDS * 8)
  }

  /** The buffers the user may touch overlap neither set of tables. */
  predicate UserBuffersApart(i: Info) {
    && ApartFromTables(i, StackStart(i), i.numUserStackPages)
    && ApartFromTables(i, i.userAppBuffer, i.numUserBinaryPages)
    && ApartFromTables(i, i.tlsBuffer, 1)
    && ApartFromTables(i, i.extraPage, 1)
  }

  lemma UserPageIsApart(i: Info, s: nat, off: nat)
    requires InfoOk(i) && UserBuffersApart(i) && s < i.numUserPtes && off < PAGE
    ensures OutsideTables(i, UserPage(i, s) + off)
  {
    if s < i.numUserStackPages {
      assert PAGE * s + off < i.numUserStackPages * PAGE;
    } else {
      assert 0 <= PAGE * (s - i.numUserStackPages) + off < i.numUserBinaryPages * PAGE;
    }
  }

  lemma EntryApart(i: Info, base: nat, va: U64)
    requires AlignedRange(base, 1) && ApartFromTables(i, base, 1)
    ensures FromPte(base + 7, va, true, true) == Page(base + va % PAGE, true, true)
    ensures OutsideTables(i, base + va % PAGE)
  {
    EntryParts(base, 7);
  }

  lemma UserPageApart(i: Info, slot510: U64, slot511: U64, va: U64)
    requires InfoOk(i) && UserBuffersApart(i)
    requires slot510 == UserPte(i, 510) || slot510 == TlsEntry(i)
    requires slot511 == 0 || slot511 == ExtraEntry(i, true)
    requires Expected(i, slot510, slot511, va).Page? && Expected(i, slot510, slot511, va).user
    ensures OutsideTables(i, Expected(i, slot510, slot511, va).phys)
  {
    hide OutsideTables, FromPte;
    EntryApart(i, i.tlsBuffer, va);
    EntryApart(i, i.extraPage, va);
    LastSlots(i, va);
    if USER_BASE <= va && (va - USER_BASE) / PAGE < i.numUserPtes {
      UserPageIsApart(i, (va - USER_BASE) / PAGE, va % PAGE);
    }
  }

  /** At no moment can user mode reach a word of either set of tables. */
  lemma TablesAreNotUserReachable(m: Mem, i: Info, redone: bool, n: nat, va: U64)
    requires InfoOk(i) && UserBuffersApart(i) && KernelTables(m, i)
    requires UserTables(m, i, TlsEntry(i), ExtraEntry(i, redone)) && n <= UserStoreCount(true)
    ensures var now := Walk(Replay(m, UserStores(i, true, n)), UPml4(i), va);
            now.Page? && now.user ==> OutsideTables(i, now.phys)
  {
    hide KernelTables, UserTables, Walk, Expected, OutsideTables, ApartFromTables, UserBuffersApart;
    RebuildKeepsTables(m, i, ExtraEntry(i, redone), n);
    var s10, s11 := Live510(i, n), Live511(i, ExtraEntry(i, redone), n);
    WalkCharacterised(Replay(m, UserStores(i, true, n)), i, s10, s11, va);
    if Expected(i, s10, s11, va).Page? && Expected(i, s10, s11, va).user {
      UserPageApart(i, s10, s11, va);
    }
  }

  /**
   The directory as the builder leaves it when the loader counts `pdes` tables: entry j leads j pages
   behind the page table.
   */
  ghost predicate DirectoryFilled(m: Mem, i: Info, pdes: nat) {
    && (forall j: nat :: j < 512 ==> Load(m, Slot(UPde(i), j)) == if j < pdes then i.userPtBase + PAGE * j + 7 else 0)
    && Load(m, Slot(UPdpe(i), 511)) == UPde(i) + 7
    && Load(m, Slot(UPml4(i), 511)) == UPdpe(i) + 7
  }

  lemma BuilderFillsDirectory(m: Mem, i: Info, slot510: int, slot511: int)
    requires InfoOk(i) && UserTables(m, i, slot510, slot511)
    ensures DirectoryFilled(m, i, i.numUserPdes)
  {
    assert Slot(UPdpe(i), 511) == Slot(i.userPtBase, 1535);
    assert Slot(UPml4(i), 511) == Slot(i.userPtBase, 2047);
    forall j: nat | j < 512
      ensures Load(m, Slot(UPde(i), j)) == if j < i.numUserPdes then i.userPtBase + PAGE * j + 7 else 0
    {
      assert Slot(UPde(i), j) == Slot(i.userPtBase, 512 + j);
    }
  }

  const SECOND_TABLE_ADDRESS: int := USER_BASE + 0x20_0000

  /**
   The limit of one page table is exact.  The builder has one page for page tables, so from 512 user
   pages on, when the loader counts a second table, the directory takes the place of it: its own
   first entry then maps the page table itself, writable, as the user page 2 MB up.
   */
  lemma PageTableIsUserPageIff(m: Mem, i: Info, ptes: nat, pdes: nat, off: nat)
    requires AlignedRange(i.userPtBase, USER_WORDS / 512) && off < PAGE
    requires Cover(pdes, ptes) && pdes < 512 && DirectoryFilled(m, i, pdes)
    ensures Walk(m, UPml4(i), SECOND_TABLE_ADDRESS + off)
              == if ptes < 512 then Fault else Page(i.userPtBase + off, true, true)
  {
    hide FromEntry, Walk;
    var va := SECOND_TABLE_ADDRESS + off;
    SecondTableWalk(m, i, off);
    EmptySlot(m, 2, va, true, true);
    if 1 < pdes {
      Descend(m, 2, i.userPtBase + PAGE, 7, va, true);
      LastEntry(m, i.userPtBase, 7, va, true);
    }
  }

  lemma SecondTableWalk(m: Mem, i: Info, off: nat)
    requires AlignedRange(i.userPtBase, USER_WORDS / 512) && off < PAGE
    requires Load(m, Slot(UPdpe(i), 511)) == UPde(i) + 7 && Load(m, Slot(UPml4(i), 511)) == UPdpe(i) + 7
    ensures var va := SECOND_TABLE_ADDRESS + off;
            && Index(va, 1) == 0 && va % PAGE == off
            && Walk(m, UPml4(i), va) == FromEntry(m, 2, Load(m, Slot(UPde(i), 1)), va, true, true)
  {
    hide FromEntry;
    var va: U64 := SECOND_TABLE_ADDRESS + off;
    UserIndices(va);
    assert (va - USER_BASE) / PAGE == 512;
    Descend(m, 4, UPdpe(i), 7, va, true);
    Descend(m, 3, UPde(i), 7, va, true);
  }
}
