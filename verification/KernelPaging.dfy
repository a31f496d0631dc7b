/**
 The builders and the page-fault handler as the kernel runs them: word stores into physical
 memory, in loops, with the C code's unsigned arithmetic.  Every store is logged.
 */
module KernelPaging {
  import opened Words
  import opened PageWalk
  import opened PageTables
  import opened PageBuilders
  import opened PageTheorems

  lemma KernelStoresSnoc(m: Mem, i: Info, n: nat)
    requires InfoOk(i) && n < KERNEL_WORDS - 1
    ensures KernelStores(i, n + 1) == KernelStores(i, n) + [KernelStore(i, n)]
    ensures Replay(m, KernelStores(i, n + 1)) ==
              Replay(m, KernelStores(i, n))[KernelStore(i, n).addr := KernelStore(i, n).value]
  {
    assert KernelStores(i, n + 1) == KernelStores(i, n) + [KernelStore(i, n)];
    ReplaySnoc(m, KernelStores(i, n), KernelStore(i, n));
  }

  class Machine {
    const info: Info
    var mem: Mem
    var cr3: nat
    ghost var log: seq<Store>

    /** The machine as the boot loader hands it over. */
    constructor (info: Info, mem: Mem)
      ensures this.info == info && this.mem == mem && log == []
    {
      this.info, this.mem, this.log := info, mem, [];
    }

    /** The stores since (`start`, `before`) are the first `n` of the kernel builder. */
    ghost predicate KernelStored(start: Mem, before: seq<Store>, n: nat)
      requires InfoOk(info) && n <= KERNEL_WORDS - 1
      reads this
    {
      mem == Replay(start, KernelStores(info, n)) && log == before + KernelStores(info, n)
    }

    ghost predicate UserStored(start: Mem, before: seq<Store>, redef: bool, n: nat)
      requires InfoOk(info) && n <= UserStoreCount(redef)
      reads this
    {
      mem == Replay(start, UserStores(info, redef, n)) && log == before + UserStores(info, redef, n)
    }

    method Write(a: nat, v: U64)
      modifies `mem, `log
      ensures mem == old(mem)[a := v] && log == old(log) + [Store(a, v)]
    {
      mem := mem[a := v];
      log := log + [Store(a, v)];
    }

    method WriteKernel(ghost start: Mem, ghost before: seq<Store>, ghost n: nat, a: nat, v: U64)
      requires InfoOk(info) && n < KERNEL_WORDS - 1 && KernelStored(start, before, n)
      requires a == Slot(info.kernelPtBase, n) && v == KernelWord(info, n)
      modifies `mem, `log
      ensures KernelStored(start, before, n + 1)
    {
      Write(a, v);
      KernelStoresSnoc(start, info, n);
    }

    method WriteUser(ghost start: Mem, ghost before: seq<Store>, ghost redef: bool, ghost n: nat, a: nat, v: U64)
      requires InfoOk(info) && n < UserStoreCount(redef) && UserStored(start, before, redef, n)
      requires a == Slot(info.userPtBase, UserStoreWord(redef, n)) && v == UserStoreValue(info, redef, n)
      modifies `mem, `log
      ensures UserStored(start, before, redef, n + 1)
    {
      Write(a, v);
      UserStoresSnoc(start, info, redef, n);
    }

    /** Nothing stored yet. */
    lemma NothingStored(redef: bool)
      requires InfoOk(info)
      ensures KernelStored(mem, log, 0) && UserStored(mem, log, redef, 0)
    {
      assert KernelStores(info, 0) == [] && UserStores(info, redef, 0) == [];
    }

    // The loops of `page_table_init_kernel`, one table at a time.

    method FillKernelPtes(ghost start: Mem, ghost before: seq<Store>, pte: nat, num: nat)
      requires InfoOk(info) && KernelStored(start, before, 0)
      requires pte == info.kernelPtBase && num == KERNEL_PTES
      modifies `mem, `log
      ensures KernelStored(start, before, KERNEL_PTES)
    {
      hide KernelStored;
      for i := 0 to num
        invariant KernelStored(start, before, i)
      {
        WriteKernel(start, before, i, pte + 8 * i, Wrap32(Wrap32(0x1000 * i) + 0x3));
      }
    }

    method FillKernelPdes(ghost start: Mem, ghost before: seq<Store>, pte: nat, pde: nat, num: nat)
      requires InfoOk(info) && KernelStored(start, before, KERNEL_PTES)
      requires pte == info.kernelPtBase && pde == KPde(info) && num == KERNEL_PDES
      modifies `mem, `log
      ensures KernelStored(start, before, KERNEL_PTES + KERNEL_PDES)
    {
      hide KernelStored;
      for j := 0 to num
        invariant KernelStored(start, before, KERNEL_PTES + j)
      {
        WriteKernel(start, before, KERNEL_PTES + j, pde + 8 * j, Wrap64(pte + 8 * (512 * j) + 0x3));
      }
    }

    method FillKernelPdpes(ghost start: Mem, ghost before: seq<Store>, pde: nat, pdpe: nat, num: nat)
      requires InfoOk(info) && KernelStored(start, before, KERNEL_PTES + KERNEL_PDES)
      requires pde == KPde(info) && pdpe == KPdpe(info) && num == 4
      modifies `mem, `log
      ensures KernelStored(start, before, KERNEL_PTES + KERNEL_PDES + 512)
    {
      hide KernelStored;
      for k := 0 to num
        invariant KernelStored(start, before, KERNEL_PTES + KERNEL_PDES + k)
      {
        WriteKernel(start, before, KERNEL_PTES + KERNEL_PDES + k, pdpe + 8 * k, Wrap64(pde + 8 * (512 * k) + 0x3));
      }
      for k := num to 512
        invariant KernelStored(start, before, KERNEL_PTES + KERNEL_PDES + k)
      {
        WriteKernel(start, before, KERNEL_PTES + KERNEL_PDES + k, pdpe + 8 * k, 0);
      }
    }

    /** The last loop stops one short: word 511 of the top level stays as it was. */
    method FillKernelPml4(ghost start: Mem, ghost before: seq<Store>, pdpe: nat, pml4: nat, num: nat)
      requires InfoOk(info) && KernelStored(start, before, KERNEL_PTES + KERNEL_PDES + 512)
      requires pdpe == KPdpe(info) && pml4 == KPml4(info) && num == 1
      modifies `mem, `log
      ensures KernelStored(start, before, KERNEL_WORDS - 1)
    {
      hide KernelStored;
      for m := 0 to num
        invariant KernelStored(start, before, KERNEL_PTES + KERNEL_PDES + 512 + m)
      {
        WriteKernel(start, before, KERNEL_PTES + KERNEL_PDES + 512 + m, pml4 + 8 * m,
          Wrap64(pdpe + 8 * (512 * m) + 0x3));
      }
      for m := num to 511
        invariant KernelStored(start, before, KERNEL_PTES + KERNEL_PDES + 512 + m)
      {
        WriteKernel(start, before, KERNEL_PTES + KERNEL_PDES + 512 + m, pml4 + 8 * m, 0);
      }
    }

    /** `page_table_init_kernel`. */
    method PageTableInitKernel() returns (pml4: nat)
      requires InfoOk(info)
      modifies `mem, `log
      ensures KernelStored(old(mem), old(log), KERNEL_WORDS - 1)
      ensures pml4 == KPml4(info)
    {
      NothingStored(false);
      hide KernelStored;
      ghost var start, before := mem, log;
      var pte := info.kernelPtBase;
      var numPte := 1048576;
      var numPde := numPte / 512;
      var numPdpe := numPde / 512;
      var numPml4 := numPdpe / 4;
      FillKernelPtes(start, before, pte, numPte);
      var pde := pte + 8 * numPte;
      FillKernelPdes(start, before, pte, pde, numPde);
      var pdpe := pde + 8 * numPde;
      FillKernelPdpes(start, before, pde, pdpe, numPdpe);
      pml4 := pdpe + 8 * 512;
      FillKernelPml4(start, before, pdpe, pml4, numPml4);
    }

    // None of the 32-bit and 64-bit sums of the page-table loops wraps.

    lemma StackPteExact(i: nat)
      requires InfoOk(info) && i < info.numUserStackPages
      ensures Wrap64(Wrap32(0x1000 * i) + Wrap64(info.userStackBuffer - Wrap32(info.numUserStackPages * 0x1000)) + 0x7)
                == UserPte(info, i)
    {
    }

    lemma BinaryPteExact(i: nat)
      requires InfoOk(info) && info.numUserStackPages <= i < info.numUserPtes
      ensures Wrap64(Wrap32(0x1000 * (i - info.numUserStackPages)) + info.userAppBuffer + 0x7) == UserPte(info, i)
    {
    }

    // The parts of `page_table_init_user`, one table at a time.

    method FillUserPtes(ghost start: Mem, ghost before: seq<Store>, redef: bool, pte: nat)
      requires InfoOk(info) && UserStored(start, before, redef, 0) && pte == info.userPtBase
      modifies `mem, `log
      ensures UserStored(start, before, redef, 512)
    {
      hide UserStored, Wrap32, Wrap64;
      for i := 0 to info.numUserStackPages
        invariant UserStored(start, before, redef, i)
      {
        StackPteExact(i);
        WriteUser(start, before, redef, i, pte + 8 * i,
          Wrap64(Wrap32(0x1000 * i) + Wrap64(info.userStackBuffer - Wrap32(info.numUserStackPages * 0x1000)) + 0x7));
      }
      for i := info.numUserStackPages to info.numUserPtes
        invariant UserStored(start, before, redef, i)
      {
        BinaryPteExact(i);
        var temp := i - info.numUserStackPages;
        WriteUser(start, before, redef, i, pte + 8 * i, Wrap64(Wrap32(0x1000 * temp) + info.userAppBuffer + 0x7));
      }
      for i := info.numUserPtes to 512
        invariant UserStored(start, before, redef, i)
      {
        WriteUser(start, before, redef, i, pte + 8 * i, 0);
      }
    }

    method FillSpecialPtes(ghost start: Mem, ghost before: seq<Store>, redef: bool, pte: nat)
      requires InfoOk(info) && UserStored(start, before, redef, 512) && pte == info.userPtBase
      modifies `mem, `log
      ensures UserStored(start, before, redef, UserStoreCount(redef) - 1536)
    {
      hide UserStored;
      WriteUser(start, before, redef, 512, pte + 8 * 510, Wrap64(info.tlsBuffer + 0x7));
      if redef {
        WriteUser(start, before, redef, 513, pte + 8 * 511, Wrap64(info.extraPage + 0x7));
      }
    }

    method FillUserPdes(ghost start: Mem, ghost before: seq<Store>, redef: bool, pte: nat, pde: nat)
      requires InfoOk(info) && UserStored(start, before, redef, UserStoreCount(redef) - 1536)
      requires pte == info.userPtBase && pde == UPde(info)
      modifies `mem, `log
      ensures UserStored(start, before, redef, UserStoreCount(redef) - 1024)
    {
      hide UserStored;
      ghost var n := UserStoreCount(redef) - 1536;
      for j := 0 to info.numUserPdes
        invariant UserStored(start, before, redef, n + j)
      {
        WriteUser(start, before, redef, n + j, pde + 8 * j, Wrap64(pte + 8 * (512 * j) + 0x7));
      }
      for j := info.numUserPdes to 512
        invariant UserStored(start, before, redef, n + j)
      {
        WriteUser(start, before, redef, n + j, pde + 8 * j, 0);
      }
    }

    method FillUserPdpes(ghost start: Mem, ghost before: seq<Store>, redef: bool, pde: nat, pdpe: nat)
      requires InfoOk(info) && UserStored(start, before, redef, UserStoreCount(redef) - 1024)
      requires pde == UPde(info) && pdpe == UPdpe(info)
      modifies `mem, `log
      ensures UserStored(start, before, redef, UserStoreCount(redef) - 512)
    {
      hide UserStored;
      ghost var n := UserStoreCount(redef) - 1024;
      for k := 0 to 512 - info.numUserPdpes
        invariant UserStored(start, before, redef, n + k)
      {
        WriteUser(start, before, redef, n + k, pdpe + 8 * k, 0);
      }
      WriteUser(start, before, redef, n + 511, pdpe + 8 * 511, Wrap64(pde + 0x7));
    }

    method FillUserPml4(ghost start: Mem, ghost before: seq<Store>, redef: bool, pdpe: nat, pml4: nat, kernelEntry: U64)
      requires InfoOk(info) && UserStored(start, before, redef, UserStoreCount(redef) - 512)
      requires pdpe == UPdpe(info) && pml4 == UPml4(info) && kernelEntry == KPdpe(info) + 3
      modifies `mem, `log
      ensures UserStored(start, before, redef, UserStoreCount(redef))
    {
      hide UserStored;
      ghost var n := UserStoreCount(redef) - 512;
      WriteUser(start, before, redef, n, pml4, kernelEntry);
      for m := 1 to 512 - info.numUserPml4es
        invariant UserStored(start, before, redef, n + m)
      {
        WriteUser(start, before, redef, n + m, pml4 + 8 * m, 0);
      }
      WriteUser(start, before, redef, n + 511, pml4 + 8 * 511, Wrap64(pdpe + 0x7));
    }

    /** `page_table_init_user`; `redef` is set when the fault handler calls it. */
    method PageTableInitUser(kPml4: nat, redef: bool) returns (pml4: nat)
      requires InfoOk(info) && KernelTables(mem, info) && kPml4 == KPml4(info)
      modifies `mem, `log
      ensures UserStored(old(mem), old(log), redef, UserStoreCount(redef))
      ensures pml4 == UPml4(info)
    {
      NothingStored(redef);
      ghost var start, before := mem, log;
      var pte := info.userPtBase;
      FillUserPtes(start, before, redef, pte);
      FillSpecialPtes(start, before, redef, pte);
      var pde := pte + 8 * 512;
      FillUserPdes(start, before, redef, pte, pde);
      var pdpe := pde + 8 * 512;
      FillUserPdpes(start, before, redef, pde, pdpe);
      pml4 := pdpe + 8 * 512;
      KernelEntryIntact(start, redef, UserStoreCount(redef) - 512);
      var kernelEntry := Load(mem, kPml4);
      FillUserPml4(start, before, redef, pdpe, pml4, kernelEntry);
    }

    /** The builder's own stores do not touch the kernel entry it copies. */
    lemma KernelEntryIntact(start: Mem, redef: bool, n: nat)
      requires InfoOk(info) && KernelTables(start, info) && n <= UserStoreCount(redef)
      ensures Load(Replay(start, UserStores(info, redef, n)), KPml4(info)) == KPdpe(info) + 3
    {
      UserStoresKeepKernel(start, info, redef, n);
      assert KPml4(info) == Slot(info.kernelPtBase, KERNEL_PTES + KERNEL_PDES + 512);
    }

    /** CR3 holds user tables, with the extra page present or not, over intact kernel tables. */
    ghost predicate Live(faulted: bool)
      reads this
    {
      && InfoOk(info) && cr3 == UPml4(info) && KernelTables(mem, info)
      && UserTables(mem, info, TlsEntry(info), ExtraEntry(info, faulted))
    }

    /** The paging part of `kernel_start`. */
    method KernelStart()
      requires InfoOk(info)
      modifies this
      ensures Live(false)
      ensures forall va: U64 :: Walk(mem, cr3, va) == AddressSpace(info, false, va)
      ensures forall va: U64 :: InTlsPage(va) ==> Walk(mem, cr3, va) == Page(info.tlsBuffer + va % PAGE, true, true)
    {
      ghost var m := mem;
      var k := PageTableInitKernel();
      KernelBuilderBuilds(m, info);
      UserBuilderBuilds(mem, info, false);
      var u := PageTableInitUser(k, false);
      cr3 := u;
      forall va: U64
        ensures Walk(mem, cr3, va) == AddressSpace(info, false, va)
        ensures InTlsPage(va) ==> Walk(mem, cr3, va) == Page(info.tlsBuffer + va % PAGE, true, true)
      {
        BootAddressSpace(m, info, va);
        LiveTranslation(mem, info, 0, 0, va);
      }
    }

    /**
     `page_fault_handler`.  `log` past its old length is the sequence of stores, so the last two
     clauses speak of memory after each of them.  The clauses give the effect of the accesses; the one
     with `GoesThrough` says when they go through.
     */
    method PageFaultHandler(ghost faulted: bool)
      requires Live(faulted)
      modifies this
      ensures Live(true) && cr3 == old(cr3) && old(log) <= log
      ensures forall va: U64 :: Walk(mem, cr3, va) == AddressSpace(info, true, va)
      ensures forall va: U64 :: Walk(mem, cr3, va) ==
                if InExtraPage(va) then Page(info.extraPage + va % PAGE, true, true) else old(Walk(mem, cr3, va))
      ensures |log| == |old(log)| + UserStoreCount(true)
      ensures GoesThrough(old(mem), info, log[|old(log)|..])
              <==> info.userPtBase + USER_WORDS / 512 * PAGE <= TWO_32 && KPml4(info) < TWO_32
      ensures forall n: nat, va: U64 :: n <= |log| - |old(log)| && !InExtraPage(va) && !InTlsPage(va) ==>
                Walk(Replay(old(mem), log[|old(log)|..][..n]), cr3, va) == old(Walk(mem, cr3, va))
      ensures forall n: nat, va: U64 :: n <= |log| - |old(log)| && !(510 < n <= 512) && InTlsPage(va) ==>
                Walk(Replay(old(mem), log[|old(log)|..][..n]), cr3, va) == Page(info.tlsBuffer + va % PAGE, true, true)
    {
      hide Walk, KernelTables, UserTables, UserStores, AddressSpace, InTlsPage, InExtraPage, GoesThrough, Replay;
      ghost var m, before := mem, log;
      UserBuilderBuilds(m, info, true);
      var u := PageTableInitUser(KPml4(info), true);
      cr3 := u;
      assert log[|before|..] == UserStores(info, true, UserStoreCount(true));
      assert |log| == |before| + UserStoreCount(true);
      HandlerEffect(m, info, faulted);
      HandlerGoesThroughIff(m, info, ExtraEntry(info, faulted));
    }
  }
}
