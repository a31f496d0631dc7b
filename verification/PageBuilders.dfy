/**
 The builders as sequences of word stores, and the tables after any number of those stores: the
 fault handler runs one of the builders on the tables that are translating at that moment.
 */
module PageBuilders {
  import opened Words
  import opened PageWalk
  import opened PageTables

  datatype Store = Store(addr: nat, value: U64)

  /** Memory after a sequence of stores. */
  function Replay(m: Mem, log: seq<Store>): Mem {
    if log == [] then m
    else var last := log[|log| - 1]; Replay(m, log[..|log| - 1])[last.addr := last.value]
  }

  lemma ReplaySnoc(m: Mem, log: seq<Store>, s: Store)
    ensures Replay(m, log + [s]) == Replay(m, log)[s.addr := s.value]
  {
    assert (log + [s])[..|log|] == log;
  }

  // ---------------------------------------------------------------- the kernel builder

  function KernelStore(i: Info, n: nat): Store
    requires InfoOk(i) && n < KERNEL_WORDS - 1
  {
    Store(Slot(i.kernelPtBase, n), KernelWord(i, n))
  }

  function KernelStores(i: Info, n: nat): seq<Store>
    requires InfoOk(i) && n <= KERNEL_WORDS - 1
  {
    seq(n, k requires 0 <= k < n => KernelStore(i, k))
  }

  /** The first `n` kernel stores leave the first `n` words final. */
  lemma {:induction false} KernelStoresBuild(m: Mem, i: Info, n: nat)
    requires InfoOk(i) && n <= KERNEL_WORDS - 1
    ensures forall w :: 0 <= w < n ==>
              Load(Replay(m, KernelStores(i, n)), Slot(i.kernelPtBase, w)) == KernelWord(i, w)
  {
    if n > 0 {
      KernelStoresBuild(m, i, n - 1);
      assert KernelStores(i, n) == KernelStores(i, n - 1) + [KernelStore(i, n - 1)];
      ReplaySnoc(m, KernelStores(i, n - 1), KernelStore(i, n - 1));
    }
  }

  // ---------------------------------------------------------------- the user builder

  /** The word index and value of store `n`: slots 510 and, for a fault, 511 are stored twice. */
  function UserStoreWord(redef: bool, n: nat): nat {
    if n < 512 then n
    else if n == 512 then 510
    else if redef then (if n == 513 then 511 else n - 2)
    else n - 1
  }

  function UserStoreCount(redef: bool): nat {
    if redef then USER_WORDS + 2 else USER_WORDS + 1
  }

  function UserStoreValue(i: Info, redef: bool, n: nat): int {
    var w := UserStoreWord(redef, n);
    if n < 512 then UserPte(i, w)
    else if w == 510 then i.tlsBuffer + 7
    else if w == 511 then i.extraPage + 7
    else UpperWord(i, w)
  }

  function UserStore(i: Info, redef: bool, n: nat): Store
    requires InfoOk(i) && n < UserStoreCount(redef)
  {
    Store(Slot(i.userPtBase, UserStoreWord(redef, n)), UserStoreValue(i, redef, n))
  }

  /** The first `n` stores of the user builder. */
  function UserStores(i: Info, redef: bool, n: nat): (s: seq<Store>)
    requires InfoOk(i) && n <= UserStoreCount(redef)
    ensures |s| == n
  {
    seq(n, k requires 0 <= k < n => UserStore(i, redef, k))
  }

  lemma UserStoresSnoc(m: Mem, i: Info, redef: bool, n: nat)
    requires InfoOk(i) && n < UserStoreCount(redef)
    ensures UserStores(i, redef, n + 1) == UserStores(i, redef, n) + [UserStore(i, redef, n)]
    ensures Replay(m, UserStores(i, redef, n + 1)) ==
              Replay(m, UserStores(i, redef, n))[UserStore(i, redef, n).addr := UserStore(i, redef, n).value]
  {
    assert UserStores(i, redef, n + 1) == UserStores(i, redef, n) + [UserStore(i, redef, n)];
    ReplaySnoc(m, UserStores(i, redef, n), UserStore(i, redef, n));
  }

  /** Every store of the user builder lands on a word of the user tables. */
  lemma UserStoresStayInside(i: Info, redef: bool, n: nat)
    requires InfoOk(i) && n < UserStoreCount(redef)
    ensures i.userPtBase <= UserStore(i, redef, n).addr < i.userPtBase + USER_WORDS / 512 * PAGE
    ensures UserStore(i, redef, n).addr % 8 == 0
  {
    hide UserStoreValue;
    var q, w := i.userPtBase / PAGE, UserStoreWord(redef, n);
    assert w < USER_WORDS;
    assert i.userPtBase == PAGE * q;
    assert Slot(i.userPtBase, w) == 8 * (512 * q + w);
  }

  /** All 2048 words are stored. */
  lemma EveryUserWordIsStored(redef: bool, w: nat)
    requires w < USER_WORDS
    ensures exists n: nat :: n < UserStoreCount(redef) && UserStoreWord(redef, n) == w
  {
    var n := if w < 512 then w else if redef then w + 2 else w + 1;
    assert n < UserStoreCount(redef) && UserStoreWord(redef, n) == w;
  }

  /** Word `w` after `n` stores of the user builder, if it held `before`. */
  function WordAfter(i: Info, redef: bool, before: int, n: nat, w: nat): int {
    if w < 510 then (if n > w then UserPte(i, w) else before)
    else if w == 510 then (if n > 512 then i.tlsBuffer + 7 else if n > 510 then UserPte(i, w) else before)
    else if w == 511 then (if redef && n > 513 then i.extraPage + 7 else if n > 511 then 0 else before)
    else if n > w + (if redef then 2 else 1) then UpperWord(i, w)
    else before
  }

  /** One more store makes its value the word's, if it is a store to that word. */
  lemma WordAfterStore(i: Info, redef: bool, before: int, n: nat, w: nat)
    requires InfoOk(i) && n < UserStoreCount(redef) && w < USER_WORDS
    ensures WordAfter(i, redef, before, n + 1, w) ==
              if UserStoreWord(redef, n) == w then UserStoreValue(i, redef, n) else WordAfter(i, redef, before, n, w)
  {
    hide UserPte, UpperWord;
    assert UserPte(i, 511) == 0 by { LastSlotIsEmpty(i); }
  }

  lemma LastSlotIsEmpty(i: Info)
    requires InfoOk(i)
    ensures UserPte(i, 511) == 0
  {
  }

  /** Every word after any number of stores of the user builder. */
  lemma {:induction false} UserStoresBuild(m: Mem, i: Info, redef: bool, n: nat, w: nat)
    requires InfoOk(i) && n <= UserStoreCount(redef) && w < USER_WORDS
    ensures Load(Replay(m, UserStores(i, redef, n)), Slot(i.userPtBase, w)) ==
              WordAfter(i, redef, Load(m, Slot(i.userPtBase, w)), n, w)
  {
    if n > 0 {
      hide WordAfter, UserStoreValue;
      UserStoresBuild(m, i, redef, n - 1, w);
      UserStoresSnoc(m, i, redef, n - 1);
      WordAfterStore(i, redef, Load(m, Slot(i.userPtBase, w)), n - 1, w);
    } else {
      assert UserStores(i, redef, 0) == [];
    }
  }

  /** The user builder stores nothing outside the user tables. */
  lemma {:induction false} UserStoresFrame(m: Mem, i: Info, redef: bool, n: nat, a: nat)
    requires InfoOk(i) && n <= UserStoreCount(redef)
    requires a < i.userPtBase || i.userPtBase + USER_WORDS / 512 * PAGE <= a
    ensures Load(Replay(m, UserStores(i, redef, n)), a) == Load(m, a)
  {
    if n > 0 {
      UserStoresFrame(m, i, redef, n - 1, a);
      UserStoresSnoc(m, i, redef, n - 1);
      UserStoresStayInside(i, redef, n - 1);
    } else {
      assert UserStores(i, redef, 0) == [];
    }
  }

  lemma UserStoresKeepKernel(m: Mem, i: Info, redef: bool, n: nat)
    requires InfoOk(i) && n <= UserStoreCount(redef) && KernelTables(m, i)
    ensures KernelTables(Replay(m, UserStores(i, redef, n)), i)
  {
    var m' := Replay(m, UserStores(i, redef, n));
    forall w | 0 <= w < KERNEL_WORDS - 1
      ensures Load(m', Slot(i.kernelPtBase, w)) == KernelWord(i, w)
    {
      UserStoresFrame(m, i, redef, n, Slot(i.kernelPtBase, w));
    }
  }

  // ---------------------------------------------------------------- building and rebuilding

  function TlsEntry(i: Info): U64
    requires InfoOk(i)
  {
    i.tlsBuffer + 7
  }

  function ExtraEntry(i: Info, redef: bool): U64
    requires InfoOk(i)
  {
    if redef then i.extraPage + 7 else 0
  }

  /** The complete builder produces the complete tables, whatever memory held. */
  lemma UserBuilderBuilds(m: Mem, i: Info, redef: bool)
    requires InfoOk(i) && KernelTables(m, i)
    ensures var m' := Replay(m, UserStores(i, redef, UserStoreCount(redef)));
            KernelTables(m', i) && UserTables(m', i, TlsEntry(i), ExtraEntry(i, redef))
  {
    var n := UserStoreCount(redef);
    var m' := Replay(m, UserStores(i, redef, n));
    UserStoresKeepKernel(m, i, redef, n);
    forall w | 0 <= w < USER_WORDS
      ensures Load(m', Slot(i.userPtBase, w)) == UserWord(i, TlsEntry(i), ExtraEntry(i, redef), w)
    {
      UserStoresBuild(m, i, redef, n, w);
    }
  }

  /** Slots 510 and 511 of live tables after `n` stores of the fault handler. */
  function Live510(i: Info, n: nat): U64
    requires InfoOk(i)
  {
    if 510 < n <= 512 then UserPte(i, 510) else TlsEntry(i)
  }

  function Live511(i: Info, before: U64, n: nat): U64
    requires InfoOk(i)
  {
    if n <= 511 then before else if n <= 513 then 0 else ExtraEntry(i, true)
  }

  /** While the handler rewrites live tables, only slots 510 and 511 ever differ from before. */
  lemma RebuildKeepsTables(m: Mem, i: Info, before: U64, n: nat)
    requires InfoOk(i) && KernelTables(m, i) && UserTables(m, i, TlsEntry(i), before)
    requires n <= UserStoreCount(true)
    ensures var m' := Replay(m, UserStores(i, true, n));
            KernelTables(m', i) && UserTables(m', i, Live510(i, n), Live511(i, before, n))
  {
    var m' := Replay(m, UserStores(i, true, n));
    UserStoresKeepKernel(m, i, true, n);
    forall w | 0 <= w < USER_WORDS
      ensures Load(m', Slot(i.userPtBase, w)) == UserWord(i, Live510(i, n), Live511(i, before, n), w)
    {
      UserStoresBuild(m, i, true, n, w);
    }
  }
}
