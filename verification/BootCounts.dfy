/** The page counts the boot loader allocates, against what the page-table builders store into. */
module BootCounts {
  import opened Words
  import opened PageTables

  /** `EFI_SIZE_TO_PAGES`: round-up division by the page size. */
  function SizeToPages(bytes: nat): nat {
    (bytes + 4095) / 4096
  }

  lemma PagesHoldBytes(bytes: nat)
    ensures 4096 * SizeToPages(bytes) - 4096 < bytes <= 4096 * SizeToPages(bytes)
  {
  }

  /** The fields of the boot information this step fills in. */
  class BootInfo {
    var numUserPtes: U32
    var numUserPdes: U32
    var numUserPdpes: U32
    var numUserPml4es: U32

    /**
     `CalculateNumPagesUserPageTable`.  Its own counts have 64 bits and the fields 32, so the counts
     it stores are the ones it computed if and only if there are fewer than 2^32 pages.
     */
    method CalculateNumPagesUserPageTable(binaryPages: U64, stackPages: U64) returns (numPages: U64)
      modifies this
      ensures numUserPtes == Wrap32(binaryPages + stackPages)
      ensures numUserPtes == binaryPages + stackPages <==> binaryPages + stackPages < TWO_32
      ensures binaryPages + stackPages < TWO_32 ==>
                && Cover(numUserPdes, numUserPtes) && Cover(numUserPdpes, numUserPdes)
                && Cover(numUserPml4es, numUserPdpes)
                && numPages == UserTablePages(numUserPtes, numUserPdes, numUserPdpes, numUserPml4es)
    {
      hide Cover, Wrap32, Wrap64, SizeToPages;
      WrapTwice(binaryPages + stackPages);
      var ptes := Wrap64(binaryPages + stackPages);
      NextLevel(ptes);
      NextLevel(ptes / 512 + 1);
      NextLevel((ptes / 512 + 1) / 512 + 1);
      var pdes := ptes / 512 + 1;
      var pdpes := pdes / 512 + 1;
      var pml4es := pdpes / 512 + 1;
      numUserPtes, numUserPdes := Wrap32(ptes), Wrap32(pdes);
      numUserPdpes, numUserPml4es := Wrap32(pdpes), Wrap32(pml4es);
      numPages := Wrap64(SizeToPages(Wrap64(8 * ptes)) + SizeToPages(Wrap64(8 * pdes)) +
                         SizeToPages(Wrap64(8 * pdpes)) + SizeToPages(Wrap64(8 * pml4es)));
      if ptes < TWO_32 {
        PagesFit(ptes, pdes, pdpes, pml4es);
      }
    }
  }

  lemma WrapTwice(x: nat)
    requires x < 2 * TWO_64
    ensures Wrap32(Wrap64(x)) == Wrap32(x)
    ensures Wrap32(x) == x <==> x < TWO_32
    ensures x < TWO_32 ==> Wrap64(x) == x
  {
    if TWO_64 <= x {
      assert x == Wrap64(x) + TWO_32 * TWO_32;
    }
  }

  lemma NextLevel(entries: nat)
    requires entries < TWO_64
    ensures Cover(entries / 512 + 1, entries) && entries / 512 + 1 < TWO_64
    ensures entries < TWO_32 ==> entries / 512 + 1 < TWO_32 && Wrap32(entries / 512 + 1) == entries / 512 + 1
  {
  }

  lemma PagesFit(ptes: nat, pdes: nat, pdpes: nat, pml4es: nat)
    requires ptes < TWO_32 && pdes < TWO_32 && pdpes < TWO_32 && pml4es < TWO_32
    ensures Wrap64(8 * ptes) == 8 * ptes && Wrap64(8 * pdes) == 8 * pdes
    ensures Wrap64(8 * pdpes) == 8 * pdpes && Wrap64(8 * pml4es) == 8 * pml4es
    ensures Wrap64(UserTablePages(ptes, pdes, pdpes, pml4es)) == UserTablePages(ptes, pdes, pdpes, pml4es)
  {
  }

  /** A table level of `tables` tables has room for `entries` entries, and no table to spare but one. */
  predicate Cover(tables: nat, entries: nat) {
    0 < tables && 512 * (tables - 1) <= entries < 512 * tables
  }

  function UserTablePages(ptes: nat, pdes: nat, pdpes: nat, pml4es: nat): nat {
    SizeToPages(8 * ptes) + SizeToPages(8 * pdes) + SizeToPages(8 * pdpes) + SizeToPages(8 * pml4es)
  }

  /**
   For every program that fits one page table the loader's counts are the ones the user builder is
   written for, and its allocation is exactly the 2048 words the builder stores, if and only if
   there is at least one page to map; the constant for the kernel tables is exact too.
   */
  lemma AllocationMatchesBuilders(ptes: nat, pdes: nat, pdpes: nat, pml4es: nat)
    requires ptes < 512
    requires Cover(pdes, ptes) && Cover(pdpes, pdes) && Cover(pml4es, pdpes)
    ensures pdes == pdpes == pml4es == 1
    ensures UserTablePages(ptes, pdes, pdpes, pml4es) * 512 == USER_WORDS <==> 1 <= ptes
    ensures SizeToPages(0x80_0000 + 0x4000 + 0x2000) * 512 == KERNEL_WORDS
  {
    assert pdes == 1;
    assert pdpes == 1;
    assert pml4es == 1;
  }
}
