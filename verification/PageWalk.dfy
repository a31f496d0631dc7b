/**
 Address translation by 4-level paging (Intel SDM, Vol. 3A, sections 4.5 and 4.6), as a function
 of physical memory, CR3 and a 64-bit virtual address.
 */
module PageWalk {
  import opened Words

  /** Physical memory as 64-bit words at their byte addresses. */
  type Mem = map<nat, U64>

  function Load(m: Mem, a: nat): U64 {
    if a in m then m[a] else 0
  }

  /** The address of word `w` of a table. */
  function Slot(base: nat, w: nat): nat {
    base + 8 * w
  }

  const PAGE: int := 0x1000
  const PHYS_LIMIT: int := 0x10_0000_0000_0000

  predicate Present(e: U64) { e % 2 == 1 }

  predicate Writable(e: U64) { e / 2 % 2 == 1 }

  predicate UserMode(e: U64) { e / 4 % 2 == 1 }

  /** The page-size bit. */
  predicate Large(e: U64) { e / 128 % 2 == 1 }

  /** Bits 51:12, the address of the next table or of a 4 KB page. */
  function Frame(e: U64): nat {
    e / PAGE % 0x100_0000_0000 * PAGE
  }

  datatype Translation =
    | Fault
    | Page(phys: nat, writable: bool, user: bool)

  predicate Canonical(va: U64) {
    va < 0x8000_0000_0000 || 0xFFFF_8000_0000_0000 <= va
  }

  function Pml4Index(va: U64): nat { va / 0x80_0000_0000 % 512 }

  function PdptIndex(va: U64): nat { va / 0x4000_0000 % 512 }

  function PdIndex(va: U64): nat { va / 0x20_0000 % 512 }

  function PtIndex(va: U64): nat { va / 0x1000 % 512 }

  /** The index a table of the given level is looked up with; level 4 is the top. */
  function Index(va: U64, level: nat): nat {
    match level
    case 4 => Pml4Index(va)
    case 3 => PdptIndex(va)
    case 2 => PdIndex(va)
    case _ => PtIndex(va)
  }

  /** The bytes a large page of the given level covers. */
  function Span(level: nat): nat {
    if level == 3 then 0x4000_0000 else 0x20_0000
  }

  function FromPte(e: U64, va: U64, w: bool, u: bool): Translation {
    if !Present(e) then Fault
    else Page(Frame(e) + va % PAGE, w && Writable(e), u && UserMode(e))
  }

  /**
   The translation an entry of a table of the given level leads to, when the entries above it allow
   writing and user mode as `w` and `u` say.  The page-size bit is reserved in the top level.
   */
  function FromEntry(m: Mem, level: nat, e: U64, va: U64, w: bool, u: bool): Translation
    requires 1 <= level <= 4
    decreases level
  {
    if level == 1 then FromPte(e, va, w, u)
    else if !Present(e) || (level == 4 && Large(e)) then Fault
    else if Large(e) then
      Page(Frame(e) / Span(level) * Span(level) + va % Span(level), w && Writable(e), u && UserMode(e))
    else
      FromEntry(m, level - 1, Load(m, Slot(Frame(e), Index(va, level - 1))), va, w && Writable(e), u && UserMode(e))
  }

  function Walk(m: Mem, cr3: nat, va: U64): Translation {
    if Canonical(va) then FromEntry(m, 4, Load(m, Slot(cr3, Index(va, 4))), va, true, true) else Fault
  }

  /** A table entry for an aligned address, with the flags the kernel uses, decodes to its parts. */
  lemma EntryParts(a: nat, flags: nat)
    requires a % PAGE == 0 && a < PHYS_LIMIT && (flags == 3 || flags == 7)
    ensures var e := a + flags;
            && e < TWO_64 && Present(e) && Writable(e) && (UserMode(e) <==> flags == 7) && !Large(e)
            && Frame(e) == a
  {
    var q := a / PAGE;
    assert a == PAGE * q;
    assert (a + flags) / PAGE == q;
    assert q % 0x100_0000_0000 == q;
    assert (a + flags) / 128 == 32 * q;
  }
}
