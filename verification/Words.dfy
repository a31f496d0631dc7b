/** Machine widths and the C character types shared by the modules. */
module Words {

  const TWO_8: int := 0x100
  const TWO_16: int := 0x1_0000
  const TWO_32: int := 0x1_0000_0000
  const TWO_64: int := 0x1_0000_0000_0000_0000

  type U16 = x: int | 0 <= x < TWO_16
  type U32 = x: int | 0 <= x < TWO_32
  type U64 = x: int | 0 <= x < TWO_64

  /** An eight-bit C character. */
  type CChar = c: char | c as int < TWO_8

  /** The characters of a C string before its terminating NUL; it fits in the address space. */
  type CString = s: seq<CChar> | '\0' !in s && |s| < 0x8000_0000_0000_0000

  datatype Option<+T> = None | Some(value: T)

  /** What is left of a number in an unsigned 32-bit or 64-bit variable. */
  function Wrap32(x: int): U32 { x % TWO_32 }

  function Wrap64(x: int): U64 { x % TWO_64 }

  lemma MulMono(a: nat, b: nat, c: nat)
    requires a <= b
    ensures a * c <= b * c
  {
  }

  function Min(a: int, b: int): int {
    if a < b then a else b
  }

  function Max(a: int, b: int): int {
    if a < b then b else a
  }
}
