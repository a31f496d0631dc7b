/** Digit strings: writing a number down in a base, and reading it back. */
module Numerals {
  import opened Words

  predicate Base(b: nat) { b == 8 || b == 10 || b == 16 }

  function Digit(d: nat, lower: bool): CChar
    requires d < 16
  {
    if d < 10 then (d + '0' as int) as char
    else if lower then (d - 10 + 'a' as int) as char
    else (d - 10 + 'A' as int) as char
  }

  function DigitValue(c: char): nat {
    if '0' <= c <= '9' then c as int - '0' as int
    else if 'a' <= c <= 'f' then c as int - 'a' as int + 10
    else if 'A' <= c <= 'F' then c as int - 'A' as int + 10
    else 0
  }

  /** The number a digit string denotes, most significant digit first. */
  function Value(s: seq<CChar>, b: nat): nat {
    if s == [] then 0 else Value(s[..|s| - 1], b) * b + DigitValue(s[|s| - 1])
  }

  lemma ValueSnoc(s: seq<CChar>, c: CChar, b: nat)
    ensures Value(s + [c], b) == Value(s, b) * b + DigitValue(c)
  {
    assert (s + [c])[..|s|] == s;
  }

  /** The digits of a number, without superfluous leading zeros. */
  function Numeral(n: nat, b: nat, lower: bool): (s: seq<CChar>)
    requires Base(b)
    ensures s != []
    decreases n
  {
    if n < b then [Digit(n, lower)] else Numeral(n / b, b, lower) + [Digit(n % b, lower)]
  }

  lemma DigitRoundTrip(d: nat, lower: bool)
    requires d < 16
    ensures DigitValue(Digit(d, lower)) == d
    ensures Digit(d, lower) != '\0' && (Digit(d, lower) == '0' <==> d == 0)
  {
  }

  lemma DivMod(n: nat, b: nat)
    requires Base(b)
    ensures n / b * b + n % b == n && n % b < b
  {
    if b == 8 {} else if b == 10 {} else {}
  }

  /** Reading back what was written gives the number. */
  lemma {:induction false} NumeralValue(n: nat, b: nat, lower: bool)
    requires Base(b)
    ensures Value(Numeral(n, b, lower), b) == n
    decreases n
  {
    hide Digit, DigitValue;
    DivMod(n, b);
    DigitRoundTrip(if n < b then n else n % b, lower);
    if n < b {
      ValueSnoc([], Digit(n, lower), b);
      assert [] + [Digit(n, lower)] == [Digit(n, lower)];
    } else {
      NumeralValue(n / b, b, lower);
      ValueSnoc(Numeral(n / b, b, lower), Digit(n % b, lower), b);
    }
  }

  predicate IsDigit(c: char, b: nat, lower: bool)
    requires b <= 16
  {
    exists d :: 0 <= d < b && c == Digit(d, lower)
  }

  /** Every character is a digit of the base, and only zero starts with a zero. */
  lemma {:induction false} NumeralShape(n: nat, b: nat, lower: bool)
    requires Base(b)
    ensures forall k :: 0 <= k < |Numeral(n, b, lower)| ==> IsDigit(Numeral(n, b, lower)[k], b, lower)
    ensures Numeral(n, b, lower)[0] == '0' <==> n == 0
    ensures '\0' !in Numeral(n, b, lower)
    decreases n
  {
    hide Digit;
    DivMod(n, b);
    DigitRoundTrip(if n < b then n else n % b, lower);
    if n < b {
      assert IsDigit(Digit(n, lower), b, lower);
    } else {
      NumeralShape(n / b, b, lower);
      var s := Numeral(n / b, b, lower);
      assert IsDigit(Digit(n % b, lower), b, lower);
      assert Numeral(n, b, lower)[0] == s[0];
      forall k | 0 <= k < |Numeral(n, b, lower)| ensures IsDigit(Numeral(n, b, lower)[k], b, lower) {
        if k < |s| {
          assert Numeral(n, b, lower)[k] == s[k];
        }
      }
    }
  }

  function Pow8(k: nat): nat {
    if k == 0 then 1 else 8 * Pow8(k - 1)
  }

  lemma {:induction false} NumeralLength(n: nat, b: nat, lower: bool, k: nat)
    requires Base(b) && 0 < k && n < Pow8(k)
    ensures |Numeral(n, b, lower)| <= k
    decreases n
  {
    if n >= b {
      assert Pow8(k) == 8 * Pow8(k - 1);
      if k > 1 {
        NumeralLength(n / b, b, lower, k - 1);
      }
    }
  }

  lemma {:induction false} Pow8Double(k: nat, p: nat)
    requires Pow8(k) == p
    ensures Pow8(k + 1) == 8 * p
    ensures Pow8(k + 2) == 64 * p
    ensures Pow8(k + 4) == 0x1000 * p
  {
    assert Pow8(k + 3) == 8 * Pow8(k + 2);
  }

  /** No 64-bit number needs more than 22 digits in any of the bases. */
  lemma NumeralFits(n: U64, b: nat, lower: bool)
    requires Base(b)
    ensures |Numeral(n, b, lower)| <= 22
  {
    Pow8Double(0, 1);
    Pow8Double(4, 0x1000);
    Pow8Double(8, 0x100_0000);
    Pow8Double(12, 0x10_0000_0000);
    Pow8Double(16, 0x1_0000_0000_0000);
    Pow8Double(20, 0x1000_0000_0000_0000);
    NumeralLength(n, b, lower, 22);
  }
}
