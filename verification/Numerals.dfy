/** Numbers printed as text, and what `u32::from_str_radix` reads back. */
module Numerals {
  import opened Text

  function DigitChar(d: nat, upper: bool): char
    requires d < 16
  {
    if d < 10 then ('0' as int + d) as char
    else if upper then ('A' as int + d - 10) as char
    else ('a' as int + d - 10) as char
  }

  /** Digits without leading zeros, in capitals or not. */
  function Numeral(n: nat, radix: nat, upper: bool): (s: string)
    requires radix == 10 || radix == 16
    ensures s != ""
    ensures forall c :: c in s ==> '0' <= c <= '9' || (radix == 16 && ('a' <= c <= 'f' || 'A' <= c <= 'F'))
  {
    if n < radix then [DigitChar(n, upper)] else Numeral(n / radix, radix, upper) + [DigitChar(n % radix, upper)]
  }

  function Dec(n: nat): (s: string)
    ensures s != "" && forall c :: c in s ==> '0' <= c <= '9'
  {
    Numeral(n, 10, false)
  }

  function Zeros(z: nat): (s: string)
    ensures |s| == z && forall c :: c in s ==> c == '0'
  {
    seq(z, _ => '0')
  }

  lemma DigitReads(d: nat, radix: nat, upper: bool, rest: string, acc: nat)
    requires d < radix && (radix == 10 || radix == 16) && acc < 0x1_0000_0000
    ensures ParseDigits([DigitChar(d, upper)] + rest, radix, acc) ==
            if acc * radix + d < 0x1_0000_0000 then ParseDigits(rest, radix, acc * radix + d) else None
  {
    assert ([DigitChar(d, upper)] + rest)[1..] == rest;
    assert DigitValue(DigitChar(d, upper), radix) == Some(d);
  }

  lemma {:induction false} DigitsRead(n: nat, radix: nat, upper: bool, rest: string)
    requires radix == 10 || radix == 16
    ensures ParseDigits(Numeral(n, radix, upper) + rest, radix, 0) ==
            if n < 0x1_0000_0000 then ParseDigits(rest, radix, n) else None
  {
    hide ParseDigits, DigitChar;
    if n < radix {
      DigitReads(n, radix, upper, rest, 0);
    } else {
      var last := DigitChar(n % radix, upper);
      assert Numeral(n, radix, upper) + rest == Numeral(n / radix, radix, upper) + ([last] + rest);
      DigitsRead(n / radix, radix, upper, [last] + rest);
      if n / radix < 0x1_0000_0000 { DigitReads(n % radix, radix, upper, rest, n / radix); }
    }
  }

  lemma {:induction false} ZerosRead(z: nat, radix: nat, rest: string)
    requires radix == 10 || radix == 16
    ensures ParseDigits(Zeros(z) + rest, radix, 0) == ParseDigits(rest, radix, 0)
  {
    hide ParseDigits;
    if z == 0 {
      assert Zeros(0) + rest == rest;
    } else {
      ZerosRead(z - 1, radix, rest);
      assert Zeros(z) + rest == [DigitChar(0, false)] + (Zeros(z - 1) + rest);
      DigitReads(0, radix, false, Zeros(z - 1) + rest, 0);
    }
  }

  /** A printed number is read back exactly when it fits 32 bits, with or without leading zeros or a
      plus sign, whatever the case of its digits. */
  lemma NumberReads(n: nat, radix: nat, upper: bool, zeros: nat)
    requires radix == 10 || radix == 16
    ensures var digits := Zeros(zeros) + Numeral(n, radix, upper);
            ParseU32(digits, radix) == ParseU32("+" + digits, radix) == if n < 0x1_0000_0000 then Some(n) else None
  {
    var digits := Zeros(zeros) + Numeral(n, radix, upper);
    assert digits[0] in digits && forall c :: c in digits ==> c in Zeros(zeros) || c in Numeral(n, radix, upper);
    assert digits[0] != '+';
    assert ("+" + digits)[1..] == digits;
    ZerosRead(zeros, radix, Numeral(n, radix, upper));
    DigitsRead(n, radix, upper, "");
    assert Numeral(n, radix, upper) + "" == Numeral(n, radix, upper);
  }

  /** The plain case. */
  lemma DecReads(n: nat)
    ensures ParseU32(Dec(n), 10) == if n < 0x1_0000_0000 then Some(n) else None
  {
    hide ParseU32, Numeral;
    NumberReads(n, 10, false, 0);
    assert Zeros(0) + Numeral(n, 10, false) == Numeral(n, 10, false);
  }
}
