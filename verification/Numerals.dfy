/** The number formats of tar: octal text as `strtoul` reads it, big-endian binary, decimal text. */
module Numerals {
  import opened Basics

  const NUL: Byte := 0
  const SPACE: Byte := 0x20
  const PLUS: Byte := 0x2B
  const MINUS: Byte := 0x2D
  const DIGIT_0: Byte := 0x30

  predicate IsDigit(b: Byte, base: nat) { DIGIT_0 <= b < DIGIT_0 + base }

  /** `isspace` in the C locale. */
  predicate IsSpace(b: Byte) { b == SPACE || 9 <= b <= 13 }

  function Pow(base: nat, n: nat): (p: nat)
    ensures base > 0 ==> p > 0
  {
    if n == 0 then 1 else base * Pow(base, n - 1)
  }

  /** The digits at the head of `s`, read onto `acc`. */
  function ReadDigits(s: Bytes, base: nat, acc: nat): nat
    decreases |s|
  {
    if s == [] || !IsDigit(s[0], base) then acc
    else ReadDigits(s[1..], base, acc * base + (s[0] - DIGIT_0))
  }

  function SkipSpaces(s: Bytes): Bytes
    decreases |s|
  {
    if s != [] && IsSpace(s[0]) then SkipSpaces(s[1..]) else s
  }

  /** `strtoul(s, NULL, 8)` with 64-bit results: blanks, a sign, digits; a minus negates
      modulo 2^64, and what does not fit saturates. */
  function StrToUnsigned(s: Bytes): (v: nat)
    ensures v <= U64_MAX
  {
    var t := SkipSpaces(s);
    var signed := t != [] && (t[0] == PLUS || t[0] == MINUS);
    var v := ReadDigits(if signed then t[1..] else t, 8, 0);
    if v > U64_MAX then U64_MAX
    else if t != [] && t[0] == MINUS && v > 0 then U64 - v
    else v
  }

  /** `n` digits of `v`, zero-padded: what `%0<n>o` and `%0<n>u` print of a number that fits. */
  function Digits(v: nat, base: nat, n: nat): (s: Bytes)
    requires 2 <= base <= 10
    ensures |s| == n && forall i | 0 <= i < n :: IsDigit(s[i], base)
  {
    if n == 0 then [] else Digits(v / base, base, n - 1) + [DIGIT_0 + v % base]
  }

  /** Reading the digits of `v` gives `v` back, whatever was read before them. */
  lemma {:induction false} ReadPrinted(v: nat, base: nat, n: nat, rest: Bytes, acc: nat)
    requires 2 <= base <= 10 && v < Pow(base, n)
    ensures ReadDigits(Digits(v, base, n) + rest, base, acc) == ReadDigits(rest, base, acc * Pow(base, n) + v)
    decreases n
  {
    if n == 0 {
      assert Digits(v, base, n) + rest == rest;
    } else {
      var head, d := v / base, DIGIT_0 + v % base;
      DivBelow(v, base, Pow(base, n - 1));
      ReadPrinted(head, base, n - 1, [d] + rest, acc);
      assert Digits(v, base, n) + rest == Digits(head, base, n - 1) + ([d] + rest);
      assert ([d] + rest)[1..] == rest;
      Regroup(acc, base, Pow(base, n - 1), v);
    }
  }

  lemma MulMonotone(base: nat, p: nat, q: nat)
    ensures p <= q ==> base * p <= base * q
  {}

  lemma DivBelow(v: nat, base: nat, p: nat)
    requires base > 0 && v < base * p
    ensures v / base < p
  {
    MulMonotone(base, p, v / base);
  }

  lemma Regroup(acc: nat, base: nat, p: nat, v: nat)
    requires base > 0
    ensures (acc * p + v / base) * base + v % base == acc * (base * p) + v
  {
    assert (acc * p + v / base) * base == acc * p * base + (v / base) * base;
    assert acc * (base * p) == acc * p * base;
  }

  /** Printed octal digits, closed by something that is not one, read back as the value. */
  lemma OctalRoundTrip(v: nat, n: nat, rest: Bytes)
    requires v < Pow(8, n) && n > 0 && v <= U64_MAX
    requires rest == [] || !IsDigit(rest[0], 8)
    ensures StrToUnsigned(Digits(v, 8, n) + rest) == v
  {
    var s := Digits(v, 8, n) + rest;
    assert IsDigit(s[0], 8);
    ReadPrinted(v, 8, n, rest, 0);
  }

  lemma {:induction false} BlanksAreSkipped(blanks: Bytes, rest: Bytes)
    requires forall i | 0 <= i < |blanks| :: blanks[i] == ' ' as int || 9 <= blanks[i] <= 13
    requires rest == [] || !(rest[0] == ' ' as int || 9 <= rest[0] <= 13)
    ensures SkipSpaces(blanks + rest) == rest
    decreases |blanks|
  {
    if blanks == [] {
      assert blanks + rest == rest;
    } else {
      assert (blanks + rest)[1..] == blanks[1..] + rest;
      BlanksAreSkipped(blanks[1..], rest);
    }
  }

  /** Octal text is read past any blanks and up to the first character that is not an octal digit; a
      minus negates modulo 2^64. Text without digits is 0. */
  lemma OctalIsRead(blanks: Bytes, sign: Bytes, v: nat, n: nat, tail: Bytes)
    requires forall i | 0 <= i < |blanks| :: blanks[i] == ' ' as int || 9 <= blanks[i] <= 13
    requires sign in [[], ['+' as int], ['-' as int]]
    requires v < Pow(8, n) && v <= U64_MAX
    requires tail == [] || !('0' as int <= tail[0] <= '7' as int)
    requires n == 0 && sign == [] && tail != [] ==>
               !(9 <= tail[0] <= 13) && tail[0] !in [' ' as int, '+' as int, '-' as int]
    ensures StrToUnsigned(blanks + (sign + Digits(v, 8, n) + tail))
            == if sign == ['-' as int] && v > 0 then 0x1_0000_0000_0000_0000 - v else v
  {
    hide SkipSpaces, ReadDigits, Digits, Pow;
    var digits := Digits(v, 8, n);
    var t := sign + digits + tail;
    if sign != [] {
      assert t[0] == sign[0] && t[1..] == digits + tail;
    } else {
      assert t == digits + tail;
      assert digits != [] ==> IsDigit(digits[0], 8) && t[0] == digits[0];
    }
    BlanksAreSkipped(blanks, t);
    ReadPrinted(v, 8, n, tail, 0);
    DigitsEnd(tail, 0 * Pow(8, n) + v);
  }

  lemma DigitsEnd(tail: Bytes, acc: nat)
    requires tail == [] || !('0' as int <= tail[0] <= '7' as int)
    ensures ReadDigits(tail, 8, acc) == acc
  {}

  /** A big-endian binary number. */
  function BigEndian(s: Bytes): nat
  {
    if s == [] then 0 else BigEndian(s[..|s| - 1]) * 256 + s[|s| - 1]
  }

  function ToBigEndian(v: nat, n: nat): (s: Bytes)
    ensures |s| == n
  {
    if n == 0 then [] else ToBigEndian(v / 256, n - 1) + [v % 256]
  }

  lemma {:induction false} BigEndianRoundTrip(v: nat, n: nat)
    requires v < Pow(256, n)
    ensures BigEndian(ToBigEndian(v, n)) == v
    decreases n
  {
    if n > 0 {
      DivBelow(v, 256, Pow(256, n - 1));
      BigEndianRoundTrip(v / 256, n - 1);
      assert ToBigEndian(v, n)[..n - 1] == ToBigEndian(v / 256, n - 1);
    }
  }

  lemma {:induction false} BigEndianBound(s: Bytes)
    ensures BigEndian(s) < Pow(256, |s|)
    decreases |s|
  {
    if s != [] {
      BigEndianBound(s[..|s| - 1]);
    }
  }

  /** A 32-bit number as `writeLE32()` stores it. */
  function LittleEndian32(v: nat): (s: Bytes)
    ensures |s| == 4
  {
    [v % 0x100, v / 0x100 % 0x100, v / 0x1_0000 % 0x100, v / 0x100_0000 % 0x100]
  }

  function ReadLittleEndian32(s: Bytes): (v: nat)
    requires |s| == 4
    ensures v < U32
  {
    s[0] as int + s[1] as int * 0x100 + s[2] as int * 0x1_0000 + s[3] as int * 0x100_0000
  }

  lemma LittleEndianRoundTrip(v: nat)
    requires v < U32
    ensures ReadLittleEndian32(LittleEndian32(v)) == v
  {
    assert v / 0x1_0000 == v / 0x100 / 0x100 && v / 0x100_0000 == v / 0x1_0000 / 0x100;
  }
}
