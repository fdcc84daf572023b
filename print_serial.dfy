/** The fixed-width formatters the sketches use to dump packet data on the
 *  serial monitor.  Each is modelled by the characters it emits.
 *
 *  `Serial.print(x, HEX)` and `Serial.print(x, DEC)` are taken to emit the
 *  shortest numeral of `x` (upper-case digits in base 16, "0" for zero):
 *  that is `PrintNumber`.  A numeral is read back by `ParseNumber`, and
 *  `FixedWidth` is the reference: the `w` lowest digits of a number.
 */
module PrintSerial {
  import opened Bits

  /** `unsigned char` and `unsigned int` on AVR. */
  type Byte = n: nat | n < 0x100
  type UInt16 = n: nat | n < 0x1_0000

  const DIGITS: string := "0123456789ABCDEF"

  /** The bases the formatters print in. */
  predicate ValidBase(base: nat)
  {
    base == 2 || base == 10 || base == 16
  }

  /** The value of a digit character, or 16 for any other character. */
  function DigitValue(c: char): (v: nat)
    ensures v <= 16
  {
    if '0' <= c <= '9' then c as int - '0' as int
    else if 'A' <= c <= 'F' then c as int - 'A' as int + 10
    else 16
  }

  function DigitChar(v: nat): (c: char)
    requires v < 16
    ensures DigitValue(c) == v
  {
    DIGITS[v]
  }

  /** Every digit character is the character of its value. */
  lemma DigitCharOfValue(c: char)
    requires DigitValue(c) < 16
    ensures DigitChar(DigitValue(c)) == c
  {
  }

  /** A non-empty or empty string of digits of `base`, most significant first. */
  predicate IsNumeral(s: string, base: nat)
  {
    forall i :: 0 <= i < |s| ==> DigitValue(s[i]) < base
  }

  /** The value of a numeral. */
  function ParseNumber(s: string, base: nat): nat
    requires IsNumeral(s, base)
  {
    if s == [] then 0 else ParseNumber(s[..|s| - 1], base) * base + DigitValue(s[|s| - 1])
  }

  /** Appending a digit multiplies the value by the base and adds the digit. */
  lemma ParseSnoc(s: string, c: char, base: nat)
    requires IsNumeral(s, base) && DigitValue(c) < base
    ensures IsNumeral(s + [c], base)
    ensures ParseNumber(s + [c], base) == ParseNumber(s, base) * base + DigitValue(c)
  {
    assert (s + [c])[..|s|] == s;
  }

  function Pow(base: nat, w: nat): (p: nat)
    requires ValidBase(base)
    ensures p >= 1
  {
    if w == 0 then 1
    else
      MulAtLeast(base, Pow(base, w - 1));
      base * Pow(base, w - 1)
  }

  lemma MulAtLeast(base: nat, p: nat)
    requires ValidBase(base) && p >= 1
    ensures base * p >= base
  {
  }

  /** Euclidean division by a base. */
  lemma DivMod(n: nat, base: nat)
    requires ValidBase(base)
    ensures (n / base) * base + n % base == n && n % base < base
    ensures n >= base ==> 1 <= n / base < n
  {
  }

  /** The shortest numeral of `n`, as `Serial.print(n, base)` emits it: it
   *  reads back as `n`, and it starts with '0' only when it is "0".
   */
  function PrintNumber(n: nat, base: nat): (s: string)
    requires ValidBase(base)
    ensures |s| >= 1 && IsNumeral(s, base)
    ensures ParseNumber(s, base) == n
    ensures s[0] == '0' <==> n == 0
    decreases n
  {
    DivMod(n, base);
    if n < base then [DigitChar(n)]
    else
      var high := PrintNumber(n / base, base);
      ParseSnoc(high, DigitChar(n % base), base);
      high + [DigitChar(n % base)]
  }

  /** The `w` lowest digits of `n`, most significant first. */
  function FixedWidth(n: nat, base: nat, w: nat): (s: string)
    requires ValidBase(base)
    ensures |s| == w && IsNumeral(s, base)
  {
    if w == 0 then []
    else
      DivMod(n, base);
      FixedWidth(n / base, base, w - 1) + [DigitChar(n % base)]
  }

  /** A number below `base` to the `w` reads back from its `w` digits. */
  lemma {:induction false} FixedWidthValue(n: nat, base: nat, w: nat)
    requires ValidBase(base) && n < Pow(base, w)
    ensures ParseNumber(FixedWidth(n, base, w), base) == n
  {
    if w > 0 {
      var q, r := n / base, n % base;
      QuotientBound(n, base, w);
      FixedWidthValue(q, base, w - 1);
      ParseSnoc(FixedWidth(q, base, w - 1), DigitChar(r), base);
      DivMod(n, base);
    }
  }

  /** Dropping the last digit of a number below `base` to the `w` leaves one below `base` to the `w - 1`. */
  lemma QuotientBound(n: nat, base: nat, w: nat)
    requires ValidBase(base) && w > 0 && n < Pow(base, w)
    ensures n / base < Pow(base, w - 1)
  {
    DivBound(n, base, Pow(base, w - 1));
  }

  predicate AllZeros(s: string)
  {
    forall i :: 0 <= i < |s| ==> s[i] == '0'
  }

  lemma DivBound(n: nat, base: nat, p: nat)
    requires ValidBase(base)
    ensures n / base < p <==> n < base * p
  {
  }

  /** A numeral has at most `w` digits exactly when the number is below `base` to the `w`. */
  lemma {:induction false} PrintNumberLength(n: nat, base: nat, w: nat)
    requires ValidBase(base) && w >= 1
    ensures |PrintNumber(n, base)| <= w <==> n < Pow(base, w)
    decreases n
  {
    var p := Pow(base, w - 1);
    assert Pow(base, w) == base * p;
    if n < base {
      MulAtLeast(base, p);
      assert n < Pow(base, w);
      assert |PrintNumber(n, base)| == 1;
      assert |PrintNumber(n, base)| <= w <==> n < Pow(base, w);
    } else {
      DivMod(n, base);
      assert |PrintNumber(n, base)| == |PrintNumber(n / base, base)| + 1;
      if w == 1 {
        assert p == 1;
        assert Pow(base, w) == base;
        assert |PrintNumber(n, base)| <= w <==> n < Pow(base, w);
      } else {
        PrintNumberLength(n / base, base, w - 1);
        DivBound(n, base, p);
        assert (n / base < p) == (n < Pow(base, w));
        assert |PrintNumber(n, base)| <= w <==> n < Pow(base, w);
      }
    }
  }

  /** Leading zeros do not change the value of a numeral. */
  lemma {:induction false} LeadingZeros(z: string, s: string, base: nat)
    requires ValidBase(base) && AllZeros(z) && IsNumeral(s, base)
    ensures IsNumeral(z + s, base)
    ensures ParseNumber(z + s, base) == ParseNumber(s, base)
    decreases |s|
  {
    if s == [] {
      assert z + s == z;
      ZerosValue(z, base);
    } else {
      var t := z + s;
      assert t[..|t| - 1] == z + s[..|s| - 1];
      LeadingZeros(z, s[..|s| - 1], base);
    }
  }

  lemma {:induction false} ZerosValue(z: string, base: nat)
    requires ValidBase(base) && AllZeros(z)
    ensures IsNumeral(z, base) && ParseNumber(z, base) == 0
  {
    if z != [] {
      ZerosValue(z[..|z| - 1], base);
    }
  }

  lemma DivModUnique(a: nat, b: nat, c: nat, d: nat, base: nat)
    requires ValidBase(base) && c < base && d < base && a * base + c == b * base + d
    ensures a == b && c == d
  {
  }

  /** Two numerals of the same length and value are the same string. */
  lemma {:induction false} NumeralsEqual(s: string, t: string, base: nat)
    requires ValidBase(base) && IsNumeral(s, base) && IsNumeral(t, base)
    requires |s| == |t| && ParseNumber(s, base) == ParseNumber(t, base)
    ensures s == t
    decreases |s|
  {
    if s != [] {
      var n := |s| - 1;
      DivModUnique(ParseNumber(s[..n], base), ParseNumber(t[..n], base), DigitValue(s[n]), DigitValue(t[n]), base);
      NumeralsEqual(s[..n], t[..n], base);
      DigitCharOfValue(s[n]);
      DigitCharOfValue(t[n]);
      assert s == s[..n] + [s[n]] && t == t[..n] + [t[n]];
    }
  }

  /** Zero-padding the shortest numeral to `w` digits gives the `w`-digit numeral. */
  lemma PadToWidth(n: nat, base: nat, w: nat, zeros: string)
    requires ValidBase(base) && w >= 1 && AllZeros(zeros)
    requires |zeros| + |PrintNumber(n, base)| == w
    ensures zeros + PrintNumber(n, base) == FixedWidth(n, base, w)
    ensures ParseNumber(zeros + PrintNumber(n, base), base) == n
  {
    PrintNumberLength(n, base, w);
    FixedWidthValue(n, base, w);
    LeadingZeros(zeros, PrintNumber(n, base), base);
    NumeralsEqual(zeros + PrintNumber(n, base), FixedWidth(n, base, w), base);
  }

  /** `SerialWriteHex`: a byte as exactly two hex digits. */
  function SerialWriteHex(b: Byte): (s: string)
    ensures |s| == 2 && s == FixedWidth(b, 16, 2)
    ensures ParseNumber(s, 16) == b
    ensures s[0] == '0' <==> b < 0x10
  {
    var zeros := if b < 0x10 then "0" else "";
    PrintNumberLength(b, 16, 1);
    PrintNumberLength(b, 16, 2);
    PadToWidth(b, 16, 2, zeros);
    var digits := PrintNumber(b, 16);
    assert (zeros + digits)[0] == if b < 0x10 then '0' else digits[0];
    zeros + digits
  }

  /** `SerialWriteIntHex`: a 16-bit `unsigned int` as exactly four hex digits. */
  function SerialWriteIntHex(u: UInt16): (s: string)
    ensures |s| == 4 && s == FixedWidth(u, 16, 4)
    ensures ParseNumber(s, 16) == u
    ensures s[0] == '0' <==> u < 0x1000
  {
    var zeros := (if u < 0x1000 then "0" else "") + (if u < 0x0100 then "0" else "")
                 + (if u < 0x0010 then "0" else "");
    PrintNumberLength(u, 16, 1);
    PrintNumberLength(u, 16, 2);
    PrintNumberLength(u, 16, 3);
    PrintNumberLength(u, 16, 4);
    PadToWidth(u, 16, 4, zeros);
    var digits := PrintNumber(u, 16);
    assert (zeros + digits)[0] == if u < 0x1000 then '0' else digits[0];
    zeros + digits
  }

  /** `SerialWriteDec`: a byte as exactly three decimal digits. */
  function SerialWriteDec(b: Byte): (s: string)
    ensures |s| == 3 && s == FixedWidth(b, 10, 3)
    ensures ParseNumber(s, 10) == b
    ensures s[0] == '0' <==> b < 100
  {
    var zeros := (if b < 100 then "0" else "") + (if b < 10 then "0" else "");
    PrintNumberLength(b, 10, 1);
    PrintNumberLength(b, 10, 2);
    PrintNumberLength(b, 10, 3);
    PadToWidth(b, 10, 3, zeros);
    var digits := PrintNumber(b, 10);
    assert (zeros + digits)[0] == if b < 100 then '0' else digits[0];
    zeros + digits
  }

  /** `SerialWriteIntDec`: a 16-bit `unsigned int` as exactly five decimal digits. */
  function SerialWriteIntDec(u: UInt16): (s: string)
    ensures |s| == 5 && s == FixedWidth(u, 10, 5)
    ensures ParseNumber(s, 10) == u
    ensures s[0] == '0' <==> u < 10000
  {
    var zeros := (if u < 10000 then "0" else "") + (if u < 1000 then "0" else "")
                 + (if u < 100 then "0" else "") + (if u < 10 then "0" else "");
    PrintNumberLength(u, 10, 1);
    PrintNumberLength(u, 10, 2);
    PrintNumberLength(u, 10, 3);
    PrintNumberLength(u, 10, 4);
    PrintNumberLength(u, 10, 5);
    PadToWidth(u, 10, 5, zeros);
    var digits := PrintNumber(u, 10);
    assert (zeros + digits)[0] == if u < 10000 then '0' else digits[0];
    zeros + digits
  }

  /** The character `SerialWriteBin` emits for a bit. */
  function BinaryDigit(bit: bool): char
  {
    if bit then '1' else '0'
  }

  lemma MaskShift(k: nat)
    requires 0 < k < 8
    ensures Mask(k) >> 1 == Mask(k - 1)
  {
  }

  /** The first `n` characters `SerialWriteBin` emits for `b`. */
  function BinaryPrefix(b: bv8, n: nat): (s: string)
    requires n <= 8
    ensures |s| == n
    ensures forall k :: 0 <= k < n ==> s[k] == BinaryDigit(BitOf(b, 7 - k))
  {
    if n == 0 then [] else BinaryPrefix(b, n - 1) + [BinaryDigit(BitOf(b, 8 - n))]
  }

  /** `SerialWriteBin`: the eight bits of a byte, most significant first. */
  method SerialWriteBin(b: bv8) returns (s: string)
    ensures |s| == 8
    ensures forall k :: 0 <= k < 8 ==> s[k] == BinaryDigit(BitOf(b, 7 - k))
  {
    var mask: bv8 := 0x80;
    s := "";
    for i := 0 to 8
      invariant i < 8 ==> mask == Mask(7 - i)
      invariant s == BinaryPrefix(b, i)
    {
      if mask & b != 0 {
        s := s + "1";
      } else {
        s := s + "0";
      }
      if i < 7 {
        MaskShift(7 - i);
      }
      mask := mask >> 1;
    }
  }
}
