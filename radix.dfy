/**
 * Digits, radix conversion and the numeric literals of the assembler.
 *
 * `ToRadix(n, b)` is JavaScript's `n.toString(b)` on a non-negative integer
 * (lower-case digits, no leading zeros), `ValueOf(s, b)` is `parseInt(s, b)` on
 * a string made only of digits of base `b`, and `PadStart` is
 * `String.prototype.padStart` with a one-character filler. The four helpers at
 * the end are the assembler's own radix helpers.
 */
module Radix {

  predicate IsDecDigit(c: char) { '0' <= c <= '9' }

  predicate IsHexDigit(c: char) { '0' <= c <= '9' || 'a' <= c <= 'f' || 'A' <= c <= 'F' }

  predicate IsBinDigit(c: char) { c == '0' || c == '1' }

  /** The value of a hexadecimal digit of either case. */
  function DigitValue(c: char): (d: nat)
    requires IsHexDigit(c)
    ensures d < 16
    ensures IsDecDigit(c) <==> d < 10
    ensures IsBinDigit(c) <==> d < 2
  {
    if '0' <= c <= '9' then c as int - '0' as int
    else if 'a' <= c <= 'f' then c as int - 'a' as int + 10
    else c as int - 'A' as int + 10
  }

  /** The lower-case digit of value `d`, as `toString` writes it. */
  function DigitChar(d: nat): (c: char)
    requires d < 16
    ensures IsHexDigit(c) && DigitValue(c) == d
    ensures !('A' <= c <= 'F')
  {
    if d < 10 then ('0' as int + d) as char else ('a' as int + d - 10) as char
  }

  predicate IsDigitOf(c: char, base: nat) { IsHexDigit(c) && DigitValue(c) < base }

  /** Every character of `s` is a digit of base `base`. */
  predicate IsDigitsOf(s: string, base: nat) {
    forall i :: 0 <= i < |s| ==> IsDigitOf(s[i], base)
  }

  /** No upper-case hexadecimal letter occurs in `s`. */
  predicate IsLowerCase(s: string) {
    forall i :: 0 <= i < |s| ==> !('A' <= s[i] <= 'F')
  }

  function Pow(b: nat, k: nat): nat {
    if k == 0 then 1 else b * Pow(b, k - 1)
  }

  /** `parseInt(s, base)` on a string of digits of that base (most significant first). */
  function ValueOf(s: string, base: nat): nat
    requires IsDigitsOf(s, base)
  {
    if s == [] then 0 else ValueOf(s[..|s| - 1], base) * base + DigitValue(s[|s| - 1])
  }

  /**
   * `n.toString(base)`: a non-empty string of lower-case digits of `base` with
   * no leading zero, whose value is `n`.
   */
  function ToRadix(n: nat, base: nat): (r: string)
    requires 2 <= base <= 16
    ensures |r| >= 1 && IsDigitsOf(r, base) && IsLowerCase(r)
    ensures ValueOf(r, base) == n
    ensures r[0] != '0' || r == "0"
    decreases n
  {
    if n < base then
      var c := DigitChar(n);
      assert c == '0' ==> n == 0;
      [c]
    else
      DivSmaller(n, base);
      var high := ToRadix(n / base, base);
      var c := DigitChar(n % base);
      AppendDigit(high, c, base);
      DivMod(n, base);
      high + [c]
  }

  /** Appending a digit multiplies the value by the base and adds the digit. */
  lemma AppendDigit(high: string, c: char, base: nat)
    requires IsDigitsOf(high, base) && IsLowerCase(high) && IsDigitOf(c, base) && !('A' <= c <= 'F')
    ensures IsDigitsOf(high + [c], base) && IsLowerCase(high + [c])
    ensures ValueOf(high + [c], base) == ValueOf(high, base) * base + DigitValue(c)
  {
    var r := high + [c];
    assert r[..|r| - 1] == high;
    forall i | 0 <= i < |r| ensures IsDigitOf(r[i], base) && !('A' <= r[i] <= 'F') {
      if i < |high| { assert r[i] == high[i]; }
    }
  }

  lemma DivSmaller(n: nat, base: nat)
    requires 2 <= base <= n
    ensures 1 <= n / base < n
  {
  }

  lemma DivMod(n: nat, base: nat)
    requires base >= 1
    ensures n == (n / base) * base + n % base
  {
  }

  /** Two digit strings side by side form a digit string. */
  lemma DigitsConcat(a: string, b: string, base: nat)
    requires IsDigitsOf(a, base) && IsDigitsOf(b, base)
    ensures IsDigitsOf(a + b, base)
  {
    forall i | 0 <= i < |a + b| ensures IsDigitOf((a + b)[i], base) {
      if i >= |a| { assert (a + b)[i] == b[i - |a|]; }
    }
  }

  /** `s.padStart(n, c)`: `s` with copies of `c` in front up to length `n`. */
  function PadStart(s: string, n: nat, c: char): (r: string)
    ensures |r| == if |s| < n then n else |s|
    ensures r[|r| - |s|..] == s
    ensures forall i :: 0 <= i < |r| - |s| ==> r[i] == c
  {
    if |s| >= n then s else seq(n - |s|, _ => c) + s
  }

  lemma {:induction false} PowPositive(b: nat, k: nat)
    requires b >= 1
    ensures Pow(b, k) >= 1
  {
    if k > 0 { PowPositive(b, k - 1); }
  }

  /** A string of `k` digits of base `b` has a value below `b` to the `k`. */
  lemma {:induction false} ValueOfBound(s: string, b: nat)
    requires 2 <= b && IsDigitsOf(s, b)
    ensures ValueOf(s, b) < Pow(b, |s|)
  {
    if s != [] {
      var p := s[..|s| - 1];
      ValueOfBound(p, b);
      var v, d, m := ValueOf(p, b), DigitValue(s[|s| - 1]), Pow(b, |p|);
      assert ValueOf(s, b) == v * b + d;
      MulBelow(v, m, b, d);
      assert Pow(b, |s|) == b * m;
    }
  }

  /** A string of zeros has value zero. */
  lemma {:induction false} ZerosValue(z: string, b: nat)
    requires 2 <= b && forall i :: 0 <= i < |z| ==> z[i] == '0'
    ensures IsDigitsOf(z, b) && ValueOf(z, b) == 0
  {
    if z != [] { ZerosValue(z[..|z| - 1], b); }
  }

  /** Leading zeros do not change the value of a digit string. */
  lemma {:induction false} LeadingZeros(z: string, s: string, b: nat)
    requires 2 <= b && IsDigitsOf(s, b) && forall i :: 0 <= i < |z| ==> z[i] == '0'
    ensures IsDigitsOf(z + s, b) && ValueOf(z + s, b) == ValueOf(s, b)
  {
    ZerosValue(z, b);
    if s == [] {
      assert z + s == z;
    } else {
      var p := s[..|s| - 1];
      LeadingZeros(z, p, b);
      assert (z + s)[..|z + s| - 1] == z + p;
    }
  }

  /** Padding with zeros keeps the value of a digit string. */
  lemma PadStartValue(s: string, n: nat, b: nat)
    requires 2 <= b && IsDigitsOf(s, b)
    ensures IsDigitsOf(PadStart(s, n, '0'), b)
    ensures ValueOf(PadStart(s, n, '0'), b) == ValueOf(s, b)
  {
    if |s| < n {
      LeadingZeros(seq(n - |s|, _ => '0'), s, b);
    }
  }

  lemma MulBelow(v: nat, m: nat, b: nat, d: nat)
    requires v < m && d < b
    ensures v * b + d < b * m
  {
    assert v + 1 <= m;
    assert (v + 1) * b <= m * b;
  }

  lemma DivBelow(n: nat, b: nat, m: nat)
    requires b >= 1
    ensures n / b < m <==> n < b * m
  {
    var q, r := n / b, n % b;
    assert n == b * q + r && r < b;
    if q < m {
      assert b * q <= b * (m - 1);
    } else {
      assert b * q >= b * m;
    }
  }

  /**
   * `n.toString(b)` has at most `k` digits exactly when `n` is below `b` to
   * the `k`.
   */
  lemma {:induction false} RadixLength(n: nat, b: nat, k: nat)
    requires 2 <= b <= 16 && k >= 1
    ensures |ToRadix(n, b)| <= k <==> n < Pow(b, k)
    decreases n
  {
    var p := Pow(b, k - 1);
    assert Pow(b, k) == b * p;
    PowPositive(b, k - 1);
    if n < b {
      assert |ToRadix(n, b)| == 1;
      MulAtLeast(b, p);
    } else {
      RadixStep(n, b);
      if k == 1 {
        assert p == 1;
      } else {
        DivSmaller(n, b);
        RadixLength(n / b, b, k - 1);
        DivBelow(n, b, p);
      }
    }
  }

  lemma RadixStep(n: nat, b: nat)
    requires 2 <= b <= n && b <= 16
    ensures |ToRadix(n, b)| == |ToRadix(n / b, b)| + 1
  {
  }

  lemma MulAtLeast(b: nat, p: nat)
    requires p >= 1
    ensures b * p >= b
  {
  }

  /** Padding keeps a string free of upper-case letters when the filler is a digit. */
  lemma PadStartLowerCase(s: string, n: nat)
    requires IsLowerCase(s)
    ensures IsLowerCase(PadStart(s, n, '0'))
  {
    var r := PadStart(s, n, '0');
    forall i | 0 <= i < |r| ensures !('A' <= r[i] <= 'F') {
      if i >= |r| - |s| { assert r[i] == s[i - (|r| - |s|)]; }
    }
  }

  // The three literal forms accepted by the pattern /^(0x[0-9a-fA-F]+|0b[01]+|\d+)$/

  predicate IsDecimalLiteral(s: string) {
    |s| > 0 && forall i :: 0 <= i < |s| ==> IsDecDigit(s[i])
  }

  predicate IsHexLiteral(s: string) {
    |s| > 2 && s[..2] == "0x" && forall i :: 2 <= i < |s| ==> IsHexDigit(s[i])
  }

  predicate IsBinaryLiteral(s: string) {
    |s| > 2 && s[..2] == "0b" && forall i :: 2 <= i < |s| ==> IsBinDigit(s[i])
  }

  predicate IsLiteral(s: string) {
    IsHexLiteral(s) || IsBinaryLiteral(s) || IsDecimalLiteral(s)
  }

  /** The digits of a literal, with the `0x` or `0b` prefix taken off. */
  function Digits(s: string): (d: string)
    requires IsLiteral(s)
    ensures |d| >= 1
    ensures IsHexLiteral(s) ==> IsDigitsOf(d, 16) && s == "0x" + d
    ensures IsBinaryLiteral(s) ==> IsDigitsOf(d, 2) && s == "0b" + d
    ensures IsDecimalLiteral(s) ==> IsDigitsOf(d, 10) && s == d
  {
    Forms(s);
    if IsHexLiteral(s) || IsBinaryLiteral(s) then s[2..] else s
  }

  /** The base a literal is written in. */
  function Base(s: string): (b: nat)
    requires IsLiteral(s)
    ensures b in {2, 10, 16}
  {
    if IsHexLiteral(s) then 16 else if IsBinaryLiteral(s) then 2 else 10
  }

  /** The value of a literal. */
  function LiteralValue(s: string): nat
    requires IsLiteral(s)
  {
    Forms(s);
    ValueOf(Digits(s), Base(s))
  }

  /** The three forms never overlap, so the order in which they are tried does not matter. */
  lemma Forms(s: string)
    ensures !(IsHexLiteral(s) && IsBinaryLiteral(s))
    ensures !(IsHexLiteral(s) && IsDecimalLiteral(s))
    ensures !(IsBinaryLiteral(s) && IsDecimalLiteral(s))
  {
    if |s| > 2 { assert s[..2][1] == s[1]; }
  }

  /** Every value written in decimal reads back as that value. */
  lemma DecimalRoundTrip(n: nat)
    ensures IsDecimalLiteral(ToRadix(n, 10)) && LiteralValue(ToRadix(n, 10)) == n
  {
    var d := ToRadix(n, 10);
    assert forall i :: 0 <= i < |d| ==> IsDigitOf(d[i], 10);
  }

  /** Every value written in hexadecimal with the `0x` prefix reads back as that value. */
  lemma HexRoundTrip(n: nat)
    ensures IsHexLiteral("0x" + ToRadix(n, 16)) && LiteralValue("0x" + ToRadix(n, 16)) == n
  {
    var h := ToRadix(n, 16);
    var s := "0x" + h;
    assert s[..2] == "0x" && s[2..] == h;
    assert forall i :: 2 <= i < |s| ==> s[i] == h[i - 2];
  }

  /** Every value written in binary with the `0b` prefix reads back as that value. */
  lemma BinaryRoundTrip(n: nat)
    ensures IsBinaryLiteral("0b" + ToRadix(n, 2)) && LiteralValue("0b" + ToRadix(n, 2)) == n
  {
    var b := ToRadix(n, 2);
    var s := "0b" + b;
    assert s[..2] == "0b" && s[2..] == b;
    assert forall i :: 2 <= i < |s| ==> s[i] == b[i - 2];
    assert forall i :: 0 <= i < |b| ==> IsDigitOf(b[i], 2);
  }

  /** `15`, `0xF` and `0b1111` all denote fifteen. */
  lemma FifteenInEveryForm()
    ensures IsLiteral("15") && LiteralValue("15") == 15
    ensures IsLiteral("0xF") && LiteralValue("0xF") == 15
    ensures IsLiteral("0b1111") && LiteralValue("0b1111") == 15
  {
    FifteenDecimal();
    FifteenHex();
    FifteenBinary();
  }

  lemma FifteenDecimal()
    ensures IsLiteral("15") && LiteralValue("15") == 15
  {
    assert IsDecimalLiteral("15");
    assert "15"[..1] == "1" && ValueOf("1", 10) == 1 && ValueOf("15", 10) == 15;
  }

  lemma FifteenHex()
    ensures IsLiteral("0xF") && LiteralValue("0xF") == 15
  {
    assert IsHexLiteral("0xF") && "0xF"[2..] == "F" && ValueOf("F", 16) == 15;
  }

  lemma FifteenBinary()
    ensures IsLiteral("0b1111") && LiteralValue("0b1111") == 15
  {
    assert IsBinaryLiteral("0b1111") && "0b1111"[2..] == "1111";
    assert "1111"[..3] == "111" && "111"[..2] == "11" && "11"[..1] == "1";
    assert ValueOf("1", 2) == 1 && ValueOf("11", 2) == 3 && ValueOf("111", 2) == 7;
    assert ValueOf("1111", 2) == 15;
  }

  // The assembler's radix helpers.

  /** `binaryToHex`: the lower-case hexadecimal of a bit string, padded to two digits. */
  function BinaryToHex(binary: string): (hex: string)
    requires |binary| > 0 && IsDigitsOf(binary, 2)
    ensures |hex| >= 2 && IsDigitsOf(hex, 16) && IsLowerCase(hex)
    ensures ValueOf(hex, 16) == ValueOf(binary, 2)
    ensures |hex| == 2 <==> ValueOf(binary, 2) <= 255
    ensures |binary| <= 8 ==> |hex| == 2
  {
    var v := ValueOf(binary, 2);
    var r := PadStart(ToRadix(v, 16), 2, '0');
    PadStartValue(ToRadix(v, 16), 2, 16);
    PadStartLowerCase(ToRadix(v, 16), 2);
    ShortBinaryFitsByte(binary);
    RadixLength(v, 16, 2);
    r
  }

  /** `decimalToHex`: the lower-case hexadecimal of `n`, padded to two digits. */
  function DecimalToHex(n: nat): (hex: string)
    ensures |hex| >= 2 && IsDigitsOf(hex, 16) && IsLowerCase(hex)
    ensures ValueOf(hex, 16) == n
    ensures |hex| == 2 <==> n <= 255
  {
    var r := PadStart(ToRadix(n, 16), 2, '0');
    PadStartValue(ToRadix(n, 16), 2, 16);
    PadStartLowerCase(ToRadix(n, 16), 2);
    RadixLength(n, 16, 2);
    r
  }

  /** `decimalToBinary`: the bits of `n`, padded to four. */
  function DecimalToBinary(n: nat): (binary: string)
    ensures |binary| >= 4 && IsDigitsOf(binary, 2)
    ensures ValueOf(binary, 2) == n
    ensures |binary| == 4 <==> n <= 15
  {
    var r := PadStart(ToRadix(n, 2), 4, '0');
    PadStartValue(ToRadix(n, 2), 4, 2);
    RadixLength(n, 2, 4);
    r
  }

  /** `hexToBinary`: the bits of a hexadecimal digit string, padded to four. */
  function HexToBinary(hex: string): (binary: string)
    requires |hex| > 0 && IsDigitsOf(hex, 16)
    ensures |binary| >= 4 && IsDigitsOf(binary, 2)
    ensures ValueOf(binary, 2) == ValueOf(hex, 16)
    ensures |binary| == 4 <==> ValueOf(hex, 16) <= 15
  {
    DecimalToBinary(ValueOf(hex, 16))
  }

  /** A value of at most 255 takes at most eight bits. */
  lemma ByteBits(n: nat)
    requires n <= 255
    ensures |DecimalToBinary(n)| <= 8
  {
    RadixLength(n, 2, 8);
    assert Pow(2, 8) == 256;
  }

  /** A string of at most eight bits has a value below 256. */
  lemma ShortBinaryFitsByte(binary: string)
    requires IsDigitsOf(binary, 2)
    ensures |binary| <= 8 ==> ValueOf(binary, 2) < 256
  {
    if |binary| <= 8 {
      ValueOfBound(binary, 2);
      PowMonotone(2, |binary|, 8);
    }
  }

  lemma {:induction false} PowMonotone(b: nat, j: nat, k: nat)
    requires b >= 1 && j <= k
    ensures Pow(b, j) <= Pow(b, k)
    decreases k
  {
    if j < k {
      PowMonotone(b, j, k - 1);
      PowPositive(b, k - 1);
      assert Pow(b, k) == b * Pow(b, k - 1);
    }
  }
}
