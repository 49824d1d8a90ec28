/**
 Integers as text: `%lld` / `%llu` on the way out, `strtoll` / `strtoull` with base 0 on the way in
 (section 7.22.1.4 of ISO/IEC 9899:2011).
 */
module IntegerText {
  import opened Prelude

  const INT64_MIN := -0x8000_0000_0000_0000
  const INT64_MAX := 0x7FFF_FFFF_FFFF_FFFF
  const UINT64_MAX := 0xFFFF_FFFF_FFFF_FFFF

  // ----- printing

  function Digit(d: nat): char
    requires d < 10
  {
    ('0' as int + d) as char
  }

  function Decimal(n: nat): (text: string)
    ensures text != ""
  {
    if n < 10 then [Digit(n)] else Decimal(n / 10) + [Digit(n % 10)]
  }

  function FormatInteger(n: int): string {
    if n < 0 then "-" + Decimal(-n) else Decimal(n)
  }

  // ----- parsing

  /** The value of a letter or digit; 36 for any other character. */
  function DigitValue(c: char): nat {
    if '0' <= c <= '9' then c as int - '0' as int
    else if 'a' <= c <= 'z' then c as int - 'a' as int + 10
    else if 'A' <= c <= 'Z' then c as int - 'A' as int + 10
    else 36
  }

  function SpaceRun(s: string): (n: nat)
    ensures n <= |s|
  {
    if s != "" && IsSpace(s[0]) then 1 + SpaceRun(s[1..]) else 0
  }

  function DigitRun(base: nat, s: string): (n: nat)
    ensures n <= |s|
  {
    if s != "" && DigitValue(s[0]) < base then 1 + DigitRun(base, s[1..]) else 0
  }

  function DigitsValue(base: nat, digits: string): nat {
    if digits == "" then 0
    else DigitsValue(base, digits[..|digits|-1]) * base + DigitValue(digits[|digits|-1])
  }

  /** Base 0: a hexadecimal prefix counts only with a digit after it, a leading zero means octal. */
  function Base(s: string): nat {
    if |s| >= 3 && s[0] == '0' && s[1] in "xX" && DigitValue(s[2]) < 16 then 16
    else if s != "" && s[0] == '0' then 8
    else 10
  }

  /** What the scan of `s` found: sign, magnitude, and the index it stopped at (0 for no digits). */
  datatype Scan = Scan(negative: bool, magnitude: nat, end: nat)

  function ScanInteger(s: string): Scan {
    var start := SpaceRun(s);
    var signed := start < |s| && s[start] in "+-";
    var first := if signed then start + 1 else start;
    var base := Base(s[first..]);
    var from := if base == 16 then first + 2 else first;
    var run := DigitRun(base, s[from..]);
    if run == 0 then Scan(false, 0, 0)
    else Scan(signed && s[start] == '-', DigitsValue(base, s[from..][..run]), from + run)
  }

  datatype Parsed = Parsed(value: int, end: nat) | RangeError

  function StrToLL(s: string): Parsed {
    var scan := ScanInteger(s);
    var value := if scan.negative then -(scan.magnitude as int) else scan.magnitude;
    if INT64_MIN <= value <= INT64_MAX then Parsed(value, scan.end) else RangeError
  }

  /** A minus sign negates in unsigned arithmetic, it is not an error. */
  function StrToULL(s: string): Parsed {
    var scan := ScanInteger(s);
    if UINT64_MAX < scan.magnitude then RangeError
    else Parsed(if scan.negative then (-(scan.magnitude as int)) % (UINT64_MAX + 1) else scan.magnitude, scan.end)
  }

  const DIGITS := "0123456789"
  const LOWER_LETTERS := "abcdefghijklmnopqrstuvwxyz"
  const UPPER_LETTERS := "ABCDEFGHIJKLMNOPQRSTUVWXYZ"

  /** The digits below ten in order of their values. */
  lemma {:induction false} DigitsInOrder(c: char, k: nat)
    requires k < 10
    ensures DigitValue(c) == k <==> c == DIGITS[k]
  {
    assert DIGITS[k] == (k + '0' as int) as char;
  }

  /** From ten on, the letters in either case. */
  lemma {:induction false} LettersInOrder(c: char, k: nat)
    requires k < 26
    ensures DigitValue(c) == 10 + k <==> c == LOWER_LETTERS[k] || c == UPPER_LETTERS[k]
  {
    assert LOWER_LETTERS[k] == (k + 'a' as int) as char;
    assert UPPER_LETTERS[k] == (k + 'A' as int) as char;
  }

  // ----- printed text is plain decimal

  ghost predicate AllDigits(s: string) {
    forall i :: 0 <= i < |s| ==> '0' <= s[i] <= '9'
  }

  lemma {:induction false} DecimalShape(n: nat)
    ensures AllDigits(Decimal(n))
    ensures Decimal(n)[0] == '0' <==> n == 0
    ensures n == 0 ==> Decimal(n) == "0"
    ensures DigitsValue(10, Decimal(n)) == n
  {
    if n < 10 {
      assert Decimal(n)[..0] == "";
      assert DigitsValue(10, Decimal(n)) == DigitsValue(10, Decimal(n)[..0]) * 10 + DigitValue(Digit(n));
    } else {
      DecimalShape(n / 10);
      var s := Decimal(n);
      assert s[..|s|-1] == Decimal(n / 10);
    }
  }

  lemma {:induction false} DigitRunAll(base: nat, s: string)
    requires 10 <= base && AllDigits(s)
    ensures DigitRun(base, s) == |s|
  {
    if s != "" {
      DigitRunAll(base, s[1..]);
    }
  }

  lemma {:induction false} ScanDecimal(n: nat)
    ensures Base(Decimal(n)) == if n == 0 then 8 else 10
    ensures DigitRun(Base(Decimal(n)), Decimal(n)) == |Decimal(n)|
    ensures DigitsValue(Base(Decimal(n)), Decimal(n)) == n
  {
    DecimalShape(n);
    if n != 0 {
      DigitRunAll(10, Decimal(n));
    }
  }

  /** A printed number is scanned as decimal, to its last character: none is taken for octal or
      hexadecimal. */
  lemma {:induction false} ScanPrinted(n: int)
    ensures ScanInteger(FormatInteger(n)) ==
            Scan(n < 0, if n < 0 then -n else n, |FormatInteger(n)|)
  {
    var s := FormatInteger(n);
    var digits := Decimal(if n < 0 then -n else n);
    DecimalShape(if n < 0 then -n else n);
    ScanDecimal(if n < 0 then -n else n);
    var from := if n < 0 then 1 else 0;
    assert SpaceRun(s) == 0 && s[from..] == digits && digits[..|digits|] == digits;
  }

  /** Printing and parsing back is the identity on both 64-bit types; a number beyond the type is a range
      error. */
  lemma {:induction false} PrintParse(n: int)
    ensures INT64_MIN <= n <= INT64_MAX ==> StrToLL(FormatInteger(n)) == Parsed(n, |FormatInteger(n)|)
    ensures 0 <= n <= UINT64_MAX ==> StrToULL(FormatInteger(n)) == Parsed(n, |FormatInteger(n)|)
    ensures INT64_MAX < n || n < INT64_MIN ==> StrToLL(FormatInteger(n)) == RangeError
    ensures UINT64_MAX < n ==> StrToULL(FormatInteger(n)) == RangeError
  {
    ScanPrinted(n);
  }

  // ----- other ways to write a number

  ghost predicate DigitsOf(base: nat, s: string) {
    s != "" && forall i :: 0 <= i < |s| ==> DigitValue(s[i]) < base
  }

  lemma {:induction false} DigitRunOf(base: nat, s: string, rest: string)
    requires base <= 36 && DigitsOf(base, s) && (rest == "" || base <= DigitValue(rest[0]))
    ensures DigitRun(base, s + rest) == |s|
    decreases |s|
  {
    assert (s + rest)[1..] == s[1..] + rest;
    if s[1..] == "" {
      assert s[1..] + rest == rest;
    } else {
      DigitRunOf(base, s[1..], rest);
    }
  }

  lemma {:induction false} SpacesRun(blanks: string, rest: string)
    requires forall i :: 0 <= i < |blanks| ==> IsSpace(blanks[i])
    requires rest != "" && !IsSpace(rest[0])
    ensures SpaceRun(blanks + rest) == |blanks|
  {
    if blanks == "" {
      assert blanks + rest == rest;
    } else {
      assert (blanks + rest)[1..] == blanks[1..] + rest;
      SpacesRun(blanks[1..], rest);
    }
  }

  predicate CompletesPrefix(rest: string) {
    2 <= |rest| && (rest[0] == 'x' || rest[0] == 'X') && DigitValue(rest[1]) < 16
  }

  /** The digits of a number tell its base: behind `0x` or `0X` it is sixteen, behind a zero eight, otherwise
      ten.  What follows, if anything, is not taken for one more digit; nor are a lone zero and an x taken for
      a prefix unless a digit comes after them. */
  ghost predicate Written(prefix: string, digits: string, base: nat, rest: string) {
    && DigitsOf(base, digits) && (rest == "" || base <= DigitValue(rest[0]))
    && if prefix == "0x" || prefix == "0X" then base == 16
       else
         && prefix == ""
         && if digits[0] == '0' then base == 8 && (|digits| == 1 ==> !CompletesPrefix(rest))
            else base == 10
  }

  lemma {:induction false} WrittenBase(prefix: string, digits: string, base: nat, rest: string)
    requires Written(prefix, digits, base, rest)
    ensures Base(prefix + digits + rest) == base
    ensures '0' <= (prefix + digits + rest)[0] <= '9'
  {
    var number := prefix + digits + rest;
    if prefix != "" {
      assert number[0] == '0' && number[1] == prefix[1] && number[2] == digits[0];
    } else {
      assert number == digits + rest && number[0] == digits[0];
      assert 1 < |digits| ==> number[1] == digits[1];
      assert |digits| == 1 && rest != "" ==> number[1] == rest[0];
      assert |digits| == 1 && 2 <= |rest| ==> number[2] == rest[1];
    }
  }

  /** The unsigned part: a number without blanks or sign in front of it. */
  lemma {:induction false} WrittenNumber(prefix: string, digits: string, base: nat, rest: string)
    requires Written(prefix, digits, base, rest)
    ensures var number := prefix + digits + rest;
            && number != "" && '0' <= number[0] <= '9' && Base(number) == base
            && (base == 16 <==> |prefix| == 2) && (base != 16 ==> |prefix| == 0)
            && DigitRun(base, number[|prefix|..]) == |digits| && number[|prefix|..][..|digits|] == digits
  {
    WrittenBase(prefix, digits, base, rest);
    DigitRunOf(base, digits, rest);
    assert prefix + digits + rest == prefix + (digits + rest);
    assert (prefix + (digits + rest))[|prefix|..] == digits + rest;
    assert (digits + rest)[..|digits|] == digits;
  }

  /** The blanks and the sign in front of it. */
  lemma {:induction false} WrittenSign(blanks: string, sign: string, number: string)
    requires forall i :: 0 <= i < |blanks| ==> IsSpace(blanks[i])
    requires (sign == "" || sign == "+" || sign == "-") && number != "" && '0' <= number[0] <= '9'
    ensures var s := blanks + sign + number;
            && SpaceRun(s) == |blanks| < |s|
            && (s[|blanks|] == '+' || s[|blanks|] == '-' <==> sign != "")
            && (s[|blanks|] == '-' <==> sign == "-") && s[|blanks| + |sign|..] == number
  {
    assert blanks + sign + number == blanks + (sign + number);
    SpacesRun(blanks, sign + number);
    assert (blanks + (sign + number))[|blanks|] == (sign + number)[0];
  }

  lemma {:induction false} WrittenStart(blanks: string, sign: string, number: string)
    requires forall i :: 0 <= i < |blanks| ==> IsSpace(blanks[i])
    requires (sign == "" || sign == "+" || sign == "-") && number != "" && '0' <= number[0] <= '9'
    ensures (blanks + sign + number)[0] == '-' <==> blanks == "" && sign == "-"
  {
    if blanks != "" {
      assert (blanks + sign + number)[0] == blanks[0];
    } else {
      assert blanks + sign + number == sign + number;
    }
  }

  lemma {:induction false} ScanBehind(s: string, start: nat, signed: bool, number: string, base: nat, digits: string)
    requires SpaceRun(s) == start < |s| && (s[start] == '+' || s[start] == '-' <==> signed)
    requires number != "" && s[if signed then start + 1 else start..] == number && Base(number) == base && digits != ""
    requires var skip := if base == 16 then 2 else 0;
             skip <= |number| && DigitRun(base, number[skip..]) == |digits| && number[skip..][..|digits|] == digits
    ensures ScanInteger(s) ==
            Scan(s[start] == '-', DigitsValue(base, digits),
                 start + (if signed then 1 else 0) + (if base == 16 then 2 else 0) + |digits|)
  {
    var skip := if base == 16 then 2 else 0;
    var first := if signed then start + 1 else start;
    assert s[first + skip..] == s[first..][skip..] == number[skip..];
  }

  /** A number is read whole, with blanks and a sign in front of it, up to what is no digit of it. */
  lemma {:induction false} ScanWritten(blanks: string, sign: string, prefix: string, digits: string, base: nat,
                                       rest: string)
    requires forall i :: 0 <= i < |blanks| ==> IsSpace(blanks[i])
    requires (sign == "" || sign == "+" || sign == "-") && Written(prefix, digits, base, rest)
    ensures ScanInteger(blanks + sign + (prefix + digits + rest)) ==
            Scan(sign == "-", DigitsValue(base, digits), |blanks| + |sign| + |prefix| + |digits|)
  {
    var number := prefix + digits + rest;
    WrittenNumber(prefix, digits, base, rest);
    WrittenSign(blanks, sign, number);
    ScanBehind(blanks + sign + number, |blanks|, sign != "", number, base, digits);
  }

  /** What is printed is such a number. */
  lemma {:induction false} WrittenDecimal(n: nat)
    requires 0 < n
    ensures Written("", Decimal(n), 10, "") && DigitsValue(10, Decimal(n)) == n
  {
    DecimalShape(n);
  }

  lemma {:induction false} SignedDecimal(blanks: string, n: int)
    requires 0 < n
    ensures blanks + "-" + ("" + Decimal(n) + "") == blanks + FormatInteger(-n)
  {
    assert "" + Decimal(n) + "" == Decimal(n);
    assert blanks + "-" + Decimal(n) == blanks + ("-" + Decimal(n));
  }

  /** Different numbers print differently. */
  lemma {:induction false} FormatInjective(m: int, n: int)
    requires FormatInteger(m) == FormatInteger(n)
    ensures m == n
  {
    ScanPrinted(m);
    ScanPrinted(n);
  }

  function Pow10(k: nat): (r: nat)
    ensures 1 <= r
  {
    if k == 0 then 1 else 10 * Pow10(k - 1)
  }

  lemma {:induction false} Pow10Values()
    ensures Pow10(18) == 1_000_000_000_000_000_000
    ensures Pow10(19) == 10 * Pow10(18) && Pow10(20) == 10 * Pow10(19)
  {
    assert Pow10(6) == 1_000_000;
    assert Pow10(9) == 1_000 * Pow10(6);
    assert Pow10(12) == 1_000 * Pow10(9);
    assert Pow10(15) == 1_000 * Pow10(12);
  }

  lemma {:induction false} DecimalLength(n: nat, k: nat)
    requires 1 <= k && n < Pow10(k)
    ensures |Decimal(n)| <= k
    decreases k
  {
    if 10 <= n {
      assert Pow10(k) == 10 * Pow10(k - 1);
      DecimalLength(n / 10, k - 1);
    }
  }

  /** At most 20 characters for either 64-bit type, so the 32-byte buffer never truncates. */
  lemma {:induction false} FormatFitsBuffer(n: int)
    requires INT64_MIN <= n <= UINT64_MAX
    ensures 1 <= |FormatInteger(n)| <= 20
  {
    Pow10Values();
    DecimalLength(if n < 0 then -n else n, if n < 0 then 19 else 20);
  }

  lemma {:induction false} DecimalAtLeast(n: nat, k: nat)
    requires 1 <= k && Pow10(k - 1) <= n
    ensures k <= |Decimal(n)|
    decreases k
  {
    if 1 < k {
      assert Pow10(k - 1) == 10 * Pow10(k - 2);
      DecimalAtLeast(n / 10, k - 1);
    }
  }

  /** The bound is reached by both types. */
  lemma {:induction false} FormatReachesTwenty()
    ensures |FormatInteger(INT64_MIN)| == 20 && |FormatInteger(UINT64_MAX)| == 20
  {
    Pow10Values();
    DecimalAtLeast(0x8000_0000_0000_0000, 19);
    DecimalAtLeast(UINT64_MAX, 20);
    FormatFitsBuffer(INT64_MIN);
    FormatFitsBuffer(UINT64_MAX);
  }
}
