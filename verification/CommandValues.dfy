/**
 Scalar command values and their conversions.  Every integer conversion goes through a `long double`
 of p significand bits; the reference it is compared with, `Ideal`, never rounds.
 */
module CommandValues {
  import opened Prelude
  import opened LongDouble
  import opened IntegerText

  type int64 = n: int | INT64_MIN <= n <= INT64_MAX
  type uint64 = n: int | 0 <= n <= UINT64_MAX

  /** A double is an integer, or something (a fraction, an infinity, a NaN) no integer conversion takes. */
  datatype Double = Integral(value: int) | NotIntegral(bits: nat)

  datatype CommandValue =
    | Null
    | Text(text: string)
    | Boolean(flag: bool)
    | SignedInteger(signed: int64)
    | UnsignedInteger(unsigned: uint64)
    | FloatingPoint(number: Double)

  const DOUBLE_BITS: nat := 53

  ghost predicate WellFormed(v: CommandValue) {
    v.FloatingPoint? && v.number.Integral? ==> Representable(DOUBLE_BITS, v.number.value)
  }

  /** A conversion succeeds, throws one of two exceptions, or is undefined behaviour. */
  datatype Conversion<+T> = Converted(value: T) | InvalidArgument | OutOfRange | Undefined

  // ----- text form

  function ToString(printDouble: Double -> string, v: CommandValue): string {
    match v
    case Null => "null"
    case Text(s) => s
    case Boolean(b) => if b then "true" else "false"
    case SignedInteger(n) => FormatInteger(n)
    case UnsignedInteger(n) => FormatInteger(n)
    case FloatingPoint(d) => printDouble(d)
  }

  // ----- booleans

  function Lower(s: string): string {
    seq(|s|, i requires 0 <= i < |s| => ToLower(s[i]))
  }

  method EqualsIgnoreCase(value: string, expected: string) returns (equal: bool)
    ensures equal <==> Lower(value) == Lower(expected)
  {
    var index := 0;
    while index < |value| && index < |expected|
      invariant index <= |value| && index <= |expected|
      invariant forall i :: 0 <= i < index ==> ToLower(value[i]) == ToLower(expected[i])
    {
      if ToLower(value[index]) != ToLower(expected[index]) {
        assert Lower(value)[index] != Lower(expected)[index];
        return false;
      }
      index := index + 1;
    }
    equal := index == |value| && index == |expected|;
    if Lower(value) == Lower(expected) {
      assert |Lower(value)| == |Lower(expected)|;
    }
  }

  function AsBoolean(v: CommandValue): Conversion<bool> {
    match v
    case Boolean(b) => Converted(b)
    case SignedInteger(n) => if n == 0 || n == 1 then Converted(n == 1) else InvalidArgument
    case UnsignedInteger(n) => if n == 0 || n == 1 then Converted(n == 1) else InvalidArgument
    case Text(s) =>
      if Lower(s) in ["true", "yes", "on", "high"] || s == "1" then Converted(true)
      else if Lower(s) in ["false", "no", "off", "low"] || s == "0" then Converted(false)
      else InvalidArgument
    case _ => InvalidArgument
  }

  // ----- integers

  datatype Width = W8 | W16 | W32 | W64

  /** An integral target type; `std::numeric_limits` of it. */
  datatype IntegerType = IntegerType(signed: bool, width: Width) {
    function Highest(): int {
      match width
      case W8 => if signed then 0x7F else 0xFF
      case W16 => if signed then 0x7FFF else 0xFFFF
      case W32 => if signed then 0x7FFF_FFFF else 0xFFFF_FFFF
      case W64 => if signed then INT64_MAX else UINT64_MAX
    }
    function Lowest(): int {
      if signed then -Highest() - 1 else 0
    }
    predicate Fits(n: int) {
      Lowest() <= n <= Highest()
    }
  }

  const LongLong := IntegerType(true, W64)
  const UnsignedLongLong := IntegerType(false, W64)

  /** The integer a value stands for when the target has the given signedness, before any rounding. */
  function IntegerSource(signedTarget: bool, v: CommandValue): Conversion<int> {
    match v
    case Null => InvalidArgument
    case Boolean(b) => Converted(if b then 1 else 0)
    case SignedInteger(n) => Converted(n)
    case UnsignedInteger(n) => Converted(n)
    case FloatingPoint(d) => if d.Integral? then Converted(d.value) else InvalidArgument
    case Text(s) =>
      if !signedTarget && s != "" && s[0] == '-' then OutOfRange
      else
        var parsed := if signedTarget then StrToLL(s) else StrToULL(s);
        if parsed.RangeError? then OutOfRange
        else if parsed.end != |s| then InvalidArgument
        else Converted(parsed.value)
  }

  /** `As<T>`: the source is cast to long double, compared with the cast limits of T, and cast to T.
      The last cast is undefined behaviour when the long double is not a value of T. */
  function AsInteger(p: nat, t: IntegerType, v: CommandValue): Conversion<int> {
    var source := IntegerSource(t.signed, v);
    if !source.Converted? then source
    else
      var numeric := Round(p, source.value);
      if numeric < Round(p, t.Lowest()) || Round(p, t.Highest()) < numeric then OutOfRange
      else if t.Fits(numeric) then Converted(numeric)
      else Undefined
  }

  /** The conversion without the detour: the number itself when it fits. */
  function Ideal(t: IntegerType, v: CommandValue): Conversion<int> {
    var source := IntegerSource(t.signed, v);
    if source.Converted? && !t.Fits(source.value) then OutOfRange else source
  }

  // ----- what the values mean

  const TRUE_WORDS := {"true", "yes", "on", "high"}
  const FALSE_WORDS := {"false", "no", "off", "low"}

  /** What counts as a boolean: a boolean, the integers one and zero, the digits for them, and four words for
      either, in any case; nothing else. */
  lemma {:induction false} BooleanMeaning(v: CommandValue, meaning: bool)
    ensures AsBoolean(v) == Converted(meaning) <==>
            match v
            case Boolean(b) => b == meaning
            case SignedInteger(n) => n == if meaning then 1 else 0
            case UnsignedInteger(n) => n == if meaning then 1 else 0
            case Text(s) =>
              s == (if meaning then "1" else "0") || Lower(s) in if meaning then TRUE_WORDS else FALSE_WORDS
            case _ => false
    ensures AsBoolean(v).Converted? || AsBoolean(v) == InvalidArgument
  {
    if v.Text? {
      var s := v.text;
      assert Lower("1") == "1" && Lower("0") == "0";
    }
  }

  /** Only the 26 letters have a case to be ignored. */
  lemma {:induction false} LowerOfLetter(c: char, k: nat)
    ensures k < 26 && c == UPPER_LETTERS[k] ==> ToLower(c) == LOWER_LETTERS[k]
    ensures c !in UPPER_LETTERS ==> ToLower(c) == c
  {
    if k < 26 {
      assert UPPER_LETTERS[k] == (k + 'A' as int) as char && LOWER_LETTERS[k] == (k + 'a' as int) as char;
    }
    if 'A' <= c <= 'Z' {
      assert UPPER_LETTERS[c as int - 'A' as int] == c;
    }
  }

  /** The text of a value: what a text holds, a word for null and the booleans, and for an integer the text
      that means it. */
  lemma {:induction false} TextForm(printDouble: Double -> string, v: CommandValue)
    ensures ToString(printDouble, v) ==
            match v
            case Null => "null"
            case Text(s) => s
            case Boolean(b) => if b then "true" else "false"
            case SignedInteger(n) => FormatInteger(n)
            case UnsignedInteger(n) => FormatInteger(n)
            case FloatingPoint(d) => printDouble(d)
  {
  }

  /** The number a value other than text stands for. */
  predicate Denotes(v: CommandValue, n: int) {
    || (v == Boolean(true) && n == 1) || (v == Boolean(false) && n == 0)
    || (v.SignedInteger? && v.signed == n) || (v.UnsignedInteger? && v.unsigned == n)
    || v == FloatingPoint(Integral(n))
  }

  /** What counts as an integer besides text: booleans as one and zero, integers and whole doubles as
      themselves; null and other doubles do not. */
  lemma {:induction false} IntegerMeaning(t: IntegerType, v: CommandValue, n: int)
    requires !v.Text?
    ensures Ideal(t, v) == Converted(n) <==> t.Fits(n) && Denotes(v, n)
    ensures Ideal(t, v) == InvalidArgument <==> forall m :: !Denotes(v, m)
  {
    match v {
      case Boolean(b) => assert Denotes(v, if b then 1 else 0);
      case SignedInteger(m) => assert Denotes(v, m);
      case UnsignedInteger(m) => assert Denotes(v, m);
      case FloatingPoint(d) => assert d.Integral? ==> Denotes(v, d.value);
      case _ =>
    }
  }

  lemma {:induction false} ScannedForSigned(s: string, n: int)
    requires n == if ScanInteger(s).negative then -(ScanInteger(s).magnitude as int) else ScanInteger(s).magnitude
    ensures IntegerSource(true, Text(s)) ==
            if !(INT64_MIN <= n <= INT64_MAX) then OutOfRange
            else if ScanInteger(s).end != |s| then InvalidArgument
            else Converted(n)
  {
  }

  lemma {:induction false} ScannedForUnsigned(s: string, negative: bool, magnitude: nat, end: nat)
    requires s != "" && ScanInteger(s) == Scan(negative, magnitude, end)
    ensures IntegerSource(false, Text(s)) ==
            if s[0] == '-' || UINT64_MAX < magnitude then OutOfRange
            else if end != |s| then InvalidArgument
            else Converted(if negative then (-(magnitude as int)) % (UINT64_MAX + 1) else magnitude)
  {
  }

  /** Text for a signed target: blanks, a sign or none, and a number in base ten, eight or sixteen.  It must be
      the whole text and lie within 64 bits. */
  lemma {:induction false} WrittenForSigned(blanks: string, sign: string, prefix: string, digits: string, base: nat,
                                            rest: string)
    requires forall i :: 0 <= i < |blanks| ==> IsSpace(blanks[i])
    requires (sign == "" || sign == "+" || sign == "-") && Written(prefix, digits, base, rest)
    ensures var magnitude: int := DigitsValue(base, digits);
            var n := if sign == "-" then -magnitude else magnitude;
            IntegerSource(true, Text(blanks + sign + (prefix + digits + rest))) ==
            if !(INT64_MIN <= n <= INT64_MAX) then OutOfRange
            else if rest != "" then InvalidArgument
            else Converted(n)
  {
    var s := blanks + sign + (prefix + digits + rest);
    var magnitude: int := DigitsValue(base, digits);
    ScanWritten(blanks, sign, prefix, digits, base, rest);
    ScannedForSigned(s, if sign == "-" then -magnitude else magnitude);
  }

  /** Text for an unsigned target: the same, but a minus sign at the very start is turned away, and one behind
      blanks negates modulo 2^64. */
  lemma {:induction false} WrittenForUnsigned(blanks: string, sign: string, prefix: string, digits: string, base: nat,
                                              rest: string)
    requires forall i :: 0 <= i < |blanks| ==> IsSpace(blanks[i])
    requires (sign == "" || sign == "+" || sign == "-") && Written(prefix, digits, base, rest)
    ensures var magnitude: int := DigitsValue(base, digits);
            IntegerSource(false, Text(blanks + sign + (prefix + digits + rest))) ==
            if blanks == "" && sign == "-" then OutOfRange
            else if UINT64_MAX < magnitude then OutOfRange
            else if rest != "" then InvalidArgument
            else Converted(if sign == "-" then (-magnitude) % (UINT64_MAX + 1) else magnitude)
  {
    WrittenBase(prefix, digits, base, rest);
    WrittenStart(blanks, sign, prefix + digits + rest);
    ScanWritten(blanks, sign, prefix, digits, base, rest);
    ScannedForUnsigned(blanks + sign + (prefix + digits + rest), sign == "-", DigitsValue(base, digits),
                       |blanks| + |sign| + |prefix| + |digits|);
  }

  // ----- the limits of the types

  lemma {:induction false} Powers()
    ensures Pow2(32) == 0x1_0000_0000 && Pow2(53) == 0x20_0000_0000_0000
    ensures Pow2(63) == INT64_MAX + 1 && Pow2(64) == UINT64_MAX + 1
  {
    assert Pow2(8) == 0x100;
    assert Pow2(16) == 0x100 * Pow2(8);
    assert Pow2(24) == 0x100 * Pow2(16);
    assert Pow2(32) == 0x100 * Pow2(24);
    assert Pow2(40) == 0x100 * Pow2(32);
    assert Pow2(48) == 0x100 * Pow2(40);
    assert Pow2(53) == 0x20 * Pow2(48);
    assert Pow2(56) == 0x8 * Pow2(53);
    assert Pow2(63) == 0x80 * Pow2(56);
  }

  /** How far a significand of p bits reaches. */
  lemma {:induction false} Reach(p: nat)
    ensures 32 <= p ==> 0x1_0000_0000 <= Pow2(p)
    ensures 53 <= p ==> 0x20_0000_0000_0000 <= Pow2(p)
    ensures 63 <= p ==> INT64_MAX + 1 <= Pow2(p)
    ensures 64 <= p ==> UINT64_MAX + 1 <= Pow2(p)
  {
    Powers();
    if 32 <= p { Pow2Monotone(32, p); }
    if 53 <= p { Pow2Monotone(53, p); }
    if 63 <= p { Pow2Monotone(63, p); }
    if 64 <= p { Pow2Monotone(64, p); }
  }

  /** The limits are those of the bits a type has. */
  lemma {:induction false} LimitsArePowers(t: IntegerType)
    ensures var bits := match t.width case W8 => 8 case W16 => 16 case W32 => 32 case W64 => 64;
            && t.Highest() + 1 == Pow2(if t.signed then bits - 1 else bits)
            && t.Lowest() == if t.signed then -(Pow2(bits - 1) as int) else 0
  {
    Powers();
    assert Pow2(8) == 0x100;
    assert Pow2(16) == 0x100 * Pow2(8);
    assert Pow2(24) == 0x100 * Pow2(16);
    assert Pow2(32) == 2 * Pow2(31);
  }

  /** The values of a narrow type, and their outer neighbours, are exact in any long double. */
  lemma {:induction false} NarrowExact(p: nat, t: IntegerType, n: int)
    requires 32 <= p && t.width != W64 && t.Lowest() - 1 <= n <= t.Highest() + 1
    ensures Round(p, n) == n
  {
    Reach(p);
    RoundExact(p, n);
  }

  lemma {:induction false} RoundBeyond(p: nat, n: int, bound: int)
    requires 1 <= p && Round(p, bound) == bound
    ensures n <= bound ==> Round(p, n) <= bound
    ensures bound <= n ==> bound <= Round(p, n)
  {
    if n <= bound {
      RoundMonotone(p, n, bound);
    }
    if bound <= n {
      RoundMonotone(p, bound, n);
    }
  }

  // ----- conversions to narrow types are exact

  lemma {:induction false} NarrowRound(p: nat, t: IntegerType, n: int)
    requires 32 <= p && t.width != W64
    ensures Round(p, t.Lowest()) == t.Lowest() && Round(p, t.Highest()) == t.Highest()
    ensures t.Fits(n) ==> Round(p, n) == n
    ensures n < t.Lowest() ==> Round(p, n) < t.Lowest()
    ensures t.Highest() < n ==> t.Highest() < Round(p, n)
  {
    NarrowExact(p, t, t.Lowest());
    NarrowExact(p, t, t.Highest());
    if t.Fits(n) {
      NarrowExact(p, t, n);
    } else if n < t.Lowest() {
      NarrowExact(p, t, t.Lowest() - 1);
      RoundBeyond(p, n, t.Lowest() - 1);
    } else {
      NarrowExact(p, t, t.Highest() + 1);
      RoundBeyond(p, n, t.Highest() + 1);
    }
  }

  lemma {:induction false} NarrowConversionExact(p: nat, t: IntegerType, v: CommandValue)
    requires 32 <= p && t.width != W64
    ensures AsInteger(p, t, v) == Ideal(t, v)
  {
    var source := IntegerSource(t.signed, v);
    if source.Converted? {
      NarrowRound(p, t, source.value);
    }
  }

  // ----- conversions to 64-bit types are exact where the long double is

  /** A power of two is exact in any long double. */
  lemma {:induction false} PowerExact(p: nat, k: nat)
    requires 1 <= p
    ensures Round(p, Pow2(k)) == Pow2(k) && Round(p, -(Pow2(k) as int)) == -(Pow2(k) as int)
  {
    ScaledPow2(0, k);
    assert Pow2(0) == 1 < Pow2(p);
    assert Scaled(1, k) == Abs(Pow2(k)) == Abs(-(Pow2(k) as int));
    RoundFixesRepresentable(p, Pow2(k));
    RoundFixesRepresentable(p, -(Pow2(k) as int));
  }

  lemma {:induction false} TopPowerExact(p: nat)
    requires 1 <= p
    ensures Round(p, INT64_MAX + 1) == INT64_MAX + 1 && Round(p, INT64_MIN) == INT64_MIN
  {
    Powers();
    PowerExact(p, 63);
  }

  lemma {:induction false} LowestExact(p: nat, t: IntegerType)
    requires 1 <= p && t.width == W64
    ensures Round(p, t.Lowest()) == t.Lowest()
  {
    TopPowerExact(p);
    RoundExact(p, 0);
  }

  /** A number that fits comes back unchanged iff the long double can hold it; if not, it comes back
      as its nearest neighbour, or the conversion is undefined because that neighbour is past the type. */
  lemma {:induction false} WideConversion(p: nat, t: IntegerType, v: CommandValue, n: int)
    requires 1 <= p && t.width == W64 && IntegerSource(t.signed, v) == Converted(n) && t.Fits(n)
    ensures AsInteger(p, t, v) == Converted(n) <==> Representable(p, n)
    ensures Abs(n) <= Pow2(p) ==> AsInteger(p, t, v) == Converted(n)
    ensures AsInteger(p, t, v) == Undefined <==> t.Highest() < Round(p, n)
    ensures AsInteger(p, t, v) != OutOfRange
  {
    LowestExact(p, t);
    RoundMonotone(p, t.Lowest(), n);
    RoundMonotone(p, n, t.Highest());
    RoundFixesRepresentable(p, n);
    if Abs(n) <= Pow2(p) {
      RoundExact(p, n);
    }
  }

  lemma {:induction false} WideRound(p: nat, t: IntegerType, v: CommandValue, n: int)
    requires t.width == W64 && (if t.signed then 63 else 64) <= p && WellFormed(v)
    requires IntegerSource(t.signed, v) == Converted(n)
    ensures Round(p, t.Lowest()) == t.Lowest() && Round(p, t.Highest()) == t.Highest()
    ensures t.Fits(n) ==> Round(p, n) == n
    ensures n < t.Lowest() ==> Round(p, n) < t.Lowest()
    ensures t.Highest() < n ==> t.Highest() < Round(p, n)
  {
    Reach(p);
    LowestExact(p, t);
    RoundExact(p, t.Highest());
    if t.Fits(n) {
      RoundExact(p, n);
    } else if t.Highest() < n {
      RoundExact(p, t.Highest() + 1);
      RoundBeyond(p, n, t.Highest() + 1);
    } else if t.signed {
      RepresentableWider(DOUBLE_BITS, p, n);
      RoundFixesRepresentable(p, n);
    } else {
      RoundExact(p, -1);
      RoundBeyond(p, n, -1);
    }
  }

  lemma {:induction false} WideExactWhenWide(p: nat, t: IntegerType, v: CommandValue)
    requires t.width == W64 && (if t.signed then 63 else 64) <= p && WellFormed(v)
    ensures AsInteger(p, t, v) == Ideal(t, v)
  {
    var source := IntegerSource(t.signed, v);
    if source.Converted? {
      WideRound(p, t, v, source.value);
    }
  }

  /** The largest value of the type. */
  function Largest(t: IntegerType): CommandValue
    requires t.width == W64
  {
    if t.signed then SignedInteger(INT64_MAX) else UnsignedInteger(UINT64_MAX)
  }

  lemma {:induction false} HighestRoundsUp(p: nat, t: IntegerType)
    requires t.width == W64 && 1 <= p < if t.signed then 63 else 64
    ensures Round(p, t.Highest()) == t.Highest() + 1
  {
    Powers();
    if t.signed {
      RoundAllOnes(p, 63 - p);
    } else {
      RoundAllOnes(p, 64 - p);
    }
  }

  lemma {:induction false} WideUndefinedWhenNarrow(p: nat, t: IntegerType)
    requires t.width == W64 && 1 <= p < if t.signed then 63 else 64
    ensures AsInteger(p, t, Largest(t)) == Undefined
  {
    HighestRoundsUp(p, t);
    WideConversion(p, t, Largest(t), t.Highest());
  }

  /** A 64-bit conversion is right on every value exactly when the long double has a significand bit
      for every value bit of the type.  Where `long double` is `double` it is not: the largest value
      itself is undefined behaviour. */
  lemma {:induction false} WideConversionExactIff(p: nat, t: IntegerType)
    requires t.width == W64 && 1 <= p
    ensures (forall v :: WellFormed(v) ==> AsInteger(p, t, v) == Ideal(t, v))
            <==> (if t.signed then 63 else 64) <= p
  {
    if (if t.signed then 63 else 64) <= p {
      forall v | WellFormed(v) ensures AsInteger(p, t, v) == Ideal(t, v) {
        WideExactWhenWide(p, t, v);
      }
    } else {
      WideUndefinedWhenNarrow(p, t);
      assert WellFormed(Largest(t)) && Ideal(t, Largest(t)) == Converted(t.Highest());
    }
  }

  // ----- text and native sources

  ghost predicate NativeInteger(v: CommandValue, n: int) {
    (v.SignedInteger? && v.signed == n) || (v.UnsignedInteger? && v.unsigned == n)
  }

  lemma {:induction false} FormatSign(n: int)
    ensures FormatInteger(n) != "" && (FormatInteger(n)[0] == '-' <==> n < 0)
  {
    DecimalShape(if n < 0 then -n else n);
  }

  lemma {:induction false} PrintedSource(signedTarget: bool, n: int)
    requires INT64_MIN <= n <= UINT64_MAX
    ensures IntegerSource(signedTarget, Text(FormatInteger(n))) ==
            if (if signedTarget then INT64_MAX < n else n < 0) then OutOfRange else Converted(n)
  {
    PrintParse(n);
    FormatSign(n);
  }

  lemma {:induction false} NarrowTextAgrees(p: nat, t: IntegerType, v: CommandValue, n: int)
    requires 32 <= p && INT64_MIN <= n <= UINT64_MAX && NativeInteger(v, n) && t.width != W64
    ensures AsInteger(p, t, Text(FormatInteger(n))) == AsInteger(p, t, v)
  {
    PrintedSource(t.signed, n);
    NarrowConversionExact(p, t, v);
    NarrowConversionExact(p, t, Text(FormatInteger(n)));
    assert Ideal(t, v) == if t.Fits(n) then Converted(n) else OutOfRange;
  }

  /** Above the signed range the text is out of range; the native form only if it rounds past the limit. */
  lemma {:induction false} SignedOverflow(p: nat, v: CommandValue, n: int)
    requires 32 <= p && INT64_MAX < n <= UINT64_MAX && NativeInteger(v, n)
    ensures AsInteger(p, LongLong, Text(FormatInteger(n))) == OutOfRange
    ensures AsInteger(p, LongLong, v) == if Round(p, n) <= Round(p, INT64_MAX) then Undefined else OutOfRange
  {
    PrintedSource(true, n);
    TopPowerExact(p);
    RoundBeyond(p, n, INT64_MAX + 1);
    assert IntegerSource(true, v) == Converted(n);
    assert LongLong.Lowest() == INT64_MIN && LongLong.Highest() == INT64_MAX;
  }

  lemma {:induction false} NegativeToUnsigned(p: nat, v: CommandValue, n: int)
    requires 32 <= p && INT64_MIN <= n < 0 && NativeInteger(v, n)
    ensures AsInteger(p, UnsignedLongLong, Text(FormatInteger(n))) == OutOfRange
    ensures AsInteger(p, UnsignedLongLong, v) == OutOfRange
  {
    PrintedSource(false, n);
    RoundExact(p, -1);
    RoundExact(p, 0);
    RoundBeyond(p, n, -1);
  }

  /** A number converts alike from its native form and from its printed form, with one exception: a
      number above the signed range that a 64-bit signed conversion rounds no further up than the
      limit itself.  There the text is out of range and the native form is undefined behaviour. */
  lemma {:induction false} TextAgreesWithNative(p: nat, t: IntegerType, v: CommandValue, n: int)
    requires 32 <= p && INT64_MIN <= n <= UINT64_MAX && NativeInteger(v, n)
    ensures AsInteger(p, t, Text(FormatInteger(n))) == AsInteger(p, t, v)
            <==> !(t == LongLong && INT64_MAX < n && Round(p, n) <= Round(p, INT64_MAX))
  {
    if t.width != W64 {
      NarrowTextAgrees(p, t, v, n);
    } else if t.signed && INT64_MAX < n {
      SignedOverflow(p, v, n);
    } else if !t.signed && n < 0 {
      NegativeToUnsigned(p, v, n);
    } else {
      PrintedSource(t.signed, n);
    }
  }

  // ----- two texts that convert although no reader would call them such integers

  /** A text without digits is rejected unless it is empty: the scan then stops where it started,
      and that is also the end, so the empty text converts to zero. */
  lemma {:induction false} DigitlessText(signedTarget: bool, s: string)
    requires ScanInteger(s).end == 0
    ensures IntegerSource(signedTarget, Text(s)).Converted? <==> s == ""
    ensures s == "" ==> IntegerSource(signedTarget, Text(s)) == Converted(0)
  {
    if s == "" {
      assert ScanInteger(s) == Scan(false, 0, 0);
    }
  }

  /** The guard against negative text for unsigned targets looks at the first character only.  A
      negative number is turned away exactly when nothing stands before its sign; behind a blank it
      converts, wrapped around. */
  lemma {:induction false} NegativeTextGuard(s: string)
    requires ScanInteger(s).negative && ScanInteger(s).end == |s| && ScanInteger(s).magnitude <= UINT64_MAX
    ensures IntegerSource(false, Text(s)) == OutOfRange <==> !IsSpace(s[0])
    ensures IsSpace(s[0]) && ScanInteger(s).magnitude != 0 ==>
              IntegerSource(false, Text(s)) == Converted(UINT64_MAX + 1 - ScanInteger(s).magnitude)
  {
    assert s[SpaceRun(s)] == '-';
  }

  lemma WrappedAround(m: int)
    requires 0 < m <= UINT64_MAX
    ensures (-m) % (UINT64_MAX + 1) == UINT64_MAX + 1 - m
  {
    assert -m == -1 * (UINT64_MAX + 1) + (UINT64_MAX + 1 - m);
  }

  /** Any number written behind a minus sign meets that guard, or wraps around. */
  lemma {:induction false} MinusWraps(blanks: string, sign: string, prefix: string, digits: string, base: nat,
                                      rest: string)
    requires forall i :: 0 <= i < |blanks| ==> IsSpace(blanks[i])
    requires sign == "-" && rest == "" && Written(prefix, digits, base, rest)
    requires 0 < DigitsValue(base, digits) <= UINT64_MAX
    ensures IntegerSource(false, Text(blanks + sign + (prefix + digits + rest))) ==
            if blanks == "" then OutOfRange else Converted(UINT64_MAX + 1 - DigitsValue(base, digits))
  {
    WrittenForUnsigned(blanks, sign, prefix, digits, base, rest);
    WrappedAround(DigitsValue(base, digits));
  }

  lemma {:induction false} BlankThenMinusWraps(blanks: string, n: int)
    requires 0 < n <= UINT64_MAX && forall i :: 0 <= i < |blanks| ==> IsSpace(blanks[i])
    ensures IntegerSource(false, Text(blanks + FormatInteger(-n))) ==
            if blanks == "" then OutOfRange else Converted(UINT64_MAX + 1 - n)
  {
    var sign, nothing, base: nat :| sign == "-" && nothing == "" && base == 10;
    WrittenDecimal(n);
    SignedDecimal(blanks, n);
    MinusWraps(blanks, sign, nothing, Decimal(n), base, nothing);
  }

  // ----- booleans, native and printed

  /** A printed number starts with a digit or a minus sign, so it is none of the words. */
  lemma {:induction false} NumberIsNoWord(n: int)
    ensures Lower(FormatInteger(n)) != "" && !('a' <= Lower(FormatInteger(n))[0] <= 'z')
    ensures FormatInteger(n) == "1" <==> n == 1
    ensures FormatInteger(n) == "0" <==> n == 0
  {
    DecimalShape(if n < 0 then -n else n);
    assert FormatInteger(1) == "1" && FormatInteger(0) == "0";
    if FormatInteger(n) == "1" { FormatInjective(n, 1); }
    if FormatInteger(n) == "0" { FormatInjective(n, 0); }
  }

  /** Case does not matter to a number: no letter prints like a digit. */
  lemma {:induction false} LowerOfNumber(n: int, s: string)
    requires Lower(s) == Lower(FormatInteger(n))
    ensures s == FormatInteger(n)
  {
    var text := FormatInteger(n);
    DecimalShape(if n < 0 then -n else n);
    assert |s| == |Lower(s)| == |Lower(text)| == |text|;
    forall i | 0 <= i < |s| ensures s[i] == text[i] {
      assert Lower(s)[i] == ToLower(s[i]) && Lower(text)[i] == ToLower(text[i]);
      assert text[i] == '-' || '0' <= text[i] <= '9';
    }
  }

  lemma {:induction false} NumberAsBoolean(n: int, shouted: string)
    requires Lower(shouted) == Lower(FormatInteger(n))
    ensures AsBoolean(Text(shouted)) == if n == 0 || n == 1 then Converted(n == 1) else InvalidArgument
  {
    NumberIsNoWord(n);
    LowerOfNumber(n, shouted);
    assert Lower(shouted)[0] !in "tyohfnl";
  }

  /** A boolean, and an integer, converts to a boolean alike from its native form and from its text, in
      whatever case: only `true`, `false`, 0 and 1 do. */
  lemma {:induction false} BooleanTextAgrees(printDouble: Double -> string, v: CommandValue, shouted: string)
    requires v.Boolean? || v.SignedInteger? || v.UnsignedInteger?
    requires Lower(shouted) == Lower(ToString(printDouble, v))
    ensures AsBoolean(Text(shouted)) == AsBoolean(v)
  {
    if v.Boolean? {
      assert Lower("true") == "true" && Lower("false") == "false";
    } else {
      NumberAsBoolean(if v.SignedInteger? then v.signed else v.unsigned, shouted);
    }
  }
}
