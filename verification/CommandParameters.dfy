/** Parameter descriptors: which keys name them, and which values they accept. */
module CommandParameters {
  import opened Prelude
  import opened LongDouble
  import opened CommandValues

  datatype ParameterKind = KString | KBoolean | KSignedInteger | KUnsignedInteger | KFloatingPoint | KEnumeration

  /** Inclusive bounds; finite long doubles. */
  datatype Range = Range(minimum: real, maximum: real)

  datatype Validator = Validator(accepts: string -> bool, message: string)

  datatype CommandParameter = CommandParameter(
    name: string,
    kind: ParameterKind,
    required: bool,
    namedOnly: bool,
    default: Option<string>,
    range: Option<Range>,
    aliases: seq<string>,
    choices: seq<string>,
    validator: Option<Validator>)
  {
    predicate Matches(key: string) {
      key == name || key in aliases
    }
  }

  datatype Validity =
    | Valid
    | Malformed                  // As<T> threw
    | OutsideRange
    | NotAChoice
    | Rejected(message: string)  // by the validator
    | UndefinedConversion

  /** What the target platform contributes: the significand of its long double, and the printing and
      parsing of floating point, which are not modelled further. */
  datatype Platform = Platform(
    bits: nat,
    printDouble: Double -> string,
    checkFloating: (CommandValue, Option<Range>) -> Validity)

  function InRange(platform: Platform, converted: Conversion<int>, range: Option<Range>): Validity {
    match converted
    case InvalidArgument => Malformed
    case OutOfRange => Malformed
    case Undefined => UndefinedConversion
    case Converted(n) =>
      var numeric := Round(platform.bits, n) as real;
      if range.Some? && (numeric < range.value.minimum || numeric > range.value.maximum) then OutsideRange
      else Valid
  }

  function CheckKind(platform: Platform, parameter: CommandParameter, value: CommandValue): Validity {
    match parameter.kind
    case KBoolean => if AsBoolean(value).Converted? then Valid else Malformed
    case KSignedInteger => InRange(platform, AsInteger(platform.bits, LongLong, value), parameter.range)
    case KUnsignedInteger => InRange(platform, AsInteger(platform.bits, UnsignedLongLong, value), parameter.range)
    case KFloatingPoint => platform.checkFloating(value, parameter.range)
    case KString => if value.Null? then Malformed else Valid
    case KEnumeration => if value.Null? then Malformed else Valid
  }

  /** Validation answers with an error text, and the empty text means valid; so a validator whose
      message is empty never turns anything away. */
  function Validate(platform: Platform, parameter: CommandParameter, value: CommandValue): Validity {
    var kindCheck := CheckKind(platform, parameter, value);
    if kindCheck != Valid then kindCheck
    else
      var text := ToString(platform.printDouble, value);
      if parameter.choices != [] && text !in parameter.choices then NotAChoice
      else if parameter.validator.Some? && !parameter.validator.value.accepts(text)
              && parameter.validator.value.message != "" then Rejected(parameter.validator.value.message)
      else Valid
  }

  // ----- what validation accepts

  predicate IntegerKind(kind: ParameterKind, signed: bool) {
    kind == if signed then KSignedInteger else KUnsignedInteger
  }

  predicate Admits(range: Option<Range>, n: int) {
    range.None? || range.value.minimum <= n as real <= range.value.maximum
  }

  /** The text is one of the choices, where there are any, and the validator does not turn it away. */
  predicate TextAllowed(parameter: CommandParameter, text: string) {
    && (parameter.choices == [] || exists k :: 0 <= k < |parameter.choices| && parameter.choices[k] == text)
    && (parameter.validator.None? || parameter.validator.value.accepts(text) || parameter.validator.value.message == "")
  }

  predicate IsText(kind: ParameterKind) {
    kind == KString || kind == KEnumeration
  }

  lemma {:induction false} ChoiceListed(parameter: CommandParameter, text: string)
    ensures text in parameter.choices <==> exists k :: 0 <= k < |parameter.choices| && parameter.choices[k] == text
  {
  }

  /** A value for a string or an enumeration is valid exactly when it is not null and its text is allowed. */
  lemma {:induction false} ValidTextIff(platform: Platform, parameter: CommandParameter, value: CommandValue)
    requires IsText(parameter.kind)
    ensures Validate(platform, parameter, value) == Valid <==>
            !value.Null? && TextAllowed(parameter, ToString(platform.printDouble, value))
    ensures value.Text? ==> ToString(platform.printDouble, value) == value.text
  {
    ChoiceListed(parameter, ToString(platform.printDouble, value));
  }

  /** A value for a boolean is valid exactly when it converts and its text is allowed. */
  lemma {:induction false} ValidBooleanIff(platform: Platform, parameter: CommandParameter, value: CommandValue)
    requires parameter.kind == KBoolean
    ensures Validate(platform, parameter, value) == Valid <==>
            AsBoolean(value).Converted? && TextAllowed(parameter, ToString(platform.printDouble, value))
  {
    ChoiceListed(parameter, ToString(platform.printDouble, value));
  }

  /** What comes out of a conversion is exact, so casting it to long double again changes nothing. */
  lemma {:induction false} ConvertedIsExact(p: nat, t: IntegerType, value: CommandValue)
    requires 1 <= p
    ensures AsInteger(p, t, value).Converted? ==> Round(p, AsInteger(p, t, value).value) == AsInteger(p, t, value).value
  {
    var source := IntegerSource(t.signed, value);
    if source.Converted? {
      RoundFixesRepresentable(p, source.value);
    }
  }

  /** A value for an integer is valid exactly when it converts to 64 bits, inside the range, and its text is
      allowed. */
  lemma {:induction false} ValidIntegerIff(platform: Platform, parameter: CommandParameter, value: CommandValue,
                                           signed: bool)
    requires 1 <= platform.bits && IntegerKind(parameter.kind, signed)
    ensures var wide := AsInteger(platform.bits, IntegerType(signed, W64), value);
            Validate(platform, parameter, value) == Valid <==>
            && wide.Converted? && Admits(parameter.range, wide.value)
            && TextAllowed(parameter, ToString(platform.printDouble, value))
  {
    ConvertedIsExact(platform.bits, IntegerType(signed, W64), value);
    ChoiceListed(parameter, ToString(platform.printDouble, value));
  }

  /** Whatever the kind, a valid value has an allowed text. */
  lemma {:induction false} ValidIsAllowed(platform: Platform, parameter: CommandParameter, value: CommandValue)
    requires Validate(platform, parameter, value) == Valid
    ensures TextAllowed(parameter, ToString(platform.printDouble, value))
  {
    ChoiceListed(parameter, ToString(platform.printDouble, value));
  }

  /** Which refusal comes first: that of the kind, then that of the choices, then the validator's. */
  lemma {:induction false} RefusalOrder(platform: Platform, parameter: CommandParameter, value: CommandValue)
    ensures var text, kindOnly := ToString(platform.printDouble, value),
                                  parameter.(choices := [], validator := None);
            var refusal := Validate(platform, kindOnly, value);
            if refusal != Valid then Validate(platform, parameter, value) == refusal
            else if parameter.choices != [] && forall k :: 0 <= k < |parameter.choices| ==> parameter.choices[k] != text
            then Validate(platform, parameter, value) == NotAChoice
            else if !TextAllowed(parameter, text)
            then Validate(platform, parameter, value) == Rejected(parameter.validator.value.message)
            else Validate(platform, parameter, value) == Valid
  {
    ChoiceListed(parameter, ToString(platform.printDouble, value));
  }

  /** The refusals of an integer: text or values that do not convert are malformed, numbers beyond the limits
      are outside the range, the limits themselves are inside. */
  lemma {:induction false} IntegerRefusals(platform: Platform, parameter: CommandParameter, value: CommandValue,
                                           signed: bool)
    requires 1 <= platform.bits && IntegerKind(parameter.kind, signed)
    ensures var wide := AsInteger(platform.bits, IntegerType(signed, W64), value);
            && (wide == InvalidArgument || wide == OutOfRange ==> Validate(platform, parameter, value) == Malformed)
            && (wide.Converted? ==>
                  (Validate(platform, parameter, value) == OutsideRange <==> !Admits(parameter.range, wide.value)))
  {
    ConvertedIsExact(platform.bits, IntegerType(signed, W64), value);
  }

  // ----- a validated integer can be fetched

  /** Every number that validation can see in the range is a value of the type. */
  ghost predicate RangeWithin(p: nat, range: Option<Range>, t: IntegerType) {
    forall n :: IntegerType(t.signed, W64).Fits(n) && Representable(p, n) && Admits(range, n) ==> t.Fits(n)
  }

  /** A 64-bit conversion that lands in a narrower type of the same signedness lands there alike. */
  lemma {:induction false} NarrowFollowsWide(p: nat, t: IntegerType, value: CommandValue, n: int)
    requires 32 <= p && t.width != W64 && t.Fits(n)
    requires AsInteger(p, IntegerType(t.signed, W64), value) == Converted(n)
    ensures AsInteger(p, t, value) == Converted(n)
    ensures Round(p, n) == n
  {
    NarrowRound(p, t, n);
  }

  /** What validation passes is a representable number of 64 bits inside the range. */
  lemma {:induction false} ValidInRange(platform: Platform, parameter: CommandParameter, t: IntegerType,
                                        value: CommandValue) returns (n: int)
    requires 32 <= platform.bits && IntegerKind(parameter.kind, t.signed)
    requires Validate(platform, parameter, value) == Valid
    ensures AsInteger(platform.bits, IntegerType(t.signed, W64), value) == Converted(n)
    ensures IntegerType(t.signed, W64).Fits(n) && Representable(platform.bits, n) && Admits(parameter.range, n)
  {
    var p := platform.bits;
    var source := IntegerSource(t.signed, value);
    var wide := AsInteger(p, IntegerType(t.signed, W64), value);
    assert InRange(platform, wide, parameter.range) == Valid;
    n := wide.value;
    RoundFixesRepresentable(p, source.value);
    RoundIsNearest(p, source.value);
  }

  /** Validation converts to 64 bits and checks the range there.  When that leaves only values of a
      narrower type of the same signedness, fetching the value as that type succeeds, inside the range,
      and yields the very number validation saw; whatever the source of the value. */
  lemma {:induction false} ValidatedIntegerConverts(platform: Platform, parameter: CommandParameter, t: IntegerType,
                                                    value: CommandValue)
    requires 32 <= platform.bits && t.width != W64
    requires IntegerKind(parameter.kind, t.signed) && RangeWithin(platform.bits, parameter.range, t)
    requires Validate(platform, parameter, value) == Valid
    ensures AsInteger(platform.bits, t, value).Converted?
    ensures Admits(parameter.range, AsInteger(platform.bits, t, value).value)
    ensures AsInteger(platform.bits, t, value) == AsInteger(platform.bits, IntegerType(t.signed, W64), value)
  {
    var n := ValidInRange(platform, parameter, t, value);
    NarrowFollowsWide(platform.bits, t, value, n);
  }

  /** A number the 64-bit check can see in the range, but not a value of the narrow type: as a native
      integer it passes validation, and the fetch refuses it. */
  lemma {:induction false} PassesAndIsRefused(platform: Platform, parameter: CommandParameter, t: IntegerType, n: int)
    returns (value: CommandValue)
    requires 32 <= platform.bits && t.width != W64 && IntegerKind(parameter.kind, t.signed)
    requires parameter.choices == [] && parameter.validator.None?
    requires IntegerType(t.signed, W64).Fits(n) && Representable(platform.bits, n) && Admits(parameter.range, n)
    requires !t.Fits(n)
    ensures WellFormed(value) && NativeInteger(value, n)
    ensures Validate(platform, parameter, value) == Valid && AsInteger(platform.bits, t, value) == OutOfRange
  {
    var p := platform.bits;
    value := if t.signed then SignedInteger(n) else UnsignedInteger(n);
    WideConversion(p, IntegerType(t.signed, W64), value, n);
    RoundFixesRepresentable(p, n);
    NarrowConversionExact(p, t, value);
  }

  /** Every value that validation passes can be fetched as the narrow type exactly when the numbers in the
      range that the 64-bit check can tell apart are values of that type. */
  lemma {:induction false} FetchSucceedsIff(platform: Platform, parameter: CommandParameter, t: IntegerType)
    requires 32 <= platform.bits && t.width != W64 && IntegerKind(parameter.kind, t.signed)
    requires parameter.choices == [] && parameter.validator.None?
    ensures (forall v :: WellFormed(v) && Validate(platform, parameter, v) == Valid ==>
               AsInteger(platform.bits, t, v).Converted?)
            <==> RangeWithin(platform.bits, parameter.range, t)
  {
    var p, wide := platform.bits, IntegerType(t.signed, W64);
    if RangeWithin(p, parameter.range, t) {
      forall v | Validate(platform, parameter, v) == Valid ensures AsInteger(p, t, v).Converted? {
        ValidatedIntegerConverts(platform, parameter, t, v);
      }
    } else {
      var n :| wide.Fits(n) && Representable(p, n) && Admits(parameter.range, n) && !t.Fits(n);
      var value := PassesAndIsRefused(platform, parameter, t, n);
    }
  }

  /** For a range that holds some value of the type, the condition can be read off its limits: it stops
      short of the type's outer neighbours.  An unsigned type has none below, since validation itself
      refuses negative numbers; and no range at all always goes too far. */
  lemma {:induction false} RangeWithinIff(p: nat, range: Option<Range>, t: IntegerType, inside: int)
    requires 32 <= p && t.width != W64 && t.Fits(inside) && Admits(range, inside)
    ensures RangeWithin(p, range, t) <==>
              && range.Some?
              && (t.signed ==> (t.Lowest() - 1) as real < range.value.minimum)
              && range.value.maximum < (t.Highest() + 1) as real
  {
    var below, above := t.Lowest() - 1, t.Highest() + 1;
    NarrowExact(p, t, below);
    NarrowExact(p, t, above);
    RoundFixesRepresentable(p, below);
    RoundFixesRepresentable(p, above);
    assert Representable(p, below) && Representable(p, above);
    assert below as real <= inside as real <= above as real;
  }
}
