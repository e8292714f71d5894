/**
 * The decisions BodyParamArgumentResolver takes for one controller-method parameter
 * annotated with @BodyParam: which name matching mode applies, which path is read,
 * how the annotation's default string becomes a value of the parameter's type, and
 * whether the outcome is the body value, the default, null, or a BAD_REQUEST.
 */
module BodyParamArgumentResolver {
  import opened Wrappers
  import opened Strings
  import opened NameMatchingModes
  import Decimal
  import BodyParamReader

  /** Spring's ValueConstants.DEFAULT_NONE, the annotation's "not set" marker for
      path and defaultValue. */
  const DefaultNone: string := "\n\t\t\n\t\t\n\U{E000}\U{E001}\U{E002}\n\t\t\t\t\n"

  /** The global fallback mode: ignore case and every non-alphanumeric character. */
  const DefaultMode: NameMatchingMode := IgnoreCaseAndNonAlphaNumeric

  /** The @BodyParam attributes; a nameMatchingMode of None is the annotation's DEFAULT. */
  datatype BodyParamAnnotation = BodyParamAnnotation(
    path: string,
    defaultValue: string,
    required: bool,
    nameMatchingMode: Option<NameMatchingMode>)

  datatype PrimitiveKind = BooleanPrimitive | BytePrimitive | ShortPrimitive | IntPrimitive | LongPrimitive

  /** The parameter's declared class, as far as stringToDefaultValue tells classes apart. */
  datatype TypeDescriptor =
    | BooleanClass
    | ByteClass
    | ShortClass
    | IntegerClass
    | LongClass
    | StringClass
    | EnumClass(constants: seq<string>)   // the toString() of each constant, in ordinal order
    | PrimitiveClass(kind: PrimitiveKind) // boolean.class, int.class, ...
    | OtherClass(name: string)
  {
    predicate IsIntegral() {
      ByteClass? || ShortClass? || IntegerClass? || LongClass?
    }

    /** MIN_VALUE of the boxed integral class. */
    function Min(): (lo: int)
      requires IsIntegral()
    {
      match this
      case ByteClass => -0x80
      case ShortClass => -0x8000
      case IntegerClass => -0x8000_0000
      case LongClass => -0x8000_0000_0000_0000
    }

    /** MAX_VALUE of the boxed integral class. */
    function Max(): (hi: int)
      requires IsIntegral()
    {
      match this
      case ByteClass => 0x7F
      case ShortClass => 0x7FFF
      case IntegerClass => 0x7FFF_FFFF
      case LongClass => 0x7FFF_FFFF_FFFF_FFFF
    }
  }

  datatype DefaultValue =
    | BooleanValue(truth: bool)
    | IntegralValue(number: int)
    | StringValue(text: string)
    | EnumConstant(ordinal: nat, name: string)

  datatype DefaultError =
    | NumberFormat(text: string)      // NumberFormatException from a parse method
    | NoEnumConstant(text: string)    // INTERNAL_SERVER_ERROR: no constant has that name
    | NotConvertible(text: string)    // IllegalArgumentException: unsupported class

  /** What the resolver returns to Spring: the body's value, the converted default, or null. */
  datatype Argument<V> = BodyValue(value: V) | DefaultArgument(default: DefaultValue) | NullArgument

  datatype ResolveError =
    | UnnamedParameter                                       // INTERNAL_SERVER_ERROR from getParamPath
    | DefaultNotConvertible(defaultError: DefaultError)
    | ReadFailed(readError: BodyParamReader.ReadError)
    | MissingRequiredValue(path: string, mode: NameMatchingMode) // BAD_REQUEST

  // -----------------------------------------------------------------------
  // determineNameMatchingMode

  /** The first level that sets a mode, nearest first, else the fallback. */
  function Nearest(levels: seq<Option<NameMatchingMode>>, fallback: NameMatchingMode): (r: NameMatchingMode)
    ensures (forall i :: 0 <= i < |levels| ==> levels[i].None?) ==> r == fallback
    ensures r == fallback || exists i :: 0 <= i < |levels| && levels[i] == Some(r)
  {
    if levels == [] then fallback
    else if levels[0].Some? then levels[0].value
    else Nearest(levels[1..], fallback)
  }

  /** A level overrides every level after it, whatever they set, once the levels before it are unset. */
  lemma {:induction false} NearestSetLevelWins(before: seq<Option<NameMatchingMode>>, m: NameMatchingMode,
                                               after: seq<Option<NameMatchingMode>>, fallback: NameMatchingMode)
    requires forall i :: 0 <= i < |before| ==> before[i].None?
    ensures Nearest(before + [Some(m)] + after, fallback) == m
  {
    if before != [] {
      assert (before + [Some(m)] + after)[1..] == before[1..] + [Some(m)] + after;
      NearestSetLevelWins(before[1..], m, after, fallback);
    }
  }

  /** The parameter's own mode, else the method's @NameMatching, else the declaring
      class's @NameMatching, else the default mode. */
  function DetermineNameMatchingMode(parameterMode: Option<NameMatchingMode>, methodMode: Option<NameMatchingMode>,
                                     classMode: Option<NameMatchingMode>): (r: NameMatchingMode)
    ensures r == Nearest([parameterMode, methodMode, classMode], DefaultMode)
  {
    var levels := [parameterMode, methodMode, classMode];
    assert levels[1..] == [methodMode, classMode] && levels[1..][1..] == [classMode] && levels[1..][1..][1..] == [];
    assert Nearest([classMode], DefaultMode) == if classMode.Some? then classMode.value else DefaultMode;
    assert Nearest([methodMode, classMode], DefaultMode)
        == if methodMode.Some? then methodMode.value else Nearest([classMode], DefaultMode);
    if parameterMode.Some? then parameterMode.value
    else if methodMode.Some? then methodMode.value
    else if classMode.Some? then classMode.value
    else DefaultMode
  }

  /** An explicit mode on the parameter decides, whatever the method and class say. */
  lemma ParameterModeOverrides(m: NameMatchingMode, methodMode: Option<NameMatchingMode>,
                               classMode: Option<NameMatchingMode>)
    ensures DetermineNameMatchingMode(Some(m), methodMode, classMode) == m
  {
    NearestSetLevelWins([], m, [methodMode, classMode], DefaultMode);
  }

  // -----------------------------------------------------------------------
  // getParamPath

  /** The annotation's path when set, else the compiled parameter name when javac kept it. */
  function GetParamPath(annotationPath: string, parameterName: Option<string>): (r: Result<string, ResolveError>)
    ensures r.Failure? <==> annotationPath == DefaultNone && parameterName.None?
    ensures r.Failure? ==> r.error == UnnamedParameter
    ensures annotationPath != DefaultNone ==> r == Success(annotationPath)
    ensures annotationPath == DefaultNone && parameterName.Some? ==> r == Success(parameterName.value)
  {
    if annotationPath == DefaultNone then
      if parameterName.Some? then Success(parameterName.value) else Failure(UnnamedParameter)
    else Success(annotationPath)
  }

  // -----------------------------------------------------------------------
  // stringToDefaultValue

  /** The index of the first constant whose toString() equals the text ignoring case. */
  function FirstEnumMatch(constants: seq<string>, text: string, j: nat): (r: Option<nat>)
    requires j <= |constants|
    decreases |constants| - j
    ensures r.Some? ==> j <= r.value < |constants| && EqualsIgnoreCase(constants[r.value], text)
    ensures r.Some? ==> forall k :: j <= k < r.value ==> !EqualsIgnoreCase(constants[k], text)
    ensures r.None? <==> forall k :: j <= k < |constants| ==> !EqualsIgnoreCase(constants[k], text)
  {
    if j == |constants| then None
    else if EqualsIgnoreCase(constants[j], text) then Some(j)
    else FirstEnumMatch(constants, text, j + 1)
  }

  /** Boolean.parseBoolean: "true" in any case, and false for every other text. */
  function ParseBoolean(value: string): (r: bool)
    ensures r <==> LowerAscii(value) == "true"
  {
    EqualsIgnoreCaseIsLowerEquality(value, "true");
    EqualsIgnoreCase(value, "true")
  }

  /** The enum branch: the first constant whose toString() equals the text ignoring case. */
  function EnumConstantNamed(constants: seq<string>, value: string): (r: Result<DefaultValue, DefaultError>)
    ensures r.Success? <==> exists k :: 0 <= k < |constants| && EqualsIgnoreCase(constants[k], value)
    ensures r.Success? ==>
              r.value.EnumConstant? && r.value.ordinal < |constants| &&
              r.value.name == constants[r.value.ordinal] && EqualsIgnoreCase(r.value.name, value) &&
              forall k :: 0 <= k < r.value.ordinal ==> !EqualsIgnoreCase(constants[k], value)
    ensures r.Failure? ==> r.error == NoEnumConstant(value)
  {
    match FirstEnumMatch(constants, value, 0)
    case Some(k) => Success(EnumConstant(k, constants[k]))
    case None => Failure(NoEnumConstant(value))
  }

  /** The parse of the boxed integral classes: decimal text within MIN_VALUE..MAX_VALUE. */
  function ParseIntegral(ty: TypeDescriptor, text: string): (r: Result<DefaultValue, DefaultError>)
    requires ty.IsIntegral()
    ensures r.Success? <==> Decimal.IsDecimal(text) && ty.Min() <= Decimal.Parse(text).value <= ty.Max()
    ensures r.Success? ==> r.value.IntegralValue? && Decimal.Parse(text) == Some(r.value.number)
    ensures r.Failure? ==> r.error == NumberFormat(text)
  {
    match Decimal.Parse(text)
    case None => Failure(NumberFormat(text))
    case Some(n) => if ty.Min() <= n <= ty.Max() then Success(IntegralValue(n)) else Failure(NumberFormat(text))
  }

  /** The annotation's default string converted to the parameter's class. The classes
      are compared with the boxed classes, so a primitive parameter class matches none. */
  function StringToDefaultValue(ty: TypeDescriptor, value: string): (r: Result<DefaultValue, DefaultError>)
    ensures ty.BooleanClass? ==> r.Success? && r.value.BooleanValue? && (r.value.truth <==> LowerAscii(value) == "true")
    ensures ty.IsIntegral() ==>
              (r.Success? <==> Decimal.IsDecimal(value) && ty.Min() <= Decimal.Parse(value).value <= ty.Max())
    ensures ty.IsIntegral() && r.Success? ==> r.value.IntegralValue? && Decimal.Parse(value) == Some(r.value.number)
    ensures ty.IsIntegral() && r.Failure? ==> r.error == NumberFormat(value)
    ensures ty.StringClass? ==> r == Success(StringValue(value))
    ensures ty.EnumClass? ==>
              (r.Success? <==> exists k :: 0 <= k < |ty.constants| && EqualsIgnoreCase(ty.constants[k], value))
    ensures ty.EnumClass? && r.Success? ==>
              r.value.EnumConstant? && r.value.ordinal < |ty.constants| &&
              r.value.name == ty.constants[r.value.ordinal] && EqualsIgnoreCase(r.value.name, value) &&
              forall k :: 0 <= k < r.value.ordinal ==> !EqualsIgnoreCase(ty.constants[k], value)
    ensures ty.EnumClass? && r.Failure? ==> r.error == NoEnumConstant(value)
    ensures ty.PrimitiveClass? || ty.OtherClass? ==> r == Failure(NotConvertible(value))
  {
    match ty
    case BooleanClass => Success(BooleanValue(ParseBoolean(value)))
    case ByteClass => ParseIntegral(ty, value)
    case ShortClass => ParseIntegral(ty, value)
    case IntegerClass => ParseIntegral(ty, value)
    case LongClass => ParseIntegral(ty, value)
    case StringClass => Success(StringValue(value))
    case EnumClass(constants) => EnumConstantNamed(constants, value)
    case PrimitiveClass(_) => Failure(NotConvertible(value))
    case OtherClass(_) => Failure(NotConvertible(value))
  }

  /** Every number of an integral class's range is accepted in its toString() form, and
      every number outside it is refused. */
  lemma IntegralDefaultRoundTrip(ty: TypeDescriptor, n: int)
    requires ty.IsIntegral()
    ensures ty.Min() <= n <= ty.Max() ==> StringToDefaultValue(ty, Decimal.Format(n)) == Success(IntegralValue(n))
    ensures !(ty.Min() <= n <= ty.Max()) ==> StringToDefaultValue(ty, Decimal.Format(n)).Failure?
  {
    Decimal.ParseFormat(n);
  }

  /** The boxed class whose parse the primitive class was evidently meant to share. */
  function Boxed(kind: PrimitiveKind): (ty: TypeDescriptor)
    ensures ty.BooleanClass? || ty.IsIntegral()
  {
    match kind
    case BooleanPrimitive => BooleanClass
    case BytePrimitive => ByteClass
    case ShortPrimitive => ShortClass
    case IntPrimitive => IntegerClass
    case LongPrimitive => LongClass
  }

  /** stringToDefaultValue with primitive parameter classes converted as their boxed class. */
  function StringToDefaultValueBoxingPrimitives(ty: TypeDescriptor, value: string): (r: Result<DefaultValue, DefaultError>)
    ensures !ty.PrimitiveClass? ==> r == StringToDefaultValue(ty, value)
  {
    if ty.PrimitiveClass? then StringToDefaultValue(Boxed(ty.kind), value) else StringToDefaultValue(ty, value)
  }

  /** Intended: a primitive parameter takes every default its boxed class takes, and the
      same value; a boolean default never fails. */
  lemma PrimitiveDefaultsAreAccepted(kind: PrimitiveKind, n: int, value: string)
    ensures kind == BooleanPrimitive ==>
              StringToDefaultValueBoxingPrimitives(PrimitiveClass(kind), value).Success?
    ensures kind != BooleanPrimitive && Boxed(kind).Min() <= n <= Boxed(kind).Max() ==>
              StringToDefaultValueBoxingPrimitives(PrimitiveClass(kind), Decimal.Format(n)) == Success(IntegralValue(n))
  {
    if kind != BooleanPrimitive {
      IntegralDefaultRoundTrip(Boxed(kind), n);
    }
  }

  /** As written: a default on an int parameter is refused, although the same text is
      accepted for an Integer parameter. */
  lemma PrimitiveDefaultIsRefused()
    ensures StringToDefaultValue(PrimitiveClass(IntPrimitive), "5") == Failure(NotConvertible("5"))
    ensures StringToDefaultValue(IntegerClass, "5") == Success(IntegralValue(5))
  {
    Decimal.ParseFormat(5);
    assert Decimal.Format(5) == "5";
  }

  // -----------------------------------------------------------------------
  // resolveArgument

  /** The argument value for a parameter, given the parsed request body and the
      converter of the selected request-body mapper. */
  function ResolveArgument<V>(ann: BodyParamAnnotation, parameterName: Option<string>,
                              methodMode: Option<NameMatchingMode>, classMode: Option<NameMatchingMode>,
                              paramClass: TypeDescriptor, body: BodyParamReader.Fields,
                              convert: BodyParamReader.Converter<V>): (r: Result<Argument<V>, ResolveError>)
    ensures GetParamPath(ann.path, parameterName).Failure? ==> r == Failure(UnnamedParameter)
    // the default is converted before the body is read, so a bad default fails whatever the body holds
    ensures GetParamPath(ann.path, parameterName).Success? && ann.defaultValue != DefaultNone &&
            StringToDefaultValue(paramClass, ann.defaultValue).Failure? ==>
              r == Failure(DefaultNotConvertible(StringToDefaultValue(paramClass, ann.defaultValue).error))
    ensures var mode := DetermineNameMatchingMode(ann.nameMatchingMode, methodMode, classMode);
            var path := GetParamPath(ann.path, parameterName);
            var hasDefault := ann.defaultValue != DefaultNone;
            var default := StringToDefaultValue(paramClass, ann.defaultValue);
            path.Success? && (hasDefault ==> default.Success?) ==>
              var read := BodyParamReader.Read(Some(path.value), body, mode, convert);
              // a value found in the body wins over the default
              (read.Success? && read.value.Some? ==> r == Success(BodyValue(read.value.value))) &&
              (read.Failure? ==> r == Failure(ReadFailed(read.error))) &&
              // nothing found: the default, else BAD_REQUEST when required, else null
              (read == Success(None) && hasDefault ==> r == Success(DefaultArgument(default.value))) &&
              (read == Success(None) && !hasDefault && ann.required ==>
                 r == Failure(MissingRequiredValue(path.value, mode))) &&
              (read == Success(None) && !hasDefault && !ann.required ==> r == Success(NullArgument))
    // a default makes the parameter optional, whatever `required` says
    ensures ann.defaultValue != DefaultNone ==> !(r.Failure? && r.error.MissingRequiredValue?)
    ensures r == Success(NullArgument) ==> !ann.required && ann.defaultValue == DefaultNone
  {
    var mode := DetermineNameMatchingMode(ann.nameMatchingMode, methodMode, classMode);
    match GetParamPath(ann.path, parameterName)
    case Failure(e) => Failure(e)
    case Success(path) =>
      var converted := if ann.defaultValue == DefaultNone then Success(None)
                       else match StringToDefaultValue(paramClass, ann.defaultValue)
                            case Success(d) => Success(Some(d))
                            case Failure(e) => Failure(e);
      match converted
      case Failure(e) => Failure(DefaultNotConvertible(e))
      case Success(default) =>
        match BodyParamReader.Read(Some(path), body, mode, convert)
        case Failure(e) => Failure(ReadFailed(e))
        case Success(Some(v)) => Success(BodyValue(v))
        case Success(None) =>
          var required := ann.required && default.None?;
          if required then Failure(MissingRequiredValue(path, mode))
          else if default.Some? then Success(DefaultArgument(default.value))
          else Success(NullArgument)
  }

  // -----------------------------------------------------------------------
  // Examples

  lemma IntegerDefaultExample()
    ensures StringToDefaultValue(IntegerClass, "42") == Success(IntegralValue(42))
  {
    assert Decimal.Unsigned("42") == "42";
    assert Decimal.DigitsValue("42") == 42 by {
      assert "42"[..1] == "4" && "4"[..0] == "";
    }
  }

  lemma ByteDefaultExamples()
    ensures StringToDefaultValue(ByteClass, "-128") == Success(IntegralValue(-128))
    ensures StringToDefaultValue(ByteClass, "128") == Failure(NumberFormat("128"))
  {
    assert Decimal.Unsigned("-128") == "128" && Decimal.Unsigned("128") == "128";
    assert Decimal.DigitsValue("128") == 128 by {
      assert "128"[..2] == "12" && "12"[..1] == "1" && "1"[..0] == "";
    }
  }

  lemma MalformedIntegralDefault()
    ensures StringToDefaultValue(IntegerClass, "4x") == Failure(NumberFormat("4x"))
    ensures StringToDefaultValue(LongClass, "+") == Failure(NumberFormat("+"))
  {
    assert !Decimal.IsDigit("4x"[1]);
  }

  lemma BooleanDefaultExamples()
    ensures StringToDefaultValue(BooleanClass, "TRUE") == Success(BooleanValue(true))
    ensures StringToDefaultValue(BooleanClass, "yes") == Success(BooleanValue(false))
  {
    assert LowerAscii("TRUE") == "true";
  }

  lemma EnumDefaultExamples()
    ensures StringToDefaultValue(EnumClass(["RED", "GREEN"]), "green") == Success(EnumConstant(1, "GREEN"))
    ensures StringToDefaultValue(EnumClass(["RED", "GREEN"]), "blue") == Failure(NoEnumConstant("blue"))
  {
    assert EqualsIgnoreCase("GREEN", "green");
    assert !EqualsIgnoreCase("RED", "green");
  }

  /** An empty body holds nothing at "count". */
  lemma NothingAtCount<V>(mode: NameMatchingMode, convert: BodyParamReader.Converter<V>)
    ensures BodyParamReader.Read(Some("count"), [], mode, convert) == Success(None)
  {
    assert !IsWhitespace("count"[0]);
    SplitWithoutSeparator("count", '.');
    assert BodyParamReader.ValidateAndCompileParamPath(Some("count")) == Success(["count"]);
  }

  /** The body holds nothing at "count": the outcome follows the default and `required`. */
  lemma AbsentValueExamples<V>(required: bool, convert: BodyParamReader.Converter<V>)
    ensures ResolveArgument(BodyParamAnnotation("count", "42", required, None), None, None, None, IntegerClass, [], convert)
            == Success(DefaultArgument(IntegralValue(42)))
    ensures ResolveArgument(BodyParamAnnotation("count", DefaultNone, true, None), None, None, None, IntegerClass, [], convert)
            == Failure(MissingRequiredValue("count", IgnoreCaseAndNonAlphaNumeric))
    ensures ResolveArgument(BodyParamAnnotation("count", DefaultNone, false, None), None, None, None, IntegerClass, [], convert)
            == Success(NullArgument)
  {
    assert "count" != DefaultNone by { assert |"count"| != |DefaultNone|; }
    assert "42" != DefaultNone by { assert |"42"| != |DefaultNone|; }
    IntegerDefaultExample();
    NothingAtCount(IgnoreCaseAndNonAlphaNumeric, convert);
  }

  /** A default that does not convert fails the call even when the body has the value. */
  lemma BadDefaultFailsDespiteBodyValue<V>(convert: BodyParamReader.Converter<V>)
    ensures ResolveArgument(BodyParamAnnotation("count", "4x", false, None), None, None, None, IntegerClass,
                            [("count", BodyParamReader.Number(1))], convert)
            == Failure(DefaultNotConvertible(NumberFormat("4x")))
  {
    assert "count" != DefaultNone by { assert |"count"| != |DefaultNone|; }
    assert "4x" != DefaultNone by { assert |"4x"| != |DefaultNone|; }
    MalformedIntegralDefault();
  }
}
