/**
 * ParameterResolver: binding a handler's declared parameters to request
 * values, and the checks of validateController.
 */
module ParameterResolver {
  import opened Wrappers
  import opened JavaStrings
  import opened JavaNumbers
  import opened Reflection

  /** A handler argument: null, or a value of one of the supported types. */
  datatype Value =
    | Null
    | Text(text: string)
    | Integral(kind: Kind, n: int)
    | Floating(kind: Kind, x: real)
    | Logical(b: bool)
    | Character(c: char)

  /** The IllegalArgumentException thrown when a parameter cannot be bound. */
  datatype BindError =
    | MissingRequired(paramName: string, declaredName: string)
    | Unsupported(paramName: string, typeName: string)
    | Unconvertible(value: string, typeName: string, paramName: string)

  /**
   * Double.parseDouble / Float.parseFloat, supplied by the caller: the value
   * of the literal for that kind, or None for a NumberFormatException.
   */
  type FloatParser = (Kind, string) -> Option<real>

  // ---------------------------------------------------------------------------
  // getParameterName and the value source

  /** getParameterName: the annotation's `value`, else its `name`, else the declared name. */
  function GetParameterName(param: ParameterDecl): (r: string)
    ensures param.requestParam.Some? && param.requestParam.value.value != [] ==> r == param.requestParam.value.value
    ensures param.requestParam.Some? && param.requestParam.value.value == [] && param.requestParam.value.name != [] ==>
      r == param.requestParam.value.name
    ensures param.requestParam.None? || (param.requestParam.value.value == [] && param.requestParam.value.name == []) ==>
      r == param.name
  {
    match param.requestParam
    case Some(annotation) =>
      if annotation.value != [] then annotation.value
      else if annotation.name != [] then annotation.name
      else param.name
    case None => param.name
  }

  /** The raw value for `paramName`: the url parameter when there is one, else the request parameter, else null. */
  function LookupValue(paramName: string, urlParameters: Option<map<string, string>>, request: map<string, string>): Option<string> {
    if urlParameters.Some? && paramName in urlParameters.value then Some(urlParameters.value[paramName])
    else if paramName in request then Some(request[paramName])
    else None
  }

  /** A url parameter wins over a request parameter of the same name; without one the request decides. */
  lemma LookupPrefersUrl(paramName: string, urlParameters: Option<map<string, string>>, request: map<string, string>)
    ensures var r := LookupValue(paramName, urlParameters, request);
      (urlParameters.Some? && paramName in urlParameters.value ==> r == Some(urlParameters.value[paramName])) &&
      (!(urlParameters.Some? && paramName in urlParameters.value) ==> (r.Some? <==> paramName in request)) &&
      (r.Some? && !(urlParameters.Some? && paramName in urlParameters.value) ==> r.value == request[paramName])
  {
  }

  // ---------------------------------------------------------------------------
  // convertValue

  /** The boolean reading: "true" or "on" in any letter case, or exactly "1". */
  predicate IsTrueText(value: string) {
    EqualsIgnoreCase(value, "true") || EqualsIgnoreCase("on", value) || value == "1"
  }

  /** Integer.parseInt, Long.parseLong, Short.parseShort or Byte.parseByte, by kind. */
  function ParseIntegral(kind: Kind, value: string): Option<int>
    requires kind in {IntKind, LongKind, ShortKind, ByteKind}
  {
    match kind
    case IntKind => ParseInt(value)
    case LongKind => ParseLong(value)
    case ShortKind => ParseShort(value)
    case ByteKind => ParseByte(value)
  }

  /** The conversion of a non-null value to a primitive kind or its wrapper. */
  function ConvertScalar(value: string, t: JavaType, paramName: string, parseFloating: FloatParser): Result<Value, BindError>
    requires t.Primitive? || t.Boxed?
  {
    var kind := t.kind;
    var failure := Err(Unconvertible(value, SimpleName(t), paramName));
    match kind
    case BooleanKind => Ok(Logical(IsTrueText(value)))
    case CharKind => Ok(Character(if value != [] then value[0] else '\0'))
    case DoubleKind | FloatKind =>
      var x := parseFloating(kind, value);
      if x.Some? then Ok(Floating(kind, x.value)) else failure
    case _ =>
      var n := ParseIntegral(kind, value);
      if n.Some? then Ok(Integral(kind, n.value)) else failure
  }

  /** convertValue(value, targetType, paramName) */
  function ConvertValue(value: string, targetType: JavaType, paramName: string, parseFloating: FloatParser): Result<Value, BindError> {
    match targetType
    case StringType => Ok(Text(value))
    case Primitive(_) => ConvertScalar(value, targetType, paramName, parseFloating)
    case Boxed(_) => ConvertScalar(value, targetType, paramName, parseFloating)
    case OtherType(name) => Err(Unsupported(paramName, name))
  }

  /** getDefaultValue: the zero of a primitive type, null for every other type (wrappers included). */
  function DefaultValue(t: JavaType): (r: Value)
    ensures r == Null <==> !t.Primitive?
    ensures t.Primitive? && t.kind in {IntKind, LongKind, ShortKind, ByteKind} ==> r == Integral(t.kind, 0)
    ensures t.Primitive? && t.kind in {DoubleKind, FloatKind} ==> r == Floating(t.kind, 0.0)
    ensures t == Primitive(BooleanKind) ==> r == Logical(false)
    ensures t == Primitive(CharKind) ==> r == Character('\0')
  {
    match t
    case Primitive(kind) =>
      (match kind
        case IntKind => Integral(IntKind, 0)
        case LongKind => Integral(LongKind, 0)
        case DoubleKind => Floating(DoubleKind, 0.0)
        case FloatKind => Floating(FloatKind, 0.0)
        case BooleanKind => Logical(false)
        case ShortKind => Integral(ShortKind, 0)
        case ByteKind => Integral(ByteKind, 0)
        case CharKind => Character('\0'))
    case _ => Null
  }

  // ---------------------------------------------------------------------------
  // processParameter and handleMissingParameter

  /** handleMissingParameter: an error when required, else the converted default, else the type's zero or null. */
  function HandleMissingParameter(param: ParameterDecl, paramName: string, parseFloating: FloatParser): Result<Value, BindError> {
    match param.requestParam
    case Some(annotation) =>
      if annotation.required then Err(MissingRequired(paramName, param.name))
      else if annotation.defaultValue != [] then ConvertValue(annotation.defaultValue, param.paramType, paramName, parseFloating)
      else Ok(DefaultValue(param.paramType))
    case None => Ok(DefaultValue(param.paramType))
  }

  /** processParameter: a null or blank value counts as missing; any other value is converted as it is, untrimmed. */
  function ProcessParameter(param: ParameterDecl, paramValue: Option<string>, paramName: string, parseFloating: FloatParser): Result<Value, BindError> {
    if paramValue.None? || IsBlank(paramValue.value) then HandleMissingParameter(param, paramName, parseFloating)
    else ConvertValue(paramValue.value, param.paramType, paramName, parseFloating)
  }

  /** The argument resolveParameters computes for one declared parameter. */
  function Bind(param: ParameterDecl, request: map<string, string>, urlParameters: Option<map<string, string>>, parseFloating: FloatParser): Result<Value, BindError> {
    var paramName := GetParameterName(param);
    ProcessParameter(param, LookupValue(paramName, urlParameters, request), paramName, parseFloating)
  }

  // ---------------------------------------------------------------------------
  // resolveParameters

  /** The outcome of binding `parameters` in order with `bind`: the first error, or all the arguments. */
  function Resolve(parameters: seq<ParameterDecl>, bind: ParameterDecl -> Result<Value, BindError>): Result<seq<Value>, BindError>
    decreases |parameters|
  {
    if parameters == [] then Ok([])
    else
      var n := |parameters| - 1;
      match Resolve(parameters[..n], bind)
      case Err(e) => Err(e)
      case Ok(earlier) =>
        match bind(parameters[n])
        case Err(e) => Err(e)
        case Ok(v) => Ok(earlier + [v])
  }

  /** The outcome of the loop of resolveParameters over `parameters`. */
  function Resolution(parameters: seq<ParameterDecl>, request: map<string, string>, urlParameters: Option<map<string, string>>, parseFloating: FloatParser): Result<seq<Value>, BindError> {
    Resolve(parameters, p => Bind(p, request, urlParameters, parseFloating))
  }

  /** Once a prefix fails, the whole resolution fails with the same error. */
  lemma {:induction false} ResolveErrPersists(parameters: seq<ParameterDecl>, k: nat, bind: ParameterDecl -> Result<Value, BindError>)
    requires k <= |parameters|
    requires Resolve(parameters[..k], bind).Err?
    ensures Resolve(parameters, bind) == Resolve(parameters[..k], bind)
    decreases |parameters| - k
  {
    if k < |parameters| {
      var n := |parameters| - 1;
      if k == n {
        assert parameters[..k] == parameters[..n];
      } else {
        assert parameters[..n][..k] == parameters[..k];
        ResolveErrPersists(parameters[..n], k, bind);
      }
    } else {
      assert parameters[..k] == parameters;
    }
  }

  /** resolveParameters(method, request, urlParameters); the request is the map of its parameters. */
  method ResolveParameters(parameters: seq<ParameterDecl>, request: map<string, string>, urlParameters: Option<map<string, string>>, parseFloating: FloatParser)
    returns (r: Result<seq<Value>, BindError>)
    ensures r == Resolution(parameters, request, urlParameters, parseFloating)
  {
    ghost var bind := p => Bind(p, request, urlParameters, parseFloating);
    var args := new Value[|parameters|](_ => Null);
    for i := 0 to |parameters|
      invariant Resolve(parameters[..i], bind) == Ok(args[..i])
    {
      var param := parameters[i];
      var paramName := GetParameterName(param);
      var paramValue := LookupValue(paramName, urlParameters, request);
      var arg := ProcessParameter(param, paramValue, paramName, parseFloating);
      assert arg == bind(parameters[i]);
      assert parameters[..i + 1][..i] == parameters[..i];
      if arg.Err? {
        ResolveErrPersists(parameters, i + 1, bind);
        return Err(arg.error);
      }
      args[i] := arg.value;
      assert args[..i + 1] == args[..i] + [arg.value];
    }
    assert parameters[..|parameters|] == parameters;
    assert args[..|parameters|] == args[..];
    return Ok(args[..]);
  }

  /** Binding in order succeeds exactly when every parameter binds, and otherwise fails with the first failure. */
  lemma {:induction false} ResolveSpec(parameters: seq<ParameterDecl>, bind: ParameterDecl -> Result<Value, BindError>)
    ensures var r := Resolve(parameters, bind);
      (r.Ok? <==> forall i :: 0 <= i < |parameters| ==> bind(parameters[i]).Ok?) &&
      (r.Ok? ==> |r.value| == |parameters| && forall i :: 0 <= i < |parameters| ==> bind(parameters[i]) == Ok(r.value[i])) &&
      (r.Err? ==> exists i :: (0 <= i < |parameters| && bind(parameters[i]) == Err(r.error) &&
        forall j :: 0 <= j < i ==> bind(parameters[j]).Ok?))
    decreases |parameters|
  {
    if parameters != [] {
      var n := |parameters| - 1;
      var prefix := parameters[..n];
      ResolveSpec(prefix, bind);
      assert forall i :: 0 <= i < n ==> prefix[i] == parameters[i];
      var r := Resolve(parameters, bind);
      if r.Err? && Resolve(prefix, bind).Ok? {
        assert bind(parameters[n]) == Err(r.error);
      }
    }
  }

  /**
   * resolveParameters yields one argument per declared parameter, in
   * declaration order, each the binding of that parameter, exactly when every
   * parameter binds; otherwise it fails with the error of the first parameter
   * that does not.
   */
  lemma ResolutionSpec(parameters: seq<ParameterDecl>, request: map<string, string>, urlParameters: Option<map<string, string>>, parseFloating: FloatParser)
    ensures var r := Resolution(parameters, request, urlParameters, parseFloating);
      (r.Ok? <==> forall i :: 0 <= i < |parameters| ==> Bind(parameters[i], request, urlParameters, parseFloating).Ok?) &&
      (r.Ok? ==>
        |r.value| == |parameters| &&
        forall i :: 0 <= i < |parameters| ==> Bind(parameters[i], request, urlParameters, parseFloating) == Ok(r.value[i])) &&
      (r.Err? ==>
        exists i :: 0 <= i < |parameters| && Bind(parameters[i], request, urlParameters, parseFloating) == Err(r.error) &&
          forall j :: 0 <= j < i ==> Bind(parameters[j], request, urlParameters, parseFloating).Ok?)
  {
    ResolveSpec(parameters, p => Bind(p, request, urlParameters, parseFloating));
  }

  // ---------------------------------------------------------------------------
  // The binding policy

  /** A required parameter with no usable value fails the whole resolution, whatever its default. */
  lemma RequiredMissingFails(parameters: seq<ParameterDecl>, request: map<string, string>, urlParameters: Option<map<string, string>>, parseFloating: FloatParser, i: int)
    requires 0 <= i < |parameters|
    requires parameters[i].requestParam.Some? && parameters[i].requestParam.value.required
    requires var v := LookupValue(GetParameterName(parameters[i]), urlParameters, request);
      v.None? || IsBlank(v.value)
    ensures Resolution(parameters, request, urlParameters, parseFloating).Err?
    ensures Bind(parameters[i], request, urlParameters, parseFloating) ==
      Err(MissingRequired(GetParameterName(parameters[i]), parameters[i].name))
  {
    ResolutionSpec(parameters, request, urlParameters, parseFloating);
  }

  /**
   * A missing or blank value of a parameter that is not required takes its
   * converted non-empty default, and otherwise the type's zero for a
   * primitive and null for any other type.
   */
  lemma OptionalMissing(param: ParameterDecl, paramValue: Option<string>, paramName: string, parseFloating: FloatParser)
    requires paramValue.None? || IsBlank(paramValue.value)
    requires param.requestParam.None? || !param.requestParam.value.required
    ensures var r := ProcessParameter(param, paramValue, paramName, parseFloating);
      (param.requestParam.Some? && param.requestParam.value.defaultValue != [] ==>
        r == ConvertValue(param.requestParam.value.defaultValue, param.paramType, paramName, parseFloating)) &&
      (param.requestParam.None? || param.requestParam.value.defaultValue == [] ==>
        r == Ok(DefaultValue(param.paramType)) && (r.value == Null <==> !param.paramType.Primitive?)) &&
      (param.requestParam.None? || param.requestParam.value.defaultValue == [] ==>
        (param.paramType.Primitive? && param.paramType.kind in {IntKind, LongKind, ShortKind, ByteKind} ==>
          r == Ok(Integral(param.paramType.kind, 0))) &&
        (param.paramType == Primitive(BooleanKind) ==> r == Ok(Logical(false))) &&
        (param.paramType == Primitive(CharKind) ==> r == Ok(Character('\0'))))
  {
  }

  /** Boolean conversion never fails, and is true exactly for "TRUE" or "ON" up to letter case, or "1". */
  lemma ConvertBoolean(value: string, t: JavaType, paramName: string, parseFloating: FloatParser)
    requires t == Primitive(BooleanKind) || t == Boxed(BooleanKind)
    ensures ConvertValue(value, t, paramName, parseFloating) ==
      Ok(Logical(ToUpper(value) == "TRUE" || ToUpper(value) == "ON" || value == "1"))
  {
    assert ToUpper("true") == "TRUE";
    assert ToUpper("on") == "ON";
  }

  /**
   * A String parameter takes the value as it is; a char or Character
   * parameter its first character, or '\0' for the empty string.
   */
  lemma ConvertTextual(value: string, boxed: bool, paramName: string, parseFloating: FloatParser)
    ensures ConvertValue(value, StringType, paramName, parseFloating) == Ok(Text(value))
    ensures var t := if boxed then Boxed(CharKind) else Primitive(CharKind);
      (value != [] ==> ConvertValue(value, t, paramName, parseFloating) == Ok(Character(value[0]))) &&
      (value == [] ==> ConvertValue(value, t, paramName, parseFloating) == Ok(Character('\0')))
  {
  }

  /** The range of an integral kind: int, long, short and byte are 32, 64, 16 and 8-bit two's complement. */
  function MinOf(kind: Kind): int
    requires kind in {IntKind, LongKind, ShortKind, ByteKind}
  {
    match kind
    case IntKind => INT_MIN
    case LongKind => LONG_MIN
    case ShortKind => SHORT_MIN
    case ByteKind => BYTE_MIN
  }

  function MaxOf(kind: Kind): int
    requires kind in {IntKind, LongKind, ShortKind, ByteKind}
  {
    match kind
    case IntKind => INT_MAX
    case LongKind => LONG_MAX
    case ShortKind => SHORT_MAX
    case ByteKind => BYTE_MAX
  }

  /** Each integral parse is the decimal parse over its kind's range. */
  lemma ParseIntegralRange(kind: Kind, value: string)
    requires kind in {IntKind, LongKind, ShortKind, ByteKind}
    ensures ParseIntegral(kind, value) == ParseInteger(value, MinOf(kind), MaxOf(kind))
  {
  }

  /**
   * An int, long, short or byte parameter, primitive or wrapper, takes back
   * any value of its range written in decimal, and fails on a decimal outside
   * that range with an error naming the value, the type and the parameter.
   */
  lemma ConvertIntegralRoundTrip(n: int, kind: Kind, boxed: bool, paramName: string, parseFloating: FloatParser)
    requires kind in {IntKind, LongKind, ShortKind, ByteKind}
    ensures var t := if boxed then Boxed(kind) else Primitive(kind);
      var r := ConvertValue(Decimal(n), t, paramName, parseFloating);
      (MinOf(kind) <= n <= MaxOf(kind) ==> r == Ok(Integral(kind, n))) &&
      (n < MinOf(kind) || MaxOf(kind) < n ==> r == Err(Unconvertible(Decimal(n), SimpleName(t), paramName)))
  {
    ParseIntegralRange(kind, Decimal(n));
    if MinOf(kind) <= n <= MaxOf(kind) {
      ParseDecimal(n, MinOf(kind), MaxOf(kind));
    } else {
      ParseOutOfRange(n, MinOf(kind), MaxOf(kind));
    }
  }

  /** An integral value is not trimmed: a leading space makes the conversion fail, naming the parameter. */
  lemma ConvertIntegralUntrimmed(value: string, kind: Kind, boxed: bool, paramName: string, parseFloating: FloatParser)
    requires kind in {IntKind, LongKind, ShortKind, ByteKind}
    ensures var t := if boxed then Boxed(kind) else Primitive(kind);
      ConvertValue(" " + value, t, paramName, parseFloating) == Err(Unconvertible(" " + value, SimpleName(t), paramName))
  {
    var s := " " + value;
    ParseRejectsOther(s, 0, INT_MIN, INT_MAX);
    ParseRejectsOther(s, 0, LONG_MIN, LONG_MAX);
    ParseRejectsOther(s, 0, SHORT_MIN, SHORT_MAX);
    ParseRejectsOther(s, 0, BYTE_MIN, BYTE_MAX);
  }

  /** A type outside the supported ones is an error naming the parameter and the type. */
  lemma ConvertUnsupported(value: string, name: string, paramName: string, parseFloating: FloatParser)
    ensures ConvertValue(value, OtherType(name), paramName, parseFloating) == Err(Unsupported(paramName, name))
  {
  }

  // ---------------------------------------------------------------------------
  // validateController and ValidationReport

  /**
   * A warning of validateParameterAnnotation, by the method and parameter it
   * names; addWarning receives it formatted as a French sentence.
   */
  datatype Warning =
    | NoExplicitName(methodName: string, paramName: string)
    | PrimitiveWithoutDefault(methodName: string, paramName: string)

  /** ValidationReport: the warnings and errors gathered, in order. */
  class ValidationReport {
    var warnings: seq<Warning>
    var errors: seq<string>

    constructor ()
      ensures warnings == [] && errors == []
      ensures !HasIssues()
    {
      warnings := [];
      errors := [];
    }

    method AddWarning(warning: Warning)
      modifies this
      ensures warnings == old(warnings) + [warning] && errors == old(errors)
      ensures HasIssues()
    {
      warnings := warnings + [warning];
    }

    method AddError(message: string)
      modifies this
      ensures errors == old(errors) + [message] && warnings == old(warnings)
      ensures HasIssues()
    {
      errors := errors + [message];
    }

    /** hasIssues */
    predicate HasIssues()
      reads this
    {
      warnings != [] || errors != []
    }
  }

  /** The check of validateParameterAnnotation that `annotation` lacks explicit names although the lookup name differs. */
  predicate LacksExplicitName(param: ParameterDecl, annotation: RequestParamAnnotation) {
    var p := param.(requestParam := Some(annotation));
    GetParameterName(p) != param.name && annotation.value == [] && annotation.name == []
  }

  /** The check of validateParameterAnnotation for an optional primitive without default. */
  predicate OptionalPrimitiveWithoutDefault(param: ParameterDecl, annotation: RequestParamAnnotation) {
    !annotation.required && annotation.defaultValue == [] && param.paramType.Primitive?
  }

  /** The warnings validateParameterAnnotation adds, in order. */
  function AnnotationWarnings(param: ParameterDecl, annotation: RequestParamAnnotation, methodName: string): seq<Warning> {
    (if LacksExplicitName(param, annotation) then [NoExplicitName(methodName, param.name)] else []) +
    (if OptionalPrimitiveWithoutDefault(param, annotation) then [PrimitiveWithoutDefault(methodName, param.name)] else [])
  }

  /**
   * The first check can never fire: with empty `value` and `name` the lookup
   * name is the declared name. So the warnings are the primitive warning
   * exactly for an optional, default-less primitive, and nothing else.
   */
  lemma OnlyPrimitiveWarning(param: ParameterDecl, annotation: RequestParamAnnotation, methodName: string)
    ensures !LacksExplicitName(param, annotation)
    ensures AnnotationWarnings(param, annotation, methodName) ==
      if !annotation.required && annotation.defaultValue == [] && param.paramType.Primitive?
      then [PrimitiveWithoutDefault(methodName, param.name)] else []
  {
  }

  /** validateParameterAnnotation */
  method ValidateParameterAnnotation(param: ParameterDecl, annotation: RequestParamAnnotation, methodName: string, report: ValidationReport)
    modifies report
    ensures report.warnings == old(report.warnings) + AnnotationWarnings(param, annotation, methodName)
    ensures report.errors == old(report.errors)
  {
    var paramName := param.name;
    var annotationValue := GetParameterName(param.(requestParam := Some(annotation)));
    if annotationValue != paramName && annotation.value == [] && annotation.name == [] {
      // the source adds NoExplicitName(methodName, paramName) here; the branch cannot be taken
      assert false;
    }
    if !annotation.required && annotation.defaultValue == [] && param.paramType.Primitive? {
      report.AddWarning(PrimitiveWithoutDefault(methodName, paramName));
    }
  }

  /** The warnings for the annotated parameters of one method, in order. */
  function MethodWarnings(methodName: string, parameters: seq<ParameterDecl>): seq<Warning>
    decreases |parameters|
  {
    if parameters == [] then []
    else
      var n := |parameters| - 1;
      var p := parameters[n];
      MethodWarnings(methodName, parameters[..n]) +
      if p.requestParam.Some? then AnnotationWarnings(p, p.requestParam.value, methodName) else []
  }

  /** The warnings for all methods of a class, in order. */
  function ControllerWarnings(methods: seq<MethodDecl>): seq<Warning>
    decreases |methods|
  {
    if methods == [] then []
    else
      var n := |methods| - 1;
      ControllerWarnings(methods[..n]) + MethodWarnings(methods[n].name, methods[n].parameters)
  }

  /** validateController */
  method ValidateController(controllerClass: ClassDecl) returns (report: ValidationReport)
    ensures fresh(report)
    ensures report.warnings == ControllerWarnings(controllerClass.methods) && report.errors == []
    ensures report.HasIssues() <==>
      exists i :: 0 <= i < |controllerClass.methods| && !NoneFlagged(controllerClass.methods[i].parameters)
  {
    report := new ValidationReport();
    var methods := controllerClass.methods;
    for i := 0 to |methods|
      invariant report.warnings == ControllerWarnings(methods[..i]) && report.errors == []
    {
      var m := methods[i];
      var parameters := m.parameters;
      ghost var before := ControllerWarnings(methods[..i]);
      for j := 0 to |parameters|
        invariant report.warnings == before + MethodWarnings(m.name, parameters[..j])
        invariant report.errors == []
      {
        var param := parameters[j];
        MethodWarningsSnoc(m.name, parameters, j);
        if param.requestParam.Some? {
          ValidateParameterAnnotation(param, param.requestParam.value, m.name, report);
        }
      }
      assert parameters[..|parameters|] == parameters;
      ControllerWarningsSnoc(methods, i);
    }
    assert methods[..|methods|] == methods;
    ControllerWarningsEmpty(methods);
  }

  lemma MethodWarningsSnoc(methodName: string, parameters: seq<ParameterDecl>, j: nat)
    requires j < |parameters|
    ensures var p := parameters[j];
      forall w: seq<Warning> :: w + MethodWarnings(methodName, parameters[..j + 1]) ==
        (w + MethodWarnings(methodName, parameters[..j])) + (if p.requestParam.Some? then AnnotationWarnings(p, p.requestParam.value, methodName) else [])
  {
    assert parameters[..j + 1][..j] == parameters[..j];
  }

  lemma ControllerWarningsSnoc(methods: seq<MethodDecl>, i: nat)
    requires i < |methods|
    ensures ControllerWarnings(methods[..i + 1]) == ControllerWarnings(methods[..i]) + MethodWarnings(methods[i].name, methods[i].parameters)
  {
    assert methods[..i + 1][..i] == methods[..i];
  }

  /** A parameter that draws the primitive warning. */
  predicate Flagged(p: ParameterDecl) {
    p.requestParam.Some? && OptionalPrimitiveWithoutDefault(p, p.requestParam.value)
  }

  lemma {:induction false} MethodWarningsEmpty(methodName: string, parameters: seq<ParameterDecl>)
    ensures MethodWarnings(methodName, parameters) == [] <==> NoneFlagged(parameters)
    decreases |parameters|
  {
    if parameters != [] {
      var n := |parameters| - 1;
      MethodWarningsEmpty(methodName, parameters[..n]);
      assert parameters == parameters[..n] + [parameters[n]];
      NoneFlaggedSnoc(parameters[..n], parameters[n]);
      var p := parameters[n];
      var last := if p.requestParam.Some? then AnnotationWarnings(p, p.requestParam.value, methodName) else [];
      if p.requestParam.Some? {
        OnlyPrimitiveWarning(p, p.requestParam.value, methodName);
      }
      assert last == [] <==> !Flagged(p);
      assert MethodWarnings(methodName, parameters) == MethodWarnings(methodName, parameters[..n]) + last;
    }
  }

  /** No annotated parameter of the list draws the primitive warning. */
  predicate NoneFlagged(parameters: seq<ParameterDecl>) {
    forall j :: 0 <= j < |parameters| ==> !Flagged(parameters[j])
  }

  lemma NoneFlaggedSnoc(parameters: seq<ParameterDecl>, p: ParameterDecl)
    ensures NoneFlagged(parameters + [p]) <==> NoneFlagged(parameters) && !Flagged(p)
  {
    assert forall j :: 0 <= j < |parameters| ==> (parameters + [p])[j] == parameters[j];
    assert (parameters + [p])[|parameters|] == p;
  }

  /** The report of validateController has issues exactly when some annotated parameter is an optional primitive without default. */
  lemma {:induction false} ControllerWarningsEmpty(methods: seq<MethodDecl>)
    ensures ControllerWarnings(methods) == [] <==> forall i :: 0 <= i < |methods| ==> NoneFlagged(methods[i].parameters)
    decreases |methods|
  {
    if methods != [] {
      var n := |methods| - 1;
      var init := methods[..n];
      ControllerWarningsEmpty(init);
      MethodWarningsEmpty(methods[n].name, methods[n].parameters);
      assert ControllerWarnings(methods) == ControllerWarnings(init) + MethodWarnings(methods[n].name, methods[n].parameters);
      assert forall i :: 0 <= i < n ==> init[i] == methods[i];
    }
  }
}
