/**
 * What reflection reports about the application's classes, as plain values:
 * the framework's annotations with their defaults, declared parameter
 * types, methods and classes.
 */
module Reflection {
  import opened Wrappers

  /** The scalar kinds the parameter binder converts to. */
  datatype Kind = IntKind | LongKind | DoubleKind | FloatKind | BooleanKind | ShortKind | ByteKind | CharKind

  /** A declared parameter type: String, a primitive, its wrapper class, or any other class. */
  datatype JavaType =
    | StringType
    | Primitive(kind: Kind)
    | Boxed(kind: Kind)
    | OtherType(simpleName: string)

  /** The name of a primitive type. */
  function PrimitiveName(k: Kind): string {
    match k
    case IntKind => "int"
    case LongKind => "long"
    case DoubleKind => "double"
    case FloatKind => "float"
    case BooleanKind => "boolean"
    case ShortKind => "short"
    case ByteKind => "byte"
    case CharKind => "char"
  }

  /** The simple name of a primitive's wrapper class. */
  function WrapperName(k: Kind): string {
    match k
    case IntKind => "Integer"
    case LongKind => "Long"
    case DoubleKind => "Double"
    case FloatKind => "Float"
    case BooleanKind => "Boolean"
    case ShortKind => "Short"
    case ByteKind => "Byte"
    case CharKind => "Character"
  }

  /** `Class.getSimpleName()` */
  function SimpleName(t: JavaType): string {
    match t
    case StringType => "String"
    case Primitive(k) => PrimitiveName(k)
    case Boxed(k) => WrapperName(k)
    case OtherType(name) => name
  }

  /** `@RequestParam`, with the defaults of its declaration. */
  datatype RequestParamAnnotation = RequestParamAnnotation(value: string, name: string, required: bool, defaultValue: string)

  /** `@RequestParam` written with no element. */
  const PlainRequestParam := RequestParamAnnotation("", "", true, "")

  /** A declared method parameter and its `@RequestParam`, if any. */
  datatype ParameterDecl = ParameterDecl(name: string, paramType: JavaType, requestParam: Option<RequestParamAnnotation>)

  /** `@Router(value, view, methods)` */
  datatype RouterAnnotation = RouterAnnotation(value: string, view: string, methods: seq<string>)

  /** `@GET(value, view)` */
  datatype GetAnnotation = GetAnnotation(value: string, view: string)

  /** `@POST(value, view)` */
  datatype PostAnnotation = PostAnnotation(value: string, view: string)

  /** A declared method with its route annotations. */
  datatype MethodDecl = MethodDecl(
    name: string,
    parameters: seq<ParameterDecl>,
    router: Option<RouterAnnotation>,
    get: Option<GetAnnotation>,
    post: Option<PostAnnotation>)

  /** A class: its name, whether it carries `@Controller`, and its declared methods. */
  datatype ClassDecl = ClassDecl(name: string, isController: bool, methods: seq<MethodDecl>)
}
