/**
 * What the page assembler reads about a compiled type.  The decompiler's type system, the
 * C# formatters and the XML documentation parser are outside the model: their results
 * (display names, declarations, formatted types, parsed comments) are fields here.
 */
module TypeSystem {
  import opened Wrappers

  /** The decompiler's TypeKind, with the kinds the assembler does not name folded into OtherKind. */
  datatype TypeKind = Class | Interface | Struct | Delegate | Enum | FunctionPointer | OtherKind(kindName: string)

  /** How a kind prints, as in the page title `$"{typeName} {type.Kind}"`. */
  function KindName(kind: TypeKind): string {
    match kind
    case Class => "Class"
    case Interface => "Interface"
    case Struct => "Struct"
    case Delegate => "Delegate"
    case Enum => "Enum"
    case FunctionPointer => "FunctionPointer"
    case OtherKind(name) => name
  }

  /** Accessibility; only Public matters to the assembler. */
  datatype Accessibility = Public | NotPublic

  /** A parsed documentation comment (the fields of XmlComment the assembler reads). */
  datatype XmlComment = XmlComment(
    summary: Option<string>,
    remarks: Option<string>,
    seealso: Option<seq<string>>,
    example: Option<seq<string>>,
    param: Option<map<string, string>>,
    typeparam: Option<map<string, string>>)

  /** A parameter of a method, with its type as the C# formatter prints it. */
  datatype Parameter = Parameter(name: string, formattedType: string)

  /** A member declared by the type itself (inherited members are never listed). */
  datatype Member = Member(
    name: string,
    signature: string,                         // the jump-list formatter's rendering
    summary: Option<string>,                   // summary of its parsed doc comment, if any
    isStatic: bool,
    isOperator: bool,
    isExplicitInterfaceImplementation: bool,
    constantValue: string,                     // `$"{item.GetConstantValue()}"`
    parameters: seq<Parameter>)

  /** A top-level type definition of the main module. */
  datatype TypeDefinition = TypeDefinition(
    kind: TypeKind,
    accessibility: Accessibility,
    name: string,
    namespace: string,
    fullTypeName: string,                      // `type.FullTypeName.ToString()`
    moduleName: Option<string>,                // `type.ParentModule?.Name`
    displayName: string,                       // the name formatter's rendering
    declaration: string,                       // the declaration formatter's rendering
    typeParameters: seq<string>,
    constructors: seq<Member>,
    fields: seq<Member>,
    properties: seq<Member>,
    methods: seq<Member>,
    events: seq<Member>,
    comment: Option<XmlComment>)               // None when there is no (well-formed) doc comment
}
