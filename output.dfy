/**
 * The value types the compiler produces and passes around: source positions,
 * diagnostics, string-table entries, declarations and the compiled program.
 * Their own source files are not part of this model; the fields follow their
 * use in the compiler, the node listener and the debug-info accessor.
 */
module Output {
  import opened Wrappers

  /** A zero-based line/character position in a source file. */
  datatype Position = Position(line: nat, character: nat)

  /** An inclusive range of positions (`start..=end`). */
  datatype Range = Range(start: Position, end: Position)

  datatype DiagnosticSeverity = Error | Warning | Info

  /** A structured compiler message. */
  datatype Diagnostic = Diagnostic(
    message: string,
    fileName: Option<string>,
    range: Option<Range>,
    context: Option<string>,
    severity: DiagnosticSeverity)

  /** One localisable line of text in the string table. */
  datatype StringInfo = StringInfo(
    text: string,
    nodeName: string,
    lineNumber: nat,
    fileName: string,
    isImplicitTag: bool,
    metadata: seq<string>)

  /** The builtin types a declaration may name. */
  datatype BuiltinType = Any | Number | String | Boolean | Undefined

  datatype YarnValue = NumberValue(n: real) | StringValue(s: string) | BooleanValue(b: bool)

  datatype DeclarationSource = External | File(name: string)

  /** A variable's declared or inferred type and default value. */
  datatype Declaration = Declaration(
    name: string,
    defaultValue: YarnValue,
    description: string,
    sourceFileName: DeclarationSource,
    sourceNodeName: Option<string>,
    isImplicit: bool,
    declarationType: BuiltinType,
    range: Range)

  /** One emitted bytecode instruction; its encoding belongs to the runtime. */
  datatype Instruction = Instruction(opcode: nat, operands: seq<string>)

  datatype Header = Header(key: string, value: string)

  /** A compiled node. */
  datatype Node = Node(
    name: string,
    instructions: seq<Instruction>,
    labels: map<string, nat>,
    tags: seq<string>,
    sourceTextStringId: string,
    headers: seq<Header>)

  /** A compiled program: the nodes by name. */
  datatype Program = Program(nodes: map<string, Node>)
}
