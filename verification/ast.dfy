/** The crate-level syntax tree that the parser builds: `Node`, `NodeKind`
    and `Error` are used by the parser but their definitions are not part
    of this model, so only the shapes visible where they are used appear
    here. `Node::new(kind, text, children, metadata)` is modelled as the
    plain constructor `Node`. */
module Ast {

  datatype NodeKind =
    | Symbol(name: string)
    | Number(value: int)
    | String(content: string)
    | List
    | Definition
    | Let
    | Addition
    | Multiplication
    | HttpGet
    | JsonParse
    | JsonGet
    | StringUpper

  /** A node: its kind, the source text it was built from, its children in
      source order and its string-to-string metadata. */
  datatype Node = Node(kind: NodeKind, text: string, children: seq<Node>, metadata: map<string, string>)

  /** The one error variant the parser raises. */
  datatype Error = ParseError(message: string)
}
