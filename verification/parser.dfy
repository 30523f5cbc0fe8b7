/** From a parse tree of `Pair`s to `Node`s (src/parser.rs). The grammar and
    the parsing engine that produce the `Pair` tree are not part of this
    model: their output is the input here. */
module Parser {
  import opened Base
  import opened Decimal
  import opened Ast

  /** The grammar rules a `Pair` can carry; `OtherRule` stands for every
      rule of the grammar that the parser has no branch for. */
  datatype Rule =
    | ProgramRule
    | ExprRule
    | SymbolRule
    | NumberRule
    | StringRule
    | ListRule
    | EoiRule
    | OtherRule(name: string)

  /** A matched grammar rule: its rule, the source text it spans, the line
      its span starts on and the pairs matched inside it, in order. */
  datatype Pair = Pair(rule: Rule, text: string, line: nat, inner: seq<Pair>)

  /** How parsing fails: an `Error` returned to the caller, or a Rust panic
      (which the source does not catch). */
  datatype Failure = Raised(error: Error) | Panicked(message: string)

  /** The `Debug` text of a rule, as it appears in "Unexpected rule" errors. */
  function RuleName(r: Rule): string {
    match r
    case ProgramRule => "program"
    case ExprRule => "expr"
    case SymbolRule => "symbol"
    case NumberRule => "number"
    case StringRule => "string"
    case ListRule => "list"
    case EoiRule => "EOI"
    case OtherRule(name) => name
  }

  function UnexpectedRule(r: Rule): Failure {
    Raised(ParseError("Unexpected rule: " + RuleName(r)))
  }

  /* ---------------------------------------------------------------------- */
  /* String literals: Rust measures and slices `str` in UTF-8 bytes          */

  /** Bytes the UTF-8 encoding of a character takes. */
  function Utf8Width(c: char): nat {
    if c as int < 0x80 then 1
    else if c as int < 0x800 then 2
    else if c as int < 0x1_0000 then 3
    else 4
  }

  /** `str::len`: the UTF-8 byte length of a string. */
  function ByteLen(s: string): nat {
    if |s| == 0 then 0 else Utf8Width(s[0]) + ByteLen(s[1..])
  }

  /** The string branch of `parse_expr`: a literal of fewer than two bytes
      is malformed; otherwise the first and last byte are cut off, which
      panics unless both ends are one-byte (ASCII) characters, because a
      `str` can only be sliced on character boundaries. */
  function Unquote(s: string): Result<string, Failure> {
    if ByteLen(s) < 2 then Err(Raised(ParseError("Malformed string literal")))
    else if Utf8Width(s[0]) == 1 && Utf8Width(s[|s| - 1]) == 1 && |s| >= 2 then Ok(s[1..|s| - 1])
    else Err(Panicked("byte index is not a char boundary"))
  }

  /* ---------------------------------------------------------------------- */
  /* List heads                                                              */

  /** The head table of `parse_expr`: the node kind and the `source_type`
      a list gets when its first child is the given symbol. */
  function HeadForm(op: string): Option<(NodeKind, string)> {
    match op
    case "def" => Some((Definition, "definition"))
    case "let" => Some((Let, "let"))
    case "+" => Some((Addition, "addition"))
    case "*" => Some((Multiplication, "multiplication"))
    case "http.get" => Some((HttpGet, "http_get"))
    case "json.parse" => Some((JsonParse, "json_parse"))
    case "get" => Some((JsonGet, "json_get"))
    case "str.upper" => Some((StringUpper, "string_upper"))
    case _ => None
  }

  /* ---------------------------------------------------------------------- */
  /* parse_expr and parse                                                    */

  function LineMetadata(p: Pair): map<string, string> {
    map["line" := ShowNat(p.line)]
  }

  /** `parse_expr`: one pair to one node. */
  function ParseExpr(p: Pair): Result<Node, Failure>
    decreases p, |p.inner| + 1
  {
    var md := LineMetadata(p);
    match p.rule
    case SymbolRule =>
      Ok(Node(Symbol(p.text), p.text, [], md["source_type" := "symbol"]))
    case NumberRule =>
      (match ParseI64(p.text)
       case Err(k) => Err(Raised(ParseError("Failed to parse number: " + ErrorText(k))))
       case Ok(n) => Ok(Node(Number(n), p.text, [], md["source_type" := "number"])))
    case StringRule =>
      (match Unquote(p.text)
       case Err(f) => Err(f)
       case Ok(content) => Ok(Node(String(content), p.text, [], md["source_type" := "string"])))
    case ListRule =>
      (match ParseChildren(p, 0)
       case Err(f) => Err(f)
       case Ok(children) => Ok(ListNode(p.text, children, md)))
    case ExprRule =>
      if |p.inner| == 0 then Err(Raised(ParseError("Empty expression")))
      else ParseExpr(p.inner[0])
    case _ => Err(UnexpectedRule(p.rule))
  }

  /** The loop over a list's inner pairs from index `i` on: `expr` pairs are
      parsed in order, the first failure stops the loop, other pairs are
      skipped. */
  function ParseChildren(p: Pair, i: nat): Result<seq<Node>, Failure>
    requires i <= |p.inner|
    decreases p, |p.inner| - i
  {
    if i == |p.inner| then Ok([])
    else if p.inner[i].rule != ExprRule then ParseChildren(p, i + 1)
    else
      match ParseExpr(p.inner[i])
      case Err(f) => Err(f)
      case Ok(child) =>
        match ParseChildren(p, i + 1)
        case Err(f) => Err(f)
        case Ok(rest) => Ok([child] + rest)
  }

  /** The kind and metadata a list node gets from its parsed children. */
  function ListNode(text: string, children: seq<Node>, md: map<string, string>): Node {
    if |children| == 0 then Node(List, text, [], md["source_type" := "empty_list"])
    else
      match children[0].kind
      case Symbol(op) =>
        (match HeadForm(op)
         case Some((kind, sourceType)) => Node(kind, text, children, md["source_type" := sourceType])
         case None => Node(List, text, children, md["source_type" := "function_call"]["function_name" := op]))
      case _ => Node(List, text, children, md["source_type" := "list"])
  }

  /** `parse`, after the grammar has run: the engine's own failure becomes a
      `ParseError`; otherwise the top-level pairs are converted in order. */
  function Parse(engine: Result<seq<Pair>, string>): Result<seq<Node>, Failure> {
    match engine
    case Err(message) => Err(Raised(ParseError(message)))
    case Ok(pairs) => ParseTop(pairs)
  }

  /** The loop of `parse` over the top-level pairs: `expr` pairs become
      nodes, `EOI` is skipped, any other rule is an error. */
  function ParseTop(pairs: seq<Pair>): Result<seq<Node>, Failure>
    decreases |pairs|
  {
    if |pairs| == 0 then Ok([])
    else
      match pairs[0].rule
      case ExprRule =>
        (match ParseExpr(pairs[0])
         case Err(f) => Err(f)
         case Ok(node) =>
           match ParseTop(pairs[1..])
           case Err(f) => Err(f)
           case Ok(rest) => Ok([node] + rest))
      case EoiRule => ParseTop(pairs[1..])
      case _ => Err(UnexpectedRule(pairs[0].rule))
  }
}
