/** What `parse` and `parse_expr` promise, stated against reference
    definitions that are independent of the parser's own recursion. */
module ParserProperties {
  import opened Base
  import opened Decimal
  import opened Ast
  import opened Parser

  /* ---------------------------------------------------------------------- */
  /* Reference definitions                                                   */

  /** The `expr` pairs of a sequence of pairs, in order. */
  function ExprPairs(ps: seq<Pair>): seq<Pair> {
    if |ps| == 0 then []
    else if ps[0].rule == ExprRule then [ps[0]] + ExprPairs(ps[1..])
    else ExprPairs(ps[1..])
  }

  /** The pair an `expr` wrapper stands for: `expr` pairs unwrap to their
      first inner pair; `None` when an `expr` chain ends in an empty one. */
  function Unwrapped(p: Pair): Option<Pair> {
    if p.rule != ExprRule then Some(p)
    else if |p.inner| == 0 then None
    else Unwrapped(p.inner[0])
  }

  /** The kinds that a recognised head symbol selects. */
  predicate IsSpecial(k: NodeKind) {
    k.Definition? || k.Let? || k.Addition? || k.Multiplication?
    || k.HttpGet? || k.JsonParse? || k.JsonGet? || k.StringUpper?
  }

  /** The head symbol that selects a special kind. */
  function HeadOf(k: NodeKind): string
    requires IsSpecial(k)
  {
    match k
    case Definition => "def"
    case Let => "let"
    case Addition => "+"
    case Multiplication => "*"
    case HttpGet => "http.get"
    case JsonParse => "json.parse"
    case JsonGet => "get"
    case StringUpper => "str.upper"
  }

  /** The `source_type` metadata that goes with a special kind. */
  function SourceTypeOf(k: NodeKind): string
    requires IsSpecial(k)
  {
    match k
    case Definition => "definition"
    case Let => "let"
    case Addition => "addition"
    case Multiplication => "multiplication"
    case HttpGet => "http_get"
    case JsonParse => "json_parse"
    case JsonGet => "json_get"
    case StringUpper => "string_upper"
  }

  ghost predicate IsHead(op: string) {
    exists k :: IsSpecial(k) && HeadOf(k) == op
  }

  /** The shape every node the parser builds has: a decimal `line` entry
      and a `source_type` entry, and a `function_name` entry exactly on
      function calls; leaves carry no children and agree with their text;
      a special kind starts with its own head symbol; and the same holds
      of every child. */
  ghost predicate WellFormed(n: Node)
    decreases n
  {
    && "line" in n.metadata && |n.metadata["line"]| > 0 && AllDigits(n.metadata["line"])
    && "source_type" in n.metadata
    && var st := n.metadata["source_type"];
    && n.metadata.Keys == (if st == "function_call" then {"line", "source_type", "function_name"} else {"line", "source_type"})
    && (match n.kind
        case Symbol(name) => n.children == [] && name == n.text && st == "symbol"
        case Number(v) => n.children == [] && st == "number" && ParseI64(n.text) == Ok(v)
        case String(c) =>
          && n.children == [] && st == "string"
          && |n.text| >= 2 && n.text == [n.text[0]] + c + [n.text[|n.text| - 1]]
        case List =>
          if n.children == [] then st == "empty_list"
          else if n.children[0].kind.Symbol? then
            && st == "function_call"
            && n.metadata["function_name"] == n.children[0].kind.name
            && !IsHead(n.children[0].kind.name)
          else st == "list"
        case _ =>
          && n.children != []
          && n.children[0].kind == Symbol(HeadOf(n.kind))
          && st == SourceTypeOf(n.kind))
    && forall c :: c in n.children ==> WellFormed(c)
  }

  /* ---------------------------------------------------------------------- */
  /* Leaves                                                                  */

  /** Every character takes at least one byte. */
  lemma {:induction false} ByteLenAtLeastLength(s: string)
    ensures ByteLen(s) >= |s|
  {
    if |s| > 0 {
      ByteLenAtLeastLength(s[1..]);
    }
  }

  /** A string literal is malformed exactly when it is shorter than two
      bytes; a literal of two or more characters whose ends are one byte
      each is accepted as what lies between them; the cut panics exactly
      when the literal has two or more bytes and an end is a multi-byte
      character. */
  lemma UnquoteSpec(s: string)
    ensures Unquote(s) == Err(Raised(ParseError("Malformed string literal")))
            <==> s == "" || (|s| == 1 && Utf8Width(s[0]) == 1)
    ensures Unquote(s).Ok? ==>
              && |s| >= 2 && Utf8Width(s[0]) == 1 && Utf8Width(s[|s| - 1]) == 1
              && s == [s[0]] + Unquote(s).value + [s[|s| - 1]]
  {
    ByteLenAtLeastLength(s);
    if |s| == 1 {
      assert ByteLen(s) == Utf8Width(s[0]) + ByteLen(s[1..]);
    }
    if Unquote(s).Ok? {
      assert s == [s[0]] + s[1..|s| - 1] + [s[|s| - 1]];
    }
  }

  /** Every literal of two or more characters with one-byte ends is
      accepted, as the text between its ends. */
  lemma UnquoteAccepts(s: string)
    requires |s| >= 2 && Utf8Width(s[0]) == 1 && Utf8Width(s[|s| - 1]) == 1
    ensures Unquote(s) == Ok(s[1..|s| - 1])
  {
    ByteLenAtLeastLength(s);
  }

  /** Cutting the ends off panics exactly when the literal has two or more
      bytes and one of its end characters takes more than one byte. */
  lemma UnquotePanics(s: string)
    ensures Unquote(s).Err? && Unquote(s).error.Panicked? <==>
              ByteLen(s) >= 2 && (Utf8Width(s[0]) > 1 || Utf8Width(s[|s| - 1]) > 1)
  {
    if |s| < 2 {
      UnquoteShort(s);
    } else {
      UnquoteLong(s);
    }
  }

  /** A literal of two or more characters is never malformed: it is cut
      when both ends are one byte and panics otherwise. */
  lemma UnquoteLong(s: string)
    requires |s| >= 2
    ensures ByteLen(s) >= 2
    ensures Unquote(s) == if Utf8Width(s[0]) == 1 && Utf8Width(s[|s| - 1]) == 1 then Ok(s[1..|s| - 1])
                          else Err(Panicked("byte index is not a char boundary"))
  {
    ByteLenAtLeastLength(s);
  }

  /** A literal of at most one character is malformed when it is at most
      one byte long, and otherwise cannot be cut. */
  lemma UnquoteShort(s: string)
    requires |s| < 2
    ensures ByteLen(s) == if |s| == 0 then 0 else Utf8Width(s[0])
    ensures Unquote(s) == if ByteLen(s) < 2 then Err(Raised(ParseError("Malformed string literal")))
                          else Err(Panicked("byte index is not a char boundary"))
  {
    if |s| == 1 {
      assert s[1..] == [];
    }
  }

  /** Quoting any content and parsing the literal gives the content back. */
  lemma UnquoteRoundTrip(content: string)
    ensures Unquote("\"" + content + "\"") == Ok(content)
  {
    var s := "\"" + content + "\"";
    ByteLenAtLeastLength(s);
    assert s[1..|s| - 1] == content;
  }

  /** A `symbol` pair becomes a childless `Symbol` leaf named by its text. */
  lemma SymbolLeaf(p: Pair)
    requires p.rule == SymbolRule
    ensures ParseExpr(p).Ok?
    ensures ParseExpr(p).value.kind == Symbol(p.text)
    ensures ParseExpr(p).value.children == []
    ensures ParseExpr(p).value.metadata["source_type"] == "symbol"
  {
  }

  /** A `number` pair is accepted exactly when its text is a well-formed
      literal inside `i64`, and then carries that literal's value. */
  lemma NumberLeaf(p: Pair)
    requires p.rule == NumberRule
    ensures ParseExpr(p).Ok? <==> WellFormedInt(p.text) && InI64(IntValue(p.text))
    ensures ParseExpr(p).Ok? ==>
              ParseExpr(p).value.kind == Number(IntValue(p.text)) && ParseExpr(p).value.children == []
    ensures ParseExpr(p).Err? ==>
              exists k :: ParseExpr(p) == Err(Raised(ParseError("Failed to parse number: " + ErrorText(k))))
  {
    ParseI64Spec(p.text);
    if ParseI64(p.text).Err? {
      var k := ParseI64(p.text).error;
      assert ParseExpr(p) == Err(Raised(ParseError("Failed to parse number: " + ErrorText(k))));
    }
  }

  /** The decimal text of every `i64` reads back as a `Number` of that value. */
  lemma NumberRoundTrip(n: int, line: nat)
    requires InI64(n)
    ensures ParseExpr(Pair(NumberRule, ShowInt(n), line, [])) ==
            Ok(Node(Number(n), ShowInt(n), [], map["line" := ShowNat(line), "source_type" := "number"]))
  {
    ShowIntRoundTrip(n);
  }

  /** A quoted `string` pair becomes a `String` leaf holding the content. */
  lemma StringLeaf(content: string, line: nat)
    ensures ParseExpr(Pair(StringRule, "\"" + content + "\"", line, [])).Ok?
    ensures ParseExpr(Pair(StringRule, "\"" + content + "\"", line, [])).value.kind == String(content)
  {
    UnquoteRoundTrip(content);
  }

  /** A string pair fails exactly when cutting its quotes off fails, with
      that failure: malformed or panicked, never converted to another error. */
  lemma StringPairSpec(p: Pair)
    requires p.rule == StringRule
    ensures ParseExpr(p).Err? <==> Unquote(p.text).Err?
    ensures ParseExpr(p).Err? ==> ParseExpr(p).error == Unquote(p.text).error
    ensures ParseExpr(p).Ok? ==>
              && ParseExpr(p).value.kind == String(Unquote(p.text).value)
              && ParseExpr(p).value.children == []
              && ParseExpr(p).value.metadata["source_type"] == "string"
  {
  }

  /* ---------------------------------------------------------------------- */
  /* Head table                                                              */

  /** The head table and the kind-indexed tables are inverse: a head is
      recognised exactly when it is the head of a special kind, and the
      `source_type` it sets is the one that goes with that kind. */
  lemma HeadFormInverse(op: string)
    ensures HeadForm(op).Some? <==> IsHead(op)
    ensures HeadForm(op).Some? ==>
              && IsSpecial(HeadForm(op).value.0)
              && HeadOf(HeadForm(op).value.0) == op
              && HeadForm(op).value.1 == SourceTypeOf(HeadForm(op).value.0)
  {
    if IsHead(op) {
      var k :| IsSpecial(k) && HeadOf(k) == op;
      HeadOfRecognised(k);
    }
    if HeadForm(op).Some? {
      var k := HeadForm(op).value.0;
      assert IsSpecial(k) && HeadOf(k) == op;
    }
  }

  /** The head of every special kind selects that kind. */
  lemma HeadOfRecognised(k: NodeKind)
    requires IsSpecial(k)
    ensures HeadForm(HeadOf(k)) == Some((k, SourceTypeOf(k)))
  {
  }

  /* ---------------------------------------------------------------------- */
  /* Lists and the top level                                                 */

  /** Reference conversion of a sequence of `expr` pairs: each converted in
      order, the first failure being the result. */
  function ParseAll(qs: seq<Pair>): Result<seq<Node>, Failure> {
    if |qs| == 0 then Ok([])
    else
      match ParseExpr(qs[0])
      case Err(f) => Err(f)
      case Ok(n) =>
        match ParseAll(qs[1..])
        case Err(f) => Err(f)
        case Ok(rest) => Ok([n] + rest)
  }

  /** Converting a sequence of pairs gives one node per pair, in order, or
      the failure of the first pair that fails. */
  lemma {:induction false} ParseAllSpec(qs: seq<Pair>)
    ensures ParseAll(qs).Ok? <==> forall j :: 0 <= j < |qs| ==> ParseExpr(qs[j]).Ok?
    ensures ParseAll(qs).Ok? ==>
              && |ParseAll(qs).value| == |qs|
              && forall j :: 0 <= j < |qs| ==> ParseAll(qs).value[j] == ParseExpr(qs[j]).value
    ensures ParseAll(qs).Err? ==>
              exists j :: 0 <= j < |qs| && ParseExpr(qs[j]) == Err(ParseAll(qs).error)
                          && forall k :: 0 <= k < j ==> ParseExpr(qs[k]).Ok?
    decreases |qs|
  {
    if |qs| > 0 {
      var rs := qs[1..];
      ParseAllSpec(rs);
      assert forall j :: 1 <= j < |qs| ==> qs[j] == rs[j - 1];
      if ParseExpr(qs[0]).Ok? && ParseAll(rs).Err? {
        var j :| 0 <= j < |rs| && ParseExpr(rs[j]) == Err(ParseAll(rs).error)
                 && forall k :: 0 <= k < j ==> ParseExpr(rs[k]).Ok?;
        assert ParseExpr(qs[j + 1]) == Err(ParseAll(qs).error);
      }
    }
  }

  /** The loop over a list's inner pairs from `i` on is the reference
      conversion of the `expr` pairs among them: other pairs are dropped. */
  lemma {:induction false} ParseChildrenConvertsExprPairs(p: Pair, i: nat)
    requires i <= |p.inner|
    ensures ParseChildren(p, i) == ParseAll(ExprPairs(p.inner[i..]))
    decreases |p.inner| - i
  {
    if i < |p.inner| {
      assert p.inner[i..][0] == p.inner[i];
      assert p.inner[i..][1..] == p.inner[i + 1..];
      ParseChildrenConvertsExprPairs(p, i + 1);
      if p.inner[i].rule == ExprRule {
        assert ExprPairs(p.inner[i..])[1..] == ExprPairs(p.inner[i + 1..]);
      }
    } else {
      assert p.inner[i..] == [];
    }
  }

  /** Whether every top-level pair is an `expr` or the end of input. */
  predicate TopRulesAccepted(pairs: seq<Pair>) {
    forall j :: 0 <= j < |pairs| ==> pairs[j].rule == ExprRule || pairs[j].rule == EoiRule
  }

  /** `parse` over the top-level pairs: when every one is an `expr` or
      `EOI`, the reference conversion of the `expr` pairs (so `EOI` is
      skipped); any other top-level rule makes it fail. */
  lemma {:induction false} ParseTopConvertsExprPairs(pairs: seq<Pair>)
    ensures TopRulesAccepted(pairs) ==> ParseTop(pairs) == ParseAll(ExprPairs(pairs))
    ensures !TopRulesAccepted(pairs) ==> ParseTop(pairs).Err?
    decreases |pairs|
  {
    if |pairs| > 0 {
      var rest := pairs[1..];
      ParseTopConvertsExprPairs(rest);
      assert forall j :: 1 <= j < |pairs| ==> pairs[j] == rest[j - 1];
      if pairs[0].rule == ExprRule {
        assert ExprPairs(pairs)[1..] == ExprPairs(rest);
      }
      if !TopRulesAccepted(pairs) && TopRulesAccepted(rest) {
        assert pairs[0].rule != ExprRule && pairs[0].rule != EoiRule;
      }
    }
  }

  /** `parse` returns exactly one node per top-level `expr` pair, in source
      order, when every top-level pair is an `expr` or `EOI` and every
      `expr` converts; otherwise it fails at the first pair that does not. */
  lemma ParseTopSpec(pairs: seq<Pair>)
    ensures var qs := ExprPairs(pairs);
            ParseTop(pairs).Ok? <==>
              TopRulesAccepted(pairs) && forall j :: 0 <= j < |qs| ==> ParseExpr(qs[j]).Ok?
    ensures var qs := ExprPairs(pairs);
            ParseTop(pairs).Ok? ==>
              && |ParseTop(pairs).value| == |qs|
              && forall j :: 0 <= j < |qs| ==> ParseTop(pairs).value[j] == ParseExpr(qs[j]).value
    ensures ParseTop(pairs).Err? ==>
              exists j :: 0 <= j < |pairs| && TopPrefixConverts(pairs, j)
                          && TopFailsWith(pairs[j], ParseTop(pairs).error)
  {
    ParseTopError(pairs);
    ParseTopConvertsExprPairs(pairs);
    ParseAllSpec(ExprPairs(pairs));
  }

  /** Whether the top-level pairs before `j` are all skipped or converted. */
  predicate TopPrefixConverts(pairs: seq<Pair>, j: nat)
    requires j <= |pairs|
  {
    forall k :: 0 <= k < j ==>
      pairs[k].rule == EoiRule || (pairs[k].rule == ExprRule && ParseExpr(pairs[k]).Ok?)
  }

  /** Whether a top-level pair fails with `f`: an `expr` with its own
      conversion error, any rule but `EOI` with "Unexpected rule: " and the
      rule's name. */
  predicate TopFailsWith(p: Pair, f: Failure) {
    if p.rule == ExprRule then ParseExpr(p) == Err(f)
    else p.rule != EoiRule && f == Raised(ParseError("Unexpected rule: " + RuleName(p.rule)))
  }

  /** A failing `parse` fails at its first failing top-level pair, with the
      error of that `expr`, or with "Unexpected rule" for a rule that is
      neither `expr` nor `EOI`; every pair before it is skipped or converts. */
  lemma {:induction false} ParseTopError(pairs: seq<Pair>)
    ensures ParseTop(pairs).Err? ==>
              exists j :: 0 <= j < |pairs| && TopPrefixConverts(pairs, j)
                          && TopFailsWith(pairs[j], ParseTop(pairs).error)
    decreases |pairs|
  {
    if |pairs| > 0 && ParseTop(pairs).Err? {
      var rest := pairs[1..];
      var first := pairs[0];
      if first.rule == ExprRule && ParseExpr(first).Err? {
        assert TopPrefixConverts(pairs, 0);
        assert TopFailsWith(pairs[0], ParseTop(pairs).error);
      } else if first.rule == ExprRule || first.rule == EoiRule {
        assert ParseTop(pairs).error == ParseTop(rest).error;
        ParseTopError(rest);
        var j :| 0 <= j < |rest| && TopPrefixConverts(rest, j) && TopFailsWith(rest[j], ParseTop(rest).error);
        assert forall k :: 1 <= k < |pairs| ==> pairs[k] == rest[k - 1];
        assert TopPrefixConverts(pairs, j + 1);
        assert TopFailsWith(pairs[j + 1], ParseTop(pairs).error);
      } else {
        assert TopPrefixConverts(pairs, 0);
        assert TopFailsWith(pairs[0], ParseTop(pairs).error);
      }
    }
  }

  /** An `expr` pair stands for the first pair inside it: its conversion is
      that pair's conversion, and the node's text and `line` come from the
      unwrapped pair; an `expr` chain that ends empty is an error. */
  lemma {:induction false} ParseExprSource(p: Pair)
    ensures Unwrapped(p).None? ==> ParseExpr(p) == Err(Raised(ParseError("Empty expression")))
    ensures Unwrapped(p).Some? ==> ParseExpr(p) == ParseExpr(Unwrapped(p).value)
    ensures Unwrapped(p).Some? && Unwrapped(p).value.rule in {ProgramRule, EoiRule} ==>
              ParseExpr(p) == Err(Raised(ParseError("Unexpected rule: " + RuleName(Unwrapped(p).value.rule))))
    ensures Unwrapped(p).Some? && Unwrapped(p).value.rule.OtherRule? ==>
              ParseExpr(p) == Err(Raised(ParseError("Unexpected rule: " + Unwrapped(p).value.rule.name)))
    ensures ParseExpr(p).Ok? ==>
              && Unwrapped(p).Some?
              && "line" in ParseExpr(p).value.metadata
              && ParseExpr(p).value.text == Unwrapped(p).value.text
              && ParseExpr(p).value.metadata["line"] == ShowNat(Unwrapped(p).value.line)
    decreases p
  {
    if p.rule == ExprRule && |p.inner| > 0 {
      ParseExprSource(p.inner[0]);
    }
  }

  /** The kind of a list follows its children: empty, a recognised head
      symbol, another symbol (a call of that name), or anything else; the
      children are exactly the converted `expr` pairs inside the list, and
      the head stays the first child. */
  lemma ParseListSpec(p: Pair)
    requires p.rule == ListRule
    ensures var qs := ExprPairs(p.inner);
            ParseExpr(p).Ok? <==> forall j :: 0 <= j < |qs| ==> ParseExpr(qs[j]).Ok?
    ensures var qs := ExprPairs(p.inner);
            ParseExpr(p).Ok? ==>
              var n := ParseExpr(p).value;
              && |n.children| == |qs|
              && (forall j :: 0 <= j < |qs| ==> n.children[j] == ParseExpr(qs[j]).value)
              && (n.children == [] ==> n.kind == List && n.metadata["source_type"] == "empty_list")
              && (n.children != [] && n.children[0].kind.Symbol? && IsHead(n.children[0].kind.name) ==>
                    IsSpecial(n.kind) && HeadOf(n.kind) == n.children[0].kind.name)
              && (n.children != [] && n.children[0].kind.Symbol? && !IsHead(n.children[0].kind.name) ==>
                    n.kind == List && n.metadata["source_type"] == "function_call"
                    && n.metadata["function_name"] == n.children[0].kind.name)
              && (n.children != [] && !n.children[0].kind.Symbol? ==>
                    n.kind == List && n.metadata["source_type"] == "list")
    ensures var qs := ExprPairs(p.inner);
            ParseExpr(p).Err? ==>
              exists j :: 0 <= j < |qs| && ParseExpr(qs[j]) == ParseExpr(p)
                          && forall k :: 0 <= k < j ==> ParseExpr(qs[k]).Ok?
  {
    ParseListError(p);
    assert p.inner[0..] == p.inner;
    ParseChildrenConvertsExprPairs(p, 0);
    ParseAllSpec(ExprPairs(p.inner));
    if ParseExpr(p).Ok? {
      var n := ParseExpr(p).value;
      if n.children != [] && n.children[0].kind.Symbol? {
        HeadFormInverse(n.children[0].kind.name);
      }
    }
  }

  /** A failing list fails with the error of its first failing `expr`
      child, passed through unchanged; the children before it convert. */
  lemma ParseListError(p: Pair)
    requires p.rule == ListRule
    ensures ParseExpr(p).Err? <==> ParseAll(ExprPairs(p.inner)).Err?
    ensures ParseExpr(p).Err? ==> ParseExpr(p).error == ParseAll(ExprPairs(p.inner)).error
    ensures var qs := ExprPairs(p.inner);
            ParseExpr(p).Err? ==>
              exists j :: 0 <= j < |qs| && ParseExpr(qs[j]) == ParseExpr(p)
                          && forall k :: 0 <= k < j ==> ParseExpr(qs[k]).Ok?
  {
    assert p.inner[0..] == p.inner;
    ParseChildrenConvertsExprPairs(p, 0);
    ParseAllSpec(ExprPairs(p.inner));
  }

  /** A list node over well-formed children is well formed. */
  lemma ListNodeWellFormed(text: string, children: seq<Node>, line: nat)
    requires forall c :: c in children ==> WellFormed(c)
    ensures WellFormed(ListNode(text, children, map["line" := ShowNat(line)]))
  {
    if children != [] && children[0].kind.Symbol? {
      HeadFormInverse(children[0].kind.name);
    }
  }

  /** The leaves `parse_expr` builds are well formed. */
  lemma LeafWellFormed(p: Pair)
    requires p.rule == SymbolRule || p.rule == NumberRule || p.rule == StringRule
    ensures ParseExpr(p).Ok? ==> WellFormed(ParseExpr(p).value)
  {
    if p.rule == StringRule {
      UnquoteSpec(p.text);
    }
  }

  /** A list whose `expr` pairs all convert to well-formed nodes converts
      to a well-formed node. */
  lemma ListWellFormed(p: Pair)
    requires p.rule == ListRule
    requires forall q :: q in ExprPairs(p.inner) && ParseExpr(q).Ok? ==> WellFormed(ParseExpr(q).value)
    ensures ParseExpr(p).Ok? ==> WellFormed(ParseExpr(p).value)
  {
    if ParseExpr(p).Ok? {
      var qs := ExprPairs(p.inner);
      var children := ParseChildren(p, 0).value;
      assert p.inner[0..] == p.inner;
      ParseChildrenConvertsExprPairs(p, 0);
      ParseAllSpec(qs);
      assert forall j :: 0 <= j < |children| ==> WellFormed(children[j]) by {
        forall j | 0 <= j < |children| ensures WellFormed(children[j]) {
          assert qs[j] in qs;
        }
      }
      ListNodeWellFormed(p.text, children, p.line);
      assert ParseExpr(p).value == ListNode(p.text, children, LineMetadata(p));
    }
  }

  /** Every node `parse_expr` builds is well formed, children included. */
  lemma {:induction false} ParseExprWellFormed(p: Pair)
    ensures ParseExpr(p).Ok? ==> WellFormed(ParseExpr(p).value)
    decreases p
  {
    match p.rule
    case SymbolRule => LeafWellFormed(p);
    case NumberRule => LeafWellFormed(p);
    case StringRule => LeafWellFormed(p);
    case ExprRule =>
      if |p.inner| > 0 {
        ParseExprWellFormed(p.inner[0]);
      }
    case ListRule =>
      forall q | q in ExprPairs(p.inner)
        ensures ParseExpr(q).Ok? ==> WellFormed(ParseExpr(q).value)
      {
        ExprPairsMember(p.inner, q);
        ParseExprWellFormed(q);
      }
      ListWellFormed(p);
    case _ =>
  }

  /** The `expr` pairs of a list are among its inner pairs, hence smaller. */
  lemma {:induction false} ExprPairsMember(ps: seq<Pair>, q: Pair)
    requires q in ExprPairs(ps)
    ensures q in ps
    decreases |ps|
  {
    if ps[0] != q {
      ExprPairsMember(ps[1..], q);
    }
  }
}
