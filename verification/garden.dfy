/** The hard-coded program of src/main.rs and the loop that evaluates it:
    expressions run in order, each against the context built by the ones
    before it, and each result is stored under the expression's path. The
    network request and the JSON reader are parameters of the model. */
module Garden {
  import opened Base

  /** A JSON document as `serde_json::Value` holds it; numbers are kept as
      their text, since the program never looks at them. */
  datatype JsonValue =
    | JNull
    | JBool(b: bool)
    | JNumber(text: string)
    | JString(s: string)
    | JArray(items: seq<JsonValue>)
    | JObject(fields: map<string, JsonValue>)

  /** A value stored in the context. */
  datatype Value = Str(s: string) | Json(json: JsonValue)

  /** The evaluation context: expression keys to their values. */
  type Context = map<string, Value>

  /** What evaluating one expression does: return a value, or panic (which
      ends the whole program). */
  datatype Eval = Returned(value: Value) | Panicked(message: string)

  /** A program expression: its path and its body, a function of the
      context built so far. */
  datatype Expr = Expr(path: seq<string>, eval: Context -> Eval)

  /* ---------------------------------------------------------------------- */
  /* Keys                                                                    */

  const Separator: char := '/'

  /** `path.join("/")`. */
  function Join(segments: seq<string>): string {
    if |segments| == 0 then ""
    else if |segments| == 1 then segments[0]
    else segments[0] + [Separator] + Join(segments[1..])
  }

  /** The context key of an expression. */
  function Key(e: Expr): string {
    Join(e.path)
  }

  /** Reference inverse of `Join`: the pieces of a string between
      separators (always at least one piece). */
  function Split(s: string): (pieces: seq<string>)
    ensures |pieces| > 0
  {
    if |s| == 0 then [""]
    else
      var rest := Split(s[1..]);
      if s[0] == Separator then [""] + rest else [[s[0]] + rest[0]] + rest[1..]
  }

  predicate NoSeparator(segment: string) {
    forall i :: 0 <= i < |segment| ==> segment[i] != Separator
  }

  /* ---------------------------------------------------------------------- */
  /* The evaluation loop of `main`                                           */

  /** How a program run ends: every expression evaluated, leaving the final
      context, or a panic in the expression at `index`. */
  datatype Run = Finished(context: Context) | Aborted(index: nat, message: string)

  /** The loop of `main` from expression `i` on, with the context `ctx`
      built so far. */
  function Fold(exprs: seq<Expr>, i: nat, ctx: Context): Run
    requires i <= |exprs|
    decreases |exprs| - i
  {
    if i == |exprs| then Finished(ctx)
    else
      match exprs[i].eval(ctx)
      case Panicked(message) => Aborted(i, message)
      case Returned(v) => Fold(exprs, i + 1, ctx[Key(exprs[i]) := v])
  }

  /** `main`: the loop started on the empty context. */
  function RunProgram(exprs: seq<Expr>): Run {
    Fold(exprs, 0, map[])
  }

  /* ---------------------------------------------------------------------- */
  /* The hard-coded program                                                  */

  const CatFactUrl: string := "https://catfact.ninja/fact"

  /** The network request of `http_get`: the body text, or the failure of
      the request or of reading its body. */
  datatype HttpReply = Body(text: string) | RequestFailed | ReadFailed

  /** `http_get`: the body of the reply, panicking on either failure. */
  function HttpGet(http: string -> HttpReply, url: string): Eval {
    match http(url)
    case Body(text) => Returned(Str(text))
    case RequestFailed => Panicked("Failed GET")
    case ReadFailed => Panicked("Failed to read response body")
  }

  /** Indexing a `HashMap` with `[]`: a missing key panics with the
      message of the standard library's `Index` implementation. */
  function Lookup(ctx: Context, key: string): Result<Value, string> {
    if key in ctx then Ok(ctx[key]) else Err("no entry found for key")
  }

  /** `value[key]` on a `serde_json::Value`: the field of an object, and
      `Null` for a missing field or a value that is not an object. */
  function Field(j: JsonValue, key: string): JsonValue {
    match j
    case JObject(fields) => if key in fields then fields[key] else JNull
    case _ => JNull
  }

  /** `as_str().unwrap_or(default)`. */
  function StrOr(j: JsonValue, default: string): string {
    match j
    case JString(s) => s
    case _ => default
  }

  /** The `fact` text of a parsed reply. */
  function FactOf(parsed: JsonValue): string {
    StrOr(Field(parsed, "fact"), "missing")
  }

  /** Body of `fetch/url`. */
  function FetchUrl(ctx: Context): Eval {
    Returned(Str(CatFactUrl))
  }

  /** Body of `fetch/res`: fetch the URL stored under `fetch/url`. */
  function FetchRes(http: string -> HttpReply, ctx: Context): Eval {
    match Lookup(ctx, "fetch/url")
    case Err(message) => Panicked(message)
    case Ok(Str(url)) => HttpGet(http, url)
    case Ok(_) => Panicked("Expected string for url")
  }

  /** Body of `fetch/fact`: parse the reply stored under `fetch/res` and
      take its `fact` text. */
  function FetchFact(json: string -> Option<JsonValue>, ctx: Context): Eval {
    match Lookup(ctx, "fetch/res")
    case Err(message) => Panicked(message)
    case Ok(Str(text)) =>
      (match json(text)
       case None => Panicked("Failed to parse JSON")
       case Some(parsed) => Returned(Str(FactOf(parsed))))
    case Ok(_) => Panicked("Expected string for res")
  }

  /** `garden_program`, given the network and the JSON reader. */
  function GardenProgram(http: string -> HttpReply, json: string -> Option<JsonValue>): seq<Expr> {
    [ Expr(["fetch", "url"], ctx => FetchUrl(ctx)),
      Expr(["fetch", "res"], ctx => FetchRes(http, ctx)),
      Expr(["fetch", "fact"], ctx => FetchFact(json, ctx)) ]
  }
}
