# garden — a Dafny model of the parser, the evaluation loop and the nREPL server

garden is a small Rust experiment in a "gardened" Lisp: source text is
parsed into a tree of nodes, a hard-coded program of path-named expressions
is evaluated in order into a shared context, and an nREPL server lets an
editor open sessions and evaluate code in them over bencode on TCP.

This project models three parts of it as pure Dafny functions and proves
what they promise:

- **The parser** (`src/parser.rs`). `parse` walks the top-level pest pairs,
  and `parse_expr` turns one pair into a `Node`: symbols, `i64` numbers,
  string literals with their quotes cut off, and lists. A list's kind and
  `source_type` come from its first child's symbol. Every node records its
  line. The grammar engine is not modelled: its output, a tree of pairs
  (rule, text, line, inner pairs), is the input (modules `Parser`,
  `ParserProperties`). Rust's own `i64::from_str` and `usize::to_string`
  are modelled exactly, including the order in which faults are found and
  the error texts (module `Decimal`).
- **The evaluation loop of `main`** (`src/main.rs`). The expressions run in
  order, each key is `path.join("/")`, and each value is stored into the
  context the next expression sees. The model also covers the three
  expressions of `garden_program`: the cat-fact URL, the HTTP GET, and the
  JSON `fact` field with its `"missing"` default. A panic is an explicit
  outcome that ends the run. The network and the JSON reader are
  parameters (modules `Garden`, `GardenProperties`).
- **The nREPL message handling of `handle_client`** (`src/nrepl.rs`).
  - Session selection: the message's `session` field, otherwise the
    connection's current session.
  - `clone`, which copies the parent context or starts an empty one.
  - `eval` with and without code, `describe`, and unknown ops.
  - The unknown-session and no-session errors, with their exact status
    vectors and messages.
  - Buffer framing: decode, handle, advance; wait on an incomplete
    message; abort on a malformed one.
  - Removal of the connection's current session on a clean close.

  The bencode decoder, the evaluator and the UUID generator are parameters
  (modules `Nrepl`, `NreplProperties`, `NreplConnection`,
  `NreplConnectionProperties`).

Behaviour of the code, as written, that the model keeps:

- A string literal whose first or last character is not ASCII makes
  `s[1..s.len()-1]` panic. The model returns `Panicked`, not an error
  value.
- A number too large for `i64` is an error reading "Failed to parse number:
  number too large to fit in target type". A literal such as `-` or `1x2`
  reads "... invalid digit found in string".
- The cleanup step after the connection loop removes only the session the
  connection made current last, by its last `clone`. Any other session it
  cloned stays in the store.
- The connection can also end with the peer closing mid-message or with a
  malformed message. Both leave through an early `return Err(..)`, so the
  cleanup step does not run and the current session stays in the store.
- The session's context is written back after every `eval` with code. This
  includes a failing one, because the evaluator works on the context in
  place.

## Model

| member | source | states |
|---|---|---|
| `Decimal.DigitChar` | src/parser.rs:44 | the digit rendered for a value below ten is a decimal digit of that value |
| `Decimal.ShowNat` | src/parser.rs:44 | `usize::to_string` gives a non-empty digit string with no leading zero |
| `Decimal.ShowNatValue` | src/parser.rs:44 | the rendered line number denotes the number it was rendered from |
| `Decimal.ShowInt` | src/parser.rs:59 | a reference rendering of integers, with no counterpart in the code (the crate never prints an `i64`), used to state that `parse::<i64>` reads back every `i64`: the text it gives is a well-formed integer literal (optional minus, at least one digit) |
| `Decimal.ShowIntValue` | src/parser.rs:59 | the value of a rendered integer's text is that integer |
| `Decimal.ShowIntRoundTrip` | src/parser.rs:58-60 | reading back the decimal text of any `i64` gives that `i64` |
| `Decimal.DigitsValueSnoc` | src/parser.rs:59 | appending a digit multiplies the value read so far by ten and adds the digit |
| `Decimal.DigitsValuePrefix` | src/parser.rs:59 | a prefix of a digit string never has a larger value, so overflow of a prefix means overflow of the whole |
| `Decimal.AccumulateStep` | src/parser.rs:59 | one step of the digit loop keeps the running value equal to the signed value of the digits consumed so far |
| `Decimal.AccumulateDigits` | src/parser.rs:59 | on all-digit input whose value fits in `i64`, the digit loop returns that signed value |
| `Decimal.AccumulateOverflow` | src/parser.rs:59 | on all-digit input whose value does not fit, the digit loop reports positive or negative overflow by the sign |
| `Decimal.ParseI64Complete` | src/parser.rs:58-60 | every well-formed literal is read as its value when it fits in `i64`, and as the overflow error of its sign otherwise |
| `Decimal.AccumulateSound` | src/parser.rs:59 | whatever the digit loop accepts consists of digits only |
| `Decimal.AccumulateNeverEmpty` | src/parser.rs:59 | the digit loop never reports an empty-input error |
| `Decimal.ParseI64Spec` | src/parser.rs:57-60 | `i64` parsing succeeds exactly on well-formed literals inside the `i64` range, with the literal's value; "empty" is reported exactly for the empty string |
| `ParserProperties.ByteLenAtLeastLength` | src/parser.rs:72 | a string's UTF-8 byte length is at least its number of characters |
| `ParserProperties.UnquoteSpec` | src/parser.rs:69-76 | a literal is "Malformed string literal" exactly when it has fewer than two bytes; a literal that is accepted is its content between two one-byte end characters |
| `ParserProperties.UnquoteAccepts` | src/parser.rs:72-73 | every literal of two or more characters whose first and last characters are one byte each is accepted as the text between them |
| `ParserProperties.UnquotePanics` | src/parser.rs:72-76 | cutting the ends off panics exactly when the literal has at least two bytes and its first or last character takes more than one byte |
| `ParserProperties.UnquoteShort` | src/parser.rs:72-76 | a literal of at most one character is malformed when it is under two bytes and otherwise panics |
| `ParserProperties.UnquoteLong` | src/parser.rs:72-76 | a literal of two or more characters is never malformed: it is cut when both ends are one byte and panics otherwise |
| `ParserProperties.UnquoteRoundTrip` | src/parser.rs:71-76 | quoting any content and cutting the quotes off gives the content back |
| `ParserProperties.SymbolLeaf` | src/parser.rs:47-55 | a symbol pair becomes a childless `Symbol` leaf named by its text, with `source_type` "symbol" |
| `ParserProperties.NumberLeaf` | src/parser.rs:57-67 | a number pair is accepted exactly when its text is an in-range `i64` literal; the leaf holds its value; a rejected one is a "Failed to parse number: ..." error |
| `ParserProperties.NumberRoundTrip` | src/parser.rs:57-67 | the decimal text of every `i64` parses to a `Number` leaf of that value |
| `ParserProperties.StringPairSpec` | src/parser.rs:69-83 | a string pair fails exactly when cutting the quotes off fails, with that same failure (malformed or panicked); on success it is a childless `String` leaf of the cut text with `source_type` "string" |
| `ParserProperties.StringLeaf` | src/parser.rs:69-83 | a quoted string pair becomes a `String` leaf holding the unquoted content |
| `ParserProperties.HeadFormInverse` | src/parser.rs:108-148 | the head table recognises exactly the eight special heads, and each maps to the kind and `source_type` the kind-indexed tables give |
| `ParserProperties.HeadOfRecognised` | src/parser.rs:108-148 | the head symbol of every special kind selects that kind |
| `ParserProperties.ParseAllSpec` | src/parser.rs:89-95 | converting a sequence of pairs succeeds exactly when every pair converts, giving one node per pair in order; on failure, the failure comes from the first pair that fails |
| `ParserProperties.ParseChildrenConvertsExprPairs` | src/parser.rs:89-95 | the child loop of a list converts exactly its `expr` pairs, in order, and skips all others |
| `ParserProperties.ParseTopConvertsExprPairs` | src/parser.rs:21-34 | when every top-level pair is an `expr` or `EOI`, `parse` converts exactly the `expr` pairs; any other rule is an error |
| `ParserProperties.ParseTopError` | src/parser.rs:23-31 | a failing `parse` fails at its first failing top-level pair, every earlier pair being `EOI` or a converting `expr`: with that `expr`'s own error, or with "Unexpected rule: " and the rule's name for any rule but `expr` and `EOI` |
| `ParserProperties.ParseTopSpec` | src/parser.rs:15-35 | `parse` succeeds exactly when every top-level rule is accepted and every `expr` converts, and then returns one node per `expr` pair in source order; a failure is that of the first top-level pair that fails: its `expr`'s own error, or "Unexpected rule: " and the rule's name for a rule other than `expr` and `EOI` |
| `ParserProperties.ParseExprSource` | src/parser.rs:158-164 | an `expr` pair converts as the first pair inside it, or fails with "Empty expression"; when it stands for a `program`, `EOI` or any other rule the converter does not know, it fails with "Unexpected rule: " and the rule's name; a node takes its text and its "line" entry from the pair it stands for |
| `ParserProperties.ParseListSpec` | src/parser.rs:85-156 | a list converts exactly when all its `expr` children do; it is `empty_list` without children, a special kind under a recognised head, a `function_call` naming any other head symbol, and a plain `list` when the first child is not a symbol; a failing list fails with the error of its first failing `expr` child, the `?` passing it through unchanged |
| `ParserProperties.ParseListError` | src/parser.rs:89-95 | a list fails exactly when converting its `expr` children fails, with the same error, which is that of the first failing child; every child before it converts |
| `ParserProperties.ListNodeWellFormed` | src/parser.rs:97-156 | a list node built over well-formed children is well formed: its line, its `source_type` and exactly the metadata keys its shape requires |
| `ParserProperties.LeafWellFormed` | src/parser.rs:47-83 | every leaf that `parse_expr` builds is well formed |
| `ParserProperties.ListWellFormed` | src/parser.rs:85-156 | a list whose converted children are well formed converts to a well-formed node |
| `ParserProperties.ParseExprWellFormed` | src/parser.rs:38-166 | every node `parse_expr` returns is well formed, children included, at every depth |
| `ParserProperties.ExprPairsMember` | src/parser.rs:90-91 | the `expr` pairs of a list are among its inner pairs |
| `Garden.Split` | src/main.rs:78 | a reference inverse of the `join` there, which has no counterpart in the code: splitting any string at `/` gives at least one piece |
| `GardenProperties.SplitSegment` | src/main.rs:78 | a segment without `/` splits to itself |
| `GardenProperties.SplitAfterSegment` | src/main.rs:78 | splitting stops at the first `/` |
| `GardenProperties.SplitJoin` | src/main.rs:78 | splitting `path.join("/")` gives back a non-empty path whose segments have no `/` |
| `GardenProperties.JoinSplit` | src/main.rs:78 | joining the pieces of any split string gives the string back |
| `GardenProperties.KeyInjective` | src/main.rs:78 | two non-empty paths without `/` in their segments share a key exactly when they are equal |
| `GardenProperties.GardenKeys` | src/main.rs:42-57 | the program's keys are `fetch/url`, `fetch/res` and `fetch/fact`, in that order |
| `GardenProperties.FoldFrom` | src/main.rs:77-82 | running the loop from any panic-free prefix finishes with the reference context, or aborts at the first expression that panics, with its message |
| `GardenProperties.PrefixStaysNone` | src/main.rs:77-82 | once an expression has panicked, no longer prefix completes |
| `GardenProperties.RunProgramSpec` | src/main.rs:73-82 | `main`'s loop finishes exactly when no expression panics, with the context of the reference semantics; otherwise it stops at the first panicking expression |
| `GardenProperties.PrefixKeys` | src/main.rs:77-82 | the context an expression sees holds exactly the keys of the expressions before it |
| `GardenProperties.PrefixValue` | src/main.rs:79-81 | each result is stored under its key, and stays there until a later expression with the same key overwrites it |
| `GardenProperties.FetchResSpec` | src/main.rs:26-32 | `fetch/res` panics unless `fetch/url` is a string; otherwise it is the body of the GET to it, and it panics if the request or the body read fails |
| `GardenProperties.FactOfSpec` | src/main.rs:61 | the fact is the reply's string field `fact`, and "missing" when there is no such string |
| `GardenProperties.FetchFactSpec` | src/main.rs:34-36 | `fetch/fact` panics unless `fetch/res` is a string that parses as JSON; otherwise it is the fact of the parsed reply |
| `GardenProperties.GardenRun` | src/main.rs:40-82 | if the body parses, the whole program ends with exactly the three entries; if it does not, it aborts at the third expression with "Failed to parse JSON"; if the GET fails, it aborts at the second with "Failed GET" or "Failed to read response body" |
| `Nrepl.CloneStep` | src/nrepl.rs:147-181 | `clone` adds the fresh id with a copy of the live parent context or an empty one, keeps every other session, moves the connection to it, and answers `new-session` with `[done]` |
| `Nrepl.NoSessionStep` | src/nrepl.rs:285-301 | without a session, the reply is `[error, session-error, no-session]` with no session, and nothing changes |
| `Nrepl.SessionStep` | src/nrepl.rs:184-283 | an op in session `sid` keeps the store's keys and every other session; only `eval` with code on a live session changes the store; an unknown `sid` is `[error, session-error, unknown-session]` |
| `Nrepl.Handle` | src/nrepl.rs:140-301 | every reply echoes the request id and has a consistent status, value and ex; only `clone` adds a session (its fresh id) and moves the connection; any other op runs in the message's session, or else the connection's |
| `NreplProperties.HandleFrame` | src/nrepl.rs:140-301 | a message changes no session context except the new one of a `clone` or the target of an `eval` |
| `NreplProperties.CloneSpec` | src/nrepl.rs:147-181 | `clone` always succeeds, copies the op session's context when that session is live and starts empty otherwise, and replies with exactly id, `new-session` and `[done]` |
| `NreplProperties.NoSessionSpec` | src/nrepl.rs:285-301 | a non-`clone` op with no session at all fails with `no-session` and changes nothing |
| `NreplProperties.UnknownSessionSpec` | src/nrepl.rs:269-283 | a non-`clone` op naming a session not in the store fails with `unknown-session`, echoes the id, and changes nothing, whatever the op |
| `NreplProperties.EvalSpec` | src/nrepl.rs:191-221 | `eval` with code stores the evaluator's context back into the session and answers `[done]` with the value, or `[error, eval-error]` with the error text |
| `NreplProperties.EvalNoCodeSpec` | src/nrepl.rs:222-235 | `eval` without code fails with `[error, eval-error, no-code]` and changes nothing |
| `NreplProperties.DescribeSpec` | src/nrepl.rs:237-253 | `describe` answers `[done]` with the ops and versions text and changes nothing |
| `NreplProperties.UnknownOpSpec` | src/nrepl.rs:255-267 | any other op on a live session fails with `[error, unknown-op]` and "Unknown op: " plus the op, and changes nothing |
| `NreplConnection.Drain` | src/nrepl.rs:121-136 | the inner loop leaves a suffix of the buffer, sends at most one response per byte consumed, loses no session, and stops only on an empty buffer, an incomplete message or a malformed one |
| `NreplConnectionProperties.DrainFollowsFrames` | src/nrepl.rs:121-306 | the inner loop's store, current session and responses are exactly those of handling, one after another, the messages the decoder frames off the buffer, and it leaves exactly the bytes framing leaves |
| `NreplConnectionProperties.DrainLeavesFrameRest` | src/nrepl.rs:121-136 | the inner loop leaves exactly the bytes the reference framing leaves |
| `NreplConnectionProperties.DrainStateFollowsFrames` | src/nrepl.rs:121-306 | the store and current session after the inner loop are those of handling the framed messages in order |
| `NreplConnectionProperties.DrainResponsesFollowFrames` | src/nrepl.rs:121-306 | the responses the inner loop sends are those of handling the framed messages in order |
| `NreplConnectionProperties.DrainDecoded` | src/nrepl.rs:133-136 | one turn of the inner loop on a decodable buffer handles that message and carries on with the bytes after it |
| `NreplConnectionProperties.FramesDecoded` | src/nrepl.rs:133-136 | one turn of the reference framing takes the decoded message and frames the bytes after it |
| `NreplConnectionProperties.HandleAllCons` | src/nrepl.rs:140-306 | handling a message and then the rest is handling them all |
| `NreplConnectionProperties.HandleAllAnswers` | src/nrepl.rs:140-306 | handling messages in order sends one response per message, each echoing its message's id |
| `NreplConnectionProperties.DrainAnswersFrames` | src/nrepl.rs:121-306 | the inner loop sends one response per framed message, and the `k`-th response answers the `k`-th message |
| `NreplConnectionProperties.DrainWaits` | src/nrepl.rs:309-317 | an incomplete message leaves the buffer and the sessions untouched and waits for more bytes |
| `NreplConnectionProperties.ServeSpec` | src/nrepl.rs:105-338 | every outcome carries the state that explains it: a clean close has an empty buffer and removes only the current session; a close mid-message has bytes buffered; an abort has a malformed message in front of the buffer; no session is lost before the close, and one response is sent per message handled (the converse, from the bytes to the outcome, is `ServeReadThenClose`) |
| `NreplConnectionProperties.DrainStopsNonEmpty` | src/nrepl.rs:120-326 | the inner loop stops on a decode error only with bytes still in the buffer |
| `NreplConnectionProperties.DrainStopFollowsFrames` | src/nrepl.rs:120-326 | the inner loop waits when framing leaves nothing or an incomplete message, and stops with the decoder's reason when it leaves a malformed one |
| `NreplConnectionProperties.ServeReadThenClose` | src/nrepl.rs:105-338 | after a read and the peer closing, the bytes framing leaves decide the outcome: none is a clean close that removes the current session reached by handling the framed messages, an incomplete message is a close mid-message, and a malformed one aborts with the decoder's reason |
| `NreplConnectionProperties.ServeSplitMessage` | src/nrepl.rs:105-317 | a message split across two reads is answered exactly once, after the second read, and leaves the buffer empty: the first read's bytes are kept while the decoder waits and the next read is appended to them |
| `NreplConnectionProperties.ServeWaitsOnFirst` | src/nrepl.rs:105-317 | a read that leaves an incomplete message keeps its bytes in the buffer, so the connection continues from them with the next read |
| `NreplConnectionProperties.ServeCompletesSecond` | src/nrepl.rs:105-306 | a read that completes the buffered message gets that message answered and the buffer emptied |
| `NreplConnectionProperties.DrainWholeBuffer` | src/nrepl.rs:120-306 | a buffer holding exactly one message is drained by answering it, leaving an empty buffer and waiting |
| `NreplConnectionProperties.ConnectCleanup` | src/nrepl.rs:331-338 | over a whole connection, a clean close keeps every pre-existing session except the one the connection last made current |

## Left out

- TCP: listening, accepting, spawning a task per client, the `.nrepl-port` file, and the `Arc`/`Mutex` locking of the shared store. Concurrency is out of scope, so the store is the store as one connection sees it.
- Bencode: decoding is the `decode` parameter. It is required to consume between one byte and the whole buffer for a message. Encoding and writing responses, and write or flush errors, are I/O.
- Socket read errors, which end the connection through `?`, are I/O and are not modelled.
- `uuid::Uuid::new_v4()` is randomness. It is the `freshIds` parameter, and the model does not assume the ids it gives are unused.
- `evaluate_form` is the `evaluate` parameter. It returns the session context it leaves plus the `Debug`-rendered value or the error text, so the `{:?}` formatting is the evaluator's. The evaluator itself is not part of this model.
- The `conn_id` UUID is never used. The `println!`/`eprintln!` logging is I/O.
- `src/tui.rs` is not part of this model.
- `Parser.Unquote`: when the cut falls inside a multi-byte character, Rust's panic message names the byte index, the character and the string. The model panics with the fixed text "byte index is not a char boundary" in its place; which cases panic is exact.
- `Parser.Parse`: the pest grammar and `pest::Parser::parse` are not modelled. `Parse` takes the engine's result, a pair tree or its error text, as its input.
- `Node::new` is taken as building the node from its four arguments.
- `NreplProperties.DescribeSpec`: `env!("CARGO_PKG_VERSION")` is a build constant, so it is the `version` parameter.
- `Garden.HttpGet`: `reqwest::blocking::get` is the `http` parameter. A failed request panics with "Failed GET" and a failed body read with "Failed to read response body". The model keeps only these `expect` texts, without the error detail Rust appends.
- `Garden.FetchFact`: `serde_json::from_str` is the `json` parameter. A parse failure panics with "Failed to parse JSON", again without the appended error detail. JSON numbers are kept as text because the program never reads them.
- The RON serialisation of the final context, the write of `values.ron`, and the line printed per expression are output only.
