/** Handling one nREPL message (the body of `handle_client` in
    src/nrepl.rs): choose the session, update the session store and build
    the one response. Locking, the socket writes and the bencode encoding
    of the response are not part of this model; the evaluator and the
    source of fresh session ids are parameters. */
module Nrepl {
  import opened Base
  import Garden

  /** One entry of a session context. */
  datatype Binding = Binding(name: string, value: Garden.Value)

  /** A session's evaluation context: a sequence of bindings standing for
      the insertion-ordered map of the code. The model only copies it and
      hands it to the evaluator, so no property depends on the names being
      distinct. */
  type SessionContext = seq<Binding>

  /** All live sessions, by session id. */
  type SessionStore = map<string, SessionContext>

  /** A decoded request; fields the server ignores are left out. */
  datatype Message = Message(op: string, id: Option<string>, session: Option<string>, code: Option<string>)

  /** The status words a response can carry. */
  datatype Status = Done | Error | EvalError | NoCode | UnknownOp | SessionError | UnknownSession | NoSession

  /** The text of a status word on the wire. */
  function StatusText(s: Status): string {
    match s
    case Done => "done"
    case Error => "error"
    case EvalError => "eval-error"
    case NoCode => "no-code"
    case UnknownOp => "unknown-op"
    case SessionError => "session-error"
    case UnknownSession => "unknown-session"
    case NoSession => "no-session"
  }

  /** The ops the server tells apart. */
  datatype Op = Clone | Eval | Describe | OtherOp

  function OpOf(op: string): Op {
    if op == "clone" then Clone
    else if op == "eval" then Eval
    else if op == "describe" then Describe
    else OtherOp
  }

  /** A response, before encoding. */
  datatype Response = Response(
    id: Option<string>,
    session: Option<string>,
    newSession: Option<string>,
    status: seq<Status>,
    value: Option<string>,
    ex: Option<string>)

  /** What evaluating code against a context yields: the rendered value or
      the error text. */
  datatype EvalOutcome = Evaluated(rendered: string) | EvalFailed(message: string)

  /** The evaluator's reply: the context after evaluation (it may bind new
      names) and the outcome. */
  datatype EvalReply = EvalReply(context: SessionContext, outcome: EvalOutcome)

  /** The evaluator: code and the session's context to a reply. */
  type Evaluator = (string, SessionContext) -> EvalReply

  /** The state after one message and the response sent for it. */
  datatype Step = Step(store: SessionStore, current: Option<string>, response: Response)

  /** The session an op runs in: the message's own `session` field, else
      the session this connection last cloned. */
  function SessionFor(msg: Message, current: Option<string>): Option<string> {
    if msg.session.Some? then msg.session else current
  }

  /** The `value` of a `describe` response, for the given crate version. */
  function DescribeText(version: string): string {
    "{\"ops\":{\"clone\":{},\"describe\":{},\"eval\":{}},\"versions\":{\"garden\":\""
    + version + "\",\"nrepl\":\"0.x\"}}"
  }

  /** The response shape every handled message yields: an `ex` text exactly
      on error statuses, a `value` only with `[Done]`, a `new-session`
      only on a sessionless `[Done]`, and one of the six status vectors. */
  predicate ResponseConsistent(r: Response) {
    && (|| r.status == [Done]
        || r.status == [Error, EvalError]
        || r.status == [Error, EvalError, NoCode]
        || r.status == [Error, UnknownOp]
        || r.status == [Error, SessionError, UnknownSession]
        || r.status == [Error, SessionError, NoSession])
    && (r.status[0] == Error <==> r.ex.Some?)
    && (r.value.Some? ==> r.status == [Done])
    && (r.newSession.Some? ==> r.session.None? && r.status == [Done])
  }

  function Reply(msg: Message, session: Option<string>, status: seq<Status>,
                 value: Option<string>, ex: Option<string>): Response
  {
    Response(msg.id, session, None, status, value, ex)
  }

  /** `clone`: a copy of the context of the session `sid`, when that one
      is live, or an empty context, stored under the fresh id, which
      becomes the connection's session and is sent back as `new-session`. */
  function CloneStep(store: SessionStore, sid: Option<string>, msg: Message, freshId: string): (step: Step)
    ensures step.store.Keys == store.Keys + {freshId}
    ensures freshId in step.store
    ensures step.store[freshId] == if sid.Some? && sid.value in store then store[sid.value] else []
    ensures forall other :: other in store && other != freshId ==> step.store[other] == store[other]
    ensures step.current == Some(freshId)
    ensures step.response.id == msg.id && ResponseConsistent(step.response)
    ensures step.response.session.None? && step.response.newSession == Some(freshId)
  {
    var context := if sid.Some? && sid.value in store then store[sid.value] else [];
    Step(store[freshId := context], Some(freshId),
         Response(msg.id, None, Some(freshId), [Done], None, None))
  }

  /** Any op but `clone` when neither the message nor the connection names
      a session: an error, and nothing changes. */
  function NoSessionStep(store: SessionStore, current: Option<string>, msg: Message): (step: Step)
    ensures step.store == store && step.current == current
    ensures step.response.id == msg.id && ResponseConsistent(step.response)
    ensures step.response.session.None? && step.response.newSession.None?
    ensures step.response.status == [Error, SessionError, NoSession]
  {
    Step(store, current,
         Reply(msg, None, [Error, SessionError, NoSession], None,
               Some("Op '" + msg.op + "' requires an active session.")))
  }

  /** Any op but `clone` in session `sid`: an unknown session is an error
      whatever the op; on a live session `eval` runs the code and stores
      the context it leaves, `describe` reports the server, and any other
      op is an error. Only `eval` with code changes the store, and only
      the context of `sid`. */
  function SessionStep(store: SessionStore, current: Option<string>, sid: string, msg: Message,
                       version: string, evaluate: Evaluator): (step: Step)
    ensures step.store.Keys == store.Keys && step.current == current
    ensures forall other :: other in store && other != sid ==> step.store[other] == store[other]
    ensures !(sid in store && OpOf(msg.op) == Eval && msg.code.Some?) ==> step.store == store
    ensures step.response.id == msg.id && ResponseConsistent(step.response)
    ensures step.response.session == Some(sid) && step.response.newSession.None?
    ensures sid !in store ==> step.response.status == [Error, SessionError, UnknownSession]
  {
    if sid !in store then
      Step(store, current,
           Reply(msg, Some(sid), [Error, SessionError, UnknownSession], None,
                 Some("Unknown session: " + sid)))
    else
      match OpOf(msg.op)
      case Eval =>
        (match msg.code
         case None =>
           Step(store, current,
                Reply(msg, Some(sid), [Error, EvalError, NoCode], None, Some("No :code provided for eval")))
         case Some(code) =>
           var reply := evaluate(code, store[sid]);
           var store' := store[sid := reply.context];
           match reply.outcome
           case Evaluated(rendered) =>
             Step(store', current, Reply(msg, Some(sid), [Done], Some(rendered), None))
           case EvalFailed(message) =>
             Step(store', current, Reply(msg, Some(sid), [Error, EvalError], None, Some(message))))
      case Describe =>
        Step(store, current, Reply(msg, Some(sid), [Done], Some(DescribeText(version)), None))
      case _ =>
        Step(store, current,
             Reply(msg, Some(sid), [Error, UnknownOp], None, Some("Unknown op: " + msg.op)))
  }

  /** One message: `store` and `current` before it, `freshId` the id a
      `clone` creates, `version` the crate version, `evaluate` the
      evaluator. Every response has the consistent shape and echoes the
      request id. No message removes a session and only `clone` adds one,
      its fresh id, and moves the connection to it; every other op runs
      in, and names, the message's own session if it gives one and the
      connection's otherwise. */
  function Handle(store: SessionStore, current: Option<string>, msg: Message,
                  freshId: string, version: string, evaluate: Evaluator): (step: Step)
    ensures step.store.Keys == if OpOf(msg.op) == Clone then store.Keys + {freshId} else store.Keys
    ensures step.current == if OpOf(msg.op) == Clone then Some(freshId) else current
    ensures step.response.id == msg.id && ResponseConsistent(step.response)
    ensures OpOf(msg.op) == Clone ==> step.response.session.None? && step.response.newSession == Some(freshId)
    ensures OpOf(msg.op) != Clone ==>
              step.response.newSession.None?
              && step.response.session == if msg.session.Some? then msg.session else current
  {
    var sid := SessionFor(msg, current);
    if OpOf(msg.op) == Clone then CloneStep(store, sid, msg, freshId)
    else if sid.None? then NoSessionStep(store, current, msg)
    else SessionStep(store, current, sid.value, msg, version, evaluate)
  }
}
