/** What handling one nREPL message promises. */
module NreplProperties {
  import opened Base
  import opened Nrepl

  /** Nothing else changes: a message alters at most one context, the new
      one of a `clone` or the op session's own for an `eval` with code. */
  lemma HandleFrame(store: SessionStore, current: Option<string>, msg: Message,
                    freshId: string, version: string, evaluate: Evaluator, other: string)
    requires other in store
    requires msg.op == "clone" ==> other != freshId
    requires msg.op == "eval" ==> SessionFor(msg, current) != Some(other)
    ensures var step := Handle(store, current, msg, freshId, version, evaluate);
            other in step.store && step.store[other] == store[other]
  {
  }

  /** `clone` never fails: the new id gets a copy of the op session's
      context when that session is live and an empty one otherwise, and
      the response names the new session in `new-session` only. */
  lemma CloneSpec(store: SessionStore, current: Option<string>, msg: Message,
                  freshId: string, version: string, evaluate: Evaluator)
    requires msg.op == "clone"
    ensures var step := Handle(store, current, msg, freshId, version, evaluate);
            var sid := SessionFor(msg, current);
            && freshId in step.store
            && step.store[freshId] == (if sid.Some? && sid.value in store then store[sid.value] else [])
            && step.response == Response(msg.id, None, Some(freshId), [Done], None, None)
  {
  }

  /** An op other than `clone` without any session fails with `no-session`
      and changes nothing. */
  lemma NoSessionSpec(store: SessionStore, current: Option<string>, msg: Message,
                      freshId: string, version: string, evaluate: Evaluator)
    requires msg.op != "clone" && msg.session.None? && current.None?
    ensures var step := Handle(store, current, msg, freshId, version, evaluate);
            && step.store == store && step.current == current
            && step.response.status == [Error, SessionError, NoSession]
            && step.response.session.None?
  {
  }

  /** An op other than `clone` on a session id that is not in the store
      fails with `unknown-session`, echoes the id and changes nothing,
      whatever the op. */
  lemma UnknownSessionSpec(store: SessionStore, current: Option<string>, msg: Message,
                           freshId: string, version: string, evaluate: Evaluator)
    requires msg.op != "clone"
    requires SessionFor(msg, current).Some? && SessionFor(msg, current).value !in store
    ensures var step := Handle(store, current, msg, freshId, version, evaluate);
            && step.store == store && step.current == current
            && step.response.status == [Error, SessionError, UnknownSession]
            && step.response.session == SessionFor(msg, current)
  {
  }

  /** `eval` with code on a live session stores the evaluator's context
      back into that session and reports `[Done]` with the value, or
      `[Error, EvalError]` with the error text. */
  lemma EvalSpec(store: SessionStore, current: Option<string>, msg: Message,
                 freshId: string, version: string, evaluate: Evaluator)
    requires msg.op == "eval" && msg.code.Some?
    requires SessionFor(msg, current).Some? && SessionFor(msg, current).value in store
    ensures var sid := SessionFor(msg, current).value;
            var reply := evaluate(msg.code.value, store[sid]);
            var step := Handle(store, current, msg, freshId, version, evaluate);
            && step.store == store[sid := reply.context]
            && step.response.session == Some(sid)
            && (reply.outcome.Evaluated? ==>
                  step.response.status == [Done]
                  && step.response.value == Some(reply.outcome.rendered) && step.response.ex.None?)
            && (reply.outcome.EvalFailed? ==>
                  step.response.status == [Error, EvalError]
                  && step.response.value.None? && step.response.ex == Some(reply.outcome.message))
  {
  }

  /** `eval` without code on a live session fails with `no-code` and
      changes nothing. */
  lemma EvalNoCodeSpec(store: SessionStore, current: Option<string>, msg: Message,
                       freshId: string, version: string, evaluate: Evaluator)
    requires msg.op == "eval" && msg.code.None?
    requires SessionFor(msg, current).Some? && SessionFor(msg, current).value in store
    ensures var step := Handle(store, current, msg, freshId, version, evaluate);
            && step.store == store && step.current == current
            && step.response.status == [Error, EvalError, NoCode]
  {
  }

  /** `describe` on a live session reports the supported ops and versions. */
  lemma DescribeSpec(store: SessionStore, current: Option<string>, msg: Message,
                     freshId: string, version: string, evaluate: Evaluator)
    requires msg.op == "describe"
    requires SessionFor(msg, current).Some? && SessionFor(msg, current).value in store
    ensures var step := Handle(store, current, msg, freshId, version, evaluate);
            && step.store == store
            && step.response.status == [Done]
            && step.response.value == Some(DescribeText(version))
  {
    assert OpOf(msg.op) == Describe;
  }

  /** Any other op on a live session fails with `unknown-op` and changes
      nothing. */
  lemma UnknownOpSpec(store: SessionStore, current: Option<string>, msg: Message,
                      freshId: string, version: string, evaluate: Evaluator)
    requires msg.op != "clone" && msg.op != "eval" && msg.op != "describe"
    requires SessionFor(msg, current).Some? && SessionFor(msg, current).value in store
    ensures var step := Handle(store, current, msg, freshId, version, evaluate);
            && step.store == store && step.current == current
            && step.response.status == [Error, UnknownOp]
            && step.response.ex == Some("Unknown op: " + msg.op)
  {
  }
}
