/** What the framing and close handling of an nREPL connection promise. */
module NreplConnectionProperties {
  import opened Base
  import opened Nrepl
  import opened NreplConnection
  import NreplProperties

  /** Reference framing of a buffer, independent of what the messages do:
      the messages the decoder finds one after another from the front, and
      the bytes left when it finds no further message. */
  function Frames(decode: Decoder, buf: seq<byte>): (seq<Message>, seq<byte>)
    requires DecoderConsumes(decode)
    decreases |buf|
  {
    if |buf| == 0 then ([], buf)
    else
      match decode(buf)
      case Decoded(msg, consumed) =>
        var (msgs, rest) := Frames(decode, buf[consumed..]);
        ([msg] + msgs, rest)
      case _ => ([], buf)
  }

  /** Reference handling of a sequence of messages, independent of
      framing: `Handle` applied to each in turn, the `k`-th one with the id
      `freshIds(handled + k)`. Returns the final store and current session
      and the responses, in order. */
  function HandleAll(env: Env, store: SessionStore, current: Option<string>, handled: nat,
                     msgs: seq<Message>): (SessionStore, Option<string>, seq<Response>)
    decreases |msgs|
  {
    if |msgs| == 0 then (store, current, [])
    else
      var step := Handle(store, current, msgs[0], env.freshIds(handled), env.version, env.evaluate);
      var (store', current', responses) := HandleAll(env, step.store, step.current, handled + 1, msgs[1..]);
      (store', current', [step.response] + responses)
  }

  /** The inner loop handles exactly the messages the decoder frames, in
      order: its store, current session and responses are those of
      handling the framed messages one after another, and it leaves
      exactly the bytes framing leaves. */
  lemma DrainFollowsFrames(env: Env, conn: Conn)
    requires DecoderConsumes(env.decode)
    ensures var d := Drain(env, conn);
            var (msgs, rest) := Frames(env.decode, conn.buffer);
            var (store, current, responses) := HandleAll(env, conn.store, conn.current, conn.handled, msgs);
            && d.conn.buffer == rest
            && d.conn.store == store && d.conn.current == current
            && d.responses == responses
  {
    DrainLeavesFrameRest(env, conn);
    DrainStateFollowsFrames(env, conn);
    DrainResponsesFollowFrames(env, conn);
  }

  /** The inner loop leaves exactly the bytes framing leaves. */
  lemma {:induction false} DrainLeavesFrameRest(env: Env, conn: Conn)
    requires DecoderConsumes(env.decode)
    ensures Drain(env, conn).conn.buffer == Frames(env.decode, conn.buffer).1
    decreases |conn.buffer|
  {
    if |conn.buffer| > 0 && env.decode(conn.buffer).Decoded? {
      var m := env.decode(conn.buffer);
      var step := Handle(conn.store, conn.current, m.msg, env.freshIds(conn.handled), env.version, env.evaluate);
      var next := Conn(step.store, step.current, conn.buffer[m.consumed..], conn.handled + 1);
      DrainLeavesFrameRest(env, next);
      DrainDecoded(env, conn);
      FramesDecoded(env.decode, conn.buffer);
    }
  }

  /** The store and current session the inner loop leaves are those of
      handling the framed messages in order. */
  lemma {:induction false} DrainStateFollowsFrames(env: Env, conn: Conn)
    requires DecoderConsumes(env.decode)
    ensures var h := HandleAll(env, conn.store, conn.current, conn.handled, Frames(env.decode, conn.buffer).0);
            Drain(env, conn).conn.store == h.0 && Drain(env, conn).conn.current == h.1
    decreases |conn.buffer|
  {
    if |conn.buffer| > 0 && env.decode(conn.buffer).Decoded? {
      var m := env.decode(conn.buffer);
      var step := Handle(conn.store, conn.current, m.msg, env.freshIds(conn.handled), env.version, env.evaluate);
      var next := Conn(step.store, step.current, conn.buffer[m.consumed..], conn.handled + 1);
      DrainStateFollowsFrames(env, next);
      DrainDecoded(env, conn);
      FramesDecoded(env.decode, conn.buffer);
      HandleAllCons(env, conn.store, conn.current, conn.handled, m.msg, Frames(env.decode, next.buffer).0);
    }
  }

  /** The inner loop sends the responses of handling the framed messages
      in order. */
  lemma {:induction false} DrainResponsesFollowFrames(env: Env, conn: Conn)
    requires DecoderConsumes(env.decode)
    ensures var h := HandleAll(env, conn.store, conn.current, conn.handled, Frames(env.decode, conn.buffer).0);
            Drain(env, conn).responses == h.2
    decreases |conn.buffer|
  {
    if |conn.buffer| > 0 && env.decode(conn.buffer).Decoded? {
      var m := env.decode(conn.buffer);
      var step := Handle(conn.store, conn.current, m.msg, env.freshIds(conn.handled), env.version, env.evaluate);
      var next := Conn(step.store, step.current, conn.buffer[m.consumed..], conn.handled + 1);
      DrainResponsesFollowFrames(env, next);
      DrainDecoded(env, conn);
      FramesDecoded(env.decode, conn.buffer);
      HandleAllCons(env, conn.store, conn.current, conn.handled, m.msg, Frames(env.decode, next.buffer).0);
    }
  }

  /** One turn of the inner loop on a decodable buffer: handle the message,
      then carry on with the rest of the buffer. */
  lemma DrainDecoded(env: Env, conn: Conn)
    requires DecoderConsumes(env.decode)
    requires |conn.buffer| > 0 && env.decode(conn.buffer).Decoded?
    ensures var m := env.decode(conn.buffer);
            var step := Handle(conn.store, conn.current, m.msg, env.freshIds(conn.handled), env.version, env.evaluate);
            var d := Drain(env, Conn(step.store, step.current, conn.buffer[m.consumed..], conn.handled + 1));
            && Drain(env, conn).conn == d.conn
            && Drain(env, conn).responses == [step.response] + d.responses
            && Drain(env, conn).stop == d.stop
  {
  }

  /** One turn of the reference framing on a decodable buffer. */
  lemma FramesDecoded(decode: Decoder, buf: seq<byte>)
    requires DecoderConsumes(decode)
    requires |buf| > 0 && decode(buf).Decoded?
    ensures var f := Frames(decode, buf[decode(buf).consumed..]);
            Frames(decode, buf) == ([decode(buf).msg] + f.0, f.1)
  {
  }

  /** Handling a message and then the rest is handling them all. */
  lemma HandleAllCons(env: Env, store: SessionStore, current: Option<string>, handled: nat,
                      msg: Message, msgs: seq<Message>)
    ensures var step := Handle(store, current, msg, env.freshIds(handled), env.version, env.evaluate);
            var (store', current', responses) := HandleAll(env, step.store, step.current, handled + 1, msgs);
            HandleAll(env, store, current, handled, [msg] + msgs) == (store', current', [step.response] + responses)
  {
    assert ([msg] + msgs)[1..] == msgs;
  }

  /** In particular, the `k`-th response answers the `k`-th framed message. */
  lemma DrainAnswersFrames(env: Env, conn: Conn)
    requires DecoderConsumes(env.decode)
    ensures var d := Drain(env, conn);
            var (msgs, _) := Frames(env.decode, conn.buffer);
            |d.responses| == |msgs| && forall k :: 0 <= k < |msgs| ==> d.responses[k].id == msgs[k].id
  {
    DrainFollowsFrames(env, conn);
    var (msgs, _) := Frames(env.decode, conn.buffer);
    HandleAllAnswers(env, conn.store, conn.current, conn.handled, msgs);
  }

  /** The reference handling sends one response per message, echoing its id. */
  lemma {:induction false} HandleAllAnswers(env: Env, store: SessionStore, current: Option<string>,
                                            handled: nat, msgs: seq<Message>)
    ensures var (_, _, responses) := HandleAll(env, store, current, handled, msgs);
            |responses| == |msgs| && forall k :: 0 <= k < |msgs| ==> responses[k].id == msgs[k].id
    decreases |msgs|
  {
    if |msgs| > 0 {
      var step := Handle(store, current, msgs[0], env.freshIds(handled), env.version, env.evaluate);
      HandleAllAnswers(env, step.store, step.current, handled + 1, msgs[1..]);
    }
  }

  /** An incomplete message leaves the buffer intact and waits. */
  lemma DrainWaits(env: Env, conn: Conn)
    requires DecoderConsumes(env.decode)
    requires |conn.buffer| > 0 && env.decode(conn.buffer).EndOfStream?
    ensures Drain(env, conn) == Drained(conn, [], Waiting)
  {
  }

  /** How a connection ends: a clean close needs an empty buffer and
      removes the current session and nothing else; the peer closing with
      bytes buffered, or a malformed message, ends it as an error without
      removing any session; until then no session is lost, and one
      response is sent per message handled. */
  lemma {:induction false} ServeSpec(env: Env, conn: Conn, chunks: seq<seq<byte>>)
    requires DecoderConsumes(env.decode)
    ensures var (outcome, responses) := Serve(env, conn, chunks);
            && conn.store.Keys <= outcome.last.store.Keys
            && |responses| == outcome.last.handled - conn.handled
            && (outcome.Closed? ==>
                  && |outcome.last.buffer| == 0
                  && outcome.store == CloseSession(outcome.last.store, outcome.last.current)
                  && outcome.store.Keys == outcome.last.store.Keys
                       - (if outcome.last.current.Some? then {outcome.last.current.value} else {}))
            && (outcome.ClosedMidMessage? ==> |outcome.last.buffer| > 0)
            && (outcome.DecodeAborted? ==> env.decode(outcome.last.buffer) == Malformed(outcome.reason))
    decreases |chunks|
  {
    if |chunks| > 0 && |chunks[0]| > 0 {
      var d := Drain(env, conn.(buffer := conn.buffer + chunks[0]));
      if d.stop.Waiting? {
        ServeSpec(env, d.conn, chunks[1..]);
      }
    }
  }

  /** The inner loop stops on a decode error only with bytes left in the
      buffer. */
  lemma {:induction false} DrainStopsNonEmpty(env: Env, conn: Conn)
    requires DecoderConsumes(env.decode)
    ensures Drain(env, conn).stop.DecodeError? ==> |Drain(env, conn).conn.buffer| > 0
    decreases |conn.buffer|
  {
    if |conn.buffer| > 0 && env.decode(conn.buffer).Decoded? {
      var m := env.decode(conn.buffer);
      var step := Handle(conn.store, conn.current, m.msg, env.freshIds(conn.handled), env.version, env.evaluate);
      DrainStopsNonEmpty(env, Conn(step.store, step.current, conn.buffer[m.consumed..], conn.handled + 1));
      DrainDecoded(env, conn);
    }
  }

  /** How the inner loop stops, read off the bytes framing leaves: with
      nothing left or an incomplete message it waits, and on a malformed
      message it stops with the decoder's reason. */
  lemma DrainStopFollowsFrames(env: Env, conn: Conn)
    requires DecoderConsumes(env.decode)
    ensures var rest := Frames(env.decode, conn.buffer).1;
            var d := Drain(env, conn);
            && d.conn.buffer == rest
            && (|rest| == 0 ==> d.stop.Waiting?)
            && (|rest| > 0 && env.decode(rest).EndOfStream? ==> d.stop.Waiting?)
            && (|rest| > 0 && env.decode(rest).Malformed? ==> d.stop == DecodeError(env.decode(rest).reason))
  {
    DrainLeavesFrameRest(env, conn);
    DrainStopsNonEmpty(env, conn);
  }

  /** One read followed by the peer closing: the outcome is decided by what
      framing leaves of the buffer. Nothing left is a clean close, which
      removes the current session reached by handling the framed messages;
      an incomplete message is a close mid-message; a malformed one aborts
      the connection with the decoder's reason. */
  lemma ServeReadThenClose(env: Env, conn: Conn, c: seq<byte>)
    requires DecoderConsumes(env.decode)
    requires |c| > 0
    ensures var (msgs, rest) := Frames(env.decode, conn.buffer + c);
            var (store, current, _) := HandleAll(env, conn.store, conn.current, conn.handled, msgs);
            var outcome := Serve(env, conn, [c, []]).0;
            && (|rest| == 0 ==> outcome.Closed? && outcome.store == CloseSession(store, current))
            && (|rest| > 0 && env.decode(rest).EndOfStream? ==>
                  outcome.ClosedMidMessage? && outcome.last.buffer == rest)
            && (|rest| > 0 && env.decode(rest).Malformed? ==>
                  outcome.DecodeAborted? && outcome.reason == env.decode(rest).reason)
  {
    var full := conn.(buffer := conn.buffer + c);
    DrainFollowsFrames(env, full);
    DrainStopFollowsFrames(env, full);
    var d := Drain(env, full);
    assert [c, []][0] == c;
    assert [c, []][1..] == [[]];
    if d.stop.Waiting? {
      var after := Serve(env, d.conn, [[]]);
      assert Serve(env, conn, [c, []]).0 == after.0;
    }
  }

  /** Over a whole connection, a clean close keeps every session of the
      store the connection started from except the one it last cloned. */
  lemma ConnectCleanup(env: Env, store: SessionStore, chunks: seq<seq<byte>>, sid: string)
    requires DecoderConsumes(env.decode)
    requires sid in store
    ensures var (outcome, _) := Connect(env, store, chunks);
            outcome.Closed? && outcome.last.current != Some(sid) ==> sid in outcome.store
  {
    ServeSpec(env, Conn(store, None, [], 0), chunks);
  }

  /** A message split across two reads is handled once the second read
      completes it: the bytes of the first read stay in the buffer while
      the decoder waits, the second read is appended to them, and the
      message is answered exactly once, leaving an empty buffer. */
  lemma ServeSplitMessage(env: Env, store: SessionStore, current: Option<string>, handled: nat,
                          c1: seq<byte>, c2: seq<byte>, msg: Message)
    requires DecoderConsumes(env.decode)
    requires |c1| > 0 && |c2| > 0
    requires env.decode(c1).EndOfStream?
    requires env.decode(c1 + c2) == Decoded(msg, |c1 + c2|)
    ensures var step := Handle(store, current, msg, env.freshIds(handled), env.version, env.evaluate);
            var (outcome, responses) := Serve(env, Conn(store, current, [], handled), [c1, c2]);
            && responses == [step.response]
            && outcome.StillOpen?
            && outcome.last.store == step.store && outcome.last.current == step.current
            && outcome.last.buffer == [] && outcome.last.handled == handled + 1
  {
    var first := Conn(store, current, c1, handled);
    ServeWaitsOnFirst(env, store, current, handled, c1, c2);
    ServeCompletesSecond(env, first, c2, msg);
    var (outcome, responses) := Serve(env, first, [c2]);
    assert Serve(env, Conn(store, current, [], handled), [c1, c2]) == (outcome, responses);
  }

  /** The first read: the decoder wants more, so its bytes stay buffered
      and the next read is appended to them. */
  lemma ServeWaitsOnFirst(env: Env, store: SessionStore, current: Option<string>, handled: nat,
                          c1: seq<byte>, c2: seq<byte>)
    requires DecoderConsumes(env.decode)
    requires |c1| > 0
    requires env.decode(c1).EndOfStream?
    ensures Serve(env, Conn(store, current, [], handled), [c1, c2])
            == Serve(env, Conn(store, current, c1, handled), [c2])
  {
    var conn := Conn(store, current, [], handled);
    var first := conn.(buffer := c1);
    assert conn.buffer + c1 == c1;
    DrainWaits(env, first);
    var (outcome, responses) := Serve(env, first, [c1, c2][1..]);
    assert [c1, c2][1..] == [c2];
    assert Serve(env, conn, [c1, c2]) == (outcome, [] + responses);
    assert [] + responses == responses;
  }

  /** The read that completes the buffered message: it is answered and the
      buffer is left empty. */
  lemma ServeCompletesSecond(env: Env, first: Conn, c2: seq<byte>, msg: Message)
    requires DecoderConsumes(env.decode)
    requires |c2| > 0
    requires env.decode(first.buffer + c2) == Decoded(msg, |first.buffer + c2|)
    ensures var step := Handle(first.store, first.current, msg, env.freshIds(first.handled), env.version, env.evaluate);
            var (outcome, responses) := Serve(env, first, [c2]);
            && responses == [step.response]
            && outcome.StillOpen?
            && outcome.last.store == step.store && outcome.last.current == step.current
            && outcome.last.buffer == [] && outcome.last.handled == first.handled + 1
  {
    var second := first.(buffer := first.buffer + c2);
    DrainWholeBuffer(env, second, msg);
    var d := Drain(env, second);
    assert [c2][1..] == [];
    assert Serve(env, d.conn, []) == (StillOpen(d.conn), []);
    assert Serve(env, first, [c2]) == (StillOpen(d.conn), d.responses + []);
  }

  /** A buffer that holds exactly one message is drained by answering it. */
  lemma DrainWholeBuffer(env: Env, conn: Conn, msg: Message)
    requires DecoderConsumes(env.decode)
    requires |conn.buffer| > 0 && env.decode(conn.buffer) == Decoded(msg, |conn.buffer|)
    ensures var step := Handle(conn.store, conn.current, msg, env.freshIds(conn.handled), env.version, env.evaluate);
            && Drain(env, conn).conn == Conn(step.store, step.current, [], conn.handled + 1)
            && Drain(env, conn).responses == [step.response]
            && Drain(env, conn).stop == Waiting
  {
    DrainDecoded(env, conn);
    var step := Handle(conn.store, conn.current, msg, env.freshIds(conn.handled), env.version, env.evaluate);
    var last := Conn(step.store, step.current, conn.buffer[|conn.buffer|..], conn.handled + 1);
    assert last.buffer == [];
  }
}
