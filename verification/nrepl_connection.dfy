/** One client connection of the nREPL server (the loops of
    `handle_client` in src/nrepl.rs): bytes read from the socket are
    appended to a buffer, complete messages are decoded off its front and
    handled one by one, an incomplete message waits for more bytes, a
    malformed one ends the connection, and when the peer closes the
    connection's current session is removed. The bencode decoder, the
    evaluator and the id generator are parameters. */
module NreplConnection {
  import opened Base
  import opened Nrepl

  newtype byte = x: int | 0 <= x < 256

  /** What the decoder makes of the front of a buffer: a message and the
      number of bytes it took, "not enough bytes yet", or any other error. */
  datatype Decoded = Decoded(msg: Message, consumed: nat) | EndOfStream | Malformed(reason: string)

  type Decoder = seq<byte> -> Decoded

  /** The guarantee the decoder gives: a decoded message took at least one
      byte and no more than the buffer held. */
  ghost predicate DecoderConsumes(decode: Decoder) {
    forall buf: seq<byte> :: decode(buf).Decoded? ==> 0 < decode(buf).consumed <= |buf|
  }

  /** The collaborators of a connection: the decoder, the ids handed out to
      `clone` (the `k`-th message handled gets `freshIds(k)`), the crate
      version and the evaluator. */
  datatype Env = Env(decode: Decoder, freshIds: nat -> string, version: string, evaluate: Evaluator)

  /** The connection state: the shared store as this connection sees it,
      the connection's current session, the unconsumed bytes and the
      number of messages handled so far. */
  datatype Conn = Conn(store: SessionStore, current: Option<string>, buffer: seq<byte>, handled: nat)

  /** Why the inner loop stopped: the buffer needs more bytes, or it holds
      something that is not a message. */
  datatype DrainStop = Waiting | DecodeError(reason: string)

  datatype Drained = Drained(conn: Conn, responses: seq<Response>, stop: DrainStop)

  /** The inner loop: decode and handle messages off the front of the
      buffer until it is empty, incomplete or malformed. What is left is a
      suffix of the buffer, each response took at least one byte, and no
      session is lost. */
  function Drain(env: Env, conn: Conn): (d: Drained)
    requires DecoderConsumes(env.decode)
    ensures |d.conn.buffer| <= |conn.buffer|
    ensures d.conn.buffer == conn.buffer[|conn.buffer| - |d.conn.buffer|..]
    ensures d.conn.handled == conn.handled + |d.responses|
    ensures conn.store.Keys <= d.conn.store.Keys
    ensures |d.responses| <= |conn.buffer| - |d.conn.buffer|
    ensures d.stop.Waiting? ==> |d.conn.buffer| == 0 || env.decode(d.conn.buffer).EndOfStream?
    ensures d.stop.DecodeError? ==> env.decode(d.conn.buffer) == Malformed(d.stop.reason)
    decreases |conn.buffer|
  {
    if |conn.buffer| == 0 then Drained(conn, [], Waiting)
    else
      match env.decode(conn.buffer)
      case EndOfStream => Drained(conn, [], Waiting)
      case Malformed(reason) => Drained(conn, [], DecodeError(reason))
      case Decoded(msg, consumed) =>
        var step := Handle(conn.store, conn.current, msg, env.freshIds(conn.handled), env.version, env.evaluate);
        var rest := Drain(env, Conn(step.store, step.current, conn.buffer[consumed..], conn.handled + 1));
        Drained(rest.conn, [step.response] + rest.responses, rest.stop)
  }

  /** How a connection ends, if it has: a clean close leaving `store`, the
      peer closing with a partial message buffered, a malformed message;
      or it is still open once the given reads are used up. */
  datatype Outcome =
    | Closed(last: Conn, store: SessionStore)
    | ClosedMidMessage(last: Conn)
    | DecodeAborted(last: Conn, reason: string)
    | StillOpen(last: Conn)

  /** The cleanup after a clean close: the current session is removed. */
  function CloseSession(store: SessionStore, current: Option<string>): SessionStore {
    if current.Some? then store - {current.value} else store
  }

  /** The outer loop over successive socket reads; an empty read is the
      peer closing. Returns the outcome and every response sent. */
  function Serve(env: Env, conn: Conn, chunks: seq<seq<byte>>): (Outcome, seq<Response>)
    requires DecoderConsumes(env.decode)
    decreases |chunks|
  {
    if |chunks| == 0 then (StillOpen(conn), [])
    else if |chunks[0]| == 0 then
      if |conn.buffer| == 0 then (Closed(conn, CloseSession(conn.store, conn.current)), [])
      else (ClosedMidMessage(conn), [])
    else
      var d := Drain(env, conn.(buffer := conn.buffer + chunks[0]));
      match d.stop
      case DecodeError(reason) => (DecodeAborted(d.conn, reason), d.responses)
      case Waiting =>
        var (outcome, responses) := Serve(env, d.conn, chunks[1..]);
        (outcome, d.responses + responses)
  }

  /** A new connection: no current session and an empty buffer. */
  function Connect(env: Env, store: SessionStore, chunks: seq<seq<byte>>): (Outcome, seq<Response>)
    requires DecoderConsumes(env.decode)
  {
    Serve(env, Conn(store, None, [], 0), chunks)
  }
}
