/**
A daemon session as a machine driven by completions: every asynchronous operation that is started
is outstanding until its completion arrives, and its callback starts the next one or stops.
 */
module SessionModel {
  import opened Wrappers
  import opened Words
  import opened Framing

  const BUFFER_SIZE: nat := 8192

  /** The command types of the protocol that have a registered handler. */
  const CREATE_PRINCIPAL: nat := 0
  const DELETE_PRINCIPAL: nat := 1
  const REGISTERED: set<nat> :=
    {CREATE_PRINCIPAL, DELETE_PRINCIPAL, 2, 3, 4, 5, 6, 7, 8, 9, 20, 21, 50, 51, 53, 54, 100, 101, 102, 103, 104, 105}

  /** A parsed command. Clients can fill in the last three members, but the session overwrites them. */
  datatype Command = Command(kind: nat, statement: Bytes, pid: Uint64, uid: Uint64, gid: Uint64)

  datatype Response = Status(success: bool, info: string) | Other(kind: nat, result: Bytes)

  /** A response is at most 2^31 - 9 bytes, the largest for which the size of its frame is an `int`. */
  type Payload = b: Bytes | HEADER_SIZE + |b| < TWO_31

  /** The message library, which is not part of this model. */
  datatype Codec = Codec(parse: Bytes -> Option<Command>, encode: Response -> Payload, typeName: nat -> string)

  /** The credentials of the peer, taken from the socket. */
  datatype Ids = Ids(pid: Uint64, uid: Uint64, gid: Uint64)

  function Stamp(c: Command, ids: Ids): Command {
    c.(pid := ids.pid, uid := ids.uid, gid := ids.gid)
  }

  // ----- dispatch

  /** What a handler does when it is called. */
  datatype Outcome =
    | Returned(r: Response)
    | RuntimeError(what: string)
    | JsonError(what: string)
    | HttpError(what: string)
    | OtherException

  /** What the dispatcher hands to the writer; an exception of another kind escapes and no one is called. */
  function Answer(kind: nat, outcome: Outcome, codec: Codec): Option<Response> {
    if kind !in REGISTERED then Some(Status(false, "not handler found for type " + codec.typeName(kind)))
    else
      match outcome
      case Returned(r) => Some(r)
      case RuntimeError(what) => Some(Status(false, "runtime error " + what))
      case JsonError(what) => Some(Status(false, "json error " + what))
      case HttpError(what) => Some(Status(false, "http error " + what))
      case OtherException => None
  }

  // ----- what an answer says

  /** The protocol numbers of the command types with a handler. */
  predicate HasHandler(kind: nat) {
    kind <= 9 || 20 <= kind <= 21 || 50 <= kind <= 51 || 53 <= kind <= 54 || 100 <= kind <= 105
  }

  lemma {:induction false} RegisteredIff(kind: nat)
    ensures kind in REGISTERED <==> HasHandler(kind)
  {
  }

  /** The text for a command that could not be handled. */
  predicate Explains(kind: nat, outcome: Outcome, codec: Codec, info: string) {
    if !HasHandler(kind) then info == "not handler found for type " + codec.typeName(kind)
    else
      match outcome
      case RuntimeError(what) => info == "runtime error " + what
      case JsonError(what) => info == "json error " + what
      case HttpError(what) => info == "http error " + what
      case _ => false
  }

  /**
  The bytes tell the client what became of its command: the very response that its handler returned,
  or a status that says that it failed, and why.
   */
  ghost predicate Conveys(kind: nat, outcome: Outcome, codec: Codec, data: Bytes) {
    if HasHandler(kind) && outcome.Returned? then IsFrame(data, codec.encode(outcome.r))
    else exists info :: Explains(kind, outcome, codec, info) && IsFrame(data, codec.encode(Status(false, info)))
  }

  // ----- the machine

  /** An operation that has been started and not yet completed; a body read follows from its header. */
  datatype Op = HeaderRead | BodyRead(header: Bytes) | Writing(data: Bytes)

  /** What the session does, in order. */
  datatype Act =
    | AskHeader
    | AskBody(header: Bytes)
    | Dispatched(header: Bytes, payload: Bytes, cmd: Command, outcome: Outcome)
    | Respond(data: Bytes)
    | Stopped
    | Crashed

  /** `input` is what the client has sent and the session not read; `output` is what was written to it. */
  datatype State = State(pending: seq<Op>, acts: seq<Act>, input: Bytes, output: Bytes)

  /** A new session: peers whose pid is unknown (zero) are turned away, others asked for a header. */
  function Opened(ids: Ids, client: Bytes): State {
    if ids.pid == 0 then State([], [Stopped], client, []) else State([HeaderRead], [AskHeader], client, [])
  }

  /**
  A completion of the pending operation at place `k`, which moved `n` bytes. The parser works on
  `seen`: a guard that frees a large buffer runs before it, so that there these can be any bytes.
   */
  datatype Event =
    | HeaderDone(k: nat, failed: bool, n: nat)
    | BodyDone(k: nat, failed: bool, n: nat, seen: Bytes, outcome: Outcome)
    | WriteDone(k: nat, failed: bool, n: nat)

  function BodySize(header: Bytes): Uint32 {
    if |header| >= HEADER_SIZE then ReadLE32(header) else 0
  }

  /** Which completions can arrive; only a failed one moves fewer bytes than asked of a body read or a write. */
  predicate Enabled(s: State, e: Event) {
    && e.k < |s.pending|
    && var op := s.pending[e.k];
       match e
       case HeaderDone(_, _, n) => op.HeaderRead? && n <= HEADER_SIZE && n <= |s.input|
       case BodyDone(_, failed, n, seen, _) =>
         && op.BodyRead? && n <= |s.input|
         && n <= BodySize(op.header) == |seen|
         && (!failed ==> n == BodySize(op.header) && (n <= BUFFER_SIZE ==> seen == s.input[..n]))
       case WriteDone(_, failed, n) => op.Writing? && n <= |op.data| && (!failed ==> n == |op.data|)
  }

  function Reply(codec: Codec, r: Response): Bytes {
    Frame(codec.encode(r), MAGIC)
  }

  function Step(s: State, e: Event, codec: Codec, ids: Ids): State
    requires Enabled(s, e)
  {
    var op, rest := s.pending[e.k], s.pending[..e.k] + s.pending[e.k + 1..];
    match e
    case HeaderDone(_, failed, n) =>
      var data, input := s.input[..n], s.input[n..];
      if failed || n < HEADER_SIZE then State(rest, s.acts + [Stopped], input, s.output)
      else State(rest + [BodyRead(data)], s.acts + [AskBody(data)], input, s.output)
    case BodyDone(_, failed, n, seen, outcome) =>
      var data, input := s.input[..n], s.input[n..];
      if failed || codec.parse(seen).None? then State(rest, s.acts + [Stopped], input, s.output)
      else
        var cmd := Stamp(codec.parse(seen).value, ids);
        var acts := s.acts + [Dispatched(op.header, data, cmd, outcome)];
        (match Answer(cmd.kind, outcome, codec)
         case None => State([], acts + [Crashed], input, s.output)
         case Some(r) => State(rest + [Writing(Reply(codec, r))], acts + [Respond(Reply(codec, r))], input, s.output))
    case WriteDone(_, failed, n) =>
      var output := s.output + op.data[..n];
      if failed then State(rest, s.acts + [Stopped], s.input, output)
      else State(rest + [HeaderRead], s.acts + [AskHeader], s.input, output)
  }

  ghost predicate IsRun(s: State, es: seq<Event>, s': State, codec: Codec, ids: Ids)
    decreases |es|
  {
    if es == [] then s == s' else
      Enabled(s, es[0]) && IsRun(Step(s, es[0], codec, ids), es[1..], s', codec, ids)
  }
}
