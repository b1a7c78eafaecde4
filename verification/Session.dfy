/**
The session object: four buffers reused from request to request and the callbacks that the I/O
service runs. Each callback is proved to be one step of the machine.
 */
module Session {
  import opened Words
  import opened Framing
  import opened SessionModel
  import opened SessionSafety

  class Connection {
    const codec: Codec
    var ids: Ids
    var receiveBuffer: array<Byte>
    var sendBuffer: array<Byte>
    var largeReceive: Bytes
    var largeSend: Bytes
    var pending: seq<Op>
    ghost var acts: seq<Act>

    // the two directions of the socket
    var input: Bytes
    var output: Bytes

    ghost predicate Valid()
      reads this
    {
      receiveBuffer.Length == BUFFER_SIZE && sendBuffer.Length == BUFFER_SIZE && receiveBuffer != sendBuffer
    }

    ghost function Value(): State
      reads this
    {
      State(pending, acts, input, output)
    }

    /** A session on an accepted socket, on which `client` is what the peer will have sent. */
    constructor (codec: Codec, client: Bytes)
      ensures Valid() && fresh(receiveBuffer) && fresh(sendBuffer)
      ensures Value() == State([], [], client, []) && this.codec == codec
    {
      this.codec := codec;
      ids := Ids(0, 0, 0);
      receiveBuffer := new Byte[BUFFER_SIZE];
      sendBuffer := new Byte[BUFFER_SIZE];
      largeReceive := [];
      largeSend := [];
      pending := [];
      acts := [];
      input := client;
      output := [];
    }

    /** Takes the credentials of the peer and asks for a header, or closes if its pid is unknown. */
    method Open(peer: Ids)
      requires Valid() && Value() == State([], [], input, [])
      modifies this`ids, this`pending, this`acts
      ensures Valid() && ids == peer && Value() == Opened(peer, input)
    {
      ids := peer;
      if peer.pid == 0 {
        Stop();
      } else {
        ProtoStart();
      }
    }

    /** Closing the socket. */
    method Stop()
      modifies this`acts
      ensures acts == old(acts) + [Stopped]
    {
      acts := acts + [Stopped];
    }

    method ProtoStart()
      modifies this`pending, this`acts
      ensures pending == old(pending) + [HeaderRead] && acts == old(acts) + [AskHeader]
    {
      pending := pending + [HeaderRead];
      acts := acts + [AskHeader];
    }

    /** The I/O service moves the next `n` bytes of the socket to the front of a buffer. */
    method Fill(buffer: array<Byte>, n: nat)
      requires n <= buffer.Length && n <= |input|
      modifies this`input, buffer
      ensures buffer[..n] == old(input)[..n] && input == old(input)[n..]
    {
      forall i | 0 <= i < n {
        buffer[i] := input[i];
      }
      input := input[n..];
    }

    /** Takes operation `k` off the list of pending ones. */
    method Complete(k: nat)
      requires k < |pending|
      modifies this`pending
      ensures pending == old(pending)[..k] + old(pending)[k + 1..]
    {
      pending := pending[..k] + pending[k + 1..];
    }

    method HeaderReceived(k: nat, failed: bool, n: nat)
      requires Valid() && Enabled(Value(), HeaderDone(k, failed, n))
      modifies this`pending, this`acts, this`largeReceive, this`input, receiveBuffer
      ensures Valid() && Value() == Step(old(Value()), HeaderDone(k, failed, n), codec, ids)
    {
      Fill(receiveBuffer, n);
      Complete(k);
      if failed {
        Stop();
        return;
      }
      if n < HEADER_SIZE {
        Stop();
        return;
      }
      ghost var header := receiveBuffer[..HEADER_SIZE];
      var size := ReadLE32(receiveBuffer[..4]);
      assert receiveBuffer[..4] == header[..4];
      if size > BUFFER_SIZE {
        largeReceive := seq(size, _ => 0);
      }
      pending := pending + [BodyRead(receiveBuffer[..HEADER_SIZE])];
      acts := acts + [AskBody(header)];
    }

    /**
    The body is parsed where the data pointer points: into the fixed buffer, or, once the guard has
    freed the large one, at bytes that could be anything (`dangling`).
     */
    method CommandReceived(k: nat, failed: bool, n: nat, dangling: Bytes, outcome: Outcome)
      requires Valid() && k < |pending| && pending[k].BodyRead?
      requires var seen := if !failed && n <= BUFFER_SIZE then input[..Min(n, |input|)] else dangling;
               Enabled(Value(), BodyDone(k, failed, n, seen, outcome))
      modifies this`pending, this`acts, this`largeReceive, this`largeSend, this`input, receiveBuffer, sendBuffer
      ensures var seen := if !failed && n <= BUFFER_SIZE then old(input)[..n] else dangling;
              Valid() && Value() == Step(old(Value()), BodyDone(k, failed, n, seen, outcome), codec, ids)
      ensures BodySize(old(pending)[k].header) > 8192 ==> largeReceive == []
      ensures var seen := if !failed && n <= BUFFER_SIZE then old(input)[..n] else dangling;
              !failed && codec.parse(seen).Some? ==>
                var said := codec.parse(seen).value;
                && |acts| > |old(acts)| && acts[|old(acts)|].Dispatched?
                && acts[|old(acts)|].cmd == Command(said.kind, said.statement, ids.pid, ids.uid, ids.gid)
    {
      var size := BodySize(pending[k].header);
      ghost var header, received := pending[k].header, input[..n];
      var data := dangling;
      if size <= BUFFER_SIZE {
        Fill(receiveBuffer, n);
        if !failed {
          data := receiveBuffer[..size];
        }
      } else {
        input := input[n..];
        largeReceive := [];
      }
      Complete(k);
      if failed {
        Stop();
        return;
      }
      var result := codec.parse(data);
      if result.None? {
        Stop();
        return;
      }
      Process(header, received, result.value, outcome);
    }

    /** The rest of the callback: stamps the command and hands it over. */
    method Process(ghost header: Bytes, ghost received: Bytes, said: Command, outcome: Outcome)
      requires Valid()
      modifies this`pending, this`acts, this`largeSend, sendBuffer
      ensures Valid()
      ensures var cmd := Command(said.kind, said.statement, ids.pid, ids.uid, ids.gid);
              var dispatched := old(acts) + [Dispatched(header, received, cmd, outcome)];
              match Answer(cmd.kind, outcome, codec)
              case None => pending == [] && acts == dispatched + [Crashed]
              case Some(r) =>
                pending == old(pending) + [Writing(Reply(codec, r))] && acts == dispatched + [Respond(Reply(codec, r))]
    {
      var cmd := said.(pid := ids.pid, uid := ids.uid, gid := ids.gid);
      acts := acts + [Dispatched(header, received, cmd, outcome)];
      Dispatch(cmd, outcome);
    }

    /**
    Looks the handler up and calls the writer exactly once, except when the handler throws something
    unforeseen. What the handler does is given by `outcome`.
     */
    method Dispatch(cmd: Command, outcome: Outcome)
      requires Valid()
      modifies this`pending, this`acts, this`largeSend, sendBuffer
      ensures Valid()
      ensures match Answer(cmd.kind, outcome, codec)
              case None => pending == [] && acts == old(acts) + [Crashed]
              case Some(r) =>
                pending == old(pending) + [Writing(Reply(codec, r))] && acts == old(acts) + [Respond(Reply(codec, r))]
      ensures if HasHandler(cmd.kind) && outcome == OtherException then acts == old(acts) + [Crashed]
              else exists data :: Conveys(cmd.kind, outcome, codec, data) && acts == old(acts) + [Respond(data)]
    {
      AnswerConveys(cmd.kind, outcome, codec);
      if cmd.kind !in REGISTERED {
        WriteResponse(Status(false, "not handler found for type " + codec.typeName(cmd.kind)));
        return;
      }
      match outcome {
        case Returned(r) =>
          WriteResponse(r);
        case RuntimeError(what) =>
          WriteResponse(Status(false, "runtime error " + what));
        case JsonError(what) =>
          WriteResponse(Status(false, "json error " + what));
        case HttpError(what) =>
          WriteResponse(Status(false, "http error " + what));
        case OtherException =>
          pending := [];
          acts := acts + [Crashed];
      }
    }

    /** Lays the frame out in a buffer. */
    method SerializeMessage(body: Payload, buffer: array<Byte>)
      requires buffer.Length >= HEADER_SIZE + |body|
      modifies buffer
      ensures buffer[..HEADER_SIZE + |body|] == Frame(body, MAGIC)
      ensures IsFrame(buffer[..8 + |body|], body)
    {
      var size, magic := LE32(|body|), LE32(MAGIC);
      forall i | 0 <= i < HEADER_SIZE + |body| {
        buffer[i] := if i < 4 then size[i] else if i < 8 then magic[i - 4] else body[i - HEADER_SIZE];
      }
      FrameLayoutIff(body, buffer[..HEADER_SIZE + |body|]);
    }

    /** Starts writing a response from the fixed buffer if it fits, from the large one otherwise. */
    method WriteResponse(r: Response)
      requires Valid()
      modifies this`pending, this`acts, this`largeSend, sendBuffer
      ensures Valid()
      ensures pending == old(pending) + [Writing(Reply(codec, r))] && acts == old(acts) + [Respond(Reply(codec, r))]
    {
      var body := codec.encode(r);
      var size := |body| + HEADER_SIZE;
      var data;
      if size > BUFFER_SIZE {
        var large := new Byte[size];
        SerializeMessage(body, large);
        largeSend := large[..];
        data := largeSend;
      } else {
        SerializeMessage(body, sendBuffer);
        data := sendBuffer[..size];
      }
      assert data == Reply(codec, r);
      pending := pending + [Writing(data)];
      acts := acts + [Respond(data)];
    }

    /**
    The callback gets the bytes moved for a large response but the frame size for a small one; the
    large buffer is freed when that number exceeds the fixed buffer, so a write that fails early keeps it.
     */
    method ResponseSent(k: nat, failed: bool, n: nat)
      requires Valid() && Enabled(Value(), WriteDone(k, failed, n))
      modifies this`pending, this`acts, this`largeSend, this`output
      ensures Valid() && Value() == Step(old(Value()), WriteDone(k, failed, n), codec, ids)
      ensures largeSend == if n > 8192 then [] else old(largeSend)
    {
      var data := pending[k].data;
      output := output + data[..n];
      var len := if |data| > BUFFER_SIZE then n else |data|;
      if len > BUFFER_SIZE {
        largeSend := [];
      }
      Complete(k);
      if failed {
        Stop();
        return;
      }
      ProtoStart();
    }
  }
}
