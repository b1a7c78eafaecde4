/** The send and receive loops over a socket, and the two message calls, working on byte buffers in place. */
module Sockets {
  import opened Words
  import opened Framing

  /** How many of `available` bytes a call moves. */
  function Moved(io: Io, available: nat): nat {
    if io.Transfer? then Min(io.n, available) else 0
  }

  /** What the caller sees: a transfer of nothing is no progress yet, since a result of zero means closed. */
  function Shown(io: Io, k: nat): Io {
    if !io.Transfer? then io else if k == 0 then Again else Transfer(k)
  }

  /** A connected socket; the scripts say what the coming `recv` and `send` calls will do. */
  class Socket {
    var incoming: Bytes
    var outgoing: Bytes
    var receiving: seq<Io>
    var sending: seq<Io>

    ghost function In(): Net
      reads this
    {
      Net(incoming, receiving)
    }

    /** One `recv`: between one and `size` bytes into the buffer at `offset`, or no progress. */
    method Recv(buffer: array<Byte>, offset: nat, size: nat) returns (r: Io)
      requires receiving != [] && 0 < size && offset + size <= buffer.Length
      modifies this`incoming, this`receiving, buffer
      ensures receiving == old(receiving)[1..]
      ensures var k := Moved(old(receiving)[0], Min(size, |old(incoming)|));
              && r == Shown(old(receiving)[0], k)
              && incoming == old(incoming)[k..]
              && buffer[..][..offset] == old(buffer[..])[..offset]
              && buffer[..][offset..offset + k] == old(incoming)[..k]
              && buffer[..][offset + k..] == old(buffer[..])[offset + k..]
    {
      r := receiving[0];
      receiving := receiving[1..];
      if r.Transfer? {
        var k := Min(r.n, Min(size, |incoming|));
        forall i | 0 <= i < k {
          buffer[offset + i] := incoming[i];
        }
        incoming := incoming[k..];
        r := if k == 0 then Again else Transfer(k);
      }
    }

    /** One `send`: between one and all of the bytes offered, or no progress. */
    method Send(data: Bytes) returns (r: Io)
      requires sending != [] && data != []
      modifies this`outgoing, this`sending
      ensures sending == old(sending)[1..]
      ensures var k := Moved(old(sending)[0], |data|);
              r == Shown(old(sending)[0], k) && outgoing == old(outgoing) + data[..k]
    {
      r := sending[0];
      sending := sending[1..];
      if r.Transfer? {
        var k := Min(r.n, |data|);
        outgoing := outgoing + data[..k];
        r := if k == 0 then Again else Transfer(k);
      }
    }
  }

  /** The rest of a receive, with `left` bytes to come after `got`: the recursion that the loop runs. */
  function ReceiveFrom(got: Bytes, left: int, net: Net): Got
    decreases |net.script|
  {
    if left <= 0 then Got(got, Done, net)
    else if net.script == [] then Got(got, Waiting, net)
    else
      var rest := net.script[1..];
      match net.script[0]
      case Again => ReceiveFrom(got, left, net.(script := rest))
      case Fail(e) => Got(got, Errno(e), net.(script := rest))
      case Close => Got(got, UnexpectedClose, net.(script := rest))
      case Transfer(n) =>
        var k := Min(n, Min(left, |net.incoming|));
        ReceiveFrom(got + net.incoming[..k], left - k, Net(net.incoming[k..], rest))
  }

  lemma {:induction false} ReceiveFromReceives(got: Bytes, left: int, net: Net)
    ensures var g := Receive(left, net);
            ReceiveFrom(got, left, net) == Got(got + g.bytes, g.end, g.net)
    decreases |net.script|
  {
    if left > 0 && net.script != [] {
      var rest := net.script[1..];
      match net.script[0]
      case Again => ReceiveFromReceives(got, left, net.(script := rest));
      case Transfer(n) =>
        var k := Min(n, Min(left, |net.incoming|));
        var net' := Net(net.incoming[k..], rest);
        ReceiveFromReceives(got + net.incoming[..k], left - k, net');
        Regroup(got, net.incoming[..k], Receive(left - k, net').bytes);
      case _ =>
    }
  }

  /** The buffer has the bytes of `got` at the front and is otherwise as it was at the start. */
  ghost predicate Holds(now: Bytes, got: Bytes, start: Bytes) {
    |got| <= |now| == |start| && now[..|got|] == got && now[|got|..] == start[|got|..]
  }

  lemma {:induction false} Advance(start: Bytes, before: Bytes, after: Bytes, got: Bytes, part: Bytes)
    requires Holds(before, got, start) && |after| == |before| && |got| + |part| <= |start|
    requires after[..|got|] == before[..|got|]
    requires after[|got|..|got| + |part|] == part
    requires after[|got| + |part|..] == before[|got| + |part|..]
    ensures Holds(after, got + part, start)
  {
    var n := |got| + |part|;
    assert after[..n] == after[..|got|] + after[|got|..n];
    assert before[n..] == before[|got|..][|part|..] == start[|got|..][|part|..] == start[n..];
  }

  /** One round of the receive loop, on values. */
  lemma {:induction false} ReceiveRound(got: Bytes, left: int, net: Net, k: nat, net': Net)
    requires left > 0 && net.script != [] && k == Moved(net.script[0], Min(left, |net.incoming|))
    requires net' == Net(net.incoming[k..], net.script[1..])
    ensures match Shown(net.script[0], k)
            case Again => ReceiveFrom(got, left, net) == ReceiveFrom(got, left, net')
            case Fail(e) => ReceiveFrom(got, left, net) == Got(got, Errno(e), net')
            case Close => ReceiveFrom(got, left, net) == Got(got, UnexpectedClose, net')
            case Transfer(_) => ReceiveFrom(got, left, net) == ReceiveFrom(got + net.incoming[..k], left - k, net')
  {
    assert k == 0 ==> got + net.incoming[..k] == got;
  }

  /** The receive loop: the bytes land at the front of the buffer, in order, and nothing else is touched. */
  method ReliableRecv(sock: Socket, buffer: array<Byte>, size: Int32) returns (end: Ending)
    requires size <= buffer.Length
    modifies sock`incoming, sock`receiving, buffer
    ensures var g := Receive(size, old(sock.In()));
            && end == g.end && sock.In() == g.net
            && |g.bytes| <= buffer.Length
            && buffer[..|g.bytes|] == g.bytes
            && buffer[|g.bytes|..] == old(buffer[..])[|g.bytes|..]
  {
    ghost var start := buffer[..];
    ghost var all := ReceiveFrom([], size, sock.In());
    ReceiveFromReceives([], size, sock.In());
    ghost var got: Bytes := [];
    var offset: nat, left: int := 0, size;
    while left > 0
      invariant offset + left == size && offset == |got| && Holds(buffer[..], got, start)
      invariant all == ReceiveFrom(got, left, sock.In())
      decreases |sock.receiving|
    {
      if sock.receiving == [] {
        return Waiting;
      }
      ghost var before, net := buffer[..], sock.In();
      ghost var part := net.incoming[..Moved(net.script[0], Min(left, |net.incoming|))];
      var r := sock.Recv(buffer, offset, left);
      Advance(start, before, buffer[..], got, part);
      ReceiveRound(got, left, net, |part|, sock.In());
      match r {
        case Again =>
          assert got + part == got;
        case Fail(e) =>
          assert got + part == got;
          return Errno(e);
        case Close =>
          assert got + part == got;
          return UnexpectedClose;
        case Transfer(k) =>
          got := got + part;
          offset := offset + k;
          left := left - k;
      }
    }
    return Done;
  }

  /** What a send of `size` bytes has left after `offset` of them. */
  function Tail(data: Bytes, offset: nat, size: int): Bytes {
    if offset < size <= |data| then data[offset..size] else []
  }

  lemma {:induction false} TailStep(data: Bytes, offset: nat, size: nat, k: nat)
    requires offset < size <= |data| && k <= size - offset
    ensures Tail(data, offset, size)[..k] == data[offset..offset + k]
    ensures Tail(data, offset, size)[k..] == Tail(data, offset + k, size)
  {
  }

  /** The rest of a send, from `offset` on, after `gone` went out: the recursion that the loop runs. */
  function SendFrom(gone: Bytes, data: Bytes, offset: nat, size: int, script: seq<Io>): Sent
    requires size <= |data|
    decreases |script|
  {
    if size <= offset then Sent(gone, Done, script)
    else if script == [] then Sent(gone, Waiting, script)
    else
      match script[0]
      case Again => SendFrom(gone, data, offset, size, script[1..])
      case Fail(e) => Sent(gone, Errno(e), script[1..])
      case Close => Sent(gone, UnexpectedClose, script[1..])
      case Transfer(n) =>
        var k := Min(n, size - offset);
        SendFrom(gone + data[offset..offset + k], data, offset + k, size, script[1..])
  }

  lemma {:induction false} TransmitOne(data: Bytes, script: seq<Io>, part: Bytes, rest: Bytes)
    requires data != [] && script != [] && script[0].Transfer?
    requires part == data[..Min(script[0].n, |data|)] && rest == data[Min(script[0].n, |data|)..]
    ensures var t := Transmit(rest, script[1..]);
            Transmit(data, script) == Sent(part + t.bytes, t.end, t.script)
  {
  }

  lemma {:induction false} TransmitTail(data: Bytes, offset: nat, size: nat, script: seq<Io>)
    requires offset < size <= |data| && script != [] && script[0].Transfer?
    ensures var k := Min(script[0].n, size - offset);
            var t := Transmit(Tail(data, offset + k, size), script[1..]);
            Transmit(Tail(data, offset, size), script) == Sent(data[offset..offset + k] + t.bytes, t.end, t.script)
  {
    var k, tail := Min(script[0].n, size - offset), Tail(data, offset, size);
    var part, rest := data[offset..offset + k], Tail(data, offset + k, size);
    assert |tail| == size - offset && tail[..k] == part && tail[k..] == rest by {
      TailStep(data, offset, size, k);
    }
    TransmitOne(tail, script, part, rest);
  }

  lemma {:induction false} SendFromTransfers(gone: Bytes, data: Bytes, offset: nat, size: nat, script: seq<Io>, k: nat)
    requires offset < size <= |data| && script != [] && script[0].Transfer?
    requires k == Min(script[0].n, size - offset)
    requires var t := Transmit(Tail(data, offset + k, size), script[1..]);
             SendFrom(gone + data[offset..offset + k], data, offset + k, size, script[1..]) ==
             Sent(gone + data[offset..offset + k] + t.bytes, t.end, t.script)
    ensures var t := Transmit(Tail(data, offset, size), script);
            SendFrom(gone, data, offset, size, script) == Sent(gone + t.bytes, t.end, t.script)
  {
    TransmitTail(data, offset, size, script);
    Regroup(gone, data[offset..offset + k], Transmit(Tail(data, offset + k, size), script[1..]).bytes);
  }

  lemma {:induction false} SendFromTransmits(gone: Bytes, data: Bytes, offset: nat, size: int, script: seq<Io>)
    requires size <= |data|
    ensures var t := Transmit(Tail(data, offset, size), script);
            SendFrom(gone, data, offset, size, script) == Sent(gone + t.bytes, t.end, t.script)
    decreases |script|
  {
    if offset < size && script != [] {
      match script[0]
      case Again => SendFromTransmits(gone, data, offset, size, script[1..]);
      case Transfer(n) =>
        var k := Min(n, size - offset);
        SendFromTransmits(gone + data[offset..offset + k], data, offset + k, size, script[1..]);
        SendFromTransfers(gone, data, offset, size, script, k);
      case _ =>
    }
  }

  /** One round of the send loop, on values. */
  lemma {:induction false} SendRound(
    gone: Bytes, data: Bytes, offset: nat, size: nat, script: seq<Io>, offered: Bytes, k: nat)
    requires offset < size <= |data| && script != []
    requires offered == data[offset..size] && k == Moved(script[0], |offered|)
    ensures offset + k <= size && offered[..k] == data[offset..offset + k]
    ensures var all := SendFrom(gone, data, offset, size, script);
            match Shown(script[0], k)
            case Again => k == 0 && all == SendFrom(gone, data, offset, size, script[1..])
            case Fail(e) => k == 0 && all == Sent(gone, Errno(e), script[1..])
            case Close => k == 0 && all == Sent(gone, UnexpectedClose, script[1..])
            case Transfer(n) => n == k && all == SendFrom(gone + offered[..k], data, offset + k, size, script[1..])
  {
    assert offered[..k] == data[offset..offset + k];
    assert k == 0 ==> gone + data[offset..offset + k] == gone;
  }

  /** The send loop: the front of the buffer goes out in order; a negative size sends nothing and reports success. */
  method ReliableSend(sock: Socket, data: Bytes, size: Int32) returns (end: Ending)
    requires size <= |data|
    modifies sock`outgoing, sock`sending
    ensures var s := Transmit(Tail(data, 0, size), old(sock.sending));
            && end == s.end && sock.sending == s.script
            && sock.outgoing == old(sock.outgoing) + s.bytes
  {
    ghost var all := SendFrom([], data, 0, size, sock.sending);
    SendFromTransmits([], data, 0, size, sock.sending);
    ghost var gone: Bytes := [];
    var offset: nat, left: int := 0, size;
    while left > 0
      invariant offset + left == size
      invariant all == SendFrom(gone, data, offset, size, sock.sending)
      invariant sock.outgoing == old(sock.outgoing) + gone
      decreases |sock.sending|
    {
      if sock.sending == [] {
        return Waiting;
      }
      ghost var script := sock.sending;
      var offered := data[offset..size];
      ghost var part := offered[..Moved(script[0], |offered|)];
      var r := sock.Send(offered);
      SendRound(gone, data, offset, size, script, offered, |part|);
      Regroup(old(sock.outgoing), gone, part);
      match r {
        case Again =>
        case Fail(e) => return Errno(e);
        case Close => return UnexpectedClose;
        case Transfer(k) =>
          gone := gone + part;
          offset := offset + k;
          left := left - k;
      }
    }
    return Done;
  }

  // ----- messages

  method WriteLE32(n: Uint32, buffer: array<Byte>, offset: nat)
    requires offset + 4 <= buffer.Length
    modifies buffer
    ensures buffer[..offset] == old(buffer[..offset])
    ensures buffer[offset..offset + 4] == LE32(n)
    ensures LittleEndian(buffer[offset], buffer[offset + 1], buffer[offset + 2], buffer[offset + 3]) == n
  {
    var b := LE32(n);
    BytesOf(n);
    forall i | 0 <= i < 4 {
      buffer[offset + i] := b[i];
    }
  }

  lemma {:induction false} FrameOfParts(b: Bytes, payload: Bytes)
    requires |payload| < TWO_32 && |b| == 8 + |payload|
    requires b[..4] == LE32(|payload|) && b[4..8] == LE32(MAGIC) && b[8..] == payload
    ensures b == Frame(payload, MAGIC)
  {
    assert b == b[..4] + b[4..8] + b[8..];
  }

  /** Builds the frame in one buffer and sends it. */
  method ProtoSend(sock: Socket, payload: Bytes) returns (end: Ending)
    requires |payload| < TWO_31
    modifies sock`outgoing, sock`sending
    ensures var s := SendMessage(payload, old(sock.sending));
            && end == s.end && sock.sending == s.script
            && sock.outgoing == old(sock.outgoing) + s.bytes
    ensures end == Done && 8 + |payload| < 0x8000_0000 ==>
              exists f :: IsFrame(f, payload) && sock.outgoing == old(sock.outgoing) + f
  {
    if 8 + |payload| < 0x8000_0000 {
      SendsFrame(payload, sock.sending);
    }
    var buffer := new Byte[4 * 2 + |payload|];
    WriteLE32(|payload|, buffer, 0);
    WriteLE32(MAGIC, buffer, 4);
    ghost var header := buffer[..8];
    assert header[..4] == LE32(|payload|) && header[4..] == LE32(MAGIC);
    forall i | 0 <= i < |payload| {
      buffer[8 + i] := payload[i];
    }
    assert buffer[..8] == header;
    FrameOfParts(buffer[..], payload);
    SizeAsInt(|payload|);
    assert Tail(buffer[..], 0, ToInt32(buffer.Length)) ==
           if ToInt32(buffer.Length) > 0 then Frame(payload, MAGIC) else [];
    end := ReliableSend(sock, buffer[..], ToInt32(buffer.Length));
  }

  method RecvBody(sock: Socket, size: Uint32) returns (r: Received)
    modifies sock`incoming, sock`receiving
    ensures (r, sock.In()) == ReceiveBody(size, old(sock.In()))
  {
    var response := new Byte[Add32(size, 1)];
    ReceiveExact(ToInt32(size), sock.In());
    var end := ReliableRecv(sock, response, ToInt32(size));
    if end != Done {
      return Broken(end);
    }
    r := if size >= TWO_31 then Unread(size) else Message(response[..size]);
  }

  /** Reads the header, then a body of the announced size into a buffer one byte longer. */
  method ProtoRecv(sock: Socket) returns (r: Received)
    modifies sock`incoming, sock`receiving
    ensures (r, sock.In()) == ReceiveMessage(old(sock.In()))
  {
    var header := new Byte[HEADER_SIZE];
    ReceiveExact(HEADER_SIZE, sock.In());
    var end := ReliableRecv(sock, header, HEADER_SIZE);
    if end != Done {
      return Broken(end);
    }
    assert header[..] == Receive(HEADER_SIZE, old(sock.In())).bytes;
    r := RecvBody(sock, ReadLE32(header[..]));
  }
}
