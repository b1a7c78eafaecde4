/**
Messages on a byte stream: an 8-byte header with the size and a magic number, both little-endian,
then the payload. Sockets transfer as much as they like at a time, or nothing.
 */
module Framing {
  import opened Words

  const MAGIC: Uint32 := 0x1987
  const HEADER_SIZE: nat := 8

  type Bytes = seq<Byte>

  function LE32(n: Uint32): (b: Bytes)
    ensures |b| == 4
  {
    var n0: int := n;
    var n1 := n0 / TWO_8;
    var n2 := n1 / TWO_8;
    [n0 % TWO_8, n1 % TWO_8, n2 % TWO_8, n2 / TWO_8]
  }

  function ReadLE32(b: Bytes): Uint32
    requires |b| >= 4
  {
    b[0] + TWO_8 * (b[1] + TWO_8 * (b[2] + TWO_8 * b[3]))
  }

  /** The header for a payload of `size` bytes. */
  function Header(size: Uint32, magic: Uint32): (h: Bytes)
    ensures |h| == HEADER_SIZE
  {
    LE32(size) + LE32(magic)
  }

  function Frame(payload: Bytes, magic: Uint32): Bytes
    requires |payload| < TWO_32
  {
    Header(|payload|, magic) + payload
  }

  // ----- the bytes on the wire

  /** The number in four bytes, the first of which counts least. */
  function LittleEndian(b0: Byte, b1: Byte, b2: Byte, b3: Byte): Uint32 {
    b0 + 0x100 * b1 + 0x1_0000 * b2 + 0x100_0000 * b3
  }

  /** `f` is the frame of `payload`: its size and the magic number 0x1987, least byte first, then the payload. */
  ghost predicate IsFrame(f: Bytes, payload: Bytes) {
    && |f| == 8 + |payload|
    && LittleEndian(f[0], f[1], f[2], f[3]) == |payload|
    && f[4..8] == [0x87, 0x19, 0, 0]
    && f[8..] == payload
  }

  lemma {:induction false} BytesOf(n: Uint32)
    ensures var b := LE32(n); LittleEndian(b[0], b[1], b[2], b[3]) == n
  {
  }

  lemma {:induction false} SplitByte(a: Byte, x: int, b: Byte, y: int)
    requires a + 0x100 * x == b + 0x100 * y
    ensures a == b && x == y
  {
  }

  lemma {:induction false} SameBytes(a: Bytes, b: Bytes)
    requires |a| == |b| == 4
    requires LittleEndian(a[0], a[1], a[2], a[3]) == LittleEndian(b[0], b[1], b[2], b[3])
    ensures a == b
  {
    var a1: int, a2: int, a3: int := a[1], a[2], a[3];
    var b1: int, b2: int, b3: int := b[1], b[2], b[3];
    SplitByte(a[0], a1 + 0x100 * (a2 + 0x100 * a3), b[0], b1 + 0x100 * (b2 + 0x100 * b3));
    SplitByte(a[1], a2 + 0x100 * a3, b[1], b2 + 0x100 * b3);
    SplitByte(a[2], a3, b[2], b3);
  }

  /** That is the byte layout of frames, and of no other bytes. */
  lemma {:induction false} FrameLayoutIff(payload: Bytes, f: Bytes)
    requires |payload| < 0x1_0000_0000
    ensures f == Frame(payload, MAGIC) <==> IsFrame(f, payload)
  {
    var g := Frame(payload, MAGIC);
    FrameIsLaidOut(payload, g);
    if IsFrame(f, payload) {
      SameBytes(f[..4], g[..4]);
      assert f == f[..4] + f[4..8] + f[8..];
      assert g == g[..4] + g[4..8] + g[8..];
    }
  }

  lemma {:induction false} FrameIsLaidOut(payload: Bytes, g: Bytes)
    requires |payload| < TWO_32 && g == Frame(payload, MAGIC)
    ensures IsFrame(g, payload)
  {
    var size: Uint32 := |payload|;
    BytesOf(size);
    assert g[0] == LE32(size)[0] && g[1] == LE32(size)[1] && g[2] == LE32(size)[2] && g[3] == LE32(size)[3];
    assert g[4..8] == LE32(MAGIC);
    assert g[8..] == payload;
  }

  /** Eight bytes are the header of the size in the first four, whatever the last four are. */
  lemma {:induction false} AnyHeader(h: Bytes) returns (magic: Uint32)
    requires |h| == 8
    ensures h == Header(LittleEndian(h[0], h[1], h[2], h[3]), magic)
  {
    var size := LittleEndian(h[0], h[1], h[2], h[3]);
    magic := LittleEndian(h[4], h[5], h[6], h[7]);
    BytesOf(size);
    BytesOf(magic);
    SameBytes(h[..4], LE32(size));
    SameBytes(h[4..], LE32(magic));
    assert h == h[..4] + h[4..];
  }

  // ----- sockets

  /** What one call to `send` or `recv` does: nothing yet, fail, report a close, or transfer up to `n` bytes. */
  datatype Io = Again | Fail(errno: nat) | Close | Transfer(n: nat)

  /** How a reliable transfer ends; `Waiting` is a call still blocked when the script runs out. */
  datatype Ending = Done | Errno(errno: nat) | UnexpectedClose | Waiting

  function Min(a: nat, b: nat): nat {
    if a <= b then a else b
  }

  /** How many bytes the script is willing to move before the first failure. */
  function Offered(script: seq<Io>): nat {
    if script == [] || script[0].Fail? || script[0].Close? then 0
    else (if script[0].Transfer? then script[0].n else 0) + Offered(script[1..])
  }

  /** The script after a transfer of `n` bytes: what a call offers beyond its demand is not carried over. */
  function Drain(script: seq<Io>, n: nat): seq<Io> {
    if n == 0 || script == [] then script
    else
      match script[0]
      case Again => Drain(script[1..], n)
      case Transfer(m) => Drain(script[1..], n - Min(m, n))
      case _ => script[1..]
  }

  /** Whether the script carries through transfers of the given sizes, one after the other. */
  predicate Delivers(script: seq<Io>, demands: seq<nat>)
    decreases |demands|
  {
    demands == [] || (demands[0] <= Offered(script) && Delivers(Drain(script, demands[0]), demands[1..]))
  }

  datatype Net = Net(incoming: Bytes, script: seq<Io>)

  datatype Got = Got(bytes: Bytes, end: Ending, net: Net)

  /** Receiving `size` bytes: call `recv` until they are there or it fails. */
  function Receive(size: int, net: Net): Got
    decreases |net.script|
  {
    if size <= 0 then Got([], Done, net)
    else if net.script == [] then Got([], Waiting, net)
    else
      var rest := net.script[1..];
      match net.script[0]
      case Again => Receive(size, net.(script := rest))
      case Fail(e) => Got([], Errno(e), net.(script := rest))
      case Close => Got([], UnexpectedClose, net.(script := rest))
      case Transfer(n) =>
        var k := Min(n, Min(size, |net.incoming|));
        var g := Receive(size - k, Net(net.incoming[k..], rest));
        g.(bytes := net.incoming[..k] + g.bytes)
  }

  datatype Sent = Sent(bytes: Bytes, end: Ending, script: seq<Io>)

  /** Sending all of `data`: call `send` until it is gone or it fails. */
  function Transmit(data: Bytes, script: seq<Io>): Sent
    decreases |script|
  {
    if data == [] then Sent([], Done, script)
    else if script == [] then Sent([], Waiting, script)
    else
      match script[0]
      case Again => Transmit(data, script[1..])
      case Fail(e) => Sent([], Errno(e), script[1..])
      case Close => Sent([], UnexpectedClose, script[1..])
      case Transfer(n) =>
        var k := Min(n, |data|);
        var s := Transmit(data[k..], script[1..]);
        s.(bytes := data[..k] + s.bytes)
  }

  lemma {:induction false} Regroup(a: Bytes, b: Bytes, c: Bytes)
    ensures (a + b) + c == a + (b + c)
  {
  }

  /** Nothing is lost, invented or reordered, and the call succeeds exactly when all bytes are in. */
  lemma {:induction false} ReceiveExact(size: int, net: Net)
    ensures var g := Receive(size, net);
            && g.bytes + g.net.incoming == net.incoming
            && |g.bytes| <= (if size <= 0 then 0 else size)
            && (g.end == Done <==> |g.bytes| == if size <= 0 then 0 else size)
    decreases |net.script|
  {
    if size > 0 && net.script != [] {
      var rest := net.script[1..];
      match net.script[0]
      case Again => ReceiveExact(size, net.(script := rest));
      case Transfer(n) =>
        var k := Min(n, Min(size, |net.incoming|));
        ReceiveExact(size - k, Net(net.incoming[k..], rest));
      case _ =>
    }
  }

  /**
  When the bytes are there, the call succeeds exactly if the script offers that many before it fails,
  in whatever pieces and with whatever pauses.
   */
  lemma {:induction false} ReceiveCompletesIff(size: nat, net: Net)
    requires size <= |net.incoming|
    ensures Receive(size, net).end == Done <==> size <= Offered(net.script)
    ensures Receive(size, net).net.script == Drain(net.script, size)
    decreases |net.script|
  {
    if size > 0 && net.script != [] {
      var rest := net.script[1..];
      match net.script[0]
      case Again => ReceiveCompletesIff(size, net.(script := rest));
      case Transfer(n) =>
        var k := Min(n, Min(size, |net.incoming|));
        ReceiveCompletesIff(size - k, Net(net.incoming[k..], rest));
      case _ =>
    }
  }

  /** Call `i` is the first that fails or finds the connection closed. */
  ghost predicate Stops(script: seq<Io>, i: int) {
    && 0 <= i < |script| && (script[i].Fail? || script[i].Close?)
    && forall j :: 0 <= j < i ==> !script[j].Fail? && !script[j].Close?
  }

  /** How a transfer that is not done reports what stopped it. */
  ghost predicate Reports(end: Ending, script: seq<Io>) {
    match end
    case Done => true
    case Errno(e) => exists i :: Stops(script, i) && script[i] == Fail(e)
    case UnexpectedClose => exists i :: Stops(script, i) && script[i] == Close
    case Waiting => forall i :: !Stops(script, i)
  }

  lemma {:induction false} ReportsLater(end: Ending, script: seq<Io>)
    requires script != [] && !script[0].Fail? && !script[0].Close? && Reports(end, script[1..])
    ensures Reports(end, script)
  {
    forall i | Stops(script[1..], i)
      ensures Stops(script, i + 1) && script[i + 1] == script[1..][i]
    {
    }
    forall i | Stops(script, i)
      ensures Stops(script[1..], i - 1)
    {
    }
  }

  lemma {:induction false} ReportsNow(script: seq<Io>)
    requires script != [] && (script[0].Fail? || script[0].Close?)
    ensures Reports(if script[0].Fail? then Errno(script[0].errno) else UnexpectedClose, script)
  {
    assert Stops(script, 0);
  }

  /** A receive that is not done ends with the error, or the close, that came first. */
  lemma {:induction false} ReceiveReports(size: int, net: Net)
    ensures Reports(Receive(size, net).end, net.script)
    decreases |net.script|
  {
    if size > 0 && net.script != [] {
      var rest := net.script[1..];
      match net.script[0]
      case Again =>
        ReceiveReports(size, net.(script := rest));
        ReportsLater(Receive(size, net).end, net.script);
      case Transfer(n) =>
        var k := Min(n, Min(size, |net.incoming|));
        ReceiveReports(size - k, Net(net.incoming[k..], rest));
        ReportsLater(Receive(size, net).end, net.script);
      case _ => ReportsNow(net.script);
    }
  }

  /** So does a send. */
  lemma {:induction false} TransmitReports(data: Bytes, script: seq<Io>)
    ensures Reports(Transmit(data, script).end, script)
    decreases |script|
  {
    if data != [] && script != [] {
      match script[0]
      case Again =>
        TransmitReports(data, script[1..]);
        ReportsLater(Transmit(data, script).end, script);
      case Transfer(n) =>
        TransmitReports(data[Min(n, |data|)..], script[1..]);
        ReportsLater(Transmit(data, script).end, script);
      case _ => ReportsNow(script);
    }
  }

  /** What goes out is a prefix of the data, all of it exactly when the call succeeds. */
  lemma {:induction false} TransmitExact(data: Bytes, script: seq<Io>)
    ensures var s := Transmit(data, script);
            s.bytes <= data && (s.end == Done <==> s.bytes == data)
    decreases |script|
  {
    if data != [] && script != [] {
      match script[0]
      case Again => TransmitExact(data, script[1..]);
      case Transfer(n) =>
        var k := Min(n, |data|);
        TransmitExact(data[k..], script[1..]);
        assert data == data[..k] + data[k..];
      case _ =>
    }
  }

  lemma {:induction false} TransmitCompletesIff(data: Bytes, script: seq<Io>)
    ensures Transmit(data, script).end == Done <==> |data| <= Offered(script)
    ensures Transmit(data, script).script == Drain(script, |data|)
    decreases |script|
  {
    if data != [] && script != [] {
      match script[0]
      case Again => TransmitCompletesIff(data, script[1..]);
      case Transfer(n) => TransmitCompletesIff(data[Min(n, |data|)..], script[1..]);
      case _ =>
    }
  }

  // ----- messages

  /** The conversion of a frame size to `int`: itself if it fits, negative otherwise. */
  lemma {:induction false} SizeAsInt(n: nat)
    requires n < TWO_31
    ensures HEADER_SIZE + n < TWO_31 ==> ToInt32(HEADER_SIZE + n) == HEADER_SIZE + n
    ensures HEADER_SIZE + n >= TWO_31 ==> ToInt32(HEADER_SIZE + n) < 0
  {
  }

  /** The size handed to the socket loop is an `int`: beyond 2^31 - 9 payload bytes it is negative. */
  function SendMessage(payload: Bytes, script: seq<Io>): Sent
    requires |payload| < TWO_31
  {
    var size := ToInt32(HEADER_SIZE + |payload|);
    Transmit(if size > 0 then Frame(payload, MAGIC) else [], script)
  }

  datatype Received = Message(payload: Bytes) | Broken(end: Ending) | Unread(size: Uint32)

  /** A size of 2^31 or more turns negative as an `int`, and then no body is read. */
  function ReceiveBody(size: Uint32, net: Net): (Received, Net) {
    var b := Receive(ToInt32(size), net);
    if b.end != Done then (Broken(b.end), b.net)
    else if size >= TWO_31 then (Unread(size), b.net)
    else (Message(b.bytes), b.net)
  }

  function ReceiveMessage(net: Net): (Received, Net) {
    ReceiveExact(HEADER_SIZE, net);
    var h := Receive(HEADER_SIZE, net);
    if h.end != Done then (Broken(h.end), h.net) else ReceiveBody(ReadLE32(h.bytes), h.net)
  }

  /** A success report of the sender means the whole frame exactly when header and payload fit an `int`. */
  lemma {:induction false} SendIsWholeIff(payload: Bytes, script: seq<Io>)
    requires |payload| < TWO_31
    ensures var s := SendMessage(payload, script);
            s.end == Done ==> (s.bytes == Frame(payload, MAGIC) <==> 8 + |payload| < 0x8000_0000)
    ensures 8 + |payload| >= 0x8000_0000 ==> SendMessage(payload, script) == Sent([], Done, script)
  {
    var size := ToInt32(HEADER_SIZE + |payload|);
    SizeAsInt(|payload|);
    TransmitExact(if size > 0 then Frame(payload, MAGIC) else [], script);
  }

  /**
  Whatever the script, a message read off a frame is that frame's payload, whole, and nothing more is
  consumed; and one is read exactly when the script carries the header and then the payload.
   */
  lemma {:induction false} MessageIsPayload(payload: Bytes, magic: Uint32, rest: Bytes, script: seq<Io>)
    requires |payload| < TWO_31
    ensures var (m, net') := ReceiveMessage(Net(Frame(payload, magic) + rest, script));
            && (m == Message(payload) || m.Broken?)
            && (m.Message? ==> net' == Net(rest, Drain(Drain(script, HEADER_SIZE), |payload|)))
            && (m.Message? <==> Delivers(script, [HEADER_SIZE, |payload|]))
  {
    var net := Net(Frame(payload, magic) + rest, script);
    var head := Header(|payload|, magic);
    assert net.incoming == head + (payload + rest);
    ReceivePrefix(head, payload + rest, script);
    SizeInHeader(|payload|, magic);
    BodyIsPayload(payload, rest, Drain(script, HEADER_SIZE));
    DeliversTwo(script, HEADER_SIZE, |payload|);
  }

  /** In bytes: behind any header whose first four announce its size, a payload is read as it is. */
  lemma {:induction false} ReadsLittleEndian(h: Bytes, payload: Bytes, rest: Bytes, script: seq<Io>)
    requires |h| == 8 && LittleEndian(h[0], h[1], h[2], h[3]) == |payload| < 0x8000_0000
    ensures var (m, net') := ReceiveMessage(Net(h + payload + rest, script));
            && (m.Message? <==> Delivers(script, [8, |payload|]))
            && (m.Message? ==> m.payload == payload && net'.incoming == rest)
  {
    var magic := AnyHeader(h);
    MessageIsPayload(payload, magic, rest, script);
  }

  /** A message that is sent without an error is on the wire as its frame; otherwise a part of the frame is. */
  lemma {:induction false} SendsFrame(payload: Bytes, script: seq<Io>)
    requires 8 + |payload| < 0x8000_0000
    ensures var s := SendMessage(payload, script);
            && (s.end == Done ==> IsFrame(s.bytes, payload))
            && exists f :: IsFrame(f, payload) && s.bytes <= f
  {
    var f := Frame(payload, MAGIC);
    FrameLayoutIff(payload, f);
    SendFits(payload, script);
    TransmitExact(f, script);
  }

  lemma {:induction false} BodyIsPayload(payload: Bytes, rest: Bytes, script: seq<Io>)
    requires |payload| < TWO_31
    ensures var (m, net') := ReceiveBody(|payload|, Net(payload + rest, script));
            && (m == Message(payload) || m.Broken?)
            && (m.Message? ==> net' == Net(rest, Drain(script, |payload|)))
            && (m.Message? <==> |payload| <= Offered(script))
  {
    ReceivePrefix(payload, rest, script);
  }

  lemma {:induction false} DeliversTwo(script: seq<Io>, a: nat, b: nat)
    ensures Delivers(script, [a, b]) <==> a <= Offered(script) && b <= Offered(Drain(script, a))
  {
    assert [a, b][1..] == [b] && [b][1..] == [];
    assert Delivers(Drain(script, a), [b]) <==> b <= Offered(Drain(script, a));
  }

  /** Asking for the first part of what is coming gives that part or fails. */
  lemma {:induction false} ReceivePrefix(part: Bytes, rest: Bytes, script: seq<Io>)
    ensures var g := Receive(|part|, Net(part + rest, script));
            && (g.end == Done <==> |part| <= Offered(script))
            && (g.end == Done ==> g == Got(part, Done, Net(rest, Drain(script, |part|))))
  {
    var net := Net(part + rest, script);
    ReceiveExact(|part|, net);
    ReceiveCompletesIff(|part|, net);
    var g := Receive(|part|, net);
    if g.end == Done {
      assert g.bytes == (g.bytes + g.net.incoming)[..|part|] == part;
      assert g.net.incoming == (g.bytes + g.net.incoming)[|part|..] == rest;
    }
  }

  lemma {:induction false} SizeInHeader(size: Uint32, magic: Uint32)
    ensures ReadLE32(Header(size, magic)) == size
  {
  }

  /** A header that announces 2^31 bytes or more leaves the body on the stream for the next read to trip over. */
  lemma {:induction false} HugeBodyUnread(size: Uint32, magic: Uint32, rest: Bytes, script: seq<Io>)
    requires size >= 0x8000_0000
    ensures var (m, net') := ReceiveMessage(Net(Header(size, magic) + rest, script));
            && (m == Unread(size) || m.Broken?)
            && (m.Unread? ==> net' == Net(rest, Drain(script, HEADER_SIZE)))
            && (m.Unread? <==> HEADER_SIZE <= Offered(script))
  {
    ReceivePrefix(Header(size, magic), rest, script);
    SizeInHeader(size, magic);
  }

  // ----- many messages

  /** Messages as the message library can produce them: their size is an `int`. */
  predicate Sized(msgs: seq<Bytes>) {
    forall i :: 0 <= i < |msgs| ==> |msgs[i]| < TWO_31
  }

  predicate Fits(msg: Bytes) {
    HEADER_SIZE + |msg| < TWO_31
  }

  /** Messages whose whole frame has a size that is an `int`. */
  predicate Sendable(msgs: seq<Bytes>) {
    forall i :: 0 <= i < |msgs| ==> Fits(msgs[i])
  }

  /** The frames of all messages, end to end. */
  function Stream(msgs: seq<Bytes>): Bytes
    requires Sized(msgs)
  {
    if msgs == [] then [] else Frame(msgs[0], MAGIC) + Stream(msgs[1..])
  }

  /** The messages that are not silently skipped. */
  function Kept(msgs: seq<Bytes>): (kept: seq<Bytes>)
    requires Sized(msgs)
    ensures Sized(kept)
  {
    if msgs == [] then [] else (if Fits(msgs[0]) then [msgs[0]] else []) + Kept(msgs[1..])
  }

  /** Sends one message after another until one fails. */
  function SendAll(msgs: seq<Bytes>, script: seq<Io>): Sent
    requires Sized(msgs)
    decreases |msgs|
  {
    if msgs == [] then Sent([], Done, script) else
      var s := SendMessage(msgs[0], script);
      if s.end != Done then s else
        var t := SendAll(msgs[1..], s.script);
        t.(bytes := s.bytes + t.bytes)
  }

  /** Reads `n` messages, or as many as come before a failure. */
  function ReceiveAll(n: nat, net: Net): (seq<Bytes>, Net) {
    if n == 0 then ([], net) else
      var (m, net') := ReceiveMessage(net);
      if !m.Message? then ([], net') else
        var (ms, net'') := ReceiveAll(n - 1, net');
        ([m.payload] + ms, net'')
  }

  /** The transfers of a sequence of sends: one per frame. */
  function SendDemands(msgs: seq<Bytes>): seq<nat> {
    if msgs == [] then [] else [if Fits(msgs[0]) then HEADER_SIZE + |msgs[0]| else 0] + SendDemands(msgs[1..])
  }

  /** The transfers of a sequence of reads: header and payload of each message. */
  function ReadDemands(msgs: seq<Bytes>): seq<nat> {
    if msgs == [] then [] else [HEADER_SIZE, |msgs[0]|] + ReadDemands(msgs[1..])
  }

  lemma {:induction false} SendFits(msg: Bytes, script: seq<Io>)
    requires |msg| < TWO_31
    ensures SendMessage(msg, script) == Transmit(if Fits(msg) then Frame(msg, MAGIC) else [], script)
  {
    SizeAsInt(|msg|);
  }

  /**
  Sending is done exactly when the script carries every frame; then the frames of all messages that
  fit are out, and at any rate a prefix of them is.
   */
  lemma {:induction false} SendAllStream(msgs: seq<Bytes>, script: seq<Io>)
    requires Sized(msgs)
    ensures var s := SendAll(msgs, script);
            && s.bytes <= Stream(Kept(msgs))
            && (s.end == Done ==> s.bytes == Stream(Kept(msgs)))
            && (s.end == Done <==> Delivers(script, SendDemands(msgs)))
    decreases |msgs|
  {
    if msgs != [] {
      var s := SendMessage(msgs[0], script);
      var data := if Fits(msgs[0]) then Frame(msgs[0], MAGIC) else [];
      SendFits(msgs[0], script);
      TransmitExact(data, script);
      TransmitCompletesIff(data, script);
      KeptStream(msgs, data);
      assert SendDemands(msgs)[0] == |data| && SendDemands(msgs)[1..] == SendDemands(msgs[1..]);
      if s.end == Done {
        SendAllStream(msgs[1..], s.script);
      }
    }
  }

  lemma {:induction false} KeptStream(msgs: seq<Bytes>, data: Bytes)
    requires Sized(msgs) && msgs != [] && data == if Fits(msgs[0]) then Frame(msgs[0], MAGIC) else []
    ensures Stream(Kept(msgs)) == data + Stream(Kept(msgs[1..]))
  {
    if Fits(msgs[0]) {
      assert Kept(msgs)[1..] == Kept(msgs[1..]);
    } else {
      assert Kept(msgs) == Kept(msgs[1..]);
    }
  }

  /** All messages are kept exactly when each frame fits; otherwise bytes are missing from the stream. */
  lemma {:induction false} KeptAllIff(msgs: seq<Bytes>)
    requires Sized(msgs)
    ensures Kept(msgs) == msgs <==> Sendable(msgs)
    ensures |Stream(Kept(msgs))| <= |Stream(msgs)|
    ensures Stream(Kept(msgs)) == Stream(msgs) <==> Sendable(msgs)
    decreases |msgs|
  {
    if msgs != [] {
      KeptAllIff(msgs[1..]);
      KeptStream(msgs, if Fits(msgs[0]) then Frame(msgs[0], MAGIC) else []);
      KeptShrinks(msgs[1..]);
      if Fits(msgs[0]) {
        assert Kept(msgs)[1..] == Kept(msgs[1..]);
        assert Frame(msgs[0], MAGIC) + Stream(Kept(msgs[1..])) == Frame(msgs[0], MAGIC) + Stream(msgs[1..]) <==>
               Stream(Kept(msgs[1..])) == Stream(msgs[1..]) by {
          SamePrefix(Frame(msgs[0], MAGIC), Stream(Kept(msgs[1..])), Stream(msgs[1..]));
        }
        assert Sendable(msgs) <==> Sendable(msgs[1..]);
      } else {
        assert !Sendable(msgs);
      }
    }
  }

  lemma {:induction false} SamePrefix(a: Bytes, b: Bytes, c: Bytes)
    ensures a + b == a + c <==> b == c
  {
    assert b == (a + b)[|a|..] && c == (a + c)[|a|..];
  }

  lemma {:induction false} KeptShrinks(msgs: seq<Bytes>)
    requires Sized(msgs)
    ensures |Kept(msgs)| <= |msgs|
    decreases |msgs|
  {
    if msgs != [] {
      KeptShrinks(msgs[1..]);
    }
  }

  /**
  Reading a stream of frames gives a prefix of the messages under any script, and all of them, with
  nothing of the rest consumed, exactly when the script carries each header and each payload.
   */
  lemma {:induction false} ReceiveAllStream(msgs: seq<Bytes>, rest: Bytes, script: seq<Io>)
    requires Sized(msgs)
    ensures var (ms, net') := ReceiveAll(|msgs|, Net(Stream(msgs) + rest, script));
            && ms <= msgs
            && (ms == msgs ==> net'.incoming == rest)
            && (ms == msgs <==> Delivers(script, ReadDemands(msgs)))
    decreases |msgs|
  {
    if msgs != [] {
      var tail := Stream(msgs[1..]) + rest;
      assert Stream(msgs) + rest == Frame(msgs[0], MAGIC) + tail;
      MessageIsPayload(msgs[0], MAGIC, tail, script);
      DeliversTwo(script, HEADER_SIZE, |msgs[0]|);
      ReadDemandsStep(msgs, script);
      var (m, net') := ReceiveMessage(Net(Stream(msgs) + rest, script));
      if m.Message? {
        ReceiveAllStream(msgs[1..], rest, net'.script);
        assert msgs == [msgs[0]] + msgs[1..];
      }
    } else {
      assert Stream(msgs) + rest == rest;
    }
  }

  lemma {:induction false} ReadDemandsStep(msgs: seq<Bytes>, script: seq<Io>)
    requires msgs != []
    ensures Delivers(script, ReadDemands(msgs)) <==>
            && HEADER_SIZE <= Offered(script)
            && |msgs[0]| <= Offered(Drain(script, HEADER_SIZE))
            && Delivers(Drain(Drain(script, HEADER_SIZE), |msgs[0]|), ReadDemands(msgs[1..]))
  {
    var d := ReadDemands(msgs);
    assert d[1..] == [|msgs[0]|] + ReadDemands(msgs[1..]) && d[1..][1..] == ReadDemands(msgs[1..]);
  }

  /** Asking for more messages than there are gives those that there are. */
  lemma {:induction false} ReadPastEnd(n: nat, msgs: seq<Bytes>, script: seq<Io>)
    requires Sized(msgs) && |msgs| <= n
    ensures var net := Net(Stream(msgs), script);
            && ReceiveAll(n, net).0 == ReceiveAll(|msgs|, net).0
            && (ReceiveAll(n, net).0 == msgs ==> ReceiveAll(n, net).1.incoming == [])
    decreases n
  {
    var net := Net(Stream(msgs), script);
    if msgs == [] {
      ReceiveExact(HEADER_SIZE, net);
    } else {
      MessageIsPayload(msgs[0], MAGIC, Stream(msgs[1..]), script);
      var (m, net') := ReceiveMessage(net);
      if m.Message? {
        ReadPastEnd(n - 1, msgs[1..], net'.script);
      }
    }
  }

  /**
  End to end, for any messages the library can produce and any two scripts: the sender is done
  exactly when its script carries every frame; what then arrives is the list without the messages
  whose frame does not fit, complete exactly when the other script carries it, with nothing left over.
   */
  lemma {:induction false} EndToEnd(msgs: seq<Bytes>, sending: seq<Io>, receiving: seq<Io>)
    requires Sized(msgs)
    ensures var s := SendAll(msgs, sending);
            var (ms, net') := ReceiveAll(|Kept(msgs)|, Net(s.bytes, receiving));
            && (s.end == Done <==> Delivers(sending, SendDemands(msgs)))
            && (s.end == Done ==>
                  && (ms == Kept(msgs) <==> Delivers(receiving, ReadDemands(Kept(msgs))))
                  && (ms == Kept(msgs) ==> net'.incoming == [])
                  && (Kept(msgs) == msgs <==> Sendable(msgs)))
  {
    SendAllStream(msgs, sending);
    ReceiveAllStream(Kept(msgs), [], receiving);
    KeptAllIff(msgs);
    assert Stream(Kept(msgs)) + [] == Stream(Kept(msgs));
  }
}
