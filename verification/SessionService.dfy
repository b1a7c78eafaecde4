/**
The bytes that go through a session: what is read off the client's stream and what is written back,
over every run of the machine.
 */
module SessionService {
  import opened Words
  import opened Framing
  import opened SessionModel
  import opened SessionSafety

  // ----- bytes read and bytes written

  /** The bytes that commands were read from. */
  function Consumed(ds: seq<Act>): Bytes
    requires forall d :: d in ds ==> d.Dispatched?
  {
    if ds == [] then [] else ds[0].header + ds[0].payload + Consumed(ds[1..])
  }

  function Concat(bs: seq<Bytes>): Bytes {
    if bs == [] then [] else bs[0] + Concat(bs[1..])
  }

  lemma {:induction false} ConsumedSnoc(ds: seq<Act>, d: Act)
    requires d.Dispatched? && forall x :: x in ds ==> x.Dispatched?
    ensures Consumed(ds + [d]) == Consumed(ds) + d.header + d.payload
    decreases |ds|
  {
    if ds == [] {
      assert ds + [d] == [d] && [d][1..] == [];
    } else {
      assert (ds + [d])[1..] == ds[1..] + [d];
      ConsumedSnoc(ds[1..], d);
    }
  }

  lemma {:induction false} ConcatSnoc(bs: seq<Bytes>, b: Bytes)
    ensures Concat(bs + [b]) == Concat(bs) + b
    decreases |bs|
  {
    if bs == [] {
      assert bs + [b] == [b] && [b][1..] == [];
    } else {
      assert (bs + [b])[1..] == bs[1..] + [b];
      ConcatSnoc(bs[1..], b);
    }
  }

  lemma {:induction false} ActsSnoc(acts: seq<Act>, a: Act)
    ensures Dispatches(acts + [a]) == if a.Dispatched? then Dispatches(acts) + [a] else Dispatches(acts)
    ensures Responses(acts + [a]) == if a.Respond? then Responses(acts) + [a.data] else Responses(acts)
  {
    assert (acts + [a])[..|acts|] == acts;
  }

  function InFlights(a: Act): seq<Bytes> {
    if a.Respond? then [a.data] else []
  }

  lemma {:induction false} DispatchedActs(acts: seq<Act>, d: Act, next: Act)
    requires d.Dispatched? && (next.Respond? || next.Crashed?)
    ensures var acts' := acts + [d] + [next];
            && Dispatches(acts') == Dispatches(acts) + [d]
            && Responses(acts') == Responses(acts) + InFlights(next)
  {
    ActsSnoc(acts, d);
    ActsSnoc(acts + [d], next);
  }

  function Last(s: State): Act
    requires s.acts != []
  {
    s.acts[|s.acts| - 1]
  }

  function HeaderOf(a: Act): Bytes {
    if a.AskBody? then a.header else []
  }

  function InFlight(a: Act): Bytes {
    if a.Respond? then a.data else []
  }

  /** Everything read so far on behalf of commands, the one under way included. */
  function Taken(acts: seq<Act>): Bytes
    requires acts != []
  {
    Consumed(Dispatches(acts)) + HeaderOf(acts[|acts| - 1])
  }

  /** The session reads the client's stream from the front without gaps; a failed read may lose its bytes. */
  ghost predicate Reads(s: State, client: Bytes)
    requires s.acts != []
  {
    if Last(s).Stopped? then Consumed(Dispatches(s.acts)) <= client else Taken(s.acts) + s.input == client
  }

  /** The session writes its responses one after the other; a failed write may cut off the last. */
  ghost predicate Writes(s: State)
    requires s.acts != []
  {
    var due := Concat(Responses(s.acts));
    if Last(s).Stopped? then s.output <= due else s.output + InFlight(Last(s)) == due
  }

  lemma {:induction false} Cut(a: Bytes, n: nat)
    requires n <= |a|
    ensures a == a[..n] + a[n..]
  {
  }

  /** A stop changes neither the commands nor the responses so far. */
  lemma {:induction false} StopFlows(s: State, s': State, client: Bytes)
    requires s.acts != [] && !Last(s).Stopped? && Reads(s, client) && s'.acts == s.acts + [Stopped]
    ensures Reads(s', client)
    ensures Responses(s'.acts) == Responses(s.acts)
  {
    ActsSnoc(s.acts, Stopped);
    Regroup(Consumed(Dispatches(s.acts)), HeaderOf(Last(s)), s.input);
  }

  lemma {:induction false} TookHeader(s: State, s': State, data: Bytes, client: Bytes)
    requires s.acts != [] && Last(s).AskHeader? && Reads(s, client) && Writes(s)
    requires s'.acts == s.acts + [AskBody(data)] && s.input == data + s'.input && s'.output == s.output
    ensures Reads(s', client) && Writes(s')
  {
    TakenHeader(s.acts, data);
    Regroup(Taken(s.acts), data, s'.input);
  }

  lemma {:induction false} TakenHeader(acts: seq<Act>, data: Bytes)
    requires acts != [] && acts[|acts| - 1].AskHeader?
    ensures Taken(acts + [AskBody(data)]) == Taken(acts) + data
    ensures Responses(acts + [AskBody(data)]) == Responses(acts)
  {
    ActsSnoc(acts, AskBody(data));
    assert Consumed(Dispatches(acts)) + [] == Consumed(Dispatches(acts));
  }

  lemma {:induction false} HeaderFlows(s: State, e: Event, client: Bytes, codec: Codec, ids: Ids)
    requires s.acts != [] && Last(s).AskHeader? && s.pending == [HeaderRead]
    requires Enabled(s, e) && Reads(s, client) && Writes(s)
    ensures var s' := Step(s, e, codec, ids); Reads(s', client) && Writes(s')
  {
    var s' := Step(s, e, codec, ids);
    if e.failed || e.n < HEADER_SIZE {
      StopFlows(s, s', client);
    } else {
      Cut(s.input, e.n);
      TookHeader(s, s', s.input[..e.n], client);
    }
  }

  lemma {:induction false} DispatchFlows(acts: seq<Act>, d: Act, next: Act)
    requires acts != [] && d.Dispatched? && acts[|acts| - 1] == AskBody(d.header)
    requires next.Respond? || next.Crashed?
    ensures Taken(acts + [d] + [next]) == Taken(acts) + d.payload
    ensures Concat(Responses(acts + [d] + [next])) == Concat(Responses(acts)) + InFlight(next)
  {
    DispatchedActs(acts, d, next);
    TakenBody(Dispatches(acts), d);
    DueBytes(Responses(acts), next);
    var acts' := acts + [d] + [next];
    assert acts'[|acts'| - 1] == next && HeaderOf(next) == [];
  }

  lemma {:induction false} DueBytes(rs: seq<Bytes>, next: Act)
    ensures Concat(rs + InFlights(next)) == Concat(rs) + InFlight(next)
  {
    if next.Respond? {
      ConcatSnoc(rs, next.data);
    } else {
      assert rs + [] == rs;
    }
  }

  lemma {:induction false} TakenBody(ds: seq<Act>, d: Act)
    requires d.Dispatched? && forall x :: x in ds ==> x.Dispatched?
    ensures Consumed(ds + [d]) + [] == (Consumed(ds) + d.header) + d.payload
  {
    ConsumedSnoc(ds, d);
  }

  lemma {:induction false} TookBody(s: State, s': State, d: Act, next: Act, client: Bytes)
    requires s.acts != [] && d.Dispatched? && Last(s) == AskBody(d.header) && Reads(s, client) && Writes(s)
    requires next.Respond? || next.Crashed?
    requires s'.acts == s.acts + [d] + [next] && s.input == d.payload + s'.input && s'.output == s.output
    ensures Reads(s', client) && Writes(s')
  {
    DispatchFlows(s.acts, d, next);
    assert Last(s') == next && HeaderOf(next) == [];
    Regroup(Taken(s.acts), d.payload, s'.input);
  }

  lemma {:induction false} BodyFlows(s: State, e: Event, client: Bytes, codec: Codec, ids: Ids)
    requires s.acts != [] && Last(s).AskBody? && s.pending == [BodyRead(Last(s).header)]
    requires Enabled(s, e) && Reads(s, client) && Writes(s)
    ensures var s' := Step(s, e, codec, ids); Reads(s', client) && Writes(s')
  {
    var s' := Step(s, e, codec, ids);
    if e.failed || codec.parse(e.seen).None? {
      StopFlows(s, s', client);
    } else {
      var d := Dispatched(Last(s).header, s.input[..e.n], Stamp(codec.parse(e.seen).value, ids), e.outcome);
      Cut(s.input, e.n);
      TookBody(s, s', d, AfterDispatch(d.cmd, d.outcome, codec), client);
    }
  }

  lemma {:induction false} WriteFlows(s: State, e: Event, client: Bytes, codec: Codec, ids: Ids)
    requires s.acts != [] && Last(s).Respond? && s.pending == [Writing(Last(s).data)]
    requires Enabled(s, e) && Reads(s, client) && Writes(s)
    ensures var s' := Step(s, e, codec, ids); Reads(s', client) && Writes(s')
  {
    var s' := Step(s, e, codec, ids);
    var data := Last(s).data;
    Cut(data, e.n);
    if e.failed {
      StopFlows(s, s', client);
      Regroup(s.output, data[..e.n], data[e.n..]);
    } else {
      ActsSnoc(s.acts, AskHeader);
      assert data[..e.n] == data;
      assert Taken(s'.acts) == Taken(s.acts);
    }
  }

  ghost predicate Flowing(s: State, client: Bytes, codec: Codec, ids: Ids) {
    Inv(s, codec, ids) && Reads(s, client) && Writes(s)
  }

  lemma {:induction false} StepFlows(s: State, e: Event, client: Bytes, codec: Codec, ids: Ids)
    requires Flowing(s, client, codec, ids) && Enabled(s, e)
    ensures Flowing(Step(s, e, codec, ids), client, codec, ids)
  {
    StepKeeps(s, e, codec, ids);
    match e
    case HeaderDone(_, _, _) => HeaderFlows(s, e, client, codec, ids);
    case BodyDone(_, _, _, _, _) => BodyFlows(s, e, client, codec, ids);
    case WriteDone(_, _, _) => WriteFlows(s, e, client, codec, ids);
  }

  lemma {:induction false} RunFlows(s: State, es: seq<Event>, s': State, client: Bytes, codec: Codec, ids: Ids)
    requires Flowing(s, client, codec, ids) && IsRun(s, es, s', codec, ids)
    ensures Flowing(s', client, codec, ids)
    decreases |es|
  {
    if es != [] {
      StepFlows(s, es[0], client, codec, ids);
      RunFlows(Step(s, es[0], codec, ids), es[1..], s', client, codec, ids);
    }
  }

  lemma {:induction false} OpenedFlows(client: Bytes, codec: Codec, ids: Ids)
    ensures Flowing(Opened(ids, client), client, codec, ids)
  {
    var s := Opened(ids, client);
    OpenedInv(client, codec, ids);
    assert s.acts[..0] == [];
  }

  // ----- the commands are the client's

  ghost predicate WholeReads(ds: seq<Act>) {
    forall d :: d in ds ==> d.Dispatched? && |d.header| == HEADER_SIZE && |d.payload| == BodySize(d.header)
  }

  lemma {:induction false} DispatchesWhole(acts: seq<Act>, codec: Codec, ids: Ids)
    requires Chain(acts, codec, ids)
    ensures WholeReads(Dispatches(acts))
  {
    forall d | d in Dispatches(acts)
      ensures d.Dispatched? && |d.header| == HEADER_SIZE && |d.payload| == BodySize(d.header)
    {
      DispatchFollows(acts, d, codec, ids);
    }
  }

  lemma {:induction false} FirstFrame(header: Bytes, payload: Bytes, more: Bytes, p: Bytes, rest: Bytes)
    requires |header| == HEADER_SIZE && |payload| == BodySize(header) && |p| < TWO_31
    requires header + payload + more == Frame(p, MAGIC) + rest
    ensures payload == p && more == rest
  {
    var whole := header + payload + more;
    var h := Header(|p|, MAGIC);
    assert whole == h + p + rest;
    assert header == whole[..HEADER_SIZE] == h;
    SizeInHeader(|p|, MAGIC);
    assert payload == whole[HEADER_SIZE..HEADER_SIZE + |p|] == p;
    assert more == whole[HEADER_SIZE + |p|..] == rest;
  }

  /** Whole reads off a stream of frames are its payloads in order, and what follows them is the rest of it. */
  lemma {:induction false} UniqueFraming(ds: seq<Act>, ps: seq<Bytes>, more: Bytes, rest: Bytes)
    requires WholeReads(ds) && Sized(ps)
    requires Consumed(ds) + more == Stream(ps) + rest
    ensures forall i :: 0 <= i < |ds| && i < |ps| ==> ds[i].payload == ps[i]
    ensures |ds| <= |ps| ==> more == Stream(ps[|ds|..]) + rest
    ensures rest == [] ==> |ds| <= |ps|
    decreases |ds|
  {
    if ds == [] {
      assert ps[0..] == ps;
    } else if ps != [] {
      var d := ds[0];
      var more', rest' := Consumed(ds[1..]) + more, Stream(ps[1..]) + rest;
      assert Consumed(ds) + more == d.header + d.payload + more';
      assert Stream(ps) + rest == Frame(ps[0], MAGIC) + rest';
      FirstFrame(d.header, d.payload, more', ps[0], rest');
      UniqueFraming(ds[1..], ps[1..], more, rest);
      assert |ds| <= |ps| ==> ps[1..][|ds| - 1..] == ps[|ds|..];
    } else {
      assert |Consumed(ds)| >= HEADER_SIZE;
    }
  }

  lemma {:induction false} ReadPrefix(s: State, client: Bytes, codec: Codec, ids: Ids) returns (more: Bytes)
    requires Flowing(s, client, codec, ids)
    ensures WholeReads(Dispatches(s.acts)) && Consumed(Dispatches(s.acts)) + more == client
    ensures !Last(s).Stopped? ==> more == HeaderOf(Last(s)) + s.input
  {
    DispatchesWhole(s.acts, codec, ids);
    var read := Consumed(Dispatches(s.acts));
    more := client[|read|..];
    if !Last(s).Stopped? {
      Regroup(read, HeaderOf(Last(s)), s.input);
      assert client == read + (HeaderOf(Last(s)) + s.input);
    }
  }

  /**
  On a stream that begins with the frames of `ps`, in any run and however far it gets, the i-th
  command dispatched was read from the i-th of them.
   */
  lemma {:induction false} CommandsAreTheClients(
    ps: seq<Bytes>, rest: Bytes, es: seq<Event>, s: State, codec: Codec, ids: Ids)
    requires Sized(ps) && IsRun(Opened(ids, Stream(ps) + rest), es, s, codec, ids)
    ensures var ds := Dispatches(s.acts);
            forall i :: 0 <= i < |ds| && i < |ps| ==> ds[i].payload == ps[i]
  {
    var client := Stream(ps) + rest;
    OpenedFlows(client, codec, ids);
    RunFlows(Opened(ids, client), es, s, client, codec, ids);
    var more := ReadPrefix(s, client, codec, ids);
    UniqueFraming(Dispatches(s.acts), ps, more, rest);
  }

  // ----- the answers are the client's too

  datatype Request = Request(payload: Bytes, outcome: Outcome)

  /** A request the session can serve: small enough for the fixed buffer, well-formed, and answered. */
  predicate Servable(r: Request, codec: Codec) {
    && |r.payload| <= BUFFER_SIZE
    && codec.parse(r.payload).Some?
    && Answer(codec.parse(r.payload).value.kind, r.outcome, codec).Some?
  }

  function AnswerBytes(r: Request, codec: Codec): Payload
    requires Servable(r, codec)
  {
    codec.encode(Answer(codec.parse(r.payload).value.kind, r.outcome, codec).value)
  }

  /** The answers up to the first request that cannot be served. */
  function Answers(rs: seq<Request>, codec: Codec): (bs: seq<Bytes>)
    ensures Sized(bs) && Sendable(bs) && |bs| <= |rs|
  {
    if rs == [] || !Servable(rs[0], codec) then [] else [AnswerBytes(rs[0], codec)] + Answers(rs[1..], codec)
  }

  /** Without the dispatcher: a small, well-formed request is served unless its handler throws something unforeseen. */
  lemma {:induction false} ServableIff(r: Request, codec: Codec)
    ensures Servable(r, codec) <==>
            && |r.payload| <= 8192 && codec.parse(r.payload).Some?
            && !(HasHandler(codec.parse(r.payload).value.kind) && r.outcome == OtherException)
  {
    if codec.parse(r.payload).Some? {
      AnswerConveys(codec.parse(r.payload).value.kind, r.outcome, codec);
    }
  }

  /** The frame of each answer tells what became of its request. */
  lemma {:induction false} AnswersConvey(rs: seq<Request>, codec: Codec, i: nat)
    requires i < |Answers(rs, codec)|
    ensures codec.parse(rs[i].payload).Some?
    ensures exists f ::
              && IsFrame(f, Answers(rs, codec)[i])
              && Conveys(codec.parse(rs[i].payload).value.kind, rs[i].outcome, codec, f)
    decreases i
  {
    if i > 0 {
      AnswersConvey(rs[1..], codec, i - 1);
    } else {
      var kind := codec.parse(rs[0].payload).value.kind;
      AnswerConveys(kind, rs[0].outcome, codec);
      FrameLayoutIff(Answers(rs, codec)[0], Reply(codec, Answer(kind, rs[0].outcome, codec).value));
    }
  }

  function Payloads(rs: seq<Request>): (ps: seq<Bytes>)
    ensures |ps| == |rs| && forall i :: 0 <= i < |rs| ==> ps[i] == rs[i].payload
    ensures Small(rs) ==> Sized(ps)
  {
    if rs == [] then [] else [rs[0].payload] + Payloads(rs[1..])
  }

  /** Requests that fit the fixed buffer, whether or not they make sense. */
  predicate Small(rs: seq<Request>) {
    forall i :: 0 <= i < |rs| ==> |rs[i].payload| <= BUFFER_SIZE
  }

  /** The handlers turned out as the requests say. */
  ghost predicate Handled(ds: seq<Act>, rs: seq<Request>) {
    forall i :: 0 <= i < |ds| && i < |rs| ==> ds[i].Dispatched? && ds[i].outcome == rs[i].outcome
  }

  lemma {:induction false} AnswersReach(rs: seq<Request>, codec: Codec, n: nat)
    requires n <= |rs| && forall i :: 0 <= i < n ==> Servable(rs[i], codec)
    ensures n <= |Answers(rs, codec)|
    ensures forall i :: 0 <= i < n ==> Answers(rs, codec)[i] == AnswerBytes(rs[i], codec)
    decreases n
  {
    if n > 0 {
      AnswersReach(rs[1..], codec, n - 1);
    }
  }

  /** Frames of the first messages of a list are the front of its stream. */
  lemma {:induction false} FramesArePrefix(rs: seq<Bytes>, bs: seq<Bytes>)
    requires Sized(bs) && |rs| <= |bs| && forall i :: 0 <= i < |rs| ==> rs[i] == Frame(bs[i], MAGIC)
    ensures Concat(rs) <= Stream(bs)
    ensures |rs| == |bs| ==> Concat(rs) == Stream(bs)
    decreases |rs|
  {
    if rs != [] {
      FramesArePrefix(rs[1..], bs[1..]);
    }
  }

  /** What the answered commands of a run say about the requests. */
  lemma {:induction false} RespondedServable(
    ds: seq<Act>, rs: seq<Request>, out: seq<Bytes>, codec: Codec, ids: Ids)
    requires Small(rs) && Handled(ds, rs) && Matched(ds, out, codec) && |ds| <= |rs|
    requires forall i :: 0 <= i < |ds| ==> ds[i].Dispatched? && ds[i].payload == rs[i].payload
    requires forall i :: 0 <= i < |ds| ==> Follows(AskBody(ds[i].header), ds[i], codec, ids)
    ensures forall i :: 0 <= i < |out| ==> Servable(rs[i], codec) && out[i] == Frame(AnswerBytes(rs[i], codec), MAGIC)
  {
    forall i | 0 <= i < |out|
      ensures Servable(rs[i], codec) && out[i] == Frame(AnswerBytes(rs[i], codec), MAGIC)
    {
      assert Follows(AskBody(ds[i].header), ds[i], codec, ids);
      assert |rs[i].payload| <= BUFFER_SIZE;
    }
  }

  lemma {:induction false} ResponsesAreAnswers(rs: seq<Request>, s: State, codec: Codec, ids: Ids)
    requires Small(rs) && Flowing(s, Stream(Payloads(rs)), codec, ids)
    requires Handled(Dispatches(s.acts), rs)
    ensures var out := Responses(s.acts);
            && |Dispatches(s.acts)| <= |rs| && |out| <= |Answers(rs, codec)|
            && Concat(out) <= Stream(Answers(rs, codec))
            && (|out| == |Answers(rs, codec)| ==> Concat(out) == Stream(Answers(rs, codec)))
  {
    var ds, out := Dispatches(s.acts), Responses(s.acts);
    DispatchedRequests(rs, s, codec, ids);
    ChainMatched(s.acts, codec, ids);
    RespondedServable(ds, rs, out, codec, ids);
    AnswersReach(rs, codec, |out|);
    FramesArePrefix(out, Answers(rs, codec));
  }

  lemma {:induction false} DispatchedRequests(rs: seq<Request>, s: State, codec: Codec, ids: Ids)
    requires Small(rs) && Flowing(s, Stream(Payloads(rs)), codec, ids)
    ensures var ds := Dispatches(s.acts);
            && |ds| <= |rs|
            && (forall i :: 0 <= i < |ds| ==> ds[i].Dispatched? && ds[i].payload == rs[i].payload)
            && (forall i :: 0 <= i < |ds| ==> Follows(AskBody(ds[i].header), ds[i], codec, ids))
  {
    var ds := Dispatches(s.acts);
    var more := ReadPrefix(s, Stream(Payloads(rs)), codec, ids);
    assert Stream(Payloads(rs)) + [] == Stream(Payloads(rs));
    UniqueFraming(ds, Payloads(rs), more, []);
    EachFollows(s.acts, codec, ids);
  }

  lemma {:induction false} EachFollows(acts: seq<Act>, codec: Codec, ids: Ids)
    requires Chain(acts, codec, ids)
    ensures var ds := Dispatches(acts);
            forall i :: 0 <= i < |ds| ==> ds[i].Dispatched? && Follows(AskBody(ds[i].header), ds[i], codec, ids)
  {
    var ds := Dispatches(acts);
    forall i | 0 <= i < |ds|
      ensures ds[i].Dispatched? && Follows(AskBody(ds[i].header), ds[i], codec, ids)
    {
      DispatchFollows(acts, ds[i], codec, ids);
    }
  }

  /**
  On a stream of frames of small requests, in every run, failures included, what has been written
  together with the write under way is a prefix of the frames of the answers, in order.
   */
  lemma {:induction false} WrittenIsPrefix(
    rs: seq<Request>, client: Bytes, es: seq<Event>, s: State, codec: Codec, ids: Ids)
    requires Small(rs) && client == Stream(Payloads(rs))
    requires IsRun(Opened(ids, client), es, s, codec, ids) && Handled(Dispatches(s.acts), rs)
    ensures s.acts != [] && s.output + InFlight(Last(s)) <= Stream(Answers(rs, codec))
  {
    OpenedFlows(client, codec, ids);
    RunFlows(Opened(ids, client), es, s, client, codec, ids);
    ResponsesAreAnswers(rs, s, codec, ids);
    assert s.output + [] == s.output;
  }

  // ----- a run without failures serves the requests up to the first that cannot be

  /** A completion without failure that moved all it was asked to. */
  predicate Good(e: Event) {
    !e.failed && (e.HeaderDone? ==> e.n == HEADER_SIZE)
  }

  ghost predicate GoodRun(es: seq<Event>) {
    forall i :: 0 <= i < |es| ==> Good(es[i])
  }

  predicate Alive(s: State) {
    s.acts != [] && (Last(s).AskHeader? || Last(s).AskBody? || Last(s).Respond?)
  }

  ghost predicate AllServable(rs: seq<Request>, codec: Codec) {
    forall i :: 0 <= i < |rs| ==> Servable(rs[i], codec)
  }

  /** Reading the frames of `ps` with the first header in: the body is the first of `ps`, then come the others. */
  lemma {:induction false} HeadOfStream(header: Bytes, input: Bytes, ps: seq<Bytes>)
    requires Sized(ps) && |header| == HEADER_SIZE && header + input == Stream(ps)
    ensures ps != [] && BodySize(header) == |ps[0]| && input == ps[0] + Stream(ps[1..])
  {
    if ps != [] {
      var h, tail := Header(|ps[0]|, MAGIC), ps[0] + Stream(ps[1..]);
      Regroup(h, ps[0], Stream(ps[1..]));
      assert header + input == h + tail;
      assert header == (header + input)[..HEADER_SIZE] == h;
      assert input == (header + input)[HEADER_SIZE..] == tail;
      SizeInHeader(|ps[0]|, MAGIC);
    }
  }

  /** What is left of the client's stream: the frames of the requests not dispatched yet. */
  lemma {:induction false} Remaining(rs: seq<Request>, s: State, codec: Codec, ids: Ids)
    requires Small(rs) && Flowing(s, Stream(Payloads(rs)), codec, ids) && Alive(s)
    ensures var n := |Dispatches(s.acts)|;
            n <= |rs| && HeaderOf(Last(s)) + s.input == Stream(Payloads(rs)[n..])
  {
    var more := ReadPrefix(s, Stream(Payloads(rs)), codec, ids);
    assert Stream(Payloads(rs)) + [] == Stream(Payloads(rs));
    UniqueFraming(Dispatches(s.acts), Payloads(rs), more, []);
    var n := |Dispatches(s.acts)|;
    assert Stream(Payloads(rs)[n..]) + [] == Stream(Payloads(rs)[n..]);
  }

  /** Nothing is read beyond request `n`. */
  ghost predicate Behind(rs: seq<Request>, n: nat, input: Bytes) {
    Small(rs) && n < |rs| && input == Stream(Payloads(rs)[n + 1..])
  }

  /** A body being read is that of the next request. */
  lemma {:induction false} NextBody(rs: seq<Request>, s: State, codec: Codec, ids: Ids)
    requires Small(rs) && Flowing(s, Stream(Payloads(rs)), codec, ids) && Alive(s) && Last(s).AskBody?
    ensures var n := |Dispatches(s.acts)|;
            && n < |rs| && BodySize(Last(s).header) == |rs[n].payload| <= |s.input|
            && s.input[..|rs[n].payload|] == rs[n].payload
            && Behind(rs, n, s.input[|rs[n].payload|..])
  {
    Remaining(rs, s, codec, ids);
    AskedHeaderSize(s.acts, codec, ids);
    var n := |Dispatches(s.acts)|;
    var ps := Payloads(rs)[n..];
    HeadOfStream(Last(s).header, s.input, ps);
    assert ps[0] == rs[n].payload && ps[1..] == Payloads(rs)[n + 1..];
  }

  lemma {:induction false} AskedHeaderSize(acts: seq<Act>, codec: Codec, ids: Ids)
    requires Chain(acts, codec, ids) && acts[|acts| - 1].AskBody?
    ensures |acts[|acts| - 1].header| == HEADER_SIZE
  {
    ChainInit(acts, codec, ids);
  }

  /** The session has ended at the first request that it cannot serve, with all before it answered. */
  ghost predicate GaveUp(rs: seq<Request>, s: State, codec: Codec) {
    && s.acts != [] && (Last(s).Stopped? || Last(s).Crashed?) && s.pending == []
    && s.output == Concat(Responses(s.acts))
    && |Responses(s.acts)| < |rs|
    && !Servable(rs[|Responses(s.acts)|], codec)
    && Behind(rs, |Responses(s.acts)|, s.input)
  }

  /** A session that is busy with the requests of `rs`, or has served what it can of them. */
  ghost predicate Serving(rs: seq<Request>, s: State, codec: Codec, ids: Ids) {
    && Small(rs) && Flowing(s, Stream(Payloads(rs)), codec, ids)
    && Handled(Dispatches(s.acts), rs)
    && (Alive(s) || GaveUp(rs, s, codec))
  }

  /** The handlers turn out as the requests say in this completion too. */
  predicate Fitting(rs: seq<Request>, s: State, e: Event, codec: Codec) {
    var n := |Dispatches(s.acts)|;
    e.BodyDone? && codec.parse(e.seen).Some? && n < |rs| ==> e.outcome == rs[n].outcome
  }

  lemma {:induction false} GivesUp(rs: seq<Request>, s: State, s': State, codec: Codec, ids: Ids)
    requires Serving(rs, s, codec, ids) && Alive(s) && Last(s).AskBody?
    requires var n := |Dispatches(s.acts)|;
             n < |rs| && !Servable(rs[n], codec) && Behind(rs, n, s'.input)
    requires s'.acts != [] && (Last(s').Stopped? || Last(s').Crashed?) && s'.pending == []
    requires Responses(s'.acts) == Responses(s.acts) && s'.output == s.output
    ensures GaveUp(rs, s', codec)
  {
    ChainMatched(s.acts, codec, ids);
    assert s.output + [] == s.output;
  }

  lemma {:induction false} StopServes(rs: seq<Request>, s: State, e: Event, codec: Codec, ids: Ids)
    requires Serving(rs, s, codec, ids) && Alive(s) && Last(s).AskBody?
    requires Enabled(s, e) && Good(e) && e.BodyDone? && codec.parse(e.seen).None?
    ensures var s' := Step(s, e, codec, ids); GaveUp(rs, s', codec) && Dispatches(s'.acts) == Dispatches(s.acts)
  {
    NextBody(rs, s, codec, ids);
    ActsSnoc(s.acts, Stopped);
    var s' := Step(s, e, codec, ids);
    assert s'.acts == s.acts + [Stopped];
    GivesUp(rs, s, s', codec, ids);
  }

  /** The command that a good completion of a body read brings. */
  function Brought(s: State, e: Event, codec: Codec, ids: Ids): (d: Act)
    requires s.acts != [] && Last(s).AskBody? && e.BodyDone? && e.n <= |s.input| && codec.parse(e.seen).Some?
    ensures d.Dispatched?
  {
    Dispatched(Last(s).header, s.input[..e.n], Stamp(codec.parse(e.seen).value, ids), e.outcome)
  }

  lemma {:induction false} BroughtStep(s: State, e: Event, codec: Codec, ids: Ids)
    requires Inv(s, codec, ids) && Last(s).AskBody?
    requires Enabled(s, e) && Good(e) && e.BodyDone? && codec.parse(e.seen).Some?
    ensures var s', d := Step(s, e, codec, ids), Brought(s, e, codec, ids);
            var next := AfterDispatch(d.cmd, d.outcome, codec);
            && s'.acts == s.acts + [d] + [next] && s'.pending == Outstanding(next)
            && s'.input == s.input[e.n..] && s'.output == s.output
  {
    var d := Brought(s, e, codec, ids);
    assert s.pending == [BodyRead(Last(s).header)];
    if AfterDispatch(d.cmd, d.outcome, codec) == Crashed {
      assert Answer(d.cmd.kind, d.outcome, codec).None?;
    }
  }

  lemma {:induction false} BroughtActs(s: State, e: Event, codec: Codec, ids: Ids)
    requires Inv(s, codec, ids) && Last(s).AskBody?
    requires Enabled(s, e) && Good(e) && e.BodyDone? && codec.parse(e.seen).Some?
    ensures var s', d := Step(s, e, codec, ids), Brought(s, e, codec, ids);
            var next := AfterDispatch(d.cmd, d.outcome, codec);
            && s'.acts == s.acts + [d] + [next]
            && Dispatches(s'.acts) == Dispatches(s.acts) + [d]
            && Responses(s'.acts) == Responses(s.acts) + InFlights(next)
  {
    var d := Brought(s, e, codec, ids);
    BroughtStep(s, e, codec, ids);
    DispatchedActs(s.acts, d, AfterDispatch(d.cmd, d.outcome, codec));
  }

  lemma {:induction false} HandledSnoc(ds: seq<Act>, d: Act, rs: seq<Request>)
    requires Handled(ds, rs) && d.Dispatched? && (|ds| < |rs| ==> d.outcome == rs[|ds|].outcome)
    ensures Handled(ds + [d], rs)
  {
  }

  lemma {:induction false} AnsweredIffServable(r: Request, codec: Codec, ids: Ids)
    requires |r.payload| <= BUFFER_SIZE && codec.parse(r.payload).Some?
    ensures AfterDispatch(Stamp(codec.parse(r.payload).value, ids), r.outcome, codec) ==
            if Servable(r, codec) then Respond(Frame(AnswerBytes(r, codec), MAGIC)) else Crashed
  {
  }

  lemma {:induction false} CommandServes(rs: seq<Request>, s: State, e: Event, codec: Codec, ids: Ids)
    requires Serving(rs, s, codec, ids) && Alive(s) && Last(s).AskBody? && Fitting(rs, s, e, codec)
    requires Enabled(s, e) && Good(e) && e.BodyDone? && codec.parse(e.seen).Some?
    ensures var s' := Step(s, e, codec, ids);
            (Alive(s') || GaveUp(rs, s', codec)) && Handled(Dispatches(s'.acts), rs)
  {
    var s', n, d := Step(s, e, codec, ids), |Dispatches(s.acts)|, Brought(s, e, codec, ids);
    BroughtStep(s, e, codec, ids);
    BroughtActs(s, e, codec, ids);
    BroughtAnswer(rs, s, e, codec, ids);
    HandledSnoc(Dispatches(s.acts), d, rs);
    if !Servable(rs[n], codec) {
      GivesUp(rs, s, s', codec, ids);
    }
  }

  lemma {:induction false} BroughtAnswer(rs: seq<Request>, s: State, e: Event, codec: Codec, ids: Ids)
    requires Serving(rs, s, codec, ids) && Alive(s) && Last(s).AskBody? && Fitting(rs, s, e, codec)
    requires Enabled(s, e) && Good(e) && e.BodyDone? && codec.parse(e.seen).Some?
    ensures var n, d := |Dispatches(s.acts)|, Brought(s, e, codec, ids);
            && n < |rs| && d.outcome == rs[n].outcome && Behind(rs, n, s.input[e.n..])
            && AfterDispatch(d.cmd, d.outcome, codec) ==
               if Servable(rs[n], codec) then Respond(Frame(AnswerBytes(rs[n], codec), MAGIC)) else Crashed
  {
    var n := |Dispatches(s.acts)|;
    NextBody(rs, s, codec, ids);
    assert e.seen == rs[n].payload;
    AnsweredIffServable(rs[n], codec, ids);
  }

  /** A good completion other than of a body read adds one act that goes on. */
  lemma {:induction false} OtherServes(s: State, e: Event, codec: Codec, ids: Ids)
    requires Inv(s, codec, ids) && Enabled(s, e) && Good(e) && !e.BodyDone?
    ensures var s' := Step(s, e, codec, ids);
            && Alive(s') && s'.acts == s.acts + [Last(s')] && !Last(s').Respond?
            && Dispatches(s'.acts) == Dispatches(s.acts) && Responses(s'.acts) == Responses(s.acts)
  {
    var s' := Step(s, e, codec, ids);
    assert s'.acts == s.acts + [Last(s')];
    ActsSnoc(s.acts, Last(s'));
  }

  lemma {:induction false} GoodStepServes(rs: seq<Request>, s: State, e: Event, codec: Codec, ids: Ids)
    requires Serving(rs, s, codec, ids) && Enabled(s, e) && Good(e) && Fitting(rs, s, e, codec)
    ensures Serving(rs, Step(s, e, codec, ids), codec, ids)
  {
    StepFlows(s, e, Stream(Payloads(rs)), codec, ids);
    if !e.BodyDone? {
      OtherServes(s, e, codec, ids);
    } else if codec.parse(e.seen).None? {
      StopServes(rs, s, e, codec, ids);
    } else {
      CommandServes(rs, s, e, codec, ids);
    }
  }

  // ----- every run without failures

  lemma {:induction false} StepGrows(s: State, e: Event, codec: Codec, ids: Ids)
    requires Enabled(s, e)
    ensures Dispatches(s.acts) <= Dispatches(Step(s, e, codec, ids).acts)
  {
    var s' := Step(s, e, codec, ids);
    var n := |s.acts|;
    if |s'.acts| == n + 1 {
      assert s'.acts == s.acts + [s'.acts[n]];
      ActsSnoc(s.acts, s'.acts[n]);
    } else {
      assert s'.acts == s.acts + [s'.acts[n]] + [s'.acts[n + 1]];
      ActsSnoc(s.acts, s'.acts[n]);
      ActsSnoc(s.acts + [s'.acts[n]], s'.acts[n + 1]);
    }
  }

  lemma {:induction false} DispatchesGrow(s: State, es: seq<Event>, s': State, codec: Codec, ids: Ids)
    requires IsRun(s, es, s', codec, ids)
    ensures Dispatches(s.acts) <= Dispatches(s'.acts)
    decreases |es|
  {
    if es != [] {
      StepGrows(s, es[0], codec, ids);
      DispatchesGrow(Step(s, es[0], codec, ids), es[1..], s', codec, ids);
    }
  }

  /** If the handlers of a whole run turn out as the requests say, so does the one of its first completion. */
  lemma {:induction false} FirstFits(
    rs: seq<Request>, s: State, es: seq<Event>, s': State, codec: Codec, ids: Ids)
    requires Inv(s, codec, ids) && IsRun(s, es, s', codec, ids) && GoodRun(es) && es != []
    requires Handled(Dispatches(s'.acts), rs)
    ensures Fitting(rs, s, es[0], codec)
  {
    var e := es[0];
    if e.BodyDone? && codec.parse(e.seen).Some? {
      BroughtActs(s, e, codec, ids);
      DispatchesGrow(Step(s, e, codec, ids), es[1..], s', codec, ids);
      var n := |Dispatches(s.acts)|;
      assert Dispatches(s'.acts)[n] == Brought(s, e, codec, ids);
    }
  }

  lemma {:induction false} GoodTail(es: seq<Event>)
    requires GoodRun(es) && es != []
    ensures GoodRun(es[1..])
  {
  }

  lemma {:induction false} FirstServes(
    rs: seq<Request>, s: State, es: seq<Event>, s': State, codec: Codec, ids: Ids)
    requires Serving(rs, s, codec, ids) && es != []
    requires IsRun(s, es, s', codec, ids) && GoodRun(es) && Handled(Dispatches(s'.acts), rs)
    ensures Serving(rs, Step(s, es[0], codec, ids), codec, ids)
  {
    FirstFits(rs, s, es, s', codec, ids);
    GoodStepServes(rs, s, es[0], codec, ids);
  }

  lemma {:induction false} GoodRunServes(
    rs: seq<Request>, s: State, es: seq<Event>, s': State, codec: Codec, ids: Ids)
    requires Serving(rs, s, codec, ids)
    requires IsRun(s, es, s', codec, ids) && GoodRun(es) && Handled(Dispatches(s'.acts), rs)
    ensures Serving(rs, s', codec, ids)
    decreases |es|
  {
    if es != [] {
      FirstServes(rs, s, es, s', codec, ids);
      GoodTail(es);
      GoodRunServes(rs, Step(s, es[0], codec, ids), es[1..], s', codec, ids);
    }
  }

  /** The good completion that is due next. */
  function Due(rs: seq<Request>, s: State): Event
    requires Alive(s)
  {
    var n := |Dispatches(s.acts)|;
    match Last(s)
    case AskBody(header) =>
      if n < |rs| then BodyDone(0, false, |rs[n].payload|, rs[n].payload, rs[n].outcome)
      else HeaderDone(0, false, HEADER_SIZE)
    case Respond(data) => WriteDone(0, false, |data|)
    case _ => HeaderDone(0, false, HEADER_SIZE)
  }

  /** Every request is answered and the next header is awaited. */
  predicate AllDone(rs: seq<Request>, s: State)
    requires s.acts != []
  {
    Last(s).AskHeader? && |Dispatches(s.acts)| == |rs|
  }

  /** As long as a session is alive and a request not answered, a good completion can arrive. */
  lemma {:induction false} Progress(rs: seq<Request>, s: State, codec: Codec, ids: Ids)
    requires Serving(rs, s, codec, ids) && Alive(s) && !AllDone(rs, s)
    ensures Enabled(s, Due(rs, s)) && Good(Due(rs, s)) && Fitting(rs, s, Due(rs, s), codec)
  {
    if Last(s).AskHeader? {
      HeaderAwaits(rs, s, codec, ids);
    } else if Last(s).AskBody? {
      NextBody(rs, s, codec, ids);
    }
  }

  /** Before a request that is not dispatched there is a header to read. */
  lemma {:induction false} HeaderAwaits(rs: seq<Request>, s: State, codec: Codec, ids: Ids)
    requires Serving(rs, s, codec, ids) && Alive(s) && Last(s).AskHeader? && !AllDone(rs, s)
    ensures |s.input| >= HEADER_SIZE
  {
    Remaining(rs, s, codec, ids);
    var ps := Payloads(rs)[|Dispatches(s.acts)|..];
    assert s.input == Stream(ps);
    assert |Frame(ps[0], MAGIC)| >= HEADER_SIZE;
  }

  /** No good completion can arrive any more. */
  ghost predicate Finished(s: State) {
    forall e :: Enabled(s, e) ==> !Good(e)
  }

  /** The client's bytes that are never read: the frames behind the first request that cannot be served. */
  function Unread(rs: seq<Request>, codec: Codec): Bytes
    requires Small(rs)
  {
    var n := |Answers(rs, codec)|;
    if n < |rs| then Stream(Payloads(rs)[n + 1..]) else []
  }

  lemma {:induction false} AnswersEnd(rs: seq<Request>, codec: Codec, n: nat)
    requires n < |rs| && !Servable(rs[n], codec)
    ensures |Answers(rs, codec)| <= n
    decreases n
  {
    if n > 0 {
      AnswersEnd(rs[1..], codec, n - 1);
    }
  }

  lemma {:induction false} AllAnswersIff(rs: seq<Request>, codec: Codec)
    ensures |Answers(rs, codec)| == |rs| <==> AllServable(rs, codec)
  {
    if AllServable(rs, codec) {
      AnswersReach(rs, codec, |rs|);
    } else {
      var n :| 0 <= n < |rs| && !Servable(rs[n], codec);
      AnswersEnd(rs, codec, n);
    }
  }

  lemma {:induction false} DoneIsExact(rs: seq<Request>, s: State, codec: Codec, ids: Ids)
    requires Serving(rs, s, codec, ids) && Alive(s) && AllDone(rs, s)
    ensures s.input == [] && s.pending == [HeaderRead]
    ensures s.output == Stream(Answers(rs, codec)) && |Responses(s.acts)| == |rs| == |Answers(rs, codec)|
  {
    Remaining(rs, s, codec, ids);
    assert Payloads(rs)[|rs|..] == [];
    ChainMatched(s.acts, codec, ids);
    ResponsesAreAnswers(rs, s, codec, ids);
    assert s.output + [] == s.output;
  }

  lemma {:induction false} GaveUpIsExact(rs: seq<Request>, s: State, codec: Codec, ids: Ids)
    requires Serving(rs, s, codec, ids) && GaveUp(rs, s, codec)
    ensures |Responses(s.acts)| == |Answers(rs, codec)| < |rs|
    ensures s.input == Unread(rs, codec) && s.output == Stream(Answers(rs, codec))
  {
    ResponsesAreAnswers(rs, s, codec, ids);
    AnswersEnd(rs, codec, |Responses(s.acts)|);
    BehindIsUnread(rs, s.input, codec);
  }

  lemma {:induction false} BehindIsUnread(rs: seq<Request>, input: Bytes, codec: Codec)
    requires Behind(rs, |Answers(rs, codec)|, input)
    ensures input == Unread(rs, codec)
  {
  }

  lemma {:induction false} NothingToCome(s: State)
    requires s.pending == [] || (s.pending == [HeaderRead] && s.input == [])
    ensures Finished(s)
  {
  }

  lemma {:induction false} FinishedIff(rs: seq<Request>, s: State, codec: Codec, ids: Ids)
    requires Serving(rs, s, codec, ids)
    ensures Finished(s) <==> GaveUp(rs, s, codec) || (Alive(s) && AllDone(rs, s))
  {
    if !Alive(s) {
      NothingToCome(s);
    } else if AllDone(rs, s) {
      DoneIsExact(rs, s, codec, ids);
      NothingToCome(s);
    } else {
      var e := Due(rs, s);
      Progress(rs, s, codec, ids);
      assert !Finished(s) by {
        assert Enabled(s, e) && Good(e);
      }
    }
  }

  lemma {:induction false} FinishedIsExact(rs: seq<Request>, s: State, codec: Codec, ids: Ids)
    requires Serving(rs, s, codec, ids) && Finished(s)
    ensures s.output == Stream(Answers(rs, codec)) && s.input == Unread(rs, codec)
    ensures s.pending == [HeaderRead] <==> AllServable(rs, codec)
    ensures Spent(s) == Total(rs, codec)
  {
    FinishedIff(rs, s, codec, ids);
    AllAnswersIff(rs, codec);
    if GaveUp(rs, s, codec) {
      GaveUpIsExact(rs, s, codec, ids);
    } else {
      DoneIsExact(rs, s, codec, ids);
    }
  }

  lemma {:induction false} OpenedServes(rs: seq<Request>, client: Bytes, codec: Codec, ids: Ids)
    requires Small(rs) && client == Stream(Payloads(rs)) && ids.pid != 0
    ensures Serving(rs, Opened(ids, client), codec, ids) && Spent(Opened(ids, client)) == 0
  {
    OpenedFlows(client, codec, ids);
    var acts := Opened(ids, client).acts;
    assert acts[..0] == [];
    assert Dispatches(acts) == [] && Responses(acts) == [];
  }

  /**
  Every run without failures on the frames of small requests that cannot go on without one has
  written exactly the frames of the answers up to the first request that is malformed or crashes its
  handler; what comes behind that request stays unread. It waits for more exactly if there is none.
   */
  lemma {:induction false} GoodRunsServe(
    rs: seq<Request>, client: Bytes, es: seq<Event>, s: State, codec: Codec, ids: Ids)
    requires Small(rs) && client == Stream(Payloads(rs)) && ids.pid != 0
    requires IsRun(Opened(ids, client), es, s, codec, ids) && GoodRun(es)
    requires Handled(Dispatches(s.acts), rs) && Finished(s)
    ensures s.output == Stream(Answers(rs, codec)) && s.input == Unread(rs, codec)
    ensures s.pending == [HeaderRead] <==> AllServable(rs, codec)
  {
    OpenedServes(rs, client, codec, ids);
    GoodRunServes(rs, Opened(ids, client), es, s, codec, ids);
    FinishedIsExact(rs, s, codec, ids);
  }

  /** So if all requests can be served, every byte is read and there is one answer for each. */
  lemma {:induction false} GoodRunsServeAll(
    rs: seq<Request>, client: Bytes, es: seq<Event>, s: State, codec: Codec, ids: Ids)
    requires AllServable(rs, codec) && Small(rs) && client == Stream(Payloads(rs)) && ids.pid != 0
    requires IsRun(Opened(ids, client), es, s, codec, ids) && GoodRun(es)
    requires Handled(Dispatches(s.acts), rs) && Finished(s)
    ensures s.input == [] && s.pending == [HeaderRead]
    ensures s.output == Stream(Answers(rs, codec)) && |Answers(rs, codec)| == |rs|
  {
    GoodRunsServe(rs, client, es, s, codec, ids);
    AllAnswersIff(rs, codec);
  }

  // ----- such runs exist

  /** How many completions a run without failures takes to get to `s`. */
  function Spent(s: State): int
    requires s.acts != []
  {
    3 * |Responses(s.acts)| +
    match Last(s)
    case AskHeader => 0
    case AskBody(_) => 1
    case Respond(_) => -1
    case _ => 2
  }

  /** How many it takes in all: three for each answer and two for a request that cannot be served. */
  function Total(rs: seq<Request>, codec: Codec): nat {
    3 * |Answers(rs, codec)| + if |Answers(rs, codec)| < |rs| then 2 else 0
  }

  lemma {:induction false} SpentBound(rs: seq<Request>, s: State, codec: Codec, ids: Ids)
    requires Serving(rs, s, codec, ids)
    ensures Spent(s) <= 3 * |rs|
  {
    if Alive(s) {
      ChainMatched(s.acts, codec, ids);
      Remaining(rs, s, codec, ids);
      if Last(s).AskBody? {
        NextBody(rs, s, codec, ids);
      }
    }
  }

  lemma {:induction false} GoodStepSpends(s: State, e: Event, codec: Codec, ids: Ids)
    requires Inv(s, codec, ids) && Enabled(s, e) && Good(e)
    ensures Spent(Step(s, e, codec, ids)) == Spent(s) + 1
  {
    if !e.BodyDone? {
      OtherServes(s, e, codec, ids);
    } else if codec.parse(e.seen).None? {
      ActsSnoc(s.acts, Stopped);
    } else {
      CommandSpends(s, e, codec, ids);
    }
  }

  lemma {:induction false} CommandSpends(s: State, e: Event, codec: Codec, ids: Ids)
    requires Inv(s, codec, ids) && Last(s).AskBody?
    requires Enabled(s, e) && Good(e) && e.BodyDone? && codec.parse(e.seen).Some?
    ensures Spent(Step(s, e, codec, ids)) == Spent(s) + 1
  {
    BroughtActs(s, e, codec, ids);
    var d := Brought(s, e, codec, ids);
    assert Last(Step(s, e, codec, ids)) == AfterDispatch(d.cmd, d.outcome, codec);
  }

  lemma {:induction false} GoodFirst(s: State, e: Event, es: seq<Event>, s': State, codec: Codec, ids: Ids)
    requires Enabled(s, e) && Good(e) && IsRun(Step(s, e, codec, ids), es, s', codec, ids) && GoodRun(es)
    ensures IsRun(s, [e] + es, s', codec, ids) && GoodRun([e] + es)
  {
    assert ([e] + es)[1..] == es;
  }

  /** From wherever a run without failures has got to it can be finished, and the number of completions is fixed. */
  lemma {:induction false} GoodRunCompletes(rs: seq<Request>, s: State, codec: Codec, ids: Ids)
    returns (es: seq<Event>, s': State)
    requires Serving(rs, s, codec, ids)
    ensures IsRun(s, es, s', codec, ids) && GoodRun(es)
    ensures Serving(rs, s', codec, ids) && Finished(s')
    ensures |es| == Total(rs, codec) - Spent(s)
    decreases 3 * |rs| - Spent(s)
  {
    SpentBound(rs, s, codec, ids);
    FinishedIff(rs, s, codec, ids);
    if Finished(s) {
      FinishedIsExact(rs, s, codec, ids);
      es, s' := [], s;
    } else {
      var e := Due(rs, s);
      Progress(rs, s, codec, ids);
      GoodStepServes(rs, s, e, codec, ids);
      GoodStepSpends(s, e, codec, ids);
      SpentBound(rs, Step(s, e, codec, ids), codec, ids);
      es, s' := GoodRunCompletes(rs, Step(s, e, codec, ids), codec, ids);
      GoodFirst(s, e, es, s', codec, ids);
      es := [e] + es;
    }
  }

  /**
  Client to daemon and back, for small requests of any kind, every run without failures and every
  pair of scripts of which the first carries the requests: the client, asking for one answer per
  request, reads the answers up to the first request that cannot be served, in order and with no
  byte left over, exactly if its script carries them.
   */
  lemma {:induction false} ClientGetsAnswers(
    rs: seq<Request>, es: seq<Event>, s: State, codec: Codec, ids: Ids, sending: seq<Io>, receiving: seq<Io>)
    requires Small(rs) && Delivers(sending, SendDemands(Payloads(rs))) && ids.pid != 0
    requires IsRun(Opened(ids, SendAll(Payloads(rs), sending).bytes), es, s, codec, ids) && GoodRun(es)
    requires Handled(Dispatches(s.acts), rs) && Finished(s)
    ensures s.input == Unread(rs, codec)
    ensures var (answers, net) := ReceiveAll(|rs|, Net(s.output, receiving));
            && answers <= Answers(rs, codec)
            && (answers == Answers(rs, codec) <==> Delivers(receiving, ReadDemands(Answers(rs, codec))))
            && (answers == Answers(rs, codec) ==> net.incoming == [])
            && (|answers| == |rs| <==>
                  AllServable(rs, codec) && Delivers(receiving, ReadDemands(Answers(rs, codec))))
  {
    RequestsSent(rs, sending);
    GoodRunsServe(rs, Stream(Payloads(rs)), es, s, codec, ids);
    AnswersRead(rs, codec, receiving);
  }

  lemma {:induction false} RequestsSent(rs: seq<Request>, sending: seq<Io>)
    requires Small(rs) && Delivers(sending, SendDemands(Payloads(rs)))
    ensures SendAll(Payloads(rs), sending).bytes == Stream(Payloads(rs))
  {
    SendAllStream(Payloads(rs), sending);
    KeptAllIff(Payloads(rs));
  }

  lemma {:induction false} AnswersRead(rs: seq<Request>, codec: Codec, receiving: seq<Io>)
    ensures var (answers, net) := ReceiveAll(|rs|, Net(Stream(Answers(rs, codec)), receiving));
            && answers <= Answers(rs, codec)
            && (answers == Answers(rs, codec) <==> Delivers(receiving, ReadDemands(Answers(rs, codec))))
            && (answers == Answers(rs, codec) ==> net.incoming == [])
            && (|answers| == |rs| <==>
                  AllServable(rs, codec) && Delivers(receiving, ReadDemands(Answers(rs, codec))))
  {
    var answers := Answers(rs, codec);
    ReceiveAllStream(answers, [], receiving);
    assert Stream(answers) + [] == Stream(answers);
    ReadPastEnd(|rs|, answers, receiving);
    AllAnswersIff(rs, codec);
  }
}
