/** What every run of a session keeps. */
module SessionSafety {
  import opened Wrappers
  import opened Words
  import opened Framing
  import opened SessionModel

  // ----- the invariant

  function AfterDispatch(cmd: Command, outcome: Outcome, codec: Codec): Act {
    match Answer(cmd.kind, outcome, codec)
    case None => Crashed
    case Some(r) => Respond(Reply(codec, r))
  }

  /** What may directly follow an act. */
  ghost predicate Follows(a: Act, b: Act, codec: Codec, ids: Ids) {
    match a
    case AskHeader => b == Stopped || (b.AskBody? && |b.header| == HEADER_SIZE)
    case AskBody(header) =>
      || b == Stopped
      || (b.Dispatched? && b.header == header && |b.payload| == BodySize(header)
          && (b.cmd.pid, b.cmd.uid, b.cmd.gid) == (ids.pid, ids.uid, ids.gid)
          && (|b.payload| <= BUFFER_SIZE ==>
                codec.parse(b.payload).Some? && b.cmd == Stamp(codec.parse(b.payload).value, ids)))
    case Dispatched(_, _, cmd, outcome) => b == AfterDispatch(cmd, outcome, codec)
    case Respond(_) => b == Stopped || b == AskHeader
    case Stopped => false
    case Crashed => false
  }

  /** The one operation, if any, that is outstanding after an act. */
  function Outstanding(a: Act): seq<Op> {
    match a
    case AskHeader => [HeaderRead]
    case AskBody(header) => [BodyRead(header)]
    case Respond(data) => [Writing(data)]
    case _ => []
  }

  ghost predicate Chain(acts: seq<Act>, codec: Codec, ids: Ids) {
    && acts != [] && acts[0] == (if ids.pid == 0 then Stopped else AskHeader)
    && forall i :: 0 <= i < |acts| - 1 ==> Follows(acts[i], acts[i + 1], codec, ids)
  }

  ghost predicate Inv(s: State, codec: Codec, ids: Ids) {
    && Chain(s.acts, codec, ids)
    && !s.acts[|s.acts| - 1].Dispatched?
    && s.pending == Outstanding(s.acts[|s.acts| - 1])
  }

  lemma {:induction false} Extend(acts: seq<Act>, a: Act, codec: Codec, ids: Ids)
    requires Chain(acts, codec, ids) && Follows(acts[|acts| - 1], a, codec, ids)
    ensures Chain(acts + [a], codec, ids)
  {
  }

  lemma {:induction false} HeaderKeeps(s: State, e: Event, codec: Codec, ids: Ids)
    requires Inv(s, codec, ids) && Enabled(s, e) && e.HeaderDone?
    ensures Inv(Step(s, e, codec, ids), codec, ids)
  {
    Extend(s.acts, if e.failed || e.n < HEADER_SIZE then Stopped else AskBody(s.input[..e.n]), codec, ids);
  }

  lemma {:induction false} BodyKeeps(s: State, e: Event, codec: Codec, ids: Ids)
    requires Inv(s, codec, ids) && Enabled(s, e) && e.BodyDone?
    ensures Inv(Step(s, e, codec, ids), codec, ids)
  {
    if e.failed || codec.parse(e.seen).None? {
      Extend(s.acts, Stopped, codec, ids);
    } else {
      var header := s.acts[|s.acts| - 1].header;
      var d := Dispatched(header, s.input[..e.n], Stamp(codec.parse(e.seen).value, ids), e.outcome);
      Extend(s.acts, d, codec, ids);
      Extend(s.acts + [d], AfterDispatch(d.cmd, d.outcome, codec), codec, ids);
    }
  }

  lemma {:induction false} WriteKeeps(s: State, e: Event, codec: Codec, ids: Ids)
    requires Inv(s, codec, ids) && Enabled(s, e) && e.WriteDone?
    ensures Inv(Step(s, e, codec, ids), codec, ids)
  {
    Extend(s.acts, if e.failed then Stopped else AskHeader, codec, ids);
  }

  lemma {:induction false} StepKeeps(s: State, e: Event, codec: Codec, ids: Ids)
    requires Inv(s, codec, ids) && Enabled(s, e)
    ensures Inv(Step(s, e, codec, ids), codec, ids)
  {
    match e
    case HeaderDone(_, _, _) => HeaderKeeps(s, e, codec, ids);
    case BodyDone(_, _, _, _, _) => BodyKeeps(s, e, codec, ids);
    case WriteDone(_, _, _) => WriteKeeps(s, e, codec, ids);
  }

  lemma {:induction false} RunKeeps(s: State, es: seq<Event>, s': State, codec: Codec, ids: Ids)
    requires Inv(s, codec, ids) && IsRun(s, es, s', codec, ids)
    ensures Inv(s', codec, ids)
    decreases |es|
  {
    if es != [] {
      StepKeeps(s, es[0], codec, ids);
      RunKeeps(Step(s, es[0], codec, ids), es[1..], s', codec, ids);
    }
  }

  lemma {:induction false} OpenedInv(client: Bytes, codec: Codec, ids: Ids)
    ensures Inv(Opened(ids, client), codec, ids)
  {
  }

  /** Only a session that accepted its peer has an operation outstanding. */
  lemma {:induction false} PendingHasPid(s: State, codec: Codec, ids: Ids)
    requires Inv(s, codec, ids) && s.pending != []
    ensures ids.pid != 0
  {
    assert |s.acts| > 1 ==> Follows(s.acts[0], s.acts[0 + 1], codec, ids);
  }

  /** A command that comes in leaves exactly the write of its answer outstanding. */
  lemma {:induction false} CommandAnswered(s: State, e: Event, cmd: Command, codec: Codec, ids: Ids)
    requires Inv(s, codec, ids) && Enabled(s, e) && e.BodyDone? && !e.failed
    requires codec.parse(e.seen).Some? && cmd == Stamp(codec.parse(e.seen).value, ids)
    ensures Step(s, e, codec, ids).pending == Outstanding(AfterDispatch(cmd, e.outcome, codec))
  {
    assert s.pending == [s.pending[0]];
    assert s.pending[..0] + s.pending[0 + 1..] == [];
  }

  /** The dispatcher's answer conveys the outcome; there is none only after an exception of an unknown kind. */
  lemma {:induction false} AnswerConveys(kind: nat, outcome: Outcome, codec: Codec)
    ensures Answer(kind, outcome, codec).None? <==> HasHandler(kind) && outcome == OtherException
    ensures var a := Answer(kind, outcome, codec);
            a.Some? ==> Conveys(kind, outcome, codec, Reply(codec, a.value))
  {
    RegisteredIff(kind);
    var a := Answer(kind, outcome, codec);
    if a.Some? {
      var data := Reply(codec, a.value);
      FrameLayoutIff(codec.encode(a.value), data);
      if !(HasHandler(kind) && outcome.Returned?) {
        assert Explains(kind, outcome, codec, a.value.info) && a.value == Status(false, a.value.info);
      }
    }
  }

  /** A completion ends the session in good order exactly if it failed or brought no whole header or no command. */
  lemma {:induction false} StopsIff(s: State, e: Event, codec: Codec, ids: Ids)
    requires Inv(s, codec, ids) && Enabled(s, e)
    ensures var s' := Step(s, e, codec, ids);
            s'.acts[|s'.acts| - 1] == Stopped <==>
            e.failed || (e.HeaderDone? && e.n < 8) || (e.BodyDone? && codec.parse(e.seen).None?)
  {
  }

  // ----- main properties of every run

  /**
  Never more than one operation is outstanding, none once the session has stopped, and a peer
  without a pid never gets any.
   */
  lemma {:induction false} OneOutstanding(client: Bytes, es: seq<Event>, s: State, codec: Codec, ids: Ids)
    requires IsRun(Opened(ids, client), es, s, codec, ids)
    ensures |s.pending| <= 1
    ensures forall i :: 0 <= i < |s.acts| && (s.acts[i].Stopped? || s.acts[i].Crashed?) ==>
              i == |s.acts| - 1 && s.pending == []
    ensures ids.pid == 0 ==> s.acts == [Stopped]
  {
    OpenedInv(client, codec, ids);
    RunKeeps(Opened(ids, client), es, s, codec, ids);
    forall i | 0 <= i < |s.acts| - 1
      ensures !s.acts[i].Stopped? && !s.acts[i].Crashed?
    {
      assert Follows(s.acts[i], s.acts[i + 1], codec, ids);
    }
  }

  /**
  For bodies larger than the fixed buffer the guarantee ends: whatever parses in the freed buffer is
  what gets dispatched, for any payload that was received.
   */
  lemma {:induction false} FreedBufferDecides(
    payload: Bytes, seen: Bytes, outcome: Outcome, codec: Codec, ids: Ids)
    requires 8192 < |payload| == |seen| < 0x1_0000_0000 && codec.parse(seen).Some? && ids.pid != 0
    ensures var header := Header(|payload|, MAGIC);
            var s0 := Opened(ids, Frame(payload, MAGIC));
            var e1, e2 := HeaderDone(0, false, HEADER_SIZE), BodyDone(0, false, |payload|, seen, outcome);
            && Enabled(s0, e1)
            && var s1 := Step(s0, e1, codec, ids);
               && Enabled(s1, e2)
               && var said := codec.parse(seen).value;
                  var cmd := Command(said.kind, said.statement, ids.pid, ids.uid, ids.gid);
                  Dispatched(header, payload, cmd, outcome) in Step(s1, e2, codec, ids).acts
  {
    var header := Header(|payload|, MAGIC);
    var s0 := Opened(ids, Frame(payload, MAGIC));
    SizeInHeader(|payload|, MAGIC);
    assert s0.input[..HEADER_SIZE] == header && s0.input[HEADER_SIZE..] == payload;
    var s1 := Step(s0, HeaderDone(0, false, HEADER_SIZE), codec, ids);
    assert s1.pending == [BodyRead(header)] && s1.input == payload && s1.input[..|payload|] == payload;
    var d := Dispatched(header, payload, Stamp(codec.parse(seen).value, ids), outcome);
    assert (s1.acts + [d])[|s1.acts|] == d;
  }

  function Dispatches(acts: seq<Act>): (ds: seq<Act>)
    ensures forall d :: d in ds ==> d.Dispatched? && d in acts
  {
    if acts == [] then [] else
      var last := acts[|acts| - 1];
      Dispatches(acts[..|acts| - 1]) + if last.Dispatched? then [last] else []
  }

  function Responses(acts: seq<Act>): seq<Bytes> {
    if acts == [] then [] else
      var last := acts[|acts| - 1];
      Responses(acts[..|acts| - 1]) + if last.Respond? then [last.data] else []
  }

  function AnswerTo(d: Act, codec: Codec): Option<Response>
    requires d.Dispatched?
  {
    Answer(d.cmd.kind, d.outcome, codec)
  }

  /** Response `i` is the framed answer to command `i`. */
  ghost predicate Matched(ds: seq<Act>, rs: seq<Bytes>, codec: Codec) {
    && |rs| <= |ds|
    && forall i :: 0 <= i < |rs| ==>
         ds[i].Dispatched? && AnswerTo(ds[i], codec).Some? && rs[i] == Reply(codec, AnswerTo(ds[i], codec).value)
  }

  lemma {:induction false} ChainInit(acts: seq<Act>, codec: Codec, ids: Ids)
    requires Chain(acts, codec, ids) && |acts| >= 2
    ensures var init := acts[..|acts| - 1];
            Chain(init, codec, ids) && Follows(init[|init| - 1], acts[|acts| - 1], codec, ids)
  {
    assert Follows(acts[|acts| - 2], acts[|acts| - 2 + 1], codec, ids);
  }

  /** The commands still owed an answer after `last`: none, or the one in `ds` that was dispatched last. */
  ghost predicate Owed(ds: seq<Act>, rs: seq<Bytes>, last: Act) {
    if last.Dispatched? then |ds| == |rs| + 1 && ds[|rs|] == last
    else if !last.Crashed? then |ds| == |rs|
    else
      && |ds| == |rs| + 1 && ds[|rs|].Dispatched?
      && ds[|rs|].cmd.kind in REGISTERED && ds[|rs|].outcome == OtherException
  }

  lemma {:induction false} MatchedStep(ds: seq<Act>, rs: seq<Bytes>, a: Act, b: Act, codec: Codec, ids: Ids)
    requires Matched(ds, rs, codec) && Owed(ds, rs, a) && Follows(a, b, codec, ids)
    ensures var ds' := if b.Dispatched? then ds + [b] else ds;
            var rs' := if b.Respond? then rs + [b.data] else rs;
            Matched(ds', rs', codec) && Owed(ds', rs', b)
  {
  }

  lemma {:induction false} ChainMatched(acts: seq<Act>, codec: Codec, ids: Ids)
    requires Chain(acts, codec, ids)
    ensures Matched(Dispatches(acts), Responses(acts), codec)
    ensures Owed(Dispatches(acts), Responses(acts), acts[|acts| - 1])
    decreases |acts|
  {
    var init, last := acts[..|acts| - 1], acts[|acts| - 1];
    if |acts| == 1 {
      assert init == [];
    } else {
      ChainInit(acts, codec, ids);
      ChainMatched(init, codec, ids);
      MatchedStep(Dispatches(init), Responses(init), init[|init| - 1], last, codec, ids);
    }
  }

  /**
  The i-th response written answers the i-th command dispatched, and a command goes unanswered only
  when its handler throws an exception that the dispatcher does not know, which ends everything.
   */
  lemma {:induction false} ResponsesAnswerCommands(client: Bytes, es: seq<Event>, s: State, codec: Codec, ids: Ids)
    requires IsRun(Opened(ids, client), es, s, codec, ids)
    ensures var ds, rs := Dispatches(s.acts), Responses(s.acts);
            && Matched(ds, rs, codec)
            && (|ds| == |rs| || (|ds| == |rs| + 1 && s.acts[|s.acts| - 1] == Crashed
                                 && ds[|rs|].cmd.kind in REGISTERED && ds[|rs|].outcome == OtherException))
  {
    OpenedInv(client, codec, ids);
    RunKeeps(Opened(ids, client), es, s, codec, ids);
    ChainMatched(s.acts, codec, ids);
  }

  /** In bytes: the i-th response on the wire tells what became of the i-th command. */
  lemma {:induction false} ResponsesConvey(client: Bytes, es: seq<Event>, s: State, codec: Codec, ids: Ids, i: nat)
    requires IsRun(Opened(ids, client), es, s, codec, ids) && i < |Responses(s.acts)|
    ensures var ds, rs := Dispatches(s.acts), Responses(s.acts);
            i < |ds| && Conveys(ds[i].cmd.kind, ds[i].outcome, codec, rs[i])
  {
    ResponsesAnswerCommands(client, es, s, codec, ids);
    var d := Dispatches(s.acts)[i];
    AnswerConveys(d.cmd.kind, d.outcome, codec);
  }

  /**
  The dispatcher sees the command that came in, kind and statement as they were sent, but whatever
  credentials the client claims, those of the socket.
   */
  lemma {:induction false} CommandsCarrySocketIds(
    client: Bytes, es: seq<Event>, s: State, codec: Codec, ids: Ids, d: Act)
    requires IsRun(Opened(ids, client), es, s, codec, ids) && d in Dispatches(s.acts)
    ensures (d.cmd.pid, d.cmd.uid, d.cmd.gid) == (ids.pid, ids.uid, ids.gid) && ids.pid != 0
    ensures |d.payload| <= 8192 ==>
              && codec.parse(d.payload).Some?
              && d.cmd.kind == codec.parse(d.payload).value.kind
              && d.cmd.statement == codec.parse(d.payload).value.statement
  {
    OpenedInv(client, codec, ids);
    RunKeeps(Opened(ids, client), es, s, codec, ids);
    DispatchFollows(s.acts, d, codec, ids);
  }

  lemma {:induction false} DispatchFollows(acts: seq<Act>, d: Act, codec: Codec, ids: Ids)
    requires Chain(acts, codec, ids) && d in acts && d.Dispatched?
    ensures |d.header| == HEADER_SIZE && Follows(AskBody(d.header), d, codec, ids) && ids.pid != 0
  {
    var i :| 0 <= i < |acts| && acts[i] == d;
    assert Follows(acts[i - 1], acts[i - 1 + 1], codec, ids);
    assert Follows(acts[i - 2], acts[i - 2 + 1], codec, ids);
    assert i > 0 ==> Follows(acts[0], acts[0 + 1], codec, ids);
  }
}
