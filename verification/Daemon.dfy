/**
The daemon as a whole: any number of sessions, each on its own socket, whose commands run their
handlers on one principal table. Handlers of different sessions interleave step by step.
 */
module Daemon {
  import opened Wrappers
  import opened Words
  import opened Framing
  import M = SessionModel
  import S = SessionSafety
  import P = Principals
  import PS = PrincipalSafety
  import PR = PrincipalRuns

  /** The message library, with the extraction of a principal's id from a statement. */
  datatype Library = Library(codec: M.Codec, principalId: Bytes -> Option<Uint64>)

  datatype Connection = Connection(ids: M.Ids, session: M.State)

  /** How far the handler of a command has got with the generation `q` that it creates or deletes. */
  datatype Stage =
    | Fresh                         // nothing done yet
    | Working(q: P.Record)          // a remote call or the insertion is still to come
    | Denied(info: string)          // the erasure was not made
    | Ended(q: P.Record, ok: bool)  // the last call is through, or has failed

  /** A command whose handler is at work, and the completion that brought it. */
  datatype Running = Running(event: M.Event, cmd: M.Command, stage: Stage)

  /** `creators` tells for each generation ever handed out on which socket its creation was asked for. */
  datatype State = State(
    conns: map<nat, Connection>,
    running: map<nat, Running>,
    table: P.State,
    creators: seq<nat>)

  datatype Step =
    | Connect(k: nat, ids: M.Ids, client: Bytes)
    | Io(k: nat, e: M.Event)
    | Receive(k: nat, e: M.Event)
    | Handle(k: nat, step: P.Step)
    | Respond(k: nat, outcome: M.Outcome)

  const START := State(map[], map[], P.START, [])

  /** Whether a completion brings a command to dispatch. */
  predicate Brings(e: M.Event, lib: Library) {
    e.BodyDone? && !e.failed && lib.codec.parse(e.seen).Some?
  }

  /** The table steps that the handler of a command takes: its own, with the credentials the command carries. */
  predicate Does(r: Running, k: nat, step: P.Step, lib: Library) {
    step.t == k &&
    match step
    case Begin(_, id, pid) =>
      && r.stage.Fresh? && r.cmd.kind == M.CREATE_PRINCIPAL && lib.principalId(r.cmd.statement) == Some(id)
      && pid == r.cmd.pid
    case EraseAll(_, id, pid, uid) =>
      && r.stage.Fresh? && r.cmd.kind == M.DELETE_PRINCIPAL && lib.principalId(r.cmd.statement) == Some(id)
      && pid == r.cmd.pid && uid == r.cmd.uid
    case _ => true
  }

  /** Where a table step takes the handler that makes it. */
  function After(stage: Stage, t: P.State, st: P.Step): Stage
    requires P.Enabled(t, st)
  {
    match st
    case Begin(_, id, pid) => Working(P.Record(id, t.gn, pid))
    case Post(k, ok) => if ok then stage else Ended(t.tasks[k].r, false)
    case Insert(k, _) => Ended(t.tasks[k].r, true)
    case EraseAll(_, id, pid, uid) =>
      (match P.Erase(t.table, id, pid, uid).1
       case NotFound => Denied("latest principal not found")
       case Refused => Denied("privilege not matching")
       case Erased(latest) => Working(latest))
    case SendDelete(k, ok) => Ended(t.tasks[k].r, ok)
  }

  /** How a handler can turn out: those of the table by what they did, a failed remote call by an exception. */
  predicate Yields(r: Running, outcome: M.Outcome, lib: Library) {
    if r.cmd.kind != M.CREATE_PRINCIPAL && r.cmd.kind != M.DELETE_PRINCIPAL then r.stage.Fresh?
    else
      match r.stage
      case Fresh =>
        && lib.principalId(r.cmd.statement).None?
        && outcome == M.Returned(M.Status(false, "principal not found or mal-formed"))
      case Working(_) => false
      case Denied(info) => outcome == M.Returned(M.Status(false, info))
      case Ended(_, ok) => if ok then outcome == M.Returned(M.Status(true, "")) else !outcome.Returned?
  }

  predicate Enabled(d: State, step: Step, lib: Library) {
    match step
    case Connect(k, _, _) => k !in d.conns
    case Io(k, e) => k in d.conns && k !in d.running && M.Enabled(d.conns[k].session, e) && !Brings(e, lib)
    case Receive(k, e) => k in d.conns && k !in d.running && M.Enabled(d.conns[k].session, e) && Brings(e, lib)
    case Handle(k, st) => k in d.running && P.Enabled(d.table, st) && Does(d.running[k], k, st, lib)
    case Respond(k, outcome) =>
      && k in d.conns && k in d.running && Yields(d.running[k], outcome, lib) && d.running[k].event.BodyDone?
      && M.Enabled(d.conns[k].session, d.running[k].event.(outcome := outcome))
  }

  function Next(d: State, step: Step, lib: Library): State
    requires Enabled(d, step, lib)
  {
    match step
    case Connect(k, ids, client) =>
      d.(conns := d.conns[k := Connection(ids, M.Opened(ids, client))])
    case Io(k, e) =>
      var c := d.conns[k];
      d.(conns := d.conns[k := c.(session := M.Step(c.session, e, lib.codec, c.ids))])
    case Receive(k, e) =>
      d.(running := d.running[k := Running(e, M.Stamp(lib.codec.parse(e.seen).value, d.conns[k].ids), Fresh)])
    case Handle(k, st) =>
      d.(table := P.Next(d.table, st),
         running := d.running[k := d.running[k].(stage := After(d.running[k].stage, d.table, st))],
         creators := if st.Begin? then d.creators + [k] else d.creators)
    case Respond(k, outcome) =>
      var c, e := d.conns[k], d.running[k].event.(outcome := outcome);
      d.(conns := d.conns[k := c.(session := M.Step(c.session, e, lib.codec, c.ids))], running := d.running - {k})
  }

  ghost predicate IsRun(d: State, steps: seq<Step>, d': State, lib: Library)
    decreases |steps|
  {
    if steps == [] then d == d' else Enabled(d, steps[0], lib) && IsRun(Next(d, steps[0], lib), steps[1..], d', lib)
  }

  // ----- the invariant

  ghost predicate SessionsOk(d: State, lib: Library) {
    forall k :: k in d.conns ==> S.Inv(d.conns[k].session, lib.codec, d.conns[k].ids)
  }

  /** A running command is what arrived on its socket, with the credentials of that socket. */
  ghost predicate RunningOk(d: State, lib: Library) {
    forall k :: k in d.running ==>
      && k in d.conns
      && Brings(d.running[k].event, lib)
      && M.Enabled(d.conns[k].session, d.running[k].event)
      && d.running[k].cmd == M.Stamp(lib.codec.parse(d.running[k].event.seen).value, d.conns[k].ids)
  }

  /** The recorded creator of a generation is the process behind the socket that asked for it. */
  ghost predicate CreatorsOk(d: State) {
    && |d.creators| == |d.table.history|
    && forall i :: 0 <= i < |d.creators| ==>
         d.creators[i] in d.conns && d.conns[d.creators[i]].ids.pid == d.table.history[i].r.speaker
  }

  /** What the stage of a handler says about the table and about what was sent. */
  ghost predicate StageOk(r: Running, k: nat, t: P.State) {
    match r.stage
    case Fresh => k !in t.tasks
    case Denied(_) => k !in t.tasks && r.cmd.kind == M.DELETE_PRINCIPAL
    case Working(q) =>
      && k in t.tasks && t.tasks[k].r == q
      && (match t.tasks[k]
          case Posting(_) => r.cmd.kind == M.CREATE_PRINCIPAL
          case Inserting(_) => r.cmd.kind == M.CREATE_PRINCIPAL && P.Posted(q, true) in t.log
          case Deleting(_) => r.cmd.kind == M.DELETE_PRINCIPAL)
    case Ended(q, ok) =>
      && k !in t.tasks
      && (|| (r.cmd.kind == M.CREATE_PRINCIPAL && P.Posted(q, ok) in t.log)
          || (r.cmd.kind == M.DELETE_PRINCIPAL && P.DeleteSent(q, ok) in t.log))
  }

  ghost predicate StagesOk(d: State) {
    && d.table.tasks.Keys <= d.running.Keys
    && forall k :: k in d.running ==> StageOk(d.running[k], k, d.table)
  }

  ghost predicate TableRuns(t: P.State) {
    exists steps :: P.IsRun(P.START, steps, t)
  }

  ghost predicate Inv(d: State, lib: Library) {
    SessionsOk(d, lib) && RunningOk(d, lib) && CreatorsOk(d) && StagesOk(d) && TableRuns(d.table)
  }

  lemma {:induction false} TableStep(t: P.State, st: P.Step)
    requires TableRuns(t) && P.Enabled(t, st)
    ensures TableRuns(P.Next(t, st))
  {
    var steps :| P.IsRun(P.START, steps, t);
    var t' := P.Next(t, st);
    assert [st][1..] == [] && P.IsRun(t', [st][1..], t');
    PR.RunAppend(P.START, steps, t, [st], t');
  }

  /** A table step keeps the records of all earlier generations; only a creation adds one. */
  lemma {:induction false} HistoryKept(t: P.State, st: P.Step)
    requires P.Enabled(t, st)
    ensures var h, h' := t.history, P.Next(t, st).history;
            && |h'| == |h| + (if st.Begin? then 1 else 0)
            && (forall i :: 0 <= i < |h| ==> h'[i].r == h[i].r)
            && (st.Begin? ==> h'[|h|].r.speaker == st.pid)
  {
  }

  /** A table step concerns its own task only, and nothing sent is forgotten. */
  lemma {:induction false} StepIsLocal(t: P.State, st: P.Step)
    requires P.Enabled(t, st)
    ensures var t' := P.Next(t, st);
            && t'.tasks.Keys <= t.tasks.Keys + {st.t}
            && (forall u :: u in t.tasks && u != st.t ==> u in t'.tasks && t'.tasks[u] == t.tasks[u])
            && t.log <= t'.log
  {
  }

  /** The stage of another handler stays right. */
  lemma {:induction false} OtherStage(r: Running, u: nat, t: P.State, st: P.Step)
    requires P.Enabled(t, st) && StageOk(r, u, t) && u != st.t
    ensures StageOk(r, u, P.Next(t, st))
  {
    StepIsLocal(t, st);
  }

  /** And so does the stage of the one that makes the step. */
  lemma {:induction false} OwnStage(r: Running, k: nat, t: P.State, st: P.Step, lib: Library)
    requires P.Enabled(t, st) && StageOk(r, k, t) && Does(r, k, st, lib)
    ensures StageOk(r.(stage := After(r.stage, t, st)), k, P.Next(t, st))
  {
    var t' := P.Next(t, st);
    match st
    case Post(_, ok) => assert t'.log[|t.log|] == P.Posted(t.tasks[k].r, ok);
    case SendDelete(_, ok) => assert t'.log[|t.log|] == P.DeleteSent(t.tasks[k].r, ok);
    case _ =>
  }

  lemma {:induction false} ConnectKeeps(d: State, step: Step, lib: Library)
    requires Inv(d, lib) && Enabled(d, step, lib) && step.Connect?
    ensures Inv(Next(d, step, lib), lib)
  {
    S.OpenedInv(step.client, lib.codec, step.ids);
  }

  lemma {:induction false} CreatorsKept(d: State, step: Step, lib: Library)
    requires Inv(d, lib) && Enabled(d, step, lib) && step.Handle?
    ensures CreatorsOk(Next(d, step, lib))
  {
    var st, d' := step.step, Next(d, step, lib);
    HistoryKept(d.table, st);
    assert d'.conns == d.conns && d'.table == P.Next(d.table, st);
    if st.Begin? {
      assert d'.creators == d.creators + [step.k];
    }
  }

  lemma {:induction false} ReceiveKeeps(d: State, step: Step, lib: Library)
    requires Inv(d, lib) && Enabled(d, step, lib) && step.Receive?
    ensures Inv(Next(d, step, lib), lib)
  {
    assert step.k !in d.table.tasks;
  }

  lemma {:induction false} StagesKept(d: State, step: Step, lib: Library)
    requires Inv(d, lib) && Enabled(d, step, lib) && step.Handle?
    ensures StagesOk(Next(d, step, lib))
  {
    var d' := Next(d, step, lib);
    StepIsLocal(d.table, step.step);
    forall k | k in d'.running
      ensures StageOk(d'.running[k], k, d'.table)
    {
      if k == step.k {
        OwnStage(d.running[k], k, d.table, step.step, lib);
      } else {
        OtherStage(d.running[k], k, d.table, step.step);
      }
    }
  }

  lemma {:induction false} HandleSessions(d: State, step: Step, lib: Library)
    requires SessionsOk(d, lib) && RunningOk(d, lib) && Enabled(d, step, lib) && step.Handle?
    ensures SessionsOk(Next(d, step, lib), lib) && RunningOk(Next(d, step, lib), lib)
  {
    assert Next(d, step, lib).conns == d.conns;
  }

  lemma {:induction false} HandleKeeps(d: State, step: Step, lib: Library)
    requires Inv(d, lib) && Enabled(d, step, lib) && step.Handle?
    ensures Inv(Next(d, step, lib), lib)
  {
    assert Next(d, step, lib).table == P.Next(d.table, step.step);
    HandleSessions(d, step, lib);
    TableStep(d.table, step.step);
    CreatorsKept(d, step, lib);
    StagesKept(d, step, lib);
  }

  /** A session makes a step of its own; its command, if any, has been answered. */
  ghost predicate Moves(d: State, k: nat, e: M.Event, d': State, lib: Library) {
    && k in d.conns && M.Enabled(d.conns[k].session, e)
    && (var c := d.conns[k];
        d'.conns == d.conns[k := c.(session := M.Step(c.session, e, lib.codec, c.ids))])
    && d'.running == d.running - {k} && d'.table == d.table && d'.creators == d.creators
  }

  lemma {:induction false} MovesSessions(d: State, k: nat, e: M.Event, d': State, lib: Library)
    requires SessionsOk(d, lib) && Moves(d, k, e, d', lib)
    ensures SessionsOk(d', lib)
  {
    S.StepKeeps(d.conns[k].session, e, lib.codec, d.conns[k].ids);
    forall u | u in d'.conns && u != k
      ensures S.Inv(d'.conns[u].session, lib.codec, d'.conns[u].ids)
    {
      assert d'.conns[u] == d.conns[u];
    }
  }

  lemma {:induction false} MovesRunning(d: State, k: nat, e: M.Event, d': State, lib: Library)
    requires RunningOk(d, lib) && Moves(d, k, e, d', lib)
    ensures RunningOk(d', lib)
  {
    assert forall u :: u in d'.running ==> u in d.running && u != k && d'.running[u] == d.running[u];
    assert forall u :: u in d'.running ==> u in d'.conns && d'.conns[u] == d.conns[u];
  }

  lemma {:induction false} MovesTable(d: State, k: nat, e: M.Event, d': State, lib: Library)
    requires CreatorsOk(d) && StagesOk(d) && k !in d.table.tasks && Moves(d, k, e, d', lib)
    ensures CreatorsOk(d') && StagesOk(d')
  {
    assert forall u :: u in d.conns ==> u in d'.conns && d'.conns[u].ids == d.conns[u].ids;
    assert forall u :: u in d'.running ==> u in d.running && d'.running[u] == d.running[u];
  }

  lemma {:induction false} SessionKeeps(d: State, k: nat, e: M.Event, d': State, lib: Library)
    requires Inv(d, lib) && k !in d.table.tasks && Moves(d, k, e, d', lib)
    ensures Inv(d', lib)
  {
    MovesSessions(d, k, e, d', lib);
    MovesRunning(d, k, e, d', lib);
    MovesTable(d, k, e, d', lib);
  }

  lemma {:induction false} StepKeeps(d: State, step: Step, lib: Library)
    requires Inv(d, lib) && Enabled(d, step, lib)
    ensures Inv(Next(d, step, lib), lib)
  {
    match step
    case Connect(_, _, _) => ConnectKeeps(d, step, lib);
    case Io(k, e) =>
      assert d.running - {k} == d.running && k !in d.table.tasks;
      SessionKeeps(d, k, e, Next(d, step, lib), lib);
    case Receive(_, _) => ReceiveKeeps(d, step, lib);
    case Handle(_, _) => HandleKeeps(d, step, lib);
    case Respond(k, outcome) =>
      assert StageOk(d.running[k], k, d.table);
      SessionKeeps(d, k, d.running[k].event.(outcome := outcome), Next(d, step, lib), lib);
  }

  lemma {:induction false} RunKeeps(d: State, steps: seq<Step>, d': State, lib: Library)
    requires Inv(d, lib) && IsRun(d, steps, d', lib)
    ensures Inv(d', lib)
    decreases |steps|
  {
    if steps != [] {
      StepKeeps(d, steps[0], lib);
      RunKeeps(Next(d, steps[0], lib), steps[1..], d', lib);
    }
  }

  lemma {:induction false} StartInv(lib: Library)
    ensures Inv(START, lib)
  {
    assert P.IsRun(P.START, [], START.table);
  }

  // ----- who can delete

  /**
  The command in the bytes on socket `k`: a body of at most 8192 bytes is parsed as it came in, a
  larger one from whatever the freed buffer holds.
   */
  function Said(d: State, k: nat, lib: Library): Option<M.Command> {
    if k !in d.running || k !in d.conns || !d.running[k].event.BodyDone? then None
    else
      var e, input := d.running[k].event, d.conns[k].session.input;
      if e.n > 8192 then lib.codec.parse(e.seen)
      else if e.n <= |input| then lib.codec.parse(input[..e.n])
      else None
  }

  /** The bytes on socket `k` ask for this kind of service for principal `id`. */
  predicate Asks(d: State, k: nat, kind: nat, id: nat, lib: Library) {
    && Said(d, k, lib).Some?
    && var said := Said(d, k, lib).value;
       said.kind == kind && lib.principalId(said.statement).Some? && lib.principalId(said.statement).value == id
  }

  /** The command being served is the one in the bytes, with the credentials of the socket. */
  ghost predicate FromSocket(d: State, k: nat, lib: Library) {
    && k in d.running && k in d.conns && d.conns[k].ids.pid != 0
    && Said(d, k, lib).Some?
    && var said, ids := Said(d, k, lib).value, d.conns[k].ids;
       d.running[k].cmd == M.Command(said.kind, said.statement, ids.pid, ids.uid, ids.gid)
  }

  lemma {:induction false} RunningFromSocket(d: State, k: nat, lib: Library)
    requires Inv(d, lib) && k in d.running
    ensures FromSocket(d, k, lib)
  {
    S.PendingHasPid(d.conns[k].session, lib.codec, d.conns[k].ids);
  }

  /** The credentials of a socket are those with which it was connected. */
  lemma {:induction false} SocketsKeepIds(d: State, steps: seq<Step>, d': State, k: nat, lib: Library)
    requires IsRun(d, steps, d', lib)
    ensures k in d.conns ==> k in d'.conns && d'.conns[k].ids == d.conns[k].ids
    ensures k in d'.conns && k !in d.conns ==>
              exists i :: 0 <= i < |steps| && steps[i].Connect? && steps[i].k == k && steps[i].ids == d'.conns[k].ids
    decreases |steps|
  {
    if steps != [] {
      var d1 := Next(d, steps[0], lib);
      SocketsKeepIds(d1, steps[1..], d', k, lib);
      if k in d'.conns && k !in d.conns {
        if k in d1.conns {
          assert steps[0].Connect? && steps[0].k == k && steps[0].ids == d1.conns[k].ids;
        } else {
          var i :| 0 <= i < |steps| - 1 && steps[1..][i].Connect? && steps[1..][i].k == k
                   && steps[1..][i].ids == d'.conns[k].ids;
          assert steps[i + 1] == steps[1..][i];
        }
      }
    }
  }

  /** `k` speaks for root or for the process that created the latest generation of `id`. */
  ghost predicate Entitled(d: State, k: nat, id: nat) {
    && k in d.conns
    && var latest := P.Latest(P.Bucket(d.table.table, id));
       && latest.Some? && latest.value.gn < |d.creators| && d.creators[latest.value.gn] in d.conns
       && (d.conns[k].ids.uid == 0 || d.conns[k].ids.pid == d.conns[d.creators[latest.value.gn]].ids.pid)
  }

  lemma {:induction false} OnlyErasureRemoves(d: State, step: Step, r: P.Record, lib: Library)
    requires Inv(d, lib) && Enabled(d, step, lib) && |d.table.history| <= TWO_64
    requires r in P.Bucket(d.table.table, r.id) && r !in P.Bucket(Next(d, step, lib).table.table, r.id)
    ensures step.Handle? && step.step.EraseAll? && step.step.id == r.id
    ensures PR.MayDelete(d.table, r.id, step.step.pid, step.step.uid)
  {
    assert PR.Reachable(d.table);
    PR.LeavesOnlyByDeletion(d.table, step.step, r);
  }

  /**
  In every run of the daemon a principal's record leaves the table only while a command is handled
  whose bytes, as they came in on its socket, ask to delete that id (kind 1), and the credentials of
  the socket itself, not what the client claims, are uid 0 or the pid behind the socket on which the
  latest generation was created.
   */
  lemma {:induction false} DeletionsAreAuthentic(
    steps: seq<Step>, d: State, step: Step, r: P.Record, lib: Library)
    requires IsRun(START, steps, d, lib) && Enabled(d, step, lib) && |d.table.history| <= TWO_64
    requires r in P.Bucket(d.table.table, r.id) && r !in P.Bucket(Next(d, step, lib).table.table, r.id)
    ensures step.Handle? && FromSocket(d, step.k, lib) && Entitled(d, step.k, r.id)
    ensures Asks(d, step.k, 1, r.id, lib)
  {
    StartInv(lib);
    RunKeeps(START, steps, d, lib);
    OnlyErasureRemoves(d, step, r, lib);
    RunningFromSocket(d, step.k, lib);
    MayDeleteIff(d, step.k, r.id, d.running[step.k].cmd, lib);
  }

  /**
  The converse: whenever bytes that ask to delete an id are about to be handled, the erasure can take
  place, and it removes the records of that id, all of them, exactly when the socket is entitled to it.
   */
  lemma {:induction false} EntitledDeletes(steps: seq<Step>, d: State, k: nat, id: Uint64, lib: Library)
    requires IsRun(START, steps, d, lib) && |d.table.history| <= TWO_64
    requires Asks(d, k, 1, id, lib) && d.running[k].stage.Fresh?
    ensures var ids := d.conns[k].ids;
            var step := Handle(k, P.EraseAll(k, id, ids.pid, ids.uid));
            && Enabled(d, step, lib)
            && var before, after := P.Bucket(d.table.table, id), P.Bucket(Next(d, step, lib).table.table, id);
               && after == (if Entitled(d, k, id) then [] else before)
               && (Entitled(d, k, id) ==> before != [])
  {
    StartInv(lib);
    RunKeeps(START, steps, d, lib);
    RunningFromSocket(d, k, lib);
    var cmd := d.running[k].cmd;
    MayDeleteIff(d, k, id, cmd, lib);
    PR.DeletionRemovesIff(d.table, k, id, cmd.pid, cmd.uid);
  }

  lemma {:induction false} MayDeleteIff(d: State, k: nat, id: nat, cmd: M.Command, lib: Library)
    requires Inv(d, lib) && |d.table.history| <= TWO_64 && k in d.conns
    requires cmd.pid == d.conns[k].ids.pid && cmd.uid == d.conns[k].ids.uid
    ensures PR.MayDelete(d.table, id, cmd.pid, cmd.uid) <==> Entitled(d, k, id)
  {
    if P.Latest(P.Bucket(d.table.table, id)).Some? {
      LatestHasCreator(d, id, lib);
    }
  }

  lemma {:induction false} LatestHasCreator(d: State, id: nat, lib: Library)
    requires Inv(d, lib) && |d.table.history| <= TWO_64 && P.Latest(P.Bucket(d.table.table, id)).Some?
    ensures var latest := P.Latest(P.Bucket(d.table.table, id)).value;
            && latest.gn < |d.creators| && d.creators[latest.gn] in d.conns
            && latest.speaker == d.conns[d.creators[latest.gn]].ids.pid
  {
    assert PR.Reachable(d.table);
    PR.ReachableInv(d.table);
    var bucket := P.Bucket(d.table.table, id);
    PS.LatestIsGreatest(bucket);
    assert PS.BucketOk(bucket, id, d.table.history);
  }

  // ----- what the answers tell

  /**
  What a handler can do along the way: take up a generation to create or delete, put it into the
  table, refuse the deletion.
   */
  datatype Mark = TakesUp(q: P.Record) | Inserts(q: P.Record) | Refuses(info: string)

  /** A table step that creates generation `q`, or erases the id of which it is the latest. */
  ghost predicate StepTakesUp(t: P.State, st: P.Step, q: P.Record) {
    || (st.Begin? && q == P.Record(st.id, t.gn, st.pid))
    || (st.EraseAll? && PR.MayDelete(t, st.id, st.pid, st.uid) && P.Latest(P.Bucket(t.table, st.id)) == Some(q))
  }

  /** A table step that refuses a deletion, and the reason. */
  ghost predicate StepRefuses(t: P.State, st: P.Step, info: string) {
    && st.EraseAll?
    && if P.Bucket(t.table, st.id) == [] then info == "latest principal not found"
       else !PR.MayDelete(t, st.id, st.pid, st.uid) && info == "privilege not matching"
  }

  ghost predicate Makes(d: State, step: Step, k: nat, mark: Mark, lib: Library)
    requires Enabled(d, step, lib)
  {
    && step.Handle? && step.k == k
    && match mark
       case TakesUp(q) => StepTakesUp(d.table, step.step, q)
       case Inserts(q) => step.step.Insert? && d.table.tasks[k].r == q
       case Refuses(info) => StepRefuses(d.table, step.step, info)
  }

  /** At some step of the run the handler on `k` does this. */
  ghost predicate Occurs(d: State, steps: seq<Step>, d': State, k: nat, mark: Mark, lib: Library)
    requires IsRun(d, steps, d', lib)
    decreases |steps|
  {
    && steps != []
    && (Makes(d, steps[0], k, mark, lib) || Occurs(Next(d, steps[0], lib), steps[1..], d', k, mark, lib))
  }

  /** What the stage of a handler says it has done. */
  predicate Tells(r: Running, mark: Mark) {
    match mark
    case TakesUp(q) => (r.stage.Working? || r.stage.Ended?) && r.stage.q == q
    case Inserts(q) => r.cmd.kind == M.CREATE_PRINCIPAL && r.stage == Ended(q, true)
    case Refuses(info) => r.stage == Denied(info)
  }

  /** No command on `k` is answered during these steps. */
  ghost predicate Unanswered(steps: seq<Step>, k: nat) {
    forall i :: 0 <= i < |steps| ==> !(steps[i].Respond? && steps[i].k == k)
  }

  lemma {:induction false} StepTells(d: State, step: Step, k: nat, mark: Mark, lib: Library)
    requires Inv(d, lib) && Enabled(d, step, lib) && k in d.running && !(step.Respond? && step.k == k)
    ensures k in Next(d, step, lib).running && Next(d, step, lib).running[k].cmd == d.running[k].cmd
    ensures Tells(Next(d, step, lib).running[k], mark) <==> Tells(d.running[k], mark) || Makes(d, step, k, mark, lib)
  {
    if step.Handle? && step.k == k {
      OwnTells(d.running[k], k, d.table, step.step, mark, lib);
    }
  }

  lemma {:induction false} OwnTells(r: Running, k: nat, t: P.State, st: P.Step, mark: Mark, lib: Library)
    requires P.Enabled(t, st) && StageOk(r, k, t) && Does(r, k, st, lib)
    ensures Tells(r.(stage := After(r.stage, t, st)), mark) <==>
            Tells(r, mark) ||
            match mark
            case TakesUp(q) => StepTakesUp(t, st, q)
            case Inserts(q) => st.Insert? && t.tasks[k].r == q
            case Refuses(info) => StepRefuses(t, st, info)
  {
    if st.EraseAll? {
      PS.LatestIsGreatest(P.Bucket(t.table, st.id));
    }
  }

  /** So as long as it is not answered, the stage tells all that the handler has done. */
  lemma {:induction false} StageTells(d: State, steps: seq<Step>, d': State, k: nat, mark: Mark, lib: Library)
    requires Inv(d, lib) && IsRun(d, steps, d', lib) && k in d.running && Unanswered(steps, k)
    ensures Inv(d', lib) && k in d'.running && d'.running[k].cmd == d.running[k].cmd
    ensures Tells(d'.running[k], mark) <==> Tells(d.running[k], mark) || Occurs(d, steps, d', k, mark, lib)
    decreases |steps|
  {
    if steps != [] {
      assert !(steps[0].Respond? && steps[0].k == k);
      assert Unanswered(steps[1..], k);
      StepKeeps(d, steps[0], lib);
      StepTells(d, steps[0], k, mark, lib);
      StageTells(Next(d, steps[0], lib), steps[1..], d', k, mark, lib);
    }
  }

  /** A request is not recorded both as a success and as a failure. */
  lemma {:induction false} OneResult(d: State, q: P.Record, lib: Library)
    requires Inv(d, lib) && |d.table.history| <= TWO_64
    ensures !(P.Posted(q, true) in d.table.log && P.Posted(q, false) in d.table.log)
    ensures !(P.DeleteSent(q, true) in d.table.log && P.DeleteSent(q, false) in d.table.log)
  {
    assert PR.Reachable(d.table);
    PR.ReachableInv(d.table);
    if PS.Known(d.table.history, q) {
      assert PS.Logged(d.table.log, d.table.history[q.gn]);
    }
  }

  /** The client is told that it worked, whatever the text. */
  predicate Success(kind: nat, outcome: M.Outcome, lib: Library) {
    var answer := M.Answer(kind, outcome, lib.codec);
    answer.Some? && answer.value.Status? && answer.value.success
  }

  /** The remote request by which a handler of this kind succeeds with generation `q`. */
  function Request(kind: nat, q: P.Record, ok: bool): P.Event {
    if kind == M.CREATE_PRINCIPAL then P.Posted(q, ok) else P.DeleteSent(q, ok)
  }

  predicate OnTable(kind: nat) {
    kind == M.CREATE_PRINCIPAL || kind == M.DELETE_PRINCIPAL
  }

  /** What the outcome of a table handler says about its stage and about what was sent. */
  lemma {:induction false} OutcomeTells(r: Running, k: nat, t: P.State, outcome: M.Outcome, lib: Library)
    requires StageOk(r, k, t) && Yields(r, outcome, lib) && OnTable(r.cmd.kind)
    ensures !r.stage.Working?
    ensures Success(r.cmd.kind, outcome, lib) <==> r.stage.Ended? && r.stage.ok
    ensures r.stage.Ended? ==> Request(r.cmd.kind, r.stage.q, r.stage.ok) in t.log
    ensures forall info :: outcome == M.Returned(M.Status(false, info)) <==>
              || r.stage == Denied(info)
              || (r.stage.Fresh? && lib.principalId(r.cmd.statement).None?
                  && info == "principal not found or mal-formed")
  {
  }

  /** A command on `k` has been received in a run that got to `d`, is handled during `steps`, and is answered next. */
  ghost predicate Handles(
    before: seq<Step>, d: State, steps: seq<Step>, d': State, k: nat, outcome: M.Outcome, lib: Library)
  {
    && IsRun(START, before, d, lib) && k in d.running && d.running[k].stage.Fresh?
    && IsRun(d, steps, d', lib) && Unanswered(steps, k)
    && Enabled(d', Respond(k, outcome), lib) && |d'.table.history| <= TWO_64
  }

  lemma {:induction false} HandlesTells(
    before: seq<Step>, d: State, steps: seq<Step>, d': State, k: nat, outcome: M.Outcome, mark: Mark, lib: Library)
    requires Handles(before, d, steps, d', k, outcome, lib)
    ensures Inv(d', lib) && k in d'.running && d'.running[k].cmd == d.running[k].cmd
    ensures Tells(d'.running[k], mark) <==> Occurs(d, steps, d', k, mark, lib)
  {
    StartInv(lib);
    RunKeeps(START, before, d, lib);
    StageTells(d, steps, d', k, mark, lib);
  }

  /**
  A create or delete command is answered with success exactly if its handler has taken up a
  generation, to create it or by erasing the principal whose latest it is from the table, and the
  metadata service has confirmed its creation or deletion.
   */
  lemma {:induction false} AnswersAreHonest(
    before: seq<Step>, d: State, steps: seq<Step>, d': State, k: nat, outcome: M.Outcome, lib: Library)
    requires Handles(before, d, steps, d', k, outcome, lib) && OnTable(d.running[k].cmd.kind)
    ensures var kind := d.running[k].cmd.kind;
            Success(kind, outcome, lib) <==>
            exists q :: Occurs(d, steps, d', k, TakesUp(q), lib) && Request(kind, q, true) in d'.table.log
  {
    var kind, r := d.running[k].cmd.kind, d'.running[k];
    forall q
      ensures Occurs(d, steps, d', k, TakesUp(q), lib) && Request(kind, q, true) in d'.table.log <==>
              r.stage == Ended(q, true)
    {
      HandlesTells(before, d, steps, d', k, outcome, TakesUp(q), lib);
      OutcomeTells(r, k, d'.table, outcome, lib);
      OneResult(d', q, lib);
    }
    HandlesTells(before, d, steps, d', k, outcome, TakesUp(P.Record(0, 0, 0)), lib);
    OutcomeTells(r, k, d'.table, outcome, lib);
    if r.stage.Ended? && r.stage.ok {
      assert r.stage == Ended(r.stage.q, true);
    }
  }

  /** A create command is answered with success exactly if its handler has put a generation into the table. */
  lemma {:induction false} CreationsAreInserted(
    before: seq<Step>, d: State, steps: seq<Step>, d': State, k: nat, outcome: M.Outcome, lib: Library)
    requires Handles(before, d, steps, d', k, outcome, lib) && d.running[k].cmd.kind == M.CREATE_PRINCIPAL
    ensures Success(M.CREATE_PRINCIPAL, outcome, lib) <==> exists q :: Occurs(d, steps, d', k, Inserts(q), lib)
  {
    var r := d'.running[k];
    forall q
      ensures Occurs(d, steps, d', k, Inserts(q), lib) <==> r.stage == Ended(q, true)
    {
      HandlesTells(before, d, steps, d', k, outcome, Inserts(q), lib);
    }
    HandlesTells(before, d, steps, d', k, outcome, Inserts(P.Record(0, 0, 0)), lib);
    OutcomeTells(r, k, d'.table, outcome, lib);
    if r.stage.Ended? && r.stage.ok {
      assert r.stage == Ended(r.stage.q, true);
    }
  }

  /**
  A delete command is answered with a refusal exactly if the erasure found nothing or was not
  allowed, or the command names no principal; and the text says which.
   */
  lemma {:induction false} RefusalsAreExplained(
    before: seq<Step>, d: State, steps: seq<Step>, d': State, k: nat, outcome: M.Outcome, info: string, lib: Library)
    requires Handles(before, d, steps, d', k, outcome, lib) && d.running[k].cmd.kind == M.DELETE_PRINCIPAL
    ensures outcome == M.Returned(M.Status(false, info)) <==>
            || Occurs(d, steps, d', k, Refuses(info), lib)
            || (lib.principalId(d.running[k].cmd.statement).None? && info == "principal not found or mal-formed")
  {
    var r := d'.running[k];
    HandlesTells(before, d, steps, d', k, outcome, Refuses(info), lib);
    OutcomeTells(r, k, d'.table, outcome, lib);
    if lib.principalId(r.cmd.statement).None? {
      StaysFresh(before, d, steps, d', k, outcome, lib);
    }
  }

  /** A command that names no principal touches nothing. */
  lemma {:induction false} StaysFresh(
    before: seq<Step>, d: State, steps: seq<Step>, d': State, k: nat, outcome: M.Outcome, lib: Library)
    requires Handles(before, d, steps, d', k, outcome, lib) && OnTable(d.running[k].cmd.kind)
    requires lib.principalId(d.running[k].cmd.statement).None?
    ensures k in d'.running && d'.running[k].stage.Fresh?
  {
    StartInv(lib);
    RunKeeps(START, before, d, lib);
    FreshWithoutName(d, steps, d', k, lib);
  }

  lemma {:induction false} StepStaysFresh(d: State, step: Step, k: nat, lib: Library)
    requires StagesOk(d) && Enabled(d, step, lib) && !(step.Respond? && step.k == k)
    requires k in d.running && d.running[k].stage.Fresh? && lib.principalId(d.running[k].cmd.statement).None?
    ensures var d' := Next(d, step, lib);
            k in d'.running && d'.running[k].stage.Fresh? && d'.running[k].cmd == d.running[k].cmd
  {
    assert StageOk(d.running[k], k, d.table);
  }

  lemma {:induction false} FreshWithoutName(d: State, steps: seq<Step>, d': State, k: nat, lib: Library)
    requires Inv(d, lib) && IsRun(d, steps, d', lib) && Unanswered(steps, k)
    requires k in d.running && d.running[k].stage.Fresh? && lib.principalId(d.running[k].cmd.statement).None?
    ensures k in d'.running && d'.running[k].stage.Fresh?
    decreases |steps|
  {
    if steps != [] {
      assert !(steps[0].Respond? && steps[0].k == k);
      assert Unanswered(steps[1..], k);
      StepKeeps(d, steps[0], lib);
      StepStaysFresh(d, steps[0], k, lib);
      FreshWithoutName(Next(d, steps[0], lib), steps[1..], d', k, lib);
    }
  }

  /** Generation `q` is one of the principal that command `cmd` names, and if it is new, created by its sender. */
  ghost predicate Named(cmd: M.Command, q: P.Record, lib: Library) {
    && lib.principalId(cmd.statement).Some? && lib.principalId(cmd.statement).value == q.id
    && (cmd.kind == M.CREATE_PRINCIPAL ==> q.speaker == cmd.pid)
  }

  lemma {:induction false} StepTakesNamed(d: State, step: Step, k: nat, q: P.Record, lib: Library)
    requires Inv(d, lib) && Enabled(d, step, lib) && k in d.running && Makes(d, step, k, TakesUp(q), lib)
    ensures Named(d.running[k].cmd, q, lib)
  {
    if step.step.EraseAll? {
      var steps :| P.IsRun(P.START, steps, d.table);
      PR.RunKeepsFiled(P.START, steps, d.table);
      PS.LatestIsGreatest(P.Bucket(d.table.table, step.step.id));
    }
  }

  lemma {:induction false} RunTakesNamed(d: State, steps: seq<Step>, d': State, k: nat, q: P.Record, lib: Library)
    requires Inv(d, lib) && IsRun(d, steps, d', lib) && k in d.running && Unanswered(steps, k)
    requires Occurs(d, steps, d', k, TakesUp(q), lib)
    ensures Named(d.running[k].cmd, q, lib)
    decreases |steps|
  {
    assert !(steps[0].Respond? && steps[0].k == k);
    assert Unanswered(steps[1..], k);
    if Makes(d, steps[0], k, TakesUp(q), lib) {
      StepTakesNamed(d, steps[0], k, q, lib);
    } else {
      StepKeeps(d, steps[0], lib);
      StepTells(d, steps[0], k, TakesUp(q), lib);
      RunTakesNamed(Next(d, steps[0], lib), steps[1..], d', k, q, lib);
    }
  }

  /**
  The generation that a handler takes up is one of the principal named in the bytes on its socket,
  and a new one is owned by the process behind it.
   */
  lemma {:induction false} HandlersDoAsAsked(
    before: seq<Step>, d: State, steps: seq<Step>, d': State, k: nat, outcome: M.Outcome, q: P.Record, lib: Library)
    requires Handles(before, d, steps, d', k, outcome, lib) && Occurs(d, steps, d', k, TakesUp(q), lib)
    ensures Asks(d, k, 0, q.id, lib) || Asks(d, k, 1, q.id, lib)
    ensures Asks(d, k, 0, q.id, lib) ==> k in d.conns && q.speaker == d.conns[k].ids.pid
  {
    StartInv(lib);
    RunKeeps(START, before, d, lib);
    RunningFromSocket(d, k, lib);
    RunTakesNamed(d, steps, d', k, q, lib);
    KindTakes(d, steps, d', k, q, lib);
  }

  lemma {:induction false} KindTakes(d: State, steps: seq<Step>, d': State, k: nat, q: P.Record, lib: Library)
    requires Inv(d, lib) && IsRun(d, steps, d', lib) && k in d.running && Unanswered(steps, k)
    requires Occurs(d, steps, d', k, TakesUp(q), lib)
    ensures OnTable(d.running[k].cmd.kind)
    decreases |steps|
  {
    assert !(steps[0].Respond? && steps[0].k == k);
    assert Unanswered(steps[1..], k);
    if !Makes(d, steps[0], k, TakesUp(q), lib) {
      StepKeeps(d, steps[0], lib);
      StepTells(d, steps[0], k, TakesUp(q), lib);
      KindTakes(Next(d, steps[0], lib), steps[1..], d', k, q, lib);
    }
  }

  /** What is then written on the socket tells the client what became of the command in its bytes. */
  lemma {:induction false} AnswerIsWritten(steps: seq<Step>, d: State, k: nat, outcome: M.Outcome, lib: Library)
    requires IsRun(START, steps, d, lib) && Enabled(d, Respond(k, outcome), lib)
    ensures Said(d, k, lib).Some?
    ensures var kind := Said(d, k, lib).value.kind;
            var pending := Next(d, Respond(k, outcome), lib).conns[k].session.pending;
            if M.HasHandler(kind) && outcome == M.OtherException then pending == []
            else exists data :: pending == [M.Writing(data)] && M.Conveys(kind, outcome, lib.codec, data)
  {
    StartInv(lib);
    RunKeeps(START, steps, d, lib);
    RunningFromSocket(d, k, lib);
    AnswerPending(d, k, outcome, lib);
  }

  lemma {:induction false} PendingConveys(cmd: M.Command, outcome: M.Outcome, lib: Library)
    ensures var pending := S.Outstanding(S.AfterDispatch(cmd, outcome, lib.codec));
            if M.HasHandler(cmd.kind) && outcome == M.OtherException then pending == []
            else exists data :: pending == [M.Writing(data)] && M.Conveys(cmd.kind, outcome, lib.codec, data)
  {
    S.AnswerConveys(cmd.kind, outcome, lib.codec);
    var a := M.Answer(cmd.kind, outcome, lib.codec);
    if a.Some? {
      var data := M.Reply(lib.codec, a.value);
      assert S.Outstanding(S.AfterDispatch(cmd, outcome, lib.codec)) == [M.Writing(data)];
    }
  }

  lemma {:induction false} AnswerPending(d: State, k: nat, outcome: M.Outcome, lib: Library)
    requires SessionsOk(d, lib) && RunningOk(d, lib) && Enabled(d, Respond(k, outcome), lib)
    ensures var kind := d.running[k].cmd.kind;
            var pending := Next(d, Respond(k, outcome), lib).conns[k].session.pending;
            if M.HasHandler(kind) && outcome == M.OtherException then pending == []
            else exists data :: pending == [M.Writing(data)] && M.Conveys(kind, outcome, lib.codec, data)
  {
    var c, r := d.conns[k], d.running[k];
    S.CommandAnswered(c.session, r.event.(outcome := outcome), r.cmd, lib.codec, c.ids);
    PendingConveys(r.cmd, outcome, lib);
  }

  // ----- a run in which a principal is created and deleted

  lemma {:induction false} RunThen(d: State, a: seq<Step>, d1: State, step: Step, lib: Library)
    requires IsRun(d, a, d1, lib) && Enabled(d1, step, lib)
    ensures IsRun(d, a + [step], Next(d1, step, lib), lib)
    decreases |a|
  {
    var d2 := Next(d1, step, lib);
    if a == [] {
      assert a + [step] == [step] && [step][1..] == [] && IsRun(d2, [], d2, lib);
    } else {
      assert (a + [step])[1..] == a[1..] + [step];
      RunThen(Next(d, a[0], lib), a[1..], d1, step, lib);
    }
  }

  /** Socket `k` waits for a header, and what comes is `input`. */
  predicate Idle(d: State, k: nat, input: Bytes) {
    && k in d.conns && k !in d.running && k !in d.table.tasks
    && d.conns[k].session.pending == [M.HeaderRead] && d.conns[k].session.input == input
  }

  /** The command in `p` is about to be handled on socket `k`, behind which `rest` is to come. */
  predicate Received(d: State, k: nat, p: Bytes, rest: Bytes, lib: Library) {
    && k in d.conns && k in d.running && k !in d.table.tasks
    && |p| <= M.BUFFER_SIZE && lib.codec.parse(p).Some?
    && d.conns[k].session.pending == [M.BodyRead(Header(|p|, MAGIC))] && d.conns[k].session.input == p + rest
    && d.running[k].event.BodyDone?
    && d.running[k].event == M.BodyDone(0, false, |p|, p, d.running[k].event.outcome)
    && d.running[k].cmd == M.Stamp(lib.codec.parse(p).value, d.conns[k].ids)
  }

  /** The steps on a session that read a header and let the body come in. */
  lemma {:induction false} HeaderStep(s: M.State, p: Bytes, rest: Bytes, e: M.Event, codec: M.Codec, ids: M.Ids)
    requires |p| <= M.BUFFER_SIZE && s.pending == [M.HeaderRead] && s.input == Frame(p, MAGIC) + rest
    requires e.BodyDone? && e == M.BodyDone(0, false, |p|, p, e.outcome)
    ensures M.Enabled(s, M.HeaderDone(0, false, HEADER_SIZE))
    ensures var s' := M.Step(s, M.HeaderDone(0, false, HEADER_SIZE), codec, ids);
            s'.pending == [M.BodyRead(Header(|p|, MAGIC))] && s'.input == p + rest && M.Enabled(s', e)
  {
    var header := Header(|p|, MAGIC);
    SizeInHeader(|p|, MAGIC);
    assert s.input[..HEADER_SIZE] == header && s.input[HEADER_SIZE..] == p + rest;
    assert (p + rest)[..|p|] == p;
  }

  /** A well-formed frame on an idle socket gets to be handled. */
  lemma {:induction false} FrameIsReceived(steps: seq<Step>, d: State, k: nat, p: Bytes, rest: Bytes, lib: Library)
    returns (steps': seq<Step>, d': State)
    requires IsRun(START, steps, d, lib) && |p| <= M.BUFFER_SIZE && Idle(d, k, Frame(p, MAGIC) + rest)
    requires lib.codec.parse(p).Some?
    ensures IsRun(START, steps', d', lib) && Received(d', k, p, rest, lib) && d'.running[k].stage.Fresh?
    ensures d'.table == d.table && d'.conns[k].ids == d.conns[k].ids
  {
    var c, e := d.conns[k], M.BodyDone(0, false, |p|, p, M.OtherException);
    HeaderStep(c.session, p, rest, e, lib.codec, c.ids);
    var io, body := Io(k, M.HeaderDone(0, false, HEADER_SIZE)), Receive(k, e);
    var d1 := Next(d, io, lib);
    RunThen(START, steps, d, io, lib);
    RunThen(START, steps + [io], d1, body, lib);
    steps', d' := steps + [io] + [body], Next(d1, body, lib);
  }

  /** The handler of a create command can put its generation into the table. */
  lemma {:induction false} CreationIsHandled(
    steps: seq<Step>, d: State, k: nat, p: Bytes, rest: Bytes, id: Uint64, lib: Library)
    returns (steps': seq<Step>, d': State)
    requires IsRun(START, steps, d, lib) && Received(d, k, p, rest, lib) && d.running[k].stage.Fresh?
    requires d.running[k].cmd.kind == M.CREATE_PRINCIPAL && lib.principalId(d.running[k].cmd.statement) == Some(id)
    ensures IsRun(START, steps', d', lib) && Received(d', k, p, rest, lib)
    ensures d'.conns == d.conns && d'.running[k].cmd == d.running[k].cmd
    ensures var r := P.Record(id, d.table.gn, d.conns[k].ids.pid);
            && d'.running[k].stage == Ended(r, true)
            && P.Bucket(d'.table.table, id) == [r] + P.Bucket(d.table.table, id)
            && |d'.table.history| == |d.table.history| + 1
  {
    var pid := d.conns[k].ids.pid;
    var begin, post, insert := Handle(k, P.Begin(k, id, pid)), Handle(k, P.Post(k, true)), Handle(k, P.Insert(k, 0));
    var d1 := Next(d, begin, lib);
    RunThen(START, steps, d, begin, lib);
    var d2 := Next(d1, post, lib);
    RunThen(START, steps + [begin], d1, post, lib);
    d' := Next(d2, insert, lib);
    RunThen(START, steps + [begin] + [post], d2, insert, lib);
    steps' := steps + [begin] + [post] + [insert];
  }

  /** It is then answered, and the socket is idle again. */
  lemma {:induction false} AnswerIsGiven(
    steps: seq<Step>, d: State, k: nat, p: Bytes, rest: Bytes, lib: Library)
    returns (steps': seq<Step>, d': State)
    requires IsRun(START, steps, d, lib) && Received(d, k, p, rest, lib)
    requires OnTable(d.running[k].cmd.kind) && d.running[k].stage.Ended? && d.running[k].stage.ok
    ensures IsRun(START, steps', d', lib) && Idle(d', k, rest)
    ensures d'.table == d.table && d'.conns[k].ids == d.conns[k].ids
  {
    var outcome := M.Returned(M.Status(true, ""));
    var respond := Respond(k, outcome);
    SizeInHeader(|p|, MAGIC);
    assert (p + rest)[..|p|] == p && (p + rest)[|p|..] == rest;
    assert M.Enabled(d.conns[k].session, d.running[k].event.(outcome := outcome));
    var d1 := Next(d, respond, lib);
    RunThen(START, steps, d, respond, lib);
    var data := M.Reply(lib.codec, M.Status(true, ""));
    assert d1.conns[k].session.pending == [M.Writing(data)];
    var written := Io(k, M.WriteDone(0, false, |data|));
    d' := Next(d1, written, lib);
    RunThen(START, steps + [respond], d1, written, lib);
    steps' := steps + [respond] + [written];
  }

  /** A message library whose commands have a byte for the kind and a byte for the principal. */
  const TWO_BYTES := Library(
    M.Codec(b => if |b| == 2 then Some(M.Command(b[0], [b[1]], 0, 0, 0)) else None, _ => [], _ => ""),
    s => if |s| == 1 then Some(s[0]) else None)

  /** Process 1 creates principal 7, and a delete command is to come. */
  lemma {:induction false} CreationHappens() returns (steps: seq<Step>, d: State)
    ensures IsRun(START, steps, d, TWO_BYTES) && Idle(d, 0, Frame([1, 7], MAGIC) + [])
    ensures d.conns[0].ids == M.Ids(1, 5, 5) && |d.table.history| == 1
    ensures P.Bucket(d.table.table, 7) == [P.Record(7, 0, 1)]
  {
    var lib, rest := TWO_BYTES, Frame([1, 7], MAGIC) + [];
    var connect := Connect(0, M.Ids(1, 5, 5), Frame([0, 7], MAGIC) + rest);
    assert IsRun(START, [], START, lib);
    RunThen(START, [], START, connect, lib);
    steps, d := [] + [connect], Next(START, connect, lib);
    assert lib.codec.parse([0, 7]) == Some(M.Command(0, [7], 0, 0, 0));
    steps, d := FrameIsReceived(steps, d, 0, [0, 7], rest, lib);
    steps, d := CreationIsHandled(steps, d, 0, [0, 7], rest, 7, lib);
    steps, d := AnswerIsGiven(steps, d, 0, [0, 7], rest, lib);
  }

  /** Such a run goes on to the deletion: the record is in the table and leaves it in the next step. */
  lemma {:induction false} DeletionHappens() returns (steps: seq<Step>, d: State, step: Step, r: P.Record)
    ensures IsRun(START, steps, d, TWO_BYTES) && Enabled(d, step, TWO_BYTES)
    ensures |d.table.history| <= TWO_64
    ensures r in P.Bucket(d.table.table, 7) && P.Bucket(Next(d, step, TWO_BYTES).table.table, 7) == []
  {
    steps, d := CreationHappens();
    assert TWO_BYTES.codec.parse([1, 7]) == Some(M.Command(1, [7], 0, 0, 0));
    steps, d := FrameIsReceived(steps, d, 0, [1, 7], [], TWO_BYTES);
    r := P.Record(7, 0, 1);
    step := Handle(0, P.EraseAll(0, 7, 1, 5));
    assert P.Latest([r]) == Some(r);
  }
}
