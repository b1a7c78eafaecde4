/**
Safety of the principal table over every run: any number of handlers, interleaved in any way, with
every remote call free to fail. The counter is 64 bits wide, so a run is taken to issue at most
2^64 generations; the last section says what happens beyond that.
 */
module PrincipalRuns {
  import opened Wrappers
  import opened Words
  import opened Numbers
  import opened Principals
  import opened PrincipalSafety

  /** `s` can be reached without handing out more than 2^64 generations. */
  ghost predicate Reachable(s: State) {
    |s.history| <= TWO_64 && exists steps :: IsRun(START, steps, s)
  }

  lemma {:induction false} HistoryGrows(s: State, steps: seq<Step>, s': State)
    requires IsRun(s, steps, s')
    ensures |s.history| <= |s'.history|
    decreases |steps|
  {
    if steps != [] {
      HistoryGrows(Next(s, steps[0]), steps[1..], s');
    }
  }

  lemma {:induction false} RunKeeps(s: State, steps: seq<Step>, s': State)
    requires Inv(s) && IsRun(s, steps, s') && |s'.history| <= TWO_64
    ensures Inv(s')
    decreases |steps|
  {
    if steps != [] {
      HistoryGrows(Next(s, steps[0]), steps[1..], s');
      StepKeeps(s, steps[0]);
      RunKeeps(Next(s, steps[0]), steps[1..], s');
    }
  }

  lemma {:induction false} ReachableInv(s: State)
    requires Reachable(s)
    ensures Inv(s)
  {
    var steps :| IsRun(START, steps, s);
    RunKeeps(START, steps, s);
  }

  // ----- names on the wire

  ghost predicate CreatedRemotely(log: seq<Event>, name: string, before: nat) {
    exists i :: 0 <= i < before && i < |log| && log[i].Posted? && log[i].ok && log[i].r.Name() == name
  }

  ghost predicate DeletedRemotely(log: seq<Event>, name: string) {
    exists i :: 0 <= i < |log| && log[i].DeleteSent? && log[i].r.Name() == name
  }

  lemma {:induction false} SameNameSameRecord(h: seq<Issue>, r: Record, r': Record)
    requires Known(h, r) && Known(h, r') && r.Name() == r'.Name()
    ensures r == r'
  {
    InstanceNameInjective(r.id, r.gn, r'.id, r'.gn);
  }

  /** Every record in the table names an instance created remotely for which no deletion was sent. */
  lemma {:induction false} TableIsLive(s: State, id: nat, r: Record)
    requires Reachable(s) && r in Bucket(s.table, id)
    ensures r.id == id
    ensures CreatedRemotely(s.log, r.Name(), |s.log|) && !DeletedRemotely(s.log, r.Name())
  {
    ReachableInv(s);
    assert BucketOk(s.table[id], id, s.history);
    assert Logged(s.log, s.history[r.gn]);
    var i :| 0 <= i < |s.log| && s.log[i] == Posted(r, true);
    if j :| 0 <= j < |s.log| && s.log[j].DeleteSent? && s.log[j].r.Name() == r.Name() {
      var DeleteSent(q, ok) := s.log[j];
      assert DeleteSent(q, ok) in s.log;
      SameNameSameRecord(s.history, q, r);
    }
  }

  /** No name is sent for deletion twice, whatever became of the first request. */
  lemma {:induction false} NoNameDeletedTwice(s: State, i: nat, j: nat)
    requires Reachable(s) && i < j < |s.log| && s.log[i].DeleteSent? && s.log[j].DeleteSent?
    ensures s.log[i].r.Name() != s.log[j].r.Name()
  {
    ReachableInv(s);
    assert s.log[i] in s.log && s.log[j] in s.log;
    if s.log[i].r.Name() == s.log[j].r.Name() {
      SameNameSameRecord(s.history, s.log[i].r, s.log[j].r);
    }
  }

  /** A name is sent for deletion only after its creation has succeeded. */
  lemma {:induction false} DeletedAfterCreated(s: State, j: nat)
    requires Reachable(s) && j < |s.log| && s.log[j].DeleteSent?
    ensures CreatedRemotely(s.log, s.log[j].r.Name(), j)
  {
    ReachableInv(s);
    var r := s.log[j].r;
    assert s.log[j] in s.log;
    assert s.log[j] == DeleteSent(r, s.log[j].ok);
    assert Logged(s.log, s.history[r.gn]);
    var i :| 0 <= i < |s.log| && s.log[i] == Posted(r, true);
    assert i < j;
  }

  // ----- accounting

  /**
  Where a generation that was handed out can be. The last two are dead ends: its remote deletion was
  sent and failed, or it was erased here without being sent.
   */
  datatype Place = AwaitingPost | Rejected | AwaitingInsert | InTable | AwaitingDelete | Gone | Unconfirmed | Leaked

  ghost predicate InTask(s: State, task: Task) {
    exists t :: t in s.tasks && s.tasks[t] == task
  }

  /** Created remotely, and now in no place from which a deletion could still follow. */
  ghost predicate Abandoned(s: State, r: Record) {
    && Posted(r, true) in s.log
    && !InTask(s, Inserting(r))
    && !InTask(s, Deleting(r))
    && r !in Bucket(s.table, r.id)
  }

  ghost predicate IsAt(s: State, r: Record, p: Place) {
    match p
    case AwaitingPost => InTask(s, Posting(r))
    case Rejected => Posted(r, false) in s.log
    case AwaitingInsert => InTask(s, Inserting(r))
    case InTable => r in Bucket(s.table, r.id)
    case AwaitingDelete => InTask(s, Deleting(r))
    case Gone => DeleteSent(r, true) in s.log
    case Unconfirmed => DeleteSent(r, false) in s.log
    case Leaked => Abandoned(s, r) && !DeleteLogged(s.log, r)
  }

  /** An instance left behind: abandoned without a deletion that succeeded. */
  ghost predicate Stranded(s: State, r: Record) {
    Abandoned(s, r) && DeleteSent(r, true) !in s.log
  }

  function PlaceOf(l: Life): Place {
    match l
    case Pending(_) => AwaitingPost
    case Failed => Rejected
    case Created(_) => AwaitingInsert
    case Stored => InTable
    case Removing(_) => AwaitingDelete
    case Deleted(ok) => if ok then Gone else Unconfirmed
    case Dropped => Leaked
  }

  lemma {:induction false} InTaskIff(s: State, i: nat, task: Task)
    requires Inv(s) && i < |s.history| && task.r == s.history[i].r
    ensures InTask(s, task) <==>
            (task.Posting? && s.history[i].life.Pending?) || (task.Inserting? && s.history[i].life.Created?)
            || (task.Deleting? && s.history[i].life.Removing?)
  {
  }

  lemma {:induction false} InTableIff(s: State, i: nat)
    requires Inv(s) && i < |s.history|
    ensures var r := s.history[i].r; r in Bucket(s.table, r.id) <==> s.history[i].life.Stored?
  {
  }

  lemma {:induction false} PlaceIff(s: State, i: nat, p: Place)
    requires Inv(s) && i < |s.history|
    ensures IsAt(s, s.history[i].r, p) <==> p == PlaceOf(s.history[i].life)
  {
    var r := s.history[i].r;
    assert Logged(s.log, s.history[i]);
    InTaskIff(s, i, Posting(r));
    InTaskIff(s, i, Inserting(r));
    InTaskIff(s, i, Deleting(r));
    InTableIff(s, i);
  }

  /** Every generation ever handed out is in exactly one place. */
  lemma {:induction false} EachInOnePlace(s: State, i: nat)
    requires Reachable(s) && i < |s.history|
    ensures exists p :: IsAt(s, s.history[i].r, p) && forall q :: IsAt(s, s.history[i].r, q) ==> q == p
  {
    ReachableInv(s);
    forall p
      ensures IsAt(s, s.history[i].r, p) <==> p == PlaceOf(s.history[i].life)
    {
      PlaceIff(s, i, p);
    }
    assert IsAt(s, s.history[i].r, PlaceOf(s.history[i].life));
  }

  // ----- instances left behind

  predicate DeadEnd(l: Life) {
    l == Dropped || l == Deleted(false)
  }

  lemma {:induction false} AbandonedIff(s: State, i: nat)
    requires Inv(s) && i < |s.history|
    ensures Abandoned(s, s.history[i].r) <==> s.history[i].life == Dropped || s.history[i].life.Deleted?
  {
    var r := s.history[i].r;
    assert Logged(s.log, s.history[i]);
    InTaskIff(s, i, Inserting(r));
    InTaskIff(s, i, Deleting(r));
    InTableIff(s, i);
  }

  lemma {:induction false} StrandedLife(s: State, r: Record)
    requires Inv(s)
    ensures Stranded(s, r) <==> Known(s.history, r) && DeadEnd(s.history[r.gn].life)
  {
    assert Posted(r, true) in s.log ==> Known(s.history, r);
    if Known(s.history, r) {
      assert Logged(s.log, s.history[r.gn]);
      AbandonedIff(s, r.gn);
    }
  }

  /** An instance is left behind exactly in two ways: it leaked, or the one request to delete it failed. */
  lemma {:induction false} StrandedIff(s: State, r: Record)
    requires Reachable(s)
    ensures Stranded(s, r) <==> IsAt(s, r, Leaked) || IsAt(s, r, Unconfirmed)
  {
    ReachableInv(s);
    StrandedLife(s, r);
    if Known(s.history, r) {
      PlaceIff(s, r.gn, Leaked);
      PlaceIff(s, r.gn, Unconfirmed);
    }
  }

  lemma {:induction false} StepKeepsDeadEnd(s: State, step: Step, r: Record)
    requires Inv(s) && Enabled(s, step) && Known(s.history, r) && DeadEnd(s.history[r.gn].life)
    ensures Known(Next(s, step).history, r) && Next(s, step).history[r.gn] == s.history[r.gn]
  {
    match step
    case EraseAll(_, id, _, _) =>
      var bucket := Bucket(s.table, id);
      LatestIsGreatest(bucket);
      assert bucket != [] ==> BucketOk(bucket, id, s.history);
    case _ =>
  }

  lemma {:induction false} DeadEndStays(s: State, steps: seq<Step>, s': State, r: Record)
    requires Inv(s) && IsRun(s, steps, s') && |s'.history| <= TWO_64
    requires Known(s.history, r) && DeadEnd(s.history[r.gn].life)
    ensures Inv(s') && Known(s'.history, r) && s'.history[r.gn] == s.history[r.gn]
    decreases |steps|
  {
    if steps != [] {
      HistoryGrows(Next(s, steps[0]), steps[1..], s');
      StepKeeps(s, steps[0]);
      StepKeepsDeadEnd(s, steps[0], r);
      DeadEndStays(Next(s, steps[0]), steps[1..], s', r);
    }
  }

  /** An instance left behind stays so: no continuation of the run sends a deletion of it. */
  lemma {:induction false} StrandedForever(s: State, steps: seq<Step>, s': State, r: Record)
    requires Reachable(s) && IsRun(s, steps, s') && |s'.history| <= TWO_64 && Stranded(s, r)
    ensures Stranded(s', r)
    ensures forall ok :: DeleteSent(r, ok) in s'.log <==> DeleteSent(r, ok) in s.log
  {
    ReachableInv(s);
    StrandedLife(s, r);
    DeadEndStays(s, steps, s', r);
    StrandedLife(s', r);
    assert Logged(s.log, s.history[r.gn]) && Logged(s'.log, s'.history[r.gn]);
  }

  // ----- deletion

  /** What a deletion request needs to be allowed. */
  ghost predicate MayDelete(s: State, id: nat, pid: nat, uid: nat) {
    var latest := Latest(Bucket(s.table, id));
    latest.Some? && (latest.value.speaker == pid || uid == 0)
  }

  /** Records are filed under their id, in any run. */
  ghost predicate Filed(table: Table) {
    forall id, r :: r in Bucket(table, id) ==> r.id == id
  }

  lemma {:induction false} StepKeepsFiled(s: State, step: Step)
    requires Enabled(s, step) && Filed(s.table)
    ensures Filed(Next(s, step).table)
  {
    var table := Next(s, step).table;
    forall id, r | r in Bucket(table, id)
      ensures r.id == id
    {
      assert r in Bucket(s.table, id) || (step.Insert? && r == s.tasks[step.t].r && id == r.id);
    }
  }

  lemma {:induction false} RunKeepsFiled(s: State, steps: seq<Step>, s': State)
    requires IsRun(s, steps, s') && Filed(s.table)
    ensures Filed(s'.table)
    decreases |steps|
  {
    if steps != [] {
      StepKeepsFiled(s, steps[0]);
      RunKeepsFiled(Next(s, steps[0]), steps[1..], s');
    }
  }

  /** `r` is the record of greatest generation under its id. */
  ghost predicate IsLatest(s: State, r: Record) {
    r in Bucket(s.table, r.id) && forall q :: q in Bucket(s.table, r.id) ==> q.gn <= r.gn
  }

  /**
  What an erasure finds, for every caller: nothing exactly if no record is filed under the id; a
  refusal exactly if the latest one belongs to another process and the caller is not root.
   */
  lemma {:induction false} ErasureOutcomeIff(s: State, id: nat, pid: nat, uid: nat)
    requires Reachable(s)
    ensures var outcome := Erase(s.table, id, pid, uid).1;
            && (outcome == NotFound <==> Bucket(s.table, id) == [])
            && (outcome == Refused <==>
                  exists r: Record :: r.id == id && IsLatest(s, r) && r.speaker != pid && uid != 0)
            && forall r: Record :: outcome == Erased(r) <==>
                 r.id == id && IsLatest(s, r) && (r.speaker == pid || uid == 0)
  {
    var latest := Latest(Bucket(s.table, id));
    LatestIsUnique(s, id);
    ReachableInv(s);
    if latest.Some? {
      assert BucketOk(Bucket(s.table, id), id, s.history);
      assert latest.value.id == id && IsLatest(s, latest.value);
      forall r: Record | r.id == id && IsLatest(s, r)
        ensures r == latest.value
      {
      }
    }
  }

  /**
  An allowed deletion removes all generations of the id and nothing else, and queues the remote
  deletion of the latest one; the older ones leak. A refused one changes nothing.
   */
  lemma {:induction false} DeletionRemovesIff(s: State, t: nat, id: Uint64, pid: nat, uid: nat)
    requires Reachable(s) && t !in s.tasks
    ensures var s' := Next(s, EraseAll(t, id, pid, uid));
            && s'.log == s.log
            && (forall j :: j != id ==> Bucket(s'.table, j) == Bucket(s.table, j))
            && (!MayDelete(s, id, pid, uid) ==>
                  Bucket(s'.table, id) == Bucket(s.table, id) && s'.tasks == s.tasks && s'.history == s.history)
            && (MayDelete(s, id, pid, uid) ==>
                  && Bucket(s'.table, id) == []
                  && var latest := Latest(Bucket(s.table, id)).value;
                     && IsAt(s', latest, AwaitingDelete)
                     && forall r :: r in Bucket(s.table, id) && r != latest ==> r.gn < latest.gn && IsAt(s', r, Leaked))
  {
    ReachableInv(s);
    var step := EraseAll(t, id, pid, uid);
    var s' := Next(s, step);
    var bucket := Bucket(s.table, id);
    LatestIsGreatest(bucket);
    EraseKeeps(s, step);
    if MayDelete(s, id, pid, uid) {
      var latest := Latest(bucket).value;
      assert s'.tasks[t] == Deleting(latest);
      forall r | r in bucket && r != latest
        ensures r.gn < latest.gn && IsAt(s', r, Leaked)
      {
        OlderLeaks(s, t, id, pid, uid, r);
      }
    }
  }

  lemma {:induction false} OlderLeaks(s: State, t: nat, id: Uint64, pid: nat, uid: nat, r: Record)
    requires Inv(s) && t !in s.tasks && MayDelete(s, id, pid, uid) && r in Bucket(s.table, id)
    requires var latest := Latest(Bucket(s.table, id)).value; r != latest
    ensures var latest := Latest(Bucket(s.table, id)).value; r.gn < latest.gn
    ensures IsAt(Next(s, EraseAll(t, id, pid, uid)), r, Leaked)
  {
    var step := EraseAll(t, id, pid, uid);
    EraseKeeps(s, step);
    LatestIsGreatest(Bucket(s.table, id));
    assert BucketOk(Bucket(s.table, id), id, s.history);
    assert Next(s, step).history[r.gn] == Issue(r, Dropped);
    PlaceIff(Next(s, step), r.gn, Leaked);
  }

  // ----- exactly when an instance is left behind

  /** The steps that leave an instance behind: a deletion of several generations, and a failed request. */
  ghost predicate Strands(s: State, step: Step) {
    match step
    case EraseAll(_, id, pid, uid) => MayDelete(s, id, pid, uid) && |Bucket(s.table, id)| >= 2
    case SendDelete(_, ok) => !ok
    case _ => false
  }

  ghost predicate NewlyStranded(s: State, s': State, r: Record) {
    Stranded(s', r) && !Stranded(s, r)
  }

  lemma {:induction false} ErasureStrands(s: State, step: Step) returns (r: Record)
    requires Reachable(s) && Enabled(s, step) && step.EraseAll? && Strands(s, step)
    ensures NewlyStranded(s, Next(s, step), r)
  {
    ReachableInv(s);
    var bucket := Bucket(s.table, step.id);
    LatestIsGreatest(bucket);
    assert BucketOk(bucket, step.id, s.history) && bucket[0] in bucket && bucket[1] in bucket;
    r := if bucket[0] == Latest(bucket).value then bucket[1] else bucket[0];
    OlderLeaks(s, step.t, step.id, step.pid, step.uid, r);
    StrandedLife(s, r);
  }

  lemma {:induction false} FailureStrands(s: State, step: Step) returns (r: Record)
    requires Inv(s) && Enabled(s, step) && step.SendDelete? && !step.ok
    ensures NewlyStranded(s, Next(s, step), r)
  {
    r := s.tasks[step.t].r;
    SendDeleteKeeps(s, step);
    StrandedLife(s, r);
    StrandedLife(Next(s, step), r);
  }

  lemma {:induction false} StrandedByErasure(s: State, step: Step, r: Record)
    requires Inv(s) && Enabled(s, step) && step.EraseAll?
    requires Known(s.history, r) && !DeadEnd(s.history[r.gn].life) && DeadEnd(Next(s, step).history[r.gn].life)
    ensures Strands(s, step)
  {
    var bucket := Bucket(s.table, step.id);
    LatestIsGreatest(bucket);
    assert r in bucket && r != Latest(bucket).value;
  }

  lemma {:induction false} NewDeadEnd(s: State, step: Step, r: Record)
    requires Inv(s) && Enabled(s, step) && Known(Next(s, step).history, r)
    requires DeadEnd(Next(s, step).history[r.gn].life)
    ensures Known(s.history, r)
    ensures !DeadEnd(s.history[r.gn].life) ==> Strands(s, step)
  {
    if step.EraseAll? && !DeadEnd(s.history[r.gn].life) {
      StrandedByErasure(s, step, r);
    }
  }

  /** A step leaves an instance behind exactly if it is one of those. */
  lemma {:induction false} StepStrandsIff(s: State, step: Step)
    requires Reachable(s) && Enabled(s, step) && |Next(s, step).history| <= TWO_64
    ensures (exists r :: NewlyStranded(s, Next(s, step), r)) <==> Strands(s, step)
  {
    ReachableInv(s);
    StepKeeps(s, step);
    if Strands(s, step) {
      if step.EraseAll? {
        var r := ErasureStrands(s, step);
      } else {
        var r := FailureStrands(s, step);
      }
    }
    forall r | NewlyStranded(s, Next(s, step), r)
      ensures Strands(s, step)
    {
      StrandedLife(s, r);
      StrandedLife(Next(s, step), r);
      NewDeadEnd(s, step, r);
    }
  }

  /** Some step along the run leaves an instance behind. */
  ghost predicate SomeStrands(s: State, steps: seq<Step>, s': State)
    requires IsRun(s, steps, s')
    decreases |steps|
  {
    steps != [] && (Strands(s, steps[0]) || SomeStrands(Next(s, steps[0]), steps[1..], s'))
  }

  ghost predicate AnyStranded(s: State) {
    exists r :: Stranded(s, r)
  }

  lemma {:induction false} ReachableNext(s: State, step: Step)
    requires Reachable(s) && Enabled(s, step) && |Next(s, step).history| <= TWO_64
    ensures Reachable(Next(s, step))
  {
    var steps :| IsRun(START, steps, s);
    assert [step][1..] == [] && IsRun(Next(s, step), [step][1..], Next(s, step));
    RunAppend(START, steps, s, [step], Next(s, step));
  }

  lemma {:induction false} StepAnyStranded(s: State, step: Step)
    requires Reachable(s) && Enabled(s, step) && |Next(s, step).history| <= TWO_64
    ensures AnyStranded(Next(s, step)) <==> AnyStranded(s) || Strands(s, step)
  {
    var s' := Next(s, step);
    StepStrandsIff(s, step);
    assert [step][1..] == [] && IsRun(s', [step][1..], s');
    forall r | Stranded(s, r)
      ensures Stranded(s', r)
    {
      StrandedForever(s, [step], s', r);
    }
    if r :| Stranded(s', r) && !AnyStranded(s) {
      assert NewlyStranded(s, s', r);
    }
  }

  lemma {:induction false} ContinuationStrandsIff(s: State, steps: seq<Step>, s': State)
    requires Reachable(s) && IsRun(s, steps, s') && |s'.history| <= TWO_64
    ensures AnyStranded(s') <==> AnyStranded(s) || SomeStrands(s, steps, s')
    decreases |steps|
  {
    if steps != [] {
      HistoryGrows(Next(s, steps[0]), steps[1..], s');
      ReachableNext(s, steps[0]);
      StepAnyStranded(s, steps[0]);
      ContinuationStrandsIff(Next(s, steps[0]), steps[1..], s');
    }
  }

  /** Exactly the runs with such a step end with an instance left behind. */
  lemma {:induction false} RunStrandsIff(steps: seq<Step>, s: State)
    requires IsRun(START, steps, s) && |s.history| <= TWO_64
    ensures AnyStranded(s) <==> SomeStrands(START, steps, s)
  {
    assert IsRun(START, [], START) && Reachable(START);
    ContinuationStrandsIff(START, steps, s);
  }

  // ----- runs that leave an instance behind

  /** Creates one more generation of id 7, as process 1, in one go. */
  function CreateSteps(at: nat): seq<Step> {
    [Begin(0, 7, 1), Post(0, true), Insert(0, at)]
  }

  lemma {:induction false} CreateRun(s: State) returns (s': State)
    requires 0 !in s.tasks
    ensures IsRun(s, CreateSteps(0), s')
    ensures s'.table == Add(s.table, Record(7, s.gn, 1), 0) && s'.tasks == s.tasks
    ensures s'.gn == (s.gn + 1) % TWO_64 && |s'.history| == |s.history| + 1
  {
    var steps := CreateSteps(0);
    var s1 := Next(s, steps[0]);
    var s2 := Next(s1, steps[1]);
    s' := Next(s2, steps[2]);
    assert steps[1..][0] == steps[1] && steps[1..][1..][0] == steps[2] && steps[1..][1..][1..] == [];
    assert IsRun(s2, steps[1..][1..], s');
    assert IsRun(s1, steps[1..], s');
    assert s'.tasks == s.tasks;
  }

  lemma {:induction false} RunAppend(s: State, a: seq<Step>, t: State, b: seq<Step>, u: State)
    requires IsRun(s, a, t) && IsRun(t, b, u)
    ensures IsRun(s, a + b, u)
    decreases |a|
  {
    if a == [] {
      assert a + b == b;
    } else {
      assert (a + b)[1..] == a[1..] + b;
      RunAppend(Next(s, a[0]), a[1..], t, b, u);
    }
  }

  lemma {:induction false} TwoGenerations() returns (s: State)
    ensures Reachable(s) && 0 !in s.tasks
    ensures Bucket(s.table, 7) == [Record(7, 1, 1), Record(7, 0, 1)]
  {
    var s1 := CreateRun(START);
    s := CreateRun(s1);
    RunAppend(START, CreateSteps(0), s1, CreateSteps(0), s);
  }

  /** Creating one id twice and deleting it leaks the first instance, even with nothing interleaved. */
  lemma {:induction false} LeakIsReachable() returns (s: State)
    ensures Reachable(s) && 0 !in s.tasks
    ensures IsAt(Next(s, EraseAll(0, 7, 1, 5)), Record(7, 0, 1), Leaked)
  {
    s := TwoGenerations();
    var bucket := [Record(7, 1, 1), Record(7, 0, 1)];
    LatestIsGreatest(bucket);
    assert bucket[0] in bucket && bucket[1] in bucket;
    DeletionRemovesIff(s, 0, 7, 1, 5);
  }

  /** With one generation, a failed request is enough: the instance is not deleted and cannot be any more. */
  lemma {:induction false} FailureIsReachable() returns (s: State, s': State)
    ensures Reachable(s) && Bucket(s.table, 7) == [Record(7, 0, 1)]
    ensures IsRun(s, [EraseAll(0, 7, 1, 5), SendDelete(0, false)], s')
    ensures IsAt(s', Record(7, 0, 1), Unconfirmed) && Stranded(s', Record(7, 0, 1))
  {
    s := CreateRun(START);
    assert Reachable(s);
    var steps := [EraseAll(0, 7, 1, 5), SendDelete(0, false)];
    var r := Record(7, 0, 1);
    assert Latest([r]) == Some(r);
    var s1 := Next(s, steps[0]);
    s' := Next(s1, steps[1]);
    assert steps[1..][0] == steps[1] && steps[1..][1..] == [];
    assert IsRun(s1, steps[1..], s');
    ReachableNext(s, steps[0]);
    ReachableNext(s1, steps[1]);
    assert s'.log[|s1.log|] == DeleteSent(r, false);
    StrandedIff(s', r);
  }

  /** A record leaves the table in no other way than an allowed deletion of its id. */
  lemma {:induction false} LeavesOnlyByDeletion(s: State, step: Step, r: Record)
    requires Reachable(s) && Enabled(s, step)
    requires r in Bucket(s.table, r.id) && r !in Bucket(Next(s, step).table, r.id)
    ensures step.EraseAll? && step.id == r.id && MayDelete(s, r.id, step.pid, step.uid)
  {
  }

  /** In every reachable table the scan picks the one record of greatest generation, if there is any. */
  lemma {:induction false} LatestIsUnique(s: State, id: nat)
    requires Reachable(s)
    ensures match Latest(Bucket(s.table, id))
            case None => id !in s.table || s.table[id] == []
            case Some(l) => l in Bucket(s.table, id) && forall r :: r in Bucket(s.table, id) && r != l ==> r.gn < l.gn
  {
    ReachableInv(s);
    var bucket := Bucket(s.table, id);
    LatestIsGreatest(bucket);
    assert bucket != [] ==> BucketOk(bucket, id, s.history);
  }

  // ----- beyond 2^64 generations

  /** The counter along any run, however long. */
  ghost predicate Counting(s: State) {
    && s.gn == |s.history| % TWO_64
    && forall i :: 0 <= i < |s.history| ==> s.history[i].r.gn == i % TWO_64
  }

  lemma {:induction false} CountingKept(s: State, steps: seq<Step>, s': State)
    requires Counting(s) && IsRun(s, steps, s')
    ensures Counting(s')
    decreases |steps|
  {
    if steps != [] {
      CountingStep(s, steps[0]);
      CountingKept(Next(s, steps[0]), steps[1..], s');
    }
  }

  lemma {:induction false} CountingStep(s: State, step: Step)
    requires Counting(s) && Enabled(s, step)
    ensures Counting(Next(s, step))
  {
  }

  /** Two generations of one id share a name exactly when a multiple of 2^64 were issued in between. */
  lemma {:induction false} NamesCollideIff(steps: seq<Step>, s: State, i: nat, j: nat)
    requires IsRun(START, steps, s) && i < |s.history| && j < |s.history|
    requires s.history[i].r.id == s.history[j].r.id
    ensures s.history[i].r.Name() == s.history[j].r.Name() <==>
            i % 0x1_0000_0000_0000_0000 == j % 0x1_0000_0000_0000_0000
  {
    CountingKept(START, steps, s);
    var a, b := s.history[i].r, s.history[j].r;
    InstanceNameInjective(a.id, a.gn, b.id, b.gn);
  }
}
