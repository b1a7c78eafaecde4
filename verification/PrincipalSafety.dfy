/** What every interleaving of principal creations and deletions keeps. */
module PrincipalSafety {
  import opened Wrappers
  import opened Words
  import opened Numbers
  import opened Principals

  // ----- the scan

  predicate DistinctGns(bucket: seq<Record>) {
    forall i, j :: 0 <= i < j < |bucket| ==> bucket[i].gn != bucket[j].gn
  }

  /** The scan finds nothing in an empty bucket and a record of greatest generation otherwise. */
  lemma {:induction false} LatestIsGreatest(bucket: seq<Record>)
    ensures Latest(bucket).None? <==> bucket == []
    ensures Latest(bucket).Some? ==> Latest(bucket).value in bucket
    ensures Latest(bucket).Some? ==> forall r :: r in bucket ==> r.gn <= Latest(bucket).value.gn
  {
    if bucket != [] {
      var init := bucket[..|bucket| - 1];
      LatestIsGreatest(init);
      assert bucket == init + [bucket[|bucket| - 1]];
    }
  }

  /** With distinct generations the result does not depend on the order of iteration. */
  lemma {:induction false} LatestIgnoresOrder(b1: seq<Record>, b2: seq<Record>)
    requires multiset(b1) == multiset(b2) && DistinctGns(b1)
    ensures Latest(b1) == Latest(b2)
  {
    LatestIsGreatest(b1);
    LatestIsGreatest(b2);
    if b1 == [] {
      assert |multiset(b2)| == 0;
    } else {
      assert |multiset(b1)| > 0;
      var r1, r2 := Latest(b1).value, Latest(b2).value;
      assert r1 in multiset(b1) && r2 in multiset(b2);
      assert r1 in b2 && r2 in b1;
    }
  }

  /** The name under which a record goes over the wire: its id, an underscore, its generation. */
  lemma {:induction false} NameReads(r: Record)
    ensures Names(r.Name(), r.id, r.gn)
  {
    InstanceNameReads(r.id, r.gn);
  }

  // ----- the invariant

  ghost predicate Known(h: seq<Issue>, r: Record) {
    r.gn < |h| && h[r.gn].r == r
  }

  /** No generation number has been handed out twice. */
  ghost predicate Numbered(h: seq<Issue>) {
    forall i :: 0 <= i < |h| ==> h[i].r.gn == i
  }

  function LifeOf(t: nat, task: Task): Life {
    match task
    case Posting(_) => Pending(t)
    case Inserting(_) => Created(t)
    case Deleting(_) => Removing(t)
  }

  ghost predicate TasksOk(tasks: map<nat, Task>, h: seq<Issue>) {
    forall t :: t in tasks ==> Known(h, tasks[t].r) && h[tasks[t].r.gn].life == LifeOf(t, tasks[t])
  }

  ghost predicate BucketOk(bucket: seq<Record>, id: nat, h: seq<Issue>) {
    && DistinctGns(bucket)
    && forall r :: r in bucket ==> r.id == id && Known(h, r) && h[r.gn].life == Stored
  }

  ghost predicate TableOk(table: Table, h: seq<Issue>) {
    forall id :: id in table ==> BucketOk(table[id], id, h)
  }

  /** The history agrees with where the record really is. */
  ghost predicate Placed(table: Table, tasks: map<nat, Task>, x: Issue) {
    match x.life
    case Pending(t) => t in tasks && tasks[t] == Posting(x.r)
    case Created(t) => t in tasks && tasks[t] == Inserting(x.r)
    case Removing(t) => t in tasks && tasks[t] == Deleting(x.r)
    case Stored => x.r in Bucket(table, x.r.id)
    case _ => true
  }

  ghost predicate PlacesOk(table: Table, tasks: map<nat, Task>, h: seq<Issue>) {
    forall i :: 0 <= i < |h| ==> Placed(table, tasks, h[i])
  }

  ghost predicate DeleteLogged(log: seq<Event>, r: Record) {
    DeleteSent(r, true) in log || DeleteSent(r, false) in log
  }

  /** The history agrees with what was sent to the metadata service. */
  ghost predicate Logged(log: seq<Event>, x: Issue) {
    && (Posted(x.r, true) in log <==> !x.life.Pending? && !x.life.Failed?)
    && (Posted(x.r, false) in log <==> x.life.Failed?)
    && forall ok :: DeleteSent(x.r, ok) in log <==> x.life == Deleted(ok)
  }

  /** At most one creation and one deletion per record, in this order. */
  ghost predicate InOrder(log: seq<Event>) {
    forall i, j :: 0 <= i < j < |log| && log[i].r == log[j].r ==> log[i].Posted? && log[i].ok && log[j].DeleteSent?
  }

  ghost predicate LogOk(log: seq<Event>, h: seq<Issue>) {
    && (forall e :: e in log ==> Known(h, e.r))
    && (forall i :: 0 <= i < |h| ==> Logged(log, h[i]))
    && InOrder(log)
  }

  ghost predicate Inv(s: State) {
    && |s.history| <= TWO_64 && s.gn == |s.history| % TWO_64
    && Numbered(s.history)
    && TasksOk(s.tasks, s.history)
    && TableOk(s.table, s.history)
    && PlacesOk(s.table, s.tasks, s.history)
    && LogOk(s.log, s.history)
  }

  // ----- handing out a generation

  lemma {:induction false} BeginKeeps(s: State, step: Step)
    requires Inv(s) && step.Begin? && Enabled(s, step) && |s.history| < TWO_64
    ensures Inv(Next(s, step))
  {
    var s' := Next(s, step);
    var x := s'.history[|s.history|];
    assert forall r :: Known(s.history, r) ==> Known(s'.history, r) && s'.history[r.gn] == s.history[r.gn];
    assert Logged(s.log, x) by {
      assert !Known(s.history, x.r);
    }
    assert Placed(s'.table, s'.tasks, x);
    forall i | 0 <= i < |s.history|
      ensures Placed(s'.table, s'.tasks, s'.history[i])
    {
      assert Placed(s.table, s.tasks, s.history[i]);
    }
  }

  // ----- a task moves on

  /** The tasks after task `t` has finished or has become `task'`. */
  function Moved(tasks: map<nat, Task>, t: nat, task': Option<Task>): map<nat, Task> {
    match task'
    case None => tasks - {t}
    case Some(n) => tasks[t := n]
  }

  lemma {:induction false} MoveTasks(tasks: map<nat, Task>, h: seq<Issue>, t: nat, task': Option<Task>, life: Life)
    requires TasksOk(tasks, h) && Numbered(h) && t in tasks
    requires task'.Some? ==> task'.value.r == tasks[t].r && life == LifeOf(t, task'.value)
    ensures TasksOk(Moved(tasks, t, task'), SetLife(h, tasks[t].r, life))
  {
    var r := tasks[t].r;
    var tasks', h' := Moved(tasks, t, task'), SetLife(h, r, life);
    forall u | u in tasks'
      ensures Known(h', tasks'[u].r) && h'[tasks'[u].r.gn].life == LifeOf(u, tasks'[u])
    {
      if u != t {
        assert tasks[u].r.gn != r.gn;
      }
    }
  }

  lemma {:induction false} MoveTable(table: Table, h: seq<Issue>, r: Record, life: Life)
    requires TableOk(table, h) && Known(h, r) && h[r.gn].life != Stored
    ensures TableOk(table, SetLife(h, r, life))
  {
    var h' := SetLife(h, r, life);
    forall id | id in table
      ensures BucketOk(table[id], id, h')
    {
      assert BucketOk(table[id], id, h);
    }
  }

  lemma {:induction false} MovePlaces(
    table: Table, tasks: map<nat, Task>, h: seq<Issue>, t: nat, task': Option<Task>, life: Life)
    requires PlacesOk(table, tasks, h) && Numbered(h) && TasksOk(tasks, h) && t in tasks
    requires task'.Some? ==> task'.value.r == tasks[t].r && life == LifeOf(t, task'.value)
    requires task'.None? ==> life.Failed? || life.Deleted?
    ensures PlacesOk(table, Moved(tasks, t, task'), SetLife(h, tasks[t].r, life))
  {
    var r := tasks[t].r;
    var tasks', h' := Moved(tasks, t, task'), SetLife(h, r, life);
    forall i | 0 <= i < |h'|
      ensures Placed(table, tasks', h'[i])
    {
      assert Placed(table, tasks, h[i]);
      if i != r.gn {
        assert h'[i] == h[i];
      }
    }
  }

  // ----- what is sent

  lemma {:induction false} AppendLog(log: seq<Event>, h: seq<Issue>, e: Event, life: Life)
    requires LogOk(log, h) && Numbered(h) && Known(h, e.r)
    requires if e.Posted? then h[e.r.gn].life.Pending? && (if e.ok then life.Created? else life.Failed?)
             else h[e.r.gn].life.Removing? && life == Deleted(e.ok)
    ensures LogOk(log + [e], SetLife(h, e.r, life))
  {
    var log', h' := log + [e], SetLife(h, e.r, life);
    assert Logged(log, h[e.r.gn]);
    AppendOrdered(log, e);
    forall i | 0 <= i < |h'|
      ensures Logged(log', h'[i])
    {
      assert Logged(log, h[i]);
      AppendMembers(log, e, h[i].r);
    }
  }

  lemma {:induction false} AppendMembers(log: seq<Event>, e: Event, r: Record)
    ensures forall ok :: Posted(r, ok) in log + [e] <==> Posted(r, ok) in log || e == Posted(r, ok)
    ensures forall ok :: DeleteSent(r, ok) in log + [e] <==> DeleteSent(r, ok) in log || e == DeleteSent(r, ok)
  {
  }

  lemma {:induction false} AppendOrdered(log: seq<Event>, e: Event)
    requires InOrder(log)
    requires Posted(e.r, false) !in log && !DeleteLogged(log, e.r)
    requires e.Posted? ==> Posted(e.r, true) !in log
    ensures InOrder(log + [e])
  {
    forall i | 0 <= i < |log| && log[i].r == e.r
      ensures log[i].Posted? && log[i].ok && e.DeleteSent?
    {
      assert log[i] in log;
    }
  }

  lemma {:induction false} PostKeeps(s: State, step: Step)
    requires Inv(s) && step.Post? && Enabled(s, step)
    ensures Inv(Next(s, step))
  {
    var t, r := step.t, s.tasks[step.t].r;
    var life := if step.ok then Created(t) else Failed;
    var task' := if step.ok then Some(Inserting(r)) else None;
    MoveTasks(s.tasks, s.history, t, task', life);
    MoveTable(s.table, s.history, r, life);
    MovePlaces(s.table, s.tasks, s.history, t, task', life);
    AppendLog(s.log, s.history, Posted(r, step.ok), life);
    var s' := Next(s, step);
    assert s'.tasks == Moved(s.tasks, t, task') && s'.table == s.table;
    assert s'.history == SetLife(s.history, r, life) && s'.log == s.log + [Posted(r, step.ok)];
    assert Numbered(s'.history);
  }

  lemma {:induction false} SendDeleteKeeps(s: State, step: Step)
    requires Inv(s) && step.SendDelete? && Enabled(s, step)
    ensures Inv(Next(s, step))
  {
    var t, r := step.t, s.tasks[step.t].r;
    MoveTasks(s.tasks, s.history, t, None, Deleted(step.ok));
    MoveTable(s.table, s.history, r, Deleted(step.ok));
    MovePlaces(s.table, s.tasks, s.history, t, None, Deleted(step.ok));
    AppendLog(s.log, s.history, DeleteSent(r, step.ok), Deleted(step.ok));
  }

  // ----- insertion

  lemma {:induction false} AddBucket(b: seq<Record>, h: seq<Issue>, r: Record, at: nat)
    requires BucketOk(b, r.id, h) && Known(h, r) && h[r.gn].life != Stored && at <= |b|
    ensures BucketOk(b[..at] + [r] + b[at..], r.id, SetLife(h, r, Stored))
  {
    var b', h' := b[..at] + [r] + b[at..], SetLife(h, r, Stored);
    forall x | x in b
      ensures x.gn != r.gn
    {
      assert Known(h, x);
    }
    forall x | x in b'
      ensures x.id == r.id && Known(h', x) && h'[x.gn].life == Stored
    {
      assert x == r || x in b;
    }
    AddDistinct(b, r, at);
  }

  lemma {:induction false} AddDistinct(b: seq<Record>, r: Record, at: nat)
    requires DistinctGns(b) && at <= |b| && forall x :: x in b ==> x.gn != r.gn
    ensures DistinctGns(b[..at] + [r] + b[at..])
  {
    var b' := b[..at] + [r] + b[at..];
    forall i, j | 0 <= i < j < |b'|
      ensures b'[i].gn != b'[j].gn
    {
      if i == at {
        assert b'[j] == b[j - 1] && b[j - 1] in b;
      } else if j == at {
        assert b'[i] == b[i] && b[i] in b;
      } else {
        assert b'[i] == b[if i < at then i else i - 1] && b'[j] == b[if j < at then j else j - 1];
      }
    }
  }

  lemma {:induction false} AddTable(table: Table, h: seq<Issue>, r: Record, at: nat)
    requires TableOk(table, h) && Known(h, r) && h[r.gn].life != Stored
    requires at <= |Bucket(table, r.id)|
    ensures TableOk(Add(table, r, at), SetLife(h, r, Stored))
  {
    MoveTable(table, h, r, Stored);
    AddBucket(Bucket(table, r.id), h, r, at);
  }

  lemma {:induction false} AddPlaces(table: Table, tasks: map<nat, Task>, h: seq<Issue>, t: nat, at: nat)
    requires PlacesOk(table, tasks, h) && Numbered(h) && TasksOk(tasks, h) && t in tasks
    requires at <= |Bucket(table, tasks[t].r.id)|
    ensures PlacesOk(Add(table, tasks[t].r, at), tasks - {t}, SetLife(h, tasks[t].r, Stored))
  {
    var r := tasks[t].r;
    var b := Bucket(table, r.id);
    var table', h' := Add(table, r, at), SetLife(h, r, Stored);
    assert b == b[..at] + b[at..];
    assert forall x :: x in b || x == r ==> x in Bucket(table', r.id);
    forall i | 0 <= i < |h'|
      ensures Placed(table', tasks - {t}, h'[i])
    {
      assert Placed(table, tasks, h[i]);
      if i != r.gn {
        assert h'[i] == h[i];
      }
    }
  }

  /** A change of life between states that look alike to the metadata service. */
  ghost predicate SameLogged(h: seq<Issue>, h': seq<Issue>) {
    && |h'| == |h|
    && forall i :: 0 <= i < |h| ==>
         && h'[i].r == h[i].r
         && (h'[i].life == h[i].life || (SentOnly(h[i].life) && SentOnly(h'[i].life)))
  }

  predicate SentOnly(l: Life) {
    l.Created? || l.Stored? || l.Removing? || l.Dropped?
  }

  lemma {:induction false} KeepLog(log: seq<Event>, h: seq<Issue>, h': seq<Issue>)
    requires LogOk(log, h) && SameLogged(h, h')
    ensures LogOk(log, h')
  {
    forall i | 0 <= i < |h'|
      ensures Logged(log, h'[i])
    {
      assert Logged(log, h[i]);
    }
  }

  lemma {:induction false} InsertKeeps(s: State, step: Step)
    requires Inv(s) && step.Insert? && Enabled(s, step)
    ensures Inv(Next(s, step))
  {
    var r := s.tasks[step.t].r;
    MoveTasks(s.tasks, s.history, step.t, None, Stored);
    AddTable(s.table, s.history, r, step.at);
    AddPlaces(s.table, s.tasks, s.history, step.t, step.at);
    KeepLog(s.log, s.history, SetLife(s.history, r, Stored));
  }

  // ----- erasure

  lemma {:induction false} EraseTasks(
    tasks: map<nat, Task>, h: seq<Issue>, bucket: seq<Record>, id: nat, latest: Record, t: nat)
    requires TasksOk(tasks, h) && BucketOk(bucket, id, h) && latest in bucket && t !in tasks
    ensures TasksOk(tasks[t := Deleting(latest)], EraseLife(h, bucket, latest, t))
  {
    var tasks', h' := tasks[t := Deleting(latest)], EraseLife(h, bucket, latest, t);
    forall u | u in tasks'
      ensures Known(h', tasks'[u].r) && h'[tasks'[u].r.gn].life == LifeOf(u, tasks'[u])
    {
      if u != t {
        assert h[tasks[u].r.gn].life != Stored;
        assert tasks[u].r !in bucket;
      }
    }
  }

  lemma {:induction false} EraseTable(table: Table, h: seq<Issue>, id: nat, latest: Record, t: nat)
    requires TableOk(table, h) && latest in Bucket(table, id)
    ensures TableOk(table - {id}, EraseLife(h, Bucket(table, id), latest, t))
  {
    var bucket := table[id];
    assert BucketOk(bucket, id, h);
    var h' := EraseLife(h, bucket, latest, t);
    forall i | i in table && i != id
      ensures BucketOk(table[i], i, h')
    {
      assert BucketOk(table[i], i, h);
      assert forall r :: r in table[i] ==> r !in bucket && r != latest;
    }
  }

  lemma {:induction false} ErasePlaces(
    table: Table, tasks: map<nat, Task>, h: seq<Issue>, id: nat, latest: Record, t: nat)
    requires PlacesOk(table, tasks, h) && TableOk(table, h)
    requires latest in Bucket(table, id) && t !in tasks
    ensures PlacesOk(table - {id}, tasks[t := Deleting(latest)], EraseLife(h, Bucket(table, id), latest, t))
  {
    var bucket := Bucket(table, id);
    assert BucketOk(bucket, id, h);
    var h' := EraseLife(h, bucket, latest, t);
    forall i | 0 <= i < |h'|
      ensures Placed(table - {id}, tasks[t := Deleting(latest)], h'[i])
    {
      assert Placed(table, tasks, h[i]);
      ErasePlaced(table, tasks, h[i], h'[i], id, latest, t);
    }
  }

  lemma {:induction false} ErasePlaced(
    table: Table, tasks: map<nat, Task>, x: Issue, x': Issue, id: nat, latest: Record, t: nat)
    requires Placed(table, tasks, x) && t !in tasks
    requires x'.r == x.r
    requires x'.life == if x.r == latest then Removing(t) else if x.r in Bucket(table, id) then Dropped else x.life
    ensures Placed(table - {id}, tasks[t := Deleting(latest)], x')
  {
  }

  lemma {:induction false} EraseLog(
    log: seq<Event>, h: seq<Issue>, bucket: seq<Record>, id: nat, latest: Record, t: nat)
    requires LogOk(log, h) && BucketOk(bucket, id, h) && latest in bucket && Numbered(h)
    ensures LogOk(log, EraseLife(h, bucket, latest, t))
  {
    var h' := EraseLife(h, bucket, latest, t);
    forall i | 0 <= i < |h|
      ensures h'[i].life == h[i].life || (SentOnly(h[i].life) && SentOnly(h'[i].life))
    {
      if h[i].r in bucket {
        assert h[h[i].r.gn].life == Stored;
      }
    }
    KeepLog(log, h, h');
  }

  lemma {:induction false} EraseKeeps(s: State, step: Step)
    requires Inv(s) && step.EraseAll? && Enabled(s, step)
    ensures Inv(Next(s, step))
  {
    var bucket := Bucket(s.table, step.id);
    LatestIsGreatest(bucket);
    var (table, outcome) := Erase(s.table, step.id, step.pid, step.uid);
    if outcome.Erased? {
      var latest := outcome.latest;
      assert BucketOk(bucket, step.id, s.history);
      EraseTasks(s.tasks, s.history, bucket, step.id, latest, step.t);
      EraseTable(s.table, s.history, step.id, latest, step.t);
      ErasePlaces(s.table, s.tasks, s.history, step.id, latest, step.t);
      EraseLog(s.log, s.history, bucket, step.id, latest, step.t);
    } else if outcome.NotFound? {
      KeepPlaces(s.table, s.tasks, s.history, step.id);
    }
  }

  lemma {:induction false} KeepPlaces(table: Table, tasks: map<nat, Task>, h: seq<Issue>, id: nat)
    requires PlacesOk(table, tasks, h)
    requires Bucket(table, id) == []
    ensures PlacesOk(table - {id}, tasks, h)
  {
    forall i | 0 <= i < |h|
      ensures Placed(table - {id}, tasks, h[i])
    {
      assert Placed(table, tasks, h[i]);
    }
  }

  lemma {:induction false} StepKeeps(s: State, step: Step)
    requires Inv(s) && Enabled(s, step) && |Next(s, step).history| <= TWO_64
    ensures Inv(Next(s, step))
  {
    match step
    case Begin(_, _, _) => BeginKeeps(s, step);
    case Post(_, _) => PostKeeps(s, step);
    case Insert(_, _) => InsertKeeps(s, step);
    case EraseAll(_, _, _, _) => EraseKeeps(s, step);
    case SendDelete(_, _) => SendDeleteKeeps(s, step);
  }
}
