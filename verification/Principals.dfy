/**
The principal table of the attestation manager and the interleaving of its handlers: each handler
is cut into the steps that are atomic in the code, and any number of handlers run side by side.
 */
module Principals {
  import opened Wrappers
  import opened Words
  import opened Numbers

  /** One generation of a principal; `speaker` is the process that created it. */
  datatype Record = Record(id: Uint64, gn: Uint64, speaker: nat) {
    /** The name under which the metadata service knows it. */
    function Name(): string {
      InstanceName(id, gn)
    }
  }

  /** The multimap: for each id its records in the order in which iteration meets them. */
  type Table = map<nat, seq<Record>>

  function Bucket(table: Table, id: nat): seq<Record> {
    if id in table then table[id] else []
  }

  /** The scan for the latest generation: on a tie the record met last wins. */
  function Latest(bucket: seq<Record>): Option<Record> {
    if bucket == [] then None else
      var before, r := Latest(bucket[..|bucket| - 1]), bucket[|bucket| - 1];
      if before.None? || before.value.gn <= r.gn then Some(r) else before
  }

  /** Insertion under the lock; where in the bucket the record lands is up to the hash table. */
  function Add(table: Table, r: Record, at: nat): Table
    requires at <= |Bucket(table, r.id)|
  {
    var b := Bucket(table, r.id);
    table[r.id := b[..at] + [r] + b[at..]]
  }

  datatype Erasure = NotFound | Refused | Erased(latest: Record)

  /** The locked part of a deletion: scan, check the caller, erase every generation of the id. */
  function Erase(table: Table, id: nat, pid: nat, uid: nat): (Table, Erasure) {
    match Latest(Bucket(table, id))
    case None => (table - {id}, NotFound)
    case Some(latest) =>
      if latest.speaker != pid && uid != 0 then (table, Refused)
      else (table - {id}, Erased(latest))
  }

  // ----- concurrent handlers

  /** Where a handler stands between two atomic steps. */
  datatype Task =
    | Posting(r: Record)    // has its generation number, remote creation still to be sent
    | Inserting(r: Record)  // remote creation succeeded, local insertion still to come
    | Deleting(r: Record)   // erased locally, remote deletion still to be sent

  /** Requests to the metadata service; `ok` tells whether it succeeded. */
  datatype Event = Posted(r: Record, ok: bool) | DeleteSent(r: Record, ok: bool)

  /** What has become of an issued generation. */
  datatype Life =
    | Pending(t: nat)
    | Failed
    | Created(t: nat)
    | Stored
    | Removing(t: nat)
    | Deleted(ok: bool)
    | Dropped

  datatype Issue = Issue(r: Record, life: Life)

  /** The manager, its running handlers, and two histories: the remote requests and the issued generations. */
  datatype State = State(
    gn: Uint64,
    table: Table,
    tasks: map<nat, Task>,
    log: seq<Event>,
    history: seq<Issue>)

  datatype Step =
    | Begin(t: nat, id: Uint64, pid: nat)
    | Post(t: nat, ok: bool)
    | Insert(t: nat, at: nat)
    | EraseAll(t: nat, id: Uint64, pid: nat, uid: nat)
    | SendDelete(t: nat, ok: bool)

  const START := State(0, map[], map[], [], [])

  predicate Enabled(s: State, step: Step) {
    match step
    case Begin(t, _, _) => t !in s.tasks
    case Post(t, _) => t in s.tasks && s.tasks[t].Posting?
    case Insert(t, at) => t in s.tasks && s.tasks[t].Inserting? && at <= |Bucket(s.table, s.tasks[t].r.id)|
    case EraseAll(t, _, _, _) => t !in s.tasks
    case SendDelete(t, _) => t in s.tasks && s.tasks[t].Deleting?
  }

  function SetLife(h: seq<Issue>, r: Record, life: Life): (h': seq<Issue>)
    ensures |h'| == |h|
  {
    if r.gn < |h| then h[r.gn := h[r.gn].(life := life)] else h
  }

  /** An erasure by task `t` that found `latest`: only that one is going to be deleted remotely. */
  function EraseLife(h: seq<Issue>, bucket: seq<Record>, latest: Record, t: nat): (h': seq<Issue>)
    ensures |h'| == |h|
    ensures forall i :: 0 <= i < |h| ==>
              && h'[i].r == h[i].r
              && h'[i].life == if h[i].r == latest then Removing(t) else if h[i].r in bucket then Dropped else h[i].life
  {
    seq(|h|, i requires 0 <= i < |h| =>
      h[i].(life := if h[i].r == latest then Removing(t) else if h[i].r in bucket then Dropped else h[i].life))
  }

  function Next(s: State, step: Step): State
    requires Enabled(s, step)
  {
    match step
    case Begin(t, id, pid) =>
      var r := Record(id, s.gn, pid);
      s.(gn := (s.gn + 1) % TWO_64, tasks := s.tasks[t := Posting(r)],
         history := s.history + [Issue(r, Pending(t))])
    case Post(t, ok) =>
      var r := s.tasks[t].r;
      s.(tasks := if ok then s.tasks[t := Inserting(r)] else s.tasks - {t},
         log := s.log + [Posted(r, ok)],
         history := SetLife(s.history, r, if ok then Created(t) else Failed))
    case Insert(t, at) =>
      var r := s.tasks[t].r;
      s.(table := Add(s.table, r, at), tasks := s.tasks - {t}, history := SetLife(s.history, r, Stored))
    case EraseAll(t, id, pid, uid) =>
      var (table, outcome) := Erase(s.table, id, pid, uid);
      if outcome.Erased? then
        s.(table := table, tasks := s.tasks[t := Deleting(outcome.latest)],
           history := EraseLife(s.history, Bucket(s.table, id), outcome.latest, t))
      else
        s.(table := table)
    case SendDelete(t, ok) =>
      var r := s.tasks[t].r;
      s.(tasks := s.tasks - {t}, log := s.log + [DeleteSent(r, ok)], history := SetLife(s.history, r, Deleted(ok)))
  }

  /** A run: any interleaving of enabled steps. */
  ghost predicate IsRun(s: State, steps: seq<Step>, s': State)
    decreases |steps|
  {
    if steps == [] then s == s' else Enabled(s, steps[0]) && IsRun(Next(s, steps[0]), steps[1..], s')
  }
}
