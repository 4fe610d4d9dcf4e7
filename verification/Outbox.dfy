/** Session reports and their outbox, with a crash possible between any two file operations. */
module Outbox {
  import opened Bytes

  type Id = int

  /** Everything a report says, other than the bookkeeping below. */
  type Content = int

  datatype Report = Report(
    id: Id,
    content: Content,
    agentSession: Option<int>,
    pendingFlush: bool,
    lastFlushedAt: Option<int>,
    flushState: string)

  datatype Transport = Direct | Spool | End

  /** Equal except in the flush fields and the agent session. */
  predicate SameReport(a: Report, b: Report) { a.id == b.id && a.content == b.content }

  // ----- the disk -----

  datatype Disk = Disk(stored: map<Id, Report>, outbox: seq<Report>)

  datatype Write = Save(report: Report) | Append(report: Report)

  function Apply(disk: Disk, w: Write): Disk {
    match w
    case Save(report) => disk.(stored := disk.stored[report.id := report])
    case Append(report) => disk.(outbox := disk.outbox + [report])
  }

  function ApplyAll(disk: Disk, writes: seq<Write>): Disk
    decreases |writes|
  {
    if |writes| == 0 then disk else ApplyAll(Apply(disk, writes[0]), writes[1..])
  }

  predicate Delivered(outbox: seq<Report>, report: Report) {
    exists i | 0 <= i < |outbox| :: SameReport(outbox[i], report)
  }

  /** Every report stored under its own name, and every one not pending already in the outbox. */
  ghost predicate Consistent(disk: Disk) {
    forall id | id in disk.stored ::
      disk.stored[id].id == id && (!disk.stored[id].pendingFlush ==> Delivered(disk.outbox, disk.stored[id]))
  }

  // ----- what each operation writes -----

  function MarkPending(r: Report): Report { r.(pendingFlush := true, flushState := "pending-local") }

  function Flushed(r: Report, now: int): Report {
    r.(pendingFlush := false, lastFlushedAt := Some(now), flushState := "queued-local")
  }

  /** Append first, save as flushed second. */
  function EnqueueWrites(r: Report, now: int): seq<Write> { [Append(r), Save(Flushed(r, now))] }

  /** Registry synchronisation saves the report again when it had to create a registry entry. */
  function SyncWrites(r: Report, created: Option<int>): seq<Write> {
    if created.Some? then [Save(r.(agentSession := created))] else []
  }

  /** The environment's choices for one operation: the clock, and for each synchronisation the entry it creates, if
      any. */
  datatype Env = Env(now: int, firstSync: Option<int>, secondSync: Option<int>)

  datatype Op =
    | Open(report: Report, transport: Transport)
    | Update(id: Id, content: Content, transport: Transport)
    | Close(id: Id, content: Content, transport: Transport)
    | Flush(target: Option<Id>)

  function OpenWrites(r: Report, transport: Transport, env: Env): seq<Write> {
    [Save(r)] + SyncWrites(r, env.firstSync) +
    (if transport == Direct then EnqueueWrites(r, env.now) + SyncWrites(Flushed(r, env.now), env.secondSync) else [])
  }

  /** Mark pending and persist: directly to the outbox, or to the report file to be flushed later. */
  function PersistWrites(r: Report, enqueue: bool, env: Env): seq<Write> {
    if enqueue then EnqueueWrites(r, env.now) + SyncWrites(Flushed(r, env.now), env.firstSync)
    else [Save(r)] + SyncWrites(r, env.firstSync)
  }

  /** Each listed session in turn: load its report, and enqueue it if it is still pending. */
  function FlushWrites(disk: Disk, ids: seq<Id>, envs: Id -> Env): seq<Write>
    decreases |ids|
  {
    if |ids| == 0 then []
    else if ids[0] in disk.stored && disk.stored[ids[0]].pendingFlush then
      var head := PersistWrites(disk.stored[ids[0]], true, envs(ids[0]));
      head + FlushWrites(ApplyAll(disk, head), ids[1..], envs)
    else FlushWrites(disk, ids[1..], envs)
  }

  /** Nothing is written for a session with no report: the operation fails.  `pending` is what listing the
      report files found. */
  function OpWrites(disk: Disk, op: Op, pending: seq<Id>, env: Env, envs: Id -> Env): seq<Write> {
    match op
    case Open(report, transport) => OpenWrites(MarkPending(report), transport, env)
    case Update(id, content, transport) =>
      if id in disk.stored
      then PersistWrites(MarkPending(disk.stored[id].(content := content)), transport == Direct, env) else []
    case Close(id, content, transport) =>
      if id in disk.stored
      then PersistWrites(MarkPending(disk.stored[id].(content := content)), transport != Spool, env) else []
    case Flush(target) => FlushWrites(disk, if target.Some? then [target.value] else pending, envs)
  }

  // ----- executing writes until the machine stops -----

  /** The disk, how many more file operations will complete, and whether the process has died. */
  datatype Machine = Machine(disk: Disk, fuel: nat, crashed: bool)

  function Exec(m: Machine, writes: seq<Write>): Machine
    decreases |writes|
  {
    if |writes| == 0 || m.crashed then m
    else if m.fuel == 0 then m.(crashed := true)
    else Exec(Machine(Apply(m.disk, writes[0]), m.fuel - 1, false), writes[1..])
  }

  lemma {:induction false} ExecAppend(m: Machine, a: seq<Write>, b: seq<Write>)
    ensures Exec(m, a + b) == Exec(Exec(m, a), b)
    decreases |a|
  {
    hide Apply;
    if |a| == 0 {
      assert a + b == b;
    } else if !m.crashed && m.fuel > 0 {
      ExecAppend(Machine(Apply(m.disk, a[0]), m.fuel - 1, false), a[1..], b);
      assert (a + b)[1..] == a[1..] + b;
    }
  }

  lemma {:induction false} ExecCompletes(m: Machine, writes: seq<Write>)
    requires !m.crashed
    ensures !Exec(m, writes).crashed <==> |writes| <= m.fuel
    ensures |writes| <= m.fuel ==> Exec(m, writes).disk == ApplyAll(m.disk, writes)
    decreases |writes|
  {
    hide Apply;
    if |writes| > 0 && m.fuel > 0 {
      ExecCompletes(Machine(Apply(m.disk, writes[0]), m.fuel - 1, false), writes[1..]);
    }
  }

  // ----- one write at a time keeps consistency -----

  /** A write that cannot break consistency: an append, or saving something pending or already delivered. */
  ghost predicate SafeWrite(disk: Disk, w: Write) {
    w.Append? || w.report.pendingFlush || Delivered(disk.outbox, w.report)
  }

  lemma SafeWriteKeeps(disk: Disk, w: Write)
    requires Consistent(disk) && SafeWrite(disk, w)
    ensures Consistent(Apply(disk, w))
  {
    var next := Apply(disk, w);
    forall id | id in next.stored && !next.stored[id].pendingFlush ensures Delivered(next.outbox, next.stored[id]) {
      var report := next.stored[id];
      assert Delivered(disk.outbox, report);
      var i :| 0 <= i < |disk.outbox| && SameReport(disk.outbox[i], report);
      assert SameReport(next.outbox[i], report);
    }
  }

  ghost predicate SafeWrites(disk: Disk, writes: seq<Write>)
    decreases |writes|
  {
    |writes| == 0 || (SafeWrite(disk, writes[0]) && SafeWrites(Apply(disk, writes[0]), writes[1..]))
  }

  /** However many of a safe sequence's writes complete, consistency holds. */
  lemma {:induction false} SafeExecKeeps(m: Machine, writes: seq<Write>)
    requires Consistent(m.disk) && SafeWrites(m.disk, writes)
    ensures Consistent(Exec(m, writes).disk)
    decreases |writes|
  {
    hide Consistent, SafeWrite, Apply;
    if |writes| > 0 && !m.crashed && m.fuel > 0 {
      SafeWriteKeeps(m.disk, writes[0]);
      SafeExecKeeps(Machine(Apply(m.disk, writes[0]), m.fuel - 1, false), writes[1..]);
    }
  }

  lemma {:induction false} SafeAppend(disk: Disk, a: seq<Write>, b: seq<Write>)
    requires SafeWrites(disk, a) && SafeWrites(ApplyAll(disk, a), b)
    ensures SafeWrites(disk, a + b)
    ensures ApplyAll(disk, a + b) == ApplyAll(ApplyAll(disk, a), b)
    decreases |a|
  {
    hide SafeWrite, Apply;
    if |a| == 0 {
      assert a + b == b;
    } else {
      SafeAppend(Apply(disk, a[0]), a[1..], b);
      assert (a + b)[1..] == a[1..] + b;
    }
  }

  lemma OneWrite(disk: Disk, w: Write)
    ensures SafeWrites(disk, [w]) <==> SafeWrite(disk, w)
    ensures ApplyAll(disk, [w]) == Apply(disk, w)
  {
    hide SafeWrite, Apply;
    assert [w][1..] == [];
    assert SafeWrites(Apply(disk, w), [w][1..]);
    assert ApplyAll(Apply(disk, w), [w][1..]) == Apply(disk, w);
  }

  lemma SyncSafe(disk: Disk, r: Report, created: Option<int>)
    requires r.pendingFlush || Delivered(disk.outbox, r)
    ensures SafeWrites(disk, SyncWrites(r, created))
    ensures ApplyAll(disk, SyncWrites(r, created)).outbox == disk.outbox
    ensures ApplyAll(disk, SyncWrites(r, created)).stored ==
            if created.Some? then disk.stored[r.id := r.(agentSession := created)] else disk.stored
  {
    if created.Some? {
      var saved := r.(agentSession := created);
      assert Delivered(disk.outbox, r) ==> Delivered(disk.outbox, saved) by {
        if Delivered(disk.outbox, r) {
          var i :| 0 <= i < |disk.outbox| && SameReport(disk.outbox[i], r);
          assert SameReport(disk.outbox[i], saved);
        }
      }
      OneWrite(disk, Save(saved));
    }
  }

  /** Enqueueing is safe from any disk, and leaves the report stored as flushed and in the outbox. */
  lemma EnqueueSafe(disk: Disk, r: Report, now: int)
    ensures SafeWrites(disk, EnqueueWrites(r, now))
    ensures ApplyAll(disk, EnqueueWrites(r, now)) == Disk(disk.stored[r.id := Flushed(r, now)], disk.outbox + [r])
    ensures Delivered(disk.outbox + [r], Flushed(r, now))
  {
    var appended := Apply(disk, Append(r));
    assert SameReport(appended.outbox[|disk.outbox|], Flushed(r, now));
    OneWrite(disk, Append(r));
    OneWrite(appended, Save(Flushed(r, now)));
    SafeAppend(disk, [Append(r)], [Save(Flushed(r, now))]);
    assert [Append(r)] + [Save(Flushed(r, now))] == EnqueueWrites(r, now);
  }

  lemma PersistSafe(disk: Disk, r: Report, enqueue: bool, env: Env)
    requires r.pendingFlush
    ensures SafeWrites(disk, PersistWrites(r, enqueue, env))
    ensures var after := ApplyAll(disk, PersistWrites(r, enqueue, env));
            after.stored.Keys == disk.stored.Keys + {r.id} &&
            (forall id | id in disk.stored && id != r.id :: after.stored[id] == disk.stored[id]) &&
            after.stored[r.id].pendingFlush == !enqueue && after.stored[r.id].id == r.id &&
            after.outbox == disk.outbox + (if enqueue then [r] else [])
  {
    hide SafeWrites, Delivered;
    if enqueue {
      EnqueueSafe(disk, r, env.now);
      var mid := ApplyAll(disk, EnqueueWrites(r, env.now));
      SyncSafe(mid, Flushed(r, env.now), env.firstSync);
      SafeAppend(disk, EnqueueWrites(r, env.now), SyncWrites(Flushed(r, env.now), env.firstSync));
    } else {
      OneWrite(disk, Save(r));
      SyncSafe(Apply(disk, Save(r)), r, env.firstSync);
      SafeAppend(disk, [Save(r)], SyncWrites(r, env.firstSync));
    }
  }

  lemma OpenSafe(disk: Disk, r: Report, transport: Transport, env: Env)
    requires r.pendingFlush
    ensures SafeWrites(disk, OpenWrites(r, transport, env))
  {
    hide SafeWrites, Delivered, SyncWrites, EnqueueWrites;
    var a, b := [Save(r)], SyncWrites(r, env.firstSync);
    OneWrite(disk, Save(r));
    var disk1 := ApplyAll(disk, a);
    SyncSafe(disk1, r, env.firstSync);
    SafeAppend(disk, a, b);
    if transport == Direct {
      var disk2 := ApplyAll(disk1, b);
      var c, d := EnqueueWrites(r, env.now), SyncWrites(Flushed(r, env.now), env.secondSync);
      EnqueueSafe(disk2, r, env.now);
      SyncSafe(ApplyAll(disk2, c), Flushed(r, env.now), env.secondSync);
      SafeAppend(disk2, c, d);
      SafeAppend(disk, a + b, c + d);
    } else {
      assert a + b + [] == a + b;
    }
  }

  lemma {:induction false} FlushSafe(disk: Disk, ids: seq<Id>, envs: Id -> Env)
    ensures SafeWrites(disk, FlushWrites(disk, ids, envs))
    decreases |ids|
  {
    hide SafeWrites, PersistWrites;
    if |ids| == 0 {
      NoWrites(disk);
    } else if ids[0] in disk.stored && disk.stored[ids[0]].pendingFlush {
      var head := PersistWrites(disk.stored[ids[0]], true, envs(ids[0]));
      PersistSafe(disk, disk.stored[ids[0]], true, envs(ids[0]));
      FlushSafe(ApplyAll(disk, head), ids[1..], envs);
      SafeAppend(disk, head, FlushWrites(ApplyAll(disk, head), ids[1..], envs));
    } else {
      FlushSafe(disk, ids[1..], envs);
    }
  }

  lemma NoWrites(disk: Disk)
    ensures SafeWrites(disk, []) && ApplyAll(disk, []) == disk
  {}

  lemma OpSafe(disk: Disk, op: Op, pending: seq<Id>, env: Env, envs: Id -> Env)
    ensures SafeWrites(disk, OpWrites(disk, op, pending, env, envs))
  {
    hide SafeWrites, OpenWrites, PersistWrites, FlushWrites;
    NoWrites(disk);
    match op {
      case Open(report, transport) => OpenSafe(disk, MarkPending(report), transport, env);
      case Update(id, content, transport) =>
        if id in disk.stored {
          PersistSafe(disk, MarkPending(disk.stored[id].(content := content)), transport == Direct, env);
        }
      case Close(id, content, transport) =>
        if id in disk.stored {
          PersistSafe(disk, MarkPending(disk.stored[id].(content := content)), transport != Spool, env);
        }
      case Flush(target) => FlushSafe(disk, if target.Some? then [target.value] else pending, envs);
    }
  }

  // ----- runs -----

  /** One operation, and how many file operations complete before the process dies. */
  datatype Step = Step(op: Op, pending: seq<Id>, env: Env, envs: Id -> Env, fuel: nat)

  function RunSteps(disk: Disk, steps: seq<Step>): Disk
    decreases |steps|
  {
    if |steps| == 0 then disk
    else
      var s := steps[0];
      RunSteps(Exec(Machine(disk, s.fuel, false), OpWrites(disk, s.op, s.pending, s.env, s.envs)).disk, steps[1..])
  }

  /** Over every run, crashes anywhere included, each stored report not marked pending has an outbox
      entry equal to it except in the flush fields and the agent session. */
  lemma {:induction false} EveryRunIsConsistent(disk: Disk, steps: seq<Step>)
    requires Consistent(disk)
    ensures Consistent(RunSteps(disk, steps))
    decreases |steps|
  {
    hide Consistent, OpWrites, SafeWrites, Exec;
    if |steps| > 0 {
      var s := steps[0];
      OpSafe(disk, s.op, s.pending, s.env, s.envs);
      SafeExecKeeps(Machine(disk, s.fuel, false), OpWrites(disk, s.op, s.pending, s.env, s.envs));
      EveryRunIsConsistent(Exec(Machine(disk, s.fuel, false), OpWrites(disk, s.op, s.pending, s.env, s.envs)).disk,
          steps[1..]);
    }
  }

  lemma NewDiskIsConsistent()
    ensures Consistent(Disk(map[], []))
  {}

  /** From an empty disk, then, whatever was run and wherever it crashed. */
  lemma StoredIsPendingOrDelivered(steps: seq<Step>, id: Id)
    ensures var disk := RunSteps(Disk(map[], []), steps);
            id in disk.stored ==>
              disk.stored[id].id == id && (disk.stored[id].pendingFlush || Delivered(disk.outbox, disk.stored[id]))
  {
    hide RunSteps;
    NewDiskIsConsistent();
    EveryRunIsConsistent(Disk(map[], []), steps);
  }

  // ----- what a completed operation leaves -----

  /** The disk after persisting: the report stored with its content, pending exactly when it was not enqueued, and the
      outbox longer by it exactly when it was; nothing else changed. */
  ghost predicate Persisted(disk: Disk, after: Disk, id: Id, content: Content, enqueued: bool) {
    id in after.stored && after.stored[id].id == id && after.stored[id].content == content &&
    after.stored[id].pendingFlush == !enqueued &&
    after.stored[id].flushState == (if enqueued then "queued-local" else "pending-local") &&
    (if enqueued then
       |after.outbox| == |disk.outbox| + 1 && after.outbox[..|disk.outbox|] == disk.outbox &&
       after.outbox[|disk.outbox|].id == id && after.outbox[|disk.outbox|].content == content
     else after.outbox == disk.outbox) &&
    after.stored.Keys == disk.stored.Keys + {id} &&
    forall other | other in disk.stored && other != id :: after.stored[other] == disk.stored[other]
  }

  lemma PersistLeaves(disk: Disk, r: Report, enqueue: bool, env: Env)
    ensures Persisted(disk, ApplyAll(disk, PersistWrites(MarkPending(r), enqueue, env)), r.id, r.content, enqueue)
  {
    hide SafeWrites, Delivered;
    var p := MarkPending(r);
    PersistSafe(disk, p, enqueue, env);
    if enqueue {
      EnqueueSafe(disk, p, env.now);
      var mid := ApplyAll(disk, EnqueueWrites(p, env.now));
      SyncSafe(mid, Flushed(p, env.now), env.firstSync);
      SafeAppend(disk, EnqueueWrites(p, env.now), SyncWrites(Flushed(p, env.now), env.firstSync));
    } else {
      OneWrite(disk, Save(p));
      SyncSafe(Apply(disk, Save(p)), p, env.firstSync);
      SafeAppend(disk, [Save(p)], SyncWrites(p, env.firstSync));
    }
  }

  /** A completed update stores its content, and reaches the outbox under direct transport only; a completed close
      reaches it under direct and end transport; opening under direct. */
  lemma CompletedOperations(
    disk: Disk, id: Id, content: Content, transport: Transport, env: Env, envs: Id -> Env, report: Report)
    requires Consistent(disk)
    ensures id in disk.stored ==>
              Persisted(disk, ApplyAll(disk, OpWrites(disk, Update(id, content, transport), [], env, envs)), id,
                content, transport == Direct)
    ensures id in disk.stored ==>
              Persisted(disk, ApplyAll(disk, OpWrites(disk, Close(id, content, transport), [], env, envs)), id, content,
                transport == Direct || transport == End)
    ensures id !in disk.stored ==>
              OpWrites(disk, Update(id, content, transport), [], env, envs) == [] &&
              OpWrites(disk, Close(id, content, transport), [], env, envs) == []
    ensures Persisted(disk, ApplyAll(disk, OpWrites(disk, Open(report, transport), [], env, envs)), report.id,
              report.content, transport == Direct)
  {
    hide Persisted, PersistWrites, OpenWrites;
    if id in disk.stored {
      var r := disk.stored[id].(content := content);
      PersistLeaves(disk, r, transport == Direct, env);
      PersistLeaves(disk, r, transport != Spool, env);
    }
    OpenLeaves(disk, report, transport, env);
  }

  lemma OpenLeaves(disk: Disk, r: Report, transport: Transport, env: Env)
    ensures Persisted(disk, ApplyAll(disk, OpenWrites(MarkPending(r), transport, env)), r.id, r.content,
              transport == Direct)
  {
    hide SafeWrites, Delivered, SyncWrites, EnqueueWrites;
    var p := MarkPending(r);
    var a, b := [Save(p)], SyncWrites(p, env.firstSync);
    OneWrite(disk, Save(p));
    var disk1 := ApplyAll(disk, a);
    SyncSafe(disk1, p, env.firstSync);
    SafeAppend(disk, a, b);
    if transport == Direct {
      var disk2 := ApplyAll(disk1, b);
      var c, d := EnqueueWrites(p, env.now), SyncWrites(Flushed(p, env.now), env.secondSync);
      EnqueueSafe(disk2, p, env.now);
      SyncSafe(ApplyAll(disk2, c), Flushed(p, env.now), env.secondSync);
      SafeAppend(disk2, c, d);
      SafeAppend(disk, a + b, c + d);
    } else {
      assert a + b + [] == a + b;
    }
  }

  // ----- a flush that finishes -----

  ghost predicate NamesMatch(stored: map<Id, Report>) { forall id | id in stored :: stored[id].id == id }

  /** Every session still pending is on the list. */
  ghost predicate ListsPending(stored: map<Id, Report>, ids: seq<Id>) {
    forall id | id in stored && stored[id].pendingFlush :: id in ids
  }

  /** What listing the report files returns: exactly the sessions whose reports are pending, in order. */
  ghost predicate IsPendingList(stored: map<Id, Report>, ids: seq<Id>) { PendingAmong(stored, stored.Keys, ids) }

  ghost predicate PendingAmong(stored: map<Id, Report>, files: set<Id>, ids: seq<Id>)
    requires files <= stored.Keys
  {
    Ascending(ids) &&
    (forall file | file in files && stored[file].pendingFlush :: stored[file].id in ids) &&
    (forall id | id in ids :: exists file | file in files :: stored[file].pendingFlush && stored[file].id == id)
  }

  predicate Ascending(ids: seq<Id>) { forall i, j | 0 <= i < j < |ids| :: ids[i] <= ids[j] }

  /** Inserts into an ascending list. */
  function InsertId(ids: seq<Id>, id: Id): (r: seq<Id>)
    requires Ascending(ids)
    ensures Ascending(r)
    ensures forall x :: x in r <==> x in ids || x == id
  {
    if |ids| == 0 then [id]
    else if id <= ids[0] then [id] + ids
    else
      var rest := InsertId(ids[1..], id);
      assert forall x :: x in ids <==> x == ids[0] || x in ids[1..];
      assert forall x :: x in [ids[0]] + rest <==> x == ids[0] || x in rest;
      assert forall k | 0 <= k < |rest| :: ids[0] <= rest[k] by {
        assert forall k | 0 <= k < |rest| :: rest[k] in rest;
      }
      [ids[0]] + rest
  }

  lemma SomeFile(files: set<Id>)
    requires files != {}
    ensures exists file :: file in files
  {
    if forall file :: file !in files { NoFile(files); }
  }

  lemma NoFile(files: set<Id>)
    requires forall file :: file !in files
    ensures files == {}
  {
    assert forall file :: file in files <==> file in {};
    assert files == {};
  }

  lemma NoneCollected(stored: map<Id, Report>)
    ensures PendingAmong(stored, stored.Keys - stored.Keys, [])
  {}

  lemma CollectOne(stored: map<Id, Report>, files: set<Id>, file: Id, ids: seq<Id>)
    requires files <= stored.Keys && file in stored && PendingAmong(stored, files, ids)
    ensures Ascending(ids)
    ensures var next := if stored[file].pendingFlush then InsertId(ids, stored[file].id) else ids;
            PendingAmong(stored, files + {file}, next)
  {
    var next := if stored[file].pendingFlush then InsertId(ids, stored[file].id) else ids;
    forall id | id in next
      ensures exists f | f in files + {file} :: stored[f].pendingFlush && stored[f].id == id
    {
      if id in ids {
        var f :| f in files && stored[f].pendingFlush && stored[f].id == id;
        assert f in files + {file};
      } else {
        assert file in files + {file};
      }
    }
  }

  lemma {:induction false} FlushClears(disk: Disk, ids: seq<Id>, envs: Id -> Env)
    requires NamesMatch(disk.stored) && ListsPending(disk.stored, ids)
    ensures var after := ApplyAll(disk, FlushWrites(disk, ids, envs));
            after.stored.Keys == disk.stored.Keys && ListsPending(after.stored, [])
    decreases |ids|
  {
    hide PersistWrites, SafeWrites, Apply;
    if |ids| > 0 {
      if ids[0] in disk.stored && disk.stored[ids[0]].pendingFlush {
        var report := disk.stored[ids[0]];
        var head := PersistWrites(report, true, envs(ids[0]));
        var mid := ApplyAll(disk, head);
        PersistSafe(disk, report, true, envs(ids[0]));
        FlushSafe(mid, ids[1..], envs);
        SafeAppend(disk, head, FlushWrites(mid, ids[1..], envs));
        forall id | id in mid.stored
          ensures mid.stored[id].id == id && (mid.stored[id].pendingFlush ==> id in ids[1..])
        {
          if id != report.id { assert mid.stored[id] == disk.stored[id]; }
        }
        FlushClears(mid, ids[1..], envs);
        assert mid.stored.Keys == disk.stored.Keys;
      } else {
        FlushClears(disk, ids[1..], envs);
      }
    }
  }

  /** A flush of all sessions that completes leaves nothing pending. */
  lemma CompletedFlushLeavesNothingPending(disk: Disk, pending: seq<Id>, env: Env, envs: Id -> Env, fuel: nat)
    requires Consistent(disk) && IsPendingList(disk.stored, pending)
    requires !Exec(Machine(disk, fuel, false), OpWrites(disk, Flush(None), pending, env, envs)).crashed
    ensures var after := Exec(Machine(disk, fuel, false), OpWrites(disk, Flush(None), pending, env, envs)).disk;
            after.stored.Keys == disk.stored.Keys && forall id | id in after.stored :: !after.stored[id].pendingFlush
  {
    hide FlushWrites, Exec;
    assert NamesMatch(disk.stored) && ListsPending(disk.stored, pending);
    ExecCompletes(Machine(disk, fuel, false), OpWrites(disk, Flush(None), pending, env, envs));
    FlushClears(disk, pending, envs);
  }

  // ----- the store as it runs -----

  class SessionReportStore {
    var stored: map<Id, Report>
    var outbox: seq<Report>
    /** File operations left before the process dies, and whether it has. */
    var fuel: nat
    var crashed: bool

    ghost function State(): Machine
      reads this
    {
      Machine(Disk(stored, outbox), fuel, crashed)
    }

    constructor (disk: Disk, fuel: nat)
      ensures State() == Machine(disk, fuel, false)
    {
      stored, outbox, this.fuel, crashed := disk.stored, disk.outbox, fuel, false;
    }

    method SaveReport(report: Report) returns (r: Result<()>)
      requires !crashed
      modifies this
      ensures State() == Exec(old(State()), [Save(report)]) && (r.Ok? <==> !crashed)
    {
      if fuel == 0 {
        crashed := true;
        return Err;
      }
      fuel, stored := fuel - 1, stored[report.id := report];
      assert [Save(report)][1..] == [];
      r := Ok(());
    }

    method AppendOutbox(report: Report) returns (r: Result<()>)
      requires !crashed
      modifies this
      ensures State() == Exec(old(State()), [Append(report)]) && (r.Ok? <==> !crashed)
    {
      if fuel == 0 {
        crashed := true;
        return Err;
      }
      fuel, outbox := fuel - 1, outbox + [report];
      assert [Append(report)][1..] == [];
      r := Ok(());
    }

    method EnqueueReport(report: Report, now: int) returns (r: Result<Report>)
      requires !crashed
      modifies this
      ensures State() == Exec(old(State()), EnqueueWrites(report, now)) && (r.Ok? <==> !crashed)
      ensures r.Ok? ==> r.value == Flushed(report, now)
    {
      hide Exec;
      ExecAppend(State(), [Append(report)], [Save(Flushed(report, now))]);
      assert [Append(report)] + [Save(Flushed(report, now))] == EnqueueWrites(report, now);
      ExecCrashed(Exec(State(), [Append(report)]), [Save(Flushed(report, now))]);
      var _ :- AppendOutbox(report);
      var flushed := Flushed(report, now);
      var _ :- SaveReport(flushed);
      r := Ok(flushed);
    }

    /** Saves the report again when the registry had no entry and one was created. */
    method SyncRegistry(report: Report, created: Option<int>) returns (r: Result<()>)
      requires !crashed
      modifies this
      ensures State() == Exec(old(State()), SyncWrites(report, created)) && (r.Ok? <==> !crashed)
    {
      if created.Some? {
        r := SaveReport(report.(agentSession := created));
      } else {
        r := Ok(());
      }
    }

    /** Direct transport enqueues now; the others leave the report pending on disk. */
    method PersistReport(report: Report, enqueue: bool, env: Env) returns (r: Result<()>)
      requires !crashed
      modifies this
      ensures State() == Exec(old(State()), PersistWrites(report, enqueue, env)) && (r.Ok? <==> !crashed)
    {
      hide Exec, EnqueueWrites, SyncWrites;
      var kept := report;
      ghost var head := if enqueue then EnqueueWrites(report, env.now) else [Save(report)];
      ghost var tail := SyncWrites(if enqueue then Flushed(report, env.now) else report, env.firstSync);
      ExecAppend(State(), head, tail);
      ExecCrashed(Exec(State(), head), tail);
      if enqueue {
        kept :- EnqueueReport(report, env.now);
      } else {
        var _ :- SaveReport(report);
      }
      r := SyncRegistry(kept, env.firstSync);
    }

    method OpenSession(report: Report, transport: Transport, env: Env) returns (r: Result<()>)
      requires !crashed
      modifies this
      ensures State() == Exec(old(State()), OpenWrites(MarkPending(report), transport, env)) && (r.Ok? <==> !crashed)
    {
      hide Exec, EnqueueWrites, SyncWrites;
      var started := MarkPending(report);
      ghost var a, b := [Save(started)], SyncWrites(started, env.firstSync);
      ghost var c, d := EnqueueWrites(started, env.now), SyncWrites(Flushed(started, env.now), env.secondSync);
      ghost var start := State();
      assert a + b + [] == a + b && (a + b) + (c + d) == OpenWrites(started, Direct, env);
      ExecAppend(start, a, b);
      ExecAppend(start, a + b, c + d);
      ExecAppend(Exec(start, a + b), c, d);
      ExecCrashed(Exec(start, a), b);
      ExecCrashed(Exec(start, a + b), c + d);
      ExecCrashed(Exec(Exec(start, a + b), c), d);
      var _ :- SaveReport(started);
      var _ :- SyncRegistry(started, env.firstSync);
      if transport == Direct {
        var flushed :- EnqueueReport(started, env.now);
        var _ :- SyncRegistry(flushed, env.secondSync);
      }
      r := Ok(());
    }

    /** Progress, usage and touched-path updates differ only in what they change in the report. */
    method UpdateSession(id: Id, content: Content, transport: Transport, env: Env) returns (r: Result<()>)
      requires !crashed
      modifies this
      ensures var writes := OpWrites(old(State()).disk, Update(id, content, transport), [], env, _ => env);
              State() == Exec(old(State()), writes)
      ensures r.Ok? <==> id in old(stored) && !crashed
    {
      hide Exec;
      NoExec(State());
      if id !in stored {
        return Err;
      }
      r := PersistReport(MarkPending(stored[id].(content := content)), transport == Direct, env);
    }

    method CloseSession(id: Id, content: Content, transport: Transport, env: Env) returns (r: Result<()>)
      requires !crashed
      modifies this
      ensures var writes := OpWrites(old(State()).disk, Close(id, content, transport), [], env, _ => env);
              State() == Exec(old(State()), writes)
      ensures r.Ok? <==> id in old(stored) && !crashed
    {
      hide Exec;
      NoExec(State());
      if id !in stored {
        return Err;
      }
      r := PersistReport(MarkPending(stored[id].(content := content)), transport != Spool, env);
    }

    /** Reads every report file, in whatever order the directory lists them, then sorts. */
    method ListPending() returns (ids: seq<Id>)
      ensures IsPendingList(stored, ids)
    {
      hide PendingAmong;
      ids := [];
      var files := stored.Keys;
      NoneCollected(stored);
      while files != {}
        invariant files <= stored.Keys && PendingAmong(stored, stored.Keys - files, ids)
      {
        SomeFile(files);
        var file :| file in files;
        CollectOne(stored, stored.Keys - files, file, ids);
        if stored[file].pendingFlush {
          ids := InsertId(ids, stored[file].id);
        }
        assert stored.Keys - (files - {file}) == stored.Keys - files + {file};
        files := files - {file};
      }
      assert stored.Keys - files == stored.Keys;
    }

    method FlushReports(target: Option<Id>, envs: Id -> Env) returns (r: Result<nat>, ghost ids: seq<Id>)
      requires !crashed
      modifies this
      ensures target == None ==> IsPendingList(old(stored), ids)
      ensures forall env :: State() == Exec(old(State()), OpWrites(old(State()).disk, Flush(target), ids, env, envs))
      ensures r.Ok? <==> !crashed
      ensures r.Ok? ==> |outbox| == |old(outbox)| + r.value
    {
      hide Exec, PersistWrites, SafeWrites, Apply;
      var flushed := 0;
      var sessions;
      if target.Some? {
        sessions := [target.value];
      } else {
        sessions := ListPending();
      }
      ids := sessions;
      for i := 0 to |sessions|
        invariant !crashed
        invariant Exec(State(), FlushWrites(State().disk, sessions[i..], envs))
                  == Exec(old(State()), FlushWrites(old(State()).disk, sessions, envs))
        invariant |outbox| == |old(outbox)| + flushed
      {
        var id := sessions[i];
        assert sessions[i..][1..] == sessions[i + 1..];
        if id in stored && stored[id].pendingFlush {
          ghost var start := State();
          ghost var head := PersistWrites(stored[id], true, envs(id));
          ghost var tail := FlushWrites(ApplyAll(start.disk, head), sessions[i + 1..], envs);
          ExecAppend(start, head, tail);
          ExecCompletes(start, head);
          ExecCrashed(Exec(start, head), tail);
          PersistSafe(start.disk, stored[id], true, envs(id));
          var _ :- PersistReport(stored[id], true, envs(id));
          flushed := flushed + 1;
        }
      }
      assert sessions[|sessions|..] == [];
      NoExec(State());
      r := Ok(flushed);
    }
  }

  lemma NoExec(m: Machine)
    ensures Exec(m, []) == m
  {}

  lemma ExecCrashed(m: Machine, writes: seq<Write>)
    ensures m.crashed ==> Exec(m, writes) == m
  {}
}
