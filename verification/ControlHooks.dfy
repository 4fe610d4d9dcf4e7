/** Hooks of several processes delivering controls from one store, with failed writes, failed acknowledgements and
    any interleaving of their store transactions and responses. */
module ControlHooks {
  import opened Bytes
  import opened Controls

  type HookId = nat

  /** What a hook has in hand: the page it read and has not answered, or the controls it answered and still has to
      acknowledge. */
  datatype Hook = Holding(run: Run, page: seq<Control>) | Owing(run: Run, ids: seq<Id>)

  /** A response that reached the harness, and what its context started from. */
  datatype Response = Response(run: Run, initial: bytes, content: Composition)

  /** `observed` holds controls completed by an observed execution instead of a hook response. */
  datatype System = System(table: Table, hooks: map<HookId, Hook>, flushed: seq<Response>, observed: set<Id>)

  /** Each event is one store transaction or one flushed write.  Reading a page and flushing the response to it are
      separate: other hooks may act in between.  A hook that dies simply has no further events. */
  datatype Event =
    | Request(run: Run, control: Control)
    | Read(hook: HookId, run: Run)
    | Flush(hook: HookId, context: bytes)
    | AcknowledgeNext(hook: HookId)
    | GiveUp(hook: HookId)
    | Complete(id: Id)

  function Next(s: System, e: Event): System {
    match e
    case Request(run, control) => s.(table := Enqueue(s.table, run, control))
    case Read(h, run) =>
      if h in s.hooks then s else s.(hooks := s.hooks[h := Holding(run, PendingControls(s.table, run))])
    case Flush(h, context) =>
      if h !in s.hooks || s.hooks[h].Owing? then s
      else
        var Holding(run, page) := s.hooks[h];
        var content := Compose(page, context);
        s.(hooks := s.hooks[h := Owing(run, content.delivered)],
           flushed := s.flushed + if content.delivered == [] then [] else [Response(run, context, content)])
    case AcknowledgeNext(h) =>
      if h !in s.hooks || s.hooks[h].Holding? || s.hooks[h].ids == [] then s
      else
        var Owing(run, ids) := s.hooks[h];
        (match Acknowledge(s.table, ids[0])
         case Ok(table) => s.(table := table, hooks := s.hooks[h := Owing(run, ids[1..])])
         case Err => s.(hooks := s.hooks[h := Owing(run, [])]))
    case GiveUp(h) => if h in s.hooks then s.(hooks := s.hooks[h := Owing(s.hooks[h].run, [])]) else s
    case Complete(id) =>
      (match Acknowledge(s.table, id)
       case Ok(table) => s.(table := table, observed := s.observed + if id in s.table.done then {} else {id})
       case Err => s)
  }

  function RunEvents(s: System, events: seq<Event>): System
    decreases |events|
  {
    if |events| == 0 then s else RunEvents(Next(s, events[0]), events[1..])
  }

  const Start: System := System(Table([], {}), map[], [], {})

  // ----- the invariant -----

  ghost predicate Written(flushed: seq<Response>, id: Id) {
    exists r :: r in flushed && id in r.content.delivered
  }

  /** A response carries a block of consecutive controls of its run's queue. */
  ghost predicate FromQueue(rows: seq<Row>, r: Response) {
    exists from, to ::
      0 <= from <= to <= |Queue(rows, r.run)| && ResponseOf(Queue(rows, r.run)[from..to], r.initial, r.content)
  }

  ghost predicate EveryFromQueue(rows: seq<Row>, flushed: seq<Response>) {
    forall r | r in flushed :: FromQueue(rows, r)
  }

  ghost predicate AcknowledgedWereWritten(done: set<Id>, observed: set<Id>, flushed: seq<Response>) {
    forall id | id in done :: id in observed || Written(flushed, id)
  }

  /** These controls stand in the queue from `from` on, and everything before them is done. */
  ghost predicate Block(queue: seq<Control>, done: set<Id>, from: nat, controls: seq<Control>) {
    from + |controls| <= |queue| && queue[from..from + |controls|] == controls &&
    forall i | 0 <= i < from :: queue[i].id in done
  }

  /** A page held, however stale, is a block of its queue; so is what is still to be acknowledged, all of it written. */
  ghost predicate HookOk(t: Table, flushed: seq<Response>, hook: Hook) {
    var queue := Queue(t.rows, hook.run);
    match hook
    case Holding(_, page) => exists from: nat :: Block(queue, t.done, from, page)
    case Owing(_, ids) =>
      (forall id | id in ids :: Written(flushed, id)) &&
      exists from: nat, controls :: Block(queue, t.done, from, controls) && ids == Ids(controls)
  }

  ghost predicate EveryHook(t: Table, flushed: seq<Response>, hooks: map<HookId, Hook>) {
    forall h | h in hooks :: HookOk(t, flushed, hooks[h])
  }

  /** In every queue the acknowledged controls are a prefix; each was in a flushed response before it was
      acknowledged, unless an observed execution completed it; every response is a block of its queue; and every
      hook holds or owes a block with nothing undone before it. */
  ghost predicate Ordered(s: System) {
    UniqueIds(s.table.rows) && DoneIsKnown(s.table) && EveryPrefix(s.table) &&
    EveryFromQueue(s.table.rows, s.flushed) && AcknowledgedWereWritten(s.table.done, s.observed, s.flushed) &&
    EveryHook(s.table, s.flushed, s.hooks)
  }

  // ----- what only grows -----

  ghost predicate Grows(t: Table, next: Table) {
    t.done <= next.done && forall run :: Queue(t.rows, run) <= Queue(next.rows, run)
  }

  lemma HookStaysOk(t: Table, next: Table, flushed: seq<Response>, more: seq<Response>, hook: Hook)
    requires HookOk(t, flushed, hook) && Grows(t, next)
    ensures HookOk(next, flushed + more, hook)
  {
    hide Queue, Ids;
    var queue, later := Queue(t.rows, hook.run), Queue(next.rows, hook.run);
    assert forall i | 0 <= i < |queue| :: later[i] == queue[i];
    if hook.Holding? {
      var from: nat :| Block(queue, t.done, from, hook.page);
      assert later[from..from + |hook.page|] == queue[from..from + |hook.page|];
      assert Block(later, next.done, from, hook.page);
    } else {
      var from: nat, controls :| Block(queue, t.done, from, controls) && hook.ids == Ids(controls);
      assert later[from..from + |controls|] == queue[from..from + |controls|];
      assert Block(later, next.done, from, controls);
      forall id | id in hook.ids ensures Written(flushed + more, id) { WrittenStays(flushed, more, id); }
    }
  }

  lemma WrittenStays(flushed: seq<Response>, more: seq<Response>, id: Id)
    requires Written(flushed, id)
    ensures Written(flushed + more, id)
  {
    var r :| r in flushed && id in r.content.delivered;
    assert r in flushed + more;
  }

  lemma HooksStayOk(
    t: Table, next: Table, flushed: seq<Response>, more: seq<Response>, hooks: map<HookId, Hook>, h: HookId, hook: Hook)
    requires EveryHook(t, flushed, hooks) && Grows(t, next) && HookOk(next, flushed + more, hook)
    ensures EveryHook(next, flushed + more, hooks[h := hook])
    ensures EveryHook(next, flushed + more, hooks)
  {
    hide HookOk, Grows;
    forall k | k in hooks ensures HookOk(next, flushed + more, hooks[k]) {
      HookStaysOk(t, next, flushed, more, hooks[k]);
    }
  }

  // ----- each event keeps the invariant -----

  lemma RequestKeeps(s: System, run: Run, control: Control)
    requires Ordered(s)
    ensures Ordered(Next(s, Request(run, control)))
  {
    hide UniqueIds, DoneIsKnown, EveryPrefix, EveryFromQueue, AcknowledgedWereWritten, HookOk, Queue;
    var t, next := s.table, Enqueue(s.table, run, control);
    if next != t {
      RequestKeepsTable(t, run, control);
      RequestKeepsResponses(t.rows, Row(run, control), s.flushed);
      forall r { QueueGrows(t.rows, Row(run, control), r); }
      assert s.flushed + [] == s.flushed;
      forall h | h in s.hooks ensures HookOk(next, s.flushed, s.hooks[h]) {
        HookStaysOk(t, next, s.flushed, [], s.hooks[h]);
      }
    }
  }

  lemma RequestKeepsResponses(rows: seq<Row>, row: Row, flushed: seq<Response>)
    requires EveryFromQueue(rows, flushed)
    ensures EveryFromQueue(rows + [row], flushed)
  {
    hide ResponseOf, Queue;
    forall r | r in flushed ensures FromQueue(rows + [row], r) {
      var queue := Queue(rows, r.run);
      var from, to :| 0 <= from <= to <= |queue| && ResponseOf(queue[from..to], r.initial, r.content);
      QueueGrows(rows, row, r.run);
      assert Queue(rows + [row], r.run)[from..to] == queue[from..to];
    }
  }

  lemma ReadKeeps(s: System, h: HookId, run: Run)
    requires Ordered(s)
    ensures Ordered(Next(s, Read(h, run)))
  {
    hide UniqueIds, DoneIsKnown, EveryFromQueue, AcknowledgedWereWritten, Queue, NotDone;
    if h !in s.hooks {
      var queue, page := Queue(s.table.rows, run), PendingControls(s.table, run);
      assert DonePrefix(queue, s.table.done);
      var n :| 0 <= n <= |queue| && DoneUpTo(queue, s.table.done, n);
      PendingIsSuffix(queue, s.table.done, n);
      TakeOfSuffix(PAGE, queue, n, |page|);
      assert page[..|page|] == page;
      assert Block(queue, s.table.done, n, page);
      assert HookOk(s.table, s.flushed, Holding(run, page));
    }
  }

  /** A response to a page, however stale, is a block of its queue, and owes a block. */
  lemma FlushBlock(t: Table, run: Run, page: seq<Control>, context: bytes, from: nat)
    requires Block(Queue(t.rows, run), t.done, from, page)
    ensures var content := Compose(page, context);
            |content.delivered| <= |page| && FromQueue(t.rows, Response(run, context, content)) &&
            Block(Queue(t.rows, run), t.done, from, page[..|content.delivered|]) &&
            content.delivered == Ids(page[..|content.delivered|])
  {
    hide Compose, Queue;
    var queue, content := Queue(t.rows, run), Compose(page, context);
    ComposeTakesPrefix(page, context);
    var k := |content.delivered|;
    assert page[..k] == queue[from..from + k];
  }

  lemma FlushKeeps(s: System, h: HookId, context: bytes)
    requires Ordered(s)
    ensures Ordered(Next(s, Flush(h, context)))
  {
    hide UniqueIds, DoneIsKnown, EveryPrefix, FromQueue, Block, Compose, Queue, Ids;
    if h in s.hooks && s.hooks[h].Holding? {
      var Holding(run, page) := s.hooks[h];
      var content := Compose(page, context);
      assert HookOk(s.table, s.flushed, s.hooks[h]);
      var from: nat :| Block(Queue(s.table.rows, run), s.table.done, from, page);
      FlushBlock(s.table, run, page, context, from);
      var more := if content.delivered == [] then [] else [Response(run, context, content)];
      FlushIsWritten(s.flushed, Response(run, context, content), more);
      assert HookOk(s.table, s.flushed + more, Owing(run, content.delivered));
      assert Grows(s.table, s.table);
      HooksStayOk(s.table, s.table, s.flushed, more, s.hooks, h, Owing(run, content.delivered));
      forall id | id in s.table.done && id !in s.observed ensures Written(s.flushed + more, id) {
        WrittenStays(s.flushed, more, id);
      }
    }
  }

  lemma FlushIsWritten(flushed: seq<Response>, r: Response, more: seq<Response>)
    requires more == if r.content.delivered == [] then [] else [r]
    ensures forall id | id in r.content.delivered :: Written(flushed + more, id)
  {
    if r.content.delivered != [] { assert (flushed + more)[|flushed|] == r; }
  }

  lemma AcknowledgeNextKeeps(s: System, h: HookId)
    requires Ordered(s)
    ensures Ordered(Next(s, AcknowledgeNext(h)))
  {
    hide Acknowledge, FromQueue, UniqueIds, DoneIsKnown, EveryPrefix, HookOk, Written, Queue;
    if h in s.hooks && s.hooks[h].Owing? && s.hooks[h].ids != [] {
      var Owing(run, ids) := s.hooks[h];
      var t := s.table;
      assert s.flushed + [] == s.flushed;
      if Acknowledge(t, ids[0]).Ok? {
        AcknowledgeKeepsPrefix(t, ids[0]);
        var next := Acknowledge(t, ids[0]).value;
        OwesLess(t, next, s.flushed, run, ids);
        HooksStayOk(t, next, s.flushed, [], s.hooks, h, Owing(run, ids[1..]));
      } else {
        OwesNothing(t, s.flushed, run);
        HooksStayOk(t, t, s.flushed, [], s.hooks, h, Owing(run, []));
      }
    }
  }

  lemma OwesLess(t: Table, next: Table, flushed: seq<Response>, run: Run, ids: seq<Id>)
    requires ids != [] && HookOk(t, flushed, Owing(run, ids)) && next == t.(done := t.done + {ids[0]})
    ensures HookOk(next, flushed, Owing(run, ids[1..])) && Written(flushed, ids[0])
  {
    hide Queue, Written;
    var queue := Queue(t.rows, run);
    var from: nat, controls :| Block(queue, t.done, from, controls) && ids == Ids(controls);
    assert queue[from] == controls[0] && queue[from + 1..from + 1 + |controls[1..]|] == controls[1..];
    assert Block(queue, next.done, from + 1, controls[1..]);
    assert ids[1..] == Ids(controls[1..]);
  }

  lemma OwesNothing(t: Table, flushed: seq<Response>, run: Run)
    ensures HookOk(t, flushed, Owing(run, []))
  {
    assert Block(Queue(t.rows, run), t.done, 0, []) && Ids([]) == [];
  }

  lemma GiveUpKeeps(s: System, h: HookId)
    requires Ordered(s)
    ensures Ordered(Next(s, GiveUp(h)))
  {
    hide UniqueIds, DoneIsKnown, EveryPrefix, EveryFromQueue, AcknowledgedWereWritten, HookOk;
    if h in s.hooks { OwesNothing(s.table, s.flushed, s.hooks[h].run); }
  }

  lemma CompleteKeeps(s: System, id: Id)
    requires Ordered(s)
    ensures Ordered(Next(s, Complete(id)))
  {
    hide Acknowledge, FromQueue, UniqueIds, DoneIsKnown, EveryPrefix, HookOk, Written, Queue;
    if Acknowledge(s.table, id).Ok? {
      AcknowledgeKeepsPrefix(s.table, id);
      var next := Acknowledge(s.table, id).value;
      assert s.flushed + [] == s.flushed;
      forall h | h in s.hooks ensures HookOk(next, s.flushed, s.hooks[h]) {
        HookStaysOk(s.table, next, s.flushed, [], s.hooks[h]);
      }
    }
  }

  /** Over every interleaving of requests, page reads, responses, acknowledgements, failures and completions. */
  lemma {:induction false} EveryRunIsOrdered(s: System, events: seq<Event>)
    requires Ordered(s)
    ensures Ordered(RunEvents(s, events))
    decreases |events|
  {
    hide Ordered, Next;
    if |events| > 0 {
      match events[0] {
        case Request(run, control) => RequestKeeps(s, run, control);
        case Read(h, run) => ReadKeeps(s, h, run);
        case Flush(h, context) => FlushKeeps(s, h, context);
        case AcknowledgeNext(h) => AcknowledgeNextKeeps(s, h);
        case GiveUp(h) => GiveUpKeeps(s, h);
        case Complete(id) => CompleteKeeps(s, id);
      }
      EveryRunIsOrdered(Next(s, events[0]), events[1..]);
    }
  }

  lemma StartIsOrdered()
    ensures Ordered(Start)
  {
    forall run: Run ensures DonePrefix(Queue([], run), {}) {
      assert DoneUpTo(Queue([], run), {}, 0);
    }
  }

  /** An acknowledgement a hook owes is never refused, whatever other hooks have done since it read its page. */
  lemma OwedIsAccepted(s: System, h: HookId)
    requires Ordered(s) && h in s.hooks && s.hooks[h].Owing? && s.hooks[h].ids != []
    ensures Acknowledge(s.table, s.hooks[h].ids[0]) == Ok(s.table.(done := s.table.done + {s.hooks[h].ids[0]}))
  {
    hide Queue, NotDone, Find, UniqueIds, EveryFromQueue, AcknowledgedWereWritten, Written;
    var t := s.table;
    var Owing(run, ids) := s.hooks[h];
    var queue := Queue(t.rows, run);
    assert HookOk(t, s.flushed, s.hooks[h]);
    var from: nat, controls :| Block(queue, t.done, from, controls) && ids == Ids(controls);
    assert queue[from] == controls[0] && ids[0] == queue[from].id;
    assert DonePrefix(queue, t.done);
    var n :| 0 <= n <= |queue| && DoneUpTo(queue, t.done, n);
    assert from <= n by { if from > 0 { assert queue[from - 1].id in t.done; } }
    if from < n {
      QueueRows(t.rows, run);
      assert Row(run, queue[from]) in t.rows;
      FindIsRow(t.rows, Row(run, queue[from]));
      assert t.done + {ids[0]} == t.done;
    } else {
      AcknowledgeAt(t, run, n);
    }
  }

  /** From the empty store, and in full. */
  lemma DeliveryIsOrdered(events: seq<Event>)
    ensures var s := RunEvents(Start, events);
            (forall run :: DonePrefix(Queue(s.table.rows, run), s.table.done)) &&
            (forall id | id in s.table.done :: id in s.observed || Written(s.flushed, id)) &&
            (forall r | r in s.flushed :: FromQueue(s.table.rows, r)) &&
            (forall h | h in s.hooks && s.hooks[h].Owing? && s.hooks[h].ids != [] ::
               Acknowledge(s.table, s.hooks[h].ids[0]).Ok?)
  {
    hide RunEvents, Acknowledge;
    StartIsOrdered();
    EveryRunIsOrdered(Start, events);
    var s := RunEvents(Start, events);
    forall h | h in s.hooks && s.hooks[h].Owing? && s.hooks[h].ids != []
      ensures Acknowledge(s.table, s.hooks[h].ids[0]).Ok?
    {
      OwedIsAccepted(s, h);
    }
  }

  // ----- delivery is at least once -----

  /** A response repeats a control already acknowledged exactly when the page it answers has gone stale at its head. */
  lemma RedeliveryExactly(s: System, h: HookId, context: bytes)
    requires Ordered(s) && h in s.hooks && s.hooks[h].Holding? && Compose(s.hooks[h].page, context).delivered != []
    ensures s.hooks[h].page != []
    ensures (exists id :: id in Compose(s.hooks[h].page, context).delivered && id in s.table.done)
            <==> s.hooks[h].page[0].id in s.table.done
  {
    hide Compose, Queue, UniqueIds, DoneIsKnown, EveryFromQueue, AcknowledgedWereWritten, FromQueue;
    var Holding(run, page) := s.hooks[h];
    var queue, done, delivered := Queue(s.table.rows, run), s.table.done, Compose(page, context).delivered;
    assert HookOk(s.table, s.flushed, s.hooks[h]) && DonePrefix(queue, done);
    var from: nat :| Block(queue, done, from, page);
    var n :| 0 <= n <= |queue| && DoneUpTo(queue, done, n);
    FlushBlock(s.table, run, page, context, from);
    assert forall j | 0 <= j < |page| :: queue[from + j] == page[j];
    assert delivered[0] == page[0].id;
    if id :| id in delivered && id in done {
      var j :| 0 <= j < |delivered| && delivered[j] == id;
      assert queue[from + j].id == id;
      assert queue[from].id in done;
    }
  }

  /** And that happens: two hooks read one control, and the second answers it after the first acknowledged it. */
  lemma StalePageRedelivers(run: Run, control: Control)
    requires control.action == Stop && |control.instruction| <= INSTRUCTION_LIMIT
    ensures var before := RunEvents(Start, [Request(run, control), Read(1, run), Read(2, run), Flush(1, []),
                                            AcknowledgeNext(1)]);
            var after := Next(before, Flush(2, []));
            control.id in before.table.done && |before.flushed| == 1 && |after.flushed| == 2 &&
            after.flushed[0] == after.flushed[1] && after.flushed[1].content.delivered == [control.id]
  {
    var rows, page := [Row(run, control)], [control];
    var asked := Table(rows, {});
    OneRow(run, control);
    var content := Composition([], true, [control.id]);
    var s1 := System(asked, map[], [], {});
    var s2 := s1.(hooks := map[1 := Holding(run, page)]);
    var s3 := s2.(hooks := map[1 := Holding(run, page), 2 := Holding(run, page)]);
    var response := Response(run, [], content);
    var s4 := System(asked, map[1 := Owing(run, [control.id]), 2 := Holding(run, page)], [response], {});
    var s5 := System(Table(rows, {control.id}), map[1 := Owing(run, []), 2 := Holding(run, page)], s4.flushed, {});
    assert Next(Start, Request(run, control)) == s1;
    assert Next(s1, Read(1, run)) == s2;
    assert Next(s2, Read(2, run)) == s3;
    assert Next(s3, Flush(1, [])) == s4;
    assert {} + {control.id} == {control.id} && [control.id][1..] == [];
    assert Acknowledge(asked, control.id) == Ok(s5.table);
    AcknowledgeEvent(s4, 1);
    assert Next(s4, AcknowledgeNext(1)) == s5;
    FiveEvents(Start, Request(run, control), Read(1, run), Read(2, run), Flush(1, []), AcknowledgeNext(1));
  }

  lemma OneRow(run: Run, control: Control)
    ensures Queue([Row(run, control)], run) == [control]
    ensures NotDone([control], {}) == [control]
    ensures control.action == Stop ==> Compose([control], []) == Composition([], true, [control.id])
    ensures Find([Row(run, control)], control.id) == Some(Row(run, control))
  {
    assert [Row(run, control)][..0] == [] && [control][1..] == [];
    assert NotDone([control][1..], {}) == [] && Queue([Row(run, control)][..0], run) == [];
  }

  lemma FiveEvents(s: System, a: Event, b: Event, c: Event, d: Event, e: Event)
    ensures RunEvents(s, [a, b, c, d, e]) == Next(Next(Next(Next(Next(s, a), b), c), d), e)
  {
    hide Next;
    assert [a, b, c, d, e][1..] == [b, c, d, e] && [b, c, d, e][1..] == [c, d, e];
    assert [c, d, e][1..] == [d, e] && [d, e][1..] == [e] && [e][1..] == [];
    var s3 := Next(Next(Next(s, a), b), c);
    OneEvent(Next(s3, d), e);
    assert RunEvents(s3, [d, e]) == RunEvents(Next(s3, d), [e]);
    assert RunEvents(s, [a, b, c, d, e]) == RunEvents(Next(s, a), [b, c, d, e]);
    assert RunEvents(Next(s, a), [b, c, d, e]) == RunEvents(Next(Next(s, a), b), [c, d, e]);
  }

  // ----- running events -----

  lemma {:induction false} ExtendRun(s: System, a: seq<Event>, b: seq<Event>)
    ensures RunEvents(s, a + b) == RunEvents(RunEvents(s, a), b)
    decreases |a|
  {
    hide Next;
    if |a| == 0 {
      assert a + b == b;
    } else {
      ExtendRun(Next(s, a[0]), a[1..], b);
      assert (a + b)[1..] == a[1..] + b;
    }
  }

  lemma OneEvent(s: System, e: Event)
    ensures RunEvents(s, [e]) == Next(s, e)
  {
    hide Next;
    assert [e][1..] == [];
  }

  predicate ActsFor(e: Event, h: HookId) {
    match e
    case Read(hook, _) => hook == h
    case Flush(hook, _) => hook == h
    case AcknowledgeNext(hook) => hook == h
    case GiveUp(hook) => hook == h
    case _ => false
  }

  /** Nothing in these events is done by hook `h`. */
  predicate Elsewhere(events: seq<Event>, h: HookId) { forall e | e in events :: !ActsFor(e, h) }

  /** What never comes undone: an acknowledgement, and a response that reached the harness. */
  ghost predicate Later(s: System, t: System) {
    s.table.done <= t.table.done && forall r | r in s.flushed :: r in t.flushed
  }

  lemma {:induction false} OthersLeaveHook(s: System, events: seq<Event>, h: HookId)
    requires Elsewhere(events, h)
    ensures h in RunEvents(s, events).hooks <==> h in s.hooks
    ensures h in s.hooks ==> RunEvents(s, events).hooks[h] == s.hooks[h]
    ensures Later(s, RunEvents(s, events))
    decreases |events|
  {
    hide Compose, Acknowledge, Enqueue, PendingControls;
    if |events| > 0 {
      assert events[0] in events && forall e | e in events[1..] :: e in events;
      AcknowledgeOnlyAdds(s.table, events[0]);
      EnqueueKeepsDone(s.table, events[0]);
      OthersLeaveHook(Next(s, events[0]), events[1..], h);
    }
  }

  lemma AcknowledgeOnlyAdds(t: Table, e: Event)
    ensures forall id :: Acknowledge(t, id).Ok? ==> t.done <= Acknowledge(t, id).value.done
  {}

  lemma EnqueueKeepsDone(t: Table, e: Event)
    ensures e.Request? ==> Enqueue(t, e.run, e.control).done == t.done
  {}

  // ----- one hook call as it runs -----

  /** The events of a hook's first `n` acknowledgements, each after whatever others did before it. */
  function Acknowledging(h: HookId, before: nat -> seq<Event>, n: nat): seq<Event> {
    if n == 0 then [] else Acknowledging(h, before, n - 1) + before(n - 1) + [AcknowledgeNext(h)]
  }

  /** The run store, the harness's output, and what every hook process has in hand. */
  class Device {
    var rows: seq<Row>
    var done: set<Id>
    var hooks: map<HookId, Hook>
    var flushed: seq<Response>
    var observed: set<Id>

    function State(): System
      reads this
    {
      System(Table(rows, done), hooks, flushed, observed)
    }

    /** Whatever other processes do meanwhile. */
    method Others(events: seq<Event>)
      modifies this
      ensures State() == RunEvents(old(State()), events)
    {
      var s := RunEvents(State(), events);
      rows, done, hooks, flushed, observed := s.table.rows, s.table.done, s.hooks, s.flushed, s.observed;
    }

    method ReadPage(h: HookId, run: Run) returns (page: seq<Control>)
      requires h !in hooks
      modifies this`hooks
      ensures State() == Next(old(State()), Read(h, run)) && page == PendingControls(old(State()).table, run)
    {
      page := PendingControls(Table(rows, done), run);
      hooks := hooks[h := Holding(run, page)];
    }

    method FlushResponse(h: HookId, context: bytes, content: Composition)
      requires h in hooks && hooks[h].Holding? && content == Compose(hooks[h].page, context) && content.delivered != []
      modifies this`hooks, this`flushed
      ensures State() == Next(old(State()), Flush(h, context))
    {
      var run := hooks[h].run;
      flushed := flushed + [Response(run, context, content)];
      hooks := hooks[h := Owing(run, content.delivered)];
    }

    method AcknowledgeControlDelivery(id: Id) returns (r: Result<()>)
      modifies this`done
      ensures match Acknowledge(old(State()).table, id)
              case Ok(table) => r == Ok(()) && State() == old(State()).(table := table)
              case Err => r == Err && State() == old(State())
    {
      var row := Find(rows, id);
      if row.None? {
        return Err;
      }
      if id in done {
        return Ok(());
      }
      var waiting := NotDone(Queue(rows, row.value.run), done);
      if |waiting| == 0 || waiting[0].id != id {
        return Err;
      }
      done := done + {id};
      r := Ok(());
    }

    /** Acknowledges delivered controls one by one, until a failure or the end.  None is refused. */
    method AcknowledgeAll(h: HookId, delivered: seq<Id>, acks: nat, before: nat -> seq<Event>) returns (r: Result<bool>)
      requires Ordered(State()) && h in hooks && hooks[h].Owing? && hooks[h].ids == delivered
      requires forall i :: Elsewhere(before(i), h)
      modifies this
      ensures var n := if acks < |delivered| then acks else |delivered|;
              State() == RunEvents(old(State()), Acknowledging(h, before, n))
      ensures r == if acks >= |delivered| then Ok(true) else Err
      ensures Later(old(State()), State()) && forall id | id in Take(acks, delivered) :: id in done
    {
      hide Ordered, Next, Acknowledge, RunEvents, Elsewhere;
      ghost var start := State();
      NoEvents(start);
      for i := 0 to |delivered|
        invariant i <= acks && Ordered(State()) && Later(start, State())
        invariant h in hooks && hooks[h].Owing? && hooks[h].ids == delivered[i..]
        invariant State() == RunEvents(start, Acknowledging(h, before, i))
        invariant forall j | 0 <= j < i :: delivered[j] in done
      {
        if i >= acks {
          return Err;
        }
        AcknowledgingOne(start, h, before, i);
        OthersLeaveHook(State(), before(i), h);
        EveryRunIsOrdered(State(), before(i));
        Others(before(i));
        ghost var s := State();
        OwedIsAccepted(s, h);
        AcknowledgeNextKeeps(s, h);
        AcknowledgeEvent(s, h);
        var acknowledged := AcknowledgeControlDelivery(delivered[i]);
        hooks := hooks[h := Owing(hooks[h].run, delivered[i + 1..])];
        if acknowledged.Err? {
          return Err;
        }
      }
      r := Ok(true);
    }

    /** Reads the pending controls, emits one combined response to them, then acknowledges what it delivered, in order.

        `extra` supplies additional context, `writes` says whether writing and flushing the response succeeds, and
        `acks` how many acknowledgements reach the store before one fails.  Other processes act `between` the reading
        and the response, and `before` each acknowledgement.
     */
    method ClaudeControls(
      h: HookId, run: Run, event: string, runKnown: bool, extra: Result<Option<bytes>>, writes: bool, acks: nat,
      between: seq<Event>, before: nat -> seq<Event>)
      returns (r: Result<bool>, ghost trace: seq<Event>)
      requires Ordered(State()) && h !in hooks && Elsewhere(between, h) && forall i :: Elsewhere(before(i), h)
      modifies this
      ensures State() == RunEvents(old(State()), trace)
      ensures var page := PendingControls(old(State()).table, run);
              if event !in ["PreToolUse", "UserPromptSubmit"] then r == Ok(false) && trace == []
              else if page == [] then r == Ok(false) && trace == [Read(h, run)]
              else if !runKnown || extra.Err? then r == Err && trace == [Read(h, run)]
              else
                var initial := if extra.value.Some? then extra.value.value else [];
                var content := Compose(page, initial);
                if content.delivered == [] then r == Ok(false) && trace == [Read(h, run)]
                else if !writes then r == Err && trace == [Read(h, run)] + between
                else
                  var n := if acks < |content.delivered| then acks else |content.delivered|;
                  trace == [Read(h, run)] + between + [Flush(h, initial)] + Acknowledging(h, before, n) &&
                  (r == if acks >= |content.delivered| then Ok(true) else Err) &&
                  Response(run, initial, content) in flushed &&
                  forall id | id in Take(acks, content.delivered) :: id in done
    {
      hide Compose, Acknowledge, Ordered, Next, RunEvents, PendingControls, Elsewhere;
      trace := [];
      ghost var start := State();
      NoEvents(start);
      if event != "PreToolUse" && event != "UserPromptSubmit" {
        return Ok(false), trace;
      }
      ReadKeeps(start, h, run);
      OneEvent(start, Read(h, run));
      ReadEvent(start, h, run);
      var page := ReadPage(h, run);
      trace := [Read(h, run)];
      if |page| == 0 {
        return Ok(false), trace;
      }
      if !runKnown || extra.Err? {
        return Err, trace;
      }
      var initial := if extra.value.Some? then extra.value.value else [];
      var content := ComposeResponse(page, initial);
      if content.delivered == [] {
        return Ok(false), trace;
      }
      OthersLeaveHook(State(), between, h);
      EveryRunIsOrdered(State(), between);
      ExtendRun(start, trace, between);
      Others(between);
      trace := trace + between;
      if !writes {
        return Err, trace;
      }
      FlushKeeps(State(), h, initial);
      ExtendRun(start, trace, [Flush(h, initial)]);
      OneEvent(State(), Flush(h, initial));
      FlushEvent(State(), h, initial);
      FlushResponse(h, initial, content);
      trace := trace + [Flush(h, initial)];
      ghost var n := if acks < |content.delivered| then acks else |content.delivered|;
      ExtendRun(start, trace, Acknowledging(h, before, n));
      r := AcknowledgeAll(h, content.delivered, acks, before);
      trace := trace + Acknowledging(h, before, n);
    }
  }

  lemma NoEvents(s: System)
    ensures RunEvents(s, []) == s
  {}

  lemma ReadEvent(s: System, h: HookId, run: Run)
    requires h !in s.hooks
    ensures Next(s, Read(h, run)) == s.(hooks := s.hooks[h := Holding(run, PendingControls(s.table, run))])
  {}

  lemma FlushEvent(s: System, h: HookId, context: bytes)
    requires h in s.hooks && s.hooks[h].Holding? && Compose(s.hooks[h].page, context).delivered != []
    ensures var content := Compose(s.hooks[h].page, context);
            Next(s, Flush(h, context)) ==
            s.(hooks := s.hooks[h := Owing(s.hooks[h].run, content.delivered)],
               flushed := s.flushed + [Response(s.hooks[h].run, context, content)])
  {
    hide Compose;
  }

  lemma AcknowledgeEvent(s: System, h: HookId)
    requires h in s.hooks && s.hooks[h].Owing? && s.hooks[h].ids != [] && Acknowledge(s.table, s.hooks[h].ids[0]).Ok?
    ensures Next(s, AcknowledgeNext(h)) ==
            s.(table := Acknowledge(s.table, s.hooks[h].ids[0]).value,
               hooks := s.hooks[h := Owing(s.hooks[h].run, s.hooks[h].ids[1..])])
  {
    hide Acknowledge;
  }

  lemma AcknowledgingOne(s: System, h: HookId, before: nat -> seq<Event>, i: nat)
    ensures RunEvents(s, Acknowledging(h, before, i + 1)) ==
            Next(RunEvents(RunEvents(s, Acknowledging(h, before, i)), before(i)), AcknowledgeNext(h))
  {
    hide Next, RunEvents;
    var a := Acknowledging(h, before, i);
    ExtendRun(s, a, before(i));
    ExtendRun(s, a + before(i), [AcknowledgeNext(h)]);
    OneEvent(RunEvents(s, a + before(i)), AcknowledgeNext(h));
  }
}
