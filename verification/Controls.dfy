/** The run controls a store holds, in order, and the one response a hook composes from a page of them. */
module Controls {
  import opened Bytes

  type Id = int
  type Run = int

  datatype Action = Pause | Resume | Steer | Stop | Unrecognized

  datatype Control = Control(id: Id, action: Action, instruction: bytes)

  datatype Row = Row(run: Run, control: Control)

  /** The controls table in sequence order, and which rows are marked done. */
  datatype Table = Table(rows: seq<Row>, done: set<Id>)

  const CONTEXT_LIMIT: nat := 128 * 1024
  const INSTRUCTION_LIMIT: nat := 64 * 1024
  const PAGE: nat := 32
  const SEPARATOR: bytes := [10, 10]

  // ----- the store -----

  /** Every control ever requested of a run, in order. */
  function Queue(rows: seq<Row>, run: Run): seq<Control> {
    if |rows| == 0 then []
    else
      var rest := Queue(rows[..|rows| - 1], run);
      var last := rows[|rows| - 1];
      if last.run == run then rest + [last.control] else rest
  }

  function NotDone(queue: seq<Control>, done: set<Id>): seq<Control> {
    if |queue| == 0 then []
    else if queue[0].id in done then NotDone(queue[1..], done)
    else [queue[0]] + NotDone(queue[1..], done)
  }

  function Take<T>(n: nat, s: seq<T>): seq<T> { if |s| <= n then s else s[..n] }

  function PendingControls(t: Table, run: Run): seq<Control> { Take(PAGE, NotDone(Queue(t.rows, run), t.done)) }

  function Find(rows: seq<Row>, id: Id): (r: Option<Row>)
    ensures r.Some? ==> r.value in rows && r.value.control.id == id
    ensures r.None? ==> forall row | row in rows :: row.control.id != id
  {
    if |rows| == 0 then None
    else if rows[0].control.id == id then Some(rows[0])
    else Find(rows[1..], id)
  }

  /** Acknowledging twice is accepted; otherwise only the oldest control not done may be acknowledged. */
  function Acknowledge(t: Table, id: Id): Result<Table> {
    match Find(t.rows, id)
    case None => Err
    case Some(row) =>
      if id in t.done then Ok(t)
      else
        var waiting := NotDone(Queue(t.rows, row.run), t.done);
        if |waiting| > 0 && waiting[0].id == id then Ok(t.(done := t.done + {id})) else Err
  }

  /** A repeated request changes nothing; an unknown action or an oversized instruction is refused. */
  function Enqueue(t: Table, run: Run, control: Control): Table {
    if control.action == Unrecognized || |control.instruction| > INSTRUCTION_LIMIT then t
    else if Find(t.rows, control.id).Some? then t
    else t.(rows := t.rows + [Row(run, control)])
  }

  // ----- one response -----

  datatype Composition = Composition(context: bytes, stop: bool, delivered: seq<Id>)

  function Extend(context: bytes, instruction: bytes): bytes {
    (if |context| == 0 then [] else context + SEPARATOR) + instruction
  }

  predicate Fits(context: bytes, instruction: bytes) { |context| + |instruction| + 2 <= CONTEXT_LIMIT }

  /** Steers are appended while they fit, a stop ends the response, anything else must wait. */
  function Compose(controls: seq<Control>, context: bytes): Composition
    decreases |controls|
  {
    if |controls| == 0 then Composition(context, false, [])
    else if controls[0].action == Steer && Fits(context, controls[0].instruction) then
      var more := Compose(controls[1..], Extend(context, controls[0].instruction));
      more.(delivered := [controls[0].id] + more.delivered)
    else if controls[0].action == Stop then Composition(context, true, [controls[0].id])
    else Composition(context, false, [])
  }

  function Ids(controls: seq<Control>): (r: seq<Id>)
    ensures |r| == |controls|
  {
    seq(|controls|, i requires 0 <= i < |controls| => controls[i].id)
  }

  /** The context after some steers. */
  function Joined(context: bytes, steers: seq<Control>): bytes
    decreases |steers|
  {
    if |steers| == 0 then context else Joined(Extend(context, steers[0].instruction), steers[1..])
  }

  /** The text so far stays at the front and the instruction is added at the end, two newlines between them. */
  lemma ExtendKeepsBoth(context: bytes, instruction: bytes)
    ensures var extended := Extend(context, instruction);
            context <= extended && instruction == extended[|extended| - |instruction|..] &&
            extended == if context == [] then instruction else context + [10, 10] + instruction
  {}

  /** The steer requested last is the one added last. */
  lemma {:induction false} JoinedSnoc(context: bytes, steers: seq<Control>, last: Control)
    ensures Joined(context, steers + [last]) == Extend(Joined(context, steers), last.instruction)
    decreases |steers|
  {
    hide Extend;
    if |steers| == 0 {
      assert steers + [last] == [last] && [last][1..] == [];
      assert Joined(Extend(context, last.instruction), [last][1..]) == Extend(context, last.instruction);
    } else {
      assert (steers + [last])[1..] == steers[1..] + [last];
      JoinedSnoc(Extend(context, steers[0].instruction), steers[1..], last);
    }
  }

  /** What one response may hold: a block of controls, all steers but for a stop at its very end, their
      instructions joined in order, and a context that grows past the initial one only within the limit. */
  ghost predicate ResponseOf(block: seq<Control>, initial: bytes, c: Composition) {
    c.delivered == Ids(block) &&
    (c.stop ==> |block| > 0 && block[|block| - 1].action == Stop) &&
    (var steers := if c.stop then block[..|block| - 1] else block;
     (forall control | control in steers :: control.action == Steer) &&
     c.context == Joined(initial, steers) &&
     (|steers| > 0 ==> |c.context| <= CONTEXT_LIMIT))
  }

  /** The response takes a prefix of what is waiting, and stops there only for a reason. */
  lemma {:induction false} ComposeTakesPrefix(controls: seq<Control>, context: bytes)
    ensures var c := Compose(controls, context);
            var n := |c.delivered|;
            n <= |controls| && ResponseOf(controls[..n], context, c) &&
            (n < |controls| && !c.stop ==>
               controls[n].action != Stop &&
               (controls[n].action == Steer ==> !Fits(c.context, controls[n].instruction)))
    decreases |controls|
  {
    hide Fits, Extend, ResponseOf;
    if |controls| == 0 || !(controls[0].action == Steer && Fits(context, controls[0].instruction)) {
      ShortResponse(controls, context);
    } else {
      var first := controls[0];
      var next := Extend(context, first.instruction);
      ComposeTakesPrefix(controls[1..], next);
      var more := Compose(controls[1..], next);
      var n := |more.delivered|;
      ResponseGrows(first, controls[1..][..n], context, more);
      assert controls[..n + 1] == [first] + controls[1..][..n];
    }
  }

  /** In bytes: a page is at most 32 controls, a steer joins a response as long as the whole stays within 131072, and
      a request is refused above 65536. */
  lemma LimitsInBytes(t: Table, run: Run, control: Control, context: bytes)
    ensures |PendingControls(t, run)| <= 32
    ensures control.action == Steer ==>
              (Compose([control], context).delivered == [control.id] <==>
               |context| + |control.instruction| + 2 <= 131_072)
    ensures |control.instruction| > 65_536 ==> Enqueue(t, run, control) == t
  {
    assert [control][1..] == [];
    assert forall text :: Compose([control][1..], text).delivered == [];
  }

  lemma ShortResponse(controls: seq<Control>, context: bytes)
    requires |controls| == 0 || !(controls[0].action == Steer && Fits(context, controls[0].instruction))
    ensures var c := Compose(controls, context);
            |c.delivered| <= |controls| && ResponseOf(controls[..|c.delivered|], context, c)
  {
    hide Fits, Extend;
  }

  lemma ResponseGrows(first: Control, block: seq<Control>, initial: bytes, more: Composition)
    requires first.action == Steer && Fits(initial, first.instruction)
    requires ResponseOf(block, Extend(initial, first.instruction), more)
    ensures ResponseOf([first] + block, initial, more.(delivered := [first.id] + more.delivered))
  {
    hide Fits, Extend;
    var next := Extend(initial, first.instruction);
    FitsExtends(initial, first.instruction);
    var tail := if more.stop then block[..|block| - 1] else block;
    var whole := [first] + block;
    var steers := if more.stop then whole[..|whole| - 1] else whole;
    assert steers == [first] + tail && steers[1..] == tail;
    assert Ids(whole) == [first.id] + Ids(block);
    assert Joined(initial, steers) == Joined(next, tail);
    assert |tail| == 0 ==> Joined(next, tail) == next;
  }

  lemma FitsExtends(context: bytes, instruction: bytes)
    requires Fits(context, instruction)
    ensures |Extend(context, instruction)| <= CONTEXT_LIMIT
  {}

  /** An accepted control at the head of the queue that can be delivered is delivered, whatever its size. */
  lemma HeadIsDelivered(controls: seq<Control>, context: bytes)
    requires |controls| > 0 && controls[0].action in {Steer, Stop}
    requires |controls[0].instruction| <= INSTRUCTION_LIMIT && |context| + 2 <= CONTEXT_LIMIT - INSTRUCTION_LIMIT
    ensures |Compose(controls, context).delivered| > 0 && Compose(controls, context).delivered[0] == controls[0].id
  {}

  // ----- the queue, and how much of it is done -----

  ghost predicate UniqueIds(rows: seq<Row>) {
    forall i, j | 0 <= i < j < |rows| :: rows[i].control.id != rows[j].control.id
  }

  ghost predicate DistinctIds(queue: seq<Control>) {
    forall i, j | 0 <= i < j < |queue| :: queue[i].id != queue[j].id
  }

  /** The acknowledged controls of a queue are a prefix of it. */
  ghost predicate DonePrefix(queue: seq<Control>, done: set<Id>) {
    exists n | 0 <= n <= |queue| :: DoneUpTo(queue, done, n)
  }

  ghost predicate DoneUpTo(queue: seq<Control>, done: set<Id>, n: nat)
    requires n <= |queue|
  {
    forall i | 0 <= i < |queue| :: queue[i].id in done <==> i < n
  }

  lemma {:induction false} PendingIsSuffix(queue: seq<Control>, done: set<Id>, n: nat)
    requires n <= |queue| && DoneUpTo(queue, done, n)
    ensures NotDone(queue, done) == queue[n..]
    decreases |queue|
  {
    if |queue| > 0 {
      PendingIsSuffix(queue[1..], done, if n == 0 then 0 else n - 1);
    }
  }

  lemma {:induction false} QueueRows(rows: seq<Row>, run: Run)
    requires UniqueIds(rows)
    ensures DistinctIds(Queue(rows, run))
    ensures forall control :: control in Queue(rows, run) <==> Row(run, control) in rows
  {
    if |rows| > 0 {
      var init, last := rows[..|rows| - 1], rows[|rows| - 1];
      QueueRows(init, run);
      assert rows == init + [last];
      forall control | control in Queue(init, run) ensures control.id != last.control.id {
        var i :| 0 <= i < |init| && init[i] == Row(run, control);
        assert rows[i] == init[i];
      }
    }
  }

  lemma FindIsRow(rows: seq<Row>, row: Row)
    requires UniqueIds(rows) && row in rows
    ensures Find(rows, row.control.id) == Some(row)
  {
    var found := Find(rows, row.control.id);
    var i, j :| 0 <= i < |rows| && 0 <= j < |rows| && rows[i] == row && rows[j] == found.value;
    assert i == j;
  }

  // ----- the store's transactions keep the done prefix -----

  ghost predicate EveryPrefix(t: Table) { forall run :: DonePrefix(Queue(t.rows, run), t.done) }

  ghost predicate DoneIsKnown(t: Table) { forall id | id in t.done :: Find(t.rows, id).Some? }

  lemma RequestKeepsTable(t: Table, run: Run, control: Control)
    requires UniqueIds(t.rows) && DoneIsKnown(t) && EveryPrefix(t) && Find(t.rows, control.id).None?
    ensures var next := t.(rows := t.rows + [Row(run, control)]);
            UniqueIds(next.rows) && DoneIsKnown(next) && EveryPrefix(next)
  {
    hide Find, Queue;
    var rows := t.rows;
    var more := rows + [Row(run, control)];
    assert forall i | 0 <= i < |rows| :: rows[i] in rows;
    forall id | id in t.done ensures Find(more, id).Some? {
      assert Find(rows, id).value in more;
    }
    forall r: Run ensures DonePrefix(Queue(more, r), t.done) {
      var queue := Queue(rows, r);
      var n :| 0 <= n <= |queue| && DoneUpTo(queue, t.done, n);
      QueueGrows(rows, Row(run, control), r);
      assert control.id !in t.done;
      assert DoneUpTo(Queue(more, r), t.done, n);
    }
  }

  lemma QueueGrows(rows: seq<Row>, row: Row, run: Run)
    ensures Queue(rows + [row], run) == Queue(rows, run) + (if row.run == run then [row.control] else [])
  {
    assert (rows + [row])[..|rows|] == rows;
  }

  lemma AcknowledgeKeepsPrefix(t: Table, id: Id)
    requires UniqueIds(t.rows) && EveryPrefix(t) && DoneIsKnown(t) && Acknowledge(t, id).Ok?
    ensures EveryPrefix(Acknowledge(t, id).value) && DoneIsKnown(Acknowledge(t, id).value)
    ensures Acknowledge(t, id).value == t.(done := t.done + {id})
  {
    hide Queue, NotDone, Find;
    var next := Acknowledge(t, id).value;
    if id in t.done {
      assert t.done + {id} == t.done;
    } else {
      var row := Find(t.rows, id).value;
      forall run: Run ensures DonePrefix(Queue(t.rows, run), next.done) {
        var queue := Queue(t.rows, run);
        QueueRows(t.rows, run);
        var n :| 0 <= n <= |queue| && DoneUpTo(queue, t.done, n);
        PendingIsSuffix(queue, t.done, n);
        if run == row.run {
          assert queue[n].id == id;
          assert DoneUpTo(queue, next.done, n + 1);
        } else {
          forall i | 0 <= i < |queue| ensures queue[i].id != id {
            var other := Row(run, queue[i]);
            assert other in t.rows;
            FindIsRow(t.rows, other);
          }
          assert DoneUpTo(queue, next.done, n);
        }
      }
    }
  }

  /** Acknowledging the next control of a queue succeeds and moves the done prefix by one. */
  lemma AcknowledgeAt(t: Table, run: Run, n: nat)
    requires UniqueIds(t.rows)
    requires n < |Queue(t.rows, run)| && DoneUpTo(Queue(t.rows, run), t.done, n)
    ensures var id := Queue(t.rows, run)[n].id;
            Acknowledge(t, id) == Ok(t.(done := t.done + {id})) && DoneUpTo(Queue(t.rows, run), t.done + {id}, n + 1)
  {
    hide Queue, NotDone, Find;
    var queue := Queue(t.rows, run);
    QueueRows(t.rows, run);
    assert Row(run, queue[n]) in t.rows;
    FindIsRow(t.rows, Row(run, queue[n]));
    PendingIsSuffix(queue, t.done, n);
  }

  lemma TakeOfSuffix<T>(page: nat, s: seq<T>, n: nat, k: nat)
    requires n <= |s| && k <= |Take(page, s[n..])|
    ensures n + k <= |s| && Take(page, s[n..])[..k] == s[n..n + k]
  {}

  // ----- composing a response -----

  /** The combined response to one batch of controls, built in the order they were requested. */
  method ComposeResponse(controls: seq<Control>, initial: bytes) returns (c: Composition)
    ensures c == Compose(controls, initial)
  {
    var context, stop, delivered := initial, false, [];
    for i := 0 to |controls|
      invariant !stop
      invariant Compose(controls, initial)
                == var more := Compose(controls[i..], context); more.(delivered := delivered + more.delivered)
    {
      var control := controls[i];
      assert controls[i..][1..] == controls[i + 1..];
      match control.action {
        case Steer =>
          if !Fits(context, control.instruction) {
            return Composition(context, stop, delivered);
          }
          context := Extend(context, control.instruction);
          delivered := delivered + [control.id];
        case Stop =>
          stop := true;
          delivered := delivered + [control.id];
          return Composition(context, stop, delivered);
        case _ =>
          return Composition(context, stop, delivered);
      }
    }
    c := Composition(context, stop, delivered);
  }
}
