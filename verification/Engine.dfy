/** The Datalog engine's evaluation of postfix expressions, and when the verifier's answer is also the engine's. */
module Engine {
  import opened Bytes
  import opened Ceiling

  // ----- the engine's stack machine -----

  /** What the engine's stack holds: data, and closures waiting for the operator that may force them.  A closure
      carries the value its body would give, since nothing that happens meanwhile can change it. */
  datatype Element = Datum(value: Meaning) | Suspended(params: seq<string>, result: Option<Meaning>)

  function EngineTerm(term: Term, env: Env): Option<Meaning> {
    match term
    case Variable(name) => if name in env then Some(S(env[name])) else None
    case Str(s) => Some(S(s))
    case Bool(b) => Some(B(b))
    case OtherTerm => None
  }

  predicate IsLazy(binary: Binary) { binary == LazyAnd || binary == LazyOr }

  /** An operator on two data.  The lazy ones take a closure instead, and values of other kinds than text and
      truth have no value here. */
  function Combine(binary: Binary, left: Meaning, right: Meaning): Option<Meaning> {
    match binary
    case HeterogeneousEqual => Some(B(left == right))
    case NotEqual => if left.S? == right.S? then Some(B(left != right)) else None
    case _ => if IsLazy(binary) then None else ApplyMeaning(binary, left, right)
  }

  /** Does the left operand already settle a lazy operator? */
  predicate Decides(binary: Binary, left: bool) { left == (binary == LazyOr) }

  /** A lazy operator forces a closure without parameters, and only when the left operand does not settle it. */
  function Force(binary: Binary, left: Meaning, params: seq<string>, result: Option<Meaning>): Option<Meaning> {
    if !IsLazy(binary) || params != [] || !left.B? then None
    else if Decides(binary, left.b) then Some(left)
    else result
  }

  function Operate(binary: Binary, left: Element, right: Element): Option<Meaning> {
    if left.Suspended? then None
    else
      match right
      case Datum(value) => Combine(binary, left.value, value)
      case Suspended(params, result) => Force(binary, left.value, params, result)
  }

  function EngineStep(op: Op, stack: seq<Element>, env: Env): Option<seq<Element>>
    decreases op, 0
  {
    var n := |stack|;
    match op
    case Value(term) =>
      var v :- EngineTerm(term, env);
      Some(stack + [Datum(v)])
    case UnaryOp(Parens) => if n > 0 && stack[n - 1].Datum? then Some(stack) else None
    case UnaryOp(OtherUnary) => None
    case Closure(params, ops) => Some(stack + [Suspended(params, EngineResult(ops, env))])
    case BinaryOp(binary) =>
      if n < 2 then None
      else
        var v :- Operate(binary, stack[n - 2], stack[n - 1]);
        Some(stack[..n - 2] + [Datum(v)])
  }

  function EngineRun(ops: seq<Op>, stack: seq<Element>, env: Env): Option<seq<Element>>
    decreases ops, 1
  {
    if |ops| == 0 then Some(stack)
    else
      var next :- EngineStep(ops[0], stack, env);
      EngineRun(ops[1..], next, env)
  }

  /** One datum must be left, not a closure. */
  function EngineResult(ops: seq<Op>, env: Env): Option<Meaning>
    decreases ops, 2
  {
    match EngineRun(ops, [], env)
    case None => None
    case Some(stack) => if |stack| == 1 && stack[0].Datum? then Some(stack[0].value) else None
  }

  /** The strict operators are the short-circuit ones with both sides computed: `false` settles a conjunction, `true`
      a disjunction, and otherwise the right side is the answer. */
  lemma StrictIsShortCircuit(l: bool, r: bool)
    ensures forall op | op in {And, LazyAnd} :: ApplyMeaning(op, B(l), B(r)) == Some(B(if !l then false else r))
    ensures forall op | op in {Or, LazyOr} :: ApplyMeaning(op, B(l), B(r)) == Some(B(if l then true else r))
    ensures Force(LazyAnd, B(l), [], Some(B(r))) == ApplyMeaning(And, B(l), B(r))
    ensures Force(LazyOr, B(l), [], Some(B(r))) == ApplyMeaning(Or, B(l), B(r))
  {}

  // ----- the engine on expression trees -----

  function EngineValue(e: Expr, env: Env): Option<Meaning> {
    match e
    case Text(s) => Some(S(s))
    case Truth(b) => Some(B(b))
    case Var(name) => if name in env then Some(S(env[name])) else None
    case Paren(inner) => EngineValue(inner, env)
    case Thunk(_, _) => None
    case Apply(binary, left, right) =>
      var l :- EngineValue(left, env);
      if right.Thunk? then Force(binary, l, right.params, EngineValue(right.body, env))
      else
        var r :- EngineValue(right, env);
        Combine(binary, l, r)
  }

  /** What a tree leaves on the engine's stack. */
  function ElementOf(e: Expr, env: Env): Option<Element> {
    if e.Thunk? then Some(Suspended(e.params, EngineValue(e.body, env)))
    else
      var v :- EngineValue(e, env);
      Some(Datum(v))
  }

  lemma {:induction false} EngineRunAppend(a: seq<Op>, b: seq<Op>, stack: seq<Element>, env: Env)
    ensures EngineRun(a + b, stack, env) ==
            match EngineRun(a, stack, env) case None => None case Some(mid) => EngineRun(b, mid, env)
  {
    hide EngineStep;
    if |a| == 0 {
      assert a + b == b;
    } else {
      assert (a + b)[1..] == a[1..] + b;
      var next := EngineStep(a[0], stack, env);
      if next.Some? { EngineRunAppend(a[1..], b, next.value, env); }
    }
  }

  lemma EngineRunOne(op: Op, stack: seq<Element>, env: Env)
    ensures EngineRun([op], stack, env) == EngineStep(op, stack, env)
  {
    hide EngineStep;
    assert [op][1..] == [];
  }

  lemma {:induction false} TreeRuns(e: Expr, stack: seq<Element>, env: Env)
    ensures EngineRun(Postfix(e), stack, env) ==
            match ElementOf(e, env) case None => None case Some(element) => Some(stack + [element])
    decreases e, 0
  {
    hide EngineRun, EngineResult, Combine, Force;
    match e {
      case Paren(inner) =>
        ThunkHasNoValue(inner, env);
        TreeRuns(inner, stack, env);
        EngineRunAppend(Postfix(inner), [UnaryOp(Parens)], stack, env);
        if ElementOf(inner, env).Some? {
          var element := ElementOf(inner, env).value;
          EngineRunOne(UnaryOp(Parens), stack + [element], env);
          assert (stack + [element])[|stack|] == element;
        }
      case Thunk(params, body) =>
        TreeResult(body, env);
        EngineRunOne(Closure(params, Postfix(body)), stack, env);
      case Apply(binary, left, right) =>
        TreeRuns(left, stack, env);
        EngineRunAppend(Postfix(left), Postfix(right), stack, env);
        EngineRunAppend(Postfix(left) + Postfix(right), [BinaryOp(binary)], stack, env);
        var l, r := ElementOf(left, env), ElementOf(right, env);
        if l.Some? {
          TreeRuns(right, stack + [l.value], env);
          if r.Some? {
            EngineRunOne(BinaryOp(binary), stack + [l.value] + [r.value], env);
            ApplyStep(binary, left, right, stack, env);
          }
        }
      case _ => EngineRunOne(Postfix(e)[0], stack, env);
    }
  }

  lemma ApplyStep(binary: Binary, left: Expr, right: Expr, stack: seq<Element>, env: Env)
    requires ElementOf(left, env).Some? && ElementOf(right, env).Some?
    ensures EngineStep(BinaryOp(binary), stack + [ElementOf(left, env).value] + [ElementOf(right, env).value], env) ==
            match EngineValue(Apply(binary, left, right), env)
            case None => None
            case Some(v) => Some(stack + [Datum(v)])
  {
    hide Combine, Force;
    var l, r := ElementOf(left, env).value, ElementOf(right, env).value;
    var both := stack + [l] + [r];
    assert both[..|both| - 2] == stack && both[|both| - 2] == l && both[|both| - 1] == r;
  }

  /** So the engine gives a tree's program the tree's value. */
  lemma TreeResult(e: Expr, env: Env)
    ensures EngineResult(Postfix(e), env) == EngineValue(e, env)
    decreases e, 1
  {
    hide EngineRun, EngineValue, Postfix;
    TreeRuns(e, [], env);
    ThunkHasNoValue(e, env);
  }

  lemma ThunkHasNoValue(e: Expr, env: Env)
    ensures e.Thunk? ==> EngineValue(e, env).None?
  {}

  // ----- the discipline the verifier's machine does not enforce -----

  /** A place on the verifier's stack: a value, or a closure's value with whether its body keeps the discipline. */
  datatype Slot = Plain(value: CeilingValue) | Closed(params: seq<string>, value: CeilingValue, kept: bool)

  /** What the engine demands of operands: the left one is a value; a lazy operator's right one is a closure
      without parameters, whose body matters only if it is forced, and any other operator's is a value. */
  predicate Permitted(binary: Binary, left: Slot, right: Slot) {
    left.Plain? &&
    match right
    case Plain(_) => !IsLazy(binary)
    case Closed(params, _, kept) =>
      IsLazy(binary) && params == [] && (kept || left.value == BoolValue(binary == LazyOr))
  }

  function SlotStep(op: Op, slots: seq<Slot>, req: Request): Option<seq<Slot>>
    decreases op, 0
  {
    var n := |slots|;
    match op
    case Value(term) => Some(slots + [Plain(EvalTerm(term, req))])
    case UnaryOp(Parens) => if n > 0 && slots[n - 1].Plain? then Some(slots) else None
    case UnaryOp(OtherUnary) => None
    case Closure(params, ops) => Some(slots + [Closed(params, Evaluate(ops, req), Disciplined(ops, req))])
    case BinaryOp(binary) =>
      if n < 2 || !Permitted(binary, slots[n - 2], slots[n - 1]) then None
      else Some(slots[..n - 2] + [Plain(EvalBinary(binary, slots[n - 2].value, slots[n - 1].value))])
  }

  function SlotRun(ops: seq<Op>, slots: seq<Slot>, req: Request): Option<seq<Slot>>
    decreases ops, 1
  {
    if |ops| == 0 then Some(slots)
    else
      var next :- SlotStep(ops[0], slots, req);
      SlotRun(ops[1..], next, req)
  }

  /** The discipline is kept throughout, and no closure is left over. */
  predicate Disciplined(ops: seq<Op>, req: Request)
    decreases ops, 2
  {
    match SlotRun(ops, [], req)
    case None => false
    case Some(slots) => |slots| == 1 && slots[0].Plain?
  }

  // ----- the engine and the verifier in lockstep -----

  /** The assignment gives the request's values to the machine's two variables. */
  predicate Agrees(env: Env, req: Request) {
    req.kindVar in env && env[req.kindVar] == req.kind &&
    (req.pathVar != req.kindVar ==> req.pathVar in env && env[req.pathVar] == req.path)
  }

  /** One place on all three stacks. */
  ghost predicate Place(slot: Slot, value: CeilingValue, element: Element) {
    slot.value == value && value != Unknown &&
    match slot
    case Plain(_) => element.Datum? && Lift(Some(element.value)) == value
    case Closed(params, _, kept) =>
      element.Suspended? && element.params == params &&
      (if kept then element.result.Some? && Lift(element.result) == value else element.result.None?)
  }

  ghost predicate Places(slots: seq<Slot>, stack: Stack, elements: seq<Element>) {
    |slots| == |stack| == |elements| && forall i | 0 <= i < |slots| :: Place(slots[i], stack[i], elements[i])
  }

  /** Both refuse, or both go on together. */
  ghost predicate Together(slots: Option<seq<Slot>>, stack: Stack, elements: Option<seq<Element>>) {
    (slots.Some? <==> elements.Some?) && (slots.Some? ==> Places(slots.value, stack, elements.value))
  }

  lemma PushPlace(slots: seq<Slot>, stack: Stack, elements: seq<Element>, slot: Slot, value: CeilingValue, e: Element)
    requires Places(slots, stack, elements) && Place(slot, value, e)
    ensures Places(slots + [slot], stack + [value], elements + [e])
  {
    hide Place;
  }

  lemma OperandsTogether(
    binary: Binary, l: Slot, lv: CeilingValue, le: Element, r: Slot, rv: CeilingValue, re: Element)
    requires Place(l, lv, le) && Place(r, rv, re) && EvalBinary(binary, lv, rv) != Unknown
    ensures Permitted(binary, l, r) <==> Operate(binary, le, re).Some?
    ensures l.value == lv && r.value == rv
    ensures Permitted(binary, l, r) ==> Lift(Operate(binary, le, re)) == EvalBinary(binary, lv, rv)
  {
    hide EvalBinary, ApplyMeaning;
    if l.Plain? {
      KnownOperands(binary, lv, rv);
      if r.Plain? {
        BinaryValue(binary, Some(le.value), Some(re.value));
        if !IsLazy(binary) { CombineApplies(binary, le.value, re.value); }
      } else if IsLazy(binary) {
        LazyValues(binary, lv, rv);
      }
    }
  }

  lemma KnownOperands(binary: Binary, l: CeilingValue, r: CeilingValue)
    requires EvalBinary(binary, l, r) != Unknown
    ensures binary != NotEqual && binary != OtherBinary
    ensures l != Unknown && r != Unknown
    ensures binary == HeterogeneousEqual ==> l.StringValue? == r.StringValue?
  {}

  lemma LazyValues(binary: Binary, l: CeilingValue, r: CeilingValue)
    requires IsLazy(binary) && EvalBinary(binary, l, r) != Unknown
    ensures l.BoolValue? && r.BoolValue?
    ensures EvalBinary(binary, l, r) == if Decides(binary, l.b) then l else r
  {}

  lemma CombineApplies(binary: Binary, l: Meaning, r: Meaning)
    requires binary != NotEqual && binary != OtherBinary && !IsLazy(binary)
    requires binary == HeterogeneousEqual ==> l.S? == r.S?
    ensures Combine(binary, l, r) == ApplyMeaning(binary, l, r)
  {}

  lemma BinaryTogether(
    binary: Binary, slots: seq<Slot>, stack: Stack, elements: seq<Element>, req: Request, env: Env)
    requires Places(slots, stack, elements) && EvalBinary(binary, Top(Below(stack)), Top(stack)) != Unknown
    ensures Together(SlotStep(BinaryOp(binary), slots, req), Step(BinaryOp(binary), stack, req),
                     EngineStep(BinaryOp(binary), elements, env))
  {
    hide EvalBinary, Place, Operate, Permitted;
    KnownOperands(binary, Top(Below(stack)), Top(stack));
    var n := |stack|;
    var l, lv, le := slots[n - 2], stack[n - 2], elements[n - 2];
    var r, rv, re := slots[n - 1], stack[n - 1], elements[n - 1];
    assert Below(Below(stack)) == stack[..n - 2] && Top(Below(stack)) == lv && Top(stack) == rv;
    OperandsTogether(binary, l, lv, le, r, rv, re);
    if Permitted(binary, l, r) {
      var m := Operate(binary, le, re).value;
      DatumPlace(EvalBinary(binary, lv, rv), m);
      PushPlace(slots[..n - 2], stack[..n - 2], elements[..n - 2], Plain(EvalBinary(binary, lv, rv)),
        EvalBinary(binary, lv, rv), Datum(m));
    }
  }

  lemma DatumPlace(value: CeilingValue, m: Meaning)
    requires Lift(Some(m)) == value && value != Unknown
    ensures Place(Plain(value), value, Datum(m))
  {}

  lemma TermTogether(term: Term, req: Request, env: Env)
    requires Agrees(env, req) && EvalTerm(term, req) != Unknown
    ensures EngineTerm(term, env).Some? && Lift(EngineTerm(term, env)) == EvalTerm(term, req)
  {}

  lemma {:induction false} StepTogether(
    op: Op, slots: seq<Slot>, stack: Stack, elements: seq<Element>, req: Request, env: Env)
    requires Agrees(env, req) && Places(slots, stack, elements) && Unknown !in Step(op, stack, req)
    ensures Together(SlotStep(op, slots, req), Step(op, stack, req), EngineStep(op, elements, env))
    decreases op, 0
  {
    hide Place, EngineResult, Disciplined, Evaluate, EvalBinary, EvalTerm, EngineTerm, Operate, Permitted, Lift;
    match op {
      case Value(term) =>
        LastIn(stack, EvalTerm(term, req));
        TermTogether(term, req, env);
        DatumPlace(EvalTerm(term, req), EngineTerm(term, env).value);
        PushPlace(slots, stack, elements, Plain(EvalTerm(term, req)), EvalTerm(term, req),
          Datum(EngineTerm(term, env).value));
      case UnaryOp(Parens) => if slots != [] { TopTogether(slots, stack, elements); }
      case UnaryOp(OtherUnary) =>
        LastIn(Below(stack), Unknown);
        assert false;
      case Closure(params, ops) =>
        LastIn(stack, Evaluate(ops, req));
        EngineAgrees(ops, req, env);
        var slot := Closed(params, Evaluate(ops, req), Disciplined(ops, req));
        assert Place(slot, Evaluate(ops, req), Suspended(params, EngineResult(ops, env))) by {
          ClosurePlace(params, Evaluate(ops, req), Disciplined(ops, req), EngineResult(ops, env));
        }
        PushPlace(slots, stack, elements, slot, Evaluate(ops, req), Suspended(params, EngineResult(ops, env)));
      case BinaryOp(binary) =>
        LastIn(Below(Below(stack)), EvalBinary(binary, Top(Below(stack)), Top(stack)));
        BinaryTogether(binary, slots, stack, elements, req, env);
    }
  }

  lemma TopTogether(slots: seq<Slot>, stack: Stack, elements: seq<Element>)
    requires Places(slots, stack, elements) && |slots| > 0
    ensures slots[|slots| - 1].Plain? <==> elements[|slots| - 1].Datum?
  {
    assert Place(slots[|slots| - 1], stack[|slots| - 1], elements[|slots| - 1]);
  }

  lemma ClosurePlace(params: seq<string>, value: CeilingValue, kept: bool, result: Option<Meaning>)
    requires value != Unknown && (if kept then Lift(result) == value else result == None)
    ensures Place(Closed(params, value, kept), value, Suspended(params, result))
  {}

  lemma {:induction false} RunTogether(
    ops: seq<Op>, slots: seq<Slot>, stack: Stack, elements: seq<Element>, req: Request, env: Env)
    requires Agrees(env, req) && Places(slots, stack, elements) && Unknown !in Run(ops, stack, req)
    ensures Together(SlotRun(ops, slots, req), Run(ops, stack, req), EngineRun(ops, elements, env))
    decreases ops, 1
  {
    hide Step, SlotStep, EngineStep, Places;
    if |ops| > 0 {
      var next := Step(ops[0], stack, req);
      if Unknown in next {
        RunAbsorbs(ops[1..], next, req);
        assert false;
      }
      StepTogether(ops[0], slots, stack, elements, req, env);
      var s, e := SlotStep(ops[0], slots, req), EngineStep(ops[0], elements, env);
      if s.Some? { RunTogether(ops[1..], s.value, next, e.value, req, env); }
    }
  }

  /** Where the verifier's machine gives an answer, the engine gives the same one if the list keeps the engine's
      discipline, and refuses the list if it does not. */
  lemma EngineAgrees(ops: seq<Op>, req: Request, env: Env)
    requires Agrees(env, req) && Evaluate(ops, req) != Unknown
    ensures if Disciplined(ops, req) then Lift(EngineResult(ops, env)) == Evaluate(ops, req)
            else EngineResult(ops, env) == None
    decreases ops, 2
  {
    hide Run, SlotRun, EngineRun, Lift;
    var stack := Run(ops, [], req);
    assert stack == [stack[0]] && Unknown !in stack;
    RunTogether(ops, [], [], [], req, env);
    if SlotRun(ops, [], req).Some? {
      var slots, elements := SlotRun(ops, [], req).value, EngineRun(ops, [], env).value;
      assert Place(slots[0], stack[0], elements[0]);
    }
  }

  // ----- expressions as text gives them -----

  /** What parsing text produces: a lazy operator's right operand is a closure without parameters, and no other
      closure occurs. */
  predicate Written(e: Expr) {
    match e
    case Paren(inner) => Written(inner)
    case Thunk(_, _) => false
    case Apply(binary, left, right) =>
      Written(left) &&
      if IsLazy(binary) then right.Thunk? && right.params == [] && Written(right.body) else Written(right)
    case _ => true
  }

  /** On such a tree short-circuiting never contradicts the strict value. */
  lemma {:induction false} WrittenValue(e: Expr, env: Env)
    requires Written(e) && Denote(e, env).Some?
    ensures EngineValue(e, env) == Denote(e, env)
  {
    match e {
      case Paren(inner) => WrittenValue(inner, env);
      case Apply(binary, left, right) =>
        WrittenValue(left, env);
        WrittenValue(if right.Thunk? then right.body else right, env);
        assert right.Thunk? ==> Denote(right, env) == Denote(right.body, env);
      case _ =>
    }
  }

  /** So every expression written as text keeps the discipline wherever the verifier's machine answers it. */
  lemma WrittenIsDisciplined(e: Expr, req: Request)
    requires Written(e) && Evaluate(Postfix(e), req) != Unknown
    ensures Disciplined(Postfix(e), req)
  {
    hide Written, Run, EngineResult, Disciplined, Postfix, Denote, EngineValue;
    var env := EnvOf(req);
    RunPostfix(e, [], req);
    LiftKnown(Denote(e, env));
    WrittenValue(e, env);
    TreeResult(e, env);
    EngineAgrees(Postfix(e), req, env);
  }

  /** Outside the discipline the two part: parentheses around nothing, and a closure left as the result, are
      answered by the verifier's machine and refused by the engine. */
  lemma AnsweredButRefused(params: seq<string>, req: Request, env: Env)
    requires Agrees(env, req)
    ensures var stray := [UnaryOp(Parens), Value(Bool(true))];
            Evaluate(stray, req) == BoolValue(true) && EngineResult(stray, env) == None
    ensures var left := [Closure(params, [Value(Bool(true))])];
            Evaluate(left, req) == BoolValue(true) && EngineResult(left, env) == None
  {
    StrayParensAccepted(req);
    EngineRunOne(UnaryOp(Parens), [], env);
    EngineRunAppend([UnaryOp(Parens)], [Value(Bool(true))], [], env);
    assert [UnaryOp(Parens)] + [Value(Bool(true))] == [UnaryOp(Parens), Value(Bool(true))];
    RunOne(Value(Bool(true)), [], req);
    RunOne(Closure(params, [Value(Bool(true))]), [], req);
    EngineRunOne(Closure(params, [Value(Bool(true))]), [], env);
  }
}
