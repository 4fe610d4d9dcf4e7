/** The three-valued stack machine that evaluates attenuation ceilings, against expression trees. */
module Ceiling {
  import opened Bytes

  // ----- Datalog expressions as the token stores them -----

  datatype Term = Variable(name: string) | Str(text: string) | Bool(truth: bool) | OtherTerm

  datatype Unary = Parens | OtherUnary

  datatype Binary = Equal | HeterogeneousEqual | Prefix | And | LazyAnd | Or | LazyOr | NotEqual | OtherBinary

  datatype Op =
    | Value(term: Term)
    | UnaryOp(unary: Unary)
    | BinaryOp(binary: Binary)
    | Closure(params: seq<string>, ops: seq<Op>)

  // ----- the machine -----

  datatype CeilingValue = StringValue(s: string) | BoolValue(b: bool) | Unknown

  /** The two variables of the resource atom and the request's values for them. */
  datatype Request = Request(kindVar: string, kind: string, pathVar: string, path: string)

  type Env = map<string, string>

  /** What the machine takes variables to stand for: the kind variable is looked at first. */
  function EnvOf(req: Request): Env { map[req.pathVar := req.path][req.kindVar := req.kind] }

  function EvalBinary(binary: Binary, left: CeilingValue, right: CeilingValue): CeilingValue {
    match (binary, left, right)
    case (Equal, StringValue(l), StringValue(r)) => BoolValue(l == r)
    case (HeterogeneousEqual, StringValue(l), StringValue(r)) => BoolValue(l == r)
    case (Equal, BoolValue(l), BoolValue(r)) => BoolValue(l == r)
    case (HeterogeneousEqual, BoolValue(l), BoolValue(r)) => BoolValue(l == r)
    case (Prefix, StringValue(value), StringValue(prefix)) => BoolValue(prefix <= value)
    case (And, BoolValue(l), BoolValue(r)) => BoolValue(l && r)
    case (LazyAnd, BoolValue(l), BoolValue(r)) => BoolValue(l && r)
    case (Or, BoolValue(l), BoolValue(r)) => BoolValue(l || r)
    case (LazyOr, BoolValue(l), BoolValue(r)) => BoolValue(l || r)
    case _ => Unknown
  }

  function EvalTerm(term: Term, req: Request): CeilingValue {
    match term
    case Variable(name) =>
      if name == req.kindVar then StringValue(req.kind)
      else if name == req.pathVar then StringValue(req.path)
      else Unknown
    case Str(s) => StringValue(s)
    case Bool(b) => BoolValue(b)
    case OtherTerm => Unknown
  }

  type Stack = seq<CeilingValue>

  /** `stack.pop().unwrap_or(Unknown)`: an empty stack yields Unknown and stays empty. */
  function Top(stack: Stack): CeilingValue { if stack == [] then Unknown else stack[|stack| - 1] }

  function Below(stack: Stack): Stack { if stack == [] then [] else stack[..|stack| - 1] }

  function Step(op: Op, stack: Stack, req: Request): Stack
    decreases op, 0
  {
    match op
    case Value(term) => stack + [EvalTerm(term, req)]
    case UnaryOp(Parens) => stack
    case UnaryOp(OtherUnary) => Below(stack) + [Unknown]
    case Closure(_, ops) => stack + [Evaluate(ops, req)]
    case BinaryOp(binary) => Below(Below(stack)) + [EvalBinary(binary, Top(Below(stack)), Top(stack))]
  }

  function Run(ops: seq<Op>, stack: Stack, req: Request): Stack
    decreases ops, 1
  {
    if |ops| == 0 then stack else Run(ops[1..], Step(ops[0], stack, req), req)
  }

  function Outcome(stack: Stack): CeilingValue { if |stack| == 1 then stack[0] else Unknown }

  function Evaluate(ops: seq<Op>, req: Request): CeilingValue
    decreases ops, 2
  {
    Outcome(Run(ops, [], req))
  }

  /** The machine as it runs, pushing and popping one stack. */
  method EvaluateOps(ops: seq<Op>, req: Request) returns (r: CeilingValue)
    ensures r == Evaluate(ops, req)
    decreases ops
  {
    var stack: Stack := [];
    for i := 0 to |ops|
      invariant Run(ops[i..], stack, req) == Run(ops, [], req)
    {
      assert ops[i..][1..] == ops[i + 1..] && ops[i] in ops;
      match ops[i] {
        case Value(term) => stack := stack + [EvalTerm(term, req)];
        case UnaryOp(Parens) =>
        case UnaryOp(OtherUnary) => stack := Below(stack) + [Unknown];
        case Closure(_, body) =>
          var value := EvaluateOps(body, req);
          stack := stack + [value];
        case BinaryOp(binary) =>
          var right := Top(stack);
          stack := Below(stack);
          var left := Top(stack);
          stack := Below(stack) + [EvalBinary(binary, left, right)];
      }
    }
    assert ops[|ops|..] == [];
    r := Outcome(stack);
  }

  // ----- expression trees and what they mean -----

  /** The expressions a ceiling can be decided on. */
  datatype Expr =
    | Text(s: string)
    | Truth(b: bool)
    | Var(name: string)
    | Paren(inner: Expr)
    | Apply(binary: Binary, left: Expr, right: Expr)
    | Thunk(params: seq<string>, body: Expr)

  datatype Meaning = S(s: string) | B(b: bool)

  function ApplyMeaning(binary: Binary, left: Meaning, right: Meaning): Option<Meaning> {
    match binary
    case Equal => SameMeaning(left, right)
    case HeterogeneousEqual => SameMeaning(left, right)
    case Prefix => if left.S? && right.S? then Some(B(right.s <= left.s)) else None
    case And => if left.B? && right.B? then Some(B(left.b && right.b)) else None
    case LazyAnd => if left.B? && right.B? then Some(B(left.b && right.b)) else None
    case Or => if left.B? && right.B? then Some(B(left.b || right.b)) else None
    case LazyOr => if left.B? && right.B? then Some(B(left.b || right.b)) else None
    case NotEqual => None
    case OtherBinary => None
  }

  /** Equality compares values of one type only. */
  function SameMeaning(left: Meaning, right: Meaning): Option<Meaning> {
    if left.S? && right.S? then Some(B(left.s == right.s))
    else if left.B? && right.B? then Some(B(left.b == right.b))
    else None
  }

  /** The value of a tree whose every part is well typed and decidable; a thunk is forced when asked for. */
  function Denote(e: Expr, env: Env): Option<Meaning> {
    match e
    case Text(s) => Some(S(s))
    case Truth(b) => Some(B(b))
    case Var(name) => if name in env then Some(S(env[name])) else None
    case Paren(inner) => Denote(inner, env)
    case Thunk(_, body) => Denote(body, env)
    case Apply(binary, left, right) =>
      var l :- Denote(left, env);
      var r :- Denote(right, env);
      ApplyMeaning(binary, l, r)
  }

  // ----- postfix programs -----

  function Postfix(e: Expr): seq<Op> {
    match e
    case Text(s) => [Value(Str(s))]
    case Truth(b) => [Value(Bool(b))]
    case Var(name) => [Value(Variable(name))]
    case Paren(inner) => Postfix(inner) + [UnaryOp(Parens)]
    case Thunk(params, body) => [Closure(params, Postfix(body))]
    case Apply(binary, left, right) => Postfix(left) + Postfix(right) + [BinaryOp(binary)]
  }

  /** The list without the parentheses that enclose nothing: those that begin it or begin a closure's body. */
  function Tidy(ops: seq<Op>): (tidy: seq<Op>)
    ensures |tidy| <= |ops|
    decreases ops, 2
  {
    if |ops| > 0 && ops[0] == UnaryOp(Parens) then Tidy(ops[1..]) else TidyRest(ops)
  }

  function TidyRest(ops: seq<Op>): (tidy: seq<Op>)
    ensures |tidy| == |ops|
    decreases ops, 1
  {
    if |ops| == 0 then [] else [TidyOp(ops[0])] + TidyRest(ops[1..])
  }

  function TidyOp(op: Op): Op
    decreases op, 0
  {
    match op
    case Closure(params, ops) => Closure(params, Tidy(ops))
    case _ => op
  }

  /** Neither the list nor any closure's body begins with parentheses. */
  predicate IsTidy(ops: seq<Op>)
    decreases ops
  {
    (|ops| > 0 ==> ops[0] != UnaryOp(Parens)) && forall op | op in ops && op.Closure? :: IsTidy(op.ops)
  }

  lemma {:induction false} RunAppend(a: seq<Op>, b: seq<Op>, stack: Stack, req: Request)
    ensures Run(a + b, stack, req) == Run(b, Run(a, stack, req), req)
  {
    hide Step;
    if |a| == 0 {
      assert a + b == b;
    } else {
      assert (a + b)[1..] == a[1..] + b;
      RunAppend(a[1..], b, Step(a[0], stack, req), req);
    }
  }

  lemma RunOne(op: Op, stack: Stack, req: Request)
    ensures Run([op], stack, req) == Step(op, stack, req)
  {
    hide Step;
    assert Run([op][1..], Step(op, stack, req), req) == Step(op, stack, req);
  }

  lemma {:induction false} TidyPreserves(ops: seq<Op>, stack: Stack, req: Request)
    ensures Run(Tidy(ops), stack, req) == Run(ops, stack, req)
    decreases ops, 2
  {
    if |ops| > 0 && ops[0] == UnaryOp(Parens) {
      TidyPreserves(ops[1..], stack, req);
    } else {
      TidyRestPreserves(ops, stack, req);
    }
  }

  lemma {:induction false} TidyRestPreserves(ops: seq<Op>, stack: Stack, req: Request)
    ensures Run(TidyRest(ops), stack, req) == Run(ops, stack, req)
    decreases ops, 1
  {
    if |ops| > 0 {
      var next := Step(ops[0], stack, req);
      TidyOpPreserves(ops[0], stack, req);
      TidyRestPreserves(ops[1..], next, req);
      assert TidyRest(ops)[1..] == TidyRest(ops[1..]);
    }
  }

  lemma TidyOpPreserves(op: Op, stack: Stack, req: Request)
    ensures Step(TidyOp(op), stack, req) == Step(op, stack, req)
    decreases op, 0
  {
    if op.Closure? { TidyPreserves(op.ops, [], req); }
  }

  // ----- when a list is tidy -----

  lemma {:induction false} TidyIsIdentity(ops: seq<Op>)
    ensures IsTidy(ops) <==> Tidy(ops) == ops
    decreases ops, 2
  {
    hide TidyRest;
    if |ops| > 0 && ops[0] == UnaryOp(Parens) {
      assert |Tidy(ops)| < |ops|;
    } else {
      TidyRestIsIdentity(ops);
    }
  }

  lemma {:induction false} TidyRestIsIdentity(ops: seq<Op>)
    ensures (forall op | op in ops && op.Closure? :: IsTidy(op.ops)) <==> TidyRest(ops) == ops
    decreases ops, 1
  {
    hide IsTidy, Tidy;
    if |ops| > 0 {
      assert ops == [ops[0]] + ops[1..] && TidyRest(ops) == [TidyOp(ops[0])] + TidyRest(ops[1..]);
      TidyRestIsIdentity(ops[1..]);
      TidyOpIsIdentity(ops[0]);
      assert forall op :: op in ops <==> op == ops[0] || op in ops[1..];
      assert TidyRest(ops) == ops ==> TidyRest(ops)[0] == ops[0] && TidyRest(ops)[1..] == ops[1..];
    }
  }

  lemma TidyOpIsIdentity(op: Op)
    ensures (op.Closure? ==> IsTidy(op.ops)) <==> TidyOp(op) == op
    decreases op, 0
  {
    if op.Closure? { TidyIsIdentity(op.ops); }
  }

  /** A tree's program is tidy. */
  lemma {:induction false} PostfixIsTidy(e: Expr)
    ensures |Postfix(e)| > 0 && IsTidy(Postfix(e))
  {
    match e {
      case Paren(inner) =>
        PostfixIsTidy(inner);
        assert forall op :: op in Postfix(e) <==> op in Postfix(inner) || op == UnaryOp(Parens);
      case Thunk(params, body) => PostfixIsTidy(body);
      case Apply(binary, left, right) =>
        PostfixIsTidy(left);
        PostfixIsTidy(right);
        assert forall op :: op in Postfix(e) <==> op in Postfix(left) || op in Postfix(right) || op == BinaryOp(binary);
      case _ =>
    }
  }

  function Lift(m: Option<Meaning>): CeilingValue {
    match m
    case None => Unknown
    case Some(S(s)) => StringValue(s)
    case Some(B(b)) => BoolValue(b)
  }

  lemma ApplyValue(binary: Binary, l: Expr, r: Expr, req: Request)
    ensures Lift(Denote(Apply(binary, l, r), EnvOf(req)))
            == EvalBinary(binary, Lift(Denote(l, EnvOf(req))), Lift(Denote(r, EnvOf(req))))
  {
    hide EvalBinary, ApplyMeaning, Lift, EnvOf;
    BinaryValue(binary, Denote(l, EnvOf(req)), Denote(r, EnvOf(req)));
  }

  lemma BinaryValue(binary: Binary, l: Option<Meaning>, r: Option<Meaning>)
    ensures Lift(if l.Some? && r.Some? then ApplyMeaning(binary, l.value, r.value) else None)
            == EvalBinary(binary, Lift(l), Lift(r))
  {}

  lemma RunApply(binary: Binary, left: Expr, right: Expr, stack: Stack, req: Request)
    requires var l := Lift(Denote(left, EnvOf(req)));
             Run(Postfix(left), stack, req) == stack + [l] &&
             Run(Postfix(right), stack + [l], req)
             == stack + [l] + [Lift(Denote(right, EnvOf(req)))]
    ensures Run(Postfix(Apply(binary, left, right)), stack, req)
            == stack + [Lift(Denote(Apply(binary, left, right), EnvOf(req)))]
  {
    hide Run, Denote, Lift, EvalBinary;
    var l, r := Postfix(left), Postfix(right);
    var stack1 := stack + [Lift(Denote(left, EnvOf(req)))];
    var stack2 := stack1 + [Lift(Denote(right, EnvOf(req)))];
    RunAppend(l, r, stack, req);
    RunAppend(l + r, [BinaryOp(binary)], stack, req);
    assert Below(stack2) == stack1 && Below(stack1) == stack;
    RunOne(BinaryOp(binary), stack2, req);
    ApplyValue(binary, left, right, req);
  }

  /** Running a tree's program pushes its value, or Unknown when it has none. */
  lemma {:induction false} RunPostfix(e: Expr, stack: Stack, req: Request)
    ensures Run(Postfix(e), stack, req) == stack + [Lift(Denote(e, EnvOf(req)))]
  {
    match e {
      case Paren(inner) =>
        RunPostfix(inner, stack, req);
        RunAppend(Postfix(inner), [UnaryOp(Parens)], stack, req);
        RunOne(UnaryOp(Parens), stack + [Lift(Denote(inner, EnvOf(req)))], req);
      case Thunk(params, body) =>
        RunPostfix(body, [], req);
        RunOne(Closure(params, Postfix(body)), stack, req);
      case Apply(binary, left, right) =>
        RunPostfix(left, stack, req);
        RunPostfix(right, stack + [Lift(Denote(left, EnvOf(req)))], req);
        RunApply(binary, left, right, stack, req);
      case _ =>
        RunOne(Postfix(e)[0], stack, req);
    }
  }

  // ----- Unknown is absorbing -----

  lemma StepAbsorbs(op: Op, stack: Stack, req: Request)
    requires Unknown in stack
    ensures Unknown in Step(op, stack, req)
  {
    match op {
      case BinaryOp(binary) =>
        var right, left, rest := Top(stack), Top(Below(stack)), Below(Below(stack));
        assert right == Unknown || left == Unknown || Unknown in rest;
        assert Step(op, stack, req)[|rest|] == EvalBinary(binary, left, right);
      case Value(term) => assert Step(op, stack, req)[..|stack|] == stack;
      case Closure(_, _) => assert Step(op, stack, req)[..|stack|] == stack;
      case UnaryOp(_) =>
    }
  }

  lemma {:induction false} RunAbsorbs(ops: seq<Op>, stack: Stack, req: Request)
    requires Unknown in stack
    ensures Unknown in Run(ops, stack, req)
    decreases |ops|
  {
    hide Step;
    if |ops| > 0 {
      StepAbsorbs(ops[0], stack, req);
      RunAbsorbs(ops[1..], Step(ops[0], stack, req), req);
    }
  }

  /** Once a prefix of the program has left Unknown anywhere on the stack, the answer is Unknown. */
  lemma UnknownIsAbsorbing(a: seq<Op>, b: seq<Op>, req: Request)
    requires Unknown in Run(a, [], req)
    ensures Evaluate(a + b, req) == Unknown
  {
    RunAppend(a, b, [], req);
    RunAbsorbs(b, Run(a, [], req), req);
  }

  // ----- an answer explains itself -----

  function PostfixAll(es: seq<Expr>): seq<Op> {
    if |es| == 0 then []
    else PostfixAll(es[..|es| - 1]) + Postfix(es[|es| - 1])
  }

  /** The stack holds exactly the values of `es`, each of which has one. */
  ghost predicate Explains(es: seq<Expr>, stack: Stack, req: Request) {
    |es| == |stack| &&
    forall i | 0 <= i < |es| :: Denote(es[i], EnvOf(req)).Some? && Lift(Denote(es[i], EnvOf(req))) == stack[i]
  }

  lemma Push(es: seq<Expr>, stack: Stack, e: Expr, value: CeilingValue, req: Request)
    requires Explains(es, stack, req)
    requires Denote(e, EnvOf(req)).Some? && Lift(Denote(e, EnvOf(req))) == value
    ensures Explains(es + [e], stack + [value], req)
    ensures PostfixAll(es + [e])
            == PostfixAll(es) + Postfix(e)
  {
    PostfixSnoc(es, e);
  }

  lemma LastIn(stack: Stack, v: CeilingValue)
    ensures v in stack + [v]
  {
    assert (stack + [v])[|stack|] == v;
  }

  lemma {:induction false} ExplainStep(op: Op, es: seq<Expr>, stack: Stack, req: Request) returns (fs: seq<Expr>)
    requires Explains(es, stack, req) && Unknown !in Step(op, stack, req)
    requires op == UnaryOp(Parens) ==> es != []
    ensures Explains(fs, Step(op, stack, req), req) && fs != []
    ensures PostfixAll(fs) == PostfixAll(es) + [TidyOp(op)]
    decreases op, 0
  {
    hide Explains, PostfixAll, Evaluate, EvalBinary;
    match op {
      case UnaryOp(Parens) =>
        fs := ExplainParens(es, stack, req);
      case UnaryOp(OtherUnary) =>
        LastIn(Below(stack), Unknown);
        assert false;
      case Value(term) =>
        LastIn(stack, EvalTerm(term, req));
        var e := match term
          case Str(s) => Text(s)
          case Bool(b) => Truth(b)
          case Variable(name) => Var(name)
          case OtherTerm => Truth(false);
        fs := es + [e];
        Push(es, stack, e, EvalTerm(term, req), req);
      case Closure(params, body) =>
        LastIn(stack, Evaluate(body, req));
        var e := Explain(body, req);
        fs := es + [Thunk(params, e)];
        Push(es, stack, Thunk(params, e), Evaluate(body, req), req);
      case BinaryOp(binary) =>
        LastIn(Below(Below(stack)), EvalBinary(binary, Top(Below(stack)), Top(stack)));
        fs := ExplainBinary(binary, es, stack, req);
    }
  }

  lemma PostfixSnoc(es: seq<Expr>, e: Expr)
    ensures PostfixAll(es + [e]) == PostfixAll(es) + Postfix(e)
  {
    assert (es + [e])[..|es|] == es;
  }

  lemma PostfixApply(es: seq<Expr>, binary: Binary, l: Expr, r: Expr)
    ensures PostfixAll(es + [Apply(binary, l, r)]) == PostfixAll(es + [l] + [r]) + [BinaryOp(binary)]
  {
    PostfixSnoc(es, Apply(binary, l, r));
    PostfixSnoc(es + [l], r);
    PostfixSnoc(es, l);
  }

  lemma ExplainBinary(binary: Binary, es: seq<Expr>, stack: Stack, req: Request) returns (fs: seq<Expr>)
    requires Explains(es, stack, req)
    requires EvalBinary(binary, Top(Below(stack)), Top(stack)) != Unknown
    ensures Explains(fs, Step(BinaryOp(binary), stack, req), req) && fs != []
    ensures PostfixAll(fs) == PostfixAll(es) + [BinaryOp(binary)]
  {
    hide Denote, PostfixAll, Lift;
    var n := |stack|;
    assert n >= 2;
    var rest, l, r := es[..n - 2], es[n - 2], es[n - 1];
    fs := rest + [Apply(binary, l, r)];
    assert es == rest + [l] + [r];
    PostfixApply(rest, binary, l, r);
    assert Below(Below(stack)) == stack[..n - 2] && Top(Below(stack)) == stack[n - 2];
    ApplyValue(binary, l, r, req);
    LiftKnown(Denote(Apply(binary, l, r), EnvOf(req)));
  }

  lemma ExplainParens(es: seq<Expr>, stack: Stack, req: Request) returns (fs: seq<Expr>)
    requires Explains(es, stack, req) && es != []
    ensures Explains(fs, stack, req) && fs != []
    ensures PostfixAll(fs) == PostfixAll(es) + [UnaryOp(Parens)]
  {
    hide PostfixAll, Lift;
    var front, e := es[..|es| - 1], es[|es| - 1];
    fs := front + [Paren(e)];
    assert es == front + [e];
    PostfixSnoc(front, e);
    PostfixSnoc(front, Paren(e));
  }

  lemma LiftKnown(m: Option<Meaning>)
    ensures m.Some? <==> Lift(m) != Unknown
  {}

  lemma {:induction false} ExplainRun(ops: seq<Op>, es: seq<Expr>, stack: Stack, req: Request) returns (fs: seq<Expr>)
    requires Explains(es, stack, req) && Unknown !in Run(ops, stack, req)
    ensures Explains(fs, Run(ops, stack, req), req)
    ensures PostfixAll(fs) == PostfixAll(es) + if es == [] then Tidy(ops) else TidyRest(ops)
    decreases ops, 1
  {
    hide Step, TidyOp, Explains, Postfix, PostfixAll;
    if |ops| == 0 {
      fs := es;
    } else if es == [] && ops[0] == UnaryOp(Parens) {
      ParensStep(stack, req);
      fs := ExplainRun(ops[1..], es, stack, req);
    } else {
      var next := Step(ops[0], stack, req);
      if Unknown in next {
        RunAbsorbs(ops[1..], next, req);
        assert false;
      }
      var mid := ExplainStep(ops[0], es, stack, req);
      fs := ExplainRun(ops[1..], mid, next, req);
      assert Tidy(ops) == TidyRest(ops) || es != [];
      assert PostfixAll(es) + [TidyOp(ops[0])] + TidyRest(ops[1..]) == PostfixAll(es) + TidyRest(ops);
    }
  }

  lemma ParensStep(stack: Stack, req: Request)
    ensures Step(UnaryOp(Parens), stack, req) == stack
  {}

  /** The tree behind an answer. */
  lemma Explain(ops: seq<Op>, req: Request) returns (e: Expr)
    requires Evaluate(ops, req) != Unknown
    ensures Postfix(e) == Tidy(ops)
    ensures Denote(e, EnvOf(req)).Some? && Lift(Denote(e, EnvOf(req))) == Evaluate(ops, req)
    decreases ops, 2
  {
    hide Run, Tidy, Postfix, Denote, Lift;
    var stack := Run(ops, [], req);
    assert stack == [stack[0]];
    var fs := ExplainRun(ops, [], [], req);
    e := fs[0];
    assert fs[..0] == [] && PostfixAll(fs) == [] + Postfix(e);
    assert [] + Postfix(e) == Postfix(e) && [] + Tidy(ops) == Tidy(ops);
  }

  /** The list is the postfix form of a tree with value `v`. */
  ghost predicate Computes(ops: seq<Op>, req: Request, v: Meaning) {
    exists e :: Postfix(e) == ops && Denote(e, EnvOf(req)) == Some(v)
  }

  /** The machine answers `v` exactly on the postfix programs, built from supported operators alone and
      never short of operands, of trees whose value is `v`, once parentheses enclosing nothing are set aside. */
  lemma MachineIsExact(ops: seq<Op>, req: Request, v: Meaning)
    ensures Evaluate(ops, req) == Lift(Some(v)) <==> Computes(Tidy(ops), req, v)
  {
    if Evaluate(ops, req) == Lift(Some(v)) {
      var e := Explain(ops, req);
      assert Computes(Tidy(ops), req, v);
    }
    if Computes(Tidy(ops), req, v) {
      var e :| Postfix(e) == Tidy(ops) && Denote(e, EnvOf(req)) == Some(v);
      TreeIsExact(ops, e, req);
    }
  }

  /** On the program of any tree the machine gives the tree's value, or Unknown when it has none. */
  lemma TreeIsExact(ops: seq<Op>, e: Expr, req: Request)
    requires Postfix(e) == Tidy(ops)
    ensures Evaluate(ops, req) == Lift(Denote(e, EnvOf(req)))
  {
    TidyPreserves(ops, [], req);
    RunPostfix(e, [], req);
  }

  /** So a list that is answered is a well-formed postfix program if and only if no parentheses begin it
      or the body of a closure in it. */
  lemma AnswerIsPostfixExactly(ops: seq<Op>, req: Request)
    requires Evaluate(ops, req) != Unknown
    ensures (exists e :: Postfix(e) == ops) <==> IsTidy(ops)
  {
    hide Postfix, IsTidy, Tidy, Evaluate;
    TidyIsIdentity(ops);
    if IsTidy(ops) {
      var e := Explain(ops, req);
      assert Postfix(e) == ops;
    }
    if e :| Postfix(e) == ops { PostfixIsTidy(e); }
  }

  /** Parentheses need not enclose anything: the machine takes them even where nothing precedes them. */
  lemma StrayParensAccepted(req: Request)
    ensures Evaluate([UnaryOp(Parens), Value(Bool(true))], req) == BoolValue(true)
  {
    RunAppend([UnaryOp(Parens)], [Value(Bool(true))], [], req);
    RunOne(UnaryOp(Parens), [], req);
    RunOne(Value(Bool(true)), [], req);
    assert [UnaryOp(Parens)] + [Value(Bool(true))] == [UnaryOp(Parens), Value(Bool(true))];
  }
}
