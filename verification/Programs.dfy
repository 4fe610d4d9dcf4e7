/** Postfix programs have one reading: the tree each comes from is unique. */
module Programs {
  import opened Ceiling

  function Size(e: Expr): nat {
    match e
    case Paren(inner) => 1 + Size(inner)
    case Thunk(_, body) => 1 + Size(body)
    case Apply(_, left, right) => 1 + Size(left) + Size(right)
    case _ => 1
  }

  function SizeAll(es: seq<Expr>): nat {
    if |es| == 0 then 0 else SizeAll(es[..|es| - 1]) + Size(es[|es| - 1])
  }

  function RootOp(e: Expr): Op {
    match e
    case Text(s) => Value(Str(s))
    case Truth(b) => Value(Bool(b))
    case Var(name) => Value(Variable(name))
    case Paren(_) => UnaryOp(Parens)
    case Thunk(params, body) => Closure(params, Postfix(body))
    case Apply(binary, _, _) => BinaryOp(binary)
  }

  /** The trees whose programs make up `es`'s program without its last operation. */
  function Unroll(es: seq<Expr>): seq<Expr>
    requires |es| > 0
  {
    var front, e := es[..|es| - 1], es[|es| - 1];
    if e.Apply? then front + [e.left] + [e.right] else if e.Paren? then front + [e.inner] else front
  }

  lemma SizeSnoc(es: seq<Expr>, e: Expr)
    ensures SizeAll(es + [e]) == SizeAll(es) + Size(e)
  {
    assert (es + [e])[..|es|] == es;
  }

  lemma LastOp(e: Expr)
    ensures Postfix(e) ==
            (if e.Apply? then Postfix(e.left) + Postfix(e.right)
             else if e.Paren? then Postfix(e.inner) else []) + [RootOp(e)]
  {}

  lemma SplitLast<T>(s: seq<T>)
    requires |s| > 0
    ensures s == s[..|s| - 1] + [s[|s| - 1]]
  {}

  lemma UnrollApply(front: seq<Expr>, e: Expr)
    requires e.Apply?
    ensures PostfixAll(front + [e]) == PostfixAll(front + [e.left] + [e.right]) + [RootOp(e)]
    ensures SizeAll(front + [e.left] + [e.right]) < SizeAll(front + [e])
  {
    hide PostfixAll, SizeAll, Postfix, RootOp;
    LastOp(e);
    PostfixSnoc(front, e);
    SizeSnoc(front, e);
    PostfixSnoc(front, e.left);
    PostfixSnoc(front + [e.left], e.right);
    SizeSnoc(front, e.left);
    SizeSnoc(front + [e.left], e.right);
    Regroup(PostfixAll(front), Postfix(e.left), Postfix(e.right), [RootOp(e)]);
  }

  lemma UnrollParen(front: seq<Expr>, e: Expr)
    requires e.Paren?
    ensures PostfixAll(front + [e]) == PostfixAll(front + [e.inner]) + [RootOp(e)]
    ensures SizeAll(front + [e.inner]) < SizeAll(front + [e])
  {
    hide PostfixAll, SizeAll, Postfix, RootOp;
    LastOp(e);
    PostfixSnoc(front, e);
    SizeSnoc(front, e);
    PostfixSnoc(front, e.inner);
    SizeSnoc(front, e.inner);
  }

  lemma UnrollLeaf(front: seq<Expr>, e: Expr)
    requires !e.Apply? && !e.Paren?
    ensures PostfixAll(front + [e]) == PostfixAll(front) + [RootOp(e)]
    ensures SizeAll(front) < SizeAll(front + [e])
  {
    hide PostfixAll, SizeAll, Postfix, RootOp;
    LastOp(e);
    PostfixSnoc(front, e);
    SizeSnoc(front, e);
    assert [] + [RootOp(e)] == [RootOp(e)];
  }

  lemma UnrollProgram(es: seq<Expr>)
    requires |es| > 0
    ensures PostfixAll(es) == PostfixAll(Unroll(es)) + [RootOp(es[|es| - 1])]
    ensures SizeAll(Unroll(es)) < SizeAll(es)
  {
    hide PostfixAll, SizeAll, RootOp;
    var front, e := es[..|es| - 1], es[|es| - 1];
    SplitLast(es);
    if e.Apply? { UnrollApply(front, e); } else if e.Paren? { UnrollParen(front, e); } else { UnrollLeaf(front, e); }
  }

  lemma Regroup(a: seq<Op>, b: seq<Op>, c: seq<Op>, d: seq<Op>)
    ensures a + ((b + c) + d) == ((a + b) + c) + d
  {}

  /** Postfix form is unambiguous: equal programs come from equal trees. */
  lemma {:induction false} ProgramsDetermineTrees(es: seq<Expr>, fs: seq<Expr>)
    requires PostfixAll(es) == PostfixAll(fs)
    ensures es == fs
    decreases SizeAll(es)
  {
    hide PostfixAll, SizeAll, Postfix;
    if |es| > 0 { UnrollProgram(es); }
    if |fs| > 0 { UnrollProgram(fs); }
    assert PostfixAll([]) == [] by { EmptyProgram(); }
    if |es| > 0 && |fs| > 0 {
      var e, f := es[|es| - 1], fs[|fs| - 1];
      var a, b := PostfixAll(Unroll(es)), PostfixAll(Unroll(fs));
      assert (a + [RootOp(e)])[|a|] == RootOp(e) && (b + [RootOp(f)])[|b|] == RootOp(f);
      assert (a + [RootOp(e)])[..|a|] == a && (b + [RootOp(f)])[..|b|] == b;
      ProgramsDetermineTrees(Unroll(es), Unroll(fs));
      if e.Thunk? {
        Singleton(e.body);
        Singleton(f.body);
        ThunkSmaller(es);
        ProgramsDetermineTrees([e.body], [f.body]);
      }
      Reroll(es, fs);
    }
  }

  lemma EmptyProgram()
    ensures PostfixAll([]) == []
  {}

  lemma Singleton(e: Expr)
    ensures PostfixAll([e]) == Postfix(e) && SizeAll([e]) == Size(e)
  {
    assert [e][..0] == [];
    assert PostfixAll([e][..0]) == [] && [] + Postfix(e) == Postfix(e);
  }

  lemma ThunkSmaller(es: seq<Expr>)
    requires |es| > 0 && es[|es| - 1].Thunk?
    ensures SizeAll([es[|es| - 1].body]) < SizeAll(es)
  {
    Singleton(es[|es| - 1].body);
  }

  lemma Reroll(es: seq<Expr>, fs: seq<Expr>)
    requires |es| > 0 && |fs| > 0 && Unroll(es) == Unroll(fs)
    requires var e, f := es[|es| - 1], fs[|fs| - 1];
             if e.Apply? then f.Apply? && e.binary == f.binary else if e.Paren? then f.Paren? else e == f
    ensures es == fs
  {
    var n, m := |es| - 1, |fs| - 1;
    assert es == es[..n] + [es[n]] && fs == fs[..m] + [fs[m]];
    if es[n].Paren? {
      assert |Unroll(es)| == n + 1 && |Unroll(fs)| == m + 1;
      assert Unroll(es)[n] == es[n].inner && Unroll(fs)[n] == fs[n].inner;
      assert Unroll(es)[..n] == es[..n] && Unroll(fs)[..n] == fs[..n];
    }
    if es[n].Apply? {
      assert |Unroll(es)| == n + 2 && |Unroll(fs)| == m + 2;
      assert Unroll(es)[n] == es[n].left && Unroll(es)[n + 1] == es[n].right;
      assert Unroll(fs)[n] == fs[n].left && Unroll(fs)[n + 1] == fs[n].right;
      assert Unroll(es)[..n] == es[..n] && Unroll(fs)[..n] == fs[..n];
    }
  }

  /** So a list the machine answers has exactly one tree once parentheses enclosing nothing are set aside. */
  lemma AnswerHasOneTree(ops: seq<Op>, req: Request, e: Expr, f: Expr)
    requires Evaluate(ops, req) != Unknown
    ensures exists g :: Postfix(g) == Tidy(ops)
    ensures Postfix(e) == Tidy(ops) && Postfix(f) == Tidy(ops) ==> e == f
  {
    hide Evaluate, Tidy, Postfix;
    var g := Explain(ops, req);
    if Postfix(e) == Tidy(ops) && Postfix(f) == Tidy(ops) {
      Singleton(e);
      Singleton(f);
      ProgramsDetermineTrees([e], [f]);
      assert [e][0] == [f][0];
    }
  }
}
