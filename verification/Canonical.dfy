/** expr_eq decides equality up to commutativity and associativity of AND and OR. */
module Canonical {
  import opened Expressions
  import opened Equality

  /** An expression with the operands of each AND or OR level gathered in a multiset. */
  datatype Canon =
    | CSym(sym: Symbol)
    | CCmp(rel: Rel, left: Symbol, right: Symbol)
    | CNot(arg: Canon)
    | CBin(op: Op, operands: multiset<Canon>)

  ghost function Canonize(e: Expr): Canon
    decreases e, 0
  {
    match e
    case Sym(s) => CSym(s)
    case Cmp(rel, l, r) => CCmp(rel, l, r)
    case Not(a) => CNot(Canonize(a))
    case Bin(op, l, r) => CBin(op, Operands(op, l) + Operands(op, r))
  }

  /** the canonical operands of e when it stands under op */
  ghost function Operands(op: Op, e: Expr): multiset<Canon>
    decreases e, 1
  {
    if IsOp(e, op) then Operands(op, e.l) + Operands(op, e.r) else multiset{Canonize(e)}
  }

  /** the operands that have not been replaced by the identity of op */
  ghost function Live(op: Op, e: Expr): multiset<Canon> {
    if IsOp(e, op) then Live(op, e.l) + Live(op, e.r)
    else if e == Sym(Identity(op)) then multiset{}
    else multiset{Canonize(e)}
  }

  /** Nowhere in e is an operand of AND or OR the constant y or n. */
  predicate Plain(e: Expr)
    decreases e, 0
  {
    match e
    case Bin(_, l, r) => ConstFree(l) && ConstFree(r)
    case Not(a) => Plain(a)
    case _ => true
  }

  predicate ConstFree(e: Expr)
    decreases e, 1
  {
    e != Sym(Yes) && e != Sym(No) && Plain(e)
  }

  /** every operand under op is free of y and n, or was replaced by the identity */
  predicate Partial(op: Op, e: Expr) {
    if IsOp(e, op) then Partial(op, e.l) && Partial(op, e.r) else e == Sym(Identity(op)) || ConstFree(e)
  }

  lemma {:induction false} PlainHasNoConstOperand(e: Expr)
    requires Plain(e)
    ensures NoConstOperand(e)
  {
    if e.Bin? {
      PlainHasNoConstOperand(e.l);
      PlainHasNoConstOperand(e.r);
    }
  }

  lemma {:induction false} ConstFreeLive(op: Op, e: Expr)
    requires ConstFree(e)
    ensures Partial(op, e) && Live(op, e) == Operands(op, e) && Live(op, e) != multiset{}
  {
    if IsOp(e, op) {
      ConstFreeLive(op, e.l);
      ConstFreeLive(op, e.r);
    }
  }

  lemma DifferenceInTwoSteps<T>(a: multiset<T>, b: multiset<T>, m: multiset<T>)
    ensures (a - m) + (b - (m - a)) == (a + b) - m
    ensures (m - a) - b == m - (a + b)
  {
  }

  /** One walk cancels exactly the multiset intersection: greedy matching is complete. */
  lemma {:induction false} CancelWalkLive(op: Op, e1: Expr, e2: Expr)
    requires Partial(op, e1) && Partial(op, e2)
    ensures Partial(op, CancelWalk(op, e1, e2).0) && Partial(op, CancelWalk(op, e1, e2).1)
    ensures Live(op, CancelWalk(op, e1, e2).0) == Live(op, e1) - Live(op, e2)
    ensures Live(op, CancelWalk(op, e1, e2).1) == Live(op, e2) - Live(op, e1)
    decreases Weight(e1, e2), if IsOp(e1, op) || IsOp(e2, op) then 0 else 2
  {
    hide ExprEq, Canonize, ConstFree;
    if IsOp(e1, op) {
      var (l, f2) := CancelWalk(op, e1.l, e2);
      CancelWalkLive(op, e1.l, e2);
      CancelWalkLive(op, e1.r, f2);
      DifferenceInTwoSteps(Live(op, e1.l), Live(op, e1.r), Live(op, e2));
    } else if IsOp(e2, op) {
      var (f1, l) := CancelWalk(op, e1, e2.l);
      CancelWalkLive(op, e1, e2.l);
      CancelWalkLive(op, f1, e2.r);
      DifferenceInTwoSteps(Live(op, e2.l), Live(op, e2.r), Live(op, e1));
    } else {
      CancelOperands(op, e1, e2);
    }
  }

  lemma {:induction false} CancelOperands(op: Op, e1: Expr, e2: Expr)
    requires Partial(op, e1) && Partial(op, e2) && !IsOp(e1, op) && !IsOp(e2, op)
    ensures Partial(op, CancelWalk(op, e1, e2).0) && Partial(op, CancelWalk(op, e1, e2).1)
    ensures Live(op, CancelWalk(op, e1, e2).0) == Live(op, e1) - Live(op, e2)
    ensures Live(op, CancelWalk(op, e1, e2).1) == Live(op, e2) - Live(op, e1)
    decreases Weight(e1, e2), 2, 0
  {
    if e1 == Sym(Identity(op)) || e2 == Sym(Identity(op)) {
      ExprEqSymbol(Identity(op), e1);
      ExprEqSymbol(Identity(op), e2);
      if e1 == e2 {
        assert CancelWalk(op, e1, e2) == (e1, e2);
      } else {
        assert !ExprEq(e1, e2);
        CancelStep(op, e1, e2);
      }
    } else {
      ExprEqExact(e1, e2);
      CancelStep(op, e1, e2);
      LiveOperands(op, e1, e2);
    }
  }

  /** two operands compared: the case of CancelWalk at the leaves */
  lemma CancelStep(op: Op, e1: Expr, e2: Expr)
    requires !IsOp(e1, op) && !IsOp(e2, op)
    requires e1 == e2 ==> e1 != Sym(Yes) && e1 != Sym(No)
    ensures CancelWalk(op, e1, e2) == if ExprEq(e1, e2) then (Sym(Identity(op)), Sym(Identity(op))) else (e1, e2)
  {
  }

  lemma LiveOperands(op: Op, e1: Expr, e2: Expr)
    requires !IsOp(e1, op) && !IsOp(e2, op) && e1 != Sym(Identity(op)) && e2 != Sym(Identity(op))
    ensures Canonize(e1) == Canonize(e2) ==>
              Live(op, e1) - Live(op, e2) == multiset{} && Live(op, e2) - Live(op, e1) == multiset{}
    ensures Canonize(e1) != Canonize(e2) ==>
              Live(op, e1) - Live(op, e2) == Live(op, e1) && Live(op, e2) - Live(op, e1) == Live(op, e2)
  {
    assert Live(op, e1) == multiset{Canonize(e1)} && Live(op, e2) == multiset{Canonize(e2)};
    hide *;
    SingletonDifference(Canonize(e1), Canonize(e2));
    SingletonDifference(Canonize(e2), Canonize(e1));
  }

  lemma SingletonDifference<T>(c: T, d: T)
    ensures multiset{c} - multiset{d} == if c == d then multiset{} else multiset{c}
  {
  }

  lemma ExprEqSymbol(s: Symbol, e: Expr)
    ensures ExprEq(Sym(s), e) <==> e == Sym(s)
    ensures ExprEq(e, Sym(s)) <==> e == Sym(s)
  {
  }

  /** Folding drops exactly the replaced operands. */
  lemma {:induction false} EliminateYnLive(op: Op, e: Expr)
    requires Partial(op, e)
    ensures Live(op, e) == multiset{} ==> EliminateYn(e) == Sym(Identity(op))
    ensures EliminateYn(e).Sym? ==> EliminateYn(e) == Sym(Identity(op)) || Live(op, e) == multiset{CSym(EliminateYn(e).sym)}
    ensures EliminateYn(e) != Sym(Absorber(op))
    ensures EliminateYn(e) == Sym(Identity(op)) ==> Live(op, e) == multiset{}
  {
    if IsOp(e, op) {
      EliminateYnLive(op, e.l);
      EliminateYnLive(op, e.r);
      assert Live(op, e) == Live(op, e.l) + Live(op, e.r);
      assert EliminateYn(e) == FoldBin(op, EliminateYn(e.l), EliminateYn(e.r));
      hide Live, EliminateYn, Canonize, Partial;
    } else if e != Sym(Identity(op)) {
      PlainHasNoConstOperand(e);
      EliminateYnIdle(e);
    }
  }

  lemma {:induction false} ExprEqExactBin(op: Op, e1: Expr, e2: Expr)
    requires Plain(e1) && Plain(e2) && IsOp(e1, op) && IsOp(e2, op)
    ensures ExprEq(e1, e2) <==> Canonize(e1) == Canonize(e2)
    decreases Weight(e1, e2), 1, 0
  {
    var (f1, f2) := CancelWalk(op, e1, e2);
    ConstFreeLive(op, e1);
    ConstFreeLive(op, e2);
    CancelWalkLive(op, e1, e2);
    EliminateYnLive(op, f1);
    EliminateYnLive(op, f2);
    var m1, m2 := Live(op, e1), Live(op, e2);
    assert Canonize(e1) == CBin(op, m1) && Canonize(e2) == CBin(op, m2);
    MultisetDifferences(m1, m2);
  }

  /** Differences taken both ways are disjoint, and both empty only for equal multisets. */
  lemma MultisetDifferences<T>(m1: multiset<T>, m2: multiset<T>)
    ensures m1 - m2 == multiset{} && m2 - m1 == multiset{} <==> m1 == m2
    ensures forall x :: m1 - m2 == multiset{x} ==> m2 - m1 != multiset{x}
  {
    if m1 - m2 == multiset{} && m2 - m1 == multiset{} {
      forall x ensures m1[x] == m2[x] {
        assert (m1 - m2)[x] == 0 && (m2 - m1)[x] == 0;
      }
    }
    forall x | m1 - m2 == multiset{x} ensures m2 - m1 != multiset{x} {
      assert (m1 - m2)[x] == 1;
      assert (m2 - m1)[x] == 0;
    }
  }

  /** expr_eq is exact: without y or n operands it answers true if and only if the two expressions have the
      same operands on every level, counted with multiplicity. */
  lemma {:induction false} ExprEqExact(e1: Expr, e2: Expr)
    requires Plain(e1) && Plain(e2)
    ensures ExprEq(e1, e2) <==> Canonize(e1) == Canonize(e2)
    decreases Weight(e1, e2), 1
  {
    match (e1, e2)
    case (Not(a1), Not(a2)) => ExprEqExact(a1, a2);
    case (Bin(op1, _, _), Bin(op2, _, _)) =>
      if op1 == op2 {
        ExprEqExactBin(op1, e1, e2);
      }
    case _ =>
  }
}
