/** The canonical form of module Canonical is exactly equality up to commutativity and associativity. */
module Rearrangement {
  import opened Expressions
  import opened Equality
  import opened Canonical

  ghost predicate Regroups(e: Expr, f: Expr) {
    e.Bin? && IsOp(e.l, e.op) && f == Bin(e.op, e.l.l, Bin(e.op, e.l.r, e.r))
  }

  /** f is e with the operands of one AND or OR swapped or regrouped */
  ghost predicate Step(e: Expr, f: Expr) {
    || (e.Bin? && f == Bin(e.op, e.r, e.l))
    || Regroups(e, f)
    || Regroups(f, e)
    || (e.Not? && f.Not? && Step(e.arg, f.arg))
    || (e.Bin? && f.Bin? && e.op == f.op && e.r == f.r && Step(e.l, f.l))
    || (e.Bin? && f.Bin? && e.op == f.op && e.l == f.l && Step(e.r, f.r))
  }

  ghost predicate Chain(p: seq<Expr>) {
    p != [] && forall i :: 0 <= i < |p| - 1 ==> Step(p[i], p[i + 1])
  }

  ghost predicate Links(p: seq<Expr>, e: Expr, f: Expr) { Chain(p) && p[0] == e && p[|p| - 1] == f }

  ghost predicate Rearranges(e: Expr, f: Expr) { exists p :: Links(p, e, f) }

  // ----- rearranging is a congruence -----

  lemma Reflexive(e: Expr)
    ensures Rearranges(e, e)
  {
    assert Links([e], e, e);
  }

  lemma OneStep(e: Expr, f: Expr)
    requires Step(e, f)
    ensures Rearranges(e, f)
  {
    assert Links([e, f], e, f);
  }

  lemma Transitive(e: Expr, f: Expr, g: Expr)
    requires Rearranges(e, f) && Rearranges(f, g)
    ensures Rearranges(e, g)
  {
    var p :| Links(p, e, f);
    var q :| Links(q, f, g);
    var pq := p + q[1..];
    forall i | 0 <= i < |pq| - 1 ensures Step(pq[i], pq[i + 1]) {
      if i >= |p| - 1 {
        assert pq[i] == q[i - |p| + 1] && pq[i + 1] == q[i - |p| + 2];
      }
    }
    assert Links(pq, e, g);
  }

  lemma UnderNot(e: Expr, f: Expr)
    requires Rearranges(e, f)
    ensures Rearranges(Not(e), Not(f))
  {
    var p :| Links(p, e, f);
    var q := seq(|p|, i requires 0 <= i < |p| => Not(p[i]));
    assert Links(q, Not(e), Not(f));
  }

  lemma UnderBin(op: Op, e: Expr, f: Expr, g: Expr, h: Expr)
    requires Rearranges(e, f) && Rearranges(g, h)
    ensures Rearranges(Bin(op, e, g), Bin(op, f, h))
  {
    var p :| Links(p, e, f);
    var q :| Links(q, g, h);
    assert Links(seq(|p|, i requires 0 <= i < |p| => Bin(op, p[i], g)), Bin(op, e, g), Bin(op, f, g));
    assert Links(seq(|q|, i requires 0 <= i < |q| => Bin(op, f, q[i])), Bin(op, f, g), Bin(op, f, h));
    Transitive(Bin(op, e, g), Bin(op, f, g), Bin(op, f, h));
  }

  // ----- rearranging keeps the canonical form -----

  lemma CanonGivesOperands(op: Op, e: Expr, f: Expr)
    requires Canonize(e) == Canonize(f)
    ensures Operands(op, e) == Operands(op, f)
  {
  }

  lemma RegroupKeepsCanon(e: Expr, f: Expr)
    requires Regroups(e, f)
    ensures Canonize(e) == Canonize(f)
  {
    var op, a, b, c := e.op, Operands(e.op, e.l.l), Operands(e.op, e.l.r), Operands(e.op, e.r);
    assert Operands(op, e.l) == a + b && Operands(op, f.r) == b + c;
    assert (a + b) + c == a + (b + c);
  }

  lemma {:induction false} StepKeepsCanon(e: Expr, f: Expr)
    requires Step(e, f)
    ensures Canonize(e) == Canonize(f)
  {
    if Regroups(e, f) {
      RegroupKeepsCanon(e, f);
    } else if Regroups(f, e) {
      RegroupKeepsCanon(f, e);
    } else if e.Not? {
      StepKeepsCanon(e.arg, f.arg);
    } else if f == Bin(e.op, e.r, e.l) {
      assert Operands(e.op, e.l) + Operands(e.op, e.r) == Operands(e.op, e.r) + Operands(e.op, e.l);
    } else if e.r == f.r && Step(e.l, f.l) {
      StepKeepsCanon(e.l, f.l);
      CanonGivesOperands(e.op, e.l, f.l);
    } else {
      StepKeepsCanon(e.r, f.r);
      CanonGivesOperands(e.op, e.r, f.r);
    }
  }

  lemma {:induction false} ChainKeepsCanon(p: seq<Expr>)
    requires Chain(p)
    ensures Canonize(p[0]) == Canonize(p[|p| - 1])
  {
    if |p| > 1 {
      StepKeepsCanon(p[0], p[1]);
      assert Chain(p[1..]);
      ChainKeepsCanon(p[1..]);
    }
  }

  // ----- equal canonical forms can be rearranged into each other -----

  lemma {:induction false} OperandCount(op: Op, e: Expr)
    ensures |Operands(op, e)| >= 1 && (IsOp(e, op) ==> |Operands(op, e)| >= 2)
  {
    if IsOp(e, op) {
      OperandCount(op, e.l);
      OperandCount(op, e.r);
    }
  }

  lemma FrontFromLeft(op: Op, e: Expr, x: Expr, rest: Expr)
    requires IsOp(e, op) && Rearranges(e.l, Bin(op, x, rest))
    ensures Rearranges(e, Bin(op, x, Bin(op, rest, e.r)))
  {
    Reflexive(e.r);
    UnderBin(op, e.l, Bin(op, x, rest), e.r, e.r);
    OneStep(Bin(op, Bin(op, x, rest), e.r), Bin(op, x, Bin(op, rest, e.r)));
    Transitive(e, Bin(op, Bin(op, x, rest), e.r), Bin(op, x, Bin(op, rest, e.r)));
  }

  /** Any operand can be brought to the front. */
  lemma {:induction false} BringToFront(op: Op, e: Expr, c: Canon) returns (x: Expr, rest: Expr)
    requires IsOp(e, op) && c in Operands(op, e)
    ensures Canonize(x) == c && Rearranges(e, Bin(op, x, rest))
    ensures Operands(op, e) == multiset{c} + Operands(op, rest)
    ensures Size(x) + Size(rest) < Size(e)
    decreases Size(e), 1
  {
    if c in Operands(op, e.l) {
      x, rest := BringFromLeft(op, e, c);
    } else {
      var f := Bin(op, e.r, e.l);
      OneStep(e, f);
      x, rest := BringFromLeft(op, f, c);
      Transitive(e, f, Bin(op, x, rest));
    }
  }

  lemma {:induction false} BringFromLeft(op: Op, e: Expr, c: Canon) returns (x: Expr, rest: Expr)
    requires IsOp(e, op) && c in Operands(op, e.l)
    ensures Canonize(x) == c && Rearranges(e, Bin(op, x, rest))
    ensures Operands(op, e) == multiset{c} + Operands(op, rest)
    ensures Size(x) + Size(rest) < Size(e)
    decreases Size(e), 0
  {
    if IsOp(e.l, op) {
      var rl;
      x, rl := BringToFront(op, e.l, c);
      rest := Bin(op, rl, e.r);
      FrontFromLeft(op, e, x, rl);
      assert Operands(op, rest) == Operands(op, rl) + Operands(op, e.r);
    } else {
      x, rest := e.l, e.r;
      Reflexive(e);
    }
  }

  lemma {:induction false} SameCanonRearranges(e: Expr, f: Expr)
    requires Canonize(e) == Canonize(f)
    ensures Rearranges(e, f)
    decreases Size(e), 1
  {
    match e
    case Not(a) =>
      SameCanonRearranges(a, f.arg);
      UnderNot(a, f.arg);
    case Bin(op, _, _) => SameCanonBin(op, e, f);
    case _ => Reflexive(e);
  }

  lemma {:induction false} SameCanonBin(op: Op, e: Expr, f: Expr)
    requires IsOp(e, op) && IsOp(f, op) && Canonize(e) == Canonize(f)
    ensures Rearranges(e, f)
    decreases Size(e), 0
  {
    hide Rearranges, Canonize, Operands;
    OperandCount(op, e);
    CanonGivesOperands(op, e, f);
    var c :| c in Operands(op, e);
    var x, re := BringToFront(op, e, c);
    var y, rf := BringToFront(op, f, c);
    SameRest(c, Operands(op, re), Operands(op, rf));
    SameCanonRearranges(x, y);
    OperandCount(op, re);
    OperandCount(op, rf);
    SameOperands(op, re, rf);
    SameCanonRearranges(re, rf);
    SameFronts(op, e, f, x, re, y, rf);
  }

  lemma SameRest<T>(c: T, m1: multiset<T>, m2: multiset<T>)
    requires multiset{c} + m1 == multiset{c} + m2
    ensures m1 == m2
  {
    assert m1 == (multiset{c} + m1) - multiset{c};
    assert m2 == (multiset{c} + m2) - multiset{c};
  }

  lemma SameFronts(op: Op, e: Expr, f: Expr, x: Expr, re: Expr, y: Expr, rf: Expr)
    requires Rearranges(e, Bin(op, x, re)) && Rearranges(f, Bin(op, y, rf))
    requires Rearranges(x, y) && Rearranges(re, rf)
    ensures Rearranges(e, f)
  {
    hide Rearranges;
    UnderBin(op, x, y, re, rf);
    Transitive(e, Bin(op, x, re), Bin(op, y, rf));
    Backwards(f, Bin(op, y, rf));
    Transitive(e, Bin(op, y, rf), f);
  }

  lemma SameOperands(op: Op, e: Expr, f: Expr)
    requires Operands(op, e) == Operands(op, f)
    ensures Canonize(e) == Canonize(f)
  {
    OperandCount(op, e);
    OperandCount(op, f);
    if !IsOp(e, op) && !IsOp(f, op) {
      assert Canonize(e) in Operands(op, e) && Canonize(e) in multiset{Canonize(f)};
    }
  }

  lemma {:induction false} StepBackwards(e: Expr, f: Expr)
    requires Step(e, f)
    ensures Step(f, e)
  {
    if e.Bin? && f == Bin(e.op, e.r, e.l) {
    } else if Regroups(e, f) || Regroups(f, e) {
    } else if e.Not? {
      StepBackwards(e.arg, f.arg);
    } else if e.r == f.r && Step(e.l, f.l) {
      StepBackwards(e.l, f.l);
    } else {
      StepBackwards(e.r, f.r);
    }
  }

  lemma Backwards(e: Expr, f: Expr)
    requires Rearranges(e, f)
    ensures Rearranges(f, e)
  {
    var p :| Links(p, e, f);
    var q := seq(|p|, i requires 0 <= i < |p| => p[|p| - 1 - i]);
    forall i | 0 <= i < |q| - 1 ensures Step(q[i], q[i + 1]) {
      StepBackwards(p[|p| - 2 - i], p[|p| - 1 - i]);
    }
    assert Links(q, f, e);
  }

  /** expr_eq answers true exactly when one expression can be turned into the other by swapping and
      regrouping operands; it is therefore an equivalence relation on these expressions. */
  lemma ExprEqDecidesRearrangement(e: Expr, f: Expr)
    requires Plain(e) && Plain(f)
    ensures ExprEq(e, f) <==> Rearranges(e, f)
  {
    ExprEqExact(e, f);
    if Canonize(e) == Canonize(f) {
      SameCanonRearranges(e, f);
    }
    if Rearranges(e, f) {
      var p :| Links(p, e, f);
      ChainKeepsCanon(p);
    }
  }

  lemma ExprEqIsEquivalence(e: Expr, f: Expr, g: Expr)
    requires Plain(e) && Plain(f) && Plain(g)
    ensures ExprEq(e, e)
    ensures ExprEq(e, f) ==> ExprEq(f, e)
    ensures ExprEq(e, f) && ExprEq(f, g) ==> ExprEq(e, g)
  {
    ExprEqExact(e, e);
    ExprEqExact(e, f);
    ExprEqExact(f, e);
    ExprEqExact(f, g);
    ExprEqExact(e, g);
  }

  // ----- why Plain is needed: y and n operands -----

  function Or(a: Expr, b: Expr): Expr { Bin(OpOr, a, b) }

  function And(a: Expr, b: Expr): Expr { Bin(OpAnd, a, b) }

  /** an operand folding neither drops nor returns */
  predicate Survives(s: Symbol) { s != Yes && s != No }

  /** "a || (b && y)": the walk compares "b && y" with nothing equal, and folding then makes it b. */
  function Late(a: Symbol, b: Symbol): Expr { Or(Sym(a), And(Sym(b), Sym(Yes))) }

  /** cancelling one operand of op against two */
  lemma CancelAgainstTwo(op: Op, e: Expr, a: Expr, b: Expr)
    requires !IsOp(e, op) && !IsOp(a, op) && !IsOp(b, op)
    requires e != Sym(Yes) && e != Sym(No)
    ensures !ExprEq(e, a) && !ExprEq(e, b) ==> CancelWalk(op, e, Bin(op, a, b)) == (e, Bin(op, a, b))
    ensures !ExprEq(e, a) && ExprEq(e, b) ==>
              CancelWalk(op, e, Bin(op, a, b)) == (Sym(Identity(op)), Bin(op, a, Sym(Identity(op))))
    ensures ExprEq(e, a) && !b.Sym? ==>
              CancelWalk(op, e, Bin(op, a, b)) == (Sym(Identity(op)), Bin(op, Sym(Identity(op)), b))
    ensures ExprEq(e, a) && b.Sym? && Survives(b.sym) ==>
              CancelWalk(op, e, Bin(op, a, b)) == (Sym(Identity(op)), Bin(op, Sym(Identity(op)), b))
  {
    var i := Sym(Identity(op));
    CancelStep(op, e, a);
    if ExprEq(e, a) {
      if b != i {
        ExprEqSymbol(Identity(op), b);
        CancelStep(op, i, b);
      }
    } else {
      CancelStep(op, e, b);
    }
  }

  lemma ExprEqFolds(op: Op, e1: Expr, e2: Expr, f1: Expr, f2: Expr)
    requires IsOp(e1, op) && IsOp(e2, op) && CancelWalk(op, e1, e2) == (f1, f2)
    ensures ExprEq(e1, e2) <==> EliminateYn(f1).Sym? && EliminateYn(f1) == EliminateYn(f2)
  {
  }

  lemma LateFolds(a: Symbol, b: Symbol)
    requires Survives(a) && Survives(b)
    ensures EliminateYn(And(Sym(b), Sym(Yes))) == Sym(b)
    ensures EliminateYn(Or(Sym(No), And(Sym(b), Sym(Yes)))) == Sym(b)
    ensures EliminateYn(Late(a, b)) == Or(Sym(a), Sym(b))
  {
    assert EliminateYn(And(Sym(b), Sym(Yes))) == Sym(b);
  }

  lemma LateIsEqual(a: Symbol, b: Symbol)
    requires Survives(a) && Survives(b) && a != b
    ensures ExprEq(Late(a, b), Or(Sym(a), Sym(b)))
    ensures ExprEq(Late(a, b), Or(Sym(b), Sym(a)))
  {
    var n, e := Sym(No), And(Sym(b), Sym(Yes));
    LateFolds(a, b);
    CancelAgainstTwo(OpOr, Sym(a), Sym(a), Sym(b));
    CancelAgainstTwo(OpOr, e, n, Sym(b));
    assert CancelWalk(OpOr, Late(a, b), Or(Sym(a), Sym(b))) == (Or(n, e), Or(n, Sym(b)));
    ExprEqFolds(OpOr, Late(a, b), Or(Sym(a), Sym(b)), Or(n, e), Or(n, Sym(b)));
    CancelAgainstTwo(OpOr, Sym(a), Sym(b), Sym(a));
    CancelAgainstTwo(OpOr, e, Sym(b), n);
    assert CancelWalk(OpOr, Late(a, b), Or(Sym(b), Sym(a))) == (Or(n, e), Or(Sym(b), n));
    ExprEqFolds(OpOr, Late(a, b), Or(Sym(b), Sym(a)), Or(n, e), Or(Sym(b), n));
  }

  lemma EqualIsLate(a: Symbol, b: Symbol)
    requires Survives(a) && Survives(b) && a != b
    ensures ExprEq(Or(Sym(a), Sym(b)), Late(a, b))
  {
    var n, e := Sym(No), And(Sym(b), Sym(Yes));
    LateFolds(a, b);
    CancelAgainstTwo(OpOr, Sym(a), Sym(a), e);
    CancelAgainstTwo(OpOr, Sym(b), n, e);
    assert CancelWalk(OpOr, Or(Sym(a), Sym(b)), Late(a, b)) == (Or(n, Sym(b)), Or(n, e));
    ExprEqFolds(OpOr, Or(Sym(a), Sym(b)), Late(a, b), Or(n, Sym(b)), Or(n, e));
  }

  lemma EqualIsLateSwapped(a: Symbol, b: Symbol)
    requires Survives(a) && Survives(b) && a != b
    ensures ExprEq(Or(Sym(a), Sym(b)), Late(b, a))
  {
    var n, f := Sym(No), And(Sym(a), Sym(Yes));
    LateFolds(b, a);
    CancelAgainstTwo(OpOr, Sym(a), Sym(b), f);
    CancelAgainstTwo(OpOr, Sym(b), Sym(b), f);
    assert CancelWalk(OpOr, Or(Sym(a), Sym(b)), Late(b, a)) == (Or(Sym(a), n), Or(n, f));
    ExprEqFolds(OpOr, Or(Sym(a), Sym(b)), Late(b, a), Or(Sym(a), n), Or(n, f));
  }

  lemma MaskedDiffer(a: Symbol, b: Symbol)
    requires Survives(a) && Survives(b) && a != b
    ensures !ExprEq(And(Sym(b), Sym(Yes)), And(Sym(a), Sym(Yes)))
  {
    var e, f := And(Sym(b), Sym(Yes)), And(Sym(a), Sym(Yes));
    CancelAgainstTwo(OpAnd, Sym(b), Sym(a), Sym(Yes));
    assert CancelWalk(OpAnd, Sym(Yes), f) == (Sym(Yes), f) by {
      CancelStep(OpAnd, Sym(Yes), Sym(a));
    }
    assert CancelWalk(OpAnd, e, f) == (e, f);
    LateFolds(a, b);
    LateFolds(b, a);
    ExprEqFolds(OpAnd, e, f, e, f);
  }

  lemma LatesDiffer(a: Symbol, b: Symbol)
    requires Survives(a) && Survives(b) && a != b
    ensures !ExprEq(Late(a, b), Late(b, a))
  {
    var e, f := And(Sym(b), Sym(Yes)), And(Sym(a), Sym(Yes));
    MaskedDiffer(a, b);
    CancelAgainstTwo(OpOr, Sym(a), Sym(b), f);
    CancelAgainstTwo(OpOr, e, Sym(b), f);
    assert CancelWalk(OpOr, Late(a, b), Late(b, a)) == (Late(a, b), Late(b, a));
    LateFolds(a, b);
    ExprEqFolds(OpOr, Late(a, b), Late(b, a), Late(a, b), Late(b, a));
  }

  /** With y operands expr_eq is not transitive: both steps of "a || (b && y)", "a || b", "b || (a && y)" are
      equal, the ends are not. */
  lemma ExprEqNotTransitive(a: Symbol, b: Symbol)
    requires Survives(a) && Survives(b) && a != b
    ensures ExprEq(Late(a, b), Or(Sym(a), Sym(b))) && ExprEq(Or(Sym(a), Sym(b)), Late(b, a))
    ensures !ExprEq(Late(a, b), Late(b, a))
  {
    LateIsEqual(a, b);
    EqualIsLateSwapped(a, b);
    LatesDiffer(a, b);
  }

  /** cancelling one operand against three */
  lemma CancelAgainstThree(e: Expr, a: Expr, b: Expr, c: Expr)
    requires !IsOp(e, OpAnd) && !IsOp(a, OpAnd) && !IsOp(b, OpAnd) && IsOp(c, OpOr)
    requires !e.Sym?
    ensures !ExprEq(e, a) && !ExprEq(e, b) && !ExprEq(e, c) ==>
              CancelWalk(OpAnd, e, And(And(a, b), c)) == (e, And(And(a, b), c))
    ensures !ExprEq(e, a) && ExprEq(e, b) ==>
              CancelWalk(OpAnd, e, And(And(a, b), c)) == (Sym(Yes), And(And(a, Sym(Yes)), c))
    ensures ExprEq(e, a) && !b.Sym? ==>
              CancelWalk(OpAnd, e, And(And(a, b), c)) == (Sym(Yes), And(And(Sym(Yes), b), c))
  {
    CancelAgainstTwo(OpAnd, e, a, b);
    ExprEqSymbol(Yes, c);
    CancelStep(OpAnd, e, c);
    CancelStep(OpAnd, Sym(Yes), c);
  }

  lemma GreedyWalk(a: Symbol, b: Symbol)
    requires Survives(a) && Survives(b) && a != b
    ensures var x, y, z, t := Late(a, b), Or(Sym(a), Sym(b)), Late(b, a), Sym(Yes);
            CancelWalk(OpAnd, And(And(y, z), x), And(And(x, y), z)) == (And(And(t, t), x), And(And(t, t), z))
  {
    var x, y, z, t := Late(a, b), Or(Sym(a), Sym(b)), Late(b, a), Sym(Yes);
    var f0, f1, f2 := And(And(x, y), z), And(And(t, y), z), And(And(t, t), z);
    LateIsEqual(b, a);
    EqualIsLate(a, b);
    LatesDiffer(a, b);
    ExprEqSymbol(Yes, x);
    ExprEqSymbol(Yes, z);
    CancelAgainstThree(y, x, y, z);
    CancelAgainstThree(z, t, y, z);
    CancelAgainstThree(x, t, t, z);
    assert CancelWalk(OpAnd, And(y, z), f0) == (And(t, t), f2);
  }

  /** With y operands expr_eq misses a pair that swapping and regrouping makes the same: matching greedily, the
      walk uses up "a || b" before it meets "a || (b && y)", whose only other partner differs from it. */
  lemma ExprEqMissesConstants(a: Symbol, b: Symbol)
    requires Survives(a) && Survives(b) && a != b
    ensures var x, y, z := Late(a, b), Or(Sym(a), Sym(b)), Late(b, a);
            && Rearranges(And(And(y, z), x), And(And(x, y), z))
            && !ExprEq(And(And(y, z), x), And(And(x, y), z))
  {
    var x, y, z := Late(a, b), Or(Sym(a), Sym(b)), Late(b, a);
    var e, f := And(And(y, z), x), And(And(x, y), z);
    OneStep(e, And(x, And(y, z)));
    OneStep(And(x, And(y, z)), f);
    Transitive(e, And(x, And(y, z)), f);
    GreedyWalk(a, b);
    var t := Sym(Yes);
    LateFolds(a, b);
    assert EliminateYn(And(t, t)) == t;
    assert EliminateYn(And(And(t, t), x)) == Or(Sym(a), Sym(b));
    ExprEqFolds(OpAnd, e, f, And(And(t, t), x), And(And(t, t), z));
  }

  /** In the other direction a y or n operand hides what it stands with: "n && a" and "n && b" are equal for
      expr_eq, and no swapping or regrouping leads from one to the other. */
  lemma ExprEqConfusesConstants(a: Symbol, b: Symbol)
    requires Survives(a) && Survives(b) && a != b
    ensures ExprEq(And(Sym(No), Sym(a)), And(Sym(No), Sym(b)))
    ensures !Rearranges(And(Sym(No), Sym(a)), And(Sym(No), Sym(b)))
  {
    var n := Sym(No);
    var e, f := And(n, Sym(a)), And(n, Sym(b));
    CancelConstants(a, b);
    ExprEqFolds(OpAnd, e, f, e, f);
    AndCanon(No, a);
    AndCanon(No, b);
    assert CSym(a) !in multiset{CSym(No), CSym(b)};
    if Rearranges(e, f) {
      var p :| Links(p, e, f);
      ChainKeepsCanon(p);
      assert false;
    }
  }

  lemma AndCanon(a: Symbol, b: Symbol)
    ensures Canonize(And(Sym(a), Sym(b))) == CBin(OpAnd, multiset{CSym(a), CSym(b)})
  {
    OperandsOfSymbol(a);
    OperandsOfSymbol(b);
  }

  lemma OperandsOfSymbol(s: Symbol)
    ensures Operands(OpAnd, Sym(s)) == multiset{CSym(s)}
  {
    assert Canonize(Sym(s)) == CSym(s);
  }

  lemma CancelConstants(a: Symbol, b: Symbol)
    requires Survives(a) && Survives(b) && a != b
    ensures var e, f := And(Sym(No), Sym(a)), And(Sym(No), Sym(b)); CancelWalk(OpAnd, e, f) == (e, f)
  {
    var n := Sym(No);
    var f := And(n, Sym(b));
    CancelStep(OpAnd, n, Sym(b));
    CancelStep(OpAnd, Sym(a), n);
    CancelStep(OpAnd, Sym(a), Sym(b));
    assert CancelWalk(OpAnd, n, n) == (n, n);
    assert CancelWalk(OpAnd, n, f) == (n, f);
    assert CancelWalk(OpAnd, Sym(a), f) == (Sym(a), f);
  }

  /** expr_eq is not equality of values either, on plain expressions too: "a && a" is not found equal to a. */
  lemma ExprEqMissesValues(a: Symbol, env: Valuation)
    ensures !ExprEq(And(Sym(a), Sym(a)), Sym(a)) && Val(And(Sym(a), Sym(a)), env) == Val(Sym(a), env)
  {
  }
}
