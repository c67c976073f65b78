/** Constant folding, cancelling of common operands and the equality test of scripts/config/expr.c. */
module Equality {
  import opened Expressions

  // ----- expr_eliminate_yn -----

  function EliminateYn(e: Expr): Expr {
    match e
    case Bin(op, l, r) => FoldBin(op, EliminateYn(l), EliminateYn(r))
    case _ => e
  }

  /** an AND or OR of two folded operands */
  function FoldBin(op: Op, l: Expr, r: Expr): Expr {
    if l == Sym(Absorber(op)) then l
    else if l == Sym(Identity(op)) then r
    else if r == Sym(Absorber(op)) then r
    else if r == Sym(Identity(op)) then l
    else Bin(op, l, r)
  }

  /** No operand of an AND or OR is y or n. */
  predicate NoConstOperand(e: Expr) {
    match e
    case Bin(_, l, r) =>
      && l != Sym(Yes) && l != Sym(No) && r != Sym(Yes) && r != Sym(No)
      && NoConstOperand(l) && NoConstOperand(r)
    case _ => true
  }

  /** some AND or OR has an operand that folding will drop */
  predicate HasIdentityOperand(e: Expr) {
    match e
    case Bin(op, l, r) =>
      l == Sym(Identity(op)) || r == Sym(Identity(op)) || HasIdentityOperand(l) || HasIdentityOperand(r)
    case _ => false
  }

  /** Folding changes no value under any valuation. */
  lemma {:induction false} EliminateYnCorrect(e: Expr, env: Valuation)
    ensures Val(EliminateYn(e), env) == Val(e, env)
  {
    match e
    case Bin(op, l, r) =>
      EliminateYnCorrect(l, env);
      EliminateYnCorrect(r, env);
    case _ =>
  }

  lemma FoldBinShape(op: Op, l: Expr, r: Expr)
    requires NoConstOperand(l) && NoConstOperand(r)
    ensures NoConstOperand(FoldBin(op, l, r))
    ensures Size(FoldBin(op, l, r)) <= 1 + Size(l) + Size(r)
    ensures l == Sym(Identity(op)) || r == Sym(Identity(op)) ==> Size(FoldBin(op, l, r)) <= Size(l) + Size(r)
    ensures NegationsAtSymbols(l) && NegationsAtSymbols(r) ==> NegationsAtSymbols(FoldBin(op, l, r))
  {
  }

  /** Folding leaves no y or n operand, never grows the tree, keeps negations at symbols, and shrinks the
      tree when there was an identity operand to drop. */
  lemma {:induction false} EliminateYnShape(e: Expr)
    ensures NoConstOperand(EliminateYn(e))
    ensures Size(EliminateYn(e)) <= Size(e)
    ensures HasIdentityOperand(e) ==> Size(EliminateYn(e)) < Size(e)
    ensures NegationsAtSymbols(e) ==> NegationsAtSymbols(EliminateYn(e))
  {
    match e
    case Bin(op, l, r) =>
      EliminateYnShape(l);
      EliminateYnShape(r);
      FoldBinShape(op, EliminateYn(l), EliminateYn(r));
    case _ =>
  }

  /** Folding does nothing more to an expression that has no y or n operand. */
  lemma {:induction false} EliminateYnIdle(e: Expr)
    requires NoConstOperand(e)
    ensures EliminateYn(e) == e
  {
    match e
    case Bin(op, l, r) =>
      EliminateYnIdle(l);
      EliminateYnIdle(r);
    case _ =>
  }

  // ----- expr_eq, expr_eliminate_eq -----

  function Weight(e1: Expr, e2: Expr): nat { Size(e1) + Size(e2) }

  predicate IsOp(e: Expr, op: Op) { e.Bin? && e.op == op }

  /** expr_eq on two non-NULL expressions */
  function ExprEq(e1: Expr, e2: Expr): bool
    decreases Weight(e1, e2), 1
  {
    match (e1, e2)
    case (Sym(s1), Sym(s2)) => s1 == s2
    case (Cmp(_, _, _), Cmp(_, _, _)) => e1 == e2
    case (Not(a1), Not(a2)) => ExprEq(a1, a2)
    case (Bin(op1, _, _), Bin(op2, _, _)) =>
      op1 == op2 &&
      var (f1, f2) := CancelWalk(op1, e1, e2);
      var g1, g2 := EliminateYn(f1), EliminateYn(f2);
      g1.Sym? && g2.Sym? && g1.sym == g2.sym
    case _ => false
  }

  /** __expr_eliminate_eq: every operand of e1 against every operand of e2, replacing each matching pair
      by the identity of op. The two results are the two trees afterwards. */
  function CancelWalk(op: Op, e1: Expr, e2: Expr): (r: (Expr, Expr))
    ensures Size(r.0) <= Size(e1) && Size(r.1) <= Size(e2)
    decreases Weight(e1, e2), if IsOp(e1, op) || IsOp(e2, op) then 0 else 2
  {
    if IsOp(e1, op) then
      var (l, f2) := CancelWalk(op, e1.l, e2);
      var (r, g2) := CancelWalk(op, e1.r, f2);
      (Bin(op, l, r), g2)
    else if IsOp(e2, op) then
      var (f1, l) := CancelWalk(op, e1, e2.l);
      var (g1, r) := CancelWalk(op, f1, e2.r);
      (g1, Bin(op, l, r))
    else if e1.Sym? && e2 == e1 && (e1.sym == Yes || e1.sym == No) then (e1, e2)
    else if ExprEq(e1, e2) then (Sym(Identity(op)), Sym(Identity(op)))
    else (e1, e2)
  }

  /** the two walks of expr_eliminate_eq, before folding */
  function CancelBoth(e1: Expr, e2: Expr): (Expr, Expr) {
    var (f1, f2) := if e1.Bin? then CancelWalk(e1.op, e1, e2) else (e1, e2);
    if f2.Bin? && !IsOp(f1, f2.op) then CancelWalk(f2.op, f1, f2) else (f1, f2)
  }

  /** expr_eliminate_eq on two non-NULL expressions */
  function EliminateEq(e1: Expr, e2: Expr): (Expr, Expr) {
    var (f1, f2) := CancelBoth(e1, e2);
    (EliminateYn(f1), EliminateYn(f2))
  }

  // ----- soundness: what is cancelled is a common factor -----

  lemma ApplyRegroup(op: Op, a: Tristate, b: Tristate, c: Tristate, d: Tristate)
    ensures Apply(op, Apply(op, a, c), Apply(op, b, d)) == Apply(op, Apply(op, a, b), Apply(op, c, d))
  {
  }

  lemma ApplyAssociate(op: Op, a: Tristate, c: Tristate, d: Tristate)
    ensures Apply(op, Apply(op, a, d), c) == Apply(op, a, Apply(op, c, d))
  {
  }

  /** the value a walk cancels, given the values the two recursive walks cancel */
  lemma FactorCombine(op: Op, vl: Tristate, vr: Tristate, l: Tristate, r: Tristate, v: Tristate, f: Tristate, g: Tristate,
                      c1: Tristate, c2: Tristate)
    requires vl == Apply(op, l, c1) && v == Apply(op, f, c1)
    requires vr == Apply(op, r, c2) && f == Apply(op, g, c2)
    ensures Apply(op, vl, vr) == Apply(op, Apply(op, l, r), Apply(op, c1, c2))
    ensures v == Apply(op, g, Apply(op, c1, c2))
  {
    ApplyRegroup(op, l, r, c1, c2);
    ApplyAssociate(op, g, c1, c2);
  }

  /** Under every valuation one walk splits the same value c off both expressions. */
  lemma {:induction false} CancelWalkFactor(op: Op, e1: Expr, e2: Expr, env: Valuation) returns (c: Tristate)
    ensures Val(e1, env) == Apply(op, Val(CancelWalk(op, e1, e2).0, env), c)
    ensures Val(e2, env) == Apply(op, Val(CancelWalk(op, e1, e2).1, env), c)
    decreases Weight(e1, e2), if IsOp(e1, op) || IsOp(e2, op) then 0 else 2
  {
    if IsOp(e1, op) {
      c := CancelWalkFactorLeft(op, e1, e2, env);
    } else if IsOp(e2, op) {
      c := CancelWalkFactorRight(op, e1, e2, env);
    } else if e1.Sym? && e2 == e1 && (e1.sym == Yes || e1.sym == No) {
      c := TriOf(Identity(op), env);
    } else if ExprEq(e1, e2) {
      ExprEqSound(e1, e2, env);
      c := Val(e1, env);
    } else {
      c := TriOf(Identity(op), env);
    }
  }

  lemma {:induction false} CancelWalkFactorLeft(op: Op, e1: Expr, e2: Expr, env: Valuation) returns (c: Tristate)
    requires IsOp(e1, op)
    ensures Val(e1, env) == Apply(op, Val(CancelWalk(op, e1, e2).0, env), c)
    ensures Val(e2, env) == Apply(op, Val(CancelWalk(op, e1, e2).1, env), c)
    decreases Weight(e1, e2), if IsOp(e1, op) || IsOp(e2, op) then 0 else 2, 0
  {
    var (l, f2) := CancelWalk(op, e1.l, e2);
    var (r, g2) := CancelWalk(op, e1.r, f2);
    var c1 := CancelWalkFactor(op, e1.l, e2, env);
    var c2 := CancelWalkFactor(op, e1.r, f2, env);
    c := Apply(op, c1, c2);
    FactorCombine(op, Val(e1.l, env), Val(e1.r, env), Val(l, env), Val(r, env),
                  Val(e2, env), Val(f2, env), Val(g2, env), c1, c2);
  }

  lemma {:induction false} CancelWalkFactorRight(op: Op, e1: Expr, e2: Expr, env: Valuation) returns (c: Tristate)
    requires !IsOp(e1, op) && IsOp(e2, op)
    ensures Val(e1, env) == Apply(op, Val(CancelWalk(op, e1, e2).0, env), c)
    ensures Val(e2, env) == Apply(op, Val(CancelWalk(op, e1, e2).1, env), c)
    decreases Weight(e1, e2), if IsOp(e1, op) || IsOp(e2, op) then 0 else 2, 0
  {
    var (f1, l) := CancelWalk(op, e1, e2.l);
    var (g1, r) := CancelWalk(op, f1, e2.r);
    var c1 := CancelWalkFactor(op, e1, e2.l, env);
    var c2 := CancelWalkFactor(op, f1, e2.r, env);
    c := Apply(op, c1, c2);
    FactorCombine(op, Val(e2.l, env), Val(e2.r, env), Val(l, env), Val(r, env),
                  Val(e1, env), Val(f1, env), Val(g1, env), c1, c2);
  }

  /** expr_eq never identifies expressions that differ in value anywhere. */
  lemma {:induction false} ExprEqSound(e1: Expr, e2: Expr, env: Valuation)
    requires ExprEq(e1, e2)
    ensures Val(e1, env) == Val(e2, env)
    decreases Weight(e1, e2), 1
  {
    match (e1, e2)
    case (Not(a1), Not(a2)) => ExprEqSound(a1, a2, env);
    case (Bin(op, _, _), Bin(_, _, _)) =>
      var (f1, f2) := CancelWalk(op, e1, e2);
      var c := CancelWalkFactor(op, e1, e2, env);
      EliminateYnCorrect(f1, env);
      EliminateYnCorrect(f2, env);
    case _ =>
  }

  /** expr_eliminate_eq on the level of values: common factors of two kinds are split off. */
  lemma CancelBothFactors(e1: Expr, e2: Expr, env: Valuation)
    returns (op1: Op, op2: Op, v1: Tristate, v2: Tristate, c: Tristate, d: Tristate)
    ensures Val(e1, env) == Apply(op1, v1, c) && Val(e2, env) == Apply(op1, v2, c)
    ensures v1 == Apply(op2, Val(CancelBoth(e1, e2).0, env), d)
    ensures v2 == Apply(op2, Val(CancelBoth(e1, e2).1, env), d)
  {
    var (f1, f2) := if e1.Bin? then CancelWalk(e1.op, e1, e2) else (e1, e2);
    op1, c := OpAnd, YES;
    if e1.Bin? {
      op1 := e1.op;
      c := CancelWalkFactor(op1, e1, e2, env);
    }
    v1, v2 := Val(f1, env), Val(f2, env);
    op2, d := OpAnd, YES;
    if f2.Bin? && !IsOp(f1, f2.op) {
      op2 := f2.op;
      d := CancelWalkFactor(op2, f1, f2, env);
    }
  }

  lemma FactorBound(op1: Op, op2: Op, v1: Tristate, v2: Tristate, u: Tristate, c: Tristate, d: Tristate)
    requires v1 == Apply(op2, u, d) && v2 == Apply(op2, YES, d)
    ensures Apply(op1, v1, c) <= Apply(op1, v2, c)
  {
  }

  /** When expr_eliminate_eq reduces the second expression to y, the first implies the second: this is the
      "superset of dependencies" test of automatic submenus. */
  lemma SupersetImplies(e1: Expr, e2: Expr, env: Valuation)
    requires EliminateEq(e1, e2).1 == Sym(Yes)
    ensures Val(e1, env) <= Val(e2, env)
  {
    var op1, op2, v1, v2, c, d := CancelBothFactors(e1, e2, env);
    var (g1, g2) := CancelBoth(e1, e2);
    EliminateYnCorrect(g2, env);
    FactorBound(op1, op2, v1, v2, Val(g1, env), c, d);
  }
}
