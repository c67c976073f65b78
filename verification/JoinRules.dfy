/** Which operands expr_eliminate_dups finds to join: the rules of expr_join_or and expr_join_and as a table
    (scripts/config/expr.c). */
module JoinRules {
  import opened Expressions
  import opened Equality
  import opened Joins

  /** "a || b" becomes r: two of the three values of a tristate exclude the third, and a bool is y or it is not. */
  ghost predicate OrRule(s: Symbol, a: Expr, b: Expr, r: Expr) {
    || (s.IsTristate() && a == Cmp(Eq, s, Yes) && b == Cmp(Eq, s, Mod) && r == Cmp(Ne, s, No))
    || (s.IsTristate() && a == Cmp(Eq, s, Yes) && b == Cmp(Eq, s, No) && r == Cmp(Ne, s, Mod))
    || (s.IsTristate() && a == Cmp(Eq, s, Mod) && b == Cmp(Eq, s, No) && r == Cmp(Ne, s, Yes))
    || (s.IsBoolean() && a == Sym(s) && b == Not(Sym(s)) && r == Sym(Yes))
  }

  /** "a && b" becomes r. */
  ghost predicate AndRule(s: Symbol, a: Expr, b: Expr, r: Expr) {
    || (s.IsSwitch() && a == Sym(s) && b == Cmp(Eq, s, Yes) && r == Cmp(Eq, s, Yes))
    || (s.IsSwitch() && a == Sym(s) && b == Cmp(Ne, s, No) && r == Sym(s))
    || (s.IsSwitch() && a == Sym(s) && b == Cmp(Ne, s, Mod) && r == Cmp(Eq, s, Yes))
    || (s.IsTristate() && ExcludesOther(s, a, b, r))
    || (s.IsTristate() && a == Cmp(Ne, s, Yes) && b == Cmp(Ne, s, No) && r == Cmp(Eq, s, Mod))
    || (s.IsTristate() && a == Cmp(Ne, s, Yes) && b == Cmp(Ne, s, Mod) && r == Cmp(Eq, s, No))
    || (s.IsTristate() && a == Cmp(Ne, s, Mod) && b == Cmp(Ne, s, No) && r == Cmp(Eq, s, Yes))
  }

  /** a value, and not another constant or not the same */
  ghost predicate ExcludesOther(s: Symbol, a: Expr, b: Expr, r: Expr) {
    && a.Cmp? && a.rel == Eq && a.left == s && a.right.IsConst()
    && b.Cmp? && b.rel == Ne && b.left == s && b.right.IsConst()
    && r == if a.right != b.right then a else Sym(No)
  }

  /** A rule applies to the operands in either order. */
  ghost predicate Rule(op: Op, e1: Expr, e2: Expr, r: Expr) {
    if op == OpOr then exists s :: OrRule(s, e1, e2, r) || OrRule(s, e2, e1, r)
    else exists s :: AndRule(s, e1, e2, r) || AndRule(s, e2, e1, r)
  }

  lemma OrFound(e1: Expr, e2: Expr, r: Expr)
    requires !ExprEq(e1, e2)
    ensures JoinOr(e1, e2) == Some(r) <==> Rule(OpOr, e1, e2, r)
  {
    hide ExprEq;
    if JoinOr(e1, e2) == Some(r) {
      var s := CommonSwitch(e1, e2).value;
      assert OrRule(s, e1, e2, r) || OrRule(s, e2, e1, r);
    }
  }

  lemma AndFound(e1: Expr, e2: Expr, r: Expr)
    requires !ExprEq(e1, e2)
    ensures JoinAnd(e1, e2) == Some(r) <==> Rule(OpAnd, e1, e2, r)
  {
    hide ExprEq;
    if JoinAnd(e1, e2) == Some(r) {
      var s := CommonSwitch(e1, e2).value;
      assert AndRule(s, e1, e2, r) || AndRule(s, e2, e1, r);
    }
  }

  /** Operands are joined to r exactly if expr_eq takes them for equal, and r is the first, or a rule says so. */
  lemma JoinFoundIff(op: Op, e1: Expr, e2: Expr, r: Expr)
    ensures Join(op, e1, e2) == Some(r) <==> if ExprEq(e1, e2) then r == e1 else Rule(op, e1, e2, r)
  {
    hide ExprEq, Rule;
    if !ExprEq(e1, e2) {
      hide JoinOr, JoinAnd;
      OrFound(e1, e2, r);
      AndFound(e1, e2, r);
    }
  }
}
