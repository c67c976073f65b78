/** expr_join_or and expr_join_and: rewriting two operands into one. */
module Joins {
  import opened Expressions
  import opened Equality

  /** the symbol an operand talks about; only the first operand may be a negated comparison */
  function Subject(e: Expr, first: bool): Option<Symbol> {
    match e
    case Sym(s) => Some(s)
    case Cmp(Eq, l, _) => Some(l)
    case Cmp(Ne, l, _) => Some(l)
    case Not(Sym(s)) => Some(s)
    case Not(Cmp(Eq, l, _)) => if first then Some(l) else None
    case Not(Cmp(Ne, l, _)) => if first then Some(l) else None
    case _ => None
  }

  predicate Compares(e: Expr, rel: Rel, right: Symbol) { e.Cmp? && e.rel == rel && e.right == right }

  /** e1 and e2 compare with a and b, in either order */
  predicate ComparePair(e1: Expr, e2: Expr, rel: Rel, a: Symbol, b: Symbol) {
    || (Compares(e1, rel, a) && Compares(e2, rel, b))
    || (Compares(e1, rel, b) && Compares(e2, rel, a))
  }

  /** one of e1 and e2 is the bare symbol, the other compares it */
  predicate SymbolAndCompare(e1: Expr, e2: Expr, rel: Rel, a: Symbol) {
    || (e1.Sym? && Compares(e2, rel, a))
    || (e2.Sym? && Compares(e1, rel, a))
  }

  predicate NegatedSymbol(e: Expr) { e.Not? && e.arg.Sym? }

  /** the switch both operands are about, if there is one */
  function CommonSwitch(e1: Expr, e2: Expr): Option<Symbol> {
    var s1, s2 := Subject(e1, true), Subject(e2, false);
    if s1.Some? && s1 == s2 && s1.value.IsSwitch() then s1 else None
  }

  function JoinOr(e1: Expr, e2: Expr): Option<Expr> {
    if ExprEq(e1, e2) then Some(e1)
    else if CommonSwitch(e1, e2).None? then None
    else
      var s := CommonSwitch(e1, e2).value;
      if s.IsTristate() && ComparePair(e1, e2, Eq, Yes, Mod) then Some(Cmp(Ne, s, No))
      else if s.IsTristate() && ComparePair(e1, e2, Eq, Yes, No) then Some(Cmp(Ne, s, Mod))
      else if s.IsTristate() && ComparePair(e1, e2, Eq, Mod, No) then Some(Cmp(Ne, s, Yes))
      else if s.IsBoolean() && ((NegatedSymbol(e1) && e2.Sym?) || (NegatedSymbol(e2) && e1.Sym?)) then Some(Sym(Yes))
      else None
  }

  function JoinAnd(e1: Expr, e2: Expr): Option<Expr> {
    if ExprEq(e1, e2) then Some(e1)
    else if CommonSwitch(e1, e2).None? then None
    else
      var s := CommonSwitch(e1, e2).value;
      if SymbolAndCompare(e1, e2, Eq, Yes) then Some(Cmp(Eq, s, Yes))
      else if SymbolAndCompare(e1, e2, Ne, No) then Some(Sym(s))
      else if SymbolAndCompare(e1, e2, Ne, Mod) then Some(Cmp(Eq, s, Yes))
      else if !s.IsTristate() then None
      else if EqAndNe(e1, e2) then Some(if e1.right != e2.right then Cmp(Eq, s, e1.right) else Sym(No))
      else if EqAndNe(e2, e1) then Some(if e1.right != e2.right then Cmp(Eq, s, e2.right) else Sym(No))
      else if ComparePair(e1, e2, Ne, Yes, No) then Some(Cmp(Eq, s, Mod))
      else if ComparePair(e1, e2, Ne, Yes, Mod) then Some(Cmp(Eq, s, No))
      else if ComparePair(e1, e2, Ne, Mod, No) then Some(Cmp(Eq, s, Yes))
      else None
  }

  /** (a = b) and (a != c) with constants b and c */
  predicate EqAndNe(e1: Expr, e2: Expr) {
    e1.Cmp? && e2.Cmp? && e1.rel == Eq && e2.rel == Ne && e1.right.IsConst() && e2.right.IsConst()
  }

  function Join(op: Op, e1: Expr, e2: Expr): Option<Expr> {
    if op == OpAnd then JoinAnd(e1, e2) else JoinOr(e1, e2)
  }

  // ----- when joining is sound -----

  /** the tristate value a constant stands for when a tristate is compared with it */
  function Denotes(c: Symbol): Option<Tristate> {
    match c
    case Yes => Some(YES)
    case Mod => Some(MOD)
    case No => Some(NO)
    case Quoted(_, Some(k)) => if 0 <= k <= 2 then Some(k) else None
    case _ => None
  }

  lemma CompareWithConstant(a: Symbol, c: Symbol, env: Valuation)
    requires a.IsSwitch() && c.IsConst()
    ensures Compare(a, c, env) == 0 <==> Denotes(c) == Some(TriOf(a, env))
  {
  }

  /** two different constants for the same value: only possible with a quoted numeral */
  predicate Aliases(b: Symbol, c: Symbol) { b != c && Denotes(b).Some? && Denotes(b) == Denotes(c) }

  predicate AliasedOperands(op: Op, e1: Expr, e2: Expr) {
    && op == OpAnd && CommonSwitch(e1, e2).Some? && CommonSwitch(e1, e2).value.IsTristate()
    && (EqAndNe(e1, e2) || EqAndNe(e2, e1)) && Aliases(e1.right, e2.right)
  }

  /** values of the operands about a switch s */
  lemma OperandValue(e: Expr, s: Symbol, env: Valuation)
    requires s.IsSwitch()
    ensures e == Sym(s) || e == Not(Sym(s)) ==> s.IsBoolean() ==> Val(e, env) != MOD
    ensures e.Cmp? && e.left == s && e.right.IsConst() && e.rel == Eq ==>
              Val(e, env) == if Denotes(e.right) == Some(TriOf(s, env)) then YES else NO
    ensures e.Cmp? && e.left == s && e.right.IsConst() && e.rel == Ne ==>
              Val(e, env) == if Denotes(e.right) == Some(TriOf(s, env)) then NO else YES
  {
    if e.Cmp? && e.right.IsConst() && e.left == s {
      CompareWithConstant(s, e.right, env);
    }
  }

  /** the three rules of OR for comparisons, and the one for a bool and its negation */
  lemma EqPairJoins(e1: Expr, e2: Expr, s: Symbol, a: Symbol, b: Symbol, c: Symbol, env: Valuation)
    requires s.IsTristate() && ComparePair(e1, e2, Eq, a, b) && e1.left == e2.left == s
    requires (a, b, c) in {(Yes, Mod, No), (Yes, No, Mod), (Mod, No, Yes)}
    ensures Val(Cmp(Ne, s, c), env) == Max(Val(e1, env), Val(e2, env))
  {
    OperandValue(e1, s, env);
    OperandValue(e2, s, env);
    OperandValue(Cmp(Ne, s, c), s, env);
    hide Compare;
  }

  lemma JoinOrSound(e1: Expr, e2: Expr, env: Valuation)
    requires JoinOr(e1, e2).Some?
    ensures Val(JoinOr(e1, e2).value, env) == Max(Val(e1, env), Val(e2, env))
  {
    if ExprEq(e1, e2) {
      ExprEqSound(e1, e2, env);
    } else {
      hide ExprEq, Compare;
      var s := CommonSwitch(e1, e2).value;
      if s.IsTristate() {
        if ComparePair(e1, e2, Eq, Yes, Mod) {
          EqPairJoins(e1, e2, s, Yes, Mod, No, env);
        } else if ComparePair(e1, e2, Eq, Yes, No) {
          EqPairJoins(e1, e2, s, Yes, No, Mod, env);
        } else {
          EqPairJoins(e1, e2, s, Mod, No, Yes, env);
        }
      } else {
        OperandValue(Sym(s), s, env);
      }
    }
  }

  /** the rules of AND for a symbol and a comparison of it, */
  lemma SymbolJoins(e: Expr, s: Symbol, env: Valuation)
    requires s.IsSwitch() && e.Cmp? && e.left == s
    ensures Compares(e, Eq, Yes) || Compares(e, Ne, Mod) ==> Val(Cmp(Eq, s, Yes), env) == Min(TriOf(s, env), Val(e, env))
    ensures Compares(e, Ne, No) ==> TriOf(s, env) == Min(TriOf(s, env), Val(e, env))
  {
    OperandValue(Sym(s), s, env);
    OperandValue(e, s, env);
    OperandValue(Cmp(Eq, s, Yes), s, env);
    hide Compare;
  }

  /** for a = and a != with constants, */
  lemma EqNeJoins(e1: Expr, e2: Expr, s: Symbol, env: Valuation)
    requires s.IsTristate() && EqAndNe(e1, e2) && e1.left == e2.left == s && !Aliases(e1.right, e2.right)
    ensures Min(Val(e1, env), Val(e2, env)) == if e1.right != e2.right then Val(Cmp(Eq, s, e1.right), env) else NO
  {
    OperandValue(e1, s, env);
    OperandValue(e2, s, env);
    hide Compare;
  }

  /** and for two != */
  lemma NePairJoins(e1: Expr, e2: Expr, s: Symbol, a: Symbol, b: Symbol, c: Symbol, env: Valuation)
    requires s.IsTristate() && ComparePair(e1, e2, Ne, a, b) && e1.left == e2.left == s
    requires (a, b, c) in {(Yes, No, Mod), (Yes, Mod, No), (Mod, No, Yes)}
    ensures Val(Cmp(Eq, s, c), env) == Min(Val(e1, env), Val(e2, env))
  {
    OperandValue(e1, s, env);
    OperandValue(e2, s, env);
    OperandValue(Cmp(Eq, s, c), s, env);
    hide Compare;
  }

  lemma JoinAndSound(e1: Expr, e2: Expr, env: Valuation)
    requires JoinAnd(e1, e2).Some? && (ExprEq(e1, e2) || !AliasedOperands(OpAnd, e1, e2))
    ensures Val(JoinAnd(e1, e2).value, env) == Min(Val(e1, env), Val(e2, env))
  {
    if ExprEq(e1, e2) {
      ExprEqSound(e1, e2, env);
    } else {
      hide ExprEq, Compare;
      var s := CommonSwitch(e1, e2).value;
      if e1.Sym? {
        SymbolJoins(e2, s, env);
      } else if e2.Sym? {
        SymbolJoins(e1, s, env);
      } else if EqAndNe(e1, e2) {
        EqNeJoins(e1, e2, s, env);
      } else if EqAndNe(e2, e1) {
        EqNeJoins(e2, e1, s, env);
      } else {
        JoinNePair(e1, e2, s, env);
      }
    }
  }

  lemma JoinNePair(e1: Expr, e2: Expr, s: Symbol, env: Valuation)
    requires s.IsTristate() && e1.Cmp? && e2.Cmp? && e1.left == e2.left == s
    ensures ComparePair(e1, e2, Ne, Yes, No) ==> Val(Cmp(Eq, s, Mod), env) == Min(Val(e1, env), Val(e2, env))
    ensures ComparePair(e1, e2, Ne, Yes, Mod) ==> Val(Cmp(Eq, s, No), env) == Min(Val(e1, env), Val(e2, env))
    ensures ComparePair(e1, e2, Ne, Mod, No) ==> Val(Cmp(Eq, s, Yes), env) == Min(Val(e1, env), Val(e2, env))
  {
    hide Val;
    if ComparePair(e1, e2, Ne, Yes, No) {
      NePairJoins(e1, e2, s, Yes, No, Mod, env);
    }
    if ComparePair(e1, e2, Ne, Yes, Mod) {
      NePairJoins(e1, e2, s, Yes, Mod, No, env);
    }
    if ComparePair(e1, e2, Ne, Mod, No) {
      NePairJoins(e1, e2, s, Mod, No, Yes, env);
    }
  }

  /** Joining two operands keeps their value under every valuation exactly when the operands do not pit two
      spellings of one value against each other, as in (a = "0") and (a != n). */
  lemma JoinExact(op: Op, e1: Expr, e2: Expr)
    requires Join(op, e1, e2).Some?
    ensures (forall env: Valuation :: Val(Join(op, e1, e2).value, env) == Apply(op, Val(e1, env), Val(e2, env)))
       <==> !AliasedOperands(op, e1, e2)
  {
    if AliasedOperands(op, e1, e2) {
      var s := CommonSwitch(e1, e2).value;
      var env: Valuation := Env(map[s := Denotes(e1.right).value], map[]);
      OperandValue(e1, s, env);
      OperandValue(e2, s, env);
      OperandValue(Join(op, e1, e2).value, s, env);
      assert Val(Join(op, e1, e2).value, env) != Apply(op, Val(e1, env), Val(e2, env));
    } else {
      forall env: Valuation ensures Val(Join(op, e1, e2).value, env) == Apply(op, Val(e1, env), Val(e2, env)) {
        if op == OpAnd {
          JoinAndSound(e1, e2, env);
        } else {
          JoinOrSound(e1, e2, env);
        }
      }
    }
  }

  /** A failing input: with a = n the operands (a = "0"), (a != n) are y and n, their join a = "0" is y. */
  lemma QuotedNumeralBreaksJoin()
    ensures
      var a, zero := Named("A", Tri), Quoted("0", Some(0));
      var e1, e2 := Cmp(Eq, a, zero), Cmp(Ne, a, No);
      Join(OpAnd, e1, e2) == Some(e1) && Val(e1, Env(map[], map[])) == YES && Val(e2, Env(map[], map[])) == NO
  {
  }

  /** no comparison in e is against a numeral that spells a tristate value */
  predicate NumeralFree(e: Expr) {
    match e
    case Sym(_) => true
    case Cmp(_, _, c) => c.Quoted? ==> Denotes(c).None?
    case Not(a) => NumeralFree(a)
    case Bin(_, l, r) => NumeralFree(l) && NumeralFree(r)
  }

  /** Under that condition a join is sound, and it yields an operand of the same kind, no bigger than what it
      replaces. */
  lemma JoinSound(op: Op, e1: Expr, e2: Expr)
    requires Join(op, e1, e2).Some? && NumeralFree(e1) && NumeralFree(e2)
    ensures forall env: Valuation :: Val(Join(op, e1, e2).value, env) == Apply(op, Val(e1, env), Val(e2, env))
    ensures NumeralFree(Join(op, e1, e2).value)
    ensures !IsOp(e1, op) ==> !IsOp(Join(op, e1, e2).value, op)
    ensures Size(Join(op, e1, e2).value) + 1 <= Size(e1) + Size(e2)
    ensures NegationsAtSymbols(e1) ==> NegationsAtSymbols(Join(op, e1, e2).value)
  {
    JoinExact(op, e1, e2);
  }
}
