/** What the value of an expression means: comparisons, and the three connectives as order operations
    (expr_calc_value in scripts/config/expr.c). */
module Values {
  import opened Expressions

  // ----- comparisons -----

  /** All six comparisons of l with r have the value they should if l is less than r (lt), equal (eq) or neither. */
  ghost predicate ComparesLike(l: Symbol, r: Symbol, env: Env, lt: bool, eq: bool) {
    && !(lt && eq)
    && Val(Cmp(Eq, l, r), env) == (if eq then YES else NO)
    && Val(Cmp(Ne, l, r), env) == (if eq then NO else YES)
    && Val(Cmp(Lt, l, r), env) == (if lt then YES else NO)
    && Val(Cmp(Le, l, r), env) == (if lt || eq then YES else NO)
    && Val(Cmp(Gt, l, r), env) == (if lt || eq then NO else YES)
    && Val(Cmp(Ge, l, r), env) == (if lt then NO else YES)
  }

  /** Between any two symbols exactly one of <, = and > is y, and the other comparisons follow. */
  lemma OneOrderHolds(l: Symbol, r: Symbol, env: Env)
    ensures ComparesLike(l, r, env, Val(Cmp(Lt, l, r), env) == YES, Val(Cmp(Eq, l, r), env) == YES)
  {
  }

  /** Bool and tristate symbols compare by value. */
  lemma SwitchesCompare(l: Symbol, r: Symbol, env: Env)
    requires l.IsSwitch() && r.IsSwitch()
    ensures ComparesLike(l, r, env, TriOf(l, env) < TriOf(r, env), TriOf(l, env) == TriOf(r, env))
  {
  }

  /** Against a quoted numeral a switch counts as 0, 1 or 2, on either side. */
  lemma NumeralsCompare(s: Symbol, text: string, n: int, env: Env)
    requires s.IsSwitch()
    ensures ComparesLike(s, Quoted(text, Some(n)), env, TriOf(s, env) < n, TriOf(s, env) == n)
    ensures ComparesLike(Quoted(text, Some(n)), s, env, n < TriOf(s, env), n == TriOf(s, env))
  {
  }

  /** Against y, m and n a switch counts as the letter of its value, and m comes before n before y. */
  lemma LettersCompare(l: Symbol, r: Symbol, env: Env)
    requires l.IsLogical() && r.IsLogical() && (l.IsLetter() || r.IsLetter())
    ensures var a, b := TriOf(l, env), TriOf(r, env);
            ComparesLike(l, r, env, (a, b) in {(MOD, NO), (MOD, YES), (NO, YES)}, a == b)
  {
  }

  /** A quoted word that is no numeral is never the value of a switch. */
  lemma WordsDiffer(s: Symbol, text: string, env: Env)
    requires s.IsSwitch()
    ensures Val(Cmp(Eq, s, Quoted(text, None)), env) == Val(Cmp(Eq, Quoted(text, None), s), env) == NO
  {
  }

  /** The two orders differ: a switch that is m is less than the constant n, and not less than a switch that is n. */
  lemma LetterOrderDiffers(s: Symbol, t: Symbol, env: Env)
    requires s.IsSwitch() && t.IsSwitch() && TriOf(s, env) == MOD && TriOf(t, env) == NO
    ensures Val(Cmp(Lt, s, No), env) == YES && Val(Cmp(Lt, s, t), env) == NO
  {
  }

  // ----- connectives -----

  /** AND is the greatest value below both operands, OR the least above both. */
  lemma ConnectivesBound(a: Expr, b: Expr, v: Tristate, env: Env)
    ensures v <= Val(Bin(OpAnd, a, b), env) <==> v <= Val(a, env) && v <= Val(b, env)
    ensures Val(Bin(OpOr, a, b), env) <= v <==> Val(a, env) <= v && Val(b, env) <= v
  {
  }

  /** NOT turns the order round and is its own inverse, so it exchanges y and n and keeps m. */
  lemma NotReverses(a: Expr, b: Expr, env: Env)
    ensures Val(Not(a), env) <= Val(Not(b), env) <==> Val(b, env) <= Val(a, env)
    ensures Val(Not(Not(a)), env) == Val(a, env)
    ensures Val(Not(a), env) == Val(a, env) <==> Val(a, env) == MOD
  {
  }

  /** A symbol stands for its value: y, m and n for themselves, a quoted text and a symbol without a value for n. */
  lemma SymbolsValue(s: Symbol, env: Env)
    ensures Val(Sym(Yes), env) == 2 && Val(Sym(Mod), env) == 1 && Val(Sym(No), env) == 0
    ensures s.Quoted? || (s.Named? && s !in env.tri) ==> Val(Sym(s), env) == NO
    ensures s.Named? && s in env.tri ==> Val(Sym(s), env) == env.tri[s]
  {
  }
}
