/** expr_transform: negation normal form and removal of comparisons on bools. */
module Normalization {
  import opened Expressions
  import opened Equality
  import opened Joins

  /** A measure under which every recursive call of expr_transform goes down: a NOT doubles its operand, so
      pushing it through an AND or OR gains one. */
  function Measure(e: Expr): (n: nat)
    ensures n >= 1
  {
    match e
    case Sym(_) => 1
    case Cmp(_, _, _) => 2
    case Not(a) => 2 * Measure(a)
    case Bin(_, l, r) => 1 + Measure(l) + Measure(r)
  }

  lemma MeasureDeMorgan(op: Op, a: Expr, b: Expr)
    ensures Measure(Bin(Dual(op), Not(a), Not(b))) < 2 * Measure(Bin(op, a, b))
  {
    assert Measure(Not(a)) == 2 * Measure(a) && Measure(Not(b)) == 2 * Measure(b);
  }

  function NegateRel(rel: Rel): Rel {
    match rel
    case Eq => Ne
    case Ne => Eq
    case Le => Gt
    case Ge => Lt
    case Lt => Ge
    case Gt => Le
  }

  /** a comparison whose left side is bool, against y, m or n */
  function TransformCompare(e: Expr): Expr
    requires e.Cmp?
  {
    if !e.left.IsBoolean() then e
    else match (e.rel, e.right)
      case (Eq, No) => Not(Sym(e.left))
      case (Eq, Mod) => Sym(No)
      case (Eq, Yes) => Sym(e.left)
      case (Ne, No) => Sym(e.left)
      case (Ne, Mod) => Sym(Yes)
      case (Ne, Yes) => Not(Sym(e.left))
      case _ => e
  }

  function NegateLetter(s: Symbol): Symbol
    requires s.IsLetter()
  {
    if s == Yes then No else if s == Mod then Mod else Yes
  }

  function Transform(e: Expr): (r: Expr)
    ensures Measure(r) <= Measure(e)
    decreases Measure(e), 1
  {
    match e
    case Sym(_) => e
    case Cmp(_, _, _) => TransformCompare(e)
    case Bin(op, l, r) => Bin(op, Transform(l), Transform(r))
    case Not(x) => Negated(Transform(x))
  }

  /** the NOT cases, once the operand has been transformed to x */
  function Negated(x: Expr): (r: Expr)
    ensures Measure(r) <= 2 * Measure(x)
    decreases 2 * Measure(x), 0
  {
    match x
    case Not(a) => Transform(a)
    case Cmp(rel, l, r) => Cmp(NegateRel(rel), l, r)
    case Bin(op, a, b) =>
      MeasureDeMorgan(op, a, b);
      Transform(Bin(Dual(op), Not(a), Not(b)))
    case Sym(s) => if s.IsLetter() then Sym(NegateLetter(s)) else Not(x)
  }

  /** the result form: NOT only above a symbol other than y, m, n, and no bool compared with y, m, n for
      equality */
  predicate Normal(e: Expr) {
    match e
    case Sym(_) => true
    case Cmp(rel, l, r) => !(l.IsBoolean() && r.IsLetter() && (rel == Eq || rel == Ne))
    case Not(a) => a.Sym? && !a.sym.IsLetter()
    case Bin(_, l, r) => Normal(l) && Normal(r)
  }

  lemma TransformCompareSound(e: Expr, env: Valuation)
    requires e.Cmp?
    ensures Val(TransformCompare(e), env) == Val(e, env)
  {
    if e.left.IsBoolean() && e.right.IsLetter() {
      CompareWithConstant(e.left, e.right, env);
    }
  }

  lemma NegateRelSound(e: Expr, env: Env)
    requires e.Cmp?
    ensures Val(Cmp(NegateRel(e.rel), e.left, e.right), env) == Invert(Val(e, env))
  {
  }

  /** De Morgan's law for min and max */
  lemma DeMorgan(op: Op, a: Expr, b: Expr, env: Env)
    ensures Val(Bin(Dual(op), Not(a), Not(b)), env) == Invert(Val(Bin(op, a, b), env))
  {
  }

  /** expr_transform keeps the value under every well-typed valuation. */
  lemma {:induction false} TransformSound(e: Expr, env: Valuation)
    ensures Val(Transform(e), env) == Val(e, env)
    decreases Measure(e)
  {
    match e
    case Sym(_) =>
    case Cmp(_, _, _) => TransformCompareSound(e, env);
    case Bin(op, l, r) =>
      TransformSound(l, env);
      TransformSound(r, env);
    case Not(x) =>
      TransformSound(x, env);
      var y := Transform(x);
      match y {
        case Not(a) => TransformSound(a, env);
        case Cmp(_, _, _) => NegateRelSound(y, env);
        case Bin(op, a, b) =>
          DeMorgan(op, a, b, env);
          MeasureDeMorgan(op, a, b);
          TransformSound(Bin(Dual(op), Not(a), Not(b)), env);
        case Sym(_) =>
      }
  }

  /** It yields the normal form, */
  lemma {:induction false} TransformNormal(e: Expr)
    ensures Normal(Transform(e))
    decreases Measure(e)
  {
    match e
    case Sym(_) =>
    case Cmp(_, _, _) =>
    case Bin(op, l, r) =>
      TransformNormal(l);
      TransformNormal(r);
    case Not(x) =>
      TransformNormal(x);
      var y := Transform(x);
      match y {
        case Not(a) => TransformNormal(a);
        case Cmp(_, _, _) =>
        case Bin(op, a, b) =>
          MeasureDeMorgan(op, a, b);
          TransformNormal(Bin(Dual(op), Not(a), Not(b)));
        case Sym(_) =>
      }
  }

  /** which it leaves alone: */
  lemma {:induction false} TransformFixesNormal(e: Expr)
    requires Normal(e)
    ensures Transform(e) == e
  {
    if e.Bin? {
      TransformFixesNormal(e.l);
      TransformFixesNormal(e.r);
    }
  }

  /** expr_transform is idempotent. */
  lemma TransformIdempotent(e: Expr)
    ensures Transform(Transform(e)) == Transform(e)
  {
    TransformNormal(e);
    TransformFixesNormal(Transform(e));
  }

  /** The normal form is reached exactly by the fixed points. */
  lemma NormalIffFixed(e: Expr)
    ensures Normal(e) <==> Transform(e) == e
  {
    TransformNormal(e);
    if Normal(e) {
      TransformFixesNormal(e);
    }
  }

  lemma {:induction false} NormalNegations(e: Expr)
    requires Normal(e)
    ensures NegationsAtSymbols(e)
  {
    if e.Bin? {
      NormalNegations(e.l);
      NormalNegations(e.r);
    }
  }

  lemma {:induction false} TransformNumeralFree(e: Expr)
    requires NumeralFree(e)
    ensures NumeralFree(Transform(e))
    decreases Measure(e)
  {
    match e
    case Bin(_, l, r) =>
      TransformNumeralFree(l);
      TransformNumeralFree(r);
    case Not(x) =>
      TransformNumeralFree(x);
      var y := Transform(x);
      match y {
        case Not(a) => TransformNumeralFree(a);
        case Bin(op, a, b) =>
          MeasureDeMorgan(op, a, b);
          TransformNumeralFree(Bin(Dual(op), Not(a), Not(b)));
        case _ =>
      }
    case _ =>
  }

  function TransformOpt(e: Option<Expr>): Option<Expr> { if e.None? then None else Some(Transform(e.value)) }
}
