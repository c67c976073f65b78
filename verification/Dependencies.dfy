/** What "depends on" means: for the cycle check, an occurrence in one of the expressions that decide a symbol's
    value (sym_check_sym_deps in scripts/config/symbol.c); for automatic submenus, an operand of a condition that
    tests the symbol (expr_depends_symbol in scripts/config/expr.c). And the symbols expr_transform leaves in place. */
module Dependencies {
  import opened Expressions
  import opened Kconfig
  import opened Equality
  import opened Normalization
  import opened Positions
  import Conditions
  import Checking

  /** t occurs in an optional expression */
  ghost predicate OccursIn(e: Option<Expr>, t: Symbol) { e.Some? && Conditions.ContainsSymbol(e.value, t) }

  lemma {:induction false} MentionsIff(e: Expr, t: Symbol)
    ensures t in Mentions(e) <==> Conditions.ContainsSymbol(e, t)
  {
    match e
    case Not(a) => MentionsIff(a, t);
    case Bin(_, l, r) =>
      MentionsIff(l, t);
      MentionsIff(r, t);
    case _ =>
  }

  lemma MentionsOptIff(e: Option<Expr>, t: Symbol)
    ensures t in MentionsOpt(e) <==> OccursIn(e, t)
  {
    if e.Some? {
      MentionsIff(e.value, t);
    }
  }

  /** What a property adds: the condition of anything but select and imply, and the value of a default. */
  ghost predicate PropertyUses(p: Property, t: Symbol) {
    || (!p.Select? && !p.Imply? && OccursIn(p.visible, t))
    || (p.Default? && OccursIn(p.expr, t))
  }

  lemma {:induction false} PropertiesUse(props: seq<Property>, t: Symbol)
    ensures t in PropsMentions(props) <==> exists p <- props :: PropertyUses(p, t)
  {
    if props != [] {
      var p, rest := props[0], props[1..];
      PropertiesUse(rest, t);
      MentionsOptIff(p.visible, t);
      if p.Default? {
        MentionsOptIff(p.expr, t);
      }
      hide MentionsOpt, OccursIn;
      assert t in PropMentions(p) <==> PropertyUses(p, t);
      assert forall q <- props :: q == p || q in rest;
    }
  }

  /** s depends on t exactly if t occurs in what s depends on, what selects or implies it, a condition of its prompts,
      defaults and other properties, or the value of a default, but not for its own selects and implies. */
  lemma DependsOnIff(k: Model, s: Symbol, t: Symbol)
    requires s in k.defs
    ensures var d := k.defs[s];
            DependsOn(k, s, t) <==>
              || OccursIn(d.dirDep, t) || OccursIn(d.revDep, t) || OccursIn(d.implied, t)
              || exists p <- d.props :: PropertyUses(p, t)
  {
    var d := k.defs[s];
    MentionsOptIff(d.dirDep, t);
    MentionsOptIff(d.revDep, t);
    MentionsOptIff(d.implied, t);
    PropertiesUse(d.props, t);
    hide MentionsOpt, PropsMentions, OccursIn, PropertyUses;
  }

  /** The config of A with a prompt and one more property, C that depends on A, and B that A and C select. */
  function Triangle(a: Symbol, b: Symbol, c: Symbol, p: Property): Model {
    Model(map[a := Definition(None, None, None, [Prompt(None), p], false),
              b := Definition(None, Some(Bin(OpAnd, Sym(a), Sym(c))), None, [], false),
              c := Definition(Some(Sym(a)), None, None, [], false)], NO, map[])
  }

  /** "A selects B if C" or "A implies B if C" and "C depends on A" are no cycle; "A default y if C" would be one. */
  lemma SelectConditionRanked(a: Symbol, b: Symbol, c: Symbol)
    requires a.IsSwitch() && b.IsSwitch() && c.IsSwitch() && a != b && a != c && b != c
    ensures forall p <- [Select(b, Some(Sym(c))), Imply(b, Some(Sym(c)))] ::
              Ranks(Triangle(a, b, c, p), map[a := 0, c := 1, b := 2]) && !Checking.HasCycle(Triangle(a, b, c, p))
    ensures Checking.IsCycle(Triangle(a, b, c, Default(None, Some(Sym(c)))), [a, c, a])
  {
    forall p <- [Select(b, Some(Sym(c))), Imply(b, Some(Sym(c)))]
      ensures Ranks(Triangle(a, b, c, p), map[a := 0, c := 1, b := 2]) && !Checking.HasCycle(Triangle(a, b, c, p))
    {
      TriangleRanks(a, b, c, p);
      Checking.RanksExcludeCycles(Triangle(a, b, c, p), map[a := 0, c := 1, b := 2]);
    }
    var p := Default(None, Some(Sym(c)));
    var k := Triangle(a, b, c, p);
    DependsOnIff(k, a, c);
    DependsOnIff(k, c, a);
    assert p in k.defs[a].props && PropertyUses(p, c);
  }

  lemma TriangleRanks(a: Symbol, b: Symbol, c: Symbol, p: Property)
    requires a.IsSwitch() && b.IsSwitch() && c.IsSwitch() && a != b && a != c && b != c
    requires p == Select(b, Some(Sym(c))) || p == Imply(b, Some(Sym(c)))
    ensures Ranks(Triangle(a, b, c, p), map[a := 0, c := 1, b := 2])
  {
    var k := Triangle(a, b, c, p);
    var rank: Ranking := map[a := 0, c := 1, b := 2];
    forall s, t | DependsOn(k, s, t) && t in k.defs ensures rank[t] < rank[s] {
      DependsOnIff(k, s, t);
      Occurring(a, c, t);
      hide Conditions.ContainsSymbol, OccursIn, Dependencies, DependsOn;
      if s == b {
        assert k.defs[s] == Definition(None, Some(Bin(OpAnd, Sym(a), Sym(c))), None, [], false);
      } else {
        assert k.defs[s] == if s == a then Definition(None, None, None, [Prompt(None), p], false)
                            else Definition(Some(Sym(a)), None, None, [], false);
      }
    }
  }

  lemma Occurring(a: Symbol, c: Symbol, t: Symbol)
    ensures OccursIn(Some(Bin(OpAnd, Sym(a), Sym(c))), t) <==> t == a || t == c
    ensures OccursIn(Some(Sym(a)), t) <==> t == a
    ensures !OccursIn(None, t)
  {
    var e := Bin(OpAnd, Sym(a), Sym(c));
    assert Conditions.ContainsSymbol(e, t) <==> Conditions.ContainsSymbol(e.l, t) || Conditions.ContainsSymbol(e.r, t);
  }

  // ----- expr_depends_symbol -----

  /** y or m is required of s: as itself, or compared */
  ghost predicate Tests(e: Expr, s: Symbol) {
    e == Sym(s) || e == Cmp(Eq, s, Yes) || e == Cmp(Eq, s, Mod) || e == Cmp(Ne, s, No)
  }

  ghost predicate HasTest(e: Expr, s: Symbol) { exists p :: IsOperand(e, OpAnd, p) && Tests(At(e, p), s) }

  lemma TestBelow(e: Expr, s: Symbol, side: Side)
    requires IsOp(e, OpAnd) && HasTest(Child(e, side), s)
    ensures HasTest(e, s)
  {
    var q :| IsOperand(Child(e, side), OpAnd, q) && Tests(At(Child(e, side), q), s);
    var p := [side] + q;
    assert p[1..] == q;
    assert IsOperand(e, OpAnd, p) && At(e, p) == At(Child(e, side), q);
  }

  lemma TestAbove(e: Expr, s: Symbol)
    requires IsOp(e, OpAnd) && HasTest(e, s)
    ensures HasTest(e.l, s) || HasTest(e.r, s)
  {
    var p :| IsOperand(e, OpAnd, p) && Tests(At(e, p), s);
    assert IsOperand(Child(e, p[0]), OpAnd, p[1..]);
  }

  lemma TestHere(e: Expr, s: Symbol)
    requires !IsOp(e, OpAnd)
    ensures HasTest(e, s) <==> Tests(e, s)
  {
    assert IsOperand(e, OpAnd, []) && At(e, []) == e;
  }

  /** A condition depends on s exactly if one of its AND operands, wherever it stands, tests s. */
  lemma {:induction false} DependsSymbolIff(e: Expr, s: Symbol)
    ensures Conditions.DependsSymbol(e, s) <==> HasTest(e, s)
  {
    hide HasTest;
    if IsOp(e, OpAnd) {
      DependsSymbolIff(e.l, s);
      DependsSymbolIff(e.r, s);
      if HasTest(e, s) {
        TestAbove(e, s);
      }
      if HasTest(e.l, s) {
        TestBelow(e, s, Left);
      }
      if HasTest(e.r, s) {
        TestBelow(e, s, Right);
      }
    } else {
      TestHere(e, s);
    }
  }

  // ----- expr_transform keeps the order of symbols -----

  /** no atom that expr_transform would decide or shorten: y, m or n, or a bool compared with them for equality */
  predicate Open(e: Expr) {
    match e
    case Sym(s) => !s.IsLetter()
    case Cmp(rel, l, r) => !(l.IsBoolean() && r.IsLetter() && (rel == Eq || rel == Ne))
    case Not(a) => Open(a)
    case Bin(_, l, r) => Open(l) && Open(r)
  }

  /** Negations move, comparisons and operators turn round, but every symbol stays in its place. */
  lemma {:induction false} TransformKeepsOrder(e: Expr)
    requires Open(e)
    ensures Mentions(Transform(e)) == Mentions(e) && Open(Transform(e))
    decreases Measure(e), 1
  {
    match e
    case Bin(_, l, r) =>
      TransformKeepsOrder(l);
      TransformKeepsOrder(r);
    case Not(x) =>
      TransformKeepsOrder(x);
      NegatedKeepsOrder(Transform(x));
    case _ =>
  }

  lemma {:induction false} NegatedKeepsOrder(x: Expr)
    requires Open(x)
    ensures Mentions(Negated(x)) == Mentions(x) && Open(Negated(x))
    decreases 2 * Measure(x), 0
  {
    match x
    case Not(a) => TransformKeepsOrder(a);
    case Bin(op, a, b) =>
      MeasureDeMorgan(op, a, b);
      TransformKeepsOrder(Bin(Dual(op), Not(a), Not(b)));
    case _ =>
  }
}
