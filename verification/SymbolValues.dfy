/** What a solution of the equations says of one symbol, told from its prompts, defaults, dependencies and user
    value: which default wins, what imply and select do (sym_calc_visibility and sym_calc_value in
    scripts/config/symbol.c). */
module SymbolValues {
  import opened Expressions
  import opened Kconfig

  /** an optional expression; missing is what its absence stands for */
  function Level(e: Option<Expr>, missing: Tristate, env: Env): Tristate {
    match e
    case None => missing
    case Some(x) => Val(x, env)
  }

  /** r is t, but y instead of m where m is no value: for a bool, and without modules for every symbol. */
  ghost predicate Rounded(k: Model, s: Symbol, t: Tristate, r: Tristate) {
    r == if t == MOD && (s.IsBoolean() || k.modules == NO) then YES else t
  }

  /** t is the greatest value of a prompt's condition, n without prompts. */
  ghost predicate IsTop(props: seq<Property>, env: Env, t: Tristate) {
    && (forall p <- props :: p.Prompt? ==> Level(p.visible, YES, env) <= t)
    && (t == NO || exists p <- props :: p.Prompt? && Level(p.visible, YES, env) == t)
  }

  ghost predicate Applies(p: Property, env: Env) { p.Default? && Level(p.visible, YES, env) != NO }

  /** The default at i is the first one whose condition is not n. */
  ghost predicate IsFirstDefault(props: seq<Property>, env: Env, i: int) {
    0 <= i < |props| && Applies(props[i], env) && forall j | 0 <= j < i :: !Applies(props[j], env)
  }

  /** v is the lesser of value and condition of the first default that applies, n if none does. */
  ghost predicate IsDefaultPart(props: seq<Property>, env: Env, v: Tristate) {
    || (v == NO && forall p <- props :: !Applies(p, env))
    || exists i :: IsFirstDefault(props, env, i)
                   && v == Min(Level(props[i].expr, YES, env), Level(props[i].visible, YES, env))
  }

  // ----- the walks over the properties -----

  lemma {:induction false} PromptLevelTop(props: seq<Property>, env: Env)
    ensures IsTop(props, env, PromptLevel(props, env))
  {
    if props != [] {
      PromptLevelTop(props[1..], env);
      var t := PromptLevel(props, env);
      forall p <- props | p.Prompt? ensures Level(p.visible, YES, env) <= t {
        assert p == props[0] || p in props[1..];
      }
    }
  }

  lemma {:induction false} ActiveDefaultFirst(props: seq<Property>, env: Env)
    ensures match ActiveDefault(props, env)
            case None => forall p <- props :: !Applies(p, env)
            case Some(p) => exists i :: IsFirstDefault(props, env, i) && p == props[i]
  {
    if props != [] {
      var rest := props[1..];
      ActiveDefaultFirst(rest, env);
      if Applies(props[0], env) {
        assert IsFirstDefault(props, env, 0);
      } else if ActiveDefault(rest, env).Some? {
        var i :| IsFirstDefault(rest, env, i) && ActiveDefault(rest, env).value == rest[i];
        assert IsFirstDefault(props, env, i + 1);
      } else {
        assert forall p <- props :: p == props[0] || p in rest;
      }
    }
  }

  lemma DefaultPart(props: seq<Property>, env: Env)
    ensures IsDefaultPart(props, env, DefaultLevel(ActiveDefault(props, env), env))
  {
    ActiveDefaultFirst(props, env);
  }

  /** These parts are unique. */
  lemma PartsUnique(props: seq<Property>, env: Env, t: Tristate, u: Tristate, v: Tristate, w: Tristate)
    ensures IsTop(props, env, t) && IsTop(props, env, u) ==> t == u
    ensures IsDefaultPart(props, env, v) && IsDefaultPart(props, env, w) ==> v == w
  {
  }

  // ----- one symbol of a solution -----

  /** The user's choice counts: there is one, and some prompt is visible. */
  ghost predicate UserDecides(k: Model, users: Users, sol: Env, s: Symbol)
    requires s in k.defs && s in users
  {
    users[s].Some? && exists p <- k.defs[s].props :: p.Prompt? && Level(p.visible, YES, sol) != NO
  }

  /** s has the value v, raised to its reverse dependencies; it is n if they are not n and its dependencies are.
      Rounding at the end is enough, although the code rounds every part. */
  ghost predicate Limited(k: Model, sol: Env, s: Symbol, v: Tristate)
    requires s in k.defs && s in sol.tri
  {
    var rev := Level(k.defs[s].revDep, NO, sol);
    if rev != NO && Level(k.defs[s].dirDep, YES, sol) == NO then sol.tri[s] == NO
    else Rounded(k, s, Max(v, rev), sol.tri[s])
  }

  lemma Visibility(k: Model, users: Users, sol: Env, s: Symbol)
    requires s in k.defs && s in users
    ensures UserDecides(k, users, sol, s) <==> users[s].Some? && PromptLevel(k.defs[s].props, sol) != NO
  {
    PromptLevelTop(k.defs[s].props, sol);
  }

  /** A visible symbol has its user value, lowered to its visibility. */
  lemma UserValueCounts(k: Model, users: Users, sol: Env, s: Symbol, top: Tristate)
    requires WellFormed(k) && Solution(k, users, sol) && s in k.defs
    requires UserDecides(k, users, sol, s) && IsTop(k.defs[s].props, sol, top)
    ensures Limited(k, sol, s, Min(users[s].value, top))
  {
    var props := k.defs[s].props;
    Visibility(k, users, sol, s);
    PromptLevelTop(props, sol);
    PartsUnique(props, sol, top, PromptLevel(props, sol), NO, NO);
    hide PromptLevel, ActiveDefault, Val, IsTop, UserDecides;
    assert sol.tri[s] == Compute(k, s, users[s], sol).curr;
  }

  /** Otherwise it has the value of its defaults, and what implies it lifts that as far as its dependencies go. */
  lemma DefaultCounts(k: Model, users: Users, sol: Env, s: Symbol, v: Tristate)
    requires WellFormed(k) && Solution(k, users, sol) && s in k.defs
    requires !UserDecides(k, users, sol, s) && IsDefaultPart(k.defs[s].props, sol, v)
    ensures var implied := Level(k.defs[s].implied, NO, sol);
            Limited(k, sol, s, if implied == NO then v else Min(Max(v, implied), Level(k.defs[s].dirDep, YES, sol)))
  {
    var props := k.defs[s].props;
    Visibility(k, users, sol, s);
    DefaultPart(props, sol);
    PartsUnique(props, sol, NO, NO, v, DefaultLevel(ActiveDefault(props, sol), sol));
    hide PromptLevel, ActiveDefault, Val, DefaultLevel, IsDefaultPart, UserDecides;
    assert sol.tri[s] == Compute(k, s, users[s], sol).curr;
  }

  /** The first default whose condition is not n gives the value of a symbol that nothing else decides. */
  lemma FirstDefaultWins(k: Model, users: Users, sol: Env, s: Symbol, i: int)
    requires WellFormed(k) && Solution(k, users, sol) && s in k.defs && !UserDecides(k, users, sol, s)
    requires Level(k.defs[s].implied, NO, sol) == NO && Level(k.defs[s].revDep, NO, sol) == NO
    requires IsFirstDefault(k.defs[s].props, sol, i)
    ensures var p := k.defs[s].props[i];
            Rounded(k, s, Min(Level(p.expr, YES, sol), Level(p.visible, YES, sol)), sol.tri[s])
  {
    var p := k.defs[s].props[i];
    DefaultCounts(k, users, sol, s, Min(Level(p.expr, YES, sol), Level(p.visible, YES, sol)));
  }

  /** A symbol that nothing decides is n. */
  lemma NoDefaultIsNo(k: Model, users: Users, sol: Env, s: Symbol)
    requires WellFormed(k) && Solution(k, users, sol) && s in k.defs && !UserDecides(k, users, sol, s)
    requires Level(k.defs[s].implied, NO, sol) == NO && Level(k.defs[s].revDep, NO, sol) == NO
    requires forall p <- k.defs[s].props :: !Applies(p, sol)
    ensures sol.tri[s] == NO
  {
    DefaultCounts(k, users, sol, s, NO);
  }

  /** The calculated fields: visibility and dependencies are rounded each, and a symbol is written unless all four
      reasons to write it are n. */
  lemma FieldsMean(k: Model, s: Symbol, user: Option<Tristate>, env: Env, top: Tristate)
    requires WellFormed(k) && s in k.defs && IsTop(k.defs[s].props, env, top)
    ensures var d, x := k.defs[s], Compute(k, s, user, env);
            && Rounded(k, s, top, x.visible)
            && Rounded(k, s, Level(d.dirDep, YES, env), x.dirDep)
            && Rounded(k, s, Level(d.revDep, NO, env), x.revDep)
            && Rounded(k, s, Level(d.implied, NO, env), x.implied)
            && (x.write <==> !d.noWrite && (top != NO || Level(d.revDep, NO, env) != NO
                             || Level(d.implied, NO, env) != NO || exists p <- d.props :: Applies(p, env)))
  {
    var props := k.defs[s].props;
    PromptLevelTop(props, env);
    PartsUnique(props, env, top, PromptLevel(props, env), NO, NO);
    ActiveDefaultFirst(props, env);
    hide PromptLevel, ActiveDefault, Val, IsTop;
  }
}
