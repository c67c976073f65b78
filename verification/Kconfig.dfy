/** Symbol definitions and the equations their values satisfy: sym_calc_visibility and sym_calc_value as
    functions of the values of the symbols they mention. */
module Kconfig {
  import opened Expressions

  /** struct property: a prompt of any kind, a default, a select or imply, or anything else with a condition */
  datatype Property =
    | Prompt(visible: Option<Expr>)
    | Default(expr: Option<Expr>, visible: Option<Expr>)
    | Select(target: Symbol, visible: Option<Expr>)
    | Imply(target: Symbol, visible: Option<Expr>)
    | Other(visible: Option<Expr>)

  /** the parts of struct symbol that parsing and menu_finalize fix */
  datatype Definition = Definition(
    dirDep: Option<Expr>,
    revDep: Option<Expr>,
    implied: Option<Expr>,
    props: seq<Property>,
    noWrite: bool)

  /** all bool and tristate symbols, the settled value of MODULES, and the order of other texts */
  datatype Model = Model(defs: map<Symbol, Definition>, modules: Tristate, texts: TextOrder)

  ghost predicate WellFormed(k: Model) { forall s <- k.defs :: s.IsSwitch() }

  /** the calculated fields of struct symbol */
  datatype Status = Status(
    visible: Tristate,
    dirDep: Tristate,
    revDep: Tristate,
    implied: Tristate,
    curr: Tristate,
    write: bool)

  // ----- the equations -----

  /** sym_get_type is S_BOOLEAN */
  predicate TreatedAsBool(k: Model, s: Symbol) { s.IsBoolean() || (s.IsTristate() && k.modules == NO) }

  function RaiseMod(k: Model, s: Symbol, t: Tristate): Tristate { if t == MOD && TreatedAsBool(k, s) then YES else t }

  function PromptLevel(props: seq<Property>, env: Env): Tristate {
    if props == [] then NO
    else if props[0].Prompt? then Max(ValOpt(props[0].visible, env), PromptLevel(props[1..], env))
    else PromptLevel(props[1..], env)
  }

  /** the first default whose condition is not n */
  function ActiveDefault(props: seq<Property>, env: Env): Option<Property> {
    if props == [] then None
    else if props[0].Default? && ValOpt(props[0].visible, env) != NO then Some(props[0])
    else ActiveDefault(props[1..], env)
  }

  /** an absent reverse dependency is n, not y */
  function ValOrNo(e: Option<Expr>, env: Env): Tristate { if e.None? then NO else Val(e.value, env) }

  /** what the active default contributes */
  function DefaultLevel(default: Option<Property>, env: Env): Tristate {
    match default
    case Some(Default(e, c)) => Min(ValOpt(e, env), ValOpt(c, env))
    case _ => NO
  }

  /** the value before limits from reverse dependencies */
  function BaseValue(visible: Tristate, dirDep: Tristate, implied: Tristate, user: Option<Tristate>,
                     default: Option<Property>, env: Env): Tristate
  {
    if visible != NO && user.Some? then Min(user.value, visible)
    else
      var v := DefaultLevel(default, env);
      if implied != NO then Min(Max(v, implied), dirDep) else v
  }

  /** the value limited by reverse dependencies */
  function Limit(base: Tristate, dirDep: Tristate, revDep: Tristate): Tristate {
    if dirDep == NO && revDep != NO then NO else Max(base, revDep)
  }

  /** everything sym_calc_value works out for s, given its user value and the values of the symbols it mentions */
  function Compute(k: Model, s: Symbol, user: Option<Tristate>, env: Env): Status
    requires s in k.defs
  {
    var d := k.defs[s];
    var visible := RaiseMod(k, s, PromptLevel(d.props, env));
    var dirDep := RaiseMod(k, s, ValOpt(d.dirDep, env));
    var revDep := RaiseMod(k, s, ValOrNo(d.revDep, env));
    var implied := RaiseMod(k, s, ValOrNo(d.implied, env));
    var default := ActiveDefault(d.props, env);
    var base := BaseValue(visible, dirDep, implied, user, default, env);
    Status(visible, dirDep, revDep, implied, RaiseMod(k, s, Limit(base, dirDep, revDep)),
           !d.noWrite && (visible != NO || revDep != NO || default.Some? || implied != NO))
  }

  type Users = map<Symbol, Option<Tristate>>

  /** env gives every symbol the value its own equation demands */
  ghost predicate Solution(k: Model, users: Users, env: Env) {
    && env.tri.Keys == k.defs.Keys && users.Keys == k.defs.Keys && env.other == k.texts
    && forall s <- k.defs :: env.tri[s] == Compute(k, s, users[s], env).curr
  }

  // ----- dependencies -----

  /** the symbols of an expression, in the order sym_check_expr_deps meets them */
  function Mentions(e: Expr): seq<Symbol> {
    match e
    case Sym(s) => [s]
    case Cmp(_, l, r) => [l, r]
    case Not(a) => Mentions(a)
    case Bin(_, l, r) => Mentions(l) + Mentions(r)
  }

  function MentionsOpt(e: Option<Expr>): seq<Symbol> { if e.None? then [] else Mentions(e.value) }

  function PropMentions(p: Property): seq<Symbol> {
    match p
    case Default(e, c) => MentionsOpt(c) + MentionsOpt(e)
    case Select(_, _) => []
    case Imply(_, _) => []
    case _ => MentionsOpt(p.visible)
  }

  function PropsMentions(props: seq<Property>): seq<Symbol> {
    if props == [] then [] else PropMentions(props[0]) + PropsMentions(props[1..])
  }

  function Dependencies(d: Definition): seq<Symbol> {
    MentionsOpt(d.dirDep) + MentionsOpt(d.revDep) + MentionsOpt(d.implied) + PropsMentions(d.props)
  }

  /** s depends directly on t */
  predicate DependsOn(k: Model, s: Symbol, t: Symbol) { s in k.defs && t in Dependencies(k.defs[s]) }

  type Ranking = map<Symbol, nat>

  /** rank goes down along every dependency between defined symbols */
  ghost predicate Ranks(k: Model, rank: Ranking) {
    && rank.Keys == k.defs.Keys
    && forall s, t {:trigger DependsOn(k, s, t)} :: DependsOn(k, s, t) && t in k.defs ==> rank[t] < rank[s]
  }

  // ----- the equations look only at the symbols mentioned -----

  ghost predicate AgreeOn(symbols: seq<Symbol>, e1: Env, e2: Env) {
    e1.other == e2.other && forall s <- symbols :: TriOf(s, e1) == TriOf(s, e2)
  }

  lemma {:induction false} ValLocal(e: Expr, e1: Env, e2: Env)
    requires AgreeOn(Mentions(e), e1, e2)
    ensures Val(e, e1) == Val(e, e2)
  {
    match e
    case Sym(s) =>
    case Cmp(_, l, r) => assert l in Mentions(e) && r in Mentions(e);
    case Not(a) => ValLocal(a, e1, e2);
    case Bin(_, l, r) =>
      ValLocal(l, e1, e2);
      ValLocal(r, e1, e2);
  }

  lemma ValOptLocal(e: Option<Expr>, e1: Env, e2: Env)
    requires AgreeOn(MentionsOpt(e), e1, e2)
    ensures ValOpt(e, e1) == ValOpt(e, e2) && ValOrNo(e, e1) == ValOrNo(e, e2)
  {
    if e.Some? {
      ValLocal(e.value, e1, e2);
    }
  }

  lemma {:induction false} PropsLocal(props: seq<Property>, e1: Env, e2: Env)
    requires AgreeOn(PropsMentions(props), e1, e2)
    ensures PromptLevel(props, e1) == PromptLevel(props, e2) && ActiveDefault(props, e1) == ActiveDefault(props, e2)
    ensures ActiveDefault(props, e1).Some? ==>
              var p := ActiveDefault(props, e1).value;
              p.Default? && ValOpt(p.expr, e1) == ValOpt(p.expr, e2) && ValOpt(p.visible, e1) == ValOpt(p.visible, e2)
  {
    if props != [] {
      var p := props[0];
      PropsLocal(props[1..], e1, e2);
      if !p.Select? && !p.Imply? {
        ValOptLocal(p.visible, e1, e2);
      }
      if p.Default? {
        ValOptLocal(p.expr, e1, e2);
      }
    }
  }

  lemma DependenciesAgree(d: Definition, e1: Env, e2: Env)
    requires AgreeOn(Dependencies(d), e1, e2)
    ensures AgreeOn(MentionsOpt(d.dirDep), e1, e2) && AgreeOn(MentionsOpt(d.revDep), e1, e2)
    ensures AgreeOn(MentionsOpt(d.implied), e1, e2) && AgreeOn(PropsMentions(d.props), e1, e2)
  {
    hide MentionsOpt, PropsMentions;
  }

  lemma ComputeLocal(k: Model, s: Symbol, user: Option<Tristate>, e1: Env, e2: Env)
    requires s in k.defs && AgreeOn(Dependencies(k.defs[s]), e1, e2)
    ensures Compute(k, s, user, e1) == Compute(k, s, user, e2)
  {
    var d := k.defs[s];
    DependenciesAgree(d, e1, e2);
    hide Val, PromptLevel, ActiveDefault, RaiseMod, Dependencies, AgreeOn;
    ValOptLocal(d.dirDep, e1, e2);
    ValOptLocal(d.revDep, e1, e2);
    ValOptLocal(d.implied, e1, e2);
    PropsLocal(d.props, e1, e2);
  }

  // ----- on an acyclic graph the equations have exactly one solution -----

  /** the values of all symbols of rank below n, computed by rank */
  ghost function Below(k: Model, users: Users, rank: Ranking, n: nat): Env
    requires Ranks(k, rank) && users.Keys == k.defs.Keys
    decreases n, 0
  {
    Env(map s | s in k.defs && rank[s] < n :: ValueByRank(k, users, rank, s), k.texts)
  }

  ghost function ValueByRank(k: Model, users: Users, rank: Ranking, s: Symbol): Tristate
    requires Ranks(k, rank) && users.Keys == k.defs.Keys && s in k.defs
    decreases rank[s], 1
  {
    Compute(k, s, users[s], Below(k, users, rank, rank[s])).curr
  }

  lemma ExistsSolution(k: Model, users: Users, rank: Ranking) returns (env: Env)
    requires Ranks(k, rank) && users.Keys == k.defs.Keys
    ensures Solution(k, users, env)
  {
    env := Env(map s | s in k.defs :: ValueByRank(k, users, rank, s), k.texts);
    forall s <- k.defs ensures env.tri[s] == Compute(k, s, users[s], env).curr {
      var below := Below(k, users, rank, rank[s]);
      forall t <- Dependencies(k.defs[s]) ensures TriOf(t, below) == TriOf(t, env) {
        assert DependsOn(k, s, t);
      }
      ComputeLocal(k, s, users[s], below, env);
    }
  }

  /** s sees only symbols of lower rank */
  lemma SeesLower(k: Model, rank: Ranking, e1: Env, e2: Env, s: Symbol)
    requires Ranks(k, rank) && s in k.defs && e1.other == e2.other
    requires e1.tri.Keys == e2.tri.Keys == k.defs.Keys
    requires forall t <- k.defs :: rank[t] < rank[s] ==> e1.tri[t] == e2.tri[t]
    ensures AgreeOn(Dependencies(k.defs[s]), e1, e2)
  {
    forall t <- Dependencies(k.defs[s]) ensures TriOf(t, e1) == TriOf(t, e2) {
      assert DependsOn(k, s, t);
    }
  }

  /** Two solutions agree below any rank up to which the user values agree. */
  lemma {:induction false} SolutionsAgree(k: Model, rank: Ranking, u1: Users, u2: Users, e1: Env, e2: Env, n: nat)
    requires Ranks(k, rank) && Solution(k, u1, e1) && Solution(k, u2, e2)
    requires forall s <- k.defs :: rank[s] < n ==> u1[s] == u2[s]
    ensures forall s <- k.defs :: rank[s] < n ==> e1.tri[s] == e2.tri[s]
    decreases n
  {
    if n > 0 {
      SolutionsAgree(k, rank, u1, u2, e1, e2, n - 1);
      forall s <- k.defs | rank[s] < n ensures e1.tri[s] == e2.tri[s] {
        SeesLower(k, rank, e1, e2, s);
        ComputeLocal(k, s, u1[s], e1, e2);
      }
    }
  }

  /** Changing the user value of s alone does not change what s sees of other symbols. */
  lemma OwnUserValue(k: Model, rank: Ranking, u1: Users, u2: Users, e1: Env, e2: Env, s: Symbol, user: Option<Tristate>)
    requires Ranks(k, rank) && Solution(k, u1, e1) && Solution(k, u2, e2) && s in k.defs
    requires forall t <- k.defs :: t != s ==> u1[t] == u2[t]
    ensures Compute(k, s, user, e1) == Compute(k, s, user, e2)
  {
    SolutionsAgree(k, rank, u1, u2, e1, e2, rank[s]);
    SeesLower(k, rank, e1, e2, s);
    ComputeLocal(k, s, user, e1, e2);
  }

  lemma {:induction false} RankBound(rank: Ranking) returns (n: nat)
    ensures forall s <- rank :: rank[s] < n
    decreases rank
  {
    if rank == map[] {
      n := 0;
    } else {
      var s :| s in rank;
      var rest := rank - {s};
      n := RankBound(rest);
      n := if rank[s] < n then n else rank[s] + 1;
      forall t <- rank ensures rank[t] < n {
        assert t == s || t in rest;
      }
    }
  }

  /** On an acyclic dependency graph every choice of user values determines all symbol values. */
  lemma UniqueSolution(k: Model, users: Users, rank: Ranking, e1: Env, e2: Env)
    requires Ranks(k, rank) && Solution(k, users, e1) && Solution(k, users, e2)
    ensures e1 == e2
  {
    var n := RankBound(rank);
    SolutionsAgree(k, rank, users, users, e1, e2, n);
    assert e1.tri == e2.tri;
  }

  /** A solution is a well-typed valuation, and without modules nothing is m. */
  lemma SolutionWellTyped(k: Model, users: Users, env: Env)
    requires WellFormed(k) && Solution(k, users, env)
    ensures WellTyped(env) && (k.modules == NO ==> forall s <- env.tri :: env.tri[s] != MOD)
  {
    forall s <- env.tri ensures TreatedAsBool(k, s) ==> env.tri[s] != MOD {
      assert env.tri[s] == Compute(k, s, users[s], env).curr;
    }
  }
}
