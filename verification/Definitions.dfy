/** Symbols defined in several places: what menu_finalize makes of their dependencies, and what that means for
    setting their values. */
module Definitions {
  import opened Expressions
  import opened Joins
  import opened Conditions
  import opened Kconfig
  import opened Evaluation

  /** one menu node of a symbol, finalised: its dependencies and the conditions of its prompts */
  datatype Location = Location(dep: Option<Expr>, prompts: seq<Option<Expr>>)

  /** sym->dir_dep.expr once all nodes of the symbol are finalised; a node without dependencies adds nothing */
  function DirDep(locations: seq<Location>): Option<Expr> {
    if locations == [] then None
    else AllocOr(DirDep(locations[..|locations| - 1]), locations[|locations| - 1].dep)
  }

  /** in some place the symbol may be used: its dependencies there are met, or there are none */
  ghost predicate Met(locations: seq<Location>, env: Env) {
    exists l <- locations :: ValOpt(l.dep, env) != NO
  }

  /** some dependencies that are written are met */
  ghost predicate WrittenMet(locations: seq<Location>, env: Env) {
    exists l <- locations :: l.dep.Some? && Val(l.dep.value, env) != NO
  }

  /** with dependencies in every place, or in none */
  predicate Uniform(locations: seq<Location>) {
    (forall l <- locations :: l.dep.None?) || (forall l <- locations :: l.dep.Some?)
  }

  lemma {:induction false} DirDepValue(locations: seq<Location>, env: Env)
    ensures DirDep(locations).None? <==> forall l <- locations :: l.dep.None?
    ensures DirDep(locations).Some? ==> (Val(DirDep(locations).value, env) != NO <==> WrittenMet(locations, env))
  {
    if locations != [] {
      var before, l := locations[..|locations| - 1], locations[|locations| - 1];
      assert locations == before + [l];
      DirDepValue(before, env);
    }
  }

  /** The dependencies of a symbol are met when those of one of its places are: dir_dep says so, unless the symbol
      is defined both with and without dependencies and all that are written fail. */
  lemma DirDepIff(locations: seq<Location>, env: Env)
    requires locations != []
    ensures (ValOpt(DirDep(locations), env) != NO <==> Met(locations, env))
            <==> Uniform(locations) || WrittenMet(locations, env)
  {
    DirDepValue(locations, env);
    assert locations[0] in locations;
    if !Uniform(locations) {
      var l :| l in locations && l.dep.None?;
      assert Met(locations, env);
    }
  }

  /** no prompt is visible where the dependencies are not met */
  ghost predicate Guarded(l: Location, env: Env) {
    forall p <- l.prompts :: ValOpt(p, env) != NO ==> ValOpt(l.dep, env) != NO
  }

  /** What menu_finalize does to one node of a symbol makes it so. */
  method FinalizeLocation(parentDep: Option<Expr>, dep: Option<Expr>, conditions: seq<Option<Expr>>, modules: Symbol,
                          tristate: bool)
    returns (l: Location)
    requires parentDep.Some? ==> NumeralFree(parentDep.value) && NegationsAtSymbols(parentDep.value)
    requires dep.Some? ==> NumeralFree(dep.value)
    requires forall c <- conditions :: c.Some? ==> NumeralFree(c.value)
    ensures forall env: Valuation :: ValOpt(l.dep, env) == Min(ValOpt(parentDep, env), Meant(dep, modules, env))
    ensures |l.prompts| == |conditions|
    ensures forall k, env: Valuation :: 0 <= k < |conditions| ==>
              (ValOpt(l.prompts[k], env) == NO <==> Min(ValOpt(l.dep, env), Meant(conditions[k], modules, env)) == NO)
    ensures forall env: Valuation :: Guarded(l, env)
  {
    var base := Propagate(parentDep, dep, modules);
    var prompts := [];
    for i := 0 to |conditions|
      invariant |prompts| == i
      invariant forall k, env: Valuation :: 0 <= k < i ==>
                  (ValOpt(prompts[k], env) == NO <==> Min(ValOpt(base, env), Meant(conditions[k], modules, env)) == NO)
    {
      var p := PromptCondition(base, conditions[i], modules, tristate);
      prompts := prompts + [p];
    }
    l := Location(base, prompts);
  }

  /** d is the definition of a symbol with these places: its prompts are theirs */
  ghost predicate DefinedAt(d: Definition, locations: seq<Location>) {
    && d.dirDep == DirDep(locations)
    && forall p <- d.props :: p.Prompt? ==> exists l <- locations :: p.visible in l.prompts
  }

  lemma {:induction false} VisiblePrompt(props: seq<Property>, env: Env) returns (p: Property)
    requires PromptLevel(props, env) != NO
    ensures p in props && p.Prompt? && ValOpt(p.visible, env) != NO
  {
    if props[0].Prompt? && ValOpt(props[0].visible, env) != NO {
      p := props[0];
    } else {
      p := VisiblePrompt(props[1..], env);
    }
  }

  /** A value within range comes back after recalculation exactly if the symbol has dependencies in all of its
      places or in none, or some that are written are met, or nothing selects it. */
  lemma SetComesBackIff(k: Model, rank: Ranking, u0: Users, e0: Env, s: Symbol, val: Tristate, u1: Users, e1: Env,
                        locations: seq<Location>)
    requires WellFormed(k) && Ranks(k, rank) && Solution(k, u0, e0) && Solution(k, u1, e1)
    requires s in k.defs && u1 == u0[s := Some(val)]
    requires WithinRange(k, s, Compute(k, s, u0[s], e0), val)
    requires DefinedAt(k.defs[s], locations) && forall l <- locations :: Guarded(l, e0)
    ensures e1.tri[s] == val <==>
            Uniform(locations) || WrittenMet(locations, e0) || Compute(k, s, u0[s], e0).revDep == NO
  {
    SetComputes(k, rank, u0, e0, s, val, u1, e1);
    var p := VisiblePrompt(k.defs[s].props, e0);
    var l :| l in locations && p.visible in l.prompts;
    assert Met(locations, e0);
    DirDepIff(locations, e0);
  }

  const S := Named("S", Tri)
  const T := Named("T", Tri)

  /** S with a prompt in one place and with "depends on n" in another */
  function TwoPlaces(): seq<Location> { [Location(None, [None]), Location(Some(Sym(No)), [])] }

  /** and T, which is m and selects S */
  function Selected(): Model {
    Model(
      map[
        S := Definition(DirDep(TwoPlaces()), Some(Sym(T)), None, [Prompt(None)], false),
        T := Definition(None, None, None, [Default(Some(Sym(Mod)), None), Select(S, None)], false)
      ],
      YES, map[])
  }

  lemma SelectedRanks()
    ensures Ranks(Selected(), map[T := 0, S := 1]) && DirDep(TwoPlaces()) == Some(Sym(No))
  {
    var k := Selected();
    assert TwoPlaces()[..1] == [TwoPlaces()[0]] && TwoPlaces()[..1][..0] == [];
    assert DirDep(TwoPlaces()[..1]) == None;
    assert Dependencies(k.defs[S]) == [No, T] by {
      assert PropsMentions(k.defs[S].props) == [];
    }
    assert Dependencies(k.defs[T]) == [Mod] by {
      assert k.defs[T].props[1..] == [Select(S, None)];
      assert PropsMentions([Select(S, None)]) == [];
    }
  }

  function LostEnv(): Env { Env(map[S := NO, T := MOD], map[]) }

  lemma SIsLost(user: Option<Tristate>)
    requires user == None || user == Some(YES)
    ensures Compute(Selected(), S, user, LostEnv()) == Status(YES, NO, MOD, NO, NO, true)
  {
    var k, e := Selected(), LostEnv();
    SelectedRanks();
    hide DirDep;
    assert PromptLevel(k.defs[S].props, e) == YES;
  }

  lemma TIsMod()
    ensures Compute(Selected(), T, None, LostEnv()).curr == MOD
  {
    var k, e := Selected(), LostEnv();
    var p, q := Default(Some(Sym(Mod)), None), Select(S, None);
    hide DirDep;
    assert [p, q][1..] == [q] && [q][1..] == [];
    assert PromptLevel([q], e) == NO;
    assert PromptLevel([p, q], e) == NO;
    assert ActiveDefault([p, q], e) == Some(p);
  }

  /** It can fail: setting S to y is accepted, and then S is calculated to be n. */
  lemma SetValueLost()
    ensures
      var k, e, rank := Selected(), LostEnv(), map[T := 0, S := 1];
      var u0, u1 := map[S := None, T := None], map[S := Some(YES), T := None];
      && WellFormed(k) && Ranks(k, rank) && DefinedAt(k.defs[S], TwoPlaces())
      && (forall l <- TwoPlaces() :: Guarded(l, e))
      && Solution(k, u0, e) && Solution(k, u1, e) && WithinRange(k, S, Compute(k, S, None, e), YES) && e.tri[S] == NO
  {
    SelectedRanks();
    SIsLost(None);
    SIsLost(Some(YES));
    TIsMod();
    hide Compute, DirDep, Ranks;
    assert None in TwoPlaces()[0].prompts;
  }
}
