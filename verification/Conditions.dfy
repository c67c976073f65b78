/** How menu_finalize uses the rewriter: prompt conditions and automatic submenus. */
module Conditions {
  import opened Expressions
  import opened Equality
  import opened Joins
  import opened Positions
  import opened Redundancy
  import opened Normalization

  // ----- rewrite_m -----

  /** every m, except in comparisons, becomes m && MODULES */
  function RewriteM(e: Expr, modules: Symbol): Expr {
    match e
    case Not(a) => Not(RewriteM(a, modules))
    case Bin(op, l, r) => Bin(op, RewriteM(l, modules), RewriteM(r, modules))
    case Sym(s) => if s == Mod then Bin(OpAnd, e, Sym(modules)) else e
    case _ => e
  }

  /** the value of an expression when m, except in comparisons, stands for another value */
  function ValWithM(e: Expr, m: Tristate, env: Env): Tristate {
    match e
    case Not(a) => Invert(ValWithM(a, m, env))
    case Bin(op, l, r) => Apply(op, ValWithM(l, m, env), ValWithM(r, m, env))
    case Sym(s) => if s == Mod then m else Val(e, env)
    case _ => Val(e, env)
  }

  /** m evaluates to n without modules, and keeps its value with them. */
  lemma {:induction false} RewriteMMeans(e: Expr, modules: Symbol, env: Env)
    ensures Val(RewriteM(e, modules), env) == ValWithM(e, if TriOf(modules, env) == NO then NO else MOD, env)
    ensures TriOf(modules, env) != NO ==> Val(RewriteM(e, modules), env) == Val(e, env)
  {
    match e
    case Not(a) => RewriteMMeans(a, modules, env);
    case Bin(_, l, r) =>
      RewriteMMeans(l, modules, env);
      RewriteMMeans(r, modules, env);
    case _ =>
  }

  lemma {:induction false} RewriteMNumeralFree(e: Expr, modules: Symbol)
    requires NumeralFree(e)
    ensures NumeralFree(RewriteM(e, modules))
  {
    match e
    case Not(a) => RewriteMNumeralFree(a, modules);
    case Bin(_, l, r) =>
      RewriteMNumeralFree(l, modules);
      RewriteMNumeralFree(r, modules);
    case _ =>
  }

  /** the value a condition is meant to have: NULL is y, and m is n without modules */
  function Meant(c: Option<Expr>, modules: Symbol, env: Env): Tristate {
    if c.None? then YES else ValWithM(c.value, if TriOf(modules, env) == NO then NO else MOD, env)
  }

  // ----- expr_trans_bool and the visibility of a prompt -----

  function TransBool(e: Expr): Expr {
    match e
    case Bin(op, l, r) => Bin(op, TransBool(l), TransBool(r))
    case Not(a) => Not(TransBool(a))
    case Cmp(Ne, l, No) => if l.IsTristate() then Sym(l) else e
    case _ => e
  }

  /** expr_trans_bool may change m into y, but on expressions with negations at symbols it never changes
      whether the value is n. */
  lemma {:induction false} TransBoolKeepsNo(e: Expr, env: Valuation)
    requires NegationsAtSymbols(e)
    ensures Val(TransBool(e), env) == NO <==> Val(e, env) == NO
  {
    match e
    case Bin(_, l, r) =>
      TransBoolKeepsNo(l, env);
      TransBoolKeepsNo(r, env);
    case Cmp(_, l, r) =>
      if l.IsTristate() && r == No {
        CompareWithConstant(l, r, env);
      }
    case _ =>
  }

  /** e tests no tristate for n by "!=". */
  predicate WithoutNonzeroTests(e: Expr) {
    match e
    case Sym(_) => true
    case Cmp(rel, l, r) => !(rel == Ne && l.IsTristate() && r == No)
    case Not(a) => WithoutNonzeroTests(a)
    case Bin(_, l, r) => WithoutNonzeroTests(l) && WithoutNonzeroTests(r)
  }

  /** Every such test is replaced, and where there is none nothing is. */
  lemma {:induction false} TransBoolDone(e: Expr)
    ensures WithoutNonzeroTests(TransBool(e)) && (WithoutNonzeroTests(e) ==> TransBool(e) == e)
  {
    match e
    case Bin(_, l, r) =>
      TransBoolDone(l);
      TransBoolDone(r);
    case Not(a) => TransBoolDone(a);
    case _ =>
  }

  /** With a negation elsewhere it can: with A = m, !(A != n) is n but its image !A is m. */
  lemma TransBoolUnderNot()
    ensures
      var a := Named("A", Tri);
      var e, env := Not(Cmp(Ne, a, No)), Env(map[a := MOD], map[]);
      WellTyped(env) && Val(e, env) == NO && Val(TransBool(e), env) == MOD
  {
  }

  /** the value sym_calc_visibility gives a symbol that is not a tristate (or any symbol without modules),
      from the conditions of its prompts */
  function Visible(conditions: seq<Option<Expr>>, env: Env): Tristate {
    var top := Greatest(conditions, env);
    if top == MOD then YES else top
  }

  function Greatest(conditions: seq<Option<Expr>>, env: Env): Tristate {
    if conditions == [] then NO else Max(ValOpt(conditions[0], env), Greatest(conditions[1..], env))
  }

  lemma {:induction false} VisibleIsNonzero(conditions: seq<Option<Expr>>, env: Env)
    ensures Visible(conditions, env) == if exists c <- conditions :: ValOpt(c, env) != NO then YES else NO
  {
    if conditions != [] {
      VisibleIsNonzero(conditions[1..], env);
      if Greatest(conditions[1..], env) != NO {
        var c :| c in conditions[1..] && ValOpt(c, env) != NO;
        assert c in conditions;
      }
    }
  }

  /** The first part of what menu_finalize does with a prompt condition: rewrite m, transform, AND with the base
      dependency, deduplicate. The result has the value of "base && condition", with m meant as above. */
  method Propagate(base: Option<Expr>, condition: Option<Expr>, modules: Symbol) returns (r: Option<Expr>)
    requires base.Some? ==> NumeralFree(base.value) && NegationsAtSymbols(base.value)
    requires condition.Some? ==> NumeralFree(condition.value)
    ensures r.Some? ==> NumeralFree(r.value) && NegationsAtSymbols(r.value)
    ensures forall env: Valuation :: ValOpt(r, env) == Min(ValOpt(base, env), Meant(condition, modules, env))
  {
    var dep := if condition.None? then None else Some(RewriteM(condition.value, modules));
    if condition.Some? {
      RewriteMNumeralFree(condition.value, modules);
      TransformNumeralFree(dep.value);
      TransformNormal(dep.value);
      NormalNegations(Transform(dep.value));
    }
    var both := AllocAnd(base, TransformOpt(dep));
    forall env: Valuation ensures ValOpt(both, env) == Min(ValOpt(base, env), Meant(condition, modules, env)) {
      if condition.Some? {
        TransformSound(dep.value, env);
        RewriteMMeans(condition.value, modules, env);
      }
    }
    r := Deduplicate(both);
    forall env: Valuation ensures ValOpt(r, env) == Min(ValOpt(base, env), Meant(condition, modules, env)) {
      assert ValOpt(r, env) == ValOpt(both, env);
    }
  }

  /** The whole pipeline on one prompt condition; for symbols that are not tristate it ends with
      expr_trans_bool, and then the result still agrees with "base && condition" on being n. */
  method PromptCondition(base: Option<Expr>, condition: Option<Expr>, modules: Symbol, tristate: bool)
    returns (r: Option<Expr>)
    requires base.Some? ==> NumeralFree(base.value) && NegationsAtSymbols(base.value)
    requires condition.Some? ==> NumeralFree(condition.value)
    ensures r.Some? ==> NumeralFree(r.value) && NegationsAtSymbols(r.value)
    ensures tristate ==>
              forall env: Valuation :: ValOpt(r, env) == Min(ValOpt(base, env), Meant(condition, modules, env))
    ensures forall env: Valuation :: ValOpt(r, env) == NO <==> Min(ValOpt(base, env), Meant(condition, modules, env)) == NO
  {
    r := Propagate(base, condition, modules);
    if r.Some? && !tristate {
      var dep := r.value;
      r := Some(TransBool(dep));
      TransBoolShape(dep);
      forall env: Valuation
        ensures ValOpt(r, env) == NO <==> Min(ValOpt(base, env), Meant(condition, modules, env)) == NO
      {
        TransBoolKeepsNo(dep, env);
        assert ValOpt(Some(dep), env) == Min(ValOpt(base, env), Meant(condition, modules, env));
      }
    }
  }

  lemma {:induction false} TransBoolShape(e: Expr)
    requires NumeralFree(e)
    ensures NumeralFree(TransBool(e))
    ensures NegationsAtSymbols(e) ==> NegationsAtSymbols(TransBool(e))
  {
    match e
    case Bin(_, l, r) =>
      TransBoolShape(l);
      TransBoolShape(r);
    case Not(a) => TransBoolShape(a);
    case _ =>
  }

  /** c is n exactly if base or the value meant is */
  predicate Agrees(c: Option<Expr>, base: Tristate, meant: Tristate, env: Env) {
    ValOpt(c, env) == NO <==> Min(base, meant) == NO
  }

  lemma VisibleOver(r: seq<Option<Expr>>, conditions: seq<Option<Expr>>, base: Tristate, modules: Symbol, env: Env)
    requires |r| == |conditions|
    requires forall k :: 0 <= k < |r| ==> Agrees(r[k], base, Meant(conditions[k], modules, env), env)
    ensures
      Visible(r, env) == if base != NO && exists c <- conditions :: Meant(c, modules, env) != NO then YES else NO
  {
    VisibleIsNonzero(r, env);
    if c :| c in r && ValOpt(c, env) != NO {
      var k :| 0 <= k < |r| && r[k] == c;
      assert conditions[k] in conditions;
    }
    if c :| c in conditions && Meant(c, modules, env) != NO {
      var k :| 0 <= k < |conditions| && conditions[k] == c;
      assert r[k] in r;
    }
  }

  /** The whole pipeline over all prompts of a symbol that is not tristate: the symbol is visible exactly if one
      of the conditions, as written, holds together with the base dependency. */
  method PromptConditions(base: Option<Expr>, conditions: seq<Option<Expr>>, modules: Symbol) returns (r: seq<Option<Expr>>)
    requires base.Some? ==> NumeralFree(base.value) && NegationsAtSymbols(base.value)
    requires forall c <- conditions :: c.Some? ==> NumeralFree(c.value)
    ensures |r| == |conditions|
    ensures forall env: Valuation ::
              Visible(r, env)
              == if ValOpt(base, env) != NO && exists c <- conditions :: Meant(c, modules, env) != NO then YES else NO
  {
    r := [];
    for i := 0 to |conditions|
      invariant |r| == i
      invariant forall k, env: Valuation :: 0 <= k < i ==>
                  (ValOpt(r[k], env) == NO <==> Min(ValOpt(base, env), Meant(conditions[k], modules, env)) == NO)
    {
      var c := PromptCondition(base, conditions[i], modules, false);
      r := r + [c];
    }
    forall env: Valuation
      ensures
        Visible(r, env)
        == if ValOpt(base, env) != NO && exists c <- conditions :: Meant(c, modules, env) != NO then YES else NO
    {
      forall k | 0 <= k < |r| ensures Agrees(r[k], ValOpt(base, env), Meant(conditions[k], modules, env), env) {
      }
      VisibleOver(r, conditions, ValOpt(base, env), modules, env);
    }
  }

  // ----- expr_trans_compare -----

  /** expr_trans_compare with type == E_EQUAL (equal) or E_UNEQUAL and sym y or n (yes). */
  function TransCompare(e: Expr, equal: bool, yes: bool): Expr {
    var c := if yes then Yes else No;
    match e
    case Bin(op, l, r) =>
      var both := Bin(if yes then op else Dual(op), TransCompare(l, true, yes), TransCompare(r, true, yes));
      if equal then both else Not(both)
    case Not(a) => TransCompare(a, !equal, yes)
    case Cmp(_, _, _) => if equal == yes then e else Not(e)
    case Sym(s) => Cmp(if equal then Eq else Ne, s, c)
  }

  /** NULL stands for y, and "y = c" has the value of c for c in {y, n} */
  function TransCompareOpt(e: Option<Expr>, equal: bool, yes: bool): Expr {
    match e
    case None => (var c := Sym(if yes then Yes else No); if equal then c else Not(c))
    case Some(x) => TransCompare(x, equal, yes)
  }

  /** what expr_trans_compare really evaluates: each symbol is tested against y or n, and NOT is the
      two-valued negation */
  function Decided(e: Expr, yes: bool, env: Env): bool {
    match e
    case Sym(s) => if yes then Compare(s, Yes, env) == 0 else Compare(s, No, env) != 0
    case Cmp(_, _, _) => Val(e, env) == YES
    case Not(a) => !Decided(a, yes, env)
    case Bin(op, l, r) => if op == OpAnd then Decided(l, yes, env) && Decided(r, yes, env)
                          else Decided(l, yes, env) || Decided(r, yes, env)
  }

  /** expr_trans_compare computes that for every expression and valuation. */
  lemma {:induction false} TransCompareExact(e: Expr, equal: bool, yes: bool, env: Env)
    ensures Val(TransCompare(e, equal, yes), env) == if Decided(e, yes, env) == (equal == yes) then YES else NO
  {
    match e
    case Bin(_, l, r) =>
      TransCompareExact(l, true, yes, env);
      TransCompareExact(r, true, yes, env);
    case Not(a) => TransCompareExact(a, !equal, yes, env);
    case _ =>
  }

  /** every bare symbol is bool, tristate, y, m or n */
  predicate Logical(e: Expr) {
    match e
    case Sym(s) => s.IsLogical()
    case Cmp(_, _, _) => true
    case Not(a) => Logical(a)
    case Bin(_, l, r) => Logical(l) && Logical(r)
  }

  /** no negated subexpression is m */
  predicate NegationsDecided(e: Expr, env: Env) {
    match e
    case Sym(_) => true
    case Cmp(_, _, _) => true
    case Not(a) => Val(a, env) != MOD && NegationsDecided(a, env)
    case Bin(_, l, r) => NegationsDecided(l, env) && NegationsDecided(r, env)
  }

  lemma {:induction false} DecidedIsValue(e: Expr, yes: bool, env: Valuation)
    requires Logical(e) && NegationsDecided(e, env)
    ensures Decided(e, yes, env) <==> if yes then Val(e, env) == YES else Val(e, env) != NO
  {
    match e
    case Not(a) => DecidedIsValue(a, yes, env);
    case Bin(_, l, r) =>
      DecidedIsValue(l, yes, env);
      DecidedIsValue(r, yes, env);
    case _ =>
  }

  /** It is the comparison it is meant to be whenever no negated subexpression is m: */
  lemma TransCompareMeaning(e: Expr, equal: bool, yes: bool, env: Valuation)
    requires Logical(e) && NegationsDecided(e, env)
    ensures var v := if yes then YES else NO;
            Val(TransCompare(e, equal, yes), env) == if (Val(e, env) == v) == equal then YES else NO
  {
    TransCompareExact(e, equal, yes, env);
    DecidedIsValue(e, yes, env);
  }

  /** and for a single negation that condition is exact: !A is compared correctly unless A is m. */
  lemma NegationComparedIff(s: Symbol, equal: bool, yes: bool, env: Valuation)
    requires s.IsLogical()
    ensures var v := if yes then YES else NO;
            (Val(TransCompare(Not(Sym(s)), equal, yes), env) == if (Val(Not(Sym(s)), env) == v) == equal then YES else NO)
            <==> TriOf(s, env) != MOD
  {
    TransCompareExact(Not(Sym(s)), equal, yes, env);
  }

  lemma TransCompareOptMeaning(e: Option<Expr>, env: Valuation)
    requires e.Some? ==> Logical(e.value) && NegationsDecided(e.value, env)
    ensures Val(TransCompareOpt(e, false, false), env) == if ValOpt(e, env) == NO then NO else YES
  {
    if e.Some? {
      TransCompareMeaning(e.value, false, false, env);
    }
  }

  /** On normal forms the comparison may miss an m, but what it finds not to be n is not n. */
  lemma {:induction false} DecidedImplies(e: Expr, env: Valuation)
    requires Logical(e) && NegationsAtSymbols(e) && Decided(e, false, env)
    ensures Val(e, env) != NO
  {
    match e
    case Bin(op, l, r) =>
      if op == OpAnd || Decided(l, false, env) {
        DecidedImplies(l, env);
      }
      if op == OpAnd || Decided(r, false, env) {
        DecidedImplies(r, env);
      }
    case _ =>
  }

  lemma PromptFollows(prompt: Option<Expr>, env: Valuation)
    requires prompt.Some? ==>
      Logical(prompt.value) && (NegationsAtSymbols(prompt.value) || NegationsDecided(prompt.value, env))
    requires Val(TransCompareOpt(prompt, false, false), env) != NO
    ensures ValOpt(prompt, env) != NO
  {
    if prompt.Some? && NegationsAtSymbols(prompt.value) {
      TransCompareExact(prompt.value, false, false, env);
      DecidedImplies(prompt.value, env);
    } else {
      TransCompareOptMeaning(prompt, env);
    }
  }

  lemma {:induction false} TransCompareNumeralFree(e: Expr, equal: bool, yes: bool)
    requires NumeralFree(e)
    ensures NumeralFree(TransCompare(e, equal, yes))
  {
    match e
    case Bin(_, l, r) =>
      TransCompareNumeralFree(l, true, yes);
      TransCompareNumeralFree(r, true, yes);
    case Not(a) => TransCompareNumeralFree(a, !equal, yes);
    case _ =>
  }

  // ----- automatic submenus -----

  predicate ContainsSymbol(e: Expr, s: Symbol) {
    match e
    case Bin(_, l, r) => ContainsSymbol(l, s) || ContainsSymbol(r, s)
    case Sym(t) => t == s
    case Cmp(_, l, r) => l == s || r == s
    case Not(a) => ContainsSymbol(a, s)
  }

  predicate DependsSymbol(e: Expr, s: Symbol) {
    match e
    case Bin(OpAnd, l, r) => DependsSymbol(l, s) || DependsSymbol(r, s)
    case Sym(t) => t == s
    case Cmp(Eq, l, r) => l == s && (r == Yes || r == Mod)
    case Cmp(Ne, l, r) => l == s && r == No
    case _ => false
  }

  lemma {:induction false} DependsImplies(e: Expr, s: Symbol, env: Valuation)
    requires DependsSymbol(e, s) && s.IsLogical() && Val(e, env) != NO
    ensures TriOf(s, env) != NO
  {
    match e
    case Bin(_, l, r) =>
      if DependsSymbol(l, s) {
        DependsImplies(l, s, env);
      } else {
        DependsImplies(r, s, env);
      }
    case _ =>
  }

  /** a condition that depends on s is n whenever s is */
  ghost predicate DependsIsSound(s: Symbol) {
    forall e: Expr, env: Valuation :: DependsSymbol(e, s) && Val(e, env) != NO ==> TriOf(s, env) != NO
  }

  /** expr_depends_symbol is sound exactly for the symbols whose tristate value is all there is to them: on any
      other symbol S, "S != n" holds whenever the text of S is not "n", although S as a tristate is n. */
  lemma DependsSoundIff(s: Symbol)
    ensures DependsIsSound(s) <==> s.IsLogical()
  {
    if s.IsLogical() {
      forall e: Expr, env: Valuation | DependsSymbol(e, s) && Val(e, env) != NO ensures TriOf(s, env) != NO {
        DependsImplies(e, s, env);
      }
    } else {
      var e, env: Valuation := Cmp(Ne, s, No), Env(map[], map[(SymbolText(s), LetterText(NO)) := 1]);
      assert Compare(s, No, env) == 1;
      assert DependsSymbol(e, s) && Val(e, env) == YES && TriOf(s, env) == NO;
    }
  }

  /** "e != n", transformed */
  function NonzeroTest(e: Option<Expr>): Expr { Transform(TransCompareOpt(e, false, false)) }

  /** "e != n", transformed and deduplicated, as menu_finalize compares conditions */
  method NotNo(e: Option<Expr>) returns (r: Expr)
    requires e.Some? ==> NumeralFree(e.value)
    ensures NumeralFree(r)
    ensures forall env: Valuation :: Val(r, env) == Val(TransCompareOpt(e, false, false), env)
    ensures r == NonzeroTest(e) <==> Irredundant(NonzeroTest(e))
  {
    var c := TransCompareOpt(e, false, false);
    if e.Some? {
      TransCompareNumeralFree(e.value, false, false);
    }
    TransformNumeralFree(c);
    forall env: Valuation ensures Val(Transform(c), env) == Val(c, env) {
      TransformSound(c, env);
    }
    var d := Deduplicate(Some(Transform(c)));
    r := d.value;
    forall env: Valuation ensures Val(r, env) == Val(c, env) {
      assert ValOpt(d, env) == ValOpt(Some(Transform(c)), env);
    }
  }

  /** cancelling against y leaves it */
  lemma {:induction false} YesStays(op: Op, e: Expr)
    ensures CancelWalk(op, e, Sym(Yes)).1 == Sym(Yes)
    decreases e
  {
    if IsOp(e, op) {
      YesStays(op, e.l);
      YesStays(op, e.r);
    }
  }

  /** The decision to put an item with condition dep into the submenu of sym, whose own prompt condition is
      prompt. Either the item depends on sym outright, and then it is n whenever sym is; or it depends on
      everything sym's prompt depends on, and then the prompt is not n whenever the item, each of its symbols tested
      for n, holds; which is whenever the item is not n, for valuations that make no negated subexpression of it m.
      The prompt condition may be any normal form, as it is after the pipeline above; otherwise the same proviso
      applies to it. The last two clauses give the answer itself: where there is nothing to deduplicate; and for a
      symbol without a prompt, which takes every item that mentions it. */
  method Absorbs(dep: Option<Expr>, sym: Symbol, prompt: Option<Expr>) returns (absorbed: bool)
    requires dep.Some? ==> NumeralFree(dep.value)
    requires prompt.Some? ==> NumeralFree(prompt.value)
    ensures absorbed ==> dep.Some? && ContainsSymbol(dep.value, sym)
    ensures dep.Some? && ContainsSymbol(dep.value, sym) && DependsSymbol(dep.value, sym) ==> absorbed
    ensures absorbed && DependsSymbol(dep.value, sym) && sym.IsLogical() ==>
              forall env: Valuation :: Val(dep.value, env) != NO ==> TriOf(sym, env) != NO
    ensures absorbed && !DependsSymbol(dep.value, sym) && (prompt.Some? ==> Logical(prompt.value)) ==>
              forall env: Valuation ::
                && (prompt.Some? ==> NegationsAtSymbols(prompt.value) || NegationsDecided(prompt.value, env))
                && Decided(dep.value, false, env)
                ==> ValOpt(prompt, env) != NO
    ensures absorbed && !DependsSymbol(dep.value, sym) && Logical(dep.value) && (prompt.Some? ==> Logical(prompt.value)) ==>
              forall env: Valuation ::
                && NegationsDecided(dep.value, env)
                && (prompt.Some? ==> NegationsAtSymbols(prompt.value) || NegationsDecided(prompt.value, env))
                && Val(dep.value, env) != NO
                ==> ValOpt(prompt, env) != NO
    ensures dep.Some? && ContainsSymbol(dep.value, sym) && !DependsSymbol(dep.value, sym)
            && Irredundant(NonzeroTest(dep)) && Irredundant(NonzeroTest(prompt)) ==>
              (absorbed <==> EliminateEq(NonzeroTest(dep), NonzeroTest(prompt)).1 == Sym(Yes))
    ensures prompt.None? ==> (absorbed <==> dep.Some? && ContainsSymbol(dep.value, sym))
  {
    var base := NotNo(prompt);
    if dep.None? || !ContainsSymbol(dep.value, sym) {
      return false;
    }
    if DependsSymbol(dep.value, sym) {
      if sym.IsLogical() {
        forall env: Valuation | Val(dep.value, env) != NO ensures TriOf(sym, env) != NO {
          DependsImplies(dep.value, sym, env);
        }
      }
      return true;
    }
    var item := NotNo(dep);
    if prompt.None? {
      assert NonzeroTest(None) == Sym(Yes);
      NoOperands(Sym(Yes));
      if item.Bin? {
        YesStays(item.op, item);
      }
    }
    absorbed := EliminateEq(item, base).1 == Sym(Yes);
    if absorbed {
      forall env: Valuation |
        && (prompt.Some? ==>
              Logical(prompt.value) && (NegationsAtSymbols(prompt.value) || NegationsDecided(prompt.value, env)))
        && Decided(dep.value, false, env)
        ensures ValOpt(prompt, env) != NO
      {
        SupersetImplies(item, base, env);
        TransCompareExact(dep.value, false, false, env);
        PromptFollows(prompt, env);
      }
      forall env: Valuation |
        Logical(dep.value) && NegationsDecided(dep.value, env) && Val(dep.value, env) != NO
        ensures Decided(dep.value, false, env)
      {
        DecidedIsValue(dep.value, false, env);
      }
    }
  }

  /** The proviso on negations is needed. The item condition "!A && S != y" contains S without depending on it, and
      passes the superset test against the prompt condition "A = n", since both speak of A = n once compared with
      n and there is nothing to deduplicate: by its last clause Absorbs answers true. Yet with A = m and S = n the
      item is m and the prompt n. */
  lemma SubmenuNeedsDecidedNegations()
    ensures
      var a, s := Named("A", Tri), Named("S", Tri);
      var dep, prompt := Bin(OpAnd, Not(Sym(a)), Cmp(Ne, s, Yes)), Cmp(Eq, a, No);
      var env := Env(map[a := MOD], map[]);
      && NumeralFree(dep) && NegationsAtSymbols(dep) && ContainsSymbol(dep, s) && !DependsSymbol(dep, s)
      && Irredundant(NonzeroTest(Some(dep))) && Irredundant(NonzeroTest(Some(prompt)))
      && EliminateEq(NonzeroTest(Some(dep)), NonzeroTest(Some(prompt))).1 == Sym(Yes)
      && WellTyped(env) && Val(dep, env) == MOD && Val(prompt, env) == NO
  {
    var a, s := Named("A", Tri), Named("S", Tri);
    var prompt, item := Cmp(Eq, a, No), Cmp(Ne, s, Yes);
    hide Transform, TransCompare, EliminateEq, Irredundant;
    ItemCondition(a, s);
    PromptUnchanged(a);
    CancelFirst(prompt, item);
    ItemIrredundant(prompt, item);
    NoOperands(prompt);
  }

  lemma NoOperands(e: Expr)
    requires !e.Bin?
    ensures Irredundant(e)
  {
  }

  lemma ItemIrredundant(e: Expr, f: Expr)
    requires e.Cmp? && f.Cmp? && e.left != f.left
    ensures Irredundant(Bin(OpAnd, e, f))
  {
    var b := Bin(OpAnd, e, f);
    assert Join(OpAnd, e, f).None? && Join(OpAnd, f, e).None?;
    forall x: Path, y: Path | IsOperand(b, OpAnd, x) && IsOperand(b, OpAnd, y) && x != y
      ensures Join(OpAnd, At(b, x), At(b, y)).None? && Irredundant(At(b, x))
    {
      OnlyTwoOperands(e, f, x);
      OnlyTwoOperands(e, f, y);
    }
  }

  lemma OnlyTwoOperands(e: Expr, f: Expr, x: Path)
    requires e.Cmp? && f.Cmp? && IsOperand(Bin(OpAnd, e, f), OpAnd, x)
    ensures (x == [Left] && At(Bin(OpAnd, e, f), x) == e) || (x == [Right] && At(Bin(OpAnd, e, f), x) == f)
  {
    assert x != [] && (x[0] == Left || x[0] == Right);
    assert x == [x[0]] + x[1..] && x[1..] == [];
  }

  lemma PromptUnchanged(a: Symbol)
    requires a.IsTristate()
    ensures Transform(TransCompare(Cmp(Eq, a, No), false, false)) == Cmp(Eq, a, No)
  {
  }

  lemma ItemCondition(a: Symbol, s: Symbol)
    requires a.IsTristate() && s.IsTristate()
    ensures Transform(TransCompare(Bin(OpAnd, Not(Sym(a)), Cmp(Ne, s, Yes)), false, false))
         == Bin(OpAnd, Cmp(Eq, a, No), Cmp(Ne, s, Yes))
  {
    var ca, cs := Cmp(Ne, a, No), Cmp(Ne, s, Yes);
    assert TransCompare(Sym(a), false, false) == ca;
    assert TransCompare(Not(Sym(a)), true, false) == ca && TransCompare(cs, true, false) == Not(cs);
    assert Transform(Not(cs)) == Cmp(Eq, s, Yes);
    var x := Bin(OpOr, ca, Cmp(Eq, s, Yes));
    assert Transform(Bin(OpOr, ca, Not(cs))) == x;
    assert Transform(Not(ca)) == Cmp(Eq, a, No) && Transform(Not(Cmp(Eq, s, Yes))) == cs;
    assert Negated(x) == Bin(OpAnd, Cmp(Eq, a, No), cs);
    assert TransCompare(Bin(OpAnd, Not(Sym(a)), cs), false, false) == Not(Bin(OpOr, ca, Not(cs)));
  }

  lemma CancelFirst(e: Expr, f: Expr)
    requires e.Cmp? && f.Cmp? && e != f
    ensures EliminateEq(Bin(OpAnd, e, f), e).1 == Sym(Yes)
  {
    assert CancelWalk(OpAnd, e, e) == (Sym(Yes), Sym(Yes));
    assert !ExprEq(f, Sym(Yes));
    assert CancelWalk(OpAnd, f, Sym(Yes)) == (f, Sym(Yes));
    assert CancelWalk(OpAnd, Bin(OpAnd, e, f), e) == (Bin(OpAnd, Sym(Yes), f), Sym(Yes));
  }
}
