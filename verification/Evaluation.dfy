/** The memoising evaluator of symbol.c: sym_calc_value, sym_calc_visibility, sym_set_tristate_value. */
module Evaluation {
  import opened Expressions
  import opened Kconfig

  /** the fields of struct symbol that change: the VALID and WRITE flags, the user value with its DEF_USER
      flag, and the calculated values */
  datatype SymbolState = SymbolState(
    valid: bool,
    write: bool,
    user: Option<Tristate>,
    visible: Tristate,
    dirDep: Tristate,
    revDep: Tristate,
    implied: Tristate,
    curr: Tristate)
  {
    function Calculated(): Status { Status(visible, dirDep, revDep, implied, curr, write) }
  }

  type Symbols = map<Symbol, SymbolState>

  /** What the evaluation is measured against: a ranking of the acyclic graph, the user values, the solution
      of the equations and the status it demands of every symbol. */
  datatype Context = Context(model: Model, rank: Ranking, users: Users, sol: Env, want: map<Symbol, Status>)

  /** what c wants of s is what the equations demand */
  ghost predicate Demanded(c: Context, s: Symbol)
    requires s in c.want && s in c.model.defs && s in c.users
  {
    c.want[s] == Compute(c.model, s, c.users[s], c.sol)
  }

  ghost predicate Proper(c: Context) {
    && c.rank.Keys == c.want.Keys == c.users.Keys == c.sol.tri.Keys == c.model.defs.Keys
    && c.sol.other == c.model.texts && WellFormed(c.model) && Ranks(c.model, c.rank)
    && (forall s {:trigger Demanded(c, s)} :: s in c.want ==> Demanded(c, s))
    && (forall s <- c.want :: c.sol.tri[s] == c.want[s].curr)
  }

  /** every solution gives such a context */
  lemma SolutionContext(k: Model, rank: Ranking, users: Users, sol: Env) returns (c: Context)
    requires WellFormed(k) && Ranks(k, rank) && Solution(k, users, sol)
    ensures Proper(c) && c.model == k && c.rank == rank && c.users == users && c.sol == sol
  {
    c := Context(k, rank, users, sol, map s | s in k.defs :: Compute(k, s, users[s], sol));
  }

  /** the visibility part of what c wants of s */
  lemma WantedVisibility(c: Context, s: Symbol)
    requires Proper(c) && s in c.want
    ensures var d, w := c.model.defs[s], c.want[s];
      && w.visible == RaiseMod(c.model, s, PromptLevel(d.props, c.sol))
      && w.dirDep == RaiseMod(c.model, s, ValOpt(d.dirDep, c.sol))
      && w.revDep == RaiseMod(c.model, s, ValOrNo(d.revDep, c.sol))
      && w.implied == RaiseMod(c.model, s, ValOrNo(d.implied, c.sol))
  {
    assert Demanded(c, s);
  }

  lemma WantedValue(c: Context, s: Symbol)
    requires Proper(c) && s in c.want
    ensures var d, w := c.model.defs[s], c.want[s];
      var default := ActiveDefault(d.props, c.sol);
      && w.curr == RaiseMod(c.model, s, Limit(BaseValue(w.visible, w.dirDep, w.implied, c.users[s], default, c.sol), w.dirDep, w.revDep))
      && w.write == (!d.noWrite && (w.visible != NO || w.revDep != NO || default.Some? || w.implied != NO))
  {
    assert Demanded(c, s);
  }

  /** all defined symbols among these have rank below n */
  ghost predicate RanksBelow(c: Context, n: nat, symbols: seq<Symbol>) {
    forall t <- symbols :: t in c.rank ==> c.rank[t] < n
  }

  lemma {:induction false} PropMentioned(props: seq<Property>, i: nat)
    requires i < |props|
    ensures forall t <- PropMentions(props[i]) :: t in PropsMentions(props)
  {
    if i > 0 {
      PropMentioned(props[1..], i - 1);
      assert props[1..][i - 1] == props[i];
    }
  }

  lemma DefinitionRanks(c: Context, s: Symbol)
    requires Proper(c) && s in c.model.defs
    ensures var d := c.model.defs[s];
      && RanksBelow(c, c.rank[s], MentionsOpt(d.dirDep))
      && RanksBelow(c, c.rank[s], MentionsOpt(d.revDep))
      && RanksBelow(c, c.rank[s], MentionsOpt(d.implied))
      && RanksBelow(c, c.rank[s], PropsMentions(d.props))
  {
    var d := c.model.defs[s];
    forall t | t in MentionsOpt(d.dirDep) || t in MentionsOpt(d.revDep) || t in MentionsOpt(d.implied) || t in PropsMentions(d.props)
      ensures DependsOn(c.model, s, t)
    {
      assert t in Dependencies(d);
    }
  }

  /** the comparison cases of expr_calc_value, from the two values */
  function CompareShown(rel: Rel, l: Symbol, r: Symbol, lt: Tristate, rt: Tristate, texts: TextOrder): Tristate {
    if Holds(rel, Compare(l, r, Env(map[l := lt, r := rt], texts))) then YES else NO
  }

  lemma ComparesAsShown(rel: Rel, l: Symbol, r: Symbol, lt: Tristate, rt: Tristate, env: Env)
    requires lt == TriOf(l, env) && rt == TriOf(r, env)
    ensures CompareShown(rel, l, r, lt, rt, env.other) == Val(Cmp(rel, l, r), env)
  {
    var here := Env(map[l := lt, r := rt], env.other);
    assert TriOf(l, here) == lt && TriOf(r, here) == rt;
    CompareLocal(l, r, here, env);
  }

  /** the comparison only looks at the two symbols */
  lemma CompareLocal(l: Symbol, r: Symbol, e1: Env, e2: Env)
    requires TriOf(l, e1) == TriOf(l, e2) && TriOf(r, e1) == TriOf(r, e2) && e1.other == e2.other
    ensures Compare(l, r, e1) == Compare(l, r, e2)
  {
  }

  /** m holds the user values of c, and what is valid below rank n is as c wants it */
  ghost predicate Ready(c: Context, n: nat, m: Symbols)
    requires Proper(c)
  {
    && m.Keys == c.want.Keys
    && forall s <- m :: m[s].user == c.users[s] && (m[s].valid && c.rank[s] < n ==> m[s].Calculated() == c.want[s])
  }

  /** From m0 to m1 symbols of rank below n have been calculated, correctly; valid symbols are untouched. */
  ghost predicate Advanced(c: Context, n: nat, m0: Symbols, m1: Symbols)
    requires Proper(c)
  {
    && m0.Keys == m1.Keys == c.want.Keys
    && forall s <- m0 ::
      && (m0[s].valid ==> m1[s] == m0[s])
      && (!m0[s].valid && m1[s].valid ==> c.rank[s] < n && m1[s].Calculated() == c.want[s])
  }

  /** the same for all symbols but s, which is being filled in */
  ghost predicate Others(c: Context, s: Symbol, m0: Symbols, m1: Symbols)
    requires Proper(c) && s in c.want
  {
    && m0.Keys == m1.Keys == c.want.Keys
    && forall t <- m0 | t != s ::
      && (m0[t].valid ==> m1[t] == m0[t])
      && (!m0[t].valid && m1[t].valid ==> c.rank[t] < c.rank[s] && m1[t].Calculated() == c.want[t])
  }

  /** s is being filled in and now has state x; nothing else is disturbed since m0 */
  ghost predicate Around(c: Context, s: Symbol, m0: Symbols, m1: Symbols, x: SymbolState)
    requires Proper(c)
  {
    s in c.want && Ready(c, c.rank[s], m1) && Others(c, s, m0, m1) && m1[s] == x && x.valid
  }

  /** evaluating something else while s is being filled in */
  lemma AroundAdvanced(c: Context, s: Symbol, m0: Symbols, m1: Symbols, x: SymbolState, m2: Symbols)
    requires Proper(c) && Around(c, s, m0, m1, x)
    requires Advanced(c, c.rank[s], m1, m2) && Ready(c, c.rank[s], m2)
    ensures Around(c, s, m0, m2, x)
  {
  }

  lemma WriteKeepsReady(c: Context, s: Symbol, m: Symbols, y: SymbolState)
    requires Proper(c) && s in c.want && Ready(c, c.rank[s], m) && y.user == m[s].user
    ensures Ready(c, c.rank[s], m[s := y])
  {
    assert m[s := y].Keys == m.Keys;
  }

  lemma WriteKeepsOthers(c: Context, s: Symbol, m0: Symbols, m1: Symbols, y: SymbolState)
    requires Proper(c) && s in c.want && Others(c, s, m0, m1)
    ensures Others(c, s, m0, m1[s := y])
  {
    assert m1[s := y].Keys == m1.Keys;
  }

  /** writing a field of s while it is being filled in */
  lemma AroundWrite(c: Context, s: Symbol, m0: Symbols, m1: Symbols, x: SymbolState, y: SymbolState)
    requires Proper(c) && Around(c, s, m0, m1, x) && y.valid && y.user == x.user
    ensures Around(c, s, m0, m1[s := y], y)
  {
    WriteKeepsReady(c, s, m1, y);
    WriteKeepsOthers(c, s, m0, m1, y);
  }

  /** marking s valid before it is filled in */
  lemma Begin(c: Context, n: nat, s: Symbol, m: Symbols, x: SymbolState)
    requires Proper(c) && Ready(c, n, m) && s in m && c.rank[s] < n && x.valid && x.user == m[s].user
    ensures var m0 := m[s := x]; Around(c, s, m0, m0, x)
  {
    WriteKeepsReady(c, s, m, x);
  }

  /** s, which was not valid in m, has been marked valid with state x and then filled in */
  lemma Finish(c: Context, n: nat, s: Symbol, m: Symbols, x: SymbolState, m1: Symbols, y: SymbolState)
    requires Proper(c) && Ready(c, n, m) && s in m && c.rank[s] < n && !m[s].valid
    requires Around(c, s, m[s := x], m1, y) && y.Calculated() == c.want[s]
    ensures Ready(c, n, m1) && Advanced(c, n, m, m1)
  {
    var m0 := m[s := x];
    forall t <- m1 ensures
      && m1[t].user == c.users[t] && (m1[t].valid && c.rank[t] < n ==> m1[t].Calculated() == c.want[t])
      && (m[t].valid ==> m1[t] == m[t])
      && (!m[t].valid && m1[t].valid ==> c.rank[t] < n && m1[t].Calculated() == c.want[t])
    {
      if t != s {
        assert m0[t] == m[t];
      }
    }
  }

  class SymbolTable {
    const model: Model
    var symbols: Symbols

    /** all symbols as conf_read leaves them: user values set, nothing calculated */
    constructor (k: Model, users: Users)
      requires users.Keys == k.defs.Keys
      ensures model == k && symbols.Keys == k.defs.Keys && UsersOf(symbols) == users
      ensures forall s <- symbols :: !symbols[s].valid
    {
      model := k;
      symbols := map s | s in users :: SymbolState(false, false, users[s], NO, NO, NO, NO, NO);
    }

    /** the value a symbol shows to an expression that mentions it */
    function Shown(s: Symbol): Tristate
      reads this
    {
      if s in symbols then symbols[s].curr else TriOf(s, Env(map[], map[]))
    }

    /** expr_calc_value */
    method EvalExpr(e: Expr, ghost c: Context, ghost n: nat) returns (t: Tristate)
      requires c.model == model && Proper(c) && Ready(c, n, symbols) && RanksBelow(c, n, Mentions(e))
      modifies this
      ensures Ready(c, n, symbols) && Advanced(c, n, old(symbols), symbols)
      ensures t == Val(e, c.sol)
      decreases n, 1, Size(e)
    {
      match e
      case Sym(s) =>
        CalcSymbol(s, c, n);
        t := Shown(s);
      case Not(a) =>
        var v := EvalExpr(a, c, n);
        t := Invert(v);
      case Bin(op, l, r) =>
        var v1 := EvalExpr(l, c, n);
        var v2 := EvalExpr(r, c, n);
        t := Apply(op, v1, v2);
      case Cmp(rel, l, r) =>
        CalcBoth(l, r, c, n);
        ComparesAsShown(rel, l, r, Shown(l), Shown(r), c.sol);
        t := CompareShown(rel, l, r, Shown(l), Shown(r), model.texts);
    }

    method CalcBoth(l: Symbol, r: Symbol, ghost c: Context, ghost n: nat)
      requires c.model == model && Proper(c) && Ready(c, n, symbols) && RanksBelow(c, n, [l, r])
      modifies this
      ensures Ready(c, n, symbols) && Advanced(c, n, old(symbols), symbols)
      ensures Shown(l) == TriOf(l, c.sol) && Shown(r) == TriOf(r, c.sol)
      decreases n, 0, 1
    {
      CalcSymbol(l, c, n);
      CalcSymbol(r, c, n);
    }

    /** an optional expression, with the value of a missing one */
    method EvalOr(e: Option<Expr>, missing: Tristate, ghost c: Context, ghost n: nat) returns (t: Tristate)
      requires c.model == model && Proper(c) && Ready(c, n, symbols) && RanksBelow(c, n, MentionsOpt(e))
      modifies this
      ensures Ready(c, n, symbols) && Advanced(c, n, old(symbols), symbols)
      ensures t == if e.None? then missing else Val(e.value, c.sol)
      decreases n, 2, 0
    {
      if e.None? {
        return missing;
      }
      t := EvalExpr(e.value, c, n);
    }

    /** sym_calc_value on any symbol an expression mentions; only the defined ones have anything to calculate */
    method CalcSymbol(s: Symbol, ghost c: Context, ghost n: nat)
      requires c.model == model && Proper(c) && Ready(c, n, symbols) && (s in symbols ==> c.rank[s] < n)
      modifies this
      ensures Ready(c, n, symbols) && Advanced(c, n, old(symbols), symbols)
      ensures Shown(s) == TriOf(s, c.sol) && (s in symbols ==> symbols[s].valid)
      decreases n, 0, 0
    {
      if s in symbols {
        CalcValue(s, c, n);
      }
    }

    /** sym_calc_value */
    method CalcValue(s: Symbol, ghost c: Context, ghost n: nat)
      requires c.model == model && Proper(c) && Ready(c, n, symbols) && s in symbols && c.rank[s] < n
      modifies this
      ensures Ready(c, n, symbols) && Advanced(c, n, old(symbols), symbols)
      ensures symbols[s].valid && symbols[s].Calculated() == c.want[s]
      decreases c.rank[s], 7, 0
    {
      if symbols[s].valid {
        return;
      }
      ghost var m, x := symbols, symbols[s].(valid := true, write := false);
      Begin(c, n, s, m, x);
      symbols := symbols[s := symbols[s].(valid := true, write := false)];
      FillIn(s, c, symbols, x);
      ghost var y :| Around(c, s, m[s := x], symbols, y) && y.Calculated() == c.want[s];
      Finish(c, n, s, m, x, symbols, y);
    }

    /** the body of sym_calc_value after the VALID test; m0 and x are the state on entry */
    method FillIn(s: Symbol, ghost c: Context, ghost m0: Symbols, ghost x: SymbolState)
      requires c.model == model && Proper(c) && s in c.want && symbols == m0 && Around(c, s, m0, m0, x) && !x.write
      modifies this
      ensures exists y :: Around(c, s, m0, symbols, y) && y.Calculated() == c.want[s]
      decreases c.rank[s], 6, 0
    {
      WantedValue(c, s);
      CalcVisibility(s, c, m0, x);
      Write(s, symbols[s].(write := symbols[s].visible != NO), c, m0);
      Write(s, symbols[s].(curr := NO), c, m0);
      CalcCurrent(s, c, m0, symbols[s]);
      Write(s, symbols[s].(write := symbols[s].write && !model.defs[s].noWrite), c, m0);
    }

    /** assignment to the fields of the symbol being filled in */
    method Write(s: Symbol, y: SymbolState, ghost c: Context, ghost m0: Symbols)
      requires Proper(c) && s in symbols && Around(c, s, m0, symbols, symbols[s]) && y.valid && y.user == symbols[s].user
      modifies this
      ensures symbols == old(symbols)[s := y] && Around(c, s, m0, symbols, y)
    {
      AroundWrite(c, s, m0, symbols, symbols[s], y);
      symbols := symbols[s := y];
    }

    /** sym_calc_visibility */
    method CalcVisibility(s: Symbol, ghost c: Context, ghost m0: Symbols, ghost x: SymbolState)
      requires c.model == model && Proper(c) && s in c.want && Around(c, s, m0, symbols, x)
      modifies this
      ensures var w := c.want[s];
              Around(c, s, m0, symbols, x.(visible := w.visible, dirDep := w.dirDep, revDep := w.revDep, implied := w.implied))
      decreases c.rank[s], 4, 1
    {
      DefinitionRanks(c, s);
      WantedVisibility(c, s);
      hide RaiseMod, RanksBelow, PromptLevel;
      var d := model.defs[s];
      ghost var m1 := symbols;
      var t := PromptVisibility(d.props, c, c.rank[s]);
      AroundAdvanced(c, s, m0, m1, x, symbols);
      Write(s, symbols[s].(visible := RaiseMod(model, s, t)), c, m0);
      CalcDependencies(s, c, m0, symbols[s]);
    }

    /** the part of it after the loop over the prompts */
    method CalcDependencies(s: Symbol, ghost c: Context, ghost m0: Symbols, ghost x: SymbolState)
      requires c.model == model && Proper(c) && s in c.want && Around(c, s, m0, symbols, x)
      modifies this
      ensures var w := c.want[s];
              Around(c, s, m0, symbols, x.(dirDep := w.dirDep, revDep := w.revDep, implied := w.implied))
      decreases c.rank[s], 4, 0
    {
      DefinitionRanks(c, s);
      WantedVisibility(c, s);
      hide RaiseMod, RanksBelow, PromptLevel;
      var d := model.defs[s];
      var t := EvalFor(s, d.dirDep, YES, c, m0);
      Write(s, symbols[s].(dirDep := t), c, m0);
      t := EvalFor(s, d.revDep, NO, c, m0);
      Write(s, symbols[s].(revDep := t), c, m0);
      t := EvalFor(s, d.implied, NO, c, m0);
      Write(s, symbols[s].(implied := t), c, m0);
    }

    /** one dependency of the symbol being filled in, with m raised to y for those treated as bool */
    method EvalFor(s: Symbol, e: Option<Expr>, missing: Tristate, ghost c: Context, ghost m0: Symbols) returns (t: Tristate)
      requires c.model == model && Proper(c) && s in symbols && Around(c, s, m0, symbols, symbols[s])
      requires RanksBelow(c, c.rank[s], MentionsOpt(e))
      modifies this
      ensures s in symbols && symbols[s] == old(symbols[s]) && Around(c, s, m0, symbols, symbols[s])
      ensures t == RaiseMod(model, s, if e.None? then missing else Val(e.value, c.sol))
      decreases c.rank[s], 3, 0
    {
      ghost var m, x := symbols, symbols[s];
      var v := EvalOr(e, missing, c, c.rank[s]);
      AroundAdvanced(c, s, m0, m, x, symbols);
      t := RaiseMod(model, s, v);
    }

    /** the loop over the prompts in sym_calc_visibility */
    method PromptVisibility(props: seq<Property>, ghost c: Context, ghost n: nat) returns (t: Tristate)
      requires c.model == model && Proper(c) && Ready(c, n, symbols) && RanksBelow(c, n, PropsMentions(props))
      modifies this
      ensures Ready(c, n, symbols) && Advanced(c, n, old(symbols), symbols)
      ensures t == PromptLevel(props, c.sol)
      decreases n, 3, 0
    {
      t := NO;
      for i := 0 to |props|
        invariant Ready(c, n, symbols) && Advanced(c, n, old(symbols), symbols)
        invariant Max(t, PromptLevel(props[i..], c.sol)) == PromptLevel(props, c.sol)
      {
        if props[i].Prompt? {
          PropMentioned(props, i);
          var v := EvalOr(props[i].visible, YES, c, n);
          t := Max(t, v);
        }
      }
    }

    /** sym_get_default_prop, and the value of its condition */
    method FindDefault(props: seq<Property>, ghost c: Context, ghost n: nat) returns (p: Option<Property>, t: Tristate)
      requires c.model == model && Proper(c) && Ready(c, n, symbols) && RanksBelow(c, n, PropsMentions(props))
      modifies this
      ensures Ready(c, n, symbols) && Advanced(c, n, old(symbols), symbols)
      ensures p == ActiveDefault(props, c.sol)
      ensures p.Some? ==> p.value in props && p.value.Default? && t == ValOpt(p.value.visible, c.sol)
      decreases n, 3, 0
    {
      for i := 0 to |props|
        invariant Ready(c, n, symbols) && Advanced(c, n, old(symbols), symbols)
        invariant ActiveDefault(props[i..], c.sol) == ActiveDefault(props, c.sol)
      {
        if props[i].Default? {
          PropMentioned(props, i);
          var v := EvalOr(props[i].visible, YES, c, n);
          if v != NO {
            return Some(props[i]), v;
          }
        }
      }
      return None, NO;
    }

    /** the value of the active default, if there is one */
    method DefaultValue(props: seq<Property>, ghost c: Context, ghost n: nat) returns (found: bool, v: Tristate)
      requires c.model == model && Proper(c) && Ready(c, n, symbols) && RanksBelow(c, n, PropsMentions(props))
      modifies this
      ensures Ready(c, n, symbols) && Advanced(c, n, old(symbols), symbols)
      ensures found == ActiveDefault(props, c.sol).Some?
      ensures v == DefaultLevel(ActiveDefault(props, c.sol), c.sol)
      decreases n, 4, 0
    {
      var p, t := FindDefault(props, c, n);
      if p.None? {
        return false, NO;
      }
      ghost var i :| 0 <= i < |props| && props[i] == p.value;
      PropMentioned(props, i);
      v := EvalOr(p.value.expr, YES, c, n);
      return true, Min(v, t);
    }

    /** the bool and tristate case of sym_calc_value */
    method CalcCurrent(s: Symbol, ghost c: Context, ghost m0: Symbols, ghost x: SymbolState)
      requires c.model == model && Proper(c) && s in c.want && Around(c, s, m0, symbols, x)
      requires var w := c.want[s]; x.visible == w.visible && x.dirDep == w.dirDep && x.revDep == w.revDep && x.implied == w.implied
      requires x.write == (x.visible != NO)
      modifies this
      ensures s in symbols && Around(c, s, m0, symbols, symbols[s])
      ensures symbols[s].curr == c.want[s].curr
      ensures var y := symbols[s]; y.visible == x.visible && y.dirDep == x.dirDep && y.revDep == x.revDep && y.implied == x.implied
      ensures (symbols[s].write && !model.defs[s].noWrite) == c.want[s].write
      decreases c.rank[s], 5, 0
    {
      WantedValue(c, s);
      DefinitionRanks(c, s);
      var v := NO;
      if symbols[s].visible != NO && symbols[s].user.Some? {
        v := Min(symbols[s].user.value, symbols[s].visible);
      } else {
        Write(s, symbols[s].(write := symbols[s].write || symbols[s].revDep != NO), c, m0);
        ghost var m1, x1 := symbols, symbols[s];
        var found;
        found, v := DefaultValue(model.defs[s].props, c, c.rank[s]);
        AroundAdvanced(c, s, m0, m1, x1, symbols);
        var y := symbols[s];
        if y.implied != NO {
          v := Min(Max(v, y.implied), y.dirDep);
        }
        Write(s, y.(write := y.write || found || y.implied != NO), c, m0);
      }
      v := Limit(v, symbols[s].dirDep, symbols[s].revDep);
      Write(s, symbols[s].(curr := RaiseMod(model, s, v)), c, m0);
    }

    // ----- the evaluator as a whole -----

    /** Starting with no symbol valid, sym_calc_value on any symbols in any order: whatever is valid afterwards,
        and every queried symbol is, has in all its fields the status that the unique solution of the
        equations gives it. */
    method CalcEach(queries: seq<Symbol>, ghost rank: Ranking, ghost sol: Env)
      requires WellFormed(model) && Ranks(model, rank) && Solution(model, UsersOf(symbols), sol)
      requires forall s <- symbols :: !symbols[s].valid
      modifies this
      ensures UsersOf(symbols) == old(UsersOf(symbols))
      ensures AllValid(queries, symbols)
      ensures Faithful(model, sol, symbols)
    {
      ghost var c := SolutionContext(model, rank, UsersOf(symbols), sol);
      ghost var n := RankBound(rank);
      NothingValid(c, n, symbols);
      CalcQueries(queries, c, n);
      ReadyFaithful(c, n, symbols);
    }

    method CalcQueries(queries: seq<Symbol>, ghost c: Context, ghost n: nat)
      requires c.model == model && Proper(c) && Ready(c, n, symbols) && forall s <- c.rank :: c.rank[s] < n
      modifies this
      ensures Ready(c, n, symbols)
      ensures AllValid(queries, symbols)
    {
      for i := 0 to |queries|
        invariant Ready(c, n, symbols) && AllValid(queries[..i], symbols)
      {
        ghost var m := symbols;
        CalcQuery(queries[i], c, n);
        MoreValid(queries, i, m, symbols);
      }
      assert queries[..|queries|] == queries;
    }

    method CalcQuery(s: Symbol, ghost c: Context, ghost n: nat)
      requires c.model == model && Proper(c) && Ready(c, n, symbols) && forall t <- c.rank :: c.rank[t] < n
      modifies this
      ensures Ready(c, n, symbols) && symbols.Keys == old(symbols.Keys)
      ensures forall t <- symbols :: old(symbols)[t].valid ==> symbols[t].valid
      ensures s in symbols ==> symbols[s].valid
    {
      if s in symbols {
        CalcValue(s, c, n);
      }
    }

    /** sym_clear_all_valid, with MODULES settled */
    method ClearAllValid()
      modifies this
      ensures symbols == map s | s in old(symbols) :: old(symbols)[s].(valid := false)
    {
      symbols := map s | s in symbols :: symbols[s].(valid := false);
    }

    /** sym_set_tristate_value for a symbol that is no choice value */
    method SetTristateValue(s: Symbol, val: Tristate) returns (ok: bool)
      requires s in symbols
      modifies this
      ensures ok == (old(symbols[s].curr) == val || WithinRange(model, s, old(symbols[s].Calculated()), val))
      ensures !ok ==> symbols == old(symbols)
      ensures ok ==> s in symbols && UsersOf(symbols) == old(UsersOf(symbols))[s := Some(val)]
      ensures ok && old(symbols[s].curr) == val ==> symbols == old(symbols)[s := old(symbols[s]).(user := Some(val))]
      ensures ok && old(symbols[s].curr) != val ==> forall t <- symbols :: !symbols[t].valid
    {
      var oldVal := symbols[s].curr;
      if oldVal != val && !WithinRange(model, s, symbols[s].Calculated(), val) {
        return false;
      }
      symbols := symbols[s := symbols[s].(user := Some(val))];
      if oldVal != val {
        ClearAllValid();
      }
      return true;
    }

    /** Setting a new value and calculating again: an accepted value comes back exactly, if and only if the
        symbol's own dependencies are met or nothing selects it. */
    method SetAndRecalculate(s: Symbol, val: Tristate, ghost rank: Ranking, ghost sol: Env) returns (ok: bool)
      requires WellFormed(model) && Ranks(model, rank) && Solution(model, UsersOf(symbols), sol)
      requires Faithful(model, sol, symbols) && s in symbols && symbols[s].valid
      modifies this
      ensures s in symbols
      ensures ok && val != old(symbols[s].curr) ==>
                symbols[s].valid && (symbols[s].curr == val <==> old(symbols[s].dirDep) != NO || old(symbols[s].revDep) == NO)
    {
      ghost var users, x := UsersOf(symbols), symbols[s];
      var oldVal := symbols[s].curr;
      ok := SetTristateValue(s, val);
      if ok && val != oldVal {
        ghost var users1 := users[s := Some(val)];
        ghost var sol1 := ExistsSolution(model, users1, rank);
        CalcEach([s], rank, sol1);
        SetComputes(model, rank, users, sol, s, val, users1, sol1);
        assert s in [s];
      }
    }

    /** sym_toggle_tristate_value: it stops, at the first value after the current one, in the order n, m, y, n,
        that can be set (the current value always can), and that value is the user value afterwards. */
    method ToggleTristateValue(s: Symbol) returns (newVal: Tristate)
      requires s in symbols
      modifies this
      ensures s in symbols && symbols[s].user == Some(newVal)
      ensures var x, v := old(symbols[s]), old(symbols[s].curr);
              var one: Tristate, two: Tristate := (v + 1) % 3, (v + 2) % 3;
              newVal == if WithinRange(model, s, x.Calculated(), one) then one
                        else if WithinRange(model, s, x.Calculated(), two) then two else v
    {
      ghost var x := symbols[s];
      var oldVal := symbols[s].curr;
      newVal := oldVal;
      ToggleOrder(model, s, x);
      while true
        invariant symbols == old(symbols)
        invariant FirstSettable(model, s, x, Next(newVal)) == FirstSettable(model, s, x, Next(oldVal))
        decreases StepsTo(newVal, oldVal)
      {
        newVal := Next(newVal);
        var ok := SetTristateValue(s, newVal);
        if ok {
          assert UsersOf(symbols)[s] == Some(newVal);
          break;
        }
      }
    }
  }

  /** all of these that are symbols have been calculated */
  ghost predicate AllValid(queries: seq<Symbol>, m: Symbols) {
    forall s <- queries :: s in m ==> m[s].valid
  }

  lemma MoreValid(queries: seq<Symbol>, i: nat, m0: Symbols, m1: Symbols)
    requires i < |queries| && AllValid(queries[..i], m0) && m0.Keys == m1.Keys
    requires (forall t <- m0 :: m0[t].valid ==> m1[t].valid) && (queries[i] in m1 ==> m1[queries[i]].valid)
    ensures AllValid(queries[..i + 1], m1)
  {
    assert queries[..i + 1] == queries[..i] + [queries[i]];
  }

  ghost function UsersOf(m: Symbols): Users { map s | s in m :: m[s].user }

  /** every valid symbol has the status that the solution gives it */
  ghost predicate Faithful(k: Model, sol: Env, m: Symbols) {
    m.Keys == k.defs.Keys && forall s <- m :: m[s].valid ==> m[s].Calculated() == Compute(k, s, m[s].user, sol)
  }

  lemma NothingValid(c: Context, n: nat, m: Symbols)
    requires Proper(c) && UsersOf(m) == c.users && forall s <- m :: !m[s].valid
    ensures Ready(c, n, m)
  {
    assert UsersOf(m).Keys == m.Keys;
    forall s <- m ensures m[s].user == c.users[s] {
      assert UsersOf(m)[s] == m[s].user;
    }
  }

  lemma ReadyFaithful(c: Context, n: nat, m: Symbols)
    requires Proper(c) && Ready(c, n, m) && forall s <- c.rank :: c.rank[s] < n
    ensures Faithful(c.model, c.sol, m) && UsersOf(m) == c.users
  {
    forall s <- m | m[s].valid ensures m[s].Calculated() == Compute(c.model, s, m[s].user, c.sol) {
      assert Demanded(c, s);
    }
  }

  /** sym_tristate_within_range */
  predicate WithinRange(k: Model, s: Symbol, x: Status, val: Tristate) {
    && x.visible != NO && !(TreatedAsBool(k, s) && val == MOD) && x.visible > x.revDep
    && x.revDep <= val <= x.visible
  }

  /** the order in which toggling tries values */
  function Next(t: Tristate): Tristate { if t == YES then NO else t + 1 }

  /** how often Next leads from a to b, at least once */
  function StepsTo(a: Tristate, b: Tristate): nat { if b > a then b - a else b - a + 3 }

  ghost function FirstSettable(k: Model, s: Symbol, x: SymbolState, from: Tristate): Tristate
    decreases if from == x.curr then 0 else StepsTo(from, x.curr)
  {
    if from == x.curr || WithinRange(k, s, x.Calculated(), from) then from else FirstSettable(k, s, x, Next(from))
  }

  /** Counting n, m, y as 0, 1, 2, toggling tries the next two numbers modulo 3. */
  lemma ToggleOrder(k: Model, s: Symbol, x: SymbolState)
    ensures var one: Tristate, two: Tristate := (x.curr + 1) % 3, (x.curr + 2) % 3;
            FirstSettable(k, s, x, Next(x.curr)) == if WithinRange(k, s, x.Calculated(), one) then one
                                                    else if WithinRange(k, s, x.Calculated(), two) then two else x.curr
  {
    var one := Next(x.curr);
    var two := Next(one);
    assert one == (x.curr + 1) % 3 && two == (x.curr + 2) % 3 && Next(two) == x.curr;
    assert FirstSettable(k, s, x, one) == if WithinRange(k, s, x.Calculated(), one) then one else FirstSettable(k, s, x, two);
  }

  /** A value can be set exactly if there is a choice and calculating with it as the user value gives it back. */
  lemma SettableIff(k: Model, s: Symbol, user: Option<Tristate>, env: Env, val: Tristate)
    requires WellFormed(k) && s in k.defs
    requires Compute(k, s, user, env).dirDep != NO || Compute(k, s, user, env).revDep == NO
    ensures var x := Compute(k, s, user, env);
            WithinRange(k, s, x, val) <==> x.visible > x.revDep && Compute(k, s, Some(val), env).curr == val
  {
    hide PromptLevel, ActiveDefault, Val;
  }

  /** There is a choice, that is, two values can be set, exactly if the symbol is more visible than selected
      (sym_is_changeable). */
  lemma ChangeableIff(k: Model, s: Symbol, user: Option<Tristate>, env: Env)
    requires WellFormed(k) && s in k.defs
    ensures var x := Compute(k, s, user, env);
            x.visible > x.revDep <==> exists v: Tristate, w: Tristate ::
              v != w && WithinRange(k, s, x, v) && WithinRange(k, s, x, w)
  {
    var x := Compute(k, s, user, env);
    if x.visible > x.revDep {
      assert WithinRange(k, s, x, x.visible) && WithinRange(k, s, x, x.revDep);
    }
  }

  /** the arithmetic of a user value within range */
  lemma RangeValue(k: Model, s: Symbol, x: Status, val: Tristate)
    requires WithinRange(k, s, x, val)
    ensures RaiseMod(k, s, Limit(Min(val, x.visible), x.dirDep, x.revDep)) == val <==> x.dirDep != NO || x.revDep == NO
  {
  }

  /** the recalculated value of a symbol whose user value has been set within range */
  lemma SetComputes(k: Model, rank: Ranking, u0: Users, e0: Env, s: Symbol, val: Tristate, u1: Users, e1: Env)
    requires WellFormed(k) && Ranks(k, rank) && Solution(k, u0, e0) && Solution(k, u1, e1)
    requires s in k.defs && u1 == u0[s := Some(val)]
    requires WithinRange(k, s, Compute(k, s, u0[s], e0), val)
    ensures var x := Compute(k, s, u0[s], e0);
            Compute(k, s, u1[s], e1).curr == val <==> x.dirDep != NO || x.revDep == NO
  {
    OwnUserValue(k, rank, u0, u1, e0, e1, s, Some(val));
    SetCompute(k, s, u0[s], val, e0);
  }

  lemma SetCompute(k: Model, s: Symbol, user: Option<Tristate>, val: Tristate, env: Env)
    requires s in k.defs && WithinRange(k, s, Compute(k, s, user, env), val)
    ensures var x := Compute(k, s, user, env);
            Compute(k, s, Some(val), env).curr == val <==> x.dirDep != NO || x.revDep == NO
  {
    RangeValue(k, s, Compute(k, s, user, env), val);
  }
}
