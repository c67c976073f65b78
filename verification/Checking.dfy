/** The recursive-dependency checker of symbol.c: a depth-first search with the CHECK and CHECKED flags. */
module Checking {
  import opened Expressions
  import opened Kconfig

  /** a walk along dependencies that returns to its start */
  ghost predicate IsCycle(k: Model, p: seq<Symbol>) {
    |p| >= 2 && p[0] == p[|p| - 1] && forall i :: 0 <= i < |p| - 1 ==> DependsOn(k, p[i], p[i + 1])
  }

  ghost predicate HasCycle(k: Model) { exists p :: IsCycle(k, p) }

  /** an order in which every symbol comes after all it depends on */
  ghost predicate Sorted(k: Model, order: seq<Symbol>) {
    forall i, t :: 0 <= i < |order| && DependsOn(k, order[i], t) ==> t in order[..i]
  }

  lemma {:induction false} RankFalls(k: Model, rank: Ranking, p: seq<Symbol>)
    requires Ranks(k, rank) && |p| >= 1 && p[|p| - 1] in k.defs
    requires forall i :: 0 <= i < |p| - 1 ==> DependsOn(k, p[i], p[i + 1])
    ensures p[0] in k.defs && rank[p[0]] >= rank[p[|p| - 1]] + |p| - 1
  {
    if |p| > 1 {
      RankFalls(k, rank, p[1..]);
      assert DependsOn(k, p[0], p[1]);
    }
  }

  /** A ranking, as the evaluator needs it, and a cycle exclude each other. */
  lemma RanksExcludeCycles(k: Model, rank: Ranking)
    requires Ranks(k, rank)
    ensures !HasCycle(k)
  {
    if p :| IsCycle(k, p) {
      assert DependsOn(k, p[0], p[1]);
      RankFalls(k, rank, p);
    }
  }

  /** the position of the first occurrence */
  ghost function IndexOf(order: seq<Symbol>, s: Symbol): (i: nat)
    requires s in order
    ensures i < |order| && order[i] == s && forall j :: 0 <= j < i ==> order[j] != s
  {
    if order[0] == s then 0 else 1 + IndexOf(order[1..], s)
  }

  /** A sorted order of all defined symbols is a ranking. */
  lemma SortedGivesRanks(k: Model, order: seq<Symbol>) returns (rank: Ranking)
    requires Sorted(k, order) && forall s <- k.defs :: s in order
    ensures Ranks(k, rank)
  {
    rank := map s | s in k.defs :: IndexOf(order, s);
    forall s, t | DependsOn(k, s, t) && t in k.defs ensures rank[t] < rank[s] {
      var i := IndexOf(order, s);
      assert DependsOn(k, order[i], t) && t in order[..i];
    }
  }

  ghost predicate AllIn(symbols: seq<Symbol>, order: seq<Symbol>) { forall t <- symbols :: t in order }

  lemma SortedAppend(k: Model, order: seq<Symbol>, s: Symbol)
    requires Sorted(k, order) && (s in k.defs ==> AllIn(Dependencies(k.defs[s]), order))
    ensures Sorted(k, order + [s])
  {
    var longer := order + [s];
    forall i, t | 0 <= i < |longer| && DependsOn(k, longer[i], t) ensures t in longer[..i] {
      if i < |order| {
        assert longer[..i] == order[..i];
      } else {
        assert longer[..i] == order;
      }
    }
  }

  /** consecutive symbols depend on each other */
  ghost predicate Walk(k: Model, stack: seq<Symbol>) {
    forall i :: 0 <= i < |stack| - 1 ==> DependsOn(k, stack[i], stack[i + 1])
  }

  lemma WalkAppend(k: Model, stack: seq<Symbol>, s: Symbol)
    requires Walk(k, stack) && (stack == [] || DependsOn(k, stack[|stack| - 1], s))
    ensures Walk(k, stack + [s])
  {
  }

  lemma WalkBelow(k: Model, stack: seq<Symbol>, s: Symbol)
    requires Walk(k, stack + [s])
    ensures Walk(k, stack)
  {
    var longer := stack + [s];
    forall i | 0 <= i < |stack| - 1 ensures DependsOn(k, stack[i], stack[i + 1]) {
      assert longer[i] == stack[i] && longer[i + 1] == stack[i + 1];
    }
  }

  /** all contains whatever its members depend on */
  ghost predicate Closed(k: Model, all: set<Symbol>) {
    forall u, t :: u in all && DependsOn(k, u, t) ==> t in all
  }

  class Checker {
    const model: Model
    const recursiveIsError: bool
    /** symbols with the CHECK flag, and with the CHECKED flag */
    var check: set<Symbol>
    var checked: set<Symbol>
    /** the dep_stack entries from the bottom to check_top */
    var stack: seq<Symbol>
    /** symbols finished without an error, in the order in which they were finished */
    ghost var order: seq<Symbol>
    /** no error has been returned so far */
    ghost var clean: bool

    constructor (k: Model, recursiveIsError: bool)
      ensures model == k && this.recursiveIsError == recursiveIsError
      ensures Valid() && check == {} && checked == {} && stack == [] && clean == recursiveIsError
    {
      model, this.recursiveIsError := k, recursiveIsError;
      check, checked, stack, order, clean := {}, {}, [], [], recursiveIsError;
    }

    /** the state while the flags in extra are set without a stack entry */
    ghost predicate Consistent(extra: set<Symbol>)
      reads this
    {
      && (forall x :: x in check <==> x in stack || x in extra) && check <= checked
      && Walk(model, stack) && Sorted(model, order)
      && (clean ==> recursiveIsError && forall s <- checked :: s in check || s in order)
    }

    /** the state between calls: CHECK is set for exactly the symbols on the stack, which is a walk along
        dependencies, and while no error occurred all other checked symbols are sorted */
    ghost predicate Valid()
      reads this
    {
      Consistent({})
    }

    /** t may be visited next: the symbol on top of the stack depends on it */
    ghost predicate MayVisit(t: Symbol)
      reads this
    {
      stack == [] || DependsOn(model, stack[|stack| - 1], t)
    }

    /** what every part of the search leaves behind, whatever it answers */
    twostate predicate Searched(new r: Option<Symbol>)
      reads this
    {
      && check == old(check) && stack == old(stack) && old(checked) <= checked && old(order) <= order
      && clean == (old(clean) && r.None?)
      && (r.Some? ==> HasCycle(model))
      && (r.Some? && !recursiveIsError ==> r.value in old(check))
    }

    /** sym_check_deps for a symbol that is no choice or choice value */
    method CheckDeps(s: Symbol, ghost all: set<Symbol>) returns (r: Option<Symbol>)
      requires Valid() && MayVisit(s) && checked <= all && s in all && Closed(model, all)
      modifies this
      ensures Valid() && Searched(r) && s in checked && checked <= all
      ensures clean ==> s in order
      decreases all - checked, 3, 0
    {
      if s in check {
        CycleFound(s);
        clean := false;
        return Some(s);
      }
      if s in checked {
        return None;
      }
      check, checked := check + {s}, checked + {s};
      r := CheckSymDeps(s, all);
      check := check - {s};
      if !recursiveIsError && r == Some(s) {
        r := None;
      }
      if clean {
        SortedAppend(model, order, s);
        order := order + [s];
      }
    }

    /** sym_check_sym_deps: all expressions of s, up to the first that leads back to the stack */
    method CheckSymDeps(s: Symbol, ghost all: set<Symbol>) returns (r: Option<Symbol>)
      requires Consistent({s}) && s !in stack && MayVisit(s) && checked <= all && Closed(model, all)
      modifies this
      ensures Consistent({s}) && Searched(r) && checked <= all
      ensures clean && s in model.defs ==> AllIn(Dependencies(model.defs[s]), order)
      decreases all - checked, 6, 0
    {
      if s !in model.defs {
        return None;
      }
      hide Walk, Sorted, Closed, HasCycle, Dependencies;
      ghost var below := stack;
      StackInsert(s);
      r := CheckDefinition(s, model.defs[s], all);
      StackRemove(below, s);
    }

    /** dep_stack_insert */
    method StackInsert(s: Symbol)
      requires Consistent({s}) && s !in stack && MayVisit(s)
      modifies `stack
      ensures Valid() && stack == old(stack) + [s]
    {
      WalkAppend(model, stack, s);
      hide Walk, Sorted, DependsOn;
      stack := stack + [s];
    }

    /** dep_stack_remove */
    method StackRemove(ghost below: seq<Symbol>, ghost s: Symbol)
      requires Valid() && stack == below + [s]
      modifies `stack
      ensures Consistent({s}) && stack == below
    {
      WalkBelow(model, below, s);
      hide Walk, Sorted, DependsOn;
      stack := stack[..|stack| - 1];
      assert stack == below;
    }

    method CheckDefinition(s: Symbol, d: Definition, ghost all: set<Symbol>) returns (r: Option<Symbol>)
      requires Valid() && Visiting(s, Dependencies(d)) && checked <= all && Closed(model, all) && s in checked
      modifies this
      ensures Valid() && Searched(r) && checked <= all
      ensures clean ==> AllIn(Dependencies(d), order)
      decreases all - checked, 5, 1 + |d.props|
    {
      r := CheckLimits(s, d, all);
      if r.None? {
        r := CheckProps(s, d.props, all);
      }
    }

    method CheckLimits(s: Symbol, d: Definition, ghost all: set<Symbol>) returns (r: Option<Symbol>)
      requires Valid() && checked <= all && Closed(model, all) && s in checked
      requires Visiting(s, MentionsOpt(d.dirDep))
      requires Visiting(s, MentionsOpt(d.revDep))
      requires Visiting(s, MentionsOpt(d.implied))
      modifies this
      ensures Valid() && Searched(r) && checked <= all
      ensures clean ==> AllIn(MentionsOpt(d.dirDep), order)
      ensures clean ==> AllIn(MentionsOpt(d.revDep), order)
      ensures clean ==> AllIn(MentionsOpt(d.implied), order)
      decreases all - checked, 5, 0
    {
      r := CheckOpt(s, d.dirDep, all);
      if r.None? {
        r := CheckOpt(s, d.revDep, all);
      }
      if r.None? {
        r := CheckOpt(s, d.implied, all);
      }
    }

    /** s is on top of the stack and depends on all these symbols */
    ghost predicate Visiting(s: Symbol, symbols: seq<Symbol>)
      reads this
    {
      stack != [] && stack[|stack| - 1] == s && forall t <- symbols :: DependsOn(model, s, t)
    }

    method CheckProps(s: Symbol, props: seq<Property>, ghost all: set<Symbol>) returns (r: Option<Symbol>)
      requires Valid() && Visiting(s, PropsMentions(props)) && checked <= all && Closed(model, all) && s in checked
      modifies this
      ensures Valid() && Searched(r) && checked <= all
      ensures clean ==> AllIn(PropsMentions(props), order)
      decreases all - checked, 5, |props|
    {
      if props == [] {
        return None;
      }
      assert PropsMentions(props) == PropMentions(props[0]) + PropsMentions(props[1..]);
      hide PropsMentions, PropMentions;
      r := CheckProp(s, props[0], all);
      if r.None? {
        r := CheckProps(s, props[1..], all);
      }
    }

    method CheckProp(s: Symbol, p: Property, ghost all: set<Symbol>) returns (r: Option<Symbol>)
      requires Valid() && Visiting(s, PropMentions(p)) && checked <= all && Closed(model, all) && s in checked
      modifies this
      ensures Valid() && Searched(r) && checked <= all
      ensures clean ==> AllIn(PropMentions(p), order)
      decreases all - checked, 5, 0
    {
      if p.Select? || p.Imply? {
        return None;
      }
      assert p.Default? ==> PropMentions(p) == MentionsOpt(p.visible) + MentionsOpt(p.expr);
      assert !p.Default? ==> PropMentions(p) == MentionsOpt(p.visible);
      hide PropMentions, MentionsOpt;
      r := CheckOpt(s, p.visible, all);
      if r.None? && p.Default? {
        r := CheckOpt(s, p.expr, all);
      }
    }

    method CheckOpt(s: Symbol, e: Option<Expr>, ghost all: set<Symbol>) returns (r: Option<Symbol>)
      requires Valid() && Visiting(s, MentionsOpt(e)) && checked <= all && Closed(model, all) && s in checked
      modifies this
      ensures Valid() && Searched(r) && checked <= all
      ensures clean ==> AllIn(MentionsOpt(e), order)
      decreases all - checked, 4, 1 + if e.None? then 0 else Size(e.value)
    {
      if e.None? {
        return None;
      }
      r := CheckExpr(s, e.value, all);
    }

    /** sym_check_expr_deps */
    method CheckExpr(s: Symbol, e: Expr, ghost all: set<Symbol>) returns (r: Option<Symbol>)
      requires Valid() && Visiting(s, Mentions(e)) && checked <= all && Closed(model, all) && s in checked
      modifies this
      ensures Valid() && Searched(r) && checked <= all
      ensures clean ==> AllIn(Mentions(e), order)
      decreases all - checked, 4, Size(e)
    {
      match e
      case Bin(_, l, r0) =>
        r := CheckExpr(s, l, all);
        if r.None? {
          r := CheckExpr(s, r0, all);
        }
      case Not(a) =>
        r := CheckExpr(s, a, all);
      case Cmp(_, l, r0) =>
        r := CheckPair(s, l, r0, all);
      case Sym(t) =>
        assert t in Mentions(e);
        r := CheckDeps(t, all);
    }

    method CheckPair(s: Symbol, t1: Symbol, t2: Symbol, ghost all: set<Symbol>) returns (r: Option<Symbol>)
      requires Valid() && Visiting(s, [t1]) && Visiting(s, [t2]) && checked <= all && Closed(model, all) && s in checked
      modifies this
      ensures Valid() && Searched(r) && checked <= all
      ensures clean ==> t1 in order && t2 in order
      decreases all - checked, 4, 0
    {
      hide Valid;
      assert t1 in [t1] && t2 in [t2];
      r := CheckDeps(t1, all);
      if r.None? {
        r := CheckDeps(t2, all);
      }
    }

    /** a symbol on the stack is met again */
    lemma CycleFound(s: Symbol)
      requires Valid() && MayVisit(s) && s in check
      ensures HasCycle(model)
    {
      var i :| 0 <= i < |stack| && stack[i] == s;
      var p := stack[i..] + [s];
      forall j | 0 <= j < |p| - 1 ensures DependsOn(model, p[j], p[j + 1]) {
        if j == |p| - 2 {
          assert p[j] == stack[|stack| - 1];
        } else {
          assert p[j] == stack[i + j] && p[j + 1] == stack[i + j + 1];
        }
      }
      assert IsCycle(model, p);
    }

    /** the loop of conf_parse: sym_check_deps on every symbol. With recursive_is_error set the number of errors
        is positive exactly when the dependency graph has a cycle; and when there is none the search has found
        a ranking, the precondition of the evaluator. Without it a cycle is only printed and never counted. */
    method CheckAll(symbols: seq<Symbol>) returns (errors: nat, ghost rank: Ranking)
      requires Valid() && check == {} && checked == {} && stack == [] && clean == recursiveIsError
      requires forall s <- model.defs :: s in symbols
      modifies this
      ensures check == {} && stack == []
      ensures errors > 0 ==> HasCycle(model)
      ensures !recursiveIsError ==> errors == 0
      ensures recursiveIsError && errors == 0 ==> Ranks(model, rank) && !HasCycle(model)
    {
      ghost var all := Universe(model, symbols);
      errors := 0;
      for i := 0 to |symbols|
        invariant Valid() && check == {} && stack == [] && checked <= all
        invariant errors > 0 ==> HasCycle(model)
        invariant !recursiveIsError ==> errors == 0
        invariant clean == (recursiveIsError && errors == 0)
        invariant clean ==> forall s <- symbols[..i] :: s in order
      {
        var r := CheckDeps(symbols[i], all);
        if r.Some? {
          errors := errors + 1;
        }
        assert symbols[..i + 1] == symbols[..i] + [symbols[i]];
      }
      assert symbols[..|symbols|] == symbols;
      rank := map[];
      if clean {
        rank := SortedGivesRanks(model, order);
        RanksExcludeCycles(model, rank);
      }
    }
  }

  /** all symbols the search can meet */
  ghost function Universe(k: Model, symbols: seq<Symbol>): set<Symbol> {
    (set s | s in symbols) + (set s, t | s in k.defs && t in Dependencies(k.defs[s]) :: t)
  }
}
