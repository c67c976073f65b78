/** Where menu_finalize leaves an item: what stands below a menu node depends on that node. */
module Submenus {
  import opened Expressions
  import opened Joins
  import opened Conditions
  import opened Definitions
  import opened MenuTree
  import opened MenuShape
  import opened Menus

  // ----- whatever relation the moves keep holds on the finished tree -----

  /** r relates p to each node of f and every node of f to its children */
  ghost predicate Related(r: (Menu, Menu) -> bool, p: Menu, f: Forest)
    decreases f
  {
    match f
    case Nil => true
    case Node(m, k, rest) => r(p, m) && Related(r, m, k) && Related(r, p, rest)
  }

  /** r holds where items are absorbed, and passes through nodes without a prompt text */
  ghost predicate Kept(it: Items, nodes: set<Menu>, r: (Menu, Menu) -> bool) {
    && (forall p, m :: r(p, m) ==> m in nodes)
    && (forall p, m :: p in nodes && m in nodes && p in it.hasSymbol && it.absorbs(p, m) ==> r(p, m))
    && forall p, k, m :: r(p, k) && k !in it.hasPrompt && r(k, m) ==> r(p, m)
  }

  lemma {:induction false} RelatedAppend(r: (Menu, Menu) -> bool, p: Menu, f: Forest, g: Forest)
    requires Related(r, p, f) && Related(r, p, g)
    ensures Related(r, p, Append(f, g))
  {
    if f.Node? {
      RelatedAppend(r, p, f.rest, g);
    }
  }

  /** the children of a node without a prompt text may move up to its parent */
  lemma {:induction false} RelatedUp(it: Items, nodes: set<Menu>, r: (Menu, Menu) -> bool, p: Menu, m: Menu, k: Forest)
    requires Kept(it, nodes, r) && r(p, m) && m !in it.hasPrompt && Related(r, m, k)
    ensures Related(r, p, k)
  {
    if k.Node? {
      RelatedUp(it, nodes, r, p, m, k.rest);
    }
  }

  lemma {:induction false} FlattenRelated(it: Items, nodes: set<Menu>, r: (Menu, Menu) -> bool, p: Menu, f: Forest)
    requires Kept(it, nodes, r) && Related(r, p, f)
    ensures Related(r, p, Flatten(it, f))
    decreases Count(f)
  {
    match f
    case Nil =>
    case Node(m, k, rest) =>
      if k.Node? && m !in it.hasPrompt {
        RelatedUp(it, nodes, r, p, m, k);
        RelatedAppend(r, p, k, rest);
        AppendFacts(k, rest);
        FlattenRelated(it, nodes, r, p, Append(k, rest));
      } else {
        FlattenRelated(it, nodes, r, p, rest);
      }
  }

  /** menu_finalize on m, whose later siblings are below q */
  lemma {:induction false} FinalizeRelated(it: Items, nodes: set<Menu>, r: (Menu, Menu) -> bool, m: Menu, k: Forest,
                                           rest: Forest, q: Menu)
    requires Kept(it, nodes, r) && m in nodes && Related(r, m, k) && Related(r, q, rest)
    ensures Related(r, m, Finalize(it, m, k, rest).0) && Related(r, q, Finalize(it, m, k, rest).1)
    decreases Count(k) + Count(rest), 1
  {
    if k.Node? {
      FinalizeAllRelated(it, nodes, r, m, k);
      FlattenRelated(it, nodes, r, m, FinalizeAll(it, k));
    } else if m in it.hasSymbol {
      AbsorbRelated(it, nodes, r, m, rest, q);
      FlattenRelated(it, nodes, r, m, Absorb(it, m, rest).0);
    }
  }

  lemma {:induction false} FinalizeAllRelated(it: Items, nodes: set<Menu>, r: (Menu, Menu) -> bool, p: Menu, f: Forest)
    requires Kept(it, nodes, r) && Related(r, p, f)
    ensures Related(r, p, FinalizeAll(it, f))
    decreases Count(f), 0
  {
    if f.Node? {
      FinalizeRelated(it, nodes, r, f.menu, f.kids, f.rest, p);
      FinalizeAllRelated(it, nodes, r, p, Finalize(it, f.menu, f.kids, f.rest).1);
    }
  }

  lemma {:induction false} AbsorbRelated(it: Items, nodes: set<Menu>, r: (Menu, Menu) -> bool, p: Menu, f: Forest, q: Menu)
    requires Kept(it, nodes, r) && p in nodes && p in it.hasSymbol && Related(r, q, f)
    ensures Related(r, p, Absorb(it, p, f).0) && Related(r, q, Absorb(it, p, f).1)
    decreases Count(f), 0
  {
    if f.Node? && it.absorbs(p, f.menu) {
      FinalizeRelated(it, nodes, r, f.menu, f.kids, f.rest, q);
      AbsorbRelated(it, nodes, r, p, Finalize(it, f.menu, f.kids, f.rest).1, q);
    }
  }

  /** on pointers: each node is related to its parent */
  lemma {:induction false} ParentRelated(r: (Menu, Menu) -> bool, h: Links, f: Forest, a: Ptr, p: Menu, e: Ptr)
    requires Chain(h, f, a, p, e) && Related(r, p, f)
    ensures forall m <- Nodes(f) :: m in h.parent && h.parent[m].To? && r(h.parent[m].menu, m)
  {
    if f.Node? {
      ParentRelated(r, h, f.kids, h.list[f.menu], f.menu, Null);
      ParentRelated(r, h, f.rest, h.next[f.menu], p, e);
    }
  }

  // ----- the relation: an item whose condition holds has something above it to belong to -----

  /** a finalised menu node: its symbol, its dependencies and the condition of its prompt, if it has them */
  datatype Entry = Entry(symbol: Option<Symbol>, dep: Option<Expr>, prompt: Option<Option<Expr>>)

  type Entries = Menu -> Entry

  /** the condition of the item, as menu_finalize compares it */
  function ItemCondition(x: Entry): Option<Expr> { if x.prompt.Some? then x.prompt.value else x.dep }

  /** the condition of its prompt; that of no prompt is y */
  function PromptOf(x: Entry): Option<Expr> { if x.prompt.Some? then x.prompt.value else None }

  /** what its children are conditioned on: a choice by its symbol, other nodes by their dependencies */
  function ParentDep(x: Entry): Option<Expr> { if x.symbol.Some? then Some(Sym(x.symbol.value)) else x.dep }

  /** a condition as it is after the pipeline, on bool and tristate symbols */
  predicate IsUsual(e: Option<Expr>) {
    e.Some? ==> NumeralFree(e.value) && NegationsAtSymbols(e.value) && Logical(e.value)
  }

  predicate IsUsualEntry(x: Entry) {
    IsUsual(x.dep) && IsUsual(ItemCondition(x)) && (x.symbol.Some? ==> x.symbol.value.IsLogical())
  }

  predicate IsActive(x: Entry, env: Env) { ValOpt(ItemCondition(x), env) != NO }

  /** no negated symbol in the condition is m */
  predicate IsClear(x: Entry, env: Env) {
    var c := ItemCondition(x);
    c.Some? ==> NegationsDecided(c.value, env)
  }

  /** what an item below x can rely on: the symbol of x or its prompt, or else the dependencies of x */
  predicate IsOpen(x: Entry, env: Env) {
    if x.symbol.Some? then TriOf(x.symbol.value, env) != NO || ValOpt(PromptOf(x), env) != NO
    else ValOpt(x.dep, env) != NO
  }

  /** menu_finalize's question whether the item y goes below the symbol of x */
  method AbsorbsEntry(x: Entry, y: Entry) returns (absorbed: bool)
    requires IsUsualEntry(x) && IsUsualEntry(y) && x.symbol.Some?
    ensures absorbed ==> forall env: Valuation :: IsClear(y, env) && IsActive(y, env) ==> IsOpen(x, env)
    ensures x.prompt.None? ==>
              (absorbed <==> ItemCondition(y).Some? && ContainsSymbol(ItemCondition(y).value, x.symbol.value))
  {
    absorbed := Absorbs(ItemCondition(y), x.symbol.value, PromptOf(x));
  }

  /** What menu_finalize does to a child y of x in the source makes it rely on x. */
  method FinalizeEntry(x: Entry, symbol: Option<Symbol>, dep: Option<Expr>, condition: Option<Option<Expr>>,
                       modules: Symbol, tristate: bool)
    returns (y: Entry)
    requires var d := ParentDep(x); d.Some? ==> NumeralFree(d.value) && NegationsAtSymbols(d.value)
    requires dep.Some? ==> NumeralFree(dep.value)
    requires condition.Some? && condition.value.Some? ==> NumeralFree(condition.value.value)
    ensures y.symbol == symbol && y.prompt.Some? == condition.Some?
    ensures forall env: Valuation :: IsActive(y, env) ==> IsOpen(x, env)
  {
    var l := FinalizeLocation(ParentDep(x), dep, if condition.Some? then [condition.value] else [], modules, tristate);
    y := Entry(symbol, l.dep, if condition.Some? then Some(l.prompts[0]) else None);
    forall env: Valuation | IsActive(y, env) ensures IsOpen(x, env) {
      assert Guarded(l, env) && (condition.Some? ==> l.prompts[0] in l.prompts);
      assert ValOpt(l.dep, env) == Min(ValOpt(ParentDep(x), env), Meant(dep, modules, env));
    }
  }

  /** it and entries speak of the same menu */
  ghost predicate Describes(it: Items, entries: Entries, nodes: set<Menu>) {
    forall m <- nodes ::
      && IsUsualEntry(entries(m)) && (m in it.hasSymbol <==> entries(m).symbol.Some?)
      && (m in it.hasPrompt <==> entries(m).prompt.Some?)
  }

  /** every item taken was taken rightly, as AbsorbsEntry answers */
  ghost predicate Answered(it: Items, entries: Entries, nodes: set<Menu>) {
    forall p, m :: p in nodes && m in nodes && p in it.hasSymbol && it.absorbs(p, m) ==>
      forall env: Valuation :: IsClear(entries(m), env) && IsActive(entries(m), env) ==> IsOpen(entries(p), env)
  }

  /** the nodes of f and their parents, p at the top */
  function Edges(p: Menu, f: Forest): set<(Menu, Menu)>
    decreases f
  {
    match f
    case Nil => {}
    case Node(m, k, rest) => {(p, m)} + Edges(m, k) + Edges(p, rest)
  }

  /** m is a child of p in the source, or the symbol of p takes it */
  ghost predicate IsMove(it: Items, source: set<(Menu, Menu)>, p: Menu, m: Menu) {
    (p, m) in source || (p in it.hasSymbol && it.absorbs(p, m))
  }

  /** such moves lead from the first node to the last, through nodes without a prompt text */
  ghost predicate IsRoute(it: Items, source: set<(Menu, Menu)>, route: seq<Menu>) {
    && |route| > 1 && (forall i :: 0 <= i < |route| - 1 ==> IsMove(it, source, route[i], route[i + 1]))
    && forall i :: 0 < i < |route| - 1 ==> route[i] !in it.hasPrompt
  }

  ghost predicate Leads(it: Items, source: set<(Menu, Menu)>, p: Menu, m: Menu) {
    exists route :: IsRoute(it, source, route) && route[0] == p && route[|route| - 1] == m
  }

  lemma OneMove(it: Items, source: set<(Menu, Menu)>, p: Menu, m: Menu)
    requires IsMove(it, source, p, m)
    ensures Leads(it, source, p, m)
  {
    assert IsRoute(it, source, [p, m]);
  }

  lemma LeadsOn(it: Items, source: set<(Menu, Menu)>, p: Menu, k: Menu, m: Menu)
    requires Leads(it, source, p, k) && k !in it.hasPrompt && Leads(it, source, k, m)
    ensures Leads(it, source, p, m)
  {
    var a :| IsRoute(it, source, a) && a[0] == p && a[|a| - 1] == k;
    var b :| IsRoute(it, source, b) && b[0] == k && b[|b| - 1] == m;
    var ab := a + b[1..];
    forall i | 0 <= i < |ab| - 1 ensures IsMove(it, source, ab[i], ab[i + 1]) {
      if i >= |a| - 1 {
        assert ab[i] == b[i - |a| + 1] && ab[i + 1] == b[i - |a| + 2];
      }
    }
    forall i | 0 < i < |ab| - 1 ensures ab[i] !in it.hasPrompt {
      if i >= |a| - 1 {
        assert ab[i] == b[i - |a| + 1];
      }
    }
    assert IsRoute(it, source, ab);
  }

  /** m has come through a symbol without a prompt */
  ghost predicate IsStray(it: Items, source: set<(Menu, Menu)>, m: Menu) {
    exists h :: h in it.hasSymbol && h !in it.hasPrompt && Leads(it, source, h, m)
  }

  /** m is active only if p is open, for valuations in which no condition has a negated symbol that is m */
  ghost predicate Belongs(entries: Entries, nodes: set<Menu>, p: Menu, m: Menu) {
    forall env: Valuation :: (forall n <- nodes :: IsClear(entries(n), env)) && IsActive(entries(m), env) ==>
      IsOpen(entries(p), env)
  }

  ghost function Belonging(entries: Entries, nodes: set<Menu>): (Menu, Menu) -> bool {
    (p: Menu, m: Menu) => Belongs(entries, nodes, p, m)
  }

  /** what the moves of menu_finalize keep */
  ghost function Placing(it: Items, entries: Entries, nodes: set<Menu>, source: set<(Menu, Menu)>): (Menu, Menu) -> bool {
    (p: Menu, m: Menu) =>
      p in nodes && m in nodes && Leads(it, source, p, m) && (Belongs(entries, nodes, p, m) || IsStray(it, source, m))
  }

  lemma {:induction false} SourcePlaced(it: Items, entries: Entries, nodes: set<Menu>, source: set<(Menu, Menu)>,
                                        p: Menu, f: Forest)
    requires Related(Belonging(entries, nodes), p, f) && p in nodes && Nodes(f) <= nodes && Edges(p, f) <= source
    ensures Related(Placing(it, entries, nodes, source), p, f)
    decreases f
  {
    if f.Node? {
      assert (p, f.menu) in source && f.menu in nodes;
      OneMove(it, source, p, f.menu);
      SourcePlaced(it, entries, nodes, source, f.menu, f.kids);
      SourcePlaced(it, entries, nodes, source, p, f.rest);
    }
  }

  lemma BelongsOn(it: Items, entries: Entries, nodes: set<Menu>, p: Menu, k: Menu, m: Menu)
    requires Describes(it, entries, nodes) && k in nodes && k !in it.hasPrompt && k !in it.hasSymbol
    requires Belongs(entries, nodes, p, k) && Belongs(entries, nodes, k, m)
    ensures Belongs(entries, nodes, p, m)
  {
    forall env: Valuation | (forall n <- nodes :: IsClear(entries(n), env)) && IsActive(entries(m), env)
      ensures IsOpen(entries(p), env)
    {
      assert IsOpen(entries(k), env);
      assert IsActive(entries(k), env);
    }
  }

  lemma StrayOn(it: Items, source: set<(Menu, Menu)>, k: Menu, m: Menu)
    requires k !in it.hasPrompt && (k in it.hasSymbol || IsStray(it, source, k)) && Leads(it, source, k, m)
    ensures IsStray(it, source, m)
  {
    if k !in it.hasSymbol {
      var h :| h in it.hasSymbol && h !in it.hasPrompt && Leads(it, source, h, k);
      LeadsOn(it, source, h, k, m);
    }
  }

  lemma PlacingKept(it: Items, entries: Entries, nodes: set<Menu>, source: set<(Menu, Menu)>)
    requires Describes(it, entries, nodes) && Answered(it, entries, nodes)
    ensures Kept(it, nodes, Placing(it, entries, nodes, source))
  {
    hide Belongs, Leads, IsStray, Describes, IsClear, IsActive, IsOpen;
    var r := Placing(it, entries, nodes, source);
    forall p, m | p in nodes && m in nodes && p in it.hasSymbol && it.absorbs(p, m) ensures r(p, m) {
      OneMove(it, source, p, m);
      AnsweredBelongs(it, entries, nodes, p, m);
    }
    forall p, k, m | r(p, k) && k !in it.hasPrompt && r(k, m) ensures r(p, m) {
      LeadsOn(it, source, p, k, m);
      if !IsStray(it, source, m) {
        if k in it.hasSymbol || IsStray(it, source, k) {
          StrayOn(it, source, k, m);
        } else {
          BelongsOn(it, entries, nodes, p, k, m);
        }
      }
    }
  }

  lemma AnsweredBelongs(it: Items, entries: Entries, nodes: set<Menu>, p: Menu, m: Menu)
    requires Answered(it, entries, nodes) && p in nodes && m in nodes && p in it.hasSymbol && it.absorbs(p, m)
    ensures Belongs(entries, nodes, p, m)
  {
  }

  /** If every child belongs to its parent in the source, then in the finished menu too, wherever an item has been
      moved, it is active only if its parent is open; unless it has come through a symbol without a prompt. */
  method FinalizeMenu(table: MenuTable, it: Items, entries: Entries, ghost nodes: set<Menu>)
    requires table.Valid() && table.finalized == [] && nodes == {ROOT} + Nodes(table.kids)
    requires Describes(it, entries, nodes) && Answered(it, entries, nodes)
    requires Related(Belonging(entries, nodes), ROOT, table.kids)
    modifies table
    ensures table.Valid() && Nodes(table.kids) == old(Nodes(table.kids))
    ensures forall m <- Nodes(table.kids) ::
              && m in table.links.parent && table.links.parent[m].To?
              && (Belongs(entries, nodes, table.links.parent[m].menu, m) || IsStray(it, old(Edges(ROOT, table.kids)), m))
  {
    hide Belongs, Leads, IsStray, Describes, Answered;
    ghost var kids, source := table.kids, Edges(ROOT, table.kids);
    ghost var r := Placing(it, entries, nodes, source);
    PlacingKept(it, entries, nodes, source);
    SourcePlaced(it, entries, nodes, source, ROOT, kids);
    FinalizeRelated(it, nodes, r, ROOT, kids, Nil, ROOT);
    FinalizeCorrect(it, ROOT, kids, Nil);
    table.FinalizeRoot(it);
    SamePreorder(kids, table.kids);
    ParentRelated(r, table.links, table.kids, table.links.list[ROOT], ROOT, Null);
  }

  // ----- what comes through a symbol without a prompt -----

  function TriNamed(name: string): Symbol { Named(name, Tri) }

  /** P, shown if R; K, without a prompt, which depends on P; and M, shown if K or Q */
  function HiddenEntry(m: Menu): Entry {
    if m == 1 then Entry(Some(TriNamed("P")), None, Some(Some(Sym(TriNamed("R")))))
    else if m == 2 then Entry(Some(TriNamed("K")), Some(Sym(TriNamed("P"))), None)
    else if m == 3 then Entry(Some(TriNamed("M")), None, Some(Some(Bin(OpOr, Sym(TriNamed("K")), Sym(TriNamed("Q"))))))
    else Entry(None, None, None)
  }

  /** P takes K, and K takes M */
  function HiddenItems(): Items {
    Items({1, 2, 3}, {1, 3}, (p: Menu, m: Menu) => (p == 1 && m == 2) || (p == 2 && m == 3))
  }

  const HIDDEN_NODES: set<Menu> := {ROOT, 1, 2, 3}
  const M_NODE: Forest := Node(3, Nil, Nil)

  /** A symbol without a prompt takes every item that mentions it, and when its submenu is dissolved they stay below
      its own parent: M ends up below P, and with Q = y and all others n it is active while P is not open. */
  lemma HiddenSymbolTakes()
    ensures
      var it, env := HiddenItems(), Env(map[TriNamed("Q") := YES], map[]);
      var entries: Entries := HiddenEntry;
      var source := Node(1, Nil, Node(2, Nil, M_NODE));
      && Describes(it, entries, HIDDEN_NODES) && Answered(it, entries, HIDDEN_NODES)
      && Related(Belonging(entries, HIDDEN_NODES), ROOT, source)
      && DependsSymbol(ItemCondition(entries(2)).value, TriNamed("P"))
      && entries(2).prompt == None && ContainsSymbol(ItemCondition(entries(3)).value, TriNamed("K"))
      && Finalize(it, ROOT, source, Nil).0 == Node(1, Node(2, Nil, M_NODE), Nil)
      && WellTyped(env) && (forall n <- HIDDEN_NODES :: IsClear(entries(n), env))
      && IsActive(entries(3), env) && !IsOpen(entries(1), env)
  {
    hide Finalize, Belongs;
    HiddenFinalized();
    HiddenDescribed();
    HiddenAnswered();
    TopBelongs(1);
    TopBelongs(2);
    TopBelongs(3);
    HiddenValues();
  }

  lemma HiddenDescribed()
    ensures Describes(HiddenItems(), HiddenEntry, HIDDEN_NODES)
    ensures DependsSymbol(ItemCondition(HiddenEntry(2)).value, TriNamed("P"))
    ensures ContainsSymbol(ItemCondition(HiddenEntry(3)).value, TriNamed("K"))
  {
  }

  lemma HiddenAnswered()
    ensures Answered(HiddenItems(), HiddenEntry, HIDDEN_NODES)
  {
  }

  lemma HiddenValues()
    ensures
      var env := Env(map[TriNamed("Q") := YES], map[]);
      && WellTyped(env) && (forall n <- HIDDEN_NODES :: IsClear(HiddenEntry(n), env))
      && IsActive(HiddenEntry(3), env) && !IsOpen(HiddenEntry(1), env)
  {
    var k, q, env := Sym(TriNamed("K")), Sym(TriNamed("Q")), Env(map[TriNamed("Q") := YES], map[]);
    assert "K" != "Q" && "P" != "Q" && "R" != "Q";
    assert NegationsDecided(k, env) && NegationsDecided(q, env);
    assert NegationsDecided(Bin(OpOr, k, q), env) && Val(Bin(OpOr, k, q), env) == Max(Val(k, env), Val(q, env));
    assert Val(q, env) == YES;
  }

  lemma TopBelongs(m: Menu)
    requires m in {1, 2, 3}
    ensures Belongs(HiddenEntry, HIDDEN_NODES, ROOT, m)
  {
  }

  lemma FinalizedLeaf(it: Items, m: Menu, r: Forest, taken: Forest, left: Forest)
    requires m in it.hasSymbol && Absorb(it, m, r) == (taken, left)
    ensures Finalize(it, m, Nil, r) == (Flatten(it, taken), left)
  {
  }

  lemma AbsorbedLeaf(it: Items, p: Menu, m: Menu, r: Forest, k: Forest, left: Forest)
    requires it.absorbs(p, m) && Finalize(it, m, Nil, r) == (k, left) && Absorb(it, p, left) == (Nil, left)
    ensures Absorb(it, p, Node(m, Nil, r)) == (Node(m, k, Nil), left)
  {
  }

  lemma HiddenFinalized()
    ensures
      Finalize(HiddenItems(), ROOT, Node(1, Nil, Node(2, Nil, M_NODE)), Nil).0 == Node(1, Node(2, Nil, M_NODE), Nil)
  {
    var it, f := HiddenItems(), Node(1, Nil, Node(2, Nil, M_NODE));
    NothingLeft(it);
    FinalizedLeaf(it, 3, Nil, Nil, Nil);
    AbsorbedLeaf(it, 2, 3, Nil, Nil, Nil);
    FlatM();
    FinalizedLeaf(it, 2, M_NODE, M_NODE, Nil);
    AbsorbedLeaf(it, 1, 2, M_NODE, M_NODE, Nil);
    Dissolved();
    FinalizedLeaf(it, 1, Node(2, Nil, M_NODE), Node(2, M_NODE, Nil), Nil);
    FinalizedOne(it, f, Node(2, Nil, M_NODE));
  }

  lemma NothingLeft(it: Items)
    ensures forall p: Menu :: Absorb(it, p, Nil) == (Nil, Nil)
    ensures Flatten(it, Nil) == Nil && FinalizeAll(it, Nil) == Nil
  {
  }

  lemma FlatM()
    ensures Flatten(HiddenItems(), M_NODE) == M_NODE
  {
  }

  lemma Dissolved()
    ensures Flatten(HiddenItems(), Node(2, M_NODE, Nil)) == Node(2, Nil, M_NODE)
  {
    FlatM();
    AppendAssociative(M_NODE, Nil, Nil);
  }

  lemma FinalizedOne(it: Items, f: Forest, k: Forest)
    requires f.Node? && f.kids == Nil && f.menu in it.hasPrompt && Finalize(it, f.menu, Nil, f.rest) == (k, Nil)
    ensures Finalize(it, ROOT, f, Nil).0 == Node(f.menu, k, Nil)
  {
    NothingLeft(it);
    assert FinalizeAll(it, f) == Node(f.menu, k, Nil);
    assert Flatten(it, Node(f.menu, k, Nil)) == Node(f.menu, k, Nil);
  }
}
