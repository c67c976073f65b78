/** The menu tree as the parser builds it and as menu_finalize rearranges it. */
module Menus {
  import opened MenuTree
  import opened MenuBuilding
  import opened MenuShape

  /** g is h except at the nodes in s */
  ghost predicate OnlyChanged(h: Links, g: Links, s: set<Menu>) {
    && h.list.Keys == g.list.Keys && h.next.Keys == g.next.Keys && h.parent.Keys == g.parent.Keys
    && forall m {:trigger SameAt(h, g, m)} :: Allocated(h, m) && m !in s ==> SameAt(h, g, m)
  }

  ghost predicate SameAt(h: Links, g: Links, m: Menu)
    requires Allocated(h, m)
  {
    Allocated(g, m) && g.list[m] == h.list[m] && g.next[m] == h.next[m] && g.parent[m] == h.parent[m]
  }

  lemma ChainElsewhere(h: Links, g: Links, s: set<Menu>, f: Forest, a: Ptr, p: Menu, e: Ptr)
    requires Chain(h, f, a, p, e) && OnlyChanged(h, g, s) && Nodes(f) !! s
    ensures Chain(g, f, a, p, e)
  {
    forall m | m in Nodes(f) && Allocated(h, m)
      ensures Allocated(g, m) && g.list[m] == h.list[m] && g.next[m] == h.next[m] && g.parent[m] == h.parent[m]
    {
      assert SameAt(h, g, m);
    }
    ChainFrame(h, g, f, a, p, e);
  }

  lemma OnlyChangedTwice(h: Links, g: Links, k: Links, s: set<Menu>, t: set<Menu>, u: set<Menu>)
    requires OnlyChanged(h, g, s) && OnlyChanged(g, k, t) && s + t <= u
    ensures OnlyChanged(h, k, u)
  {
    forall m | Allocated(h, m) && m !in u ensures SameAt(h, k, m) {
      assert SameAt(h, g, m) && SameAt(g, k, m);
    }
  }

  /** regrouping the nodes below and after m keeps each in one place */
  lemma Regrouped(m: Menu, k: Forest, r: Forest, k': Forest, r': Forest)
    requires Distinct(Node(m, k, r)) && Preorder(k') + Preorder(r') == Preorder(k) + Preorder(r)
    ensures Nodes(k') + Nodes(r') == Nodes(k) + Nodes(r) && Distinct(Node(m, k', r'))
  {
    PreorderUnder(m, k, r);
    PreorderUnder(m, k', r');
    SamePreorder(Node(m, k, r), Node(m, k', r'));
    WithoutFirst(m, Nodes(k), Nodes(r), Nodes(k'), Nodes(r'));
  }

  lemma PreorderUnder(m: Menu, k: Forest, r: Forest)
    ensures Preorder(Node(m, k, r)) == [m] + (Preorder(k) + Preorder(r))
  {
  }

  lemma WithoutFirst(m: Menu, k: set<Menu>, r: set<Menu>, k': set<Menu>, r': set<Menu>)
    requires {m} + k + r == {m} + k' + r' && m !in k + r && m !in k' + r'
    ensures k' + r' == k + r
  {
    assert k + r == ({m} + k + r) - {m} && k' + r' == ({m} + k' + r') - {m};
  }

  /** what is below and after m before menu_finalize flattens */
  ghost function Submenu(it: Items, m: Menu, k: Forest, r: Forest): (Forest, Forest) {
    if k.Node? then (FinalizeAll(it, k), r) else if m in it.hasSymbol then Absorb(it, m, r) else (Nil, r)
  }

  lemma SubmenuNodes(it: Items, m: Menu, k: Forest, r: Forest)
    requires Distinct(Node(m, k, r))
    ensures
      var (c, left) := Submenu(it, m, k, r);
      && Finalize(it, m, k, r) == (Flatten(it, c), left)
      && Nodes(c) + Nodes(left) == Nodes(k) + Nodes(r) && Distinct(Node(m, c, left))
      && Preorder(Flatten(it, c)) == Preorder(c)
  {
    var (c, left) := Submenu(it, m, k, r);
    FinalizeAllCorrect(it, k);
    AbsorbCorrect(it, m, r);
    FlattenCorrect(it, c);
    Regrouped(m, k, r, c, left);
  }

  lemma FinalizeNodes(it: Items, m: Menu, k: Forest, r: Forest)
    requires Distinct(Node(m, k, r))
    ensures var (k', r') := Finalize(it, m, k, r);
            Nodes(k') + Nodes(r') == Nodes(k) + Nodes(r) && Distinct(Node(m, k', r'))
  {
    FinalizeCorrect(it, m, k, r);
    Regrouped(m, k, r, Finalize(it, m, k, r).0, Finalize(it, m, k, r).1);
  }

  /** The siblings of a loop over a chain: those behind the cursor and those from the cursor on. */
  ghost predicate Halves(h: Links, done: Forest, todo: Forest, a: Ptr, p: Menu, at: Ptr, q: Menu) {
    && Chain(h, done, a, p, at) && Chain(h, todo, at, q, Null)
    && Distinct(done) && Distinct(todo) && Nodes(done) !! Nodes(todo)
  }

  /** Such a loop over the nodes in whole, at or after a node p that it leaves alone; h0 is the state before it. */
  ghost predicate Looping(h0: Links, h: Links, whole: set<Menu>, done: Forest, todo: Forest, a: Ptr, p: Menu, at: Ptr, q: Menu) {
    && OnlyChanged(h0, h, whole) && Halves(h, done, todo, a, p, at, q)
    && Nodes(done) + Nodes(todo) == whole && p !in whole && Allocated(h0, p) && SameAt(h0, h, p)
  }

  /** the node at the cursor, with its children k afterwards, moves behind the cursor */
  lemma AdvanceChain(h: Links, g: Links, done: Forest, todo: Forest, k: Forest, r: Forest, a: Ptr, p: Menu, at: Ptr, q: Menu)
    requires todo.Node? && Chain(h, done, a, p, at) && at == To(todo.menu) && OnlyChanged(h, g, Nodes(todo))
    requires Nodes(done) !! Nodes(todo)
    requires Allocated(g, todo.menu) && g.parent[todo.menu] == To(p)
    requires Chain(g, k, g.list[todo.menu], todo.menu, Null)
    ensures Chain(g, Append(done, Node(todo.menu, k, Nil)), a, p, g.next[todo.menu])
  {
    var n := Node(todo.menu, k, Nil);
    ChainElsewhere(h, g, Nodes(todo), done, a, p, at);
    assert Chain(g, Nil, g.next[todo.menu], p, g.next[todo.menu]);
    assert Chain(g, n, at, p, g.next[todo.menu]);
    ChainAppend(g, done, n, a, at, p, g.next[todo.menu]);
  }

  lemma AdvanceNodes(done: Forest, todo: Forest, k: Forest, r: Forest)
    requires todo.Node? && Distinct(done) && Distinct(Node(todo.menu, k, r)) && Nodes(done) !! Nodes(todo)
    requires Nodes(k) + Nodes(r) == Nodes(todo.kids) + Nodes(todo.rest)
    ensures
      var f := Append(done, Node(todo.menu, k, Nil));
      && Distinct(f) && Nodes(f) !! Nodes(r) && Nodes(f) + Nodes(r) == Nodes(done) + Nodes(todo)
      && Preorder(f) == Preorder(done) + ([todo.menu] + Preorder(k))
  {
    var n := Node(todo.menu, k, Nil);
    AppendFacts(done, n);
    AppendDistinct(done, n);
    PreorderUnder(todo.menu, k, Nil);
    assert Nodes(todo) == {todo.menu} + Nodes(todo.kids) + Nodes(todo.rest);
    assert Nodes(n) == {todo.menu} + Nodes(k) + {};
    Shift(todo.menu, Nodes(done), Nodes(todo), Nodes(k), Nodes(r));
  }

  lemma Shift(m: Menu, d: set<Menu>, t: set<Menu>, k: set<Menu>, r: set<Menu>)
    requires t == {m} + (k + r) && d !! t && m !in k + r && k !! r
    ensures d !! {m} + k + {} && d + ({m} + k + {}) !! r && d + ({m} + k + {}) + r == d + t
  {
  }

  /** one step of such a loop */
  lemma Advance(h0: Links, h: Links, g: Links, whole: set<Menu>, done: Forest, todo: Forest, k: Forest, r: Forest,
                a: Ptr, p: Menu, at: Ptr, q: Menu)
    requires todo.Node? && Looping(h0, h, whole, done, todo, a, p, at, q) && OnlyChanged(h, g, Nodes(todo))
    requires Distinct(Node(todo.menu, k, r)) && Nodes(k) + Nodes(r) == Nodes(todo.kids) + Nodes(todo.rest)
    requires Allocated(g, todo.menu) && g.parent[todo.menu] == To(p)
    requires Chain(g, k, g.list[todo.menu], todo.menu, Null) && Chain(g, r, g.next[todo.menu], q, Null)
    ensures Looping(h0, g, whole, Append(done, Node(todo.menu, k, Nil)), r, a, p, g.next[todo.menu], q)
    ensures Preorder(Append(done, Node(todo.menu, k, Nil))) == Preorder(done) + ([todo.menu] + Preorder(k))
  {
    assert SameAt(h0, h, p) && SameAt(h, g, p);
    AdvanceChain(h, g, done, todo, k, r, a, p, at, q);
    AdvanceNodes(done, todo, k, r);
    OnlyChangedTwice(h0, h, g, whole, Nodes(todo), whole);
  }

  /** a node taken out of the siblings below q: its parent pointer is set to p */
  lemma Moved(before: Links, h: Links, g: Links, todo: Forest, k: Forest, r: Forest, q: Menu, p: Menu)
    requires todo.Node? && Distinct(Node(todo.menu, k, r)) && Nodes(k) + Nodes(r) == Nodes(todo.kids) + Nodes(todo.rest)
    requires OnlyChanged(before, h, Nodes(todo)) && Allocated(h, todo.menu)
    requires Chain(h, k, h.list[todo.menu], todo.menu, Null) && Chain(h, r, h.next[todo.menu], q, Null)
    requires g == h.(parent := h.parent[todo.menu := To(p)])
    ensures OnlyChanged(before, g, Nodes(todo))
    ensures Chain(g, k, g.list[todo.menu], todo.menu, Null) && Chain(g, r, g.next[todo.menu], q, Null)
  {
    hide Chain;
    assert OnlyChanged(h, g, {todo.menu});
    assert {todo.menu} <= Nodes(todo) && Nodes(k) !! {todo.menu} && Nodes(r) !! {todo.menu};
    hide *;
    OnlyChangedTwice(before, h, g, Nodes(todo), {todo.menu}, Nodes(todo));
    ChainElsewhere(h, g, {todo.menu}, k, h.list[todo.menu], todo.menu, Null);
    ChainElsewhere(h, g, {todo.menu}, r, h.next[todo.menu], q, Null);
  }

  lemma Associates(a: seq<Menu>, b: seq<Menu>, c: seq<Menu>)
    ensures a + b + c == a + (b + c)
  {
  }

  /** one step of the loop over children */
  lemma ChildFinalized(it: Items, h0: Links, h: Links, g: Links, whole: set<Menu>, done: Forest, todo: Forest,
                       a: Ptr, p: Menu, at: Ptr)
    requires todo.Node? && Looping(h0, h, whole, done, todo, a, p, at, p)
    requires Allocated(g, todo.menu) && g.parent[todo.menu] == h.parent[todo.menu]
    requires var (k, r) := Finalize(it, todo.menu, todo.kids, todo.rest);
             Chain(g, k, g.list[todo.menu], todo.menu, Null) && Chain(g, r, g.next[todo.menu], p, Null)
    requires OnlyChanged(h, g, Nodes(todo))
    ensures
      var (k, r) := Finalize(it, todo.menu, todo.kids, todo.rest);
      && Looping(h0, g, whole, Append(done, Node(todo.menu, k, Nil)), r, a, p, g.next[todo.menu], p)
      && Preorder(Append(done, Node(todo.menu, k, Nil))) == Preorder(done) + ([todo.menu] + Preorder(k))
  {
    var (k, r) := Finalize(it, todo.menu, todo.kids, todo.rest);
    FinalizeNodes(it, todo.menu, todo.kids, todo.rest);
    Advance(h0, h, g, whole, done, todo, k, r, a, p, at, p);
  }

  /** one step of the loop over the items after p: g is the state before the parent pointer is set */
  lemma ItemAbsorbed(it: Items, h0: Links, h: Links, g: Links, g': Links, whole: set<Menu>, done: Forest, todo: Forest,
                     a: Ptr, p: Menu, at: Ptr, q: Menu)
    requires todo.Node? && Looping(h0, h, whole, done, todo, a, p, at, q) && Allocated(g, todo.menu)
    requires g' == g.(parent := g.parent[todo.menu := To(p)])
    requires var (k, r) := Finalize(it, todo.menu, todo.kids, todo.rest);
             Chain(g, k, g.list[todo.menu], todo.menu, Null) && Chain(g, r, g.next[todo.menu], q, Null)
    requires OnlyChanged(h, g, Nodes(todo))
    ensures
      var (k, r) := Finalize(it, todo.menu, todo.kids, todo.rest);
      && Looping(h0, g', whole, Append(done, Node(todo.menu, k, Nil)), r, a, p, g.next[todo.menu], q)
      && Preorder(Append(done, Node(todo.menu, k, Nil))) == Preorder(done) + ([todo.menu] + Preorder(k))
  {
    var (k, r) := Finalize(it, todo.menu, todo.kids, todo.rest);
    FinalizeNodes(it, todo.menu, todo.kids, todo.rest);
    Moved(h, g, g', todo, k, r, q, p);
    Advance(h0, h, g', whole, done, todo, k, r, a, p, at, q);
  }

  lemma {:induction false} LastNext(h: Links, f: Forest, a: Ptr, p: Menu, e: Ptr)
    requires f.Node? && Chain(h, f, a, p, e)
    ensures Allocated(h, Last(f)) && h.next[Last(f)] == e
  {
    if f.rest.Node? {
      LastNext(h, f.rest, h.next[f.menu], p, e);
    }
  }

  lemma {:induction false} LastOfAppend(f: Forest, n: Forest)
    requires n.Node? && n.rest.Nil?
    ensures Append(f, n).Node? && Last(Append(f, n)) == n.menu
  {
    if f.Node? {
      LastOfAppend(f.rest, n);
    }
  }

  /** the siblings done after p become its children, the siblings after those its next siblings */
  lemma Detach(h: Links, done: Forest, todo: Forest, p: Menu, at: Ptr, q: Menu)
    requires Allocated(h, p) && p !in Nodes(done) && p !in Nodes(todo) && done.Node?
    requires Halves(h, done, todo, h.next[p], p, at, q) && Last(done) in h.next && h.next[Last(done)] == at
    ensures
      var g := h.(list := h.list[p := h.next[p]], next := h.next[p := at][Last(done) := Null]);
      && Chain(g, done, g.list[p], p, Null) && Chain(g, todo, g.next[p], q, Null)
      && OnlyChanged(h, g, {p} + Nodes(done))
  {
    LastIn(done);
    var g := h.(list := h.list[p := h.next[p]], next := h.next[p := at][Last(done) := Null]);
    var k := h.(next := h.next[Last(done) := Null]);
    ChainRedirect(h, done, h.next[p], p, at, Null);
    assert OnlyChanged(k, g, {p});
    ChainElsewhere(k, g, {p}, done, h.next[p], p, Null);
    ChainElsewhere(h, g, {p, Last(done)}, todo, at, q, Null);
  }

  /** the first node after one step of flattening: its children and what follows it */
  ghost function Opened(it: Items, f: Forest): (x: (Forest, Forest))
    requires f.Node?
    ensures Flatten(it, f) == Node(f.menu, x.0, Flatten(it, x.1)) && Count(x.1) < Count(f)
  {
    AppendFacts(f.kids, f.rest);
    if f.kids.Node? && f.menu !in it.hasPrompt then (Nil, Append(f.kids, f.rest)) else (f.kids, f.rest)
  }

  lemma OpenedNodes(it: Items, f: Forest)
    requires f.Node? && Distinct(f)
    ensures
      var (k, r) := Opened(it, f);
      Distinct(Node(f.menu, k, r)) && Nodes(k) + Nodes(r) == Nodes(f.kids) + Nodes(f.rest)
  {
    AppendFacts(f.kids, f.rest);
    AppendDistinct(f.kids, f.rest);
  }

  ghost function SplicedLinks(h: Links, m: Menu, last: Menu): Links
    requires Allocated(h, m)
  {
    h.(list := h.list[m := Null], next := h.next[last := h.next[m]][m := h.list[m]])
  }

  /** the children k of m between m and its next siblings r */
  lemma Spliced(h: Links, m: Menu, p: Menu, k: Forest, r: Forest)
    requires Allocated(h, m) && Distinct(Node(m, k, r)) && k.Node? && Allocated(h, Last(k))
    requires Chain(h, k, h.list[m], p, Null) && Chain(h, r, h.next[m], p, Null)
    ensures
      var g := SplicedLinks(h, m, Last(k));
      OnlyChanged(h, g, {m} + Nodes(k)) && Chain(g, Append(k, r), g.next[m], p, Null)
  {
    var last := Last(k);
    var g, linked := SplicedLinks(h, m, last), h.(next := h.next[last := h.next[m]]);
    LastIn(k);
    ChainRedirect(h, k, h.list[m], p, Null, h.next[m]);
    ChainElsewhere(linked, g, {m}, k, h.list[m], p, h.next[m]);
    ChainElsewhere(h, g, {m, last}, r, h.next[m], p, Null);
    ChainAppend(g, k, r, h.list[m], h.next[m], p, Null);
  }

  lemma SubmenuFlattened(it: Items, h0: Links, h: Links, g: Links, p: Menu, k: Forest, r: Forest, q: Menu)
    requires Distinct(Node(p, k, r)) && Allocated(h, p)
    requires OnlyChanged(h0, h, Nodes(Node(p, k, r))) && OnlyChanged(h, g, Nodes(Submenu(it, p, k, r).0))
    requires Chain(h, Submenu(it, p, k, r).1, h.next[p], q, Null)
    ensures OnlyChanged(h0, g, Nodes(Node(p, k, r))) && Allocated(g, p) && g.parent[p] == h.parent[p]
    ensures Chain(g, Submenu(it, p, k, r).1, g.next[p], q, Null)
  {
    var (c, left) := Submenu(it, p, k, r);
    SubmenuNodes(it, p, k, r);
    assert SameAt(h, g, p);
    ChainElsewhere(h, g, Nodes(c), left, h.next[p], q, Null);
    OnlyChangedTwice(h0, h, g, Nodes(Node(p, k, r)), Nodes(c), Nodes(Node(p, k, r)));
  }

  /** one step of the loop over the items after p, for the functions on forests */
  lemma AbsorbStep(it: Items, p: Menu, done: Forest, f: Forest)
    requires f.Node? && it.absorbs(p, f.menu)
    ensures
      var (k, r) := Finalize(it, f.menu, f.kids, f.rest);
      var done' := Append(done, Node(f.menu, k, Nil));
      && Append(done', Absorb(it, p, r).0) == Append(done, Absorb(it, p, f).0)
      && Absorb(it, p, r).1 == Absorb(it, p, f).1 && Count(r) < Count(f)
      && done'.Node? && Last(done') == f.menu
  {
    var (k, r) := Finalize(it, f.menu, f.kids, f.rest);
    AppendAssociative(done, Node(f.menu, k, Nil), Absorb(it, p, r).0);
    LastOfAppend(done, Node(f.menu, k, Nil));
  }

  /** the entries in the order in which they are added */
  function Numbers(n: nat): (s: seq<Menu>)
    ensures |s| == n
  {
    if n == 0 then [] else Numbers(n - 1) + [n]
  }

  lemma {:induction false} NumbersIn(n: nat)
    ensures forall m :: m in Numbers(n) <==> 1 <= m <= n
  {
    if n > 0 {
      NumbersIn(n - 1);
    }
  }

  lemma FinalizedRoot(it: Items, k: Forest)
    ensures Finalize(it, ROOT, k, Nil).1 == Nil && Preorder(Finalize(it, ROOT, k, Nil).0) == Preorder(k)
  {
    FinalizeCorrect(it, ROOT, k, Nil);
    assert Absorb(it, ROOT, Nil) == (Nil, Nil);
    var (k', r') := Finalize(it, ROOT, k, Nil);
    assert r' == Nil && Preorder(k') + Preorder(r') == Preorder(k') && Preorder(k) + Preorder(Nil) == Preorder(k);
  }

  /** h holds the pointers of a tree of n entries below the root, with children k, in source order */
  ghost predicate SourceTree(h: Links, k: Forest, n: nat) {
    && Allocated(h, ROOT) && h.next[ROOT] == Null && h.parent[ROOT] == Null
    && Chain(h, k, h.list[ROOT], ROOT, Null) && ROOT !in Nodes(k) && Distinct(k)
    && Preorder(k) == Numbers(n)
  }

  lemma EntryAdded(h: Links, k: Forest, n: nat, slot: Slot, current: Menu, entry: Menu)
    requires SourceTree(h, k, n) && Position(k, ROOT, slot, current, entry)
    ensures SourceTree(Added(h, slot, current, n + 1), Insert(k, slot, n + 1), n + 1)
    ensures Position(Insert(k, slot, n + 1), ROOT, NextOf(n + 1), current, n + 1)
  {
    assert n + 1 !in Nodes(k) by {
      NumbersIn(n);
      PreorderFacts(k);
    }
    InsertLast(k, ROOT, slot, current, entry, n + 1);
    InsertChain(h, k, h.list[ROOT], ROOT, slot, current, entry, n + 1);
    SlotInside(k, ROOT, slot, current, entry);
    AfterInsert(k, ROOT, slot, current, entry, n + 1);
  }

  class MenuTable {
    /** the pointers of every menu node */
    var links: Links

    /** the parser's position: current_menu, current_entry and last_entry_ptr */
    var currentMenu: Menu
    var currentEntry: Menu
    var lastEntry: Slot

    /** how many entries were added, besides the root menu */
    var entries: nat

    /** the children of the root menu, and the nodes menu_finalize was called on, in order */
    ghost var kids: Forest
    ghost var finalized: seq<Menu>

    /** The pointers are those of a tree: kids below the root, in source order. */
    ghost predicate Valid()
      reads this
    {
      SourceTree(links, kids, entries)
    }

    /** the parser is at work: its position is one in the tree */
    ghost predicate Building()
      reads this
    {
      Valid() && Position(kids, ROOT, lastEntry, currentMenu, currentEntry)
    }

    /** _menu_init */
    constructor ()
      ensures Building() && entries == 0 && currentMenu == ROOT && finalized == []
    {
      links := Links(map[ROOT := Null], map[ROOT := Null], map[ROOT := Null]);
      currentMenu, currentEntry, lastEntry, entries := ROOT, ROOT, ListOf(ROOT), 0;
      kids, finalized := Nil, [];
    }

    /** menu_add_entry: the new node comes last in source order, below the current menu. */
    method AddEntry()
      requires Building()
      modifies this
      ensures Building() && entries == old(entries) + 1 && currentEntry == entries
      ensures currentMenu == old(currentMenu) && links == Added(old(links), old(lastEntry), currentMenu, entries)
      ensures finalized == old(finalized)
    {
      entries := entries + 1;
      EntryAdded(links, kids, old(entries), lastEntry, currentMenu, currentEntry);
      kids := Insert(kids, lastEntry, entries);
      links := Added(links, lastEntry, currentMenu, entries);
      lastEntry := NextOf(entries);
      currentEntry := entries;
    }

    /** menu_add_menu: entries now go below the one added last. */
    method AddMenu()
      requires Building()
      modifies this`lastEntry, this`currentMenu
      ensures Building() && currentMenu == currentEntry && lastEntry == ListOf(currentEntry)
    {
      EntryIsLatest(kids, ROOT, lastEntry, currentMenu, currentEntry);
      AtLatest(kids, ROOT);
      lastEntry := ListOf(currentEntry);
      currentMenu := currentEntry;
    }

    /** menu_end_menu: entries now go after the current menu. */
    method EndMenu()
      requires Building() && currentMenu != ROOT
      modifies this`lastEntry, this`currentMenu
      ensures Building() && lastEntry == NextOf(old(currentMenu))
      ensures old(currentMenu) in links.parent && links.parent[old(currentMenu)] == To(currentMenu)
    {
      LeaveMenu(links, kids, links.list[ROOT], ROOT, lastEntry, currentMenu, currentEntry);
      lastEntry := NextOf(currentMenu);
      currentMenu := links.parent[currentMenu].menu;
    }

    /** menu_finalize on the root menu, whatever the items look like: the tree still lists all entries in source
        order, children are only below entries with a prompt text, and each node was finalised once, also in
        source order. */
    method FinalizeRoot(it: Items)
      requires Valid() && finalized == []
      modifies this
      ensures Valid() && entries == old(entries) && Prompted(it, kids)
      ensures kids == Finalize(it, ROOT, old(kids), Nil).0
      ensures finalized == [ROOT] + Numbers(entries)
    {
      FinalizeMenu(it, ROOT, kids, Nil, ROOT);
      FinalizeCorrect(it, ROOT, kids, Nil);
      FinalizeNodes(it, ROOT, kids, Nil);
      FinalizedRoot(it, kids);
      kids := Finalize(it, ROOT, kids, Nil).0;
    }

    /** menu_finalize on p, which has children k and later siblings r below q. */
    method FinalizeMenu(it: Items, p: Menu, ghost k: Forest, ghost r: Forest, ghost q: Menu)
      requires Allocated(links, p) && Distinct(Node(p, k, r))
      requires Chain(links, k, links.list[p], p, Null) && Chain(links, r, links.next[p], q, Null)
      modifies this`links, this`finalized
      ensures Allocated(links, p) && links.parent[p] == old(links.parent[p])
      ensures Chain(links, Finalize(it, p, k, r).0, links.list[p], p, Null)
      ensures Chain(links, Finalize(it, p, k, r).1, links.next[p], q, Null)
      ensures OnlyChanged(old(links), links, Nodes(Node(p, k, r)))
      ensures finalized == old(finalized) + ([p] + Preorder(Finalize(it, p, k, r).0))
      decreases Count(k) + Count(r), 4
    {
      finalized := finalized + [p];
      FinalizeBelow(it, p, k, r, q);
      Associates(old(finalized), [p], Preorder(Submenu(it, p, k, r).0));
      ghost var between := links;
      SubmenuNodes(it, p, k, r);
      FlattenChildren(it, p, Submenu(it, p, k, r).0);
      SubmenuFlattened(it, old(links), between, links, p, k, r, q);
    }

    /** the part of menu_finalize before the flattening */
    method FinalizeBelow(it: Items, p: Menu, ghost k: Forest, ghost r: Forest, ghost q: Menu)
      requires Allocated(links, p) && Distinct(Node(p, k, r))
      requires Chain(links, k, links.list[p], p, Null) && Chain(links, r, links.next[p], q, Null)
      modifies this`links, this`finalized
      ensures Allocated(links, p) && links.parent[p] == old(links.parent[p])
      ensures Chain(links, Submenu(it, p, k, r).0, links.list[p], p, Null)
      ensures Chain(links, Submenu(it, p, k, r).1, links.next[p], q, Null)
      ensures OnlyChanged(old(links), links, Nodes(Node(p, k, r)))
      ensures finalized == old(finalized) + Preorder(Submenu(it, p, k, r).0)
      decreases Count(k) + Count(r), 3
    {
      if links.list[p] != Null {
        FinalizeChildren(it, p, k);
        assert SameAt(old(links), links, p);
        ChainElsewhere(old(links), links, Nodes(k), r, links.next[p], q, Null);
      } else if p in it.hasSymbol {
        AbsorbItems(it, p, r, q);
      }
    }

    /** the loop that finalises the children of p one by one */
    method FinalizeChildren(it: Items, p: Menu, ghost k: Forest)
      requires Allocated(links, p) && p !in Nodes(k) && Distinct(k) && Chain(links, k, links.list[p], p, Null)
      modifies this`links, this`finalized
      ensures OnlyChanged(old(links), links, Nodes(k)) && Allocated(links, p) && links.list[p] == old(links.list[p])
      ensures Chain(links, FinalizeAll(it, k), links.list[p], p, Null)
      ensures finalized == old(finalized) + Preorder(FinalizeAll(it, k))
      decreases Count(k), 1
    {
      var menu := links.list[p];
      ghost var done, todo := Nil, k;
      while menu != Null
        invariant Looping(old(links), links, Nodes(k), done, todo, old(links.list[p]), p, menu, p)
        invariant Append(done, FinalizeAll(it, todo)) == FinalizeAll(it, k) && Count(todo) <= Count(k)
        invariant finalized == old(finalized) + Preorder(done)
        decreases Count(todo)
      {
        ghost var (c, left) := Finalize(it, todo.menu, todo.kids, todo.rest);
        FinalizeChild(it, menu.menu, p, old(links), Nodes(k), done, todo, old(links.list[p]), old(finalized));
        AppendAssociative(done, Node(todo.menu, c, Nil), FinalizeAll(it, left));
        done, todo := Append(done, Node(todo.menu, c, Nil)), left;
        menu := links.next[menu.menu];
      }
      AppendAssociative(done, Nil, Nil);
    }

    /** its body */
    method FinalizeChild(it: Items, menu: Menu, p: Menu, ghost h0: Links, ghost whole: set<Menu>, ghost done: Forest,
                         ghost todo: Forest, ghost a: Ptr, ghost log: seq<Menu>)
      requires todo.Node? && Looping(h0, links, whole, done, todo, a, p, To(menu), p)
      requires finalized == log + Preorder(done)
      modifies this`links, this`finalized
      ensures
        var (c, left) := Finalize(it, menu, todo.kids, todo.rest);
        && Allocated(links, menu)
        && Looping(h0, links, whole, Append(done, Node(menu, c, Nil)), left, a, p, links.next[menu], p)
        && finalized == log + Preorder(Append(done, Node(menu, c, Nil)))
      decreases Count(todo), 0
    {
      FinalizeMenu(it, menu, todo.kids, todo.rest, p);
      ChildFinalized(it, h0, old(links), links, whole, done, todo, a, p, To(menu));
      Associates(log, Preorder(done), [menu] + Preorder(Finalize(it, menu, todo.kids, todo.rest).0));
    }

    /** the items that go into the submenu of p, and its relinking */
    method AbsorbItems(it: Items, p: Menu, ghost r: Forest, ghost q: Menu)
      requires Allocated(links, p) && Distinct(Node(p, Nil, r)) && links.list[p] == Null
      requires Chain(links, r, links.next[p], q, Null)
      modifies this`links, this`finalized
      ensures Allocated(links, p) && links.parent[p] == old(links.parent[p])
      ensures Chain(links, Absorb(it, p, r).0, links.list[p], p, Null)
      ensures Chain(links, Absorb(it, p, r).1, links.next[p], q, Null)
      ensures OnlyChanged(old(links), links, {p} + Nodes(r))
      ensures finalized == old(finalized) + Preorder(Absorb(it, p, r).0)
      decreases Count(r), 2
    {
      var last := AbsorbLoop(it, p, r, q);
      ghost var done, todo := Absorb(it, p, r).0, Absorb(it, p, r).1;
      if last != Null {
        ghost var between := links;
        links := links.(list := links.list[p := links.next[p]]);
        links := links.(next := links.next[p := links.next[last.menu]]);
        links := links.(next := links.next[last.menu := Null]);
        Detach(between, done, todo, p, between.next[last.menu], q);
        OnlyChangedTwice(old(links), between, links, Nodes(r), {p} + Nodes(done), {p} + Nodes(r));
      } else {
        OnlyChangedTwice(old(links), links, links, Nodes(r), {}, {p} + Nodes(r));
      }
    }

    /** the loop over the items after p; the last one that goes into the submenu */
    method AbsorbLoop(it: Items, p: Menu, ghost r: Forest, ghost q: Menu) returns (last: Ptr)
      requires Allocated(links, p) && Distinct(Node(p, Nil, r)) && Chain(links, r, links.next[p], q, Null)
      modifies this`links, this`finalized
      ensures
        var (done, todo) := Absorb(it, p, r);
        && (last == if done.Nil? then Null else To(Last(done))) && (last.To? ==> last.menu in links.next)
        && Looping(old(links), links, Nodes(r), done, todo, old(links.next[p]), p,
                   if last == Null then old(links.next[p]) else links.next[last.menu], q)
        && finalized == old(finalized) + Preorder(done)
      decreases Count(r), 1
    {
      var menu;
      menu, last := links.next[p], Null;
      ghost var done, todo := Nil, r;
      while menu != Null && it.absorbs(p, menu.menu)
        invariant Looping(old(links), links, Nodes(r), done, todo, old(links.next[p]), p, menu, q)
        invariant Append(done, Absorb(it, p, todo).0) == Absorb(it, p, r).0
        invariant Absorb(it, p, todo).1 == Absorb(it, p, r).1 && Count(todo) <= Count(r)
        invariant last == if done.Nil? then Null else To(Last(done))
        invariant if last == Null then menu == old(links.next[p]) else last.menu in links.next && menu == links.next[last.menu]
        invariant finalized == old(finalized) + Preorder(done)
        decreases Count(todo)
      {
        ghost var (c, left) := Finalize(it, todo.menu, todo.kids, todo.rest);
        AbsorbItem(it, menu.menu, p, q, old(links), Nodes(r), done, todo, old(links.next[p]), old(finalized));
        AbsorbStep(it, p, done, todo);
        done, todo := Append(done, Node(todo.menu, c, Nil)), left;
        last := menu;
        menu := links.next[menu.menu];
      }
      AppendAssociative(done, Nil, Nil);
    }

    /** its body */
    method AbsorbItem(it: Items, menu: Menu, p: Menu, ghost q: Menu, ghost h0: Links, ghost whole: set<Menu>,
                      ghost done: Forest, ghost todo: Forest, ghost a: Ptr, ghost log: seq<Menu>)
      requires todo.Node? && Looping(h0, links, whole, done, todo, a, p, To(menu), q)
      requires finalized == log + Preorder(done)
      modifies this`links, this`finalized
      ensures
        var (c, left) := Finalize(it, menu, todo.kids, todo.rest);
        && Allocated(links, menu)
        && Looping(h0, links, whole, Append(done, Node(menu, c, Nil)), left, a, p, links.next[menu], q)
        && finalized == log + Preorder(Append(done, Node(menu, c, Nil)))
      decreases Count(todo), 0
    {
      FinalizeMenu(it, menu, todo.kids, todo.rest, q);
      ghost var between := links;
      links := links.(parent := links.parent[menu := To(p)]);
      ItemAbsorbed(it, h0, old(links), between, links, whole, done, todo, a, p, To(menu), q);
      Associates(log, Preorder(done), [menu] + Preorder(Finalize(it, menu, todo.kids, todo.rest).0));
    }

    /** the loop that makes the children of nodes without a prompt text their next siblings */
    method FlattenChildren(it: Items, p: Menu, ghost c: Forest)
      requires Allocated(links, p) && p !in Nodes(c) && Distinct(c) && Chain(links, c, links.list[p], p, Null)
      modifies this`links
      ensures OnlyChanged(old(links), links, Nodes(c)) && Allocated(links, p) && links.list[p] == old(links.list[p])
      ensures Chain(links, Flatten(it, c), links.list[p], p, Null)
    {
      var menu := links.list[p];
      ghost var done, todo := Nil, c;
      while menu != Null
        invariant Looping(old(links), links, Nodes(c), done, todo, old(links.list[p]), p, menu, p)
        invariant Append(done, Flatten(it, todo)) == Flatten(it, c)
        decreases Count(todo)
      {
        ghost var (k, r) := Opened(it, todo);
        FlattenNode(it, menu.menu, p, old(links), Nodes(c), done, todo, old(links.list[p]));
        AppendAssociative(done, Node(todo.menu, k, Nil), Flatten(it, r));
        done, todo := Append(done, Node(todo.menu, k, Nil)), r;
        menu := links.next[menu.menu];
      }
      AppendAssociative(done, Nil, Nil);
    }

    /** its body */
    method FlattenNode(it: Items, menu: Menu, p: Menu, ghost h0: Links, ghost whole: set<Menu>, ghost done: Forest,
                       ghost todo: Forest, ghost a: Ptr)
      requires todo.Node? && Looping(h0, links, whole, done, todo, a, p, To(menu), p)
      modifies this`links
      ensures
        var (k, r) := Opened(it, todo);
        && Allocated(links, menu)
        && Looping(h0, links, whole, Append(done, Node(menu, k, Nil)), r, a, p, links.next[menu], p)
    {
      ghost var (k, r) := (todo.kids, todo.rest);
      assert Chain(links, k, links.list[menu], menu, Null) && Chain(links, r, links.next[menu], p, Null);
      if links.list[menu] != Null && menu !in it.hasPrompt {
        Splice(menu, p, todo.kids, todo.rest);
      }
      OpenedNodes(it, todo);
      Advance(h0, old(links), links, whole, done, todo, Opened(it, todo).0, Opened(it, todo).1, a, p, To(menu), p);
    }

    /** the children k of m go between m and its next sibling */
    method Splice(m: Menu, p: Menu, ghost k: Forest, ghost r: Forest)
      requires Allocated(links, p) && p !in Nodes(k) && Allocated(links, m) && Distinct(Node(m, k, r)) && links.list[m] != Null
      requires Chain(links, k, links.list[m], m, Null) && Chain(links, r, links.next[m], p, Null)
      modifies this`links
      ensures OnlyChanged(old(links), links, {m} + Nodes(k))
      ensures Allocated(links, m) && links.list[m] == Null && links.parent[m] == old(links.parent[m])
      ensures Chain(links, Append(k, r), links.next[m], p, Null)
    {
      var first := links.list[m].menu;
      var last := Reparent(first, p, k, m);
      assert SameAt(old(links), links, m);
      ChainElsewhere(old(links), links, Nodes(k), r, links.next[m], p, Null);
      LastNext(links, k, links.list[m], p, Null);
      Spliced(links, m, p, k, r);
      OnlyChangedTwice(old(links), links, SplicedLinks(links, m, last), Nodes(k), {m} + Nodes(k), {m} + Nodes(k));
      links := links.(next := links.next[last := links.next[m]]);
      links := links.(next := links.next[m := links.list[m]]);
      links := links.(list := links.list[m := Null]);
    }

    /** the loop that gives a chain of siblings a new parent; its last node */
    method Reparent(first: Menu, p: Menu, ghost k: Forest, ghost q: Menu) returns (last: Menu)
      requires k.Node? && Distinct(k) && Chain(links, k, To(first), q, Null) && Allocated(links, p) && p !in Nodes(k)
      modifies this`links
      ensures OnlyChanged(old(links), links, Nodes(k))
      ensures Chain(links, k, To(first), p, Null) && last == Last(k)
    {
      last := first;
      ghost var done, todo := Nil, k;
      while true
        invariant todo.Node? && Append(done, todo) == k
        invariant Looping(old(links), links, Nodes(k), done, todo, To(first), p, To(last), q)
        decreases Count(todo)
      {
        ghost var before := links;
        links := links.(parent := links.parent[last := To(p)]);
        Moved(before, before, links, todo, todo.kids, todo.rest, q, p);
        Advance(old(links), before, links, Nodes(k), done, todo, todo.kids, todo.rest, To(first), p, To(last), q);
        AppendAssociative(done, Node(todo.menu, todo.kids, Nil), todo.rest);
        LastOfAppend(done, Node(todo.menu, todo.kids, Nil));
        done, todo := Append(done, Node(todo.menu, todo.kids, Nil)), todo.rest;
        if links.next[last] == Null { break; }
        last := links.next[last].menu;
      }
      AppendAssociative(done, Nil, Nil);
    }
  }
}
