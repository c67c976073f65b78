/** The loops of confdata.c that walk the menu tree along its pointers and write the configuration. */
module MenuWalk {
  import opened MenuTree
  import opened Menus

  /** what a menu node is about: a symbol, a choice, or else a menu or a comment */
  datatype Subject = OfSymbol(symbol: nat) | OfChoice | OfText(isMenu: bool)

  /** The nodes' subjects, which of them are visible, and which symbols have SYMBOL_WRITE set once calculated. */
  datatype Contents = Contents(subject: Menu -> Subject, visible: Menu -> bool, written: nat -> bool)

  datatype Event = Enter(menu: Menu) | Leave(menu: Menu)

  datatype Line = Blank | Title(menu: Menu) | EndOf(menu: Menu) | Setting(symbol: nat)

  /** the lines so far, the symbols with SYMBOL_WRITTEN set, and need_newline */
  datatype Report = Report(lines: seq<Line>, written: set<nat>, needNewline: bool)

  /** the walk as recursion over the tree */
  function Trace(f: Forest): seq<Event> {
    match f
    case Nil => []
    case Node(m, k, r) => [Enter(m)] + Trace(k) + [Leave(m)] + Trace(r)
  }

  function EnterNode(c: Contents, m: Menu, s: Report): Report {
    match c.subject(m)
    case OfText(_) => if c.visible(m) then Report(s.lines + [Title(m)], s.written, false) else s
    case OfChoice => s
    case OfSymbol(y) =>
      if y !in s.written && c.written(y)
      then Report(s.lines + (if s.needNewline then [Blank] else []) + [Setting(y)], s.written + {y}, false)
      else s
  }

  function LeaveNode(c: Contents, m: Menu, s: Report): Report {
    if c.subject(m) == OfText(true) && c.visible(m) then Report(s.lines + [EndOf(m)], s.written, true) else s
  }

  /** what is written while these events happen */
  function Written(c: Contents, es: seq<Event>): Report {
    if es == [] then Report([], {}, false) else
      var s := Written(c, es[..|es| - 1]);
      match es[|es| - 1]
      case Enter(m) => EnterNode(c, m, s)
      case Leave(m) => LeaveNode(c, m, s)
  }

  lemma WrittenNext(c: Contents, es: seq<Event>, m: Menu)
    ensures Written(c, es + [Enter(m)]) == EnterNode(c, m, Written(c, es))
    ensures Written(c, es + [Leave(m)]) == LeaveNode(c, m, Written(c, es))
  {
    assert (es + [Enter(m)])[..|es|] == es && (es + [Leave(m)])[..|es|] == es;
  }

  /** Where the walk is inside the tree: at or below menu, whose later siblings are rest. */
  datatype Place = Top | Below(menu: Menu, rest: Forest, up: Place)

  function Owner(at: Place): Menu {
    if at.Top? then ROOT else at.menu
  }

  /** what is left to do once the subtree is done */
  function Pending(at: Place): seq<Event> {
    match at
    case Top => []
    case Below(m, r, up) => [Leave(m)] + (Trace(r) + Pending(up))
  }

  ghost predicate Placed(h: Links, at: Place) {
    match at
    case Top => Allocated(h, ROOT) && h.next[ROOT] == Null && h.parent[ROOT] == Null
    case Below(m, r, up) =>
      && Allocated(h, m) && m != ROOT && h.parent[m] == To(Owner(up))
      && Chain(h, r, h.next[m], Owner(up), Null) && ROOT !in Nodes(r) && Placed(h, up)
  }

  /** the cursor is at the first node of todo, which is what is left of the subtree; or the walk is over */
  ghost predicate Walking(h: Links, todo: Forest, at: Place, menu: Ptr) {
    Placed(h, at) && Chain(h, todo, menu, Owner(at), Null) && ROOT !in Nodes(todo) && (todo.Nil? ==> at.Top?)
  }

  lemma Entering(es: seq<Event>, f: Forest, at: Place, all: seq<Event>)
    requires f.Node? && es + (Trace(f) + Pending(at)) == all
    ensures es + [Enter(f.menu)] + (Trace(f.kids) + Pending(Below(f.menu, f.rest, at))) == all
    ensures |Trace(f)| + |Pending(at)| == 1 + |Trace(f.kids)| + |Pending(Below(f.menu, f.rest, at))|
  {
    Regroup(es, [Enter(f.menu)], Trace(f.kids), [Leave(f.menu)], Trace(f.rest), Pending(at));
  }

  lemma Regroup(es: seq<Event>, a: seq<Event>, k: seq<Event>, b: seq<Event>, r: seq<Event>, p: seq<Event>)
    ensures es + (a + k + b + r + p) == es + a + (k + (b + (r + p)))
  {
    assert a + k + b + r + p == a + (k + (b + (r + p)));
  }

  lemma Leaving(es: seq<Event>, at: Place, all: seq<Event>)
    requires at.Below? && es + Pending(at) == all
    ensures es + [Leave(at.menu)] + (Trace(at.rest) + Pending(at.up)) == all
  {
    assert es + [Leave(at.menu)] + (Trace(at.rest) + Pending(at.up)) == es + Pending(at);
  }

  /** conf_write's loop. It terminates, and writes what the recursive walk would write. */
  method WriteConfig(t: MenuTable, c: Contents) returns (report: Report)
    requires t.Valid()
    ensures report == Written(c, Trace(t.kids))
  {
    report := Report([], {}, false);
    ghost var events: seq<Event> := [];
    var menu := t.links.list[ROOT];
    ghost var todo, at := t.kids, Top;
    while menu != Null
      invariant Walking(t.links, todo, at, menu)
      invariant events + (Trace(todo) + Pending(at)) == Trace(t.kids) && report == Written(c, events)
      decreases |Trace(todo)| + |Pending(at)|
    {
      report := EnterNode(c, menu.menu, report);
      WrittenNext(c, events, menu.menu);
      Entering(events, todo, at, Trace(t.kids));
      events := events + [Enter(menu.menu)];
      at := Below(todo.menu, todo.rest, at);
      todo := todo.kids;
      assert Chain(t.links, todo, t.links.list[menu.menu], menu.menu, Null);
      if t.links.list[menu.menu] != Null {
        menu := t.links.list[menu.menu];
      } else {
        assert Trace(todo) + Pending(at) == Pending(at);
        menu, report, events, todo, at := EndCheck(t, c, menu.menu, report, events, at);
      }
    }
    assert events + (Trace(todo) + Pending(at)) == events;
  }

  /** The part after the label end_check: nodes are left until one has a next sibling. */
  method EndCheck(t: MenuTable, c: Contents, from: Menu, report0: Report, ghost events0: seq<Event>, ghost at0: Place)
    returns (menu: Ptr, report: Report, ghost events: seq<Event>, ghost todo: Forest, ghost at: Place)
    requires t.Valid() && from == Owner(at0) && Placed(t.links, at0)
    requires events0 + Pending(at0) == Trace(t.kids) && report0 == Written(c, events0)
    ensures Walking(t.links, todo, at, menu) && |Trace(todo)| + |Pending(at)| <= |Pending(at0)|
    ensures events + (Trace(todo) + Pending(at)) == Trace(t.kids) && report == Written(c, events)
  {
    menu, report, events, todo, at := To(from), report0, events0, Nil, at0;
    while true
      invariant menu == To(Owner(at)) && Placed(t.links, at) && |Pending(at)| <= |Pending(at0)|
      invariant events + Pending(at) == Trace(t.kids) && report == Written(c, events)
      decreases at
    {
      if menu.menu != ROOT {
        report := LeaveNode(c, menu.menu, report);
        WrittenNext(c, events, menu.menu);
        Leaving(events, at, Trace(t.kids));
        events := events + [Leave(menu.menu)];
        todo, at := at.rest, at.up;
      } else {
        todo := Nil;
      }
      if t.links.next[menu.menu] != Null {
        menu := t.links.next[menu.menu];
        break;
      }
      menu := t.links.parent[menu.menu];
      if menu == Null { break; }
    }
  }

  /** conf_write_defconfig's loop visits the nodes in source order, and terminates. */
  method VisitAll(t: MenuTable) returns (visited: seq<Menu>)
    requires t.Valid()
    ensures visited == Preorder(t.kids)
  {
    visited := [];
    var menu := t.links.list[ROOT];
    ghost var todo, at := t.kids, Top;
    while menu != Null
      invariant Walking(t.links, todo, at, menu)
      invariant visited + (Preorder(todo) + Unvisited(at)) == Preorder(t.kids)
      decreases |Preorder(todo)| + |Unvisited(at)|
    {
      visited := visited + [menu.menu];
      Visiting(visited, todo, at, Preorder(t.kids));
      at := Below(todo.menu, todo.rest, at);
      todo := todo.kids;
      assert Chain(t.links, todo, t.links.list[menu.menu], menu.menu, Null);
      if t.links.list[menu.menu] != Null {
        menu := t.links.list[menu.menu];
      } else if t.links.next[menu.menu] != Null {
        assert Preorder(todo) + Unvisited(at) == Unvisited(at);
        menu := t.links.next[menu.menu];
        todo, at := at.rest, at.up;
      } else {
        assert Preorder(todo) + Unvisited(at) == Unvisited(at);
        menu, todo, at := NextAbove(t, menu.menu, at);
      }
    }
  }

  /** The inner loop: the next sibling of the closest ancestor that has one. */
  method NextAbove(t: MenuTable, from: Menu, ghost at0: Place) returns (menu: Ptr, ghost todo: Forest, ghost at: Place)
    requires t.Valid() && at0.Below? && from == at0.menu && Placed(t.links, at0) && t.links.next[from] == Null
    ensures Walking(t.links, todo, at, menu) && Preorder(todo) + Unvisited(at) == Unvisited(at0)
  {
    menu, todo, at := t.links.parent[from], Nil, at0.up;
    while menu != Null
      invariant menu != Null ==> menu == To(Owner(at)) && Placed(t.links, at) && Unvisited(at) == Unvisited(at0)
      invariant menu == Null ==> todo.Nil? && at.Top? && Placed(t.links, at) && Unvisited(at0) == []
      decreases at, menu != Null
    {
      if t.links.next[menu.menu] != Null {
        menu := t.links.next[menu.menu];
        todo, at := at.rest, at.up;
        return;
      }
      menu := t.links.parent[menu.menu];
      at := if at.Top? then Top else at.up;
    }
  }

  /** the nodes not yet visited once the subtree is done */
  function Unvisited(at: Place): seq<Menu> {
    match at
    case Top => []
    case Below(m, r, up) => Preorder(r) + Unvisited(up)
  }

  lemma Visiting(vs: seq<Menu>, f: Forest, at: Place, all: seq<Menu>)
    requires f.Node? && vs != [] && vs[|vs| - 1] == f.menu
    requires vs[..|vs| - 1] + (Preorder(f) + Unvisited(at)) == all
    ensures vs + (Preorder(f.kids) + Unvisited(Below(f.menu, f.rest, at))) == all
  {
    var k, r, p, ws := Preorder(f.kids), Preorder(f.rest), Unvisited(at), vs[..|vs| - 1];
    assert vs == ws + [f.menu];
    assert [f.menu] + k + r + p == [f.menu] + (k + (r + p));
  }

  /** Titles and "# end of" lines are those of the visible menus and comments passed. */
  lemma {:induction false} TitleEntered(c: Contents, es: seq<Event>, m: Menu)
    requires Title(m) in Written(c, es).lines || EndOf(m) in Written(c, es).lines
    ensures (Enter(m) in es || Leave(m) in es) && c.subject(m).OfText? && c.visible(m)
  {
    var before := es[..|es| - 1];
    if Title(m) in Written(c, before).lines || EndOf(m) in Written(c, before).lines {
      TitleEntered(c, before, m);
    }
  }

  /** titles of menus as opening and "# end of" lines as closing brackets: those still open, or a mismatch */
  datatype Brackets = Open(menus: seq<Menu>) | Mismatch

  function Nesting(c: Contents, lines: seq<Line>): Brackets {
    if lines == [] then Open([]) else NestLine(c, Nesting(c, lines[..|lines| - 1]), lines[|lines| - 1])
  }

  function NestLine(c: Contents, b: Brackets, line: Line): Brackets {
    if b.Mismatch? then Mismatch else
      match line
      case Title(m) => if c.subject(m) == OfText(true) then Open(b.menus + [m]) else b
      case EndOf(m) => if |b.menus| > 0 && b.menus[|b.menus| - 1] == m then Open(b.menus[..|b.menus| - 1]) else Mismatch
      case _ => b
  }

  lemma NestingNext(c: Contents, lines: seq<Line>, line: Line)
    ensures Nesting(c, lines + [line]) == NestLine(c, Nesting(c, lines), line)
  {
    assert (lines + [line])[..|lines|] == lines;
  }

  ghost predicate IsBracket(c: Contents, m: Menu) { c.subject(m) == OfText(true) && c.visible(m) }

  lemma NestingEnter(c: Contents, s: Report, m: Menu)
    ensures
      Nesting(c, EnterNode(c, m, s).lines)
      == if IsBracket(c, m) then NestLine(c, Nesting(c, s.lines), Title(m)) else Nesting(c, s.lines)
  {
    NestingNext(c, s.lines, Title(m));
    if c.subject(m).OfSymbol? {
      NestingSetting(c, s, c.subject(m).symbol);
    }
  }

  lemma NestingSetting(c: Contents, s: Report, y: nat)
    ensures Nesting(c, s.lines + (if s.needNewline then [Blank] else []) + [Setting(y)]) == Nesting(c, s.lines)
  {
    if s.needNewline {
      NestingNext(c, s.lines, Blank);
      NestingNext(c, s.lines + [Blank], Setting(y));
    } else {
      NestingNext(c, s.lines, Setting(y));
      assert s.lines + [] + [Setting(y)] == s.lines + [Setting(y)];
    }
  }

  lemma NestingLeave(c: Contents, s: Report, m: Menu)
    ensures
      Nesting(c, LeaveNode(c, m, s).lines)
      == if IsBracket(c, m) then NestLine(c, Nesting(c, s.lines), EndOf(m)) else Nesting(c, s.lines)
  {
    NestingNext(c, s.lines, EndOf(m));
  }

  lemma Closes(c: Contents, b: Brackets, m: Menu)
    requires c.subject(m) == OfText(true)
    ensures NestLine(c, NestLine(c, b, Title(m)), EndOf(m)) == b
  {
    if b.Open? {
      assert (b.menus + [m])[..|b.menus|] == b.menus;
    }
  }

  /** Writing a subtree leaves the brackets as they were. */
  lemma {:induction false} TraceNested(c: Contents, es: seq<Event>, f: Forest)
    ensures Nesting(c, Written(c, es + Trace(f)).lines) == Nesting(c, Written(c, es).lines)
    decreases f, 0
  {
    match f
    case Nil =>
      assert es + [] == es;
    case Node(m, k, r) =>
      var inside := es + [Enter(m)];
      var done := inside + Trace(k);
      NodeNested(c, es, m, k);
      TraceNested(c, done + [Leave(m)], r);
      Associate(es, [Enter(m)], Trace(k), [Leave(m)], Trace(r));
  }

  lemma NodeNested(c: Contents, es: seq<Event>, m: Menu, k: Forest)
    ensures Nesting(c, Written(c, es + [Enter(m)] + Trace(k) + [Leave(m)]).lines) == Nesting(c, Written(c, es).lines)
    decreases k, 1
  {
    var inside := es + [Enter(m)];
    var done := inside + Trace(k);
    WrittenNext(c, es, m);
    NestingEnter(c, Written(c, es), m);
    TraceNested(c, inside, k);
    WrittenNext(c, done, m);
    NestingLeave(c, Written(c, done), m);
    if IsBracket(c, m) {
      Closes(c, Nesting(c, Written(c, es).lines), m);
    }
  }

  lemma Associate(es: seq<Event>, a: seq<Event>, k: seq<Event>, b: seq<Event>, r: seq<Event>)
    ensures es + (a + k + b + r) == es + a + k + b + r
  {
  }

  /** The title and "# end of" lines of the visible menus nest. */
  lemma WrittenNested(c: Contents, f: Forest)
    ensures Nesting(c, Written(c, Trace(f)).lines) == Open([])
  {
    TraceNested(c, [], f);
    assert [] + Trace(f) == Trace(f);
  }

  ghost predicate Once(lines: seq<Line>) {
    forall i, j :: 0 <= i < j < |lines| && lines[i].Setting? && lines[j].Setting? ==> lines[i] != lines[j]
  }

  /** Each symbol is written once, those are written that have an entry and SYMBOL_WRITE. */
  lemma {:induction false} WrittenOnce(c: Contents, es: seq<Event>)
    ensures Once(Written(c, es).lines)
    ensures forall y :: Setting(y) in Written(c, es).lines <==> y in Written(c, es).written
    ensures forall y :: y in Written(c, es).written <==> c.written(y) && exists m :: Enter(m) in es && c.subject(m) == OfSymbol(y)
  {
    if es != [] {
      var before, e := es[..|es| - 1], es[|es| - 1];
      WrittenOnce(c, before);
      assert es == before + [e];
      var s := Written(c, before);
      if e.Enter? && c.subject(e.menu).OfSymbol? {
        OnceMore(s.lines, if s.needNewline then [Blank] else [], c.subject(e.menu).symbol);
      }
    }
  }

  lemma OnceMore(lines: seq<Line>, blank: seq<Line>, y: nat)
    requires Once(lines) && (blank == [] || blank == [Blank])
    ensures Setting(y) !in lines ==> Once(lines + blank + [Setting(y)])
    ensures forall z :: Setting(z) in lines + blank + [Setting(y)] <==> Setting(z) in lines || z == y
  {
  }

  lemma {:induction false} TraceEnters(f: Forest)
    ensures forall m :: Enter(m) in Trace(f) <==> m in Preorder(f)
    ensures forall m :: Leave(m) in Trace(f) <==> m in Preorder(f)
  {
    if f.Node? {
      TraceEnters(f.kids);
      TraceEnters(f.rest);
    }
  }
}
