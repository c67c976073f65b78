/** The lines conf_write puts into the file, told from the walk alone: which event asks for which line, and where
    blank lines stand (scripts/config/confdata.c). */
module MenuLines {
  import opened MenuTree
  import opened MenuWalk

  /** an entry of the symbol was entered */
  ghost predicate Met(c: Contents, es: seq<Event>, y: nat) {
    exists m :: Enter(m) in es && c.subject(m) == OfSymbol(y)
  }

  /** What an event asks for, given the events before it: a title for a visible menu or comment, its end for a visible
      menu, and a setting at the first entry of a symbol to be written. */
  ghost function Due(c: Contents, earlier: seq<Event>, e: Event): seq<Line> {
    match (e, c.subject(e.menu))
    case (Enter(m), OfText(_)) => if c.visible(m) then [Title(m)] else []
    case (Leave(m), OfText(true)) => if c.visible(m) then [EndOf(m)] else []
    case (Enter(m), OfSymbol(y)) => if c.written(y) && !Met(c, earlier, y) then [Setting(y)] else []
    case _ => []
  }

  ghost function AllDue(c: Contents, es: seq<Event>): seq<Line> {
    if es == [] then [] else
      var before := es[..|es| - 1];
      AllDue(c, before) + Due(c, before, es[|es| - 1])
  }

  /** the lines that are not blank */
  function Solid(lines: seq<Line>): seq<Line> {
    if lines == [] then [] else
      var line := lines[|lines| - 1];
      Solid(lines[..|lines| - 1]) + if line == Blank then [] else [line]
  }

  lemma SolidNext(lines: seq<Line>, line: Line)
    ensures Solid(lines + [line]) == Solid(lines) + if line == Blank then [] else [line]
  {
    assert (lines + [line])[..|lines|] == lines;
  }

  /** The lines of the file are, but for blank ones, what the events ask for, in their order. */
  lemma {:induction false} LinesDue(c: Contents, es: seq<Event>)
    ensures Solid(Written(c, es).lines) == AllDue(c, es)
  {
    if es != [] {
      var before, e := es[..|es| - 1], es[|es| - 1];
      LinesDue(c, before);
      assert es == before + [e];
      WrittenNext(c, before, e.menu);
      LineDue(c, before, e, Written(c, before));
    }
  }

  lemma LineDue(c: Contents, before: seq<Event>, e: Event, s: Report)
    requires s == Written(c, before)
    ensures Solid((if e.Enter? then EnterNode(c, e.menu, s) else LeaveNode(c, e.menu, s)).lines)
            == Solid(s.lines) + Due(c, before, e)
  {
    hide Solid, Written;
    if e.Leave? {
      SolidNext(s.lines, EndOf(e.menu));
    } else if c.subject(e.menu).OfText? {
      SolidNext(s.lines, Title(e.menu));
    } else if c.subject(e.menu).OfSymbol? {
      var y := c.subject(e.menu).symbol;
      WrittenOnce(c, before);
      assert y in s.written <==> c.written(y) && Met(c, before, y);
      SettingSolid(s, y);
    }
  }

  lemma SettingSolid(s: Report, y: nat)
    ensures Solid(s.lines + (if s.needNewline then [Blank] else []) + [Setting(y)]) == Solid(s.lines) + [Setting(y)]
  {
    SolidNext(s.lines, Blank);
    SolidNext(s.lines + (if s.needNewline then [Blank] else []), Setting(y));
    assert s.lines + [] == s.lines;
  }

  /** A blank line separates the end of a menu from a setting that follows it, and stands nowhere else. */
  ghost predicate Separated(lines: seq<Line>) {
    && (forall i :: 0 <= i < |lines| && lines[i] == Blank ==>
          0 < i < |lines| - 1 && lines[i - 1].EndOf? && lines[i + 1].Setting?)
    && (forall i :: 0 < i < |lines| && lines[i].Setting? ==> !lines[i - 1].EndOf?)
  }

  /** and need_newline says whether the end of a menu was written last */
  ghost predicate InStep(s: Report) {
    Separated(s.lines) && (s.needNewline <==> s.lines != [] && s.lines[|s.lines| - 1].EndOf?)
  }

  lemma {:induction false} BlankLines(c: Contents, es: seq<Event>)
    ensures InStep(Written(c, es))
  {
    if es != [] {
      var before, e := es[..|es| - 1], es[|es| - 1];
      hide InStep;
      BlankLines(c, before);
      EventInStep(c, e.menu, Written(c, before));
    } else {
      assert Written(c, es) == Report([], {}, false);
    }
  }

  lemma EventInStep(c: Contents, m: Menu, s: Report)
    requires InStep(s)
    ensures InStep(EnterNode(c, m, s)) && InStep(LeaveNode(c, m, s))
  {
    hide Separated;
    SeparatedText(s.lines, Title(m));
    SeparatedText(s.lines, EndOf(m));
    if c.subject(m).OfSymbol? {
      SeparatedSetting(s.lines, s.needNewline, Setting(c.subject(m).symbol));
    }
  }

  lemma SeparatedText(lines: seq<Line>, line: Line)
    requires Separated(lines) && (line.Title? || line.EndOf?)
    ensures Separated(lines + [line])
  {
  }

  lemma SeparatedSetting(lines: seq<Line>, ended: bool, line: Line)
    requires Separated(lines) && line.Setting? && (ended <==> lines != [] && lines[|lines| - 1].EndOf?)
    ensures Separated(lines + (if ended then [Blank] else []) + [line])
  {
  }

  // ----- in source order -----

  /** the nodes entered */
  function Entered(es: seq<Event>): seq<Menu> {
    if es == [] then [] else
      var e := es[|es| - 1];
      Entered(es[..|es| - 1]) + if e.Enter? then [e.menu] else []
  }

  lemma {:induction false} EnteredBoth(a: seq<Event>, b: seq<Event>)
    ensures Entered(a + b) == Entered(a) + Entered(b)
  {
    if b == [] {
      assert a + b == a;
    } else {
      EnteredBoth(a, b[..|b| - 1]);
      assert (a + b)[..|a + b| - 1] == a + b[..|b| - 1];
    }
  }

  lemma EnteredOne(m: Menu)
    ensures Entered([Enter(m)]) == [m] && Entered([Leave(m)]) == []
  {
    assert [Enter(m)][..0] == [] && [Leave(m)][..0] == [];
  }

  lemma {:induction false} EnteredPreorder(f: Forest)
    ensures Entered(Trace(f)) == Preorder(f)
  {
    match f
    case Nil =>
    case Node(m, k, r) =>
      hide Entered;
      EnteredPreorder(k);
      EnteredPreorder(r);
      EnteredOne(m);
      EnteredBoth([Enter(m)], Trace(k));
      EnteredBoth([Enter(m)] + Trace(k), [Leave(m)]);
      EnteredBoth([Enter(m)] + Trace(k) + [Leave(m)], Trace(r));
      assert [m] + Preorder(k) + [] == [m] + Preorder(k);
  }

  /** m is somewhere in f, with children k. */
  ghost predicate Has(f: Forest, m: Menu, k: Forest) {
    f.Node? && ((f.menu == m && f.kids == k) || Has(f.kids, m, k) || Has(f.rest, m, k))
  }

  /** A node is left when the nodes below it have been entered, and no others in between. */
  lemma {:induction false} LeftAfterKids(f: Forest, m: Menu, k: Forest) returns (a: seq<Event>, b: seq<Event>, c: seq<Event>)
    requires Has(f, m, k)
    ensures Trace(f) == a + [Enter(m)] + b + [Leave(m)] + c && Entered(b) == Preorder(k)
  {
    var first, kids, last, rest := [Enter(f.menu)], Trace(f.kids), [Leave(f.menu)], Trace(f.rest);
    if f.menu == m && f.kids == k {
      a, b, c := [], kids, rest;
      EnteredPreorder(k);
      assert [] + first == first;
    } else if Has(f.kids, m, k) {
      a, b, c := LeftAfterKids(f.kids, m, k);
      Around(first, a, [Enter(m)], b, [Leave(m)], c, last + rest);
      assert first + kids + (last + rest) == first + kids + last + rest;
      a, c := first + a, c + (last + rest);
    } else {
      a, b, c := LeftAfterKids(f.rest, m, k);
      Around(first + kids + last, a, [Enter(m)], b, [Leave(m)], c, []);
      assert first + kids + last + rest + [] == first + kids + last + rest;
      a, c := first + kids + last + a, c + [];
    }
  }

  lemma Around(x: seq<Event>, a: seq<Event>, e: seq<Event>, b: seq<Event>, l: seq<Event>, c: seq<Event>, y: seq<Event>)
    ensures x + (a + e + b + l + c) + y == x + a + e + b + l + (c + y)
  {
  }

  /** the menus whose titles these lines are */
  function Titles(lines: seq<Line>): seq<Menu> {
    if lines == [] then [] else
      var line := lines[|lines| - 1];
      Titles(lines[..|lines| - 1]) + if line.Title? then [line.menu] else []
  }

  /** the visible menus and comments among these nodes */
  function Texts(c: Contents, ms: seq<Menu>): seq<Menu> {
    if ms == [] then [] else
      var m := ms[|ms| - 1];
      Texts(c, ms[..|ms| - 1]) + if c.subject(m).OfText? && c.visible(m) then [m] else []
  }

  lemma TitlesNext(lines: seq<Line>, line: Line)
    ensures Titles(lines + [line]) == Titles(lines) + if line.Title? then [line.menu] else []
  {
    assert (lines + [line])[..|lines|] == lines;
  }

  /** what an event adds to the titles */
  function Titled(c: Contents, e: Event): seq<Menu> {
    if e.Enter? && c.subject(e.menu).OfText? && c.visible(e.menu) then [e.menu] else []
  }

  lemma DueTitled(c: Contents, before: seq<Event>, e: Event)
    ensures var due := Due(c, before, e);
            if due == [] then Titled(c, e) == []
            else due == [due[0]] && Titled(c, e) == if due[0].Title? then [due[0].menu] else []
  {
    hide Met;
  }

  lemma TitlesDueNext(c: Contents, lines: seq<Line>, before: seq<Event>, e: Event)
    ensures Titles(lines + Due(c, before, e)) == Titles(lines) + Titled(c, e)
  {
    hide *;
    var due, titled := Due(c, before, e), Titled(c, e);
    DueTitled(c, before, e);
    if due == [] {
      assert lines + due == lines && Titles(lines) + titled == Titles(lines);
    } else {
      TitlesNext(lines, due[0]);
    }
  }

  lemma TextsNext(c: Contents, ms: seq<Menu>, e: Event)
    ensures Texts(c, ms + if e.Enter? then [e.menu] else []) == Texts(c, ms) + Titled(c, e)
  {
    if e.Enter? {
      assert (ms + [e.menu])[..|ms|] == ms;
    } else {
      assert ms + [] == ms;
    }
  }

  lemma {:induction false} TitlesDue(c: Contents, es: seq<Event>)
    ensures Titles(AllDue(c, es)) == Texts(c, Entered(es))
  {
    if es != [] {
      var before, e := es[..|es| - 1], es[|es| - 1];
      hide Titles, Texts, Titled, Due;
      TitlesDue(c, before);
      TitlesDueNext(c, AllDue(c, before), before, e);
      TextsNext(c, Entered(before), e);
    }
  }

  lemma {:induction false} TitlesSolid(lines: seq<Line>)
    ensures Titles(Solid(lines)) == Titles(lines)
  {
    if lines != [] {
      var before, line := lines[..|lines| - 1], lines[|lines| - 1];
      TitlesSolid(before);
      if line != Blank {
        TitlesNext(Solid(before), line);
      } else {
        assert Solid(before) + [] == Solid(before);
      }
    }
  }

  /** Every visible menu and comment has its title in the file, exactly once and in source order. */
  lemma TitlesInOrder(c: Contents, f: Forest)
    ensures Titles(Written(c, Trace(f)).lines) == Texts(c, Preorder(f))
  {
    LinesDue(c, Trace(f));
    TitlesDue(c, Trace(f));
    TitlesSolid(Written(c, Trace(f)).lines);
    EnteredPreorder(f);
  }
}
