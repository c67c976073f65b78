/** A whole .config: what conf_write writes, and what conf_read_simple makes of it. */
module ConfigFile {
  import opened Expressions
  import opened MenuTree
  import opened Menus
  import opened MenuWalk
  import opened ConfigReading
  import E = Escaping
  import C = ConfigLines

  /** the names and values of the symbols, and the prompts of menus and comments; the root's is the heading */
  datatype Texts = Texts(name: nat -> string, value: nat -> C.Entry, prompt: Menu -> string)

  /** the symbols of the configuration: named, named differently, and holding values that can be saved */
  ghost predicate Distinguished(t: Texts, ids: set<nat>) {
    && (forall y <- ids :: C.IsName(t.name(y)) && C.IsSaved(t.value(y)))
    && forall y, z :: y in ids && z in ids && y != z ==> t.name(y) != t.name(z)
  }

  const BAR := "#\n"
  const GENERATED := "Automatically generated file; DO NOT EDIT."

  function Comment(s: string): string { "# " + s + "\n" }

  /** what is written for one line of the report */
  function TextOf(t: Texts, line: Line): string
    requires line.Setting? ==> C.IsSaved(t.value(line.symbol))
  {
    match line
    case Blank => "\n"
    case Title(m) => "\n" + BAR + Comment(t.prompt(m)) + BAR
    case EndOf(m) => Comment("end of " + t.prompt(m))
    case Setting(y) => C.Line(t.name(y), t.value(y))
  }

  /** conf_write_heading */
  function Heading(t: Texts): string { BAR + Comment(GENERATED) + Comment(t.prompt(ROOT)) + BAR }

  function FileText(t: Texts, lines: seq<Line>): string
    requires forall y :: Setting(y) in lines ==> C.IsSaved(t.value(y))
  {
    if lines == [] then Heading(t) else FileText(t, lines[..|lines| - 1]) + TextOf(t, lines[|lines| - 1])
  }

  // Prompts. They may hold newlines, which macros can bring in; then what follows stands on lines of its own.

  /** a comment with this text unsets a symbol */
  predicate UnsetsSymbol(s: string) { !SetsNothing(C.CommentEffect(s)) }

  /** A prompt does not begin like the comment that unsets a symbol, and its further lines set nothing. */
  predicate Harmless(prompt: string) {
    var lines := Lines(prompt + "\n");
    !UnsetsSymbol(lines[0]) && forall l <- lines[1..] :: SetsNothing(C.LineEffect(l))
  }

  lemma CommentLine(s: string)
    ensures C.LineEffect("# " + s) == C.CommentEffect(s)
  {
    assert ("# " + s)[2..] == s;
  }

  /** Writing a prompt as a comment sets nothing, whatever the configuration, exactly if it is harmless. */
  lemma PromptSilentIff(prompt: string)
    ensures AreSilent(Lines(Comment(prompt))) <==> Harmless(prompt)
  {
    hide C.LineEffect, C.CommentEffect, SetsNothing, Lines;
    var lines := Lines(prompt + "\n");
    var all := ["# " + lines[0]] + lines[1..];
    assert Comment(prompt) == "# " + (prompt + "\n");
    LinesPrefixed("# ", prompt + "\n");
    CommentLine(lines[0]);
    SilentIff(all);
    ForallCons("# " + lines[0], lines[1..]);
  }

  lemma ForallCons(x: string, rest: seq<string>)
    ensures (forall l <- [x] + rest :: SetsNothing(C.LineEffect(l)))
       <==> SetsNothing(C.LineEffect(x)) && forall l <- rest :: SetsNothing(C.LineEffect(l))
  {
    hide C.LineEffect, SetsNothing;
    if forall l <- [x] + rest :: SetsNothing(C.LineEffect(l)) {
      assert x in [x] + rest;
      forall l <- rest ensures SetsNothing(C.LineEffect(l)) {
        assert l in [x] + rest;
      }
    }
  }

  /** the "# end of" line is no more harmful than the title */
  lemma EndHarmless(prompt: string)
    requires Harmless(prompt)
    ensures Harmless("end of " + prompt)
  {
    hide C.LineEffect, SetsNothing;
    var lines := Lines(prompt + "\n");
    var first := "end of " + lines[0];
    assert "end of " + prompt + "\n" == "end of " + (prompt + "\n");
    LinesPrefixed("end of ", prompt + "\n");
    FirstOf(first, lines[1..]);
    assert first[0] == 'e';
    NotPrefixed(first, C.CONFIG);
    CommentSets(first);
  }

  lemma CommentSets(s: string)
    requires !C.StartsWith(s, C.CONFIG)
    ensures !UnsetsSymbol(s)
  {
  }

  lemma NotPrefixed(s: string, prefix: string)
    requires s != "" && prefix != "" && s[0] != prefix[0]
    ensures !C.StartsWith(s, prefix)
  {
  }

  /** usual prompts are harmless */
  lemma UsualPrompt(prompt: string)
    requires '\n' !in prompt && !C.StartsWith(prompt, C.CONFIG)
    ensures Harmless(prompt)
  {
    OneLine(prompt);
    PrefixOfLine(prompt, C.CONFIG);
    CommentSets(prompt + "\n");
  }

  lemma PrefixOfLine(s: string, prefix: string)
    requires '\n' !in prefix
    ensures C.StartsWith(s + "\n", prefix) <==> C.StartsWith(s, prefix)
  {
    var line := s + "\n";
    if |prefix| <= |s| {
      assert line[..|prefix|] == s[..|prefix|];
    } else if |prefix| <= |line| {
      assert line[..|prefix|][|s|] == '\n';
    }
  }

  // Reading the file back

  /** the symbols in done have their values back, the others are reset */
  ghost predicate Restored(symbols: C.Symbols, t: Texts, ids: set<nat>, done: set<nat>) {
    && (forall n <- symbols :: exists y :: y in ids && t.name(y) == n)
    && forall y <- ids :: t.name(y) in symbols && symbols[t.name(y)] == if y in done then t.value(y) else C.Reset(t.value(y))
  }

  /** the configuration has these symbols, with these types; their values may be any */
  ghost predicate Declares(symbols: C.Symbols, t: Texts, ids: set<nat>) {
    && (forall n <- symbols :: exists y :: y in ids && t.name(y) == n)
    && forall y <- ids :: t.name(y) in symbols && symbols[t.name(y)].typ == t.value(y).typ
  }

  lemma ResetRestored(symbols: C.Symbols, t: Texts, ids: set<nat>)
    requires Declares(symbols, t, ids)
    ensures Restored(ResetAll(symbols), t, ids, {})
  {
  }

  /** the symbols with a setting among the lines */
  function Settings(lines: seq<Line>): set<nat> {
    if lines == [] then {} else
      Settings(lines[..|lines| - 1]) + if lines[|lines| - 1].Setting? then {lines[|lines| - 1].symbol} else {}
  }

  lemma {:induction false} SettingsAre(lines: seq<Line>)
    ensures forall y :: y in Settings(lines) <==> Setting(y) in lines
  {
    if lines != [] {
      SettingsAre(lines[..|lines| - 1]);
    }
  }

  /** the prompts among these lines, and the heading, are harmless */
  ghost predicate HarmlessTitles(t: Texts, lines: seq<Line>) {
    Harmless(t.prompt(ROOT)) && forall m :: Title(m) in lines || EndOf(m) in lines ==> Harmless(t.prompt(m))
  }

  /** the heading and the prompts of the visible menus and comments are harmless */
  ghost predicate HarmlessPrompts(t: Texts, c: Contents, f: Forest) {
    && Harmless(t.prompt(ROOT))
    && forall m <- Preorder(f) :: c.subject(m).OfText? && c.visible(m) ==> Harmless(t.prompt(m))
  }

  /** complete lines that change no configuration */
  ghost predicate IsSilent(text: string) { IsWhole(text) && AreSilent(Lines(text)) }

  lemma SilentAppend(a: string, b: string)
    requires IsSilent(a) && IsSilent(b)
    ensures IsSilent(a + b)
  {
    LinesAppend(a, b);
    SilentIff(Lines(a));
    SilentIff(Lines(b));
    SilentIff(Lines(a) + Lines(b));
    assert IsWhole(a + b);
    hide AreSilent;
  }

  lemma CommentSilent(s: string)
    requires Harmless(s)
    ensures IsSilent(Comment(s))
  {
    PromptSilentIff(s);
  }

  lemma SilentLine(s: string)
    requires '\n' !in s && C.LineEffect(s + "\n") == C.Nothing
    ensures IsSilent(s + "\n")
  {
    OneLine(s);
    SilentIff([s + "\n"]);
  }

  lemma BarsSilent()
    ensures IsSilent(BAR) && IsSilent("\n")
  {
    SilentLine("");
    SilentLine("#");
    assert "" + "\n" == "\n" && "#" + "\n" == BAR;
  }

  lemma HeadingSilent(t: Texts)
    requires Harmless(t.prompt(ROOT))
    ensures IsSilent(Heading(t))
  {
    hide IsSilent, Harmless, Comment;
    BarsSilent();
    NotPrefixed(GENERATED, C.CONFIG);
    UsualPrompt(GENERATED);
    CommentSilent(GENERATED);
    CommentSilent(t.prompt(ROOT));
    SilentAppend(BAR, Comment(GENERATED));
    SilentAppend(BAR + Comment(GENERATED), Comment(t.prompt(ROOT)));
    SilentAppend(BAR + Comment(GENERATED) + Comment(t.prompt(ROOT)), BAR);
  }

  lemma TitleSilent(prompt: string)
    requires Harmless(prompt)
    ensures IsSilent("\n" + BAR + Comment(prompt) + BAR)
  {
    hide IsSilent, Harmless, Comment;
    BarsSilent();
    CommentSilent(prompt);
    SilentAppend("\n", BAR);
    SilentAppend("\n" + BAR, Comment(prompt));
    SilentAppend("\n" + BAR + Comment(prompt), BAR);
  }

  /** A menu whose prompt looks like that comment is read as a setting: the file changes A from y to n. */
  lemma PromptMisread(symbols: C.Symbols)
    requires "A" in symbols && symbols["A"] == C.Entry(Boolean, YES, None, true)
    ensures ReadFile(symbols, Comment("CONFIG_A is not set")) == symbols["A" := C.Entry(Boolean, NO, None, true)]
  {
    hide C.ReadText, C.IsName;
    assert C.IsName("A") by { NameA(); }
    var line := "# " + "CONFIG_A is not set";
    OneLine(line);
    ReadOne(symbols, line + "\n");
    C.ReadUnset(symbols, "A");
    assert line + "\n" == C.UnsetLine("A");
  }

  lemma NameA()
    ensures C.IsName("A")
  {
  }

  /** And so is one whose prompt holds a newline and then a setting: the file changes A from n to y. */
  lemma NewlineMisread(symbols: C.Symbols)
    requires "A" in symbols && symbols["A"] == C.Entry(Boolean, NO, None, true)
    ensures ReadFile(symbols, Comment("x\nCONFIG_A=y")) == symbols["A" := C.Entry(Boolean, YES, None, true)]
  {
    hide Lines, ReadFile, Harmless, C.ReadText;
    var setting := C.AssignLine("A", "y");
    assert Comment("x\nCONFIG_A=y") == Comment("x") + setting;
    UsualPrompt("x");
    CommentSilent("x");
    SilentFile(symbols, Comment("x"));
    ReadFileAppend(symbols, Comment("x"), setting);
    SettingA(symbols);
  }

  lemma SettingA(symbols: C.Symbols)
    requires "A" in symbols && symbols["A"] == C.Entry(Boolean, NO, None, true)
    ensures ReadFile(symbols, C.AssignLine("A", "y")) == symbols["A" := C.Entry(Boolean, YES, None, true)]
  {
    hide C.ReadText, Lines;
    OneLine("CONFIG_A=y");
    assert "CONFIG_A=y" + "\n" == C.AssignLine("A", "y");
    ReadOne(symbols, C.AssignLine("A", "y"));
    NameA();
    C.ReadAssign(symbols, "A", "y");
  }

  /** each setting is one line */
  lemma SettingLine(symbols: C.Symbols, name: string, e: C.Entry)
    requires C.IsName(name) && C.IsSaved(e) && name in symbols && symbols[name] == C.Reset(e)
    ensures ReadFile(symbols, C.Line(name, e)) == symbols[name := e]
  {
    C.LineRestores(symbols, name, e);
    var s := C.LineIsOne(name, e);
    OneLine(s);
    ReadOne(symbols, s + "\n");
  }

  /** one line of the report */
  lemma ReadLineOf(symbols: C.Symbols, t: Texts, ids: set<nat>, done: set<nat>, line: Line)
    requires Distinguished(t, ids) && Restored(symbols, t, ids, done) && HarmlessTitles(t, [line])
    requires line.Setting? ==> line.symbol in ids && line.symbol !in done
    ensures
      Restored(ReadFile(symbols, TextOf(t, line)), t, ids, if line.Setting? then done + {line.symbol} else done)
  {
    hide C.ReadText, C.Line, ReadFile, Lines, Harmless, IsSilent, C.IsName, C.IsSaved, C.Reset;
    match line
    case Setting(y) =>
      SettingLine(symbols, t.name(y), t.value(y));
    case Blank =>
      BarsSilent();
      SilentFile(symbols, "\n");
    case Title(m) =>
      assert Title(m) in [line];
      TitleSilent(t.prompt(m));
      SilentFile(symbols, TextOf(t, line));
    case EndOf(m) =>
      assert EndOf(m) in [line];
      EndHarmless(t.prompt(m));
      CommentSilent("end of " + t.prompt(m));
      SilentFile(symbols, TextOf(t, line));
  }

  lemma SilentFile(symbols: C.Symbols, text: string)
    requires IsSilent(text)
    ensures ReadFile(symbols, text) == symbols
  {
  }

  lemma WholeTexts(t: Texts, lines: seq<Line>)
    requires forall y :: Setting(y) in lines ==> C.IsName(t.name(y)) && C.IsSaved(t.value(y))
    ensures IsWhole(FileText(t, lines)) && FileText(t, lines) != ""
  {
    if lines != [] {
      var line := lines[|lines| - 1];
      if line.Setting? {
        var s := C.LineIsOne(t.name(line.symbol), t.value(line.symbol));
      }
      assert TextOf(t, line) != "" && IsWhole(TextOf(t, line));
    }
  }

  lemma {:induction false} ReadReport(symbols: C.Symbols, t: Texts, ids: set<nat>, lines: seq<Line>)
    requires Distinguished(t, ids) && Restored(symbols, t, ids, {}) && HarmlessTitles(t, lines)
    requires Once(lines) && forall y :: Setting(y) in lines ==> y in ids
    ensures Restored(ReadFile(symbols, FileText(t, lines)), t, ids, Settings(lines))
  {
    hide ReadFile, Harmless, C.IsName, C.IsSaved, TextOf, IsWhole, Heading, IsSilent;
    if lines == [] {
      HeadingSilent(t);
      SilentFile(symbols, Heading(t));
    } else {
      var before, line := lines[..|lines| - 1], lines[|lines| - 1];
      ReadReport(symbols, t, ids, before);
      SettingsAre(before);
      WholeTexts(t, before);
      ReadFileAppend(symbols, FileText(t, before), TextOf(t, line));
      ReadLineOf(ReadFile(symbols, FileText(t, before)), t, ids, Settings(before), line);
    }
  }

  /** the symbols with SYMBOL_WRITE and an entry */
  ghost function Due(c: Contents, ids: set<nat>, f: Forest): set<nat> {
    set y | y in ids && c.written(y) && exists m :: m in Preorder(f) && c.subject(m) == OfSymbol(y)
  }

  lemma SettingsDue(c: Contents, ids: set<nat>, f: Forest)
    requires forall m :: m in Preorder(f) && c.subject(m).OfSymbol? ==> c.subject(m).symbol in ids
    ensures
      var lines := Written(c, Trace(f)).lines;
      Once(lines) && Settings(lines) == Due(c, ids, f) && forall y :: Setting(y) in lines ==> y in ids
  {
    var lines := Written(c, Trace(f)).lines;
    WrittenOnce(c, Trace(f));
    TraceEnters(f);
    SettingsAre(lines);
    forall y | Setting(y) in lines ensures y in ids {
      var m :| Enter(m) in Trace(f) && c.subject(m) == OfSymbol(y);
      assert m in Preorder(f);
    }
  }

  lemma TitlesHarmless(t: Texts, c: Contents, f: Forest)
    requires HarmlessPrompts(t, c, f)
    ensures HarmlessTitles(t, Written(c, Trace(f)).lines)
  {
    var lines := Written(c, Trace(f)).lines;
    forall m | Title(m) in lines || EndOf(m) in lines ensures Harmless(t.prompt(m)) {
      TitleEntered(c, Trace(f), m);
      TraceEnters(f);
    }
  }

  /** Writing the configuration and reading the file back restores every symbol that was written, and these are the
      symbols with SYMBOL_WRITE and an entry in the menu; the others are as after conf_reset. */
  lemma FileRestores(symbols: C.Symbols, t: Texts, c: Contents, ids: set<nat>, f: Forest)
    requires Distinguished(t, ids) && Declares(symbols, t, ids) && HarmlessPrompts(t, c, f)
    requires forall m :: m in Preorder(f) && c.subject(m).OfSymbol? ==> c.subject(m).symbol in ids
    ensures
      var lines := Written(c, Trace(f)).lines;
      && (forall y :: Setting(y) in lines ==> y in ids)
      && Restored(ReadFile(ResetAll(symbols), FileText(t, lines)), t, ids, Due(c, ids, f))
  {
    hide Written, Trace, Due, Restored, ReadFile, FileText, Settings, Once;
    SettingsDue(c, ids, f);
    TitlesHarmless(t, c, f);
    ResetRestored(symbols, t, ids);
    ReadReport(ResetAll(symbols), t, ids, Written(c, Trace(f)).lines);
  }

  // The loops of both programs

  /** the prompts are C strings */
  ghost predicate Printable(t: Texts, f: Forest) {
    E.NUL !in t.prompt(ROOT) && forall m <- Preorder(f) :: E.NUL !in t.prompt(m)
  }

  lemma {:induction false} LinesEnd(text: string)
    requires IsWhole(text)
    ensures forall l <- Lines(text) :: l != "" && l[|l| - 1] == '\n'
    decreases |text|
  {
    if text != "" {
      var i := C.IndexOf(text, '\n');
      assert text[|text| - 1] == '\n';
      LinesEnd(text[i + 1..]);
    }
  }

  lemma LineHasNoNul(name: string, e: C.Entry)
    requires C.IsName(name) && C.IsSaved(e)
    ensures E.NUL !in C.Line(name, e)
  {
    if C.Switch(e.typ) && e.tri == NO {
    } else {
      if e.typ == String {
        C.BodyChars(e.text.value, E.NUL);
      } else if !C.Switch(e.typ) {
        C.NumberChars(e.text.value);
      }
      assert E.NUL !in C.ValueText(e);
      hide C.ValueText;
    }
  }

  lemma CommentHasNoNul(s: string)
    requires E.NUL !in s
    ensures E.NUL !in Comment(s) && E.NUL !in "end of " + s
  {
  }

  lemma HeadingHasNoNul(t: Texts)
    requires E.NUL !in t.prompt(ROOT)
    ensures E.NUL !in Heading(t)
  {
    CommentHasNoNul(t.prompt(ROOT));
    CommentHasNoNul(GENERATED);
    hide Comment;
  }

  lemma {:induction false} FileHasNoNul(t: Texts, ids: set<nat>, f: Forest, lines: seq<Line>)
    requires Distinguished(t, ids) && Printable(t, f) && forall y :: Setting(y) in lines ==> y in ids
    requires forall m :: Title(m) in lines || EndOf(m) in lines ==> m in Preorder(f)
    ensures E.NUL !in FileText(t, lines)
  {
    hide C.Line, C.IsName, C.IsSaved, Comment, Heading;
    if lines == [] {
      HeadingHasNoNul(t);
    } else {
      var line := lines[|lines| - 1];
      FileHasNoNul(t, ids, f, lines[..|lines| - 1]);
      match line
      case Setting(y) => LineHasNoNul(t.name(y), t.value(y));
      case Title(m) => CommentHasNoNul(t.prompt(m));
      case EndOf(m) =>
        CommentHasNoNul(t.prompt(m));
        CommentHasNoNul("end of " + t.prompt(m));
      case Blank =>
    }
  }

  /** conf_write on a finalised menu, and conf_read_simple on the file it makes: the configuration holds the values
      that were written, and every other symbol is reset. */
  method SaveAndLoad(table: MenuTable, t: Texts, c: Contents, config: C.Configuration, ghost ids: set<nat>)
    requires table.Valid() && Distinguished(t, ids) && Declares(config.symbols, t, ids)
    requires HarmlessPrompts(t, c, table.kids) && Printable(t, table.kids)
    requires forall m :: m in Preorder(table.kids) && c.subject(m).OfSymbol? ==> c.subject(m).symbol in ids
    modifies config
    ensures Restored(config.symbols, t, ids, Due(c, ids, table.kids))
  {
    hide Distinguished, Declares, HarmlessPrompts, Printable, Restored, Due, Written, Trace, ReadFile, FileText, Lines;
    var report := WriteConfig(table, c);
    FileRestores(config.symbols, t, c, ids, table.kids);
    Readable(t, c, ids, table.kids);
    ReadSimple(config, FileText(t, report.lines));
  }

  lemma Readable(t: Texts, c: Contents, ids: set<nat>, f: Forest)
    requires Distinguished(t, ids) && Printable(t, f)
    requires forall m :: m in Preorder(f) && c.subject(m).OfSymbol? ==> c.subject(m).symbol in ids
    ensures
      var lines := Written(c, Trace(f)).lines;
      && (forall y :: Setting(y) in lines ==> C.IsSaved(t.value(y)))
      && E.NUL !in FileText(t, lines) && "#" !in Lines(FileText(t, lines))
  {
    hide C.IsSaved, C.IsName, Lines, IsWhole, FileText;
    var lines := Written(c, Trace(f)).lines;
    SettingsDue(c, ids, f);
    forall m | Title(m) in lines || EndOf(m) in lines ensures m in Preorder(f) {
      TitleEntered(c, Trace(f), m);
      TraceEnters(f);
    }
    FileHasNoNul(t, ids, f, lines);
    WholeTexts(t, lines);
    LinesEnd(FileText(t, lines));
  }
}
