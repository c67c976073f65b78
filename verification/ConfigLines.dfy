/** The lines of .config: __print_symbol writes them, conf_read_simple and conf_set_sym_val read them. */
module ConfigLines {
  import opened Characters
  import opened Expressions
  import opened Escaping

  const CONFIG := "CONFIG_"
  const NOT_SET := "is not set"

  /** A symbol's value for S_DEF_USER: def[S_DEF_USER], and the flag SYMBOL_DEF_USER. */
  datatype Entry = Entry(typ: SymbolType, tri: Tristate, text: Option<string>, defined: bool)

  type Symbols = map<string, Entry>

  // Values

  /** decimal digits after an optional sign, without leading zeros */
  predicate IsInt(s: string) {
    var d := if s != "" && s[0] == '-' then s[1..] else s;
    d != "" && (forall c <- d :: IsDigit(c)) && (d[0] == '0' ==> |d| == 1)
  }

  /** hexadecimal digits after an optional 0x */
  predicate IsHex(s: string) {
    var d := if |s| >= 2 && s[0] == '0' && (s[1] == 'x' || s[1] == 'X') then s[2..] else s;
    d != "" && forall c <- d :: IsHexDigit(c)
  }

  predicate IsValid(typ: SymbolType, s: string) {
    match typ
    case String => true
    case Int => IsInt(s)
    case Hex => IsHex(s)
    case _ => false
  }

  /** sym_string_valid, for the types whose values are text; the character after the last is NUL */
  method StringValid(typ: SymbolType, s: string) returns (ok: bool)
    requires typ in {String, Int, Hex}
    ensures ok == IsValid(typ, s)
  {
    match typ
    case String => ok := true;
    case Int =>
      var i := 0;
      if i < |s| && s[i] == '-' {
        i := i + 1;
      }
      if i == |s| || !IsDigit(s[i]) || (s[i] == '0' && i + 1 < |s|) {
        return false;
      }
      ghost var d := s[i..];
      ghost var start := i;
      while i < |s|
        invariant start <= i <= |s| && forall k :: start <= k < i ==> IsDigit(s[k])
      {
        if !IsDigit(s[i]) {
          assert d[i - start] == s[i];
          return false;
        }
        i := i + 1;
      }
      ok := true;
    case Hex =>
      var i := if |s| >= 2 && s[0] == '0' && (s[1] == 'x' || s[1] == 'X') then 2 else 0;
      ghost var d := s[i..];
      ghost var start := i;
      if i == |s| {
        return false;
      }
      while i < |s|
        invariant start <= i <= |s| && forall k :: start <= k < i ==> IsHexDigit(s[k])
      {
        if !IsHexDigit(s[i]) {
          assert d[i - start] == s[i];
          return false;
        }
        i := i + 1;
      }
      ok := true;
  }

  // Printing

  function TristateText(t: Tristate): string {
    if t == NO then "n" else if t == MOD then "m" else "y"
  }

  predicate Switch(typ: SymbolType) { typ == Boolean || typ == Tri }

  function UnsetLine(name: string): string { "# " + CONFIG + name + " " + NOT_SET + "\n" }

  function AssignLine(name: string, p: string): string { CONFIG + name + "=" + p + "\n" }

  /** the line for a symbol in .config */
  function Line(name: string, e: Entry): string
    requires Switch(e.typ) || e.typ == Unknown || e.text.Some?
  {
    match e.typ
    case Unknown => ""
    case _ => if Switch(e.typ) && e.tri == NO then UnsetLine(name) else AssignLine(name, ValueText(e))
  }

  function ValueText(e: Entry): string
    requires Switch(e.typ) || e.text.Some?
  {
    if Switch(e.typ) then TristateText(e.tri) else if e.typ == String then Escape(e.text.value) else e.text.value
  }

  // Reading

  predicate StartsWith(s: string, prefix: string) {
    |prefix| <= |s| && s[..|prefix|] == prefix
  }

  /** the place of the first c in s, or the length of s */
  function IndexOf(s: string, c: char): (i: nat)
    ensures i <= |s| && (i < |s| ==> s[i] == c) && forall k :: 0 <= k < i ==> s[k] != c
  {
    if s == "" || s[0] == c then 0 else 1 + IndexOf(s[1..], c)
  }

  /** the value without the end of the line, which may be a carriage return and a newline */
  function WithoutEnd(s: string): string {
    var i := IndexOf(s, '\n');
    if 0 < i < |s| && s[i - 1] == '\r' then s[..i - 1] else s[..i]
  }

  /** conf_set_sym_val */
  function SetValue(e: Entry, p: string): Entry {
    match e.typ
    case Unknown => e
    case String =>
      if p == "" || p[0] != QUOTE || Scan(p[1..]) == None then e else e.(text := Scan(p[1..]), defined := true)
    case Boolean => SetSwitch(e, p)
    case Tri => SetSwitch(e, p)
    case _ => if IsValid(e.typ, p) then e.(text := Some(p), defined := true) else e
  }

  function SetSwitch(e: Entry, p: string): Entry {
    if p == "" then e
    else if p[0] == 'm' && e.typ == Tri then e.(tri := MOD, defined := true)
    else if p[0] == 'y' then e.(tri := YES, defined := true)
    else if p[0] == 'n' then e.(tri := NO, defined := true)
    else e
  }

  /** sym_find finds a symbol of this name; y, m and n are the constants, which no line changes */
  predicate Declared(symbols: Symbols, name: string) {
    name in symbols && name !in {"y", "m", "n"}
  }

  /** what a line asks for */
  datatype Effect = Nothing | Unsets(name: string) | Assigns(name: string, value: string)

  /** a line of the loop of conf_read_simple */
  function LineEffect(line: string): Effect {
    if line != "" && line[0] == '#' then
      if |line| < 2 then Nothing else CommentEffect(line[2..])
    else if StartsWith(line, CONFIG) then
      var rest := line[|CONFIG|..];
      var i := IndexOf(rest, '=');
      if i == |rest| then Nothing else Assigns(rest[..i], WithoutEnd(rest[i + 1..]))
    else Nothing
  }

  /** a line that starts with #, from its third character on */
  function CommentEffect(s: string): Effect {
    if !StartsWith(s, CONFIG) then Nothing
    else
      var rest := s[|CONFIG|..];
      var i := IndexOf(rest, ' ');
      if i < |rest| && StartsWith(rest[i + 1..], NOT_SET) then Unsets(rest[..i]) else Nothing
  }

  function Perform(symbols: Symbols, e: Effect): Symbols {
    match e
    case Nothing => symbols
    case Unsets(name) => Unset(symbols, name)
    case Assigns(name, p) => Assign(symbols, name, p)
  }

  /** one pass of the loop of conf_read_simple */
  function ReadText(symbols: Symbols, line: string): Symbols { Perform(symbols, LineEffect(line)) }

  function ReadComment(symbols: Symbols, s: string): Symbols { Perform(symbols, CommentEffect(s)) }

  function Unset(symbols: Symbols, name: string): Symbols {
    if Declared(symbols, name) && Switch(symbols[name].typ)
    then symbols[name := symbols[name].(tri := NO, defined := true)] else symbols
  }

  function Assign(symbols: Symbols, name: string, p: string): Symbols {
    if Declared(symbols, name) then symbols[name := SetValue(symbols[name], p)] else symbols
  }

  // Round trip

  /** a name the lexer accepts: without the characters that end it in a line, and not a constant */
  predicate IsName(name: string) {
    name !in {"y", "m", "n"} && forall c <- name :: c !in {' ', '=', '\n', NUL}
  }

  /** a value that .config can hold: no newline in strings, and numbers that are valid */
  predicate IsSaved(e: Entry) {
    && e.defined
    && match e.typ
       case Unknown => false
       case Boolean => e.tri != MOD && e.text == None
       case Tri => e.text == None
       case String => e.tri == NO && e.text.Some? && forall c <- e.text.value :: c !in {'\n', NUL}
       case _ => e.tri == NO && e.text.Some? && IsValid(e.typ, e.text.value)
  }

  /** conf_reset */
  function Reset(e: Entry): Entry { Entry(e.typ, NO, None, false) }

  lemma {:induction false} IndexOfAfter(s: string, c: char, t: string)
    requires c !in s
    ensures IndexOf(s + [c] + t, c) == |s|
  {
    if s != "" {
      assert (s + [c] + t)[1..] == s[1..] + [c] + t;
      IndexOfAfter(s[1..], c, t);
    }
  }

  /** what is before the end of the line, if it holds no newline and does not end in a carriage return */
  lemma EndRemoved(s: string)
    requires '\n' !in s && (s != "" ==> s[|s| - 1] != '\r')
    ensures WithoutEnd(s + "\n") == s
  {
    IndexOfAfter(s, '\n', "");
    assert s + "\n" + "" == s + "\n";
  }

  lemma AfterPrefix(prefix: string, rest: string)
    ensures StartsWith(prefix + rest, prefix) && (prefix + rest)[|prefix|..] == rest
  {
  }

  /** a text on both sides of a character */
  lemma Halves(a: string, c: char, b: string)
    ensures (a + [c] + b)[..|a|] == a && (a + [c] + b)[|a| + 1..] == b
  {
  }

  lemma ReadUnset(symbols: Symbols, name: string)
    requires IsName(name)
    ensures ReadText(symbols, UnsetLine(name)) == Unset(symbols, name)
  {
    var line := UnsetLine(name);
    var rest := name + " " + (NOT_SET + "\n");
    assert line[2..] == CONFIG + rest;
    AfterPrefix(CONFIG, rest);
    IndexOfAfter(name, ' ', NOT_SET + "\n");
    Halves(name, ' ', NOT_SET + "\n");
    AfterPrefix(NOT_SET, "\n");
    hide StartsWith, IndexOf;
  }

  lemma AssignEffect(rest: string)
    ensures
      var i := IndexOf(rest, '=');
      LineEffect(CONFIG + rest) == if i == |rest| then Nothing else Assigns(rest[..i], WithoutEnd(rest[i + 1..]))
  {
    hide IndexOf, WithoutEnd;
    assert (CONFIG + rest)[0] == CONFIG[0];
    AfterPrefix(CONFIG, rest);
  }

  lemma ReadAssign(symbols: Symbols, name: string, p: string)
    requires IsName(name) && '\n' !in p && (p != "" ==> p[|p| - 1] != '\r')
    ensures ReadText(symbols, AssignLine(name, p)) == Assign(symbols, name, p)
  {
    hide LineEffect, IndexOf, WithoutEnd;
    var rest := name + "=" + (p + "\n");
    assert AssignLine(name, p) == CONFIG + rest;
    AssignEffect(rest);
    IndexOfAfter(name, '=', p + "\n");
    Halves(name, '=', p + "\n");
    EndRemoved(p);
  }

  lemma {:induction false} BodyChars(s: string, c: char)
    requires c !in s && !Special(c)
    ensures c !in Body(s)
  {
    if s != "" {
      BodyChars(s[1..], c);
    }
  }

  lemma NumberChars(s: string)
    requires IsInt(s) || IsHex(s)
    ensures s != "" && '\n' !in s && '\r' !in s && NUL !in s
  {
    if IsInt(s) {
      if s[0] == '-' {
        DigitChars(s[1..]);
        assert s == "-" + s[1..];
      } else {
        DigitChars(s);
      }
    } else if |s| >= 2 && s[0] == '0' && (s[1] == 'x' || s[1] == 'X') {
      DigitChars(s[2..]);
      assert s == [s[0], s[1]] + s[2..];
    } else {
      DigitChars(s);
    }
  }

  lemma DigitChars(s: string)
    requires forall c <- s :: IsHexDigit(c)
    ensures '\n' !in s && '\r' !in s && NUL !in s
  {
    assert !IsHexDigit('\n') && !IsHexDigit('\r') && !IsHexDigit(NUL);
  }

  /** A saved value is printed on one line, and reading its text sets it. */
  lemma ValueRestored(e: Entry)
    requires IsSaved(e) && (Switch(e.typ) ==> e.tri != NO)
    ensures SetValue(Reset(e), ValueText(e)) == e
    ensures '\n' !in ValueText(e) && ValueText(e) != "" && ValueText(e)[|ValueText(e)| - 1] != '\r'
  {
    if e.typ == String {
      var v := e.text.value;
      BodyChars(v, '\n');
      ScanEscaped(v, "");
      assert Escape(v)[1..] == Body(v) + [QUOTE] + "";
    } else if !Switch(e.typ) {
      NumberChars(e.text.value);
    }
  }

  /** Reading the line that was written for a symbol restores its value and nothing else. */
  lemma LineRestores(symbols: Symbols, name: string, e: Entry)
    requires name in symbols && symbols[name] == Reset(e) && IsName(name) && IsSaved(e)
    ensures ReadText(symbols, Line(name, e)) == symbols[name := e]
  {
    hide Escape, ReadText;
    if Switch(e.typ) && e.tri == NO {
      ReadUnset(symbols, name);
    } else {
      ValueRestored(e);
      ReadAssign(symbols, name, ValueText(e));
    }
  }

  /** What is written for a symbol is one line. */
  lemma LineIsOne(name: string, e: Entry) returns (s: string)
    requires IsName(name) && IsSaved(e)
    ensures Line(name, e) == s + "\n" && '\n' !in s
  {
    if Switch(e.typ) && e.tri == NO {
      s := "# " + CONFIG + name + " " + NOT_SET;
    } else {
      ValueRestored(e);
      s := CONFIG + name + "=" + ValueText(e);
    }
  }

  /** __print_symbol for .config: what it writes is read back as the value it was given. */
  method PrintSymbol(name: string, e: Entry) returns (line: string)
    requires Switch(e.typ) || e.typ == Unknown || e.text.Some?
    ensures line == Line(name, e)
    ensures IsName(name) && IsSaved(e) ==>
              forall symbols: Symbols :: name in symbols && symbols[name] == Reset(e) ==>
                ReadText(symbols, line) == symbols[name := e]
  {
    forall symbols: Symbols | IsName(name) && IsSaved(e) && name in symbols && symbols[name] == Reset(e)
      ensures ReadText(symbols, Line(name, e)) == symbols[name := e]
    {
      LineRestores(symbols, name, e);
    }
    hide ReadText, IsSaved, IsName;
    if e.typ == Unknown {
      return "";
    }
    if Switch(e.typ) {
      if e.tri == NO {
        return "# " + CONFIG + name + " " + NOT_SET + "\n";
      }
      return CONFIG + name + "=" + TristateText(e.tri) + "\n";
    }
    var val := e.text.value;
    if e.typ == String {
      var size;
      val, size := EscapeValue(val);
    }
    line := CONFIG + name + "=" + val + "\n";
  }

  // The reader, in the line's buffer

  /** strchr(buf + at, c), or nothing at the end of the string */
  method FindChar(buf: array<char>, at: nat, c: char) returns (i: nat, found: bool)
    requires Terminated(buf[..], at) && c != NUL
    ensures
      var s := Text(buf[..], at);
      i == at + IndexOf(s, c) && (found <==> IndexOf(s, c) < |s|)
  {
    TextIn(buf[..], at);
    ghost var s := Text(buf[..], at);
    assert forall k :: 0 <= k < |s| ==> buf[at + k] == s[k];
    i := at;
    while buf[i] != NUL && buf[i] != c
      invariant at <= i <= at + |s| && forall k :: 0 <= k < i - at ==> s[k] != c
      decreases at + |s| - i
    {
      i := i + 1;
    }
    found := buf[i] != NUL;
    FirstIndex(s, c, i - at);
  }

  lemma {:induction false} FirstIndex(s: string, c: char, i: nat)
    requires i <= |s| && (i < |s| ==> s[i] == c) && forall k :: 0 <= k < i ==> s[k] != c
    ensures IndexOf(s, c) == i
  {
    if i > 0 {
      FirstIndex(s[1..], c, i - 1);
    }
  }

  /** memcmp or strncmp with a literal */
  method Matches(buf: array<char>, at: nat, prefix: string) returns (ok: bool)
    requires Terminated(buf[..], at) && NUL !in prefix
    ensures ok == StartsWith(Text(buf[..], at), prefix)
  {
    TextIn(buf[..], at);
    ghost var s := Text(buf[..], at);
    assert forall k :: 0 <= k < |s| ==> buf[at + k] == s[k];
    var i := 0;
    while i < |prefix| && buf[at + i] == prefix[i]
      invariant i <= |prefix| && i <= |s| && forall k :: 0 <= k < i ==> s[k] == prefix[k]
    {
      i := i + 1;
    }
    ok := i == |prefix|;
    if !ok && |prefix| <= |s| {
      assert s[..|prefix|][i] == s[i];
    }
  }

  /** the string at an address: xstrdup, or a name for sym_find */
  method Duplicate(buf: array<char>, at: nat) returns (s: string)
    requires Terminated(buf[..], at)
    ensures s == Text(buf[..], at)
  {
    TextIn(buf[..], at);
    var n := Length(buf, at);
    s := buf[at..at + n];
  }

  /** writing a NUL cuts a string */
  lemma Cut(b: seq<char>, at: nat, n: nat)
    requires Terminated(b, at) && n < |Text(b, at)| && at + n < |b|
    ensures
      var c := b[at + n := NUL];
      && Terminated(c, at) && Text(c, at) == Text(b, at)[..n]
      && Terminated(c, at + n + 1) && Text(c, at + n + 1) == Text(b, at)[n + 1..]
  {
    var c, s := b[at + n := NUL], Text(b, at);
    TextIn(b, at);
    assert c[at + n] == NUL && c[at..at + n] == s[..n];
    TextIs(c, at, s[..n]);
    assert c[at + |s|] == NUL && c[at + n + 1..at + |s|] == s[n + 1..];
    TextIs(c, at + n + 1, s[n + 1..]);
  }

  lemma FirstChar(b: seq<char>, s: string)
    requires |s| < |b| && b[|s|] == NUL && b[0..|s|] == s
    ensures b[0] == '#' <==> s != "" && s[0] == '#'
    ensures s != "" && s[0] == '#' && s != "#" ==> |s| > 1
  {
    if s != "" {
      assert b[0..|s|][0] == b[0];
      assert |s| == 1 ==> s == [s[0]];
    }
  }

  /** comments, and what is neither a comment nor an assignment */
  lemma LineKinds(s: string)
    ensures |s| > 1 && s[0] == '#' ==> LineEffect(s) == CommentEffect(s[2..])
    ensures (s == "" || s[0] != '#') && !StartsWith(s, CONFIG) ==> LineEffect(s) == Nothing
  {
  }

  class Configuration {
    var symbols: Symbols

    /** conf_set_sym_val, on the value at p in the buffer, which a quoted string overwrites */
    method SetSymVal(name: string, buf: array<char>, p: nat)
      requires name in symbols && Terminated(buf[..], p)
      modifies this, buf
      ensures symbols == old(symbols)[name := SetValue(old(symbols[name]), Text(old(buf[..]), p))]
    {
      var e := symbols[name];
      TextIn(buf[..], p);
      ghost var s := Text(buf[..], p);
      assert s == "" <==> buf[p] == NUL;
      match e.typ
      case Unknown =>
      case String =>
        if buf[p] != QUOTE {
          return;
        }
        TextAfter(buf[..], p, 1);
        var ok := Unescape(buf, p + 1);
        if ok {
          var v := Duplicate(buf, p + 1);
          symbols := symbols[name := e.(text := Some(v), defined := true)];
        }
      case Int =>
        SetNumber(name, buf, p);
      case Hex =>
        SetNumber(name, buf, p);
      case _ =>
        SetSwitchVal(name, buf, p);
    }

    method SetSwitchVal(name: string, buf: array<char>, p: nat)
      requires name in symbols && Switch(symbols[name].typ) && Terminated(buf[..], p)
      modifies this
      ensures symbols == old(symbols)[name := SetSwitch(old(symbols[name]), Text(buf[..], p))]
    {
      var e := symbols[name];
      TextIn(buf[..], p);
      ghost var s := Text(buf[..], p);
      assert s == "" <==> buf[p] == NUL;
      if buf[p] == 'm' && e.typ == Tri {
        symbols := symbols[name := e.(tri := MOD, defined := true)];
      } else if buf[p] == 'y' {
        symbols := symbols[name := e.(tri := YES, defined := true)];
      } else if buf[p] == 'n' {
        symbols := symbols[name := e.(tri := NO, defined := true)];
      }
    }

    method SetNumber(name: string, buf: array<char>, p: nat)
      requires name in symbols && symbols[name].typ in {Int, Hex} && Terminated(buf[..], p)
      modifies this
      ensures symbols == old(symbols)[name := SetValue(old(symbols[name]), Text(buf[..], p))]
    {
      var v := Duplicate(buf, p);
      var ok := StringValid(symbols[name].typ, v);
      if ok {
        symbols := symbols[name := symbols[name].(text := Some(v), defined := true)];
      }
    }

    /** One line of conf_read_simple. For a last line that holds just "#" and no newline the code looks at what an
        earlier, longer line has left behind the end, and may unset a symbol because of it. */
    method ReadLine(line: array<char>)
      requires Terminated(line[..], 0) && (Text(line[..], 0) == "#" ==> Terminated(line[..], 2))
      modifies this, line
      ensures old(Text(line[..], 0)) != "#" ==> symbols == ReadText(old(symbols), old(Text(line[..], 0)))
      ensures old(Text(line[..], 0)) == "#" ==> symbols == ReadComment(old(symbols), old(Text(line[..], 2)))
    {
      hide Text, CommentEffect, LineEffect, StartsWith, Terminated;
      TextIn(line[..], 0);
      FirstChar(line[..], Text(line[..], 0));
      LineKinds(Text(line[..], 0));
      if line[0] == '#' {
        if Text(line[..], 0) != "#" {
          TextAfter(line[..], 0, 2);
        }
        ReadUnset(line);
      } else {
        var ok := Matches(line, 0, CONFIG);
        if ok {
          ReadAssign(line);
        }
      }
    }

    /** a line that starts with # */
    method ReadUnset(line: array<char>)
      requires Terminated(line[..], 2)
      modifies this, line
      ensures symbols == ReadComment(old(symbols), old(Text(line[..], 2)))
    {
      hide Text, Terminated, Unset;
      var ok := Matches(line, 2, CONFIG);
      if !ok {
        return;
      }
      TextAfter(line[..], 2, 7);
      var p, found := FindChar(line, 9, ' ');
      if !found {
        return;
      }
      TextIn(line[..], 9);
      Cut(line[..], 9, p - 9);
      line[p] := NUL;
      UnsetNamed(line, 9, p + 1);
    }

    method UnsetNamed(line: array<char>, at: nat, p: nat)
      requires Terminated(line[..], at) && Terminated(line[..], p)
      modifies this
      ensures symbols == if StartsWith(Text(line[..], p), NOT_SET) then Unset(old(symbols), Text(line[..], at)) else old(symbols)
    {
      var ok := Matches(line, p, NOT_SET);
      if !ok {
        return;
      }
      var name := Duplicate(line, at);
      if Declared(symbols, name) && Switch(symbols[name].typ) {
        symbols := symbols[name := symbols[name].(tri := NO, defined := true)];
      }
    }

    /** a line that starts with CONFIG_ */
    method ReadAssign(line: array<char>)
      requires Terminated(line[..], 0) && StartsWith(Text(line[..], 0), CONFIG)
      modifies this, line
      ensures symbols == ReadText(old(symbols), old(Text(line[..], 0)))
    {
      hide Text, Assign, WithoutEnd, Terminated, ReadComment;
      TextAfter(line[..], 0, 7);
      var p, found := FindChar(line, 7, '=');
      if !found {
        return;
      }
      TextIn(line[..], 7);
      Cut(line[..], 7, p - 7);
      line[p] := NUL;
      RemoveEnd(line, 7, p + 1);
      AssignNamed(line, 7, p + 1);
    }

    method AssignNamed(line: array<char>, at: nat, p: nat)
      requires Terminated(line[..], at) && Terminated(line[..], p)
      modifies this, line
      ensures symbols == Assign(old(symbols), old(Text(line[..], at)), old(Text(line[..], p)))
    {
      hide Text, SetValue, Terminated;
      var name := Duplicate(line, at);
      if Declared(symbols, name) {
        SetSymVal(name, line, p);
      }
    }

    /** the end of the value at p is cut off, first the newline and then a carriage return */
    method RemoveEnd(line: array<char>, name: nat, p: nat)
      requires Terminated(line[..], name) && name + |Text(line[..], name)| + 1 == p && Terminated(line[..], p)
      modifies line
      ensures Terminated(line[..], name) && Text(line[..], name) == old(Text(line[..], name))
      ensures Terminated(line[..], p) && Text(line[..], p) == WithoutEnd(old(Text(line[..], p)))
    {
      ghost var b := line[..];
      TextIn(b, name);
      TextIn(b, p);
      var i, found := FindChar(line, p, '\n');
      if found {
        CutEnd(b, name, p, i);
        line[i] := NUL;
        if line[i - 1] == '\r' {
          line[i - 1] := NUL;
        }
      } else {
        assert Text(b, p)[..|Text(b, p)|] == Text(b, p);
      }
    }

    static lemma CutEnd(b: seq<char>, at: nat, p: nat, i: nat)
      requires Terminated(b, at) && Terminated(b, p) && at + |Text(b, at)| + 1 == p <= |b|
      requires i == p + IndexOf(Text(b, p), '\n') < p + |Text(b, p)| < |b|
      ensures
        var c := b[i := NUL];
        var d := if c[i - 1] == '\r' then c[i - 1 := NUL] else c;
        && Terminated(d, at) && Text(d, at) == Text(b, at)
        && Terminated(d, p) && Text(d, p) == WithoutEnd(Text(b, p))
    {
      hide Text, Terminated;
      var c := b[i := NUL];
      KeepBefore(b, c, at, p);
      Cut(b, p, i - p);
      TextIn(b, at);
      TextIn(b, p);
      if i > p {
        assert c[i - 1] == Text(b, p)[i - 1 - p] by { assert b[p..p + |Text(b, p)|][i - 1 - p] == b[i - 1]; }
        if c[i - 1] == '\r' {
          KeepBefore(c, c[i - 1 := NUL], at, p);
          Cut(c, p, i - 1 - p);
        }
      } else {
        assert c[i - 1] == NUL;
      }
    }

    static lemma KeepBefore(b: seq<char>, c: seq<char>, at: nat, p: nat)
      requires |b| == |c| && Terminated(b, at) && at + |Text(b, at)| < p <= |b| && b[..p] == c[..p]
      ensures Terminated(c, at) && Text(c, at) == Text(b, at)
    {
      var s := Text(b, at);
      TextIn(b, at);
      assert c[at..at + |s|] == s && c[at + |s|] == NUL;
      TextIs(c, at, s);
    }
  }
}
