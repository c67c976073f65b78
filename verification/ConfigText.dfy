/** The text of .config, spelled out: what conf_write prints, and what conf_read_simple takes from lines that need
    not have been written by it (scripts/config/confdata.c). */
module ConfigText {
  import opened Characters
  import opened Expressions
  import opened Escaping
  import opened ConfigLines
  import Arithmetic
  import M = MenuWalk
  import F = ConfigFile

  // ----- what is written -----

  lemma SwitchLines(name: string, defined: bool)
    ensures Line(name, Entry(Boolean, YES, None, defined)) == "CONFIG_" + name + "=y\n"
    ensures Line(name, Entry(Tri, YES, None, defined)) == "CONFIG_" + name + "=y\n"
    ensures Line(name, Entry(Tri, MOD, None, defined)) == "CONFIG_" + name + "=m\n"
    ensures Line(name, Entry(Boolean, NO, None, defined)) == "# CONFIG_" + name + " is not set\n"
    ensures Line(name, Entry(Tri, NO, None, defined)) == "# CONFIG_" + name + " is not set\n"
  {
    assert "=" + "y" + "\n" == "=y\n" && "=" + "m" + "\n" == "=m\n";
    assert CONFIG + name + "=" + "y" + "\n" == CONFIG + name + ("=" + "y" + "\n");
    assert CONFIG + name + "=" + "m" + "\n" == CONFIG + name + ("=" + "m" + "\n");
    assert "# " + CONFIG == "# CONFIG_" && " " + NOT_SET + "\n" == " is not set\n";
    assert "# " + CONFIG + name + " " + NOT_SET + "\n" == "# " + CONFIG + name + (" " + NOT_SET + "\n");
  }

  /** Numbers are written as they are, strings between quotes. */
  lemma TextLines(name: string, s: string, defined: bool)
    ensures Line(name, Entry(Int, NO, Some(s), defined)) == "CONFIG_" + name + "=" + s + "\n"
    ensures Line(name, Entry(Hex, NO, Some(s), defined)) == "CONFIG_" + name + "=" + s + "\n"
    ensures Line(name, Entry(String, NO, Some(s), defined)) == "CONFIG_" + name + "=" + Escape(s) + "\n"
  {
  }

  /** Between the quotes, a backslash stands before each quote and each backslash, and nothing else changes. */
  lemma EscapeGrows(s: string, c: char)
    ensures Escape(s) == "\"" + Body(s) + "\"" && Body("") == ""
    ensures Body(s + [c]) == Body(s) + if c == '"' || c == '\\' then ['\\', c] else [c]
  {
    BodyAppend(s, [c]);
    assert Body([c]) == Unit(c) + Body("");
  }

  lemma MenuTexts(t: F.Texts, m: nat)
    ensures F.TextOf(t, M.Blank) == "\n"
    ensures F.TextOf(t, M.Title(m)) == "\n#\n# " + t.prompt(m) + "\n#\n"
    ensures F.TextOf(t, M.EndOf(m)) == "# end of " + t.prompt(m) + "\n"
    ensures F.Heading(t) ==
              "#\n# " + "Automatically generated file; DO NOT EDIT." + "\n# " + t.prompt(0) + "\n#\n"
  {
    assert F.BAR + "# " == "#\n# " && "\n" + "# " == "\n# " && "\n" + F.BAR == "\n#\n";
    HeadingJoined(F.BAR, "# ", F.GENERATED, "\n", t.prompt(0));
  }

  lemma HeadingJoined(bar: string, start: string, first: string, end: string, prompt: string)
    ensures bar + (start + first + end) + (start + prompt + end) + bar
            == (bar + start) + first + (end + start) + prompt + (end + bar)
  {
  }

  // ----- what is read -----

  /** an assignment as it may stand in a file, with or without a carriage return */
  function AssignmentOf(name: string, p: string, cr: bool): string {
    "CONFIG_" + name + "=" + (p + if cr then "\r" else "") + "\n"
  }

  lemma AssignmentRead(symbols: Symbols, name: string, p: string, cr: bool)
    requires IsName(name) && '\n' !in p && (p == "" ==> !cr) && (p != "" && !cr ==> p[|p| - 1] != '\r')
    ensures ReadText(symbols, AssignmentOf(name, p, cr)) == Assign(symbols, name, p)
  {
    hide LineEffect, IndexOf, WithoutEnd, IsName;
    var v := p + if cr then "\r" else "";
    AssignmentIs(name, v);
    AssignEffect(name + "=" + (v + "\n"));
    NameHolds(name);
    IndexOfAfter(name, '=', v + "\n");
    Halves(name, '=', v + "\n");
    EndRead(p, cr);
  }

  lemma NameHolds(name: string)
    requires IsName(name)
    ensures '=' !in name
  {
  }

  lemma AssignmentIs(name: string, v: string)
    ensures "CONFIG_" + name + "=" + v + "\n" == CONFIG + (name + "=" + (v + "\n"))
  {
  }

  lemma EndRead(p: string, cr: bool)
    requires '\n' !in p && (p == "" ==> !cr) && (p != "" && !cr ==> p[|p| - 1] != '\r')
    ensures WithoutEnd(p + (if cr then "\r" else "") + "\n") == p
  {
    var v := p + if cr then "\r" else "";
    IndexOfAfter(v, '\n', "");
    assert v + "\n" + "" == v + "\n";
    hide IndexOf;
  }

  /** A switch takes the first letter of the value: y, n, and m if it is a tristate. Anything else is ignored, and so
      is a name that no symbol has. */
  lemma SwitchRead(symbols: Symbols, name: string, p: string, cr: bool)
    requires IsName(name) && '\n' !in p && (p == "" ==> !cr) && (p != "" && !cr ==> p[|p| - 1] != '\r')
    requires name in symbols ==> symbols[name].typ == Boolean || symbols[name].typ == Tri
    ensures ReadText(symbols, AssignmentOf(name, p, cr))
            == if name !in symbols || p == "" then symbols
               else if p[0] == 'y' then symbols[name := symbols[name].(tri := YES, defined := true)]
               else if p[0] == 'n' then symbols[name := symbols[name].(tri := NO, defined := true)]
               else if p[0] == 'm' && symbols[name].typ == Tri then symbols[name := symbols[name].(tri := MOD, defined := true)]
               else symbols
  {
    hide ReadText, AssignmentOf;
    AssignmentRead(symbols, name, p, cr);
    if name in symbols {
      assert symbols[name := symbols[name]] == symbols;
    }
  }

  /** The comment that unsets a switch may go on behind "is not set". */
  lemma UnsetRead(symbols: Symbols, name: string, more: string)
    requires IsName(name) && name in symbols && (symbols[name].typ == Boolean || symbols[name].typ == Tri)
    ensures ReadText(symbols, "# CONFIG_" + name + " is not set" + more)
            == symbols[name := symbols[name].(tri := NO, defined := true)]
  {
    var rest := name + " " + (NOT_SET + more);
    var line := "# CONFIG_" + name + " is not set" + more;
    assert line[2..] == CONFIG + rest && line[0] == '#';
    AfterPrefix(CONFIG, rest);
    IndexOfAfter(name, ' ', NOT_SET + more);
    Halves(name, ' ', NOT_SET + more);
    AfterPrefix(NOT_SET, more);
    hide StartsWith, IndexOf;
  }

  /** Lines of any other form set nothing. */
  lemma OtherRead(symbols: Symbols, line: string)
    requires
      || line == "" || (line[0] != '#' && !StartsWith(line, "CONFIG_"))
      || (line[0] == '#' && (|line| < 2 || !StartsWith(line[2..], "CONFIG_")))
      || (StartsWith(line, "CONFIG_") && '=' !in line)
    ensures ReadText(symbols, line) == symbols
  {
    if line != "" && line[0] != '#' && StartsWith(line, CONFIG) {
      var rest := line[|CONFIG|..];
      assert forall c <- rest :: c in line;
    }
  }

  /** A string is what its quotes enclose, whatever follows them; without an opening quote it is ignored. */
  lemma StringRead(symbols: Symbols, name: string, s: string, more: string)
    requires IsName(name) && name in symbols && symbols[name].typ == String
    requires '\n' !in s && '\n' !in more && '\r' !in more
    ensures ReadText(symbols, AssignmentOf(name, "\"" + Body(s) + "\"" + more, false))
            == symbols[name := symbols[name].(text := Some(s), defined := true)]
    ensures more != "" && more[0] != '"' ==> ReadText(symbols, AssignmentOf(name, more, false)) == symbols
  {
    hide ReadText, AssignmentOf, IsName;
    var p := "\"" + Body(s) + "\"" + more;
    QuotedText(s, more);
    BodyChars(s, '\n');
    AssignmentRead(symbols, name, p, false);
    NameDeclared(symbols, name);
    hide Body, Scan;
    if more != "" && more[0] != '"' {
      AssignmentRead(symbols, name, more, false);
      assert symbols[name := symbols[name]] == symbols;
    }
  }

  lemma NameDeclared(symbols: Symbols, name: string)
    requires IsName(name) && name in symbols
    ensures Declared(symbols, name)
  {
  }

  lemma QuotedText(s: string, more: string)
    ensures var p := "\"" + Body(s) + "\"" + more;
            p[0] == QUOTE && Scan(p[1..]) == Some(s) && (more != "" ==> p[|p| - 1] == more[|more| - 1])
            && (more == "" ==> p[|p| - 1] == '"')
  {
    var p := "\"" + Body(s) + "\"" + more;
    ScanEscaped(s, more);
    assert p[1..] == Body(s) + [QUOTE] + more;
  }

  /** A number is taken as it is if it is one, and ignored otherwise. */
  lemma NumberRead(symbols: Symbols, name: string, p: string, cr: bool)
    requires IsName(name) && '\n' !in p && (p == "" ==> !cr) && (p != "" && !cr ==> p[|p| - 1] != '\r')
    requires name in symbols && symbols[name].typ in {Int, Hex}
    ensures ReadText(symbols, AssignmentOf(name, p, cr))
            == if (if symbols[name].typ == Int then IsInt(p) else IsHex(p))
               then symbols[name := symbols[name].(text := Some(p), defined := true)] else symbols
  {
    hide ReadText, AssignmentOf, IsInt, IsHex;
    AssignmentRead(symbols, name, p, cr);
    assert symbols[name := symbols[name]] == symbols;
  }

  // ----- numbers -----

  /** An int is the decimal text of a number, with a minus or without. */
  lemma IntIff(s: string)
    ensures IsInt(s) <==> exists n: nat :: s == Dec(n) || s == "-" + Dec(n)
  {
    if IsInt(s) {
      var d := if s[0] == '-' then s[1..] else s;
      var n := DigitsAreDec(d);
      assert s == if s[0] == '-' then "-" + d else d;
    }
    forall n: nat | s == Dec(n) || s == "-" + Dec(n) ensures IsInt(s) {
      DecDigits(n);
      assert Dec(n)[0] in Dec(n) && ("-" + Dec(n))[1..] == Dec(n);
      hide Dec;
    }
  }

  const HEX_DIGITS: string := "0123456789abcdefABCDEF"

  /** s is the hexadecimal digits x, with 0x or 0X before them or without. */
  ghost predicate IsHexText(s: string, x: string) {
    x != "" && (forall c <- x :: c in HEX_DIGITS) && (s == x || s == "0x" + x || s == "0X" + x)
  }

  lemma HexIff(s: string)
    ensures IsHex(s) <==> exists x :: IsHexText(s, x)
  {
    if IsHex(s) {
      var prefixed := |s| >= 2 && s[0] == '0' && (s[1] == 'x' || s[1] == 'X');
      var x := if prefixed then s[2..] else s;
      HexDigits(x);
      assert prefixed ==> s == (if s[1] == 'x' then "0x" else "0X") + x;
      assert IsHexText(s, x);
    }
    forall x | IsHexText(s, x) ensures IsHex(s) {
      HexDigits(x);
      HexDigit('x');
      HexDigit('X');
      assert s != x ==> s[2..] == x;
    }
  }

  lemma HexDigit(c: char)
    ensures IsHexDigit(c) <==> c in HEX_DIGITS
  {
    Digits(c);
    assert "0123456789" + "abcdef" + "ABCDEF" == HEX_DIGITS;
    assert c in "abcdef" <==> c == 'a' || c == 'b' || c == 'c' || c == 'd' || c == 'e' || c == 'f';
    assert c in "ABCDEF" <==> c == 'A' || c == 'B' || c == 'C' || c == 'D' || c == 'E' || c == 'F';
  }

  lemma HexDigits(x: string)
    ensures (forall c <- x :: IsHexDigit(c)) <==> forall c <- x :: c in HEX_DIGITS
  {
    forall c | c in x ensures IsHexDigit(c) <==> c in HEX_DIGITS {
      HexDigit(c);
    }
  }

  lemma {:induction false} DecDigits(n: nat)
    ensures (forall c <- Dec(n) :: IsDigit(c)) && (Dec(n)[0] == '0' ==> |Dec(n)| == 1 && n == 0)
  {
    if n < 10 {
      DigitIs(n);
    } else {
      DecDigits(n / 10);
      DigitIs(n % 10);
    }
  }

  lemma DigitIs(d: nat)
    requires d < 10
    ensures IsDigit(Digit(d)) && Digit(d) as int == '0' as int + d
  {
  }

  lemma DecDigit(d: nat)
    requires d < 10
    ensures Dec(d) == [Digit(d)] && Digit(0) == '0'
  {
  }

  lemma DecNext(m: nat, d: nat)
    requires d < 10
    ensures m > 0 ==> Dec(10 * m + d) == Dec(m) + [Digit(d)]
  {
    Arithmetic.Quotient(10 * m + d, 10, m, d);
    Arithmetic.Remainder(10 * m + d, 10, m, d);
    hide Digit;
  }

  lemma {:induction false} DigitsAreDec(d: string) returns (n: nat)
    requires d != "" && (forall c <- d :: IsDigit(c)) && (d[0] == '0' ==> |d| == 1)
    ensures Dec(n) == d
  {
    hide Dec, Digit;
    var c := d[|d| - 1];
    assert IsDigit(c);
    var last := c as int - '0' as int;
    DigitIs(last);
    DecDigit(last);
    if |d| == 1 {
      n := last;
    } else {
      var m := DigitsAreDec(d[..|d| - 1]);
      DecDigit(0);
      DecNext(m, last);
      n := 10 * m + last;
      assert d == d[..|d| - 1] + [c];
    }
  }
}
