/** Reading a configuration file: compat_getline cuts it at newlines, and conf_read_simple reads line after line. */
module ConfigReading {
  import opened Expressions
  import opened Escaping
  import opened ConfigLines

  // Lines

  /** the lines of a file, each with its newline, which the last may lack */
  function Lines(text: string): (lines: seq<string>)
    ensures text != "" ==> lines != []
  {
    if text == "" then []
    else
      var i := IndexOf(text, '\n');
      if i == |text| then [text] else [text[..i + 1]] + Lines(text[i + 1..])
  }

  /** nothing but complete lines */
  predicate IsWhole(text: string) { text == "" || text[|text| - 1] == '\n' }

  lemma CutAt(text: string, i: nat)
    requires i < |text| && text[i] == '\n' && '\n' !in text[..i]
    ensures Lines(text) == [text[..i + 1]] + Lines(text[i + 1..])
  {
    assert forall k :: 0 <= k < i ==> text[..i][k] == text[k];
    FirstIndex(text, '\n', i);
  }

  lemma NoCut(text: string)
    requires '\n' !in text && text != ""
    ensures Lines(text) == [text]
  {
    FirstIndex(text, '\n', |text|);
  }

  /** Cutting complete lines and what follows them is cutting both. */
  lemma {:induction false} LinesAppend(a: string, b: string)
    requires IsWhole(a)
    ensures Lines(a + b) == Lines(a) + Lines(b)
  {
    if a == "" {
      assert a + b == b;
    } else {
      var i := IndexOf(a, '\n');
      assert a[|a| - 1] == '\n';
      Sliced(a, b, i);
      CutAt(a + b, i);
      LinesAppend(a[i + 1..], b);
      assert [a[..i + 1]] + (Lines(a[i + 1..]) + Lines(b)) == [a[..i + 1]] + Lines(a[i + 1..]) + Lines(b);
    }
  }

  lemma Sliced(a: string, b: string, i: nat)
    requires i < |a| && forall k :: 0 <= k < i ==> a[k] != '\n'
    ensures (a + b)[..i + 1] == a[..i + 1] && (a + b)[i + 1..] == a[i + 1..] + b && '\n' !in (a + b)[..i]
  {
  }

  /** What is put before the first line goes into the first line. */
  lemma LinesPrefixed(p: string, s: string)
    requires '\n' !in p && s != ""
    ensures Lines(p + s) == [p + Lines(s)[0]] + Lines(s)[1..]
  {
    var i := IndexOf(s, '\n');
    if i == |s| {
      NoCut(s);
      NoCut(p + s);
    } else {
      PrefixedCut(p, s, i);
    }
  }

  lemma PrefixedCut(p: string, s: string, i: nat)
    requires i < |s| && '\n' !in p && s[i] == '\n' && forall k :: 0 <= k < i ==> s[k] != '\n'
    ensures Lines(s) != [] && Lines(p + s) == [p + Lines(s)[0]] + Lines(s)[1..]
  {
    hide *;
    Shifted(p, s, i);
    CutAt(p + s, |p| + i);
    assert '\n' !in s[..i];
    CutAt(s, i);
    FirstOf(s[..i + 1], Lines(s[i + 1..]));
  }

  lemma FirstOf<T>(x: T, rest: seq<T>)
    ensures ([x] + rest)[0] == x && ([x] + rest)[1..] == rest
  {
  }

  lemma Shifted(p: string, s: string, i: nat)
    requires i < |s| && '\n' !in p && s[i] == '\n' && forall k :: 0 <= k < i ==> s[k] != '\n'
    ensures (p + s)[|p| + i] == '\n' && '\n' !in (p + s)[..|p| + i]
    ensures (p + s)[..|p| + i + 1] == p + s[..i + 1] && (p + s)[|p| + i + 1..] == s[i + 1..]
  {
  }

  lemma OneLine(s: string)
    requires '\n' !in s
    ensures Lines(s + "\n") == [s + "\n"]
  {
    assert (s + "\n")[..|s|] == s;
    CutAt(s + "\n", |s|);
    assert (s + "\n")[..|s| + 1] == s + "\n" && (s + "\n")[|s| + 1..] == "";
  }

  // What reading a file does

  /** the loop of conf_read_simple, over lines */
  function Read(symbols: Symbols, lines: seq<string>): Symbols {
    if lines == [] then symbols else ReadText(Read(symbols, lines[..|lines| - 1]), lines[|lines| - 1])
  }

  function ReadFile(symbols: Symbols, text: string): Symbols { Read(symbols, Lines(text)) }

  lemma {:induction false} ReadAppend(symbols: Symbols, a: seq<string>, b: seq<string>)
    ensures Read(symbols, a + b) == Read(Read(symbols, a), b)
  {
    if b == [] {
      assert a + b == a;
    } else {
      assert (a + b)[..|a + b| - 1] == a + b[..|b| - 1];
      ReadAppend(symbols, a, b[..|b| - 1]);
    }
  }

  lemma ReadOne(symbols: Symbols, line: string)
    ensures Read(symbols, [line]) == ReadText(symbols, line)
  {
    assert [line][..0] == [];
    assert Read(symbols, []) == symbols;
  }

  /** Reading complete lines and what follows them is reading one after the other. */
  lemma ReadFileAppend(symbols: Symbols, a: string, b: string)
    requires IsWhole(a)
    ensures ReadFile(symbols, a + b) == ReadFile(ReadFile(symbols, a), b)
  {
    LinesAppend(a, b);
    ReadAppend(symbols, Lines(a), Lines(b));
  }

  // Lines that set nothing

  /** symbols of some type take this value */
  predicate IsTaken(p: string) {
    IsInt(p) || IsHex(p) || (p != "" && (p[0] in {'y', 'm', 'n'} || (p[0] == QUOTE && Scan(p[1..]).Some?)))
  }

  predicate SetsNothing(e: Effect) {
    match e
    case Nothing => true
    case Unsets(name) => name in {"y", "m", "n"}
    case Assigns(name, p) => name in {"y", "m", "n"} || !IsTaken(p)
  }

  /** reading these lines changes no configuration */
  ghost predicate AreSilent(lines: seq<string>) {
    forall symbols: Symbols :: Read(symbols, lines) == symbols
  }

  lemma SetsNothingChanges(symbols: Symbols, e: Effect)
    requires SetsNothing(e)
    ensures Perform(symbols, e) == symbols
  {
  }

  /** the type of the symbols such an effect sets, and their name */
  function TargetType(e: Effect): SymbolType
    requires !SetsNothing(e)
  {
    match e
    case Unsets(_) => Boolean
    case Assigns(_, p) => if IsInt(p) then Int else if IsHex(p) then Hex else if p[0] == QUOTE then String else Tri
  }

  function TargetName(e: Effect): string
    requires !SetsNothing(e)
  {
    e.name
  }

  lemma TargetDefined(symbols: Symbols, e: Effect)
    requires !SetsNothing(e) && TargetName(e) in symbols && symbols[TargetName(e)].typ == TargetType(e)
    ensures TargetName(e) in Perform(symbols, e) && Perform(symbols, e)[TargetName(e)].defined
  {
  }

  /** the same symbols with the same types, and what was defined still is */
  ghost predicate Keeps(s: Symbols, t: Symbols) {
    s.Keys == t.Keys && forall n <- s :: t[n].typ == s[n].typ && (s[n].defined ==> t[n].defined)
  }

  lemma PerformKeeps(symbols: Symbols, e: Effect)
    ensures Keeps(symbols, Perform(symbols, e))
  {
  }

  lemma {:induction false} ReadKeeps(symbols: Symbols, lines: seq<string>)
    ensures Keeps(symbols, Read(symbols, lines))
  {
    if lines != [] {
      ReadKeeps(symbols, lines[..|lines| - 1]);
      PerformKeeps(Read(symbols, lines[..|lines| - 1]), LineEffect(lines[|lines| - 1]));
    }
  }

  lemma {:induction false} NothingRead(symbols: Symbols, lines: seq<string>)
    requires forall l <- lines :: SetsNothing(LineEffect(l))
    ensures Read(symbols, lines) == symbols
  {
    if lines != [] {
      NothingRead(symbols, lines[..|lines| - 1]);
      assert lines[|lines| - 1] in lines;
      SetsNothingChanges(symbols, LineEffect(lines[|lines| - 1]));
    }
  }

  /** a configuration that the k-th line changes for good */
  lemma SomethingRead(lines: seq<string>, k: nat)
    requires k < |lines| && !SetsNothing(LineEffect(lines[k]))
    ensures !AreSilent(lines)
  {
    hide LineEffect, Perform, SetsNothing;
    var e := LineEffect(lines[k]);
    var symbols: Symbols := map[TargetName(e) := Entry(TargetType(e), NO, None, false)];
    var before, after := lines[..k], lines[k + 1..];
    assert lines == before + [lines[k]] + after;
    ReadAppend(symbols, before + [lines[k]], after);
    ReadAppend(symbols, before, [lines[k]]);
    ReadKeeps(symbols, before);
    var s1 := Read(symbols, before);
    ReadOne(s1, lines[k]);
    TargetDefined(s1, e);
    ReadKeeps(Perform(s1, e), after);
    assert Read(symbols, lines) != symbols;
  }

  /** Lines change nothing, whatever the configuration, exactly if each of them sets nothing. */
  lemma SilentIff(lines: seq<string>)
    ensures AreSilent(lines) <==> forall l <- lines :: SetsNothing(LineEffect(l))
  {
    if forall l <- lines :: SetsNothing(LineEffect(l)) {
      forall symbols: Symbols ensures Read(symbols, lines) == symbols {
        NothingRead(symbols, lines);
      }
    } else {
      var k :| 0 <= k < |lines| && !SetsNothing(LineEffect(lines[k]));
      SomethingRead(lines, k);
    }
  }

  // The loops

  const LINE_GROWTH: nat := 16

  /** compat_getline's buffer and the stream it reads */
  class LineReader {
    const text: string
    var at: nat
    var buf: array<char>

    constructor (text: string)
      ensures this.text == text && at == 0 && fresh(buf)
    {
      this.text, at, buf := text, 0, new char[0];
    }

    /** add_byte */
    method AddByte(c: char, slen: nat)
      requires slen <= buf.Length
      modifies this`buf, buf
      ensures buf == old(buf) || fresh(buf)
      ensures slen < buf.Length && buf[..slen] == old(buf[..slen]) && buf[slen] == c
    {
      if slen + 1 > buf.Length {
        var bigger := new char[(slen + 1 + LINE_GROWTH - 1) * 2];
        forall i | 0 <= i < slen { bigger[i] := buf[i]; }
        buf := bigger;
      }
      buf[slen] := c;
    }

    /** compat_getline: the length of the next line, which is in the buffer with a terminator, or none at the end */
    method GetLine() returns (n: Option<nat>)
      requires at <= |text|
      modifies this`at, this`buf, buf
      ensures buf == old(buf) || fresh(buf)
      ensures old(at) <= at <= |text| && (n.None? <==> old(at) == |text|)
      ensures n.Some? ==> old(at) < at && n.value == at - old(at) < buf.Length
      ensures n.Some? ==> buf[..n.value] == text[old(at)..at] && buf[n.value] == NUL
      ensures n.Some? ==> Lines(text[old(at)..]) == [text[old(at)..at]] + Lines(text[at..])
    {
      hide *;
      ghost var start := at;
      var slen := 0;
      while true
        invariant buf == old(buf) || fresh(buf)
        invariant start <= at <= |text| && slen == at - start <= buf.Length
        invariant buf[..slen] == text[start..at] && '\n' !in text[start..at]
        decreases |text| - at
      {
        if at == |text| {
          AddByte(NUL, slen);
          LastLine(text, start);
          return if slen == 0 then None else Some(slen);
        }
        var c := text[at];
        at := at + 1;
        AddByte(c, slen);
        slen := slen + 1;
        Longer(buf[..], text, start, at, slen);
        if c == '\n' {
          AddByte(NUL, slen);
          NextLine(text, start, at);
          return Some(slen);
        }
      }
    }
  }

  /** one more character in the buffer */
  lemma Longer(b: seq<char>, text: string, start: nat, at: nat, slen: nat)
    requires start < at <= |text| && slen == at - start <= |b|
    requires b[..slen - 1] == text[start..at - 1] && b[slen - 1] == text[at - 1]
    ensures b[..slen] == text[start..at]
    ensures '\n' !in text[start..at - 1] && text[at - 1] != '\n' ==> '\n' !in text[start..at]
  {
    assert b[..slen] == b[..slen - 1] + [b[slen - 1]];
    assert text[start..at] == text[start..at - 1] + [text[at - 1]];
  }

  lemma LastLine(text: string, start: nat)
    requires start <= |text| && '\n' !in text[start..]
    ensures start < |text| ==> Lines(text[start..]) == [text[start..|text|]] + Lines(text[|text|..])
  {
    if start < |text| {
      NoCut(text[start..]);
      assert text[start..|text|] == text[start..] && text[|text|..] == "" && Lines("") == [];
    }
  }

  lemma NextLine(text: string, start: nat, at: nat)
    requires start < at <= |text| && '\n' !in text[start..at - 1] && text[at - 1] == '\n'
    ensures Lines(text[start..]) == [text[start..at]] + Lines(text[at..])
  {
    var s, i := text[start..], at - 1 - start;
    assert s[..i] == text[start..at - 1] && s[..i + 1] == text[start..at] && s[i + 1..] == text[at..];
    CutAt(s, i);
  }

  /** conf_reset */
  function ResetAll(symbols: Symbols): Symbols { map n | n in symbols :: Reset(symbols[n]) }

  /** conf_read_simple on an open file for S_DEF_USER */
  method ReadSimple(config: Configuration, text: string)
    requires NUL !in text && "#" !in Lines(text)
    modifies config
    ensures config.symbols == ReadFile(ResetAll(old(config.symbols)), text)
  {
    hide *;
    config.symbols := ResetAll(config.symbols);
    ghost var reset, done: seq<string> := config.symbols, [];
    var reader := new LineReader(text);
    assert text[0..] == text && [] + Lines(text) == Lines(text);
    assert Read(reset, []) == reset by { NothingRead(reset, []); }
    while true
      invariant reader.text == text && reader.at <= |text| && fresh(reader) && fresh(reader.buf)
      invariant Lines(text) == done + Lines(text[reader.at..]) && config.symbols == Read(reset, done)
      decreases |text| - reader.at
    {
      ghost var start := reader.at;
      var n := reader.GetLine();
      if n == None {
        break;
      }
      ghost var line := text[start..reader.at];
      LineInText(text, done, line, text[reader.at..]);
      NulNotIn(text, start, reader.at);
      Terminates(reader.buf[..], line);
      config.ReadLine(reader.buf);
      ReadAppend(reset, done, [line]);
      ReadOne(Read(reset, done), line);
      done := done + [line];
    }
    NothingLeft(text, done);
    assert ReadFile(reset, text) == Read(reset, Lines(text)) by { FileIsLines(reset, text); }
  }

  lemma FileIsLines(symbols: Symbols, text: string)
    ensures ReadFile(symbols, text) == Read(symbols, Lines(text))
  {
  }

  lemma NothingLeft(text: string, done: seq<string>)
    requires Lines(text) == done + Lines(text[|text|..])
    ensures Lines(text) == done
  {
    assert text[|text|..] == "" && done + [] == done;
  }

  lemma NulNotIn(text: string, i: nat, j: nat)
    requires i <= j <= |text| && NUL !in text
    ensures NUL !in text[i..j]
  {
  }

  lemma Terminates(b: seq<char>, line: string)
    requires |line| < |b| && b[..|line|] == line && b[|line|] == NUL && NUL !in line
    ensures Terminated(b, 0) && Text(b, 0) == line
  {
    assert b[0..|line|] == line;
    TextIs(b, 0, line);
  }

  lemma LineInText(text: string, done: seq<string>, line: string, rest: string)
    requires Lines(text) == done + ([line] + Lines(rest))
    ensures line in Lines(text) && Lines(text) == done + [line] + Lines(rest)
  {
    assert Lines(text)[|done|] == line;
  }
}
