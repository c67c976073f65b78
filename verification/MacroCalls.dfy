/** What single references in Kconfig text stand for: arguments, built-in functions, the environment, tokens
    (scripts/config/preprocess.c). */
module MacroCalls {
  import opened Characters
  import opened Expressions
  import opened Preprocessing

  // ----- tokens -----

  /** a letter, a digit or one of _-./ */
  predicate InToken(c: char) { c in DIGITS || c in LOWER || c in UPPER || c in "_-./" }

  lemma TokenEnds(c: char)
    ensures IsEnd(c, true) <==> !InToken(c)
    ensures !IsEnd(c, false)
  {
    Alphabet(c);
  }

  lemma TokenGoesOn(m: Macros, c: Counts, x: char, u: string, args: seq<string>)
    requires |c| == |m.vars| && InToken(x)
    ensures Expand(m, c, [x] + u, args, true) == Before([x], Expand(m, c, u, args, true))
  {
    TokenEnds(x);
    hide EvalClause, Before, InToken;
    assert x != '$' by { TokenEnds('$'); }
    assert ([x] + u)[1..] == u;
  }

  lemma TokenStops(m: Macros, c: Counts, t: string, args: seq<string>)
    requires |c| == |m.vars| && (t != "" ==> !InToken(t[0]) && t[0] != '$')
    ensures Expand(m, c, t, args, true) == Ok("", t)
  {
    if t != "" {
      TokenEnds(t[0]);
    }
  }

  /** A token goes on over letters, digits and _-./ and ends before anything else; a string goes to its end. */
  lemma {:induction false} TokenExpands(m: Macros, c: Counts, s: string, t: string, args: seq<string>)
    requires |c| == |m.vars| && forall x <- s :: InToken(x)
    requires t != "" ==> !InToken(t[0]) && t[0] != '$'
    ensures Expand(m, c, s + t, args, true) == Ok(s, t)
  {
    hide Expand, InToken;
    if s == "" {
      assert s + t == t;
      TokenStops(m, c, t, args);
    } else {
      TokenGoesOn(m, c, s[0], s[1..] + t, args);
      assert s + t == [s[0]] + (s[1..] + t) && [s[0]] + s[1..] == s;
      TokenExpands(m, c, s[1..], t, args);
    }
  }

  /** A dollar without a parenthesis stands for itself. */
  lemma DollarStays(m: Macros, c: Counts, t: string, args: seq<string>, token: bool)
    requires |c| == |m.vars| && (t != "" ==> t[0] != '(')
    ensures Expand(m, c, "$" + t, args, token) == Before("$", Expand(m, c, t, args, token))
  {
    assert ("$" + t)[1..] == t;
  }

  /** A reference that no parenthesis closes is an error. */
  lemma UnterminatedFails(m: Macros, c: Counts, s: string, args: seq<string>, token: bool)
    requires |c| == |m.vars| && ')' !in s
    ensures Expand(m, c, "$(" + s, args, token) == Error
  {
    NeverCloses(s, 0);
    assert ("$(" + s)[2..] == s;
  }

  lemma {:induction false} NeverCloses(s: string, nest: nat)
    requires ')' !in s
    ensures Closing(s, nest) == |s|
  {
    if s != "" {
      NeverCloses(s[1..], if s[0] == '(' then nest + 1 else nest);
    }
  }

  // ----- numbers -----

  lemma {:induction false} DecDecimal(n: nat)
    ensures (forall x <- Dec(n) :: IsDigit(x)) && Decimal(Dec(n)) == n
  {
    if n < 10 {
      LastDigit("", n);
      assert "" + [Digit(n)] == [Digit(n)];
    } else {
      DecDecimal(n / 10);
      LastDigit(Dec(n / 10), n % 10);
    }
  }

  lemma LastDigit(s: string, d: nat)
    requires d < 10 && forall x <- s :: IsDigit(x)
    ensures IsDigit(Digit(d)) && Decimal(s + [Digit(d)]) == 10 * Decimal(s) + d
  {
    assert (s + [Digit(d)])[..|s|] == s;
    assert Digit(d) as int == '0' as int + d;
  }

  /** A number counts as long as it fits in 64 bits, and a minus takes it modulo 2^64; blanks before it do not matter. */
  lemma NumberOfDec(n: nat, blank: char)
    ensures
      var fits := n < 0x1_0000_0000_0000_0000;
      && Number(Dec(n)) == Number("+" + Dec(n)) == (if fits then n else 0xffff_ffff_ffff_ffff)
      && Number("-" + Dec(n)) == (if !fits then 0xffff_ffff_ffff_ffff else if n == 0 then 0 else 0x1_0000_0000_0000_0000 - n)
      && (blank in BLANKS ==> Number([blank] + Dec(n)) == Number(Dec(n)))
  {
    DecDecimal(n);
    Blank(blank);
    hide Dec, Decimal;
    var s := Dec(n);
    assert s[0] in s && IsDigit(s[0]);
    assert ("+" + s)[1..] == s && ("-" + s)[1..] == s && ([blank] + s)[1..] == s;
  }

  lemma DecPlain(n: nat)
    ensures forall x <- Dec(n) :: x !in "$(),"
  {
    DecDecimal(n);
  }

  /** $(1), $(2) and so on are the arguments. */
  lemma ArgumentExpands(m: Macros, c: Counts, args: seq<string>, k: nat)
    requires |c| == |m.vars| && 1 <= k <= |args| && k < 0x1_0000_0000_0000_0000
    ensures Expand(m, c, "$(" + Dec(k) + ")", args, false) == Ok(args[k - 1], "")
  {
    hide EvalClause, Number, IsPart, Dec;
    var s := Dec(k);
    NumberOfDec(k, ' ');
    DecPlain(k);
    PlainPart(s);
    assert Joined([s]) == s && "$(" + s + ")" + "" == "$(" + s + ")";
    ReferenceExpands(m, c, [s], "", args, false);
    ClauseExpands(m, c, [s], args);
    assert Expand(m, c, "", args, false) == Ok("", "");
    hide Expand;
    NothingAfter(Ok(args[k - 1], ""));
  }

  // ----- calls -----

  /** text that a reference may contain as a part, and that stands for itself */
  predicate Literal(s: string) { IsPart(s, 0) && '$' !in s }

  lemma {:induction false} LiteralParts(m: Macros, c: Counts, parts: seq<string>, args: seq<string>, bound: nat)
    requires |c| == |m.vars| && forall p <- parts :: |p| <= bound && Literal(p)
    ensures ExpandAll(m, c, parts, args, bound) == Some(parts)
  {
    if parts != [] {
      var p := parts[0];
      assert p + "" == p;
      ExpandLiteral(m, c, p, "", args);
      assert Expand(m, c, "", args, false) == Ok("", "");
      LiteralParts(m, c, parts[1..], args, bound);
      assert [p] + parts[1..] == parts;
    }
  }

  lemma LiteralPart(s: string)
    requires Literal(s)
    ensures IsPart(s, 0)
  {
  }

  /** A reference with up to sixteen literal parts is called with them: the first is the name, the others are the
      arguments. */
  lemma CallExpands(m: Macros, c: Counts, all: seq<string>, args: seq<string>)
    requires |c| == |m.vars| && 1 <= |all| && forall p <- all :: Literal(p)
    requires |all| == 1 ==> Number(all[0]) == 0 || Number(all[0]) > |args|
    ensures EvalClause(m, c, Joined(all), args) == if |all| <= 16 then Called(m, c, all) else Error
  {
    if |all| > 1 {
      CommaNoNumber(Joined(all));
    }
    ClauseExpands(m, c, all, args);
    LiteralParts(m, c, all, args, |Joined(all)|);
  }

  lemma {:induction false} CommaNoNumber(s: string)
    requires ',' in s
    ensures Number(s) == 0
  {
    if IsSpace(s[0]) {
      CommaNoNumber(s[1..]);
    } else {
      var d := if s[0] == '+' || s[0] == '-' then s[1..] else s;
      assert ',' in d && !IsDigit(',');
    }
  }

  ghost predicate Undefined(m: Macros, name: string) { forall v <- m.vars :: v.name != name }

  lemma UndefinedNotFound(m: Macros, c: Counts, name: string, args: seq<string>)
    requires |c| == |m.vars|
    ensures VariableExpand(m, c, name, args) == NotFound <==> Undefined(m, name)
  {
    hide Expand;
    var i := Lookup(m.vars, name);
    if i < |m.vars| {
      assert m.vars[i] in m.vars;
    }
  }

  const FUNCTIONS: seq<string> := ["error-if", "filename", "info", "lineno", "shell", "warning-if"]

  /** error-if ends with the error if its condition is y, and stands for nothing otherwise, like warning-if and
      info always do; filename, lineno and shell stand for what they return. */
  lemma BuiltIns(m: Macros, c: Counts, x: string, y: string)
    requires |c| == |m.vars| && forall f <- FUNCTIONS :: Undefined(m, f)
    ensures Called(m, c, ["error-if", x, y]) == if x == "y" then Error else Ok("", "")
    ensures Called(m, c, ["warning-if", x, y]) == Called(m, c, ["info", x]) == Ok("", "")
    ensures Called(m, c, ["shell", x]) == Ok(m.run("shell", [x]), "")
    ensures Called(m, c, ["filename"]) == Ok(m.run("filename", []), "")
    ensures Called(m, c, ["lineno"]) == Ok(m.run("lineno", []), "")
  {
    hide VariableExpand;
    UndefinedNotFound(m, c, "error-if", [x, y]);
    UndefinedNotFound(m, c, "warning-if", [x, y]);
    UndefinedNotFound(m, c, "info", [x]);
    UndefinedNotFound(m, c, "shell", [x]);
    UndefinedNotFound(m, c, "filename", []);
    UndefinedNotFound(m, c, "lineno", []);
    assert ["filename"][1..] == [] && ["lineno"][1..] == [];
  }

  /** how many arguments the function takes */
  predicate Takes(f: string, n: nat) {
    || (f in {"error-if", "warning-if"} && n == 2) || (f in {"info", "shell"} && n == 1)
    || (f in {"filename", "lineno"} && n == 0)
  }

  /** Any other number of arguments is an error, and any other name is no function. */
  lemma ArityChecked(m: Macros, c: Counts, all: seq<string>)
    requires |c| == |m.vars| && all != [] && Undefined(m, all[0])
    ensures all[0] in FUNCTIONS && !Takes(all[0], |all| - 1) ==> Called(m, c, all) == Error
    ensures all[0] !in FUNCTIONS ==>
              Called(m, c, all) == Ok(if |all| == 1 && all[0] != "" && all[0] in m.env then m.env[all[0]] else "", "")
  {
    hide VariableExpand;
    UndefinedNotFound(m, c, all[0], all[1..]);
  }

  // ----- variables -----

  /** A variable that is not recursive stands for its value unless it is being expanded already: without arguments
      at all, with arguments more than a thousand times. */
  lemma SimpleVariable(m: Macros, c: Counts, name: string, args: seq<string>, i: nat)
    requires |c| == |m.vars| && i < |m.vars| && m.vars[i].name == name && !m.vars[i].recursive
    requires forall k :: 0 <= k < i ==> m.vars[k].name != name
    ensures VariableExpand(m, c, name, args)
            == if c[i] == 0 || (args != [] && c[i] <= 1000) then Found(Ok(m.vars[i].value, "")) else Found(Error)
  {
  }

  /** A function defined as its k-th argument stands for that when it is called. */
  lemma FunctionCalled(m: Macros, c: Counts, name: string, args: seq<string>, k: nat, i: nat)
    requires |c| == |m.vars| && i < |m.vars| && m.vars[i] == Variable(name, "$(" + Dec(k) + ")", true) && c[i] <= 1000
    requires forall j :: 0 <= j < i ==> m.vars[j].name != name
    requires 1 <= k <= |args| && k < 0x1_0000_0000_0000_0000
    ensures VariableExpand(m, c, name, args) == Found(Ok(args[k - 1], ""))
  {
    hide Expand, Dec;
    ArgumentExpands(m, Entered(c, i), args, k);
  }

  /** A function defined as a call of itself is entered until its count is beyond a thousand, and then fails. */
  lemma {:induction false} SelfCallFails(m: Macros, c: Counts, name: string, x: string, i: nat)
    requires |c| == |m.vars| && i < |m.vars| && m.vars[i] == Variable(name, "$(" + name + "," + x + ")", true)
    requires (forall k :: 0 <= k < i ==> m.vars[k].name != name) && Literal(name) && Literal(x)
    ensures VariableExpand(m, c, name, [x]) == Found(Error)
    decreases LIMIT - c[i]
  {
    if c[i] <= 1000 {
      SelfCallFails(m, Entered(c, i), name, x, i);
      SelfCall(m, Entered(c, i), name, x);
    }
  }

  lemma SelfCall(m: Macros, c: Counts, name: string, x: string)
    requires |c| == |m.vars| && Literal(name) && Literal(x) && VariableExpand(m, c, name, [x]) == Found(Error)
    ensures Expand(m, c, "$(" + name + "," + x + ")", [x], false) == Error
  {
    hide Expand, VariableExpand, EvalClause, Literal, Number;
    var all := [name, x];
    assert all[1..] == [x] && Joined(all) == name + "," + x;
    LiteralPart(name);
    LiteralPart(x);
    CallExpands(m, c, all, [x]);
    ReferenceExpands(m, c, all, "", [x], false);
    assert "$(" + Joined(all) + ")" + "" == "$(" + name + "," + x + ")";
  }
}
