/** Macro expansion: preprocess.c's variables, functions and references, as functions. */
module Preprocessing {
  import opened Characters
  import opened Expressions

  /** a struct variable, without its exp_count */
  datatype Variable = Variable(name: string, value: string, recursive: bool)

  /** what expansion depends on: the variable list, the environment, and what the functions that ask the
      surroundings (filename, lineno and shell) return */
  datatype Macros = Macros(vars: seq<Variable>, env: map<string, string>, run: (string, seq<string>) -> string)

  /** the expansion and the text after it; or the exit of pperror */
  datatype Outcome = Ok(text: string, rest: string) | Error

  /** the exp_count of each variable, in the order of the list */
  type Counts = c: seq<nat> | forall n <- c :: n <= LIMIT witness []

  const LIMIT: nat := 1001

  const FUNCTION_MAX_ARGS: nat := 16

  /** how often variables may still be entered */
  function Budget(c: Counts): nat {
    if c == [] then 0 else LIMIT - c[0] + Budget(c[1..])
  }

  lemma {:induction false} BudgetEntered(c: Counts, i: nat)
    requires i < |c| && c[i] < LIMIT
    ensures Budget(c[i := c[i] + 1]) < Budget(c)
  {
    if i > 0 {
      assert c[i := c[i] + 1][1..] == c[1..][i - 1 := c[i] + 1];
      BudgetEntered(c[1..], i - 1);
    }
  }

  /** variable_lookup: the first variable of this name, or the number of variables */
  function Lookup(vars: seq<Variable>, name: string): (i: nat)
    ensures i <= |vars| && (i < |vars| ==> vars[i].name == name) && forall k :: 0 <= k < i ==> vars[k].name != name
  {
    if vars == [] || vars[0].name == name then 0 else 1 + Lookup(vars[1..], name)
  }

  // Clauses

  /** The clause up to the parenthesis that closes it, of text after an opening one: its length, or that of the text. */
  function Closing(s: string, nest: nat): (q: nat)
    ensures q <= |s| && (q < |s| ==> s[q] == ')')
  {
    if s == "" then 0
    else if s[0] == '(' then 1 + Closing(s[1..], nest + 1)
    else if s[0] == ')' then (if nest == 0 then 0 else 1 + Closing(s[1..], nest - 1))
    else 1 + Closing(s[1..], nest)
  }

  /** the parts of a clause between the commas outside of parentheses; the first part is already begun */
  function Split(s: string, nest: int, begun: string): (parts: seq<string>)
    ensures |parts| > 0 && forall p <- parts :: |p| <= |begun| + |s|
  {
    if s == "" then [begun]
    else if nest == 0 && s[0] == ',' then [begun] + Split(s[1..], 0, "")
    else Split(s[1..], if s[0] == '(' then nest + 1 else if s[0] == ')' then nest - 1 else nest, begun + [s[0]])
  }

  function Decimal(s: string): nat
    requires forall c <- s :: IsDigit(c)
  {
    if s == "" then 0
    else
      assert IsDigit(s[|s| - 1]);
      10 * Decimal(s[..|s| - 1]) + (s[|s| - 1] as nat - '0' as nat)
  }

  /** strtoul on the whole string, with 64 bits; zero if it is not a number */
  function Number(s: string): nat {
    if s != "" && IsSpace(s[0]) then Number(s[1..])
    else
      var signed := s != "" && (s[0] == '+' || s[0] == '-');
      var d := if signed then s[1..] else s;
      if d == "" || exists c <- d :: !IsDigit(c) then 0
      else if Decimal(d) >= 0x1_0000_0000_0000_0000 then 0xffff_ffff_ffff_ffff
      else if s[0] == '-' then (0x1_0000_0000_0000_0000 - Decimal(d)) % 0x1_0000_0000_0000_0000
      else Decimal(d)
  }

  // Functions

  datatype Found = NotFound | Found(outcome: Outcome)

  /** the number of arguments of the functions of function_table */
  function Arity(name: string): (n: int) {
    if name == "error-if" || name == "warning-if" then 2
    else if name == "info" || name == "shell" then 1
    else if name == "filename" || name == "lineno" then 0
    else -1
  }

  /** function_expand */
  function FunctionExpand(m: Macros, name: string, args: seq<string>): Found {
    if Arity(name) < 0 then NotFound
    else if |args| != Arity(name) then Found(Error)
    else if name == "error-if" then (if args[0] == "y" then Found(Error) else Found(Ok("", "")))
    else if name == "warning-if" || name == "info" then Found(Ok("", ""))
    else Found(Ok(m.run(name, args), ""))
  }

  /** the parts of eval_clause after variable_expand: functions, then the environment, then nothing */
  function Otherwise(m: Macros, name: string, args: seq<string>): Outcome {
    match FunctionExpand(m, name, args)
    case Found(o) => o
    case NotFound =>
      if args == [] && name != "" && name in m.env then Ok(m.env[name], "") else Ok("", "")
  }

  // Expansion. The counts are passed down only: after an expansion they are what they were before.

  /** where a token ends, for expand_one_token; a string ends at its end only */
  predicate IsEnd(c: char, token: bool) {
    token && !(IsAlphanumeric(c) || c == '_' || c == '-' || c == '.' || c == '/')
  }

  function Before(text: string, o: Outcome): Outcome {
    if o.Error? then Error else Ok(text + o.text, o.rest)
  }

  /** __expand_string */
  function Expand(m: Macros, c: Counts, s: string, args: seq<string>, token: bool): Outcome
    requires |c| == |m.vars|
    decreases Budget(c), |s|, 0
  {
    if s == "" then Ok("", "")
    else if s[0] == '$' then
      if |s| == 1 || s[1] != '(' then Before("$", Expand(m, c, s[1..], args, token))
      else
        var q := Closing(s[2..], 0);
        if q == |s[2..]| then Error
        else
          var o := EvalClause(m, c, s[2..2 + q], args);
          if o.Error? then Error else Before(o.text, Expand(m, c, s[2 + q + 1..], args, token))
    else if IsEnd(s[0], token) then Ok("", s)
    else Before([s[0]], Expand(m, c, s[1..], args, token))
  }

  /** eval_clause */
  function EvalClause(m: Macros, c: Counts, clause: string, args: seq<string>): Outcome
    requires |c| == |m.vars|
    decreases Budget(c), |clause|, 2
  {
    var n := Number(clause);
    if 0 < n <= |args| then Ok(args[n - 1], "")
    else
      var parts := Split(clause, 0, "");
      if |parts| > FUNCTION_MAX_ARGS then Error
      else
        var all := ExpandAll(m, c, parts, args, |clause|);
        if all == None then Error
        else
          var (name, given) := (all.value[0], all.value[1..]);
          var v := VariableExpand(m, c, name, given);
          match v
          case Found(o) => o
          case NotFound => Otherwise(m, name, given)
  }

  /** the parts of a clause, each expanded */
  function ExpandAll(m: Macros, c: Counts, parts: seq<string>, args: seq<string>, bound: nat): (all: Option<seq<string>>)
    requires |c| == |m.vars| && forall p <- parts :: |p| <= bound
    ensures all.Some? ==> |all.value| == |parts|
    decreases Budget(c), bound, 1, |parts|
  {
    if parts == [] then Some([]) else
      var o := Expand(m, c, parts[0], args, false);
      if o.Error? then None else
        var more := ExpandAll(m, c, parts[1..], args, bound);
        if more.None? then None else Some([o.text] + more.value)
  }

  /** variable_expand: entering a variable spends one of the entries it has left */
  function VariableExpand(m: Macros, c: Counts, name: string, args: seq<string>): Found
    requires |c| == |m.vars|
    decreases Budget(c), 0, 0
  {
    var i := Lookup(m.vars, name);
    if i == |m.vars| then NotFound
    else if args == [] && c[i] > 0 then Found(Error)
    else if c[i] > 1000 then Found(Error)
    else if !m.vars[i].recursive then Found(Ok(m.vars[i].value, ""))
    else
      BudgetEntered(c, i);
      var o := Expand(m, Entered(c, i), m.vars[i].value, args, false);
      Found(if o.Error? then Error else Ok(o.text, ""))
  }

  function Entered(c: Counts, i: nat): Counts
    requires i < |c| && c[i] < LIMIT
  {
    c[i := c[i] + 1]
  }

  // Properties

  /** d has entered no variable more often than c */
  predicate Fewer(d: Counts, c: Counts) {
    |d| == |c| && forall i :: 0 <= i < |c| ==> d[i] <= c[i]
  }

  lemma FewerEntered(d: Counts, c: Counts, i: nat)
    requires Fewer(d, c) && i < |c| && c[i] < LIMIT
    ensures d[i] < LIMIT && Fewer(Entered(d, i), Entered(c, i))
  {
  }

  /** The counts only guard: an expansion that ends well does so, with the same text, wherever fewer variables
      have been entered. */
  lemma {:induction false} ExpandFewer(m: Macros, d: Counts, c: Counts, s: string, args: seq<string>, token: bool)
    requires |c| == |m.vars| && Fewer(d, c) && Expand(m, c, s, args, token).Ok?
    ensures Expand(m, d, s, args, token) == Expand(m, c, s, args, token)
    decreases Budget(c), |s|, 0
  {
    if s == "" {
    } else if s[0] == '$' {
      if |s| == 1 || s[1] != '(' {
        ExpandFewer(m, d, c, s[1..], args, token);
      } else {
        var q := Closing(s[2..], 0);
        EvalFewer(m, d, c, s[2..2 + q], args);
        ExpandFewer(m, d, c, s[2 + q + 1..], args, token);
      }
    } else if !IsEnd(s[0], token) {
      ExpandFewer(m, d, c, s[1..], args, token);
    }
  }

  lemma {:induction false} EvalFewer(m: Macros, d: Counts, c: Counts, clause: string, args: seq<string>)
    requires |c| == |m.vars| && Fewer(d, c) && EvalClause(m, c, clause, args).Ok?
    ensures EvalClause(m, d, clause, args) == EvalClause(m, c, clause, args)
    decreases Budget(c), |clause|, 2
  {
    var n := Number(clause);
    if !(0 < n <= |args|) {
      var parts := Split(clause, 0, "");
      ExpandAllFewer(m, d, c, parts, args, |clause|);
      var all := ExpandAll(m, c, parts, args, |clause|);
      VariableFewer(m, d, c, all.value[0], all.value[1..]);
    }
  }

  lemma {:induction false} ExpandAllFewer(m: Macros, d: Counts, c: Counts, parts: seq<string>, args: seq<string>, bound: nat)
    requires |c| == |m.vars| && Fewer(d, c) && (forall p <- parts :: |p| <= bound) && ExpandAll(m, c, parts, args, bound).Some?
    ensures ExpandAll(m, d, parts, args, bound) == ExpandAll(m, c, parts, args, bound)
    decreases Budget(c), bound, 1, |parts|
  {
    if parts != [] {
      ExpandFewer(m, d, c, parts[0], args, false);
      ExpandAllFewer(m, d, c, parts[1..], args, bound);
    }
  }

  lemma {:induction false} VariableFewer(m: Macros, d: Counts, c: Counts, name: string, args: seq<string>)
    requires |c| == |m.vars| && Fewer(d, c) && VariableExpand(m, c, name, args) != Found(Error)
    ensures VariableExpand(m, d, name, args) == VariableExpand(m, c, name, args)
    decreases Budget(c), 0, 0
  {
    var i := Lookup(m.vars, name);
    if i < |m.vars| && m.vars[i].recursive {
      BudgetEntered(c, i);
      FewerEntered(d, c, i);
      ExpandFewer(m, Entered(d, i), Entered(c, i), m.vars[i].value, args, false);
    }
  }

  /** text without references stands for itself */
  lemma {:induction false} ExpandLiteral(m: Macros, c: Counts, s: string, t: string, args: seq<string>)
    requires |c| == |m.vars| && '$' !in s
    ensures Expand(m, c, s + t, args, false) == Before(s, Expand(m, c, t, args, false))
  {
    if s == "" {
      assert s + t == t;
      BeforeTwice("", "", Expand(m, c, t, args, false));
    } else {
      assert (s + t)[1..] == s[1..] + t && [s[0]] + s[1..] == s;
      ExpandLiteral(m, c, s[1..], t, args);
      BeforeTwice([s[0]], s[1..], Expand(m, c, t, args, false));
    }
  }

  lemma BeforeTwice(a: string, b: string, o: Outcome)
    ensures Before(a, Before(b, o)) == Before(a + b, o) && Before("", o) == o
  {
    if o.Ok? {
      assert a + (b + o.text) == a + b + o.text && "" + o.text == o.text;
    }
  }

  // References

  /** balanced, with commas only inside of parentheses: one part of a clause */
  predicate IsPart(s: string, nest: nat) {
    if s == "" then nest == 0
    else if s[0] == '(' then IsPart(s[1..], nest + 1)
    else if s[0] == ')' then nest > 0 && IsPart(s[1..], nest - 1)
    else (nest > 0 || s[0] != ',') && IsPart(s[1..], nest)
  }

  function Joined(parts: seq<string>): string {
    if parts == [] then "" else if |parts| == 1 then parts[0] else parts[0] + "," + Joined(parts[1..])
  }

  lemma {:induction false} ClosingPart(s: string, nest: nat, t: string)
    requires IsPart(s, nest)
    ensures Closing(s + t, nest) == |s| + Closing(t, 0)
  {
    if s == "" {
      assert s + t == t;
    } else {
      assert (s + t)[1..] == s[1..] + t;
      ClosingPart(s[1..], if s[0] == '(' then nest + 1 else if s[0] == ')' then nest - 1 else nest, t);
    }
  }

  lemma {:induction false} ClosingJoined(parts: seq<string>, t: string)
    requires forall p <- parts :: IsPart(p, 0)
    ensures Closing(Joined(parts) + ")" + t, 0) == |Joined(parts)|
  {
    if |parts| == 0 {
      assert "" + ")" + t == [')'] + t;
    } else if |parts| == 1 {
      ClosingPart(parts[0], 0, ")" + t);
      assert parts[0] + ")" + t == parts[0] + (")" + t);
    } else {
      var more := Joined(parts[1..]) + ")" + t;
      ClosingJoined(parts[1..], t);
      assert Joined(parts) + ")" + t == parts[0] + ("," + more);
      ClosingPart(parts[0], 0, "," + more);
      assert ("," + more)[1..] == more;
    }
  }

  lemma {:induction false} SplitPart(s: string, nest: nat, begun: string, t: string)
    requires IsPart(s, nest)
    ensures Split(s, nest, begun) == [begun + s]
    ensures Split(s + "," + t, nest, begun) == [begun + s] + Split(t, 0, "")
  {
    if s == "" {
      assert begun + s == begun && s + "," + t == "," + t && ("," + t)[1..] == t;
    } else {
      assert (s + "," + t)[1..] == s[1..] + "," + t && begun + [s[0]] + s[1..] == begun + s;
      SplitPart(s[1..], if s[0] == '(' then nest + 1 else if s[0] == ')' then nest - 1 else nest, begun + [s[0]], t);
    }
  }

  /** Splitting a clause gives back the parts it is joined from. */
  lemma {:induction false} SplitJoined(parts: seq<string>)
    requires parts != [] && forall p <- parts :: IsPart(p, 0)
    ensures Split(Joined(parts), 0, "") == parts
  {
    hide Split, IsPart;
    assert "" + parts[0] == parts[0];
    if |parts| == 1 {
      SplitPart(parts[0], 0, "", "");
    } else {
      var more := Joined(parts[1..]);
      assert Joined(parts) == parts[0] + "," + more;
      SplitPart(parts[0], 0, "", more);
      SplitJoined(parts[1..]);
      assert [parts[0]] + parts[1..] == parts;
    }
  }

  lemma JoinedMore(p: string, parts: seq<string>)
    requires parts != []
    ensures Joined([p] + parts) == p + "," + Joined(parts)
  {
    assert ([p] + parts)[1..] == parts;
  }

  lemma Shifted(begun: string, s: string)
    requires s != ""
    ensures begun + [s[0]] + s[1..] == begun + s && "" + s[1..] == s[1..]
  {
  }

  lemma {:induction false} JoinedSplit(s: string, nest: int, begun: string)
    ensures Joined(Split(s, nest, begun)) == begun + s
  {
    if s == "" {
      assert begun + s == begun;
    } else {
      Shifted(begun, s);
      hide Joined;
      if nest == 0 && s[0] == ',' {
        JoinedSplit(s[1..], 0, "");
        JoinedMore(begun, Split(s[1..], 0, ""));
      } else {
        JoinedSplit(s[1..], if s[0] == '(' then nest + 1 else if s[0] == ')' then nest - 1 else nest, begun + [s[0]]);
      }
    }
  }

  /** begun is the beginning of a part, inside of this many parentheses */
  ghost predicate Begins(begun: string, nest: nat) {
    forall x: string :: IsPart(x, nest) ==> IsPart(begun + x, 0)
  }

  lemma BeginsNext(begun: string, nest: nat, c: char, next: nat)
    requires Begins(begun, nest) && forall x: string :: IsPart(x, next) ==> IsPart([c] + x, nest)
    ensures Begins(begun + [c], next)
  {
    forall x: string | IsPart(x, next) ensures IsPart(begun + [c] + x, 0) {
      assert begun + [c] + x == begun + ([c] + x);
    }
  }

  lemma {:induction false} SplitIsParts(s: string, nest: nat, begun: string)
    requires Closing(s + ")", nest) == |s| && Begins(begun, nest)
    ensures forall p <- Split(s, nest, begun) :: IsPart(p, 0)
  {
    if s == "" {
      assert nest == 0 && begun + "" == begun;
      assert IsPart("", 0);
    } else {
      var c := s[0];
      assert (s + ")")[0] == c && (s + ")")[1..] == s[1..] + ")";
      if nest == 0 && c == ',' {
        assert IsPart("", 0) && begun + "" == begun;
        EmptyBegins();
        SplitIsParts(s[1..], 0, "");
      } else {
        var next := if c == '(' then nest + 1 else if c == ')' then nest - 1 else nest;
        forall x: string | IsPart(x, next) ensures IsPart([c] + x, nest) {
          assert ([c] + x)[1..] == x;
        }
        BeginsNext(begun, nest, c, next);
        SplitIsParts(s[1..], next, begun + [c]);
      }
    }
  }

  lemma EmptyBegins()
    ensures Begins("", 0)
  {
    forall x: string | IsPart(x, 0) ensures IsPart("" + x, 0) {
      assert "" + x == x;
    }
  }

  /** Every clause that a parenthesis closes is such a list of parts joined. */
  lemma ClauseIsJoined(clause: string)
    requires Closing(clause + ")", 0) == |clause|
    ensures var parts := Split(clause, 0, ""); Joined(parts) == clause && forall p <- parts :: IsPart(p, 0)
  {
    EmptyBegins();
    JoinedSplit(clause, 0, "");
    SplitIsParts(clause, 0, "");
    assert "" + clause == clause;
  }

  lemma {:induction false} PartsFit(parts: seq<string>)
    ensures forall p <- parts :: |p| <= |Joined(parts)|
  {
    if |parts| > 1 {
      PartsFit(parts[1..]);
    }
  }

  /** what a reference with these expanded parts stands for: the variable, called with the arguments, else the
      function, else the environment, else nothing */
  function Called(m: Macros, c: Counts, all: seq<string>): Outcome
    requires |c| == |m.vars| && all != []
  {
    match VariableExpand(m, c, all[0], all[1..])
    case Found(o) => o
    case NotFound => Otherwise(m, all[0], all[1..])
  }

  /** The value of a clause with any parts: an argument if it is the number of one, and otherwise the parts are
      expanded, at most sixteen of them, and called. */
  lemma ClauseExpands(m: Macros, c: Counts, parts: seq<string>, args: seq<string>)
    requires |c| == |m.vars| && parts != [] && forall p <- parts :: IsPart(p, 0)
    ensures (forall p <- parts :: |p| <= |Joined(parts)|)
    ensures
      var n := Number(Joined(parts));
      EvalClause(m, c, Joined(parts), args)
      == if 0 < n <= |args| then Ok(args[n - 1], "")
         else if |parts| > FUNCTION_MAX_ARGS then Error
         else match ExpandAll(m, c, parts, args, |Joined(parts)|)
              case None => Error
              case Some(all) => Called(m, c, all)
  {
    hide Number, ExpandAll, VariableExpand, Otherwise;
    PartsFit(parts);
    SplitJoined(parts);
  }

  /** A reference to any clause, anywhere in a text: its value, and then the rest of the text. */
  lemma ReferenceExpands(m: Macros, c: Counts, parts: seq<string>, rest: string, args: seq<string>, token: bool)
    requires |c| == |m.vars| && forall p <- parts :: IsPart(p, 0)
    ensures
      var o := EvalClause(m, c, Joined(parts), args);
      Expand(m, c, "$(" + Joined(parts) + ")" + rest, args, token)
      == if o.Error? then Error else Before(o.text, Expand(m, c, rest, args, token))
  {
    hide *;
    var clause := Joined(parts);
    var s := "$(" + clause + ")" + rest;
    ClosingJoined(parts, rest);
    Reference(clause, rest);
    assert s[2..] == clause + ")" + rest;
    ExpandReference(m, c, s, |clause|, args, token);
  }

  lemma ExpandReference(m: Macros, c: Counts, s: string, q: nat, args: seq<string>, token: bool)
    requires |c| == |m.vars| && |s| > 2 && s[0] == '$' && s[1] == '(' && Closing(s[2..], 0) == q < |s[2..]|
    ensures
      var o := EvalClause(m, c, s[2..2 + q], args);
      Expand(m, c, s, args, token) == if o.Error? then Error else Before(o.text, Expand(m, c, s[2 + q + 1..], args, token))
  {
    hide EvalClause, Closing, Before;
  }

  lemma Reference(clause: string, rest: string)
    ensures
      var s := "$(" + clause + ")" + rest;
      && |s| > 2 && s[0] == '$' && s[1] == '('
      && s[2..] == clause + ")" + rest && s[2..2 + |clause|] == clause && s[2 + |clause| + 1..] == rest
  {
  }

  /** a name that stands for itself in a reference */
  predicate IsPlain(name: string) {
    name != "" && Number(name) == 0 && '$' !in name && '(' !in name && ')' !in name && ',' !in name
  }

  lemma {:induction false} PlainPart(s: string)
    requires '(' !in s && ')' !in s && ',' !in s
    ensures IsPart(s, 0)
  {
    if s != "" {
      assert s[0] in s;
      PlainPart(s[1..]);
    }
  }

  lemma OnlyName(m: Macros, c: Counts, name: string, args: seq<string>)
    requires |c| == |m.vars| && Expand(m, c, name, args, false) == Ok(name, "")
    ensures ExpandAll(m, c, [name], args, |name|) == Some([name])
  {
    hide Expand;
    assert ExpandAll(m, c, [], args, |name|) == Some([]);
    assert [name][1..] == [] && [name] + [] == [name];
  }

  /** $(NAME) is the variable's expansion if there is one, and otherwise the function's, the environment's, or
      nothing. */
  lemma NameExpands(m: Macros, c: Counts, name: string, args: seq<string>)
    requires |c| == |m.vars| && IsPlain(name)
    ensures
      Expand(m, c, "$(" + name + ")", args, false)
      == var o := Called(m, c, [name]); if o.Error? then Error else Ok(o.text, "")
  {
    hide Called, EvalClause, Number;
    PlainPart(name);
    assert Joined([name]) == name && "$(" + name + ")" + "" == "$(" + name + ")";
    ReferenceExpands(m, c, [name], "", args, false);
    ClauseExpands(m, c, [name], args);
    assert Expand(m, c, name, args, false) == Ok(name, "") by {
      ExpandLiteral(m, c, name, "", args);
      assert name + "" == name;
    }
    OnlyName(m, c, name, args);
    assert Expand(m, c, "", args, false) == Ok("", "");
    NothingAfter(EvalClause(m, c, name, args));
  }

  lemma NothingAfter(o: Outcome)
    ensures o.Ok? ==> Before(o.text, Ok("", "")) == Ok(o.text, "")
  {
    if o.Ok? {
      assert o.text + "" == o.text;
    }
  }

  /** A variable that refers to itself fails, whatever was entered before. */
  lemma SelfReferenceFails(m: Macros, c: Counts, name: string)
    requires |c| == |m.vars| && IsPlain(name) && Lookup(m.vars, name) < |m.vars|
    requires m.vars[Lookup(m.vars, name)] == Variable(name, "$(" + name + ")", true)
    ensures Expand(m, c, "$(" + name + ")", [], false) == Error
  {
    var i := Lookup(m.vars, name);
    assert [name][1..] == [];
    NameExpands(m, c, name, []);
    if c[i] == 0 {
      NameExpands(m, Entered(c, i), name, []);
    }
  }
}
