/** expr_print, and reading its tokens back with the expression grammar of parser.y. */
module Printing {
  import opened Expressions
  import opened Equality
  import opened Canonical
  import opened Rearrangement

  datatype Token = TWord(name: string) | TRel(rel: Rel) | TNot | TAnd | TOr | TOpen | TClose

  /** the operator an expression is printed under */
  datatype Outer = Top | UnderNot | Under(op: Op)

  function NameOf(s: Symbol): string {
    match s
    case Yes => "y"
    case Mod => "m"
    case No => "n"
    case Named(name, _) => name
    case Quoted(text, _) => text
  }

  /** expr_compare_type(prevtoken, e->type) > 0 */
  predicate NeedsParens(e: Expr, outer: Outer) {
    e.Bin? && (outer == UnderNot || (outer == Under(OpAnd) && e.op == OpOr))
  }

  function OpToken(op: Op): Token { if op == OpAnd then TAnd else TOr }

  /** expr_print, as the sequence of tokens it emits */
  function Print(e: Expr, outer: Outer): seq<Token>
    decreases e, 1
  {
    if NeedsParens(e, outer) then [TOpen] + PrintBare(e) + [TClose] else PrintBare(e)
  }

  function PrintBare(e: Expr): seq<Token>
    decreases e, 0
  {
    match e
    case Sym(s) => [TWord(NameOf(s))]
    case Cmp(rel, l, r) => [TWord(NameOf(l)), TRel(rel), TWord(NameOf(r))]
    case Not(a) => [TNot] + Print(a, UnderNot)
    case Bin(op, l, r) => Print(l, Under(op)) + [OpToken(op)] + Print(r, Under(op))
  }

  function Wrapped(parens: bool, ts: seq<Token>): seq<Token> { if parens then [TOpen] + ts + [TClose] else ts }

  /** Parentheses stand around an OR in an AND and around an AND or OR in a NOT, and nowhere else. */
  lemma Precedence(l: Expr, r: Expr)
    ensures Print(Bin(OpOr, l, r), Top) == Print(l, Top) + [TOr] + Print(r, Top)
    ensures Print(Bin(OpAnd, l, r), Top)
            == Wrapped(IsOp(l, OpOr), Print(l, Top)) + [TAnd] + Wrapped(IsOp(r, OpOr), Print(r, Top))
    ensures Print(Not(l), Top) == [TNot] + Wrapped(l.Bin?, Print(l, Top))
  {
    hide PrintBare;
    PrintedPair(OpOr, l, r);
    PrintedPair(OpAnd, l, r);
    PrintedNot(l);
  }

  lemma PrintedPair(op: Op, l: Expr, r: Expr)
    ensures PrintBare(Bin(op, l, r)) == Print(l, Under(op)) + [OpToken(op)] + Print(r, Under(op))
  {
  }

  lemma PrintedNot(a: Expr)
    ensures PrintBare(Not(a)) == [TNot] + Print(a, UnderNot)
  {
  }

  // ----- the grammar: NOT binds tighter than AND, AND tighter than OR, both to the left -----

  type Types = map<string, SymbolType>

  /** sym_lookup of an unquoted word */
  function Lookup(name: string, types: Types): Symbol {
    if name == "y" then Yes
    else if name == "m" then Mod
    else if name == "n" then No
    else Named(name, if name in types then types[name] else Unknown)
  }

  type Parse = Option<(Expr, seq<Token>)>

  function ParseUnary(ts: seq<Token>, types: Types): (r: Parse)
    ensures r.Some? ==> |r.value.1| < |ts|
    decreases |ts|, 0
  {
    if ts == [] then None
    else match ts[0]
      case TNot =>
        var a := ParseUnary(ts[1..], types);
        if a.None? then None else Some((Not(a.value.0), a.value.1))
      case TOpen =>
        var a := ParseOr(ts[1..], types);
        if a.None? || a.value.1 == [] || a.value.1[0] != TClose then None else Some((a.value.0, a.value.1[1..]))
      case TWord(name) =>
        if |ts| > 1 && ts[1].TRel? then
          if |ts| > 2 && ts[2].TWord? then
            Some((Cmp(ts[1].rel, Lookup(name, types), Lookup(ts[2].name, types)), ts[3..]))
          else None
        else Some((Sym(Lookup(name, types)), ts[1..]))
      case _ => None
  }

  function ParseAnd(ts: seq<Token>, types: Types): (r: Parse)
    ensures r.Some? ==> |r.value.1| < |ts|
    decreases |ts|, 2
  {
    var a := ParseUnary(ts, types);
    if a.None? then None else AndTail(a.value.0, a.value.1, types)
  }

  function AndTail(acc: Expr, ts: seq<Token>, types: Types): (r: Parse)
    ensures r.Some? ==> |r.value.1| <= |ts|
    decreases |ts|, 1
  {
    if ts == [] || ts[0] != TAnd then Some((acc, ts))
    else
      var a := ParseUnary(ts[1..], types);
      if a.None? then None else AndTail(Bin(OpAnd, acc, a.value.0), a.value.1, types)
  }

  function ParseOr(ts: seq<Token>, types: Types): (r: Parse)
    ensures r.Some? ==> |r.value.1| < |ts|
    decreases |ts|, 4
  {
    var a := ParseAnd(ts, types);
    if a.None? then None else OrTail(a.value.0, a.value.1, types)
  }

  function OrTail(acc: Expr, ts: seq<Token>, types: Types): (r: Parse)
    ensures r.Some? ==> |r.value.1| <= |ts|
    decreases |ts|, 3
  {
    if ts == [] || ts[0] != TOr then Some((acc, ts))
    else
      var a := ParseAnd(ts[1..], types);
      if a.None? then None else OrTail(Bin(OpOr, acc, a.value.0), a.value.1, types)
  }

  /** a complete expression */
  function Parsed(ts: seq<Token>, types: Types): Option<Expr> {
    var r := ParseOr(ts, types);
    if r.Some? && r.value.1 == [] then Some(r.value.0) else None
  }

  // ----- what comes back: every AND and OR chain nested to the left, symbols looked up by name -----

  function Reread(e: Expr, types: Types): Expr
    decreases e, 1
  {
    match e
    case Sym(s) => Sym(Lookup(NameOf(s), types))
    case Cmp(rel, l, r) => Cmp(rel, Lookup(NameOf(l), types), Lookup(NameOf(r), types))
    case Not(a) => Not(Reread(a, types))
    case Bin(op, l, r) => Chain(op, Some(Chain(op, None, l, types)), r, types)
  }

  /** the operands of e under op, appended to the chain acc */
  function Chain(op: Op, acc: Option<Expr>, e: Expr, types: Types): Expr
    decreases e, 2
  {
    if IsOp(e, op) then Chain(op, Some(Chain(op, acc, e.l, types)), e.r, types)
    else if acc.None? then Reread(e, types)
    else Bin(op, acc.value, Reread(e, types))
  }

  // ----- round trip -----

  /** what may follow a printed operand */
  predicate Stops(s: seq<Token>) { s == [] || s[0] == TAnd || s[0] == TOr || s[0] == TClose }

  predicate StopsAnd(s: seq<Token>) { s == [] || s[0] == TOr || s[0] == TClose }

  lemma {:induction false} UnaryReads(e: Expr, outer: Outer, s: seq<Token>, types: Types)
    requires Stops(s) && (e.Bin? ==> NeedsParens(e, outer))
    ensures ParseUnary(Print(e, outer) + s, types) == Some((Reread(e, types), s))
    decreases e, if e.Bin? then 8 else 3
  {
    var ts := Print(e, outer) + s;
    if e.Bin? {
      assert Print(e, outer) == [TOpen] + PrintBare(e) + [TClose];
      assert ts[1..] == PrintBare(e) + ([TClose] + s);
      OrReads(e, [TClose] + s, types);
      assert ([TClose] + s)[1..] == s;
    } else {
      assert Print(e, outer) == PrintBare(e);
      match e
      case Sym(_) => assert ts[1..] == s;
      case Cmp(rel, l, r) =>
        assert PrintBare(e) == [TWord(NameOf(l)), TRel(rel), TWord(NameOf(r))];
        assert ts[3..] == s;
      case Not(a) =>
        assert PrintBare(e) == [TNot] + Print(a, UnderNot);
        assert ts[1..] == Print(a, UnderNot) + s;
        UnaryReads(a, UnderNot, s, types);
    }
  }

  lemma Regrouped<T>(a: seq<T>, b: seq<T>, c: seq<T>, d: seq<T>, e: seq<T>)
    ensures b + c + d + e == b + (c + d + e)
    ensures a + (b + c + d) + e == a + b + (c + d + e)
  {
  }

  /** An operand printed under AND, or a chain of them, extends the AND chain being read. */
  lemma {:induction false} AndChainReads(acc: Option<Expr>, e: Expr, s: seq<Token>, types: Types)
    requires Stops(s)
    ensures acc.None? ==> ParseAnd(Print(e, Under(OpAnd)) + s, types) == AndTail(Chain(OpAnd, None, e, types), s, types)
    ensures acc.Some? ==>
              AndTail(acc.value, [TAnd] + Print(e, Under(OpAnd)) + s, types) == AndTail(Chain(OpAnd, acc, e, types), s, types)
    decreases e, if IsOp(e, OpOr) then 9 else 4
  {
    var ts := Print(e, Under(OpAnd));
    if IsOp(e, OpAnd) {
      var tl, tr := Print(e.l, Under(OpAnd)), Print(e.r, Under(OpAnd));
      PrintedPair(OpAnd, e.l, e.r);
      Regrouped([TAnd], tl, [TAnd], tr, s);
      AndChainReads(acc, e.l, [TAnd] + tr + s, types);
      AndChainReads(Some(Chain(OpAnd, acc, e.l, types)), e.r, s, types);
    } else {
      UnaryReads(e, Under(OpAnd), s, types);
      assert ([TAnd] + ts + s)[1..] == ts + s;
    }
  }

  lemma {:induction false} AndReads(e: Expr, s: seq<Token>, types: Types)
    requires StopsAnd(s) && !IsOp(e, OpOr)
    ensures ParseAnd(Print(e, Under(OpOr)) + s, types) == Some((Reread(e, types), s))
    decreases e, 5
  {
    assert Print(e, Under(OpOr)) == Print(e, Under(OpAnd));
    AndChainReads(None, e, s, types);
    assert Chain(OpAnd, None, e, types) == Reread(e, types);
  }

  lemma {:induction false} OrChainReads(acc: Option<Expr>, e: Expr, s: seq<Token>, types: Types)
    requires StopsAnd(s)
    ensures acc.None? ==> ParseOr(Print(e, Under(OpOr)) + s, types) == OrTail(Chain(OpOr, None, e, types), s, types)
    ensures acc.Some? ==>
              OrTail(acc.value, [TOr] + Print(e, Under(OpOr)) + s, types) == OrTail(Chain(OpOr, acc, e, types), s, types)
    decreases e, 6
  {
    var ts := Print(e, Under(OpOr));
    if IsOp(e, OpOr) {
      var tl, tr := Print(e.l, Under(OpOr)), Print(e.r, Under(OpOr));
      PrintedPair(OpOr, e.l, e.r);
      Regrouped([TOr], tl, [TOr], tr, s);
      OrChainReads(acc, e.l, [TOr] + tr + s, types);
      OrChainReads(Some(Chain(OpOr, acc, e.l, types)), e.r, s, types);
    } else {
      AndReads(e, s, types);
      assert ([TOr] + ts + s)[1..] == ts + s;
    }
  }

  lemma {:induction false} OrReads(e: Expr, s: seq<Token>, types: Types)
    requires s == [] || s[0] == TClose
    ensures ParseOr(PrintBare(e) + s, types) == Some((Reread(e, types), s))
    decreases e, 7
  {
    assert PrintBare(e) == Print(e, Under(OpOr));
    OrChainReads(None, e, s, types);
    assert Chain(OpOr, None, e, types) == Reread(e, types);
  }

  /** Reading what expr_print wrote always succeeds, and gives the expression with its AND and OR chains
      nested to the left and its symbols looked up by name. */
  lemma PrintParse(e: Expr, types: Types)
    ensures Parsed(Print(e, Top), types) == Some(Reread(e, types))
  {
    OrReads(e, [], types);
    assert Print(e, Top) + [] == Print(e, Top);
  }

  /** the symbol is found again under its name: it is not quoted, and has its declared type */
  predicate Found(s: Symbol, types: Types) { Lookup(NameOf(s), types) == s }

  predicate AllFound(e: Expr, types: Types) {
    match e
    case Sym(s) => Found(s, types)
    case Cmp(_, l, r) => Found(l, types) && Found(r, types)
    case Not(a) => AllFound(a, types)
    case Bin(_, l, r) => AllFound(l, types) && AllFound(r, types)
  }

  // ----- the shape of what is read back -----

  lemma {:induction false} RereadIsOp(op: Op, e: Expr, types: Types)
    ensures e.Bin? ==> IsOp(Reread(e, types), e.op)
    ensures !e.Bin? ==> !Reread(e, types).Bin?
    decreases e, 0
  {
    if e.Bin? {
      ChainIsOp(e.op, Chain(e.op, None, e.l, types), e.r, types);
    }
  }

  lemma {:induction false} ChainIsOp(op: Op, acc: Expr, e: Expr, types: Types)
    ensures IsOp(Chain(op, Some(acc), e, types), op)
    decreases e
  {
    if IsOp(e, op) {
      ChainIsOp(op, Chain(op, Some(acc), e.l, types), e.r, types);
    }
  }

  /** the operands of a chain, none before the first */
  ghost function OperandsOpt(op: Op, e: Option<Expr>): multiset<Canon> {
    if e.None? then multiset{} else Operands(op, e.value)
  }

  lemma SumsAssociate<T>(a: multiset<T>, b: multiset<T>, c: multiset<T>)
    ensures (a + b) + c == a + (b + c)
    ensures multiset{} + a == a
  {
  }

  lemma CanonOfOperands(op: Op, e: Expr)
    ensures IsOp(e, op) ==> Canonize(e) == CBin(op, Operands(op, e)) && Operands(op, e) == Operands(op, e.l) + Operands(op, e.r)
    ensures !IsOp(e, op) ==> Operands(op, e) == multiset{Canonize(e)}
  {
  }

  /** When all symbols are found the result has the same operands on every level. */
  lemma {:induction false} FoundKeepsCanon(e: Expr, types: Types)
    requires AllFound(e, types)
    ensures Canonize(Reread(e, types)) == Canonize(e)
    decreases e, 1
  {
    match e
    case Not(a) => FoundKeepsCanon(a, types);
    case Bin(op, l, r) =>
      hide Canonize, Operands;
      var first := Chain(op, None, l, types);
      ChainCanon(op, None, l, types);
      ChainCanon(op, Some(first), r, types);
      SumsAssociate(Operands(op, l), Operands(op, r), multiset{});
      CanonOfOperands(op, e);
      CanonOfOperands(op, Chain(op, Some(first), r, types));
    case _ =>
  }

  lemma {:induction false} ChainCanon(op: Op, acc: Option<Expr>, e: Expr, types: Types)
    requires AllFound(e, types)
    ensures Operands(op, Chain(op, acc, e, types)) == OperandsOpt(op, acc) + Operands(op, e)
    ensures acc.Some? ==> IsOp(Chain(op, acc, e, types), op)
    decreases e, 2
  {
    hide Canonize, Operands;
    CanonOfOperands(op, e);
    if IsOp(e, op) {
      var left := Chain(op, acc, e.l, types);
      ChainCanon(op, acc, e.l, types);
      ChainCanon(op, Some(left), e.r, types);
      SumsAssociate(OperandsOpt(op, acc), Operands(op, e.l), Operands(op, e.r));
    } else {
      var last := Reread(e, types);
      FoundKeepsCanon(e, types);
      RereadIsOp(op, e, types);
      CanonOfOperands(op, last);
      CanonOfOperands(op, Chain(op, acc, e, types));
      SumsAssociate(Operands(op, e), multiset{}, multiset{});
    }
  }

  /** What is read back consists of symbols that are found, */
  lemma {:induction false} RereadFound(e: Expr, types: Types)
    ensures AllFound(Reread(e, types), types)
    decreases e, 1
  {
    match e
    case Not(a) => RereadFound(a, types);
    case Bin(op, l, r) =>
      ChainFound(op, None, l, types);
      ChainFound(op, Some(Chain(op, None, l, types)), r, types);
    case _ =>
  }

  lemma {:induction false} ChainFound(op: Op, acc: Option<Expr>, e: Expr, types: Types)
    requires acc.Some? ==> AllFound(acc.value, types)
    ensures AllFound(Chain(op, acc, e, types), types)
    decreases e, 2
  {
    if IsOp(e, op) {
      ChainFound(op, acc, e.l, types);
      ChainFound(op, Some(Chain(op, acc, e.l, types)), e.r, types);
    } else {
      RereadFound(e, types);
    }
  }

  /** and rearranging operands does not change which symbols there are; */
  lemma {:induction false} StepKeepsFound(e: Expr, f: Expr, types: Types)
    requires Step(e, f)
    ensures AllFound(e, types) == AllFound(f, types)
  {
    if e.Bin? && f == Bin(e.op, e.r, e.l) {
    } else if Regroups(e, f) || Regroups(f, e) {
    } else if e.Not? {
      StepKeepsFound(e.arg, f.arg, types);
    } else if e.r == f.r && Step(e.l, f.l) {
      StepKeepsFound(e.l, f.l, types);
    } else {
      StepKeepsFound(e.r, f.r, types);
    }
  }

  lemma {:induction false} LinksKeepFound(p: seq<Expr>, types: Types)
    requires Rearrangement.Chain(p)
    ensures AllFound(p[0], types) == AllFound(p[|p| - 1], types)
  {
    if |p| > 1 {
      StepKeepsFound(p[0], p[1], types);
      assert Rearrangement.Chain(p[1..]);
      LinksKeepFound(p[1..], types);
    }
  }

  /** so the operands on every level come back exactly when every symbol is found under its name. */
  lemma RereadCanon(e: Expr, types: Types)
    ensures Canonize(Reread(e, types)) == Canonize(e) <==> AllFound(e, types)
  {
    if AllFound(e, types) {
      FoundKeepsCanon(e, types);
    }
    if Canonize(Reread(e, types)) == Canonize(e) {
      SameCanonRearranges(e, Reread(e, types));
      var p :| Links(p, e, Reread(e, types));
      LinksKeepFound(p, types);
      RereadFound(e, types);
    }
  }

  /** A quoted constant is printed without its quotes: FOO = "bar" is read back as a comparison with the symbol
      bar, and if that is a bool symbol which is n, while FOO has the text "bar", the value changes too. */
  lemma QuotesLost()
    ensures
      var foo, bar := Named("FOO", String), Named("bar", Boolean);
      var e, f := Cmp(Eq, foo, Quoted("bar", None)), Cmp(Eq, foo, bar);
      var types := map["FOO" := String, "bar" := Boolean];
      var env := Env(map[bar := NO], map[(SymbolText(foo), LetterText(NO)) := -1]);
      && Parsed(Print(e, Top), types) == Some(f) && Canonize(f) != Canonize(e)
      && WellTyped(env) && Val(e, env) == YES && Val(f, env) == NO
  {
    var foo, bar := Named("FOO", String), Named("bar", Boolean);
    var e := Cmp(Eq, foo, Quoted("bar", None));
    var types := map["FOO" := String, "bar" := Boolean];
    PrintParse(e, types);
    assert Lookup("FOO", types) == foo && Lookup("bar", types) == bar;
  }

  /** When all symbols are found the result has the same value under every valuation; */
  lemma {:induction false} RereadValue(e: Expr, types: Types, env: Env)
    requires AllFound(e, types)
    ensures Val(Reread(e, types), env) == Val(e, env)
    decreases e, 1
  {
    match e
    case Not(a) => RereadValue(a, types, env);
    case Bin(op, l, r) =>
      ChainValue(op, None, l, types, env);
      ChainValue(op, Some(Chain(op, None, l, types)), r, types, env);
    case _ =>
  }

  lemma {:induction false} ChainValue(op: Op, acc: Option<Expr>, e: Expr, types: Types, env: Env)
    requires AllFound(e, types)
    ensures Val(Chain(op, acc, e, types), env) == if acc.Some? then Apply(op, Val(acc.value, env), Val(e, env)) else Val(e, env)
    decreases e, 2
  {
    if IsOp(e, op) {
      ChainValue(op, acc, e.l, types, env);
      ChainValue(op, Some(Chain(op, acc, e.l, types)), e.r, types, env);
    } else {
      RereadValue(e, types, env);
    }
  }

  /** and in any case it prints the same again; so two expressions print alike exactly when they are read back alike. */
  lemma {:induction false} RereadPrints(e: Expr, types: Types, outer: Outer)
    ensures Print(Reread(e, types), outer) == Print(e, outer)
    decreases e, 1
  {
    match e
    case Sym(s) => LookupName(NameOf(s), types);
    case Cmp(_, l, r) =>
      LookupName(NameOf(l), types);
      LookupName(NameOf(r), types);
    case Not(a) => RereadPrints(a, types, UnderNot);
    case Bin(op, l, r) =>
      RereadIsOp(op, e, types);
      ChainPrints(op, None, l, types);
      ChainPrints(op, Some(Chain(op, None, l, types)), r, types);
  }

  lemma LookupName(name: string, types: Types)
    ensures NameOf(Lookup(name, types)) == name
  {
  }

  lemma {:induction false} ChainPrints(op: Op, acc: Option<Expr>, e: Expr, types: Types)
    ensures Print(Chain(op, acc, e, types), Under(op))
         == if acc.Some? then Print(acc.value, Under(op)) + [OpToken(op)] + Print(e, Under(op)) else Print(e, Under(op))
    decreases e, 2
  {
    if IsOp(e, op) {
      var x := Chain(op, acc, e.l, types);
      ChainPrints(op, acc, e.l, types);
      ChainPrints(op, Some(x), e.r, types);
    } else {
      RereadPrints(e, types, Under(op));
    }
  }

  lemma PrintsAlikeIff(e: Expr, f: Expr, types: Types)
    ensures Print(e, Top) == Print(f, Top) <==> Reread(e, types) == Reread(f, types)
  {
    PrintParse(e, types);
    PrintParse(f, types);
    RereadPrints(e, types, Top);
    RereadPrints(f, types, Top);
  }
}
