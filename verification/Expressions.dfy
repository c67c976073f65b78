/** Three-valued dependency expressions: the data of scripts/config/expr.h and their meaning, expr_calc_value. */
module Expressions {

  /** n < m < y, coded as in the C enum. */
  type Tristate = t: int | 0 <= t <= 2

  const NO: Tristate := 0
  const MOD: Tristate := 1
  const YES: Tristate := 2

  datatype Option<+T> = None | Some(value: T)

  datatype SymbolType = Unknown | Boolean | Tri | Int | Hex | String

  /** Symbols are interned by name, so equality of these values is the pointer equality of the C code.
      A quoted constant carries the number strtoll reads from its text, if it reads one. */
  datatype Symbol =
    | Yes
    | Mod
    | No
    | Named(name: string, typ: SymbolType)
    | Quoted(text: string, number: Option<int>)
  {
    /** y, m, n */
    predicate IsLetter() { Yes? || Mod? || No? }

    /** the SYMBOL_CONST flag */
    predicate IsConst() { IsLetter() || Quoted? }

    predicate IsBoolean() { Named? && typ == Boolean }

    predicate IsTristate() { Named? && typ == Tri }

    /** declared bool or tristate */
    predicate IsSwitch() { IsBoolean() || IsTristate() }

    /** a symbol whose tristate value says everything about it */
    predicate IsLogical() { IsLetter() || IsSwitch() }
  }

  datatype Op = OpAnd | OpOr

  datatype Rel = Eq | Ne | Lt | Le | Gt | Ge

  datatype Expr =
    | Sym(sym: Symbol)
    | Cmp(rel: Rel, left: Symbol, right: Symbol)
    | Not(arg: Expr)
    | Bin(op: Op, l: Expr, r: Expr)

  /** What a symbol is compared by when it is compared by text: the letter of its value, or its own text. */
  datatype ShownText = LetterText(value: Tristate) | SymbolText(symbol: Symbol)

  /** the three-way order of texts that involve more than y, m and n */
  type TextOrder = map<(ShownText, ShownText), int>

  /** A valuation of finitely many symbols; those it does not list are n. */
  datatype Env = Env(tri: map<Symbol, Tristate>, other: TextOrder)

  ghost predicate WellTyped(env: Env) {
    forall s <- env.tri ::
      s.IsTristate() || (s.IsBoolean() && env.tri[s] != MOD) || env.tri[s] == NO
  }

  type Valuation = env: Env | WellTyped(env) witness Env(map[], map[])

  function Max(a: Tristate, b: Tristate): Tristate { if a > b then a else b }

  function Min(a: Tristate, b: Tristate): Tristate { if a < b then a else b }

  function Invert(a: Tristate): Tristate { 2 - a }

  function Apply(op: Op, a: Tristate, b: Tristate): Tristate {
    if op == OpAnd then Min(a, b) else Max(a, b)
  }

  /** the operand that changes nothing */
  function Identity(op: Op): Symbol { if op == OpAnd then Yes else No }

  /** the operand that decides the result */
  function Absorber(op: Op): Symbol { if op == OpAnd then No else Yes }

  function Dual(op: Op): Op { if op == OpAnd then OpOr else OpAnd }

  function TriOf(s: Symbol, env: Env): Tristate {
    match s
    case Yes => YES
    case Mod => MOD
    case No => NO
    case Named(_, _) => if s in env.tri then env.tri[s] else NO
    case Quoted(_, _) => NO
  }

  /** position of "m", "n", "y" in strcmp order */
  function LetterRank(t: Tristate): int { if t == MOD then 0 else if t == NO then 1 else 2 }

  function ShownAs(s: Symbol, env: Env): ShownText {
    if s.IsLogical() then LetterText(TriOf(s, env)) else SymbolText(s)
  }

  function OtherOrder(l: ShownText, r: ShownText, env: Env): int {
    if (l, r) in env.other then env.other[(l, r)] else 0
  }

  /** The three-way comparison of two symbols' values: by number between switches and against quoted
      numerals, by letter against y, m and n, and by text otherwise. */
  function Compare(l: Symbol, r: Symbol, env: Env): int {
    if l.IsSwitch() && r.IsSwitch() then TriOf(l, env) - TriOf(r, env)
    else if l.IsLogical() && r.IsLogical() then LetterRank(TriOf(l, env)) - LetterRank(TriOf(r, env))
    else if l.IsSwitch() && r.Quoted? && r.number.Some? then TriOf(l, env) - r.number.value
    else if l.Quoted? && l.number.Some? && r.IsSwitch() then l.number.value - TriOf(r, env)
    else
      var order := OtherOrder(ShownAs(l, env), ShownAs(r, env), env);
      if order == 0 && ((l.IsSwitch() && r.Quoted?) || (l.Quoted? && r.IsSwitch())) then 1 else order
  }

  predicate Holds(rel: Rel, order: int) {
    match rel
    case Eq => order == 0
    case Ne => order != 0
    case Lt => order < 0
    case Le => order <= 0
    case Gt => order > 0
    case Ge => order >= 0
  }

  /** expr_calc_value on settled symbols */
  function Val(e: Expr, env: Env): Tristate {
    match e
    case Sym(s) => TriOf(s, env)
    case Cmp(rel, l, r) => if Holds(rel, Compare(l, r, env)) then YES else NO
    case Not(a) => Invert(Val(a, env))
    case Bin(op, l, r) => Apply(op, Val(l, env), Val(r, env))
  }

  function Size(e: Expr): (n: nat)
    ensures n >= 1
  {
    match e
    case Sym(_) => 1
    case Cmp(_, _, _) => 1
    case Not(a) => 1 + Size(a)
    case Bin(_, l, r) => 1 + Size(l) + Size(r)
  }

  /** A NULL expression stands for y. */
  function ValOpt(e: Option<Expr>, env: Env): Tristate {
    if e.None? then YES else Val(e.value, env)
  }

  function AllocAnd(a: Option<Expr>, b: Option<Expr>): Option<Expr> {
    if a.None? then b else if b.None? then a else Some(Bin(OpAnd, a.value, b.value))
  }

  function AllocOr(a: Option<Expr>, b: Option<Expr>): Option<Expr> {
    if a.None? then b else if b.None? then a else Some(Bin(OpOr, a.value, b.value))
  }

  /** NOT stands only above a symbol: what is left of negation normal form after every pass. */
  predicate NegationsAtSymbols(e: Expr) {
    match e
    case Sym(_) => true
    case Cmp(_, _, _) => true
    case Not(a) => a.Sym?
    case Bin(_, l, r) => NegationsAtSymbols(l) && NegationsAtSymbols(r)
  }
}
