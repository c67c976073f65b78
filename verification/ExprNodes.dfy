/** The rewriters of expr.c that overwrite struct expr nodes, on heap nodes, against their functions on values. */
module ExprNodes {
  import opened Expressions
  import opened Equality
  import opened Normalization
  import opened Conditions

  datatype Kind = KSym | KCmp(rel: Rel) | KNot | KBin(op: Op)

  /** struct expr: the unions hold symbols or child nodes depending on the kind. */
  class Node {
    var kind: Kind
    var left: Node?
    var right: Node?
    var leftSym: Symbol
    var rightSym: Symbol
    ghost var repr: set<Node>

    /** the nodes reachable from this one form a tree */
    ghost predicate Valid()
      reads this, repr
      decreases repr
    {
      && this in repr
      && (kind.KNot? ==> left != null && left in repr && left.repr <= repr && this !in left.repr && left.Valid())
      && (kind.KBin? ==>
            && left != null && left in repr && left.repr <= repr && this !in left.repr && left.Valid()
            && right != null && right in repr && right.repr <= repr && this !in right.repr && right.Valid()
            && left.repr !! right.repr)
    }

    /** the expression the tree stands for */
    ghost function Abs(): Expr
      requires Valid()
      reads this, repr
      decreases repr
    {
      match kind
      case KSym => Sym(leftSym)
      case KCmp(rel) => Cmp(rel, leftSym, rightSym)
      case KNot => Not(left.Abs())
      case KBin(op) => Bin(op, left.Abs(), right.Abs())
    }

    constructor Symbol(s: Symbol)
      ensures Valid() && Abs() == Sym(s) && repr == {this}
    {
      kind, left, right, leftSym, rightSym := KSym, null, null, s, s;
      repr := {this};
    }

    constructor Negation(e: Node)
      requires e.Valid()
      ensures Valid() && Abs() == Not(e.Abs()) && repr == {this} + e.repr
    {
      kind, left, right, leftSym, rightSym := KNot, e, null, No, No;
      repr := {this} + e.repr;
    }

    /** *e = *child: this node takes over the contents of a child it is about to free */
    method TakeOver(child: Node)
      requires child.Valid() && this !in child.repr
      modifies this
      ensures Valid() && Abs() == old(child.Abs()) && repr == {this} + (child.repr - {child})
    {
      kind, left, right := child.kind, child.left, child.right;
      leftSym, rightSym := child.leftSym, child.rightSym;
      repr := {this} + (child.repr - {child});
    }

    /** new children for an AND or OR node */
    method Adopt(l: Node, r: Node)
      requires kind.KBin? && l.Valid() && r.Valid()
      requires this !in l.repr && this !in r.repr && l.repr !! r.repr
      modifies this
      ensures kind == old(kind) && Valid() && repr == {this} + l.repr + r.repr
      ensures Abs() == Bin(kind.op, old(l.Abs()), old(r.Abs()))
    {
      left, right := l, r;
      repr := {this} + l.repr + r.repr;
    }

    method BecomeSymbol(s: Symbol)
      modifies this
      ensures Valid() && Abs() == Sym(s) && repr == {this}
    {
      kind, left, right, leftSym := KSym, null, null, s;
      repr := {this};
    }

    predicate IsSymbol(s: Symbol)
      reads this
    {
      kind == KSym && leftSym == s
    }
  }

  /** expr_eliminate_yn, in place: the same node comes back holding the folded expression. */
  method EliminateYnInPlace(e: Node)
    requires e.Valid()
    modifies e.repr
    ensures e.Valid() && e.repr <= old(e.repr)
    ensures e.Abs() == EliminateYn(old(e.Abs()))
    decreases e.repr
  {
    if e.kind.KBin? {
      EliminateYnInPlace(e.left);
      EliminateYnInPlace(e.right);
      FoldOperands(e, e.kind.op, e.left, e.right);
    }
  }

  /** the AND and OR cases of expr_eliminate_yn, once the two operands are folded */
  method FoldOperands(e: Node, op: Op, l: Node, r: Node)
    requires e.kind == KBin(op) && e.left == l && e.right == r && l.Valid() && r.Valid()
    requires e !in l.repr && e !in r.repr && l.repr !! r.repr
    modifies e
    ensures e.Valid() && e.repr <= {e} + l.repr + r.repr
    ensures e.Abs() == FoldBin(op, old(l.Abs()), old(r.Abs()))
  {
    if l.IsSymbol(Absorber(op)) {
      e.BecomeSymbol(Absorber(op));
    } else if l.IsSymbol(Identity(op)) {
      e.TakeOver(r);
    } else if r.IsSymbol(Absorber(op)) {
      e.BecomeSymbol(Absorber(op));
    } else if r.IsSymbol(Identity(op)) {
      e.TakeOver(l);
    } else {
      e.repr := {e} + l.repr + r.repr;
    }
  }

  /** expr_trans_bool, in place */
  method TransBoolInPlace(e: Node)
    requires e.Valid()
    modifies e.repr
    ensures e.Valid() && e.repr == old(e.repr)
    ensures e.Abs() == TransBool(old(e.Abs()))
    decreases e.repr
  {
    match e.kind
    case KBin(_) =>
      TransBoolInPlace(e.left);
      TransBoolInPlace(e.right);
    case KNot => TransBoolInPlace(e.left);
    case KCmp(rel) =>
      if rel == Ne && e.leftSym.IsTristate() && e.rightSym == No {
        e.kind := KSym;
      }
    case KSym =>
  }

  /** the comparison cases of expr_transform */
  method TransformCompareInPlace(e: Node)
    requires e.Valid() && e.kind.KCmp?
    modifies e
    ensures e.Valid() && fresh(e.repr - {e})
    ensures e.Abs() == TransformCompare(old(e.Abs()))
  {
    var s, rel, right := e.leftSym, e.kind.rel, e.rightSym;
    e.repr := {e};
    if s.IsBoolean() && right.IsLetter() && (rel == Eq || rel == Ne) {
      if right == Mod {
        e.BecomeSymbol(if rel == Eq then No else Yes);
      } else if (rel == Eq) == (right == No) {
        var n := new Node.Symbol(s);
        e.kind, e.left := KNot, n;
        e.repr := {e} + n.repr;
      } else {
        e.kind := KSym;
      }
    }
  }

  /** De Morgan's step of expr_transform: the inner AND or OR node becomes the left negation, a new node is
      the right one, and the NOT node becomes the outer operator. */
  method PushNegation(e: Node)
    requires e.Valid() && e.kind.KNot? && e.left.kind.KBin?
    modifies e.repr
    ensures e.Valid() && fresh(e.repr - old(e.repr))
    ensures var x := old(e.left.Abs()); e.Abs() == Bin(Dual(x.op), Not(x.l), Not(x.r))
  {
    var inner := e.left;
    var op, a, b := inner.kind.op, inner.left, inner.right;
    var n := new Node.Negation(b);
    e.kind, e.right := KBin(Dual(op)), n;
    inner.kind, inner.right := KNot, null;
    inner.repr := {inner} + a.repr;
    assert a.Valid() && b.Valid() && n.Valid();
    assert inner.Valid();
    e.repr := {e} + inner.repr + n.repr;
  }

  /** expr_transform, in place: the node given may be freed, the node returned holds the result. */
  method TransformInPlace(e: Node) returns (r: Node)
    requires e.Valid()
    modifies e.repr
    ensures r.Valid() && fresh(r.repr - old(e.repr))
    ensures r.Abs() == Transform(old(e.Abs()))
    decreases Measure(e.Abs()), 1
  {
    r := e;
    match e.kind
    case KSym =>
    case KCmp(_) => TransformCompareInPlace(e);
    case KBin(_) => TransformOperands(e);
    case KNot =>
      var a := TransformInPlace(e.left);
      r := TransformNegation(e, a);
  }

  /** the AND and OR cases of expr_transform */
  method TransformOperands(e: Node)
    requires e.Valid() && e.kind.KBin?
    modifies e.repr
    ensures e.Valid() && fresh(e.repr - old(e.repr))
    ensures e.Abs() == Transform(old(e.Abs()))
    decreases Measure(e.Abs()), 0
  {
    var left, right := e.left, e.right;
    var l := TransformInPlace(left);
    assert l.repr !! right.repr && right.Valid() && right.Abs() == old(right.Abs());
    var r := TransformInPlace(right);
    e.Adopt(l, r);
  }

  /** the NOT cases of expr_transform, after the operand has been transformed to a */
  method TransformNegation(e: Node, a: Node) returns (r: Node)
    requires a.Valid() && e !in a.repr
    modifies e, a.repr
    ensures r.Valid() && fresh(r.repr - {e} - old(a.repr))
    ensures r.Abs() == Negated(old(a.Abs()))
    decreases 2 * Measure(a.Abs()), 0
  {
    ghost var x := a.Abs();
    match a.kind
    case KNot =>
      r := TransformInPlace(a.left);
    case KCmp(rel) =>
      r := a;
      a.kind := KCmp(NegateRel(rel));
    case KBin(_) =>
      e.kind, e.left := KNot, a;
      e.repr := {e} + a.repr;
      MeasureDeMorgan(x.op, x.l, x.r);
      PushNegation(e);
      r := TransformInPlace(e);
    case KSym =>
      if a.leftSym.IsLetter() {
        r := a;
        a.leftSym := NegateLetter(a.leftSym);
      } else {
        r := e;
        e.kind, e.left := KNot, a;
        e.repr := {e} + a.repr;
      }
  }
}
