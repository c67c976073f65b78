/** expr_eliminate_dups: joining duplicate and redundant operands in place, both walkers on the same tree. */
module Redundancy {
  import opened Expressions
  import opened Equality
  import opened Joins
  import opened Positions

  /** what a rewriting step may do to the op node b */
  ghost predicate Rewritten(op: Op, b: Expr, c: Expr) {
    && SameSkeleton(op, b, c)
    && (forall env: Valuation :: Val(c, env) == Val(b, env))
    && Size(c) <= Size(b)
    && NumeralFree(c)
    && (NegationsAtSymbols(b) ==> NegationsAtSymbols(c))
  }

  /** No two operands on any level can be joined. */
  ghost predicate Irredundant(e: Expr)
    decreases Size(e)
  {
    e.Bin? ==>
      forall x: Path, y: Path :: IsOperand(e, e.op, x) && IsOperand(e, e.op, y) && x != y ==>
        Join(e.op, At(e, x), At(e, y)).None? && Irredundant(At(e, x))
  }

  /** no operand at or below p can be joined with one at or below q */
  ghost predicate NoJoin(op: Op, b: Expr, p: Path, q: Path) {
    forall x: Path, y: Path :: p <= x && q <= y && IsOperand(b, op, x) && IsOperand(b, op, y) && x != y ==>
      Join(op, At(b, x), At(b, y)).None? && Irredundant(At(b, x))
  }

  lemma NoJoinAtRoot(e: Expr)
    requires e.Bin?
    ensures NoJoin(e.op, e, [], []) <==> Irredundant(e)
  {
  }

  /** what holds of all operands below two nodes holds of those below their children */
  lemma NoJoinBelow(op: Op, b: Expr, p: Path, q: Path, x: Path, y: Path)
    requires NoJoin(op, b, p, q) && p <= x && q <= y
    ensures NoJoin(op, b, x, y)
  {
  }

  /** an operand below an op node is below one of its two children */
  lemma Below(op: Op, b: Expr, p: Path, x: Path)
    requires UnderOp(b, op, p) && OnPath(b, p) && IsOp(At(b, p), op) && IsOperand(b, op, x) && p <= x
    ensures p + [Left] <= x || p + [Right] <= x
  {
    assert |x| == |p| ==> x == p;
    var s := x[|p|];
    assert p + [s] == x[..|p| + 1];
    assert s == Left || s == Right;
  }

  lemma NoJoinFirst(op: Op, b: Expr, p: Path, q: Path)
    requires UnderOp(b, op, p) && OnPath(b, p) && IsOp(At(b, p), op)
    requires NoJoin(op, b, p + [Left], q) && NoJoin(op, b, p + [Right], q)
    ensures NoJoin(op, b, p, q)
  {
    forall x: Path, y: Path | p <= x && q <= y && IsOperand(b, op, x) && IsOperand(b, op, y) && x != y
      ensures Join(op, At(b, x), At(b, y)).None? && Irredundant(At(b, x))
    {
      Below(op, b, p, x);
    }
  }

  lemma NoJoinSecond(op: Op, b: Expr, p: Path, q: Path)
    requires UnderOp(b, op, q) && OnPath(b, q) && IsOp(At(b, q), op)
    requires NoJoin(op, b, p, q + [Left]) && NoJoin(op, b, p, q + [Right])
    ensures NoJoin(op, b, p, q)
  {
    forall x: Path, y: Path | p <= x && q <= y && IsOperand(b, op, x) && IsOperand(b, op, y) && x != y
      ensures Join(op, At(b, x), At(b, y)).None? && Irredundant(At(b, x))
    {
      Below(op, b, q, y);
    }
  }

  /** two operands compared: nothing else lies at or below them */
  lemma NoJoinOperands(op: Op, b: Expr, p: Path, q: Path)
    requires IsOperand(b, op, p) && IsOperand(b, op, q)
    ensures NoJoin(op, b, p, q) <==> (p != q ==> Join(op, At(b, p), At(b, q)).None? && Irredundant(At(b, p)))
  {
    if p != q ==> Join(op, At(b, p), At(b, q)).None? && Irredundant(At(b, p)) {
      OnlyOperands(op, b, p, q);
    }
  }

  lemma OnlyOperands(op: Op, b: Expr, p: Path, q: Path)
    requires IsOperand(b, op, p) && IsOperand(b, op, q)
    requires p != q ==> Join(op, At(b, p), At(b, q)).None? && Irredundant(At(b, p))
    ensures NoJoin(op, b, p, q)
  {
    forall x: Path, y: Path | p <= x && q <= y && IsOperand(b, op, x) && IsOperand(b, op, y) && x != y
      ensures Join(op, At(b, x), At(b, y)).None? && Irredundant(At(b, x))
    {
      if x != p {
        OperandsApart(b, op, x, p);
      }
      if y != q {
        OperandsApart(b, op, y, q);
      }
    }
  }

  lemma RewrittenReflexive(op: Op, b: Expr)
    requires NumeralFree(b)
    ensures Rewritten(op, b, b)
  {
    SameSkeletonReflexive(op, b);
  }

  lemma RewrittenTransitive(op: Op, b: Expr, c: Expr, d: Expr)
    requires Rewritten(op, b, c) && Rewritten(op, c, d)
    ensures Rewritten(op, b, d)
  {
    SameSkeletonTransitive(op, b, c, d);
    forall env: Valuation ensures Val(d, env) == Val(b, env) {
      assert Val(c, env) == Val(b, env);
    }
  }

  lemma {:induction false} KindsAtAndPut(e: Expr, p: Path, x: Expr)
    requires OnPath(e, p) && NumeralFree(e)
    ensures NumeralFree(At(e, p)) && (NumeralFree(x) ==> NumeralFree(Put(e, p, x)))
    ensures NegationsAtSymbols(e) ==> NegationsAtSymbols(At(e, p))
    ensures NegationsAtSymbols(e) && NegationsAtSymbols(x) ==> NegationsAtSymbols(Put(e, p, x))
  {
    if p != [] {
      KindsAtAndPut(Child(e, p[0]), p[1..], x);
    }
  }

  /** An operand that is itself an AND or OR may be rewritten on its own. */
  lemma RewrittenInside(op: Op, b: Expr, p: Path, x: Expr)
    requires NumeralFree(b) && IsOperand(b, op, p) && At(b, p).Bin? && Rewritten(At(b, p).op, At(b, p), x)
    ensures Rewritten(op, b, Put(b, p, x))
  {
    KindsAtAndPut(b, p, x);
    PutKeepsSkeleton(op, b, p, x);
    PutAt(b, p, x);
    forall env: Valuation ensures Val(Put(b, p, x), env) == Val(b, env) {
      ValAt(b, op, p, env);
      ValPut(b, op, p, x, env);
    }
  }

  /** Joining the operands at p and q: the identity at p, the join at q. */
  ghost function Joined(op: Op, b: Expr, p: Path, q: Path): Expr
    requires OnPath(b, p) && OnPath(b, q) && Apart(p, q) && Join(op, At(b, p), At(b, q)).Some?
  {
    PutApart(b, p, q, Sym(Identity(op)));
    Put(Put(b, p, Sym(Identity(op))), q, Join(op, At(b, p), At(b, q)).value)
  }

  lemma JoinedValue(op: Op, b: Expr, p: Path, q: Path, env: Valuation)
    requires NumeralFree(b) && IsOperand(b, op, p) && IsOperand(b, op, q) && Apart(p, q)
    requires Join(op, At(b, p), At(b, q)).Some?
    ensures Val(Joined(op, b, p, q), env) == Val(b, env)
  {
    var e1, e2, id := At(b, p), At(b, q), Sym(Identity(op));
    var j := Join(op, e1, e2).value;
    KindsAtAndPut(b, p, id);
    KindsAtAndPut(b, q, id);
    JoinSound(op, e1, e2);
    PutApart(b, p, q, id);
    assert Val(j, env) == Apply(op, Val(e1, env), Val(e2, env));
    assert Apply(op, Val(id, env), Val(j, env)) == Val(j, env);
    ReplaceTwo(b, op, p, q, id, j, env);
  }

  lemma JoinedShape(op: Op, b: Expr, p: Path, q: Path)
    requires NumeralFree(b) && IsOperand(b, op, p) && IsOperand(b, op, q) && Apart(p, q)
    requires Join(op, At(b, p), At(b, q)).Some?
    ensures var c := Joined(op, b, p, q);
      && SameSkeleton(op, b, c) && Size(c) <= Size(b) && NumeralFree(c)
      && (NegationsAtSymbols(b) ==> NegationsAtSymbols(c)) && HasIdentityOperand(c)
  {
    var e1, e2, id := At(b, p), At(b, q), Sym(Identity(op));
    var j := Join(op, e1, e2).value;
    var c := Put(b, p, id);
    KindsAtAndPut(b, p, id);
    KindsAtAndPut(b, q, id);
    JoinSound(op, e1, e2);
    PutAt(b, p, id);
    PutApart(b, p, q, id);
    PutKeepsSkeleton(op, b, p, id);
    SameSkeletonAt(op, b, c, q);
    KindsAtAndPut(c, q, j);
    PutAt(c, q, j);
    PutKeepsSkeleton(op, c, q, j);
    SameSkeletonTransitive(op, b, c, Put(c, q, j));
    SameSkeletonAt(op, b, Put(c, q, j), p);
    PutApart(c, q, p, j);
    IdentityInside(Put(c, q, j), p, op);
  }

  lemma RewrittenJoined(op: Op, b: Expr, p: Path, q: Path)
    requires NumeralFree(b) && IsOperand(b, op, p) && IsOperand(b, op, q) && Apart(p, q)
    requires Join(op, At(b, p), At(b, q)).Some?
    ensures Rewritten(op, b, Joined(op, b, p, q)) && HasIdentityOperand(Joined(op, b, p, q))
  {
    JoinedShape(op, b, p, q);
    forall env: Valuation ensures Val(Joined(op, b, p, q), env) == Val(b, env) {
      JoinedValue(op, b, p, q, env);
    }
  }

  /** the position of one child of the op node at q */
  lemma Descend(op: Op, b: Expr, q: Path, s: Side)
    requires UnderOp(b, op, q) && OnPath(b, q) && IsOp(At(b, q), op)
    ensures UnderOp(b, op, q + [s]) && OnPath(b, q + [s]) && At(b, q + [s]) == Child(At(b, q), s)
  {
    AtConcat(b, q, [s]);
    UnderOpConcat(b, op, q, [s]);
  }

  ghost function OpCountAt(op: Op, e: Expr, p: Path): nat { if OnPath(e, p) then OpCount(op, At(e, p)) else 0 }

  /** only the op node at b changes, its value does not, and a change leaves an identity operand behind */
  ghost predicate Stepped(op: Op, b: Path, t0: Expr, c0: nat, t1: Expr, c1: nat) {
    && OnPath(t0, b) && OnPath(t1, b) && t1 == Put(t0, b, At(t1, b))
    && Rewritten(op, At(t0, b), At(t1, b))
    && c0 <= c1
    && (c0 == c1 ==> t0 == t1)
    && (c0 < c1 ==> HasIdentityOperand(At(t1, b)))
  }

  /** The effect of one walk on the op node at b, from tree t0 and count c0 to t1 and c1: there is no change exactly
      if no pair of operands below q1 and q2 can be joined. */
  ghost predicate Walked(op: Op, b: Path, q1: Path, q2: Path, t0: Expr, c0: nat, t1: Expr, c1: nat) {
    Stepped(op, b, t0, c0, t1, c1) && (c0 == c1 <==> NoJoin(op, At(t0, b), q1, q2))
  }

  lemma SteppedTransitive(op: Op, b: Path, t0: Expr, c0: nat, t1: Expr, c1: nat, t2: Expr, c2: nat)
    requires Stepped(op, b, t0, c0, t1, c1) && Stepped(op, b, t1, c1, t2, c2)
    ensures Stepped(op, b, t0, c0, t2, c2)
  {
    PutAt(t0, b, At(t1, b));
    RewrittenTransitive(op, At(t0, b), At(t1, b), At(t2, b));
  }

  /** Two walks over the two children of the op node at q1 make one walk over it. */
  lemma WalkedFirst(op: Op, b: Path, q1: Path, q2: Path, t0: Expr, c0: nat, t1: Expr, c1: nat, t2: Expr, c2: nat)
    requires OnPath(t0, b) && UnderOp(At(t0, b), op, q1) && OnPath(At(t0, b), q1) && IsOp(At(At(t0, b), q1), op)
    requires Walked(op, b, q1 + [Left], q2, t0, c0, t1, c1) && Walked(op, b, q1 + [Right], q2, t1, c1, t2, c2)
    ensures Walked(op, b, q1, q2, t0, c0, t2, c2)
  {
    SteppedTransitive(op, b, t0, c0, t1, c1, t2, c2);
    if c0 == c2 {
      NoJoinFirst(op, At(t0, b), q1, q2);
    }
    if NoJoin(op, At(t0, b), q1, q2) {
      NoJoinBelow(op, At(t0, b), q1, q2, q1 + [Left], q2);
      NoJoinBelow(op, At(t0, b), q1, q2, q1 + [Right], q2);
    }
  }

  lemma WalkedSecond(op: Op, b: Path, q1: Path, q2: Path, t0: Expr, c0: nat, t1: Expr, c1: nat, t2: Expr, c2: nat)
    requires OnPath(t0, b) && UnderOp(At(t0, b), op, q2) && OnPath(At(t0, b), q2) && IsOp(At(At(t0, b), q2), op)
    requires Walked(op, b, q1, q2 + [Left], t0, c0, t1, c1) && Walked(op, b, q1, q2 + [Right], t1, c1, t2, c2)
    ensures Walked(op, b, q1, q2, t0, c0, t2, c2)
  {
    SteppedTransitive(op, b, t0, c0, t1, c1, t2, c2);
    if c0 == c2 {
      NoJoinSecond(op, At(t0, b), q1, q2);
    }
    if NoJoin(op, At(t0, b), q1, q2) {
      NoJoinBelow(op, At(t0, b), q1, q2, q1, q2 + [Left]);
      NoJoinBelow(op, At(t0, b), q1, q2, q1, q2 + [Right]);
    }
  }

  /** A walk inside the operand at q1 that changed something changed the op node at b. */
  lemma WalkedInside(op: Op, b: Path, q1: Path, t0: Expr, c0: nat, t1: Expr, c1: nat)
    requires OnPath(t0, b) && NumeralFree(At(t0, b)) && IsOperand(At(t0, b), op, q1) && OnPath(t0, b + q1)
    requires At(t0, b + q1) == At(At(t0, b), q1) && At(t0, b + q1).Bin?
    requires Walked(At(t0, b + q1).op, b + q1, [], [], t0, c0, t1, c1)
    ensures Stepped(op, b, t0, c0, t1, c1)
    ensures c0 == c1 <==> Irredundant(At(At(t0, b), q1))
  {
    NoJoinAtRoot(At(At(t0, b), q1));
    var x := At(t1, b + q1);
    PutConcat(t0, b, q1, x);
    PutAt(t0, b, Put(At(t0, b), q1, x));
    PutAt(At(t0, b), q1, x);
    RewrittenInside(op, At(t0, b), q1, x);
    if c0 < c1 {
      IdentityInside(At(t1, b), q1, op);
    }
  }

  /** The two writes through absolute positions are the join of the op node at b. */
  lemma JoinedInPlace(op: Op, t: Expr, b: Path, q1: Path, q2: Path)
    requires OnPath(t, b) && OnPath(At(t, b), q1) && OnPath(At(t, b), q2) && Apart(q1, q2)
    requires Join(op, At(At(t, b), q1), At(At(t, b), q2)).Some?
    ensures OnPath(t, b + q1) && OnPath(Put(t, b + q1, Sym(Identity(op))), b + q2)
    ensures var j := Join(op, At(At(t, b), q1), At(At(t, b), q2)).value;
            var u := Put(Put(t, b + q1, Sym(Identity(op))), b + q2, j);
            OnPath(u, b) && At(u, b) == Joined(op, At(t, b), q1, q2) && u == Put(t, b, At(u, b))
  {
    var e, id := At(t, b), Sym(Identity(op));
    var j := Join(op, At(e, q1), At(e, q2)).value;
    AtConcat(t, b, q1);
    PutConcat(t, b, q1, id);
    var f := Put(e, q1, id);
    PutApart(e, q1, q2, id);
    PutAt(t, b, f);
    var u := Put(t, b, f);
    AtConcat(u, b, q2);
    PutConcat(u, b, q2, j);
    PutAt(t, b, Put(f, q2, j));
  }

  /** the walker at p is below the op node at b, at q relative to it */
  ghost predicate Ready(op: Op, t: Expr, p: Path, b: Path, q: Path) {
    OnPath(t, b) && NumeralFree(At(t, b)) && p == b + q && UnderOp(At(t, b), op, q)
  }

  lemma ReadyPath(op: Op, t: Expr, p: Path, b: Path, q: Path)
    requires Ready(op, t, p, b, q)
    ensures OnPath(t, p) && OnPath(At(t, b), q) && At(t, p) == At(At(t, b), q)
  {
    UnderOpOnPath(At(t, b), op, q);
    AtConcat(t, b, q);
  }

  lemma ReadyChild(op: Op, t: Expr, p: Path, b: Path, q: Path, s: Side)
    requires Ready(op, t, p, b, q) && OnPath(t, p) && IsOp(At(t, p), op)
    ensures Ready(op, t, p + [s], b, q + [s]) && OpCountAt(op, At(t, b), q + [s]) < OpCountAt(op, At(t, b), q)
  {
    ReadyPath(op, t, p, b, q);
    Descend(op, At(t, b), q, s);
    assert p + [s] == b + (q + [s]);
  }

  lemma ReadyAfter(op: Op, t0: Expr, c0: nat, t1: Expr, c1: nat, p: Path, b: Path, q: Path)
    requires Ready(op, t0, p, b, q) && Stepped(op, b, t0, c0, t1, c1)
    ensures Ready(op, t1, p, b, q) && OpCountAt(op, At(t1, b), q) == OpCountAt(op, At(t0, b), q)
    ensures OnPath(At(t0, b), q) && OnPath(At(t1, b), q) && IsOp(At(At(t1, b), q), op) == IsOp(At(At(t0, b), q), op)
  {
    SameSkeletonAt(op, At(t0, b), At(t1, b), q);
    SameSkeletonCount(op, At(At(t0, b), q), At(At(t1, b), q));
  }

  lemma WalkedOperands(op: Op, b: Path, q1: Path, q2: Path, t0: Expr, c0: nat, t1: Expr, c1: nat, t2: Expr, c2: nat)
    requires Stepped(op, b, t0, c0, t1, c1) && Stepped(op, b, t1, c1, t2, c2)
    requires IsOperand(At(t0, b), op, q1) && IsOperand(At(t0, b), op, q2)
    requires q1 != q2 && (c0 == c1 <==> Irredundant(At(At(t0, b), q1)))
    requires t0 == t1 ==> (c1 == c2 <==> Join(op, At(At(t1, b), q1), At(At(t1, b), q2)).None?)
    ensures Walked(op, b, q1, q2, t0, c0, t2, c2)
  {
    SteppedTransitive(op, b, t0, c0, t1, c1, t2, c2);
    NoJoinOperands(op, At(t0, b), q1, q2);
  }

  /** The global state of expr.c: the tree being rewritten and the count of changes. A struct expr ** is a
      position in the tree, so two walkers may point into the same tree, at each other or at one node. */
  class Rewriter {
    var tree: Expr
    var transCount: nat

    constructor (e: Expr)
      ensures tree == e && transCount == 0
    {
      tree, transCount := e, 0;
    }

    /** expr_eliminate_dups1: every operand of op at or below p1 against every one at or below p2. The ghost
        b is the position of the op node both walks started from, q1 and q2 are relative to it. */
    method EliminateDups1(op: Op, p1: Path, p2: Path, ghost b: Path, ghost q1: Path, ghost q2: Path)
      requires Ready(op, tree, p1, b, q1) && Ready(op, tree, p2, b, q2)
      modifies this
      ensures Walked(op, b, q1, q2, old(tree), old(transCount), tree, transCount)
      decreases Size(At(tree, b)), OpCountAt(op, At(tree, b), q1) + OpCountAt(op, At(tree, b), q2), 1
    {
      ghost var t0, c0 := tree, transCount;
      ReadyPath(op, tree, p1, b, q1);
      ReadyPath(op, tree, p2, b, q2);
      if IsOp(At(tree, p1), op) {
        ReadyChild(op, tree, p1, b, q1, Left);
        EliminateDups1(op, p1 + [Left], p2, b, q1 + [Left], q2);
        ghost var t1, c1 := tree, transCount;
        ReadyChild(op, t0, p1, b, q1, Right);
        ReadyAfter(op, t0, c0, t1, c1, p1 + [Right], b, q1 + [Right]);
        ReadyAfter(op, t0, c0, t1, c1, p2, b, q2);
        EliminateDups1(op, p1 + [Right], p2, b, q1 + [Right], q2);
        WalkedFirst(op, b, q1, q2, t0, c0, t1, c1, tree, transCount);
      } else if IsOp(At(tree, p2), op) {
        ReadyChild(op, tree, p2, b, q2, Left);
        EliminateDups1(op, p1, p2 + [Left], b, q1, q2 + [Left]);
        ghost var t1, c1 := tree, transCount;
        ReadyChild(op, t0, p2, b, q2, Right);
        ReadyAfter(op, t0, c0, t1, c1, p1, b, q1);
        ReadyAfter(op, t0, c0, t1, c1, p2 + [Right], b, q2 + [Right]);
        EliminateDups1(op, p1, p2 + [Right], b, q1, q2 + [Right]);
        WalkedSecond(op, b, q1, q2, t0, c0, t1, c1, tree, transCount);
      } else {
        CompareOperands(op, p1, p2, b, q1, q2);
      }
    }

    /** the rest of expr_eliminate_dups1, once both walkers have reached operands */
    method CompareOperands(op: Op, p1: Path, p2: Path, ghost b: Path, ghost q1: Path, ghost q2: Path)
      requires Ready(op, tree, p1, b, q1) && Ready(op, tree, p2, b, q2)
      requires IsOperand(At(tree, b), op, q1) && IsOperand(At(tree, b), op, q2)
      modifies this
      ensures Walked(op, b, q1, q2, old(tree), old(transCount), tree, transCount)
      decreases Size(At(tree, b)), 0, 0
    {
      ghost var t0, c0, e := tree, transCount, At(tree, b);
      ReadyPath(op, tree, p1, b, q1);
      PutAt(t0, b, e);
      RewrittenReflexive(op, e);
      assert q1 == p1[|b|..] && q2 == p2[|b|..];
      if p1 == p2 {
        NoJoinOperands(op, e, q1, q2);
        return;
      }
      OperandsApart(e, op, q1, q2);
      if At(tree, p1).Bin? {
        KindsAtAndPut(e, q1, e);
        assert p1 + [] == p1;
        EliminateDups1(At(tree, p1).op, p1, p1, p1, [], []);
        WalkedInside(op, b, q1, t0, c0, tree, transCount);
      }
      ghost var t1, c1 := tree, transCount;
      ReadyAfter(op, t0, c0, t1, c1, p1, b, q1);
      ReadyAfter(op, t0, c0, t1, c1, p2, b, q2);
      JoinOperands(op, p1, p2, b, q1, q2);
      WalkedOperands(op, b, q1, q2, t0, c0, t1, c1, tree, transCount);
    }

    /** the comparison of two different operands at the end of expr_eliminate_dups1 */
    method JoinOperands(op: Op, p1: Path, p2: Path, ghost b: Path, ghost q1: Path, ghost q2: Path)
      requires Ready(op, tree, p1, b, q1) && Ready(op, tree, p2, b, q2) && Apart(q1, q2)
      requires IsOperand(At(tree, b), op, q1) && IsOperand(At(tree, b), op, q2)
      modifies this
      ensures Stepped(op, b, old(tree), old(transCount), tree, transCount)
      ensures old(OnPath(At(tree, b), q1) && OnPath(At(tree, b), q2))
      ensures transCount == old(transCount) <==> old(Join(op, At(At(tree, b), q1), At(At(tree, b), q2)).None?)
    {
      ghost var t0, e := tree, At(tree, b);
      ReadyPath(op, tree, p1, b, q1);
      ReadyPath(op, tree, p2, b, q2);
      PutAt(tree, b, e);
      RewrittenReflexive(op, e);
      var joined := Join(op, At(tree, p1), At(tree, p2));
      if joined.Some? {
        RewrittenJoined(op, e, q1, q2);
        JoinedInPlace(op, t0, b, q1, q2);
        tree := Put(tree, p1, Sym(Identity(op)));
        tree := Put(tree, p2, joined.value);
        transCount := transCount + 1;
      }
    }

    /** expr_eliminate_dups on a non-NULL expression, with the outer count saved and restored */
    method EliminateDups()
      requires NumeralFree(tree)
      modifies this
      ensures transCount == old(transCount)
      ensures forall env: Valuation :: Val(tree, env) == Val(old(tree), env)
      ensures Size(tree) <= Size(old(tree)) && NumeralFree(tree)
      ensures NegationsAtSymbols(old(tree)) ==> NegationsAtSymbols(tree)
      ensures Irredundant(tree) && (Irredundant(old(tree)) <==> tree == old(tree))
    {
      var oldCount := transCount;
      while true
        invariant forall env: Valuation :: Val(tree, env) == Val(old(tree), env)
        invariant Size(tree) <= Size(old(tree)) && NumeralFree(tree)
        invariant NegationsAtSymbols(old(tree)) ==> NegationsAtSymbols(tree)
        invariant Irredundant(old(tree)) ==> tree == old(tree)
        decreases Size(tree)
      {
        transCount := 0;
        if tree.Bin? {
          NoJoinAtRoot(tree);
          EliminateDups1(tree.op, [], [], [], [], []);
        }
        if transCount == 0 {
          break;
        }
        Fold();
      }
      transCount := oldCount;
    }

    /** e = expr_eliminate_yn(e) */
    method Fold()
      requires NumeralFree(tree)
      modifies `tree
      ensures tree == EliminateYn(old(tree)) && NumeralFree(tree)
      ensures forall env: Valuation :: Val(tree, env) == Val(old(tree), env)
      ensures Size(tree) <= Size(old(tree)) && (HasIdentityOperand(old(tree)) ==> Size(tree) < Size(old(tree)))
      ensures NegationsAtSymbols(old(tree)) ==> NegationsAtSymbols(tree)
    {
      EliminateYnShape(tree);
      FoldNumeralFree(tree);
      forall env: Valuation ensures Val(EliminateYn(tree), env) == Val(tree, env) {
        EliminateYnCorrect(tree, env);
      }
      tree := EliminateYn(tree);
    }
  }

  lemma {:induction false} FoldNumeralFree(e: Expr)
    requires NumeralFree(e)
    ensures NumeralFree(EliminateYn(e))
  {
    if e.Bin? {
      FoldNumeralFree(e.l);
      FoldNumeralFree(e.r);
    }
  }

  /** expr_eliminate_dups as its callers see it: NULL stays NULL; otherwise the value is kept under every
      valuation, and no two operands of the result, on any level, can be joined any more. Expressions of which that
      is true already, and no others, are left alone. */
  method Deduplicate(e: Option<Expr>) returns (r: Option<Expr>)
    requires e.Some? ==> NumeralFree(e.value)
    ensures e.None? <==> r.None?
    ensures forall env: Valuation :: ValOpt(r, env) == ValOpt(e, env)
    ensures r.Some? ==> Irredundant(r.value) && NumeralFree(r.value) && Size(r.value) <= Size(e.value)
    ensures r.Some? && NegationsAtSymbols(e.value) ==> NegationsAtSymbols(r.value)
    ensures r.Some? ==> (r == e <==> Irredundant(e.value))
  {
    if e.None? {
      return None;
    }
    var rewriter := new Rewriter(e.value);
    rewriter.EliminateDups();
    r := Some(rewriter.tree);
  }
}
