/** Positions inside an expression tree: what the C code reaches through struct expr **. */
module Positions {
  import opened Expressions
  import opened Equality

  datatype Side = Left | Right

  type Path = seq<Side>

  function Child(e: Expr, s: Side): Expr
    requires e.Bin?
  {
    if s == Left then e.l else e.r
  }

  /** p leads from e through operands of op only */
  predicate UnderOp(e: Expr, op: Op, p: Path) {
    p == [] || (IsOp(e, op) && UnderOp(Child(e, p[0]), op, p[1..]))
  }

  /** p leads from e through AND and OR nodes */
  predicate OnPath(e: Expr, p: Path) { p == [] || (e.Bin? && OnPath(Child(e, p[0]), p[1..])) }

  function At(e: Expr, p: Path): (r: Expr)
    requires OnPath(e, p)
    ensures Size(r) <= Size(e) && (p != [] ==> Size(r) < Size(e))
  {
    if p == [] then e else At(Child(e, p[0]), p[1..])
  }

  /** the tree after the node at p has been overwritten with x */
  function Put(e: Expr, p: Path, x: Expr): Expr
    requires OnPath(e, p)
  {
    if p == [] then x
    else if p[0] == Left then Bin(e.op, Put(e.l, p[1..], x), e.r)
    else Bin(e.op, e.l, Put(e.r, p[1..], x))
  }

  /** neither position lies inside the other */
  predicate Apart(p: Path, q: Path) { !(p <= q) && !(q <= p) }

  lemma {:induction false} UnderOpOnPath(e: Expr, op: Op, p: Path)
    requires UnderOp(e, op, p)
    ensures OnPath(e, p)
  {
    if p != [] {
      UnderOpOnPath(Child(e, p[0]), op, p[1..]);
    }
  }

  lemma {:induction false} AtConcat(e: Expr, p: Path, q: Path)
    requires OnPath(e, p) && OnPath(At(e, p), q)
    ensures OnPath(e, p + q) && At(e, p + q) == At(At(e, p), q)
  {
    if p == [] {
      assert p + q == q;
    } else {
      assert (p + q)[1..] == p[1..] + q;
      AtConcat(Child(e, p[0]), p[1..], q);
    }
  }

  lemma {:induction false} UnderOpConcat(e: Expr, op: Op, p: Path, q: Path)
    requires UnderOp(e, op, p) && OnPath(e, p)
    ensures UnderOp(At(e, p), op, q) <==> UnderOp(e, op, p + q)
  {
    if p == [] {
      assert p + q == q;
    } else {
      assert (p + q)[1..] == p[1..] + q;
      UnderOpConcat(Child(e, p[0]), op, p[1..], q);
    }
  }

  lemma {:induction false} PutConcat(e: Expr, p: Path, q: Path, x: Expr)
    requires OnPath(e, p) && OnPath(At(e, p), q) && OnPath(e, p + q)
    ensures Put(e, p + q, x) == Put(e, p, Put(At(e, p), q, x))
  {
    if p == [] {
      assert p + q == q;
    } else {
      assert (p + q)[1..] == p[1..] + q;
      PutConcat(Child(e, p[0]), p[1..], q, x);
    }
  }

  lemma {:induction false} PutAt(e: Expr, p: Path, x: Expr)
    requires OnPath(e, p)
    ensures OnPath(Put(e, p, x), p) && At(Put(e, p, x), p) == x
    ensures Put(e, p, At(e, p)) == e
    ensures Size(Put(e, p, x)) == Size(e) - Size(At(e, p)) + Size(x)
    ensures forall y :: Put(Put(e, p, x), p, y) == Put(e, p, y)
  {
    if p != [] {
      PutAt(Child(e, p[0]), p[1..], x);
    }
  }

  /** overwriting one position leaves what is elsewhere alone */
  lemma {:induction false} PutApart(e: Expr, p: Path, q: Path, x: Expr)
    requires OnPath(e, p) && OnPath(e, q) && Apart(p, q)
    ensures OnPath(Put(e, p, x), q) && At(Put(e, p, x), q) == At(e, q)
  {
    if p[0] == q[0] {
      PutApart(Child(e, p[0]), p[1..], q[1..], x);
    }
  }

  // ----- the operands under one operator -----

  /** same tree of op nodes; the operands may differ */
  predicate SameSkeleton(op: Op, e: Expr, f: Expr) {
    IsOp(e, op) == IsOp(f, op) && (IsOp(e, op) ==> SameSkeleton(op, e.l, f.l) && SameSkeleton(op, e.r, f.r))
  }

  function OpCount(op: Op, e: Expr): nat {
    if IsOp(e, op) then 1 + OpCount(op, e.l) + OpCount(op, e.r) else 0
  }

  lemma {:induction false} SameSkeletonAt(op: Op, e: Expr, f: Expr, p: Path)
    requires SameSkeleton(op, e, f) && UnderOp(e, op, p)
    ensures UnderOp(f, op, p) && OnPath(e, p) && OnPath(f, p) && SameSkeleton(op, At(e, p), At(f, p))
  {
    if p != [] {
      SameSkeletonAt(op, Child(e, p[0]), Child(f, p[0]), p[1..]);
    }
  }

  lemma {:induction false} SameSkeletonCount(op: Op, e: Expr, f: Expr)
    requires SameSkeleton(op, e, f)
    ensures OpCount(op, e) == OpCount(op, f)
  {
    if IsOp(e, op) {
      SameSkeletonCount(op, e.l, f.l);
      SameSkeletonCount(op, e.r, f.r);
    }
  }

  lemma {:induction false} SameSkeletonReflexive(op: Op, e: Expr)
    ensures SameSkeleton(op, e, e)
  {
    if IsOp(e, op) {
      SameSkeletonReflexive(op, e.l);
      SameSkeletonReflexive(op, e.r);
    }
  }

  lemma {:induction false} SameSkeletonTransitive(op: Op, e: Expr, f: Expr, g: Expr)
    requires SameSkeleton(op, e, f) && SameSkeleton(op, f, g)
    ensures SameSkeleton(op, e, g)
  {
    if IsOp(e, op) {
      SameSkeletonTransitive(op, e.l, f.l, g.l);
      SameSkeletonTransitive(op, e.r, f.r, g.r);
    }
  }

  lemma {:induction false} PutKeepsSkeleton(op: Op, e: Expr, p: Path, x: Expr)
    requires UnderOp(e, op, p) && OnPath(e, p) && SameSkeleton(op, At(e, p), x)
    ensures SameSkeleton(op, e, Put(e, p, x))
  {
    SameSkeletonReflexive(op, e);
    if p != [] {
      PutKeepsSkeleton(op, Child(e, p[0]), p[1..], x);
    }
  }

  /** p is the position of an operand of the op node e */
  predicate IsOperand(e: Expr, op: Op, p: Path) { UnderOp(e, op, p) && OnPath(e, p) && !IsOp(At(e, p), op) }

  lemma {:induction false} OperandsApart(e: Expr, op: Op, p: Path, q: Path)
    requires IsOperand(e, op, p) && IsOperand(e, op, q) && p != q
    ensures Apart(p, q)
  {
    if p != [] && q != [] && p[0] == q[0] {
      OperandsApart(Child(e, p[0]), op, p[1..], q[1..]);
      assert p == [p[0]] + p[1..] && q == [q[0]] + q[1..];
    }
  }

  // ----- values -----

  /** the value of all operands other than the one at p */
  function Rest(e: Expr, op: Op, p: Path, env: Env): Tristate
    requires UnderOp(e, op, p)
  {
    if p == [] then TriOf(Identity(op), env)
    else if p[0] == Left then Apply(op, Rest(e.l, op, p[1..], env), Val(e.r, env))
    else Apply(op, Rest(e.r, op, p[1..], env), Val(e.l, env))
  }

  /** Whatever stands at p, the value is the rest combined with it. */
  lemma {:induction false} ValPut(e: Expr, op: Op, p: Path, x: Expr, env: Env)
    requires UnderOp(e, op, p) && OnPath(e, p)
    ensures Val(Put(e, p, x), env) == Apply(op, Rest(e, op, p, env), Val(x, env))
  {
    if p != [] {
      ValPut(Child(e, p[0]), op, p[1..], x, env);
      ApplyInto(op, Rest(Child(e, p[0]), op, p[1..], env), Val(x, env), Val(if p[0] == Left then e.r else e.l, env));
      hide Apply;
    }
  }

  lemma ValAt(e: Expr, op: Op, p: Path, env: Env)
    requires UnderOp(e, op, p) && OnPath(e, p)
    ensures Val(e, env) == Apply(op, Rest(e, op, p, env), Val(At(e, p), env))
  {
    ValPut(e, op, p, At(e, p), env);
    PutAt(e, p, At(e, p));
  }

  lemma ApplyPairs(op: Op, r1: Tristate, r2: Tristate, a: Tristate, b: Tristate, x: Tristate, y: Tristate)
    requires Apply(op, x, y) == Apply(op, a, b)
    ensures Apply(op, Apply(op, r1, x), Apply(op, r2, y)) == Apply(op, Apply(op, r1, a), Apply(op, r2, b))
    ensures Apply(op, Apply(op, r2, y), Apply(op, r1, x)) == Apply(op, Apply(op, r2, b), Apply(op, r1, a))
  {
    ApplyRegroup(op, r1, r2, x, y);
    ApplyRegroup(op, r1, r2, a, b);
    ApplySwap(op, Apply(op, r1, x), Apply(op, r2, y));
    ApplySwap(op, Apply(op, r1, a), Apply(op, r2, b));
    hide Apply;
  }

  lemma ApplySwap(op: Op, a: Tristate, b: Tristate)
    ensures Apply(op, a, b) == Apply(op, b, a)
  {
  }

  /** the value of a node one of whose operands has the value of r and x combined */
  lemma ApplyInto(op: Op, r: Tristate, x: Tristate, other: Tristate)
    ensures Apply(op, Apply(op, r, x), other) == Apply(op, Apply(op, r, other), x)
    ensures Apply(op, other, Apply(op, r, x)) == Apply(op, Apply(op, r, other), x)
  {
  }

  /** Replacing two operands by two others with the same combined value keeps the value. */
  lemma {:induction false} ReplaceTwo(e: Expr, op: Op, p: Path, q: Path, x: Expr, y: Expr, env: Env)
    requires UnderOp(e, op, p) && UnderOp(e, op, q) && Apart(p, q) && OnPath(e, p) && OnPath(e, q)
    requires OnPath(Put(e, p, x), q)
    requires Apply(op, Val(x, env), Val(y, env)) == Apply(op, Val(At(e, p), env), Val(At(e, q), env))
    ensures Val(Put(Put(e, p, x), q, y), env) == Val(e, env)
  {
    var e1, e2 := Child(e, p[0]), Child(e, q[0]);
    if p[0] == q[0] {
      ReplaceTwo(e1, op, p[1..], q[1..], x, y, env);
    } else {
      ValPut(e1, op, p[1..], x, env);
      ValAt(e1, op, p[1..], env);
      ValPut(e2, op, q[1..], y, env);
      ValAt(e2, op, q[1..], env);
      ApplyPairs(op, Rest(e1, op, p[1..], env), Rest(e2, op, q[1..], env), Val(At(e, p), env), Val(At(e, q), env),
                 Val(x, env), Val(y, env));
    }
  }

  /** an identity operand is visible from the root */
  lemma {:induction false} IdentityInside(e: Expr, p: Path, op: Op)
    requires OnPath(e, p)
    requires HasIdentityOperand(At(e, p)) || (UnderOp(e, op, p) && p != [] && At(e, p) == Sym(Identity(op)))
    ensures HasIdentityOperand(e)
  {
    if p != [] && !(p[1..] == [] && UnderOp(e, op, p) && At(e, p) == Sym(Identity(op))) {
      IdentityInside(Child(e, p[0]), p[1..], op);
    }
  }
}
