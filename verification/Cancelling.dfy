/** expr_eliminate_eq in place: two walkers over two trees, overwriting the operands both have. */
module Cancelling {
  import opened Expressions
  import opened Equality
  import opened Positions

  class Trees {
    var first: Expr
    var second: Expr
    var transCount: nat

    constructor (e1: Expr, e2: Expr)
      ensures first == e1 && second == e2
    {
      first, second, transCount := e1, e2, 0;
    }

    /** __expr_eliminate_eq on the node at p1 of the first and the node at p2 of the second tree */
    method Cancel(op: Op, p1: Path, p2: Path)
      requires OnPath(first, p1) && OnPath(second, p2)
      modifies this
      ensures first == Put(old(first), p1, CancelWalk(op, old(At(first, p1)), old(At(second, p2))).0)
      ensures second == Put(old(second), p2, CancelWalk(op, old(At(first, p1)), old(At(second, p2))).1)
      ensures transCount >= old(transCount)
      ensures transCount == old(transCount) ==> first == old(first) && second == old(second)
      decreases Weight(At(first, p1), At(second, p2)), if IsOp(At(first, p1), op) || IsOp(At(second, p2), op) then 0 else 2
    {
      var e1, e2 := At(first, p1), At(second, p2);
      if IsOp(e1, op) {
        CancelChildrenOfFirst(op, p1, p2);
      } else if IsOp(e2, op) {
        CancelChildrenOfSecond(op, p1, p2);
      } else {
        PutAt(first, p1, e1);
        PutAt(second, p2, e2);
        if e1.Sym? && e2 == e1 && (e1.sym == Yes || e1.sym == No) {
        } else if ExprEq(e1, e2) {
          transCount := transCount + 1;
          first := Put(first, p1, Sym(Identity(op)));
          second := Put(second, p2, Sym(Identity(op)));
        }
      }
    }

    method CancelChildrenOfFirst(op: Op, p1: Path, p2: Path)
      requires OnPath(first, p1) && OnPath(second, p2) && IsOp(At(first, p1), op)
      modifies this
      ensures first == Put(old(first), p1, CancelWalk(op, old(At(first, p1)), old(At(second, p2))).0)
      ensures second == Put(old(second), p2, CancelWalk(op, old(At(first, p1)), old(At(second, p2))).1)
      ensures transCount >= old(transCount)
      ensures transCount == old(transCount) ==> first == old(first) && second == old(second)
      decreases Weight(At(first, p1), At(second, p2)), 0, 0
    {
      ghost var t1, t2, e1, e2 := first, second, At(first, p1), At(second, p2);
      ghost var (l, f2) := CancelWalk(op, e1.l, e2);
      ghost var (r, g2) := CancelWalk(op, e1.r, f2);
      ChildPositions(t1, p1, l);
      Cancel(op, p1 + [Left], p2);
      PutAt(t1, p1, Bin(op, l, e1.r));
      PutAt(t2, p2, f2);
      ChildPositions(first, p1, r);
      Cancel(op, p1 + [Right], p2);
    }

    method CancelChildrenOfSecond(op: Op, p1: Path, p2: Path)
      requires OnPath(first, p1) && OnPath(second, p2) && !IsOp(At(first, p1), op) && IsOp(At(second, p2), op)
      modifies this
      ensures first == Put(old(first), p1, CancelWalk(op, old(At(first, p1)), old(At(second, p2))).0)
      ensures second == Put(old(second), p2, CancelWalk(op, old(At(first, p1)), old(At(second, p2))).1)
      ensures transCount >= old(transCount)
      ensures transCount == old(transCount) ==> first == old(first) && second == old(second)
      decreases Weight(At(first, p1), At(second, p2)), 0, 0
    {
      ghost var t1, t2, e1, e2 := first, second, At(first, p1), At(second, p2);
      ghost var (f1, l) := CancelWalk(op, e1, e2.l);
      ghost var (g1, r) := CancelWalk(op, f1, e2.r);
      ChildPositions(t2, p2, l);
      Cancel(op, p1, p2 + [Left]);
      PutAt(t2, p2, Bin(op, l, e2.r));
      PutAt(t1, p1, f1);
      ChildPositions(second, p2, r);
      Cancel(op, p1, p2 + [Right]);
    }

    /** expr_eliminate_eq */
    method EliminateEqInPlace()
      modifies this
      ensures (first, second) == EliminateEq(old(first), old(second))
    {
      if first.Bin? {
        Cancel(first.op, [], []);
      }
      if second.Bin? && !IsOp(first, second.op) {
        Cancel(second.op, [], []);
      }
      first := EliminateYn(first);
      second := EliminateYn(second);
    }
  }

  /** overwriting one child of the node at p */
  lemma ChildPositions(t: Expr, p: Path, x: Expr)
    requires OnPath(t, p) && At(t, p).Bin?
    ensures OnPath(t, p + [Left]) && At(t, p + [Left]) == At(t, p).l
    ensures OnPath(t, p + [Right]) && At(t, p + [Right]) == At(t, p).r
    ensures Put(t, p + [Left], x) == Put(t, p, Bin(At(t, p).op, x, At(t, p).r))
    ensures Put(t, p + [Right], x) == Put(t, p, Bin(At(t, p).op, At(t, p).l, x))
  {
    AtConcat(t, p, [Left]);
    AtConcat(t, p, [Right]);
    PutConcat(t, p, [Left], x);
    PutConcat(t, p, [Right], x);
  }
}
