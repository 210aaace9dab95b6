/** What `expr_eq` and `expr_eliminate_eq` find: equality up to the order and grouping of operands. */
module KconfigEqual {
  import opened KconfigExpr

  // ----- expressions without order and grouping -----

  datatype Shape = Leaf(e: Expr) | Neg(x: Shape) | Many(op: Op, parts: multiset<Shape>)

  function ShapeOf(e: Expr): Shape
    decreases e, 1
  {
    match e
    case Not(x) => Neg(ShapeOf(x))
    case Two(op, _, _) => Many(op, Parts(op, e))
    case _ => Leaf(e)
  }

  /** The operands of nested `op`, without the symbol that changes nothing. */
  function Parts(op: Op, e: Expr): multiset<Shape>
    decreases e, if IsOp(op, e) then 0 else 2
  {
    if IsOp(op, e) then Parts(op, e.l) + Parts(op, e.r)
    else if e == Unit(op) then multiset{}
    else multiset{ShapeOf(e)}
  }

  /** Constants other than m do not occur as operands. */
  predicate ConstantFree(e: Expr)
  {
    match e
    case Sym(s) => !s.IsConstant() || s == Mod
    case Not(x) => ConstantFree(x)
    case Two(_, x, y) => ConstantFree(x) && ConstantFree(y)
    case _ => true
  }

  /** The same, but operands of `op` may have been cancelled. */
  predicate Cancelled(op: Op, e: Expr)
  {
    e == Unit(op) || (if IsOp(op, e) then Cancelled(op, e.l) && Cancelled(op, e.r) else ConstantFree(e))
  }

  lemma {:induction false} FreeCancelled(op: Op, e: Expr)
    requires ConstantFree(e)
    ensures Cancelled(op, e) && Parts(op, e) != multiset{}
  {
    if IsOp(op, e) {
      FreeCancelled(op, e.l);
      FreeCancelled(op, e.r);
    }
  }

  // ----- multisets -----

  lemma Contained<T>(A: multiset<T>, B: multiset<T>)
    ensures A - B == multiset{} <==> A <= B
  {
    if A - B == multiset{} {
      forall x ensures A[x] <= B[x] { assert (A - B)[x] == 0; }
    }
  }

  /** How many more `m` are than `n`. */
  function Excess(m: nat, n: nat): nat { if m > n then m - n else 0 }

  lemma Subtracted<T(!new)>(A: multiset<T>, B: multiset<T>, C: multiset<T>)
    requires forall x :: C[x] == Excess(A[x], B[x])
    ensures C == A - B
  {
  }

  lemma Differences<T>(A: multiset<T>, B: multiset<T>)
    ensures A - B == B - A ==> A == B
  {
    if A - B == B - A {
      forall x ensures A[x] == B[x] { assert (A - B)[x] == (B - A)[x]; }
    }
  }

  // ----- counting -----

  /** How often an operand of shape `s` occurs. */
  function Count(op: Op, e: Expr, s: Shape): nat
  {
    if IsOp(op, e) then Count(op, e.l, s) + Count(op, e.r, s)
    else if e != Unit(op) && s == ShapeOf(e) then 1
    else 0
  }

  lemma {:induction false} CountParts(op: Op, e: Expr, s: Shape)
    ensures Parts(op, e)[s] == Count(op, e, s)
  {
    if IsOp(op, e) {
      CountParts(op, e.l, s);
      CountParts(op, e.r, s);
    }
  }

  lemma SameParts(op: Op, e: Expr, f: Expr)
    requires forall s: Shape :: Count(op, e, s) == Count(op, f, s)
    ensures Parts(op, e) == Parts(op, f)
  {
    forall s: Shape ensures Parts(op, e)[s] == Parts(op, f)[s] {
      CountParts(op, e, s);
      CountParts(op, f, s);
    }
  }

  // ----- constants -----

  lemma {:induction false} FreeOfYn(e: Expr)
    requires ConstantFree(e)
    ensures !Shrinkable(e)
  {
    if e.Two? {
      FreeOfYn(e.l);
      FreeOfYn(e.r);
    }
  }

  lemma Simplified(op: Op, x: Expr, y: Expr)
    requires (x == Unit(op) || ConstantFree(x)) && (y == Unit(op) || ConstantFree(y))
    ensures var r := Simplify(op, x, y); r == Unit(op) || ConstantFree(r)
    ensures forall s: Shape :: Count(op, Simplify(op, x, y), s) == Count(op, x, s) + Count(op, y, s)
  {
  }

  /** Eliminating y and n leaves exactly the operands that have not been cancelled. */
  lemma {:induction false} EliminateCancelled(op: Op, e: Expr)
    requires Cancelled(op, e)
    ensures var r := EliminateYn(e); r == Unit(op) || ConstantFree(r)
    ensures forall s: Shape :: Count(op, EliminateYn(e), s) == Count(op, e, s)
  {
    if IsOp(op, e) {
      EliminateCancelled(op, e.l);
      EliminateCancelled(op, e.r);
      Simplified(op, EliminateYn(e.l), EliminateYn(e.r));
    } else if e != Unit(op) {
      FreeOfYn(e);
      NoneLeft(e);
    }
  }

  /** So nothing is left if and only if all have been. */
  lemma AllCancelled(op: Op, e: Expr)
    requires Cancelled(op, e)
    ensures EliminateYn(e) == Unit(op) <==> Parts(op, e) == multiset{}
    ensures Parts(op, EliminateYn(e)) == Parts(op, e)
  {
    EliminateCancelled(op, e);
    SameParts(op, e, EliminateYn(e));
    if EliminateYn(e) != Unit(op) { FreeCancelled(op, EliminateYn(e)); }
  }

  // ----- cancelling -----

  /** `r` has on each side the operands that it has more of than the other. */
  ghost predicate Apart(op: Op, e1: Expr, e2: Expr, r: (Expr, Expr))
  {
    && Cancelled(op, r.0) && Cancelled(op, r.1)
    && forall s: Shape ::
         && Count(op, r.0, s) == Excess(Count(op, e1, s), Count(op, e2, s))
         && Count(op, r.1, s) == Excess(Count(op, e2, s), Count(op, e1, s))
  }

  lemma ApartLeft(op: Op, x: Expr, y: Expr, e: Expr, r: (Expr, Expr), q: (Expr, Expr))
    requires Apart(op, x, e, r) == true && Apart(op, y, r.1, q) == true
    ensures Apart(op, Two(op, x, y), e, (Two(op, r.0, q.0), q.1))
  {
  }

  lemma ApartRight(op: Op, e: Expr, x: Expr, y: Expr, r: (Expr, Expr), q: (Expr, Expr))
    requires Apart(op, e, x, r) == true && Apart(op, r.0, y, q) == true
    ensures Apart(op, e, Two(op, x, y), (q.0, Two(op, r.1, q.1)))
  {
    ApartLeft(op, x, y, e, (r.1, r.0), (q.1, q.0));
  }

  /** Cancelling leaves on each side the operands that it has more of than the other. */
  lemma {:induction false} CancelExact(op: Op, e1: Expr, e2: Expr)
    requires Cancelled(op, e1) && Cancelled(op, e2)
    ensures Apart(op, e1, e2, Cancel(op, e1, e2)) == true
    ensures var r := Cancel(op, e1, e2); Cancelled(op, r.0) && Cancelled(op, r.1)
    decreases Size(e1) + Size(e2), if IsOp(op, e1) || IsOp(op, e2) then 0 else 3, 1
  {
    if IsOp(op, e1) {
      CancelLeft(op, e1, e2);
    } else if IsOp(op, e2) {
      CancelRight(op, e1, e2);
    } else {
      CancelOperands(op, e1, e2);
    }
  }

  lemma {:induction false} CancelLeft(op: Op, e1: Expr, e2: Expr)
    requires Cancelled(op, e1) && Cancelled(op, e2) && IsOp(op, e1)
    ensures Apart(op, e1, e2, Cancel(op, e1, e2)) == true
    ensures var r := Cancel(op, e1, e2); Cancelled(op, r.0) && Cancelled(op, r.1)
    decreases Size(e1) + Size(e2), 0, 0
  {
    var first := Cancel(op, e1.l, e2);
    CancelExact(op, e1.l, e2);
    CancelExact(op, e1.r, first.1);
    ApartLeft(op, e1.l, e1.r, e2, first, Cancel(op, e1.r, first.1));
  }

  lemma {:induction false} CancelRight(op: Op, e1: Expr, e2: Expr)
    requires Cancelled(op, e1) && Cancelled(op, e2) && !IsOp(op, e1) && IsOp(op, e2)
    ensures Apart(op, e1, e2, Cancel(op, e1, e2)) == true
    ensures var r := Cancel(op, e1, e2); Cancelled(op, r.0) && Cancelled(op, r.1)
    decreases Size(e1) + Size(e2), 0, 0
  {
    var first := Cancel(op, e1, e2.l);
    CancelExact(op, e1, e2.l);
    CancelExact(op, first.0, e2.r);
    ApartRight(op, e1, e2.l, e2.r, first, Cancel(op, first.0, e2.r));
  }

  lemma {:induction false} CancelOperands(op: Op, e1: Expr, e2: Expr)
    requires Cancelled(op, e1) && Cancelled(op, e2) && !IsOp(op, e1) && !IsOp(op, e2)
    ensures Apart(op, e1, e2, Cancel(op, e1, e2)) == true
    ensures var r := Cancel(op, e1, e2); Cancelled(op, r.0) && Cancelled(op, r.1)
    decreases Size(e1) + Size(e2), 2, 1
  {
    ApartOperands(op, e1, e2);
    OperandsEqual(op, e1, e2);
  }

  lemma {:induction false} OperandsEqual(op: Op, e1: Expr, e2: Expr)
    requires Cancelled(op, e1) && Cancelled(op, e2) && !IsOp(op, e1) && !IsOp(op, e2)
    ensures ExprEq(e1, e2) <==> ShapeOf(e1) == ShapeOf(e2)
    ensures e1 == Unit(op) ==> (ExprEq(e1, e2) <==> e1 == e2)
    decreases Size(e1) + Size(e2), 2, 0, 1
  {
    if e1 != Unit(op) && e2 != Unit(op) { ExprEqExact(e1, e2); }
  }

  lemma ApartOperands(op: Op, e1: Expr, e2: Expr)
    requires Cancelled(op, e1) && Cancelled(op, e2) && !IsOp(op, e1) && !IsOp(op, e2)
    ensures Apart(op, e1, e2, if ShapeOf(e1) == ShapeOf(e2) then (Unit(op), Unit(op)) else (e1, e2))
  {
    UnitShape(op, e1);
    UnitShape(op, e2);
  }

  lemma UnitShape(op: Op, e: Expr)
    ensures ShapeOf(e) == ShapeOf(Unit(op)) <==> e == Unit(op)
  {
  }

  // ----- what the passes find -----

  /** `r` is what is left of two expressions without the operands of `op` that they have in common. */
  predicate Left(op: Op, e1: Expr, e2: Expr, r: (Expr, Expr))
  {
    var A, B := Parts(op, e1), Parts(op, e2);
    && Parts(op, r.0) == A - B && (if A <= B then r.0 == Unit(op) else ConstantFree(r.0))
    && Parts(op, r.1) == B - A && (if B <= A then r.1 == Unit(op) else ConstantFree(r.1))
  }

  lemma ApartParts(op: Op, e1: Expr, e2: Expr, r: (Expr, Expr))
    requires Apart(op, e1, e2, r)
    ensures Parts(op, r.0) == Parts(op, e1) - Parts(op, e2) && Parts(op, r.1) == Parts(op, e2) - Parts(op, e1)
  {
    forall s: Shape
      ensures Parts(op, r.0)[s] == Excess(Parts(op, e1)[s], Parts(op, e2)[s])
      ensures Parts(op, r.1)[s] == Excess(Parts(op, e2)[s], Parts(op, e1)[s])
    {
      CountParts(op, e1, s);
      CountParts(op, e2, s);
      CountParts(op, r.0, s);
      CountParts(op, r.1, s);
    }
    Subtracted(Parts(op, e1), Parts(op, e2), Parts(op, r.0));
    Subtracted(Parts(op, e2), Parts(op, e1), Parts(op, r.1));
  }

  lemma LeftOver(op: Op, e1: Expr, e2: Expr, r: (Expr, Expr))
    requires Apart(op, e1, e2, r)
    ensures Left(op, e1, e2, (EliminateYn(r.0), EliminateYn(r.1)))
  {
    EliminateCancelled(op, r.0);
    EliminateCancelled(op, r.1);
    AllCancelled(op, r.0);
    AllCancelled(op, r.1);
    ApartParts(op, e1, e2, r);
    Contained(Parts(op, e1), Parts(op, e2));
    Contained(Parts(op, e2), Parts(op, e1));
  }

  /** Of two expressions, one with operator `op` and none with the other, the operands in common go. */
  lemma {:induction false} EliminateSame(op: Op, e1: Expr, e2: Expr)
    requires ConstantFree(e1) && ConstantFree(e2) && (IsOp(op, e1) || IsOp(op, e2))
    requires (e1.Two? ==> e1.op == op) && (e2.Two? ==> e2.op == op)
    ensures Left(op, e1, e2, EliminateEq(e1, e2)) == true
    decreases Size(e1) + Size(e2), 1
  {
    FreeCancelled(op, e1);
    FreeCancelled(op, e2);
    CancelExact(op, e1, e2);
    LeftOver(op, e1, e2, Cancel(op, e1, e2));
    CancelledOnce(op, e1, e2);
  }

  lemma CancelledOnce(op: Op, e1: Expr, e2: Expr)
    requires IsOp(op, e1) || IsOp(op, e2)
    requires (e1.Two? ==> e1.op == op) && (e2.Two? ==> e2.op == op)
    ensures var r := Cancel(op, e1, e2); EliminateEq(e1, e2) == (EliminateYn(r.0), EliminateYn(r.1))
  {
    if e1.Two? && !e2.Two? { OperandKept(op, e1, e2); }
  }

  /** Two expressions count as equal if and only if they have the same shape. */
  lemma {:induction false} ExprEqExact(e1: Expr, e2: Expr)
    requires ConstantFree(e1) && ConstantFree(e2)
    ensures ExprEq(e1, e2) <==> ShapeOf(e1) == ShapeOf(e2)
    decreases Size(e1) + Size(e2), 2, 0, 0
  {
    if e1.Not? && e2.Not? {
      ExprEqExact(e1.e, e2.e);
    } else if e1.Two? && IsOp(e1.op, e2) {
      EliminateSame(e1.op, e1, e2);
      LeftNothing(e1.op, e1, e2, EliminateEq(e1, e2));
    }
  }

  lemma LeftNothing(op: Op, e1: Expr, e2: Expr, r: (Expr, Expr))
    requires Left(op, e1, e2, r)
    ensures r.0.Sym? && r.0 == r.1 <==> Parts(op, e1) == Parts(op, e2)
  {
    Differences(Parts(op, e1), Parts(op, e2));
  }

  /** Constants other than m are not cancelled: an operator over two of them is not equal to itself. */
  lemma ConstantsMatter(op: Op, c: Name, d: Name)
    ensures var e := Two(op, Sym(Const(c)), Sym(Const(d))); !ExprEq(e, e)
  {
    var x, y := Sym(Const(c)), Sym(Const(d));
    var e := Two(op, x, y);
    assert Cancel(op, x, x) == (x, x) && Cancel(op, y, y) == (y, y);
    assert !ExprEq(x, y) || x == y;
    assert Cancel(op, x, y) == (x, y) && Cancel(op, y, x) == (y, x);
    assert Cancel(op, x, e) == (x, e) && Cancel(op, y, e) == (y, e);
    assert Cancel(op, e, e) == (e, e);
    assert EliminateYn(e) == e;
  }

  // ----- expressions with different operators -----

  /** Without an operand in common nothing is cancelled. */
  lemma {:induction false} CancelNothing(op: Op, e1: Expr, e2: Expr)
    requires ConstantFree(e1) && ConstantFree(e2) && !IsOp(op, e2) && ShapeOf(e2) !in Parts(op, e1)
    ensures Cancel(op, e1, e2) == (e1, e2)
  {
    if IsOp(op, e1) {
      CancelNothing(op, e1.l, e2);
      CancelNothing(op, e1.r, e2);
    } else {
      ExprEqExact(e1, e2);
    }
  }

  /** The operator whose operands are compared: that of the first expression, unless only the second has
      one or it has another and is no operand of the first. */
  function Operator(e1: Expr, e2: Expr): Op
    requires e1.Two? || e2.Two?
  {
    if e1.Two? && (e2.Two? && e2.op != e1.op ==> ShapeOf(e2) in Parts(e1.op, e1)) then e1.op else e2.op
  }

  /** `expr_eliminate_eq` takes away exactly the operands that both expressions have in common, and leaves
      the symbol that changes nothing if and only if that is all of them. */
  lemma EliminateEqExact(e1: Expr, e2: Expr)
    requires ConstantFree(e1) && ConstantFree(e2)
    ensures if e1.Two? || e2.Two? then Left(Operator(e1, e2), e1, e2, EliminateEq(e1, e2))
            else EliminateEq(e1, e2) == (e1, e2)
  {
    if e1.Two? && e2.Two? && e1.op != e2.op {
      EliminateMixed(e1, e2);
    } else if e1.Two? || e2.Two? {
      EliminateSame(Operator(e1, e2), e1, e2);
    }
  }

  lemma EliminateMixed(e1: Expr, e2: Expr)
    requires ConstantFree(e1) && ConstantFree(e2) && e1.Two? && e2.Two? && e1.op != e2.op
    ensures Left(Operator(e1, e2), e1, e2, EliminateEq(e1, e2)) == true
  {
    var op := Operator(e1, e2);
    FreeCancelled(op, e1);
    FreeCancelled(op, e2);
    CancelExact(op, e1, e2);
    LeftOver(op, e1, e2, Cancel(op, e1, e2));
    if op != e1.op { CancelNothing(e1.op, e1, e2); } else { OperandGone(e1, e2); }
  }

  /** An operand of the other expression is cancelled as a whole. */
  lemma {:induction false} OperandGone(e1: Expr, e2: Expr)
    requires ConstantFree(e1) && ConstantFree(e2) && e1.Two? && !IsOp(e1.op, e2)
    requires ShapeOf(e2) in Parts(e1.op, e1)
    ensures Cancel(e1.op, e1, e2).1 == Unit(e1.op)
  {
    var op, r := e1.op, Cancel(e1.op, e1, e2);
    FreeCancelled(op, e1);
    FreeCancelled(op, e2);
    CancelExact(op, e1, e2);
    ApartParts(op, e1, e2, r);
    assert Parts(op, e2) - Parts(op, e1) == multiset{};
    OperandKept(op, e1, e2);
  }

  lemma {:induction false} OperandKept(op: Op, e1: Expr, e2: Expr)
    requires !IsOp(op, e2)
    ensures var r := Cancel(op, e1, e2).1; r == e2 || r == Unit(op)
    decreases e1
  {
    if IsOp(op, e1) {
      OperandKept(op, e1.l, e2);
      OperandKept(op, e1.r, Cancel(op, e1.l, e2).1);
    }
  }
}
