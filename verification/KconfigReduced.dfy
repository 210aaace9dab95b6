/** Operands of which one would do, and expressions without them. */
module KconfigReduced {
  import opened Options
  import opened KconfigExpr
  import opened KconfigTransform
  import opened KconfigJoin
  import opened KconfigEqual

  // ----- pairs of operands -----

  /** A symbol, a negated symbol or a comparison. */
  predicate Basic(e: Expr) { e.Sym? || IsComparison(e) || (e.Not? && e.e.Sym?) }

  /** The same operand, up to order and grouping. */
  predicate Alike(x: Expr, y: Expr)
  {
    (Basic(x) && x == y) || (ConstantFree(x) && ConstantFree(y) && ShapeOf(x) == ShapeOf(y))
  }

  /** Two different ones of y, m and n. */
  predicate TwoValues(s: Symbol, t: Symbol) { s != t && {s, t} <= {Yes, Mod, No} }

  /** FOO=y || FOO=m and the like for a tristate, FOO || !FOO for a boolean. */
  predicate CoveredOr(x: Expr, y: Expr)
  {
    || (x.Equal? && y.Equal? && x.left == y.left && x.left.Type() == Tristate && TwoValues(x.right, y.right))
    || (x.Sym? && x.sym.Type() == Boolean && y == Not(x))
  }

  /** FOO beside FOO=y, FOO!=n or FOO!=m; for a tristate also FOO=b beside FOO!=c with constants b and c,
      and two inequations with two of y, m and n. */
  predicate CoveredAnd(x: Expr, y: Expr)
  {
    || (x.Sym? && x.sym.Type() in {Boolean, Tristate}
        && y in {Equal(x.sym, Yes), Unequal(x.sym, No), Unequal(x.sym, Mod)})
    || (x.Equal? && y.Unequal? && x.left == y.left && x.left.Type() == Tristate
        && x.right.IsConstant() && y.right.IsConstant())
    || (x.Unequal? && y.Unequal? && x.left == y.left && x.left.Type() == Tristate && TwoValues(x.right, y.right))
  }

  /** One operand would do instead of the two. */
  predicate Redundant(op: Op, x: Expr, y: Expr)
  {
    Alike(x, y) || if op == Or then CoveredOr(x, y) || CoveredOr(y, x) else CoveredAnd(x, y) || CoveredAnd(y, x)
  }

  lemma AlikeExact(x: Expr, y: Expr)
    requires (Basic(x) || ConstantFree(x)) && (Basic(y) || ConstantFree(y))
    ensures ExprEq(x, y) <==> Alike(x, y)
  {
    if ConstantFree(x) && ConstantFree(y) {
      ExprEqExact(x, y);
    }
  }

  /** `expr_join_or` and `expr_join_and` join exactly such operands. */
  lemma JoinExact(op: Op, x: Expr, y: Expr)
    requires (Basic(x) || ConstantFree(x)) && (Basic(y) || ConstantFree(y))
    ensures Join(op, x, y).Some? <==> Redundant(op, x, y)
  {
    AlikeExact(x, y);
  }

  lemma RedundantJoined(op: Op, x: Expr, y: Expr)
    requires Redundant(op, x, y)
    ensures Join(op, x, y).Some?
  {
    JoinExact(op, x, y);
  }

  // ----- an operand against all others -----

  /** Extracting, like cancelling, leaves what each side has more of. */
  lemma {:induction false} ExtractExact(op: Op, common: Option<Expr>, e1: Expr, e2: Expr)
    requires Cancelled(op, e1) && Cancelled(op, e2)
    ensures Apart(op, e1, e2, Rest(Extract(op, common, e1, e2))) == true
    ensures var r := Extract(op, common, e1, e2); Cancelled(op, r.left) && Cancelled(op, r.right)
    decreases Size(e1) + Size(e2), 1
  {
    if IsOp(op, e1) {
      ExtractOnLeft(op, common, e1, e2);
    } else if IsOp(op, e2) {
      ExtractOnRight(op, common, e1, e2);
    } else {
      ExtractOperands(op, common, e1, e2);
    }
  }

  lemma ExtractOperands(op: Op, common: Option<Expr>, e1: Expr, e2: Expr)
    requires Cancelled(op, e1) && Cancelled(op, e2) && !IsOp(op, e1) && !IsOp(op, e2)
    ensures Apart(op, e1, e2, Rest(Extract(op, common, e1, e2))) == true
    ensures var r := Extract(op, common, e1, e2); Cancelled(op, r.left) && Cancelled(op, r.right)
  {
    ApartOperands(op, e1, e2);
    OperandsEqual(op, e1, e2);
  }

  function Rest(r: Extracted): (Expr, Expr) { (r.left, r.right) }

  lemma {:induction false} ExtractOnLeft(op: Op, common: Option<Expr>, e1: Expr, e2: Expr)
    requires Cancelled(op, e1) && Cancelled(op, e2) && IsOp(op, e1)
    ensures Apart(op, e1, e2, Rest(Extract(op, common, e1, e2))) == true
    ensures var r := Extract(op, common, e1, e2); Cancelled(op, r.left) && Cancelled(op, r.right)
    decreases Size(e1) + Size(e2), 0
  {
    var first := Extract(op, common, e1.l, e2);
    ExtractExact(op, common, e1.l, e2);
    ExtractExact(op, first.common, e1.r, first.right);
    ApartLeft(op, e1.l, e1.r, e2, Rest(first), Rest(Extract(op, first.common, e1.r, first.right)));
  }

  lemma {:induction false} ExtractOnRight(op: Op, common: Option<Expr>, e1: Expr, e2: Expr)
    requires Cancelled(op, e1) && Cancelled(op, e2) && !IsOp(op, e1) && IsOp(op, e2)
    ensures Apart(op, e1, e2, Rest(Extract(op, common, e1, e2))) == true
    ensures var r := Extract(op, common, e1, e2); Cancelled(op, r.left) && Cancelled(op, r.right)
    decreases Size(e1) + Size(e2), 0
  {
    var first := Extract(op, common, e1, e2.l);
    ExtractExact(op, common, e1, e2.l);
    ExtractExact(op, first.common, first.left, e2.r);
    ApartRight(op, e1, e2.l, e2.r, Rest(first), Rest(Extract(op, first.common, first.left, e2.r)));
  }

  /** Without anything in common both expressions stay as they are. */
  lemma {:induction false} ExtractNone(op: Op, common: Option<Expr>, e1: Expr, e2: Expr)
    ensures var r := Extract(op, common, e1, e2);
      r.common.None? ==> common.None? && r.left == e1 && r.right == e2
    decreases Size(e1) + Size(e2)
  {
    if IsOp(op, e1) {
      var first := Extract(op, common, e1.l, e2);
      ExtractNone(op, common, e1.l, e2);
      ExtractNone(op, first.common, e1.r, first.right);
    } else if IsOp(op, e2) {
      var first := Extract(op, common, e1, e2.l);
      ExtractNone(op, common, e1, e2.l);
      ExtractNone(op, first.common, first.left, e2.r);
    }
  }

  /** Nothing is left of the first expression if and only if all its operands are among those of the
      second. */
  lemma ExtractAll(op: Op, e1: Expr, e2: Expr)
    requires ConstantFree(e1) && ConstantFree(e2)
    ensures ExtractEq(op, e1, e2).left == Unit(op) <==> Parts(op, e1) <= Parts(op, e2)
  {
    var r := Extract(op, None, e1, e2);
    FreeCancelled(op, e1);
    FreeCancelled(op, e2);
    ExtractExact(op, None, e1, e2);
    ExtractNone(op, None, e1, e2);
    AllCancelled(op, r.left);
    ApartParts(op, e1, e2, Rest(r));
    Contained(Parts(op, e1), Parts(op, e2));
  }

  /** All operands of the negation of `x` are among those of `e`, so that `x` and `e` exclude or exhaust
      each other. */
  predicate Refutes(op: Op, x: Expr, e: Expr)
  {
    var n := Transform(Not(x));
    ConstantFree(n) && ConstantFree(e) && Parts(op, n) <= Parts(op, e)
  }

  // ----- expressions without superfluous operands -----

  function Leaves(op: Op, e: Expr): (x: seq<Expr>)
    ensures x != []
  {
    if IsOp(op, e) then Leaves(op, e.l) + Leaves(op, e.r) else [e]
  }

  /** At no level two operands of an operator are redundant, and none refutes the others. */
  predicate Reduced(e: Expr)
    decreases e, 1
  {
    e.Two? ==>
      && var x := Leaves(e.op, e);
      && (forall i, j | 0 <= i < |x| && 0 <= j < |x| && i != j :: !Redundant(e.op, x[i], x[j]))
      && (forall i | 0 <= i < |x| && x[i].Two? :: !Refutes(e.op, x[i], e))
      && AllReduced(e.op, e)
  }

  /** The operands by themselves are reduced. */
  predicate AllReduced(op: Op, e: Expr)
    decreases e, if IsOp(op, e) then 0 else 2
  {
    if IsOp(op, e) then AllReduced(op, e.l) && AllReduced(op, e.r) else Reduced(e)
  }
}
