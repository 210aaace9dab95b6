/** Joining two operands into one, and taking common operands out of two expressions. */
module KconfigJoin {
  import opened Options
  import opened KconfigExpr

  // ----- expr_join_or and expr_join_and -----

  predicate IsComparison(e: Expr) { e.Equal? || e.Unequal? }

  /** The symbol of a symbol or a comparison. */
  function Subject(e: Expr): Symbol
    requires e.Sym? || IsComparison(e)
  {
    if e.Sym? then e.sym else e.left
  }

  /** The one symbol that both operands are about. */
  function Common(e1: Expr, e2: Expr): Option<Symbol>
  {
    if e1.Two? || e2.Two? then None
    else if e1.Not? && !(e1.e.Sym? || IsComparison(e1.e)) then None
    else if e2.Not? && !e2.e.Sym? then None
    else
      var s1 := if e1.Not? then Subject(e1.e) else Subject(e1);
      var s2 := if e2.Not? then e2.e.sym else Subject(e2);
      if s1 == s2 && s1.Type() in {Boolean, Tristate} then Some(s1) else None
  }

  /** Both are comparisons of the given kinds, with `s` and `t` in some order. */
  predicate Pair(e1: Expr, e2: Expr, s: Symbol, t: Symbol)
    requires IsComparison(e1) && IsComparison(e2)
  {
    (e1.right == s && e2.right == t) || (e1.right == t && e2.right == s)
  }

  /** `expr_join_or` after the test for equality. */
  function JoinOr(e1: Expr, e2: Expr, a: Symbol): Option<Expr>
  {
    if a.Type() == Tristate && e1.Equal? && e2.Equal? && Pair(e1, e2, Yes, Mod) then Some(Unequal(a, No))
    else if a.Type() == Tristate && e1.Equal? && e2.Equal? && Pair(e1, e2, Yes, No) then Some(Unequal(a, Mod))
    else if a.Type() == Tristate && e1.Equal? && e2.Equal? && Pair(e1, e2, Mod, No) then Some(Unequal(a, Yes))
    else if a.Type() == Boolean && ((e1.Not? && e1.e.Sym? && e2.Sym?) || (e2.Not? && e2.e.Sym? && e1.Sym?)) then Some(Sym(Yes))
    else None
  }

  /** One is a bare symbol, the other an equation or inequation with `t`. */
  predicate SymbolAnd(e1: Expr, e2: Expr, equal: bool, t: Symbol)
  {
    || (e1.Sym? && (if equal then e2.Equal? else e2.Unequal?) && e2.right == t)
    || (e2.Sym? && (if equal then e1.Equal? else e1.Unequal?) && e1.right == t)
  }

  /** (a='b') && (a!='c') for constants b and c. */
  function JoinBoth(a: Symbol, b: Symbol, c: Symbol): Expr
  {
    if b != c then Equal(a, b) else Sym(No)
  }

  /** `expr_join_and` after the test for equality. */
  function JoinAnd(e1: Expr, e2: Expr, a: Symbol): Option<Expr>
  {
    if SymbolAnd(e1, e2, true, Yes) then Some(Equal(a, Yes))
    else if SymbolAnd(e1, e2, false, No) then Some(Sym(a))
    else if SymbolAnd(e1, e2, false, Mod) then Some(Equal(a, Yes))
    else if a.Type() != Tristate then None
    else if e1.Equal? && e2.Unequal? && e1.right.IsConstant() && e2.right.IsConstant() then Some(JoinBoth(a, e1.right, e2.right))
    else if e1.Unequal? && e2.Equal? && e1.right.IsConstant() && e2.right.IsConstant() then Some(JoinBoth(a, e2.right, e1.right))
    else if e1.Unequal? && e2.Unequal? && Pair(e1, e2, Yes, No) then Some(Equal(a, Mod))
    else if e1.Unequal? && e2.Unequal? && Pair(e1, e2, Yes, Mod) then Some(Equal(a, No))
    else if e1.Unequal? && e2.Unequal? && Pair(e1, e2, Mod, No) then Some(Equal(a, Yes))
    else None
  }

  /** `expr_join_or` and `expr_join_and`. */
  function Join(op: Op, e1: Expr, e2: Expr): (r: Option<Expr>)
    ensures r.Some? ==> Size(r.value) <= Size(e1)
  {
    if ExprEq(e1, e2) then Some(e1)
    else match Common(e1, e2)
      case None => None
      case Some(a) => if op == Or then JoinOr(e1, e2, a) else JoinAnd(e1, e2, a)
  }

  lemma JoinOrValue(a: Assignment, e1: Expr, e2: Expr, s: Symbol)
    requires Common(e1, e2) == Some(s) && JoinOr(e1, e2, s).Some?
    ensures Value(a, JoinOr(e1, e2, s).value) == Apply(Or, Value(a, e1), Value(a, e2))
  {
    assert TextOf(a, s) == TriName(TriOf(a, s));
  }

  lemma JoinAndValue(a: Assignment, e1: Expr, e2: Expr, s: Symbol)
    requires Common(e1, e2) == Some(s) && JoinAnd(e1, e2, s).Some?
    ensures Value(a, JoinAnd(e1, e2, s).value) == Apply(And, Value(a, e1), Value(a, e2))
  {
    assert TextOf(a, s) == TriName(TriOf(a, s));
    if e1.Equal? && e2.Unequal? { ConstantTexts(a, e1.right, e2.right); }
    if e1.Unequal? && e2.Equal? { ConstantTexts(a, e2.right, e1.right); }
  }

  /** Distinct constants have distinct texts. */
  lemma ConstantTexts(a: Assignment, s: Symbol, t: Symbol)
    ensures s.IsConstant() && t.IsConstant() && s != t ==> TextOf(a, s) != TextOf(a, t)
  {
  }

  /** The joined expression has the value of the two operands together. */
  lemma JoinValue(a: Assignment, op: Op, e1: Expr, e2: Expr)
    requires Join(op, e1, e2).Some?
    ensures Value(a, Join(op, e1, e2).value) == Apply(op, Value(a, e1), Value(a, e2))
  {
    ExprEqSound(a, e1, e2);
    if !ExprEq(e1, e2) {
      if op == Or {
        JoinOrValue(a, e1, e2, Common(e1, e2).value);
      } else {
        JoinAndValue(a, e1, e2, Common(e1, e2).value);
      }
    }
  }

  // ----- expr_extract_eq -----

  datatype Extracted = Extracted(common: Option<Expr>, left: Expr, right: Expr)

  function Collect(op: Op, common: Option<Expr>, e: Expr): Option<Expr>
  {
    Some(if common.None? then e else Two(op, common.value, e))
  }

  /** `expr_extract_eq`. */
  function Extract(op: Op, common: Option<Expr>, e1: Expr, e2: Expr): (r: Extracted)
    ensures Size(r.left) <= Size(e1) && Size(r.right) <= Size(e2)
    decreases Size(e1) + Size(e2)
  {
    if IsOp(op, e1) then
      var first := Extract(op, common, e1.l, e2);
      var second := Extract(op, first.common, e1.r, first.right);
      Extracted(second.common, Two(op, first.left, second.left), second.right)
    else if IsOp(op, e2) then
      var first := Extract(op, common, e1, e2.l);
      var second := Extract(op, first.common, first.left, e2.r);
      Extracted(second.common, second.left, Two(op, first.right, second.right))
    else if ExprEq(e1, e2) then Extracted(Collect(op, common, e1), Unit(op), Unit(op))
    else Extracted(common, e1, e2)
  }

  /** `expr_extract_eq_and` and `expr_extract_eq_or`. */
  function ExtractEq(op: Op, e1: Expr, e2: Expr): Extracted
  {
    var r := Extract(op, None, e1, e2);
    if r.common.None? then r else r.(left := EliminateYn(r.left), right := EliminateYn(r.right))
  }

  function CommonValue(a: Assignment, op: Op, common: Option<Expr>): Tri
  {
    if common.None? then Value(a, Unit(op)) else Value(a, common.value)
  }

  lemma {:induction false} ExtractSound(a: Assignment, op: Op, common: Option<Expr>, e1: Expr, e2: Expr) returns (c: Tri)
    ensures var r := Extract(op, common, e1, e2);
      && Value(a, e1) == Apply(op, Value(a, r.left), c) && Value(a, e2) == Apply(op, Value(a, r.right), c)
      && CommonValue(a, op, r.common) == Apply(op, CommonValue(a, op, common), c)
    decreases Size(e1) + Size(e2), 1
  {
    c := Value(a, Unit(op));
    var v := CommonValue(a, op, common);
    if IsOp(op, e1) {
      c := ExtractLeft(a, op, common, e1, e2);
    } else if IsOp(op, e2) {
      var first := Extract(op, common, e1, e2.l);
      var second := Extract(op, first.common, first.left, e2.r);
      var c1 := ExtractSound(a, op, common, e1, e2.l);
      var c2 := ExtractSound(a, op, first.common, first.left, e2.r);
      Regroup(op, Value(a, first.right), Value(a, second.right), Value(a, second.left), c1, c2);
      Regroup(op, v, v, v, c2, c1);
      c := Apply(op, c1, c2);
    } else if ExprEq(e1, e2) {
      ExprEqSound(a, e1, e2);
      c := Value(a, e1);
    }
  }

  lemma {:induction false} ExtractLeft(a: Assignment, op: Op, common: Option<Expr>, e1: Expr, e2: Expr) returns (c: Tri)
    requires IsOp(op, e1)
    ensures var r := Extract(op, common, e1, e2);
      && Value(a, e1) == Apply(op, Value(a, r.left), c) && Value(a, e2) == Apply(op, Value(a, r.right), c)
      && CommonValue(a, op, r.common) == Apply(op, CommonValue(a, op, common), c)
    decreases Size(e1) + Size(e2), 0
  {
    var v := CommonValue(a, op, common);
    var first := Extract(op, common, e1.l, e2);
    var second := Extract(op, first.common, e1.r, first.right);
    var c1 := ExtractSound(a, op, common, e1.l, e2);
    var c2 := ExtractSound(a, op, first.common, e1.r, first.right);
    Regroup(op, Value(a, first.left), Value(a, second.left), Value(a, second.right), c1, c2);
    Regroup(op, v, v, v, c2, c1);
    c := Apply(op, c1, c2);
  }

  /** Both expressions are what they have in common together with what is left of them. */
  lemma ExtractEqSound(a: Assignment, op: Op, e1: Expr, e2: Expr)
    ensures var r := ExtractEq(op, e1, e2);
      var c := CommonValue(a, op, r.common);
      Value(a, e1) == Apply(op, Value(a, r.left), c) && Value(a, e2) == Apply(op, Value(a, r.right), c)
  {
    var c := ExtractSound(a, op, None, e1, e2);
    var r := Extract(op, None, e1, e2);
    EliminateYnValue(a, r.left);
    EliminateYnValue(a, r.right);
  }
}
