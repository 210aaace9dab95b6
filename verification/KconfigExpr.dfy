/** Tristate dependency expressions, their values, and when two of them count as equal. */
module KconfigExpr {

  // ----- symbols and assignments -----

  datatype SymbolType = Unknown | Boolean | Tristate | Int | Hex | String

  /** Names other than those of the three built-in symbols. */
  type Name = s: string | s != "y" && s != "m" && s != "n" witness "x"

  /** The built-in symbols, constants and configuration symbols; `sym_lookup` makes one symbol per
      name and kind. */
  datatype Symbol = Yes | Mod | No | Const(name: Name) | Config(name: Name, kind: SymbolType)
  {
    function Type(): SymbolType { if Config? then kind else Unknown }

    /** Has any of the flags `SYMBOL_YES`, `SYMBOL_MOD` and `SYMBOL_NO`; constants have them all. */
    predicate IsConstant() { !Config? }
  }

  /** n, m and y. */
  type Tri = v: int | 0 <= v <= 2

  /** What the user and the defaults make of the configuration symbols. */
  datatype Assignment = Assignment(tri: Name -> Tri, text: Name -> string)

  /** `curr.tri`: booleans are never m, and symbols of other types are n. */
  function TriOf(a: Assignment, s: Symbol): Tri
  {
    match s
    case Yes => 2
    case Mod => 1
    case No => 0
    case Const(_) => 0
    case Config(name, kind) =>
      if kind == Tristate then a.tri(name)
      else if kind == Boolean then (if a.tri(name) == 1 then 2 else a.tri(name))
      else 0
  }

  function TriName(v: Tri): string { if v == 0 then "n" else if v == 1 then "m" else "y" }

  /** `sym_get_string_value`. */
  function TextOf(a: Assignment, s: Symbol): string
  {
    match s
    case Yes => "y"
    case Mod => "m"
    case No => "n"
    case Const(name) => name
    case Config(name, kind) =>
      if kind == Boolean || kind == Tristate then TriName(TriOf(a, s))
      else if kind == Unknown then name
      else a.text(name)
  }

  // ----- expressions -----

  datatype Op = And | Or

  datatype Expr =
    | Sym(sym: Symbol)
    | Not(e: Expr)
    | Equal(left: Symbol, right: Symbol)
    | Unequal(left: Symbol, right: Symbol)
    | Two(op: Op, l: Expr, r: Expr)

  function Apply(op: Op, v: Tri, w: Tri): Tri
  {
    if op == And then (if v < w then v else w) else (if v > w then v else w)
  }

  /** `expr_calc_value`. */
  function Value(a: Assignment, e: Expr): Tri
  {
    match e
    case Sym(s) => TriOf(a, s)
    case Not(x) => 2 - Value(a, x)
    case Equal(s, t) => if TextOf(a, s) == TextOf(a, t) then 2 else 0
    case Unequal(s, t) => if TextOf(a, s) == TextOf(a, t) then 0 else 2
    case Two(op, x, y) => Apply(op, Value(a, x), Value(a, y))
  }

  /** The number of nodes. */
  function Size(e: Expr): nat
  {
    match e
    case Not(x) => 1 + Size(x)
    case Two(_, x, y) => 1 + Size(x) + Size(y)
    case _ => 1
  }

  predicate IsOp(op: Op, e: Expr) { e.Two? && e.op == op }

  /** The symbol that changes nothing, and the one that decides everything. */
  function Unit(op: Op): Expr { if op == And then Sym(Yes) else Sym(No) }
  function Zero(op: Op): Expr { if op == And then Sym(No) else Sym(Yes) }

  // ----- constants inside conjunctions and disjunctions -----

  function Simplify(op: Op, x: Expr, y: Expr): Expr
  {
    if x == Zero(op) then x
    else if x == Unit(op) then y
    else if y == Zero(op) then y
    else if y == Unit(op) then x
    else Two(op, x, y)
  }

  /** `expr_eliminate_yn`. */
  function EliminateYn(e: Expr): (r: Expr)
    ensures Size(r) <= Size(e)
  {
    if e.Two? then Simplify(e.op, EliminateYn(e.l), EliminateYn(e.r)) else e
  }

  lemma {:induction false} EliminateYnValue(a: Assignment, e: Expr)
    ensures Value(a, EliminateYn(e)) == Value(a, e)
  {
    if e.Two? {
      EliminateYnValue(a, e.l);
      EliminateYnValue(a, e.r);
    }
  }

  predicate IsYn(e: Expr) { e == Sym(Yes) || e == Sym(No) }

  /** Some operand is y or n. */
  predicate Shrinkable(e: Expr)
  {
    e.Two? && (IsYn(e.l) || IsYn(e.r) || Shrinkable(e.l) || Shrinkable(e.r))
  }

  lemma {:induction false} ShrinkableShrinks(e: Expr)
    requires Shrinkable(e)
    ensures Size(EliminateYn(e)) < Size(e)
  {
    if Shrinkable(e.l) { ShrinkableShrinks(e.l); }
    if Shrinkable(e.r) { ShrinkableShrinks(e.r); }
    SimplifySize(e.op, EliminateYn(e.l), EliminateYn(e.r));
  }

  lemma SimplifySize(op: Op, x: Expr, y: Expr)
    ensures Size(Simplify(op, x, y)) <= 1 + Size(x) + Size(y)
    ensures IsYn(x) || IsYn(y) ==> Size(Simplify(op, x, y)) < 1 + Size(x) + Size(y)
  {
  }

  /** No operand y or n is left, and without any the expression stays as it is. */
  lemma {:induction false} NoneLeft(e: Expr)
    ensures !Shrinkable(EliminateYn(e)) && (!Shrinkable(e) ==> EliminateYn(e) == e)
  {
    if e.Two? {
      NoneLeft(e.l);
      NoneLeft(e.r);
    }
  }

  // ----- equality -----

  /** `__expr_eliminate_eq`: operands of the same operator that occur on both sides are replaced by
      the symbol that changes nothing. */
  function Cancel(op: Op, e1: Expr, e2: Expr): (r: (Expr, Expr))
    ensures Size(r.0) <= Size(e1) && Size(r.1) <= Size(e2)
    ensures IsOp(op, e1) ==> IsOp(op, r.0)
    ensures IsOp(op, e2) ==> IsOp(op, r.1)
    decreases Size(e1) + Size(e2), if IsOp(op, e1) || IsOp(op, e2) then 0 else 3
  {
    if IsOp(op, e1) then
      var first := Cancel(op, e1.l, e2);
      var second := Cancel(op, e1.r, first.1);
      (Two(op, first.0, second.0), second.1)
    else if IsOp(op, e2) then
      var first := Cancel(op, e1, e2.l);
      var second := Cancel(op, first.0, e2.r);
      (second.0, Two(op, first.1, second.1))
    else if e1.Sym? && e1 == e2 && e1.sym.IsConstant() && e1.sym != Mod then (e1, e2)
    else if ExprEq(e1, e2) then (Unit(op), Unit(op))
    else (e1, e2)
  }

  /** `expr_eliminate_eq`. */
  function EliminateEq(e1: Expr, e2: Expr): (r: (Expr, Expr))
    decreases Size(e1) + Size(e2), 1
  {
    var x := if e1.Two? then Cancel(e1.op, e1, e2) else (e1, e2);
    var y := if x.1.Two? && !IsOp(x.1.op, x.0) then Cancel(x.1.op, x.0, x.1) else x;
    (EliminateYn(y.0), EliminateYn(y.1))
  }

  /** `expr_eq`. */
  predicate ExprEq(e1: Expr, e2: Expr)
    decreases Size(e1) + Size(e2), 2
  {
    match e1
    case Sym(_) => e1 == e2
    case Equal(_, _) => e1 == e2
    case Unequal(_, _) => e1 == e2
    case Not(x) => e2.Not? && ExprEq(x, e2.e)
    case Two(op, _, _) => IsOp(op, e2) && var r := EliminateEq(e1, e2); r.0.Sym? && r.0 == r.1
  }

  lemma Regroup(op: Op, x: Tri, y: Tri, z: Tri, c1: Tri, c2: Tri)
    ensures Apply(op, Apply(op, x, c1), Apply(op, y, c2)) == Apply(op, Apply(op, x, y), Apply(op, c1, c2))
    ensures Apply(op, Apply(op, z, c2), c1) == Apply(op, z, Apply(op, c1, c2))
  {
  }

  /** Cancelling takes the same operands out of both sides: `c` is their value. */
  lemma {:induction false} CancelSound(a: Assignment, op: Op, e1: Expr, e2: Expr) returns (c: Tri)
    ensures var r := Cancel(op, e1, e2);
      Value(a, e1) == Apply(op, Value(a, r.0), c) && Value(a, e2) == Apply(op, Value(a, r.1), c)
    decreases Size(e1) + Size(e2), if IsOp(op, e1) || IsOp(op, e2) then 0 else 3
  {
    c := Value(a, Unit(op));
    if IsOp(op, e1) {
      var first := Cancel(op, e1.l, e2);
      var c1 := CancelSound(a, op, e1.l, e2);
      var c2 := CancelSound(a, op, e1.r, first.1);
      var second := Cancel(op, e1.r, first.1);
      Regroup(op, Value(a, first.0), Value(a, second.0), Value(a, second.1), c1, c2);
      c := Apply(op, c1, c2);
    } else if IsOp(op, e2) {
      var first := Cancel(op, e1, e2.l);
      var c1 := CancelSound(a, op, e1, e2.l);
      var c2 := CancelSound(a, op, first.0, e2.r);
      var second := Cancel(op, first.0, e2.r);
      Regroup(op, Value(a, first.1), Value(a, second.1), Value(a, second.0), c1, c2);
      c := Apply(op, c1, c2);
    } else if !(e1.Sym? && e1 == e2 && e1.sym.IsConstant() && e1.sym != Mod) && ExprEq(e1, e2) {
      ExprEqSound(a, e1, e2);
      c := Value(a, e1);
    }
  }

  /** If what is left on both sides has the same value, so have the originals. */
  lemma {:induction false} EliminateEqSound(a: Assignment, e1: Expr, e2: Expr)
    ensures var r := EliminateEq(e1, e2); Value(a, r.0) == Value(a, r.1) ==> Value(a, e1) == Value(a, e2)
    decreases Size(e1) + Size(e2), 1
  {
    var x := if e1.Two? then Cancel(e1.op, e1, e2) else (e1, e2);
    var y := if x.1.Two? && !IsOp(x.1.op, x.0) then Cancel(x.1.op, x.0, x.1) else x;
    EliminateYnValue(a, y.0);
    EliminateYnValue(a, y.1);
    if e1.Two? { var c := CancelSound(a, e1.op, e1, e2); }
    if x.1.Two? && !IsOp(x.1.op, x.0) { var c := CancelSound(a, x.1.op, x.0, x.1); }
  }

  /** Expressions that `expr_eq` takes for equal have the same value under every assignment. */
  lemma {:induction false} ExprEqSound(a: Assignment, e1: Expr, e2: Expr)
    ensures ExprEq(e1, e2) ==> Value(a, e1) == Value(a, e2)
    decreases Size(e1) + Size(e2), 2
  {
    if e1.Not? && e2.Not? { ExprEqSound(a, e1.e, e2.e); }
    if e1.Two? && IsOp(e1.op, e2) { EliminateEqSound(a, e1, e2); }
  }
}
