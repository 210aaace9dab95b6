/** Negation normal form and the rewriting of comparisons. */
module KconfigTransform {
  import opened Options
  import opened KconfigExpr

  // ----- expr_transform -----

  function Dual(op: Op): Op { if op == And then Or else And }

  /** A measure that De Morgan's laws decrease although they add nodes: a negation doubles. */
  function Weight(e: Expr): nat
  {
    match e
    case Sym(_) => 1
    case Not(x) => 2 * Weight(x)
    case Equal(_, _) => 2
    case Unequal(_, _) => 2
    case Two(_, x, y) => 1 + Weight(x) + Weight(y)
  }

  /** Comparisons of booleans with the built-in symbols. */
  function Compare(equal: bool, s: Symbol, t: Symbol): (r: Expr)
    ensures Weight(r) <= 2
  {
    var e := if equal then Equal(s, t) else Unequal(s, t);
    if s.Type() != Boolean then e
    else if t == No then (if equal then Not(Sym(s)) else Sym(s))
    else if t == Mod then (if equal then Sym(No) else Sym(Yes))
    else if t == Yes then (if equal then Sym(s) else Not(Sym(s)))
    else e
  }

  /** `expr_transform`. */
  function Transform(e: Expr): (r: Expr)
    ensures Weight(r) <= Weight(e)
    decreases Weight(e)
  {
    match e
    case Sym(_) => e
    case Equal(s, t) => Compare(true, s, t)
    case Unequal(s, t) => Compare(false, s, t)
    case Two(op, x, y) => Two(op, Transform(x), Transform(y))
    case Not(x) =>
      assert Weight(x) > 0 by { Heavy(x); }
      var c := Transform(x);
      match c
      case Not(d) => assert Weight(d) > 0 by { Heavy(d); } Transform(d)
      case Equal(s, t) => Unequal(s, t)
      case Unequal(s, t) => Equal(s, t)
      case Two(op, p, q) => Lighter(op, p, q); Transform(Two(Dual(op), Not(p), Not(q)))
      case Sym(s) => if s == Yes then Sym(No) else if s == Mod then Sym(Mod) else if s == No then Sym(Yes) else Not(c)
  }

  /** De Morgan's laws make an expression lighter. */
  lemma Lighter(op: Op, p: Expr, q: Expr)
    ensures Weight(Two(Dual(op), Not(p), Not(q))) < Weight(Not(Two(op, p, q))) == 2 * Weight(Two(op, p, q))
  {
    assert Weight(Not(p)) == 2 * Weight(p) && Weight(Not(q)) == 2 * Weight(q);
  }

  lemma Heavy(e: Expr)
    ensures Weight(e) > 0
  {
  }

  /** The rewritten expression has the value of the original under every assignment. */
  lemma {:induction false} TransformValue(a: Assignment, e: Expr)
    ensures Value(a, Transform(e)) == Value(a, e)
    decreases Weight(e)
  {
    match e
    case Sym(_) =>
    case Equal(_, _) =>
    case Unequal(_, _) =>
    case Two(op, x, y) =>
      TransformValue(a, x);
      TransformValue(a, y);
    case Not(x) =>
      Heavy(x);
      TransformValue(a, x);
      var c := Transform(x);
      if c.Not? {
        Heavy(c.e);
        TransformValue(a, c.e);
      } else if c.Two? {
        Lighter(c.op, c.l, c.r);
        TransformValue(a, Two(Dual(c.op), Not(c.l), Not(c.r)));
      }
  }

  /** Negation stands only before symbols that are not built in, and no boolean is compared with a
      built-in symbol. */
  predicate Normal(e: Expr)
  {
    match e
    case Sym(_) => true
    case Not(x) => x.Sym? && x.sym !in {Yes, Mod, No}
    case Equal(s, t) => !(s.Type() == Boolean && t in {Yes, Mod, No})
    case Unequal(s, t) => !(s.Type() == Boolean && t in {Yes, Mod, No})
    case Two(_, x, y) => Normal(x) && Normal(y)
  }

  lemma {:induction false} TransformNormal(e: Expr)
    ensures Normal(Transform(e))
    decreases Weight(e)
  {
    match e
    case Sym(_) =>
    case Equal(_, _) =>
    case Unequal(_, _) =>
    case Two(op, x, y) =>
      TransformNormal(x);
      TransformNormal(y);
    case Not(x) =>
      Heavy(x);
      TransformNormal(x);
      var c := Transform(x);
      if c.Not? {
        Heavy(c.e);
        TransformNormal(c.e);
      } else if c.Two? {
        Lighter(c.op, c.l, c.r);
        TransformNormal(Two(Dual(c.op), Not(c.l), Not(c.r)));
      }
  }

  /** Normal expressions stay as they are, so that a second pass changes nothing. */
  lemma {:induction false} NormalFixed(e: Expr)
    requires Normal(e)
    ensures Transform(e) == e
  {
    if e.Two? {
      NormalFixed(e.l);
      NormalFixed(e.r);
    }
  }

  lemma TransformTwice(e: Expr)
    ensures Transform(Transform(e)) == Transform(e)
  {
    TransformNormal(e);
    NormalFixed(Transform(e));
  }

  /** The normal form of `e`, or of its negation, in one pass. */
  function NormalForm(e: Expr, negated: bool): Expr
  {
    match e
    case Sym(s) =>
      if !negated || s == Mod then e else if s == Yes then Sym(No) else if s == No then Sym(Yes) else Not(e)
    case Not(x) => NormalForm(x, !negated)
    case Equal(s, t) => Compare(!negated, s, t)
    case Unequal(s, t) => Compare(negated, s, t)
    case Two(op, x, y) => Two(if negated then Dual(op) else op, NormalForm(x, negated), NormalForm(y, negated))
  }

  lemma {:induction false} NormalFormAgain(e: Expr, negated: bool, again: bool)
    ensures NormalForm(NormalForm(e, negated), again) == NormalForm(e, negated != again)
  {
    match e
    case Not(x) => NormalFormAgain(x, !negated, again);
    case Two(_, x, y) =>
      NormalFormAgain(x, negated, again);
      NormalFormAgain(y, negated, again);
    case _ =>
  }

  /** That is what the rewriting comes to, however often it enters again. */
  lemma {:induction false} TransformOnce(e: Expr)
    ensures Transform(e) == NormalForm(e, false)
    decreases Weight(e)
  {
    match e
    case Two(_, x, y) =>
      TransformOnce(x);
      TransformOnce(y);
    case Not(x) =>
      Heavy(x);
      TransformOnce(x);
      TransformNormal(x);
      NormalFormAgain(x, false, true);
      var c := Transform(x);
      if c.Two? {
        Lighter(c.op, c.l, c.r);
        TransformOnce(Two(Dual(c.op), Not(c.l), Not(c.r)));
      }
    case _ =>
  }

  // ----- expr_trans_bool -----

  /** `expr_trans_bool`: FOO!=n becomes FOO. */
  function TransBool(e: Expr): Expr
  {
    match e
    case Two(op, x, y) => Two(op, TransBool(x), TransBool(y))
    case Not(x) => Not(TransBool(x))
    case Unequal(s, t) => if s.Type() == Tristate && t == No then Sym(s) else e
    case _ => e
  }

  /** m counts as y. */
  function Promote(v: Tri): Tri { if v == 1 then 2 else v }

  /** The rewriting makes m of the value: m comes from a rewritten comparison whose symbol is m, goes
      through negations, and gets past an operator unless another operand decides. */
  predicate Blurred(a: Assignment, e: Expr)
  {
    match e
    case Two(op, x, y) =>
      var zero := Value(a, Zero(op));
      if Value(a, e) == 1 then false
      else if Value(a, e) == zero then
        (Value(a, x) == zero ==> Blurred(a, x)) && (Value(a, y) == zero ==> Blurred(a, y))
      else Blurred(a, x) || Blurred(a, y)
    case Not(x) => Blurred(a, x)
    case Unequal(s, t) => s.Type() == Tristate && t == No && TriOf(a, s) == 1
    case _ => false
  }

  /** The value of the rewritten expression, which is the old one unless that is blurred. */
  lemma {:induction false} TransBoolBlurs(a: Assignment, e: Expr)
    ensures Value(a, TransBool(e)) == if Blurred(a, e) then 1 else Value(a, e)
    ensures Blurred(a, e) ==> Value(a, e) != 1
  {
    match e
    case Two(_, x, y) =>
      TransBoolBlurs(a, x);
      TransBoolBlurs(a, y);
    case Not(x) => TransBoolBlurs(a, x);
    case Unequal(s, t) => assert s.Type() == Tristate ==> TextOf(a, s) == TriName(TriOf(a, s));
    case _ =>
  }

  /** With m promoted to y, the rewriting keeps the value of every expression but of those that are n
      and blurred. */
  lemma TransBoolRight(a: Assignment, e: Expr)
    ensures Promote(Value(a, TransBool(e))) == Promote(Value(a, e)) <==> !(Value(a, e) == 0 && Blurred(a, e))
  {
    TransBoolBlurs(a, e);
  }

  /** In negation normal form nothing that is n is blurred. */
  lemma {:induction false} NormalNotBlurred(a: Assignment, e: Expr)
    requires Normal(e)
    ensures !(Value(a, e) == 0 && Blurred(a, e))
  {
    match e
    case Two(_, x, y) =>
      NormalNotBlurred(a, x);
      NormalNotBlurred(a, y);
    case Unequal(s, t) => assert s.Type() == Tristate ==> TextOf(a, s) == TriName(TriOf(a, s));
    case _ =>
  }

  /** So there the rewriting is right under every assignment. */
  lemma TransBoolValue(a: Assignment, e: Expr)
    requires Normal(e)
    ensures Promote(Value(a, TransBool(e))) == Promote(Value(a, e))
  {
    NormalNotBlurred(a, e);
    TransBoolRight(a, e);
  }

  /** !(FOO!=n) is right exactly when FOO is not m; !!(FOO!=n) always is. */
  lemma TransBoolNot(a: Assignment, foo: Name)
    ensures var e := Not(Unequal(Config(foo, Tristate), No));
      && (Promote(Value(a, TransBool(e))) == Promote(Value(a, e)) <==> a.tri(foo) != 1)
      && Promote(Value(a, TransBool(Not(e)))) == Promote(Value(a, Not(e)))
  {
    var x := Unequal(Config(foo, Tristate), No);
    assert TriName(0) == "n" && TriName(1) == "m" && TriName(2) == "y";
    assert Blurred(a, x) <==> a.tri(foo) == 1;
    TransBoolRight(a, Not(x));
    TransBoolRight(a, Not(Not(x)));
    assert Blurred(a, Not(Not(x))) == Blurred(a, Not(x)) == Blurred(a, x);
    assert Value(a, Not(Not(x))) == 2 - Value(a, Not(x)) == Value(a, x);
  }

  // ----- expr_trans_compare -----

  /** `expr_trans_compare` on an expression: `e`=`s` or, if not `equal`, `e`!=`s`. */
  function TransCompare(e: Expr, equal: bool, s: Symbol): (r: Option<Expr>)
    ensures s in {Yes, Mod, No} ==> r.Some?
  {
    match e
    case Two(op, x, y) =>
      var x', y' := TransCompare(x, true, s), TransCompare(y, true, s);
      var z := if s == Yes then Two(op, x'.value, y'.value)
               else if s == No then Two(Dual(op), x'.value, y'.value) else e;
      Some(if equal then z else Not(z))
    case Not(x) => TransCompare(x, !equal, s)
    case Sym(t) => Some(if equal then Equal(t, s) else Unequal(t, s))
    case _ =>
      if s == Mod then Some(Sym(if equal then No else Yes))
      else if s == Yes then Some(if equal then e else Not(e))
      else if s == No then Some(if equal then Not(e) else e)
      else None
  }

  /** Bare symbols are tristate, boolean or built in. */
  predicate BareOk(e: Expr)
  {
    match e
    case Two(_, x, y) => BareOk(x) && BareOk(y)
    case Not(x) => BareOk(x)
    case Sym(t) => t in {Yes, Mod, No} || t.Type() in {Boolean, Tristate}
    case _ => true
  }

  function Truth(b: bool): Tri { if b then 2 else 0 }

  /** What the rewritten expression says, is so. */
  predicate Right(a: Assignment, e: Expr, equal: bool, s: Symbol)
    requires s in {Yes, No}
  {
    Value(a, TransCompare(e, equal, s).value) == Truth((Value(a, e) == TriOf(a, s)) == equal)
  }

  /** The definite value that is not that of `s`. */
  function Other(s: Symbol): Tri { if s == Yes then 0 else 2 }

  /** The value with every bare symbol read as `s` or as the other definite value, by its text; so a
      symbol that is m is read as the other. */
  function ReadAs(a: Assignment, e: Expr, s: Symbol): Tri
  {
    match e
    case Sym(t) => if TextOf(a, t) == TextOf(a, s) then TriOf(a, s) else Other(s)
    case Not(x) => 2 - ReadAs(a, x, s)
    case Two(op, x, y) => Apply(op, ReadAs(a, x, s), ReadAs(a, y, s))
    case _ => Value(a, e)
  }

  /** That is the value which the rewritten expression compares with `s`. */
  lemma {:induction false} TransCompareReads(a: Assignment, e: Expr, equal: bool, s: Symbol)
    requires s in {Yes, No}
    ensures ReadAs(a, e, s) != 1
    ensures Value(a, TransCompare(e, equal, s).value) == Truth((ReadAs(a, e, s) == TriOf(a, s)) == equal)
  {
    match e
    case Two(op, x, y) =>
      TransCompareReads(a, x, true, s);
      TransCompareReads(a, y, true, s);
    case Not(x) => TransCompareReads(a, x, !equal, s);
    case _ =>
  }

  /** So the rewriting is right if and only if reading m so makes no difference to the comparison. */
  lemma TransCompareExact(a: Assignment, e: Expr, equal: bool, s: Symbol)
    requires s in {Yes, No}
    ensures Right(a, e, equal, s) <==> (Value(a, e) == TriOf(a, s) <==> ReadAs(a, e, s) == TriOf(a, s))
  {
    TransCompareReads(a, e, equal, s);
  }

  lemma TextIsValue(a: Assignment, t: Symbol)
    requires t in {Yes, Mod, No} || t.Type() in {Boolean, Tristate}
    ensures TextOf(a, t) == TriName(TriOf(a, t))
    ensures TriName(0) == "n" && TriName(1) == "m" && TriName(2) == "y"
  {
  }

  predicate NotFree(e: Expr)
  {
    match e
    case Two(_, x, y) => NotFree(x) && NotFree(y)
    case Not(_) => false
    case _ => true
  }

  /** Without negations, reading m as the other value makes no difference. */
  lemma {:induction false} NotFreeReads(a: Assignment, e: Expr, s: Symbol)
    requires s in {Yes, No} && BareOk(e) && NotFree(e)
    ensures Value(a, e) == TriOf(a, s) <==> ReadAs(a, e, s) == TriOf(a, s)
  {
    TransCompareReads(a, e, true, s);
    match e
    case Two(_, x, y) =>
      NotFreeReads(a, x, s);
      NotFreeReads(a, y, s);
      TransCompareReads(a, x, true, s);
      TransCompareReads(a, y, true, s);
    case Sym(t) => TextIsValue(a, t);
    case _ =>
  }

  lemma NotFreeRight(a: Assignment, e: Expr, equal: bool, s: Symbol)
    requires s in {Yes, No} && BareOk(e) && NotFree(e)
    ensures Right(a, e, equal, s)
  {
    NotFreeReads(a, e, s);
    TransCompareExact(a, e, equal, s);
  }

  /** The built-in m does not occur as an operand. */
  predicate ModFree(e: Expr)
  {
    match e
    case Two(_, x, y) => ModFree(x) && ModFree(y)
    case Not(x) => ModFree(x)
    case Sym(t) => t != Mod
    case _ => true
  }

  /** Under an assignment without m nothing is m. */
  lemma {:induction false} DefiniteAssignment(a: Assignment, e: Expr)
    requires ModFree(e) && forall name: Name :: a.tri(name) != 1
    ensures Value(a, e) != 1
  {
    match e
    case Two(_, x, y) =>
      DefiniteAssignment(a, x);
      DefiniteAssignment(a, y);
    case Not(x) => DefiniteAssignment(a, x);
    case _ =>
  }

  lemma {:induction false} DefiniteReads(a: Assignment, e: Expr, s: Symbol)
    requires s in {Yes, No} && BareOk(e) && ModFree(e) && forall name: Name :: a.tri(name) != 1
    ensures ReadAs(a, e, s) == Value(a, e)
  {
    match e
    case Two(_, x, y) =>
      DefiniteReads(a, x, s);
      DefiniteReads(a, y, s);
    case Not(x) => DefiniteReads(a, x, s);
    case Sym(t) =>
      TextIsValue(a, t);
      DefiniteAssignment(a, e);
    case _ =>
  }

  lemma DefiniteRight(a: Assignment, e: Expr, equal: bool, s: Symbol)
    requires s in {Yes, No} && BareOk(e) && ModFree(e) && forall name: Name :: a.tri(name) != 1
    ensures Right(a, e, equal, s)
  {
    DefiniteReads(a, e, s);
    TransCompareExact(a, e, equal, s);
  }

  /** For FOO=m the rewriting is wrong at !FOO and right at !!FOO. */
  lemma TransComparePair(a: Assignment, foo: Name, equal: bool, s: Symbol)
    requires s in {Yes, No} && a.tri(foo) == 1
    ensures var x := Sym(Config(foo, Tristate)); Right(a, Not(Not(x)), equal, s) && !Right(a, Not(x), equal, s)
  {
    var x := Sym(Config(foo, Tristate));
    TextIsValue(a, x.sym);
    TransCompareExact(a, Not(x), equal, s);
    TransCompareExact(a, Not(Not(x)), equal, s);
    assert ReadAs(a, Not(Not(x)), s) == 2 - ReadAs(a, Not(x), s) == Other(s);
    assert Value(a, Not(Not(x))) == 2 - Value(a, Not(x)) == 1;
  }

  /** At !(!FOO && BAR) it is right for FOO=m and BAR=y, although the negated expression is m. */
  lemma TransCompareInner(a: Assignment, foo: Name, bar: Name, equal: bool)
    requires a.tri(foo) == 1 && a.tri(bar) == 2
    ensures var x := Two(And, Not(Sym(Config(foo, Tristate))), Sym(Config(bar, Tristate)));
      Value(a, x) == 1 && Right(a, Not(x), equal, Yes)
  {
    var n, y := Not(Sym(Config(foo, Tristate))), Sym(Config(bar, Tristate));
    var x := Two(And, n, y);
    TextIsValue(a, n.e.sym);
    TextIsValue(a, y.sym);
    assert Value(a, n) == 1 && Value(a, y) == 2 && ReadAs(a, n, Yes) == 2 && ReadAs(a, y, Yes) == 2;
    assert Value(a, x) == 1 && ReadAs(a, x, Yes) == 2;
    TransCompareExact(a, Not(x), equal, Yes);
  }
}
