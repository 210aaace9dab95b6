/** Eliminating duplicate and contradictory operands. The passes work in place on pairs of
    operands of one expression; an operand is named by the way to it from the root. */
module KconfigDups {
  import opened Options
  import opened KconfigExpr
  import opened KconfigTransform
  import opened KconfigJoin
  import opened KconfigEqual
  import opened KconfigReduced

  // ----- operands -----

  /** Steps from the root: right if true, left if false. */
  type Path = seq<bool>

  /** The path leads through nodes of the operator only. */
  predicate OnSpine(op: Op, e: Expr, p: Path)
  {
    p == [] || (IsOp(op, e) && OnSpine(op, if p[0] then e.r else e.l, p[1..]))
  }

  function At(op: Op, e: Expr, p: Path): Expr
    requires OnSpine(op, e, p)
  {
    if p == [] then e else At(op, if p[0] then e.r else e.l, p[1..])
  }

  function Put(op: Op, e: Expr, p: Path, x: Expr): Expr
    requires OnSpine(op, e, p)
  {
    if p == [] then x
    else if p[0] then Two(op, e.l, Put(op, e.r, p[1..], x))
    else Two(op, Put(op, e.l, p[1..], x), e.r)
  }

  /** How many nodes of the operator are at the top of `e`. */
  function Spine(op: Op, e: Expr): nat
  {
    if IsOp(op, e) then 1 + Spine(op, e.l) + Spine(op, e.r) else 0
  }

  /** The nodes of the operator at the top are the same. */
  predicate SameSpine(op: Op, e: Expr, f: Expr)
  {
    IsOp(op, e) == IsOp(op, f) && (IsOp(op, e) ==> SameSpine(op, e.l, f.l) && SameSpine(op, e.r, f.r))
  }

  lemma {:induction false} SpineKept(op: Op, e: Expr, f: Expr, p: Path)
    requires SameSpine(op, e, f) && OnSpine(op, e, p)
    ensures OnSpine(op, f, p) && SameSpine(op, At(op, e, p), At(op, f, p))
  {
    if p != [] { SpineKept(op, if p[0] then e.r else e.l, if p[0] then f.r else f.l, p[1..]); }
  }

  lemma {:induction false} SpineSize(op: Op, e: Expr, f: Expr)
    requires SameSpine(op, e, f)
    ensures Spine(op, e) == Spine(op, f)
  {
    if IsOp(op, e) {
      SpineSize(op, e.l, f.l);
      SpineSize(op, e.r, f.r);
    }
  }

  lemma {:induction false} SpineRefl(op: Op, e: Expr)
    ensures SameSpine(op, e, e)
  {
    if IsOp(op, e) {
      SpineRefl(op, e.l);
      SpineRefl(op, e.r);
    }
  }

  lemma {:induction false} SpineTrans(op: Op, e: Expr, f: Expr, g: Expr)
    requires SameSpine(op, e, f) && SameSpine(op, f, g)
    ensures SameSpine(op, e, g)
  {
    if IsOp(op, e) {
      SpineTrans(op, e.l, f.l, g.l);
      SpineTrans(op, e.r, f.r, g.r);
    }
  }

  lemma {:induction false} OneStep(op: Op, e: Expr, p: Path, d: bool)
    requires OnSpine(op, e, p) && IsOp(op, At(op, e, p))
    ensures OnSpine(op, e, p + [d]) && At(op, e, p + [d]) == if d then At(op, e, p).r else At(op, e, p).l
  {
    if p == [] {
      assert (p + [d])[1..] == [];
    } else {
      OneStep(op, if p[0] then e.r else e.l, p[1..], d);
      assert (p + [d])[1..] == p[1..] + [d];
    }
  }

  /** Replacing an operand keeps the spine. */
  lemma {:induction false} PutSpine(op: Op, e: Expr, p: Path, x: Expr)
    requires OnSpine(op, e, p) && !IsOp(op, At(op, e, p)) && !IsOp(op, x)
    ensures SameSpine(op, e, Put(op, e, p, x)) && OnSpine(op, Put(op, e, p, x), p) && At(op, Put(op, e, p, x), p) == x
  {
    if p != [] {
      PutSpine(op, if p[0] then e.r else e.l, p[1..], x);
      SpineRefl(op, if p[0] then e.l else e.r);
    }
  }

  /** Different operands do not get into each other's way. */
  lemma {:induction false} AtOther(op: Op, e: Expr, p: Path, q: Path, x: Expr)
    requires OnSpine(op, e, p) && OnSpine(op, e, q) && p != q
    requires !IsOp(op, At(op, e, p)) && !IsOp(op, At(op, e, q)) && !IsOp(op, x)
    ensures OnSpine(op, Put(op, e, p, x), q) && At(op, Put(op, e, p, x), q) == At(op, e, q)
  {
    if p != [] && q != [] && p[0] == q[0] {
      assert p == [p[0]] + p[1..] && q == [q[0]] + q[1..];
      AtOther(op, if p[0] then e.r else e.l, p[1..], q[1..], x);
    }
  }

  lemma {:induction false} PutSize(op: Op, e: Expr, p: Path, x: Expr)
    requires OnSpine(op, e, p)
    ensures Size(Put(op, e, p, x)) == Size(e) - Size(At(op, e, p)) + Size(x)
    ensures Size(At(op, e, p)) <= Size(e) && (p != [] ==> Size(At(op, e, p)) < Size(e))
  {
    if p != [] { PutSize(op, if p[0] then e.r else e.l, p[1..], x); }
  }

  // ----- constants that the next pass removes -----

  lemma {:induction false} PutShrinkable(op: Op, e: Expr, p: Path, x: Expr)
    requires OnSpine(op, e, p) && p != [] && (IsYn(x) || Shrinkable(x))
    ensures Shrinkable(Put(op, e, p, x))
  {
    if p[1..] != [] { PutShrinkable(op, if p[0] then e.r else e.l, p[1..], x); }
  }

  // ----- expr_eliminate_dups1 -----

  /** The expression and how often it has been rewritten. */
  datatype Pass = Pass(e: Expr, count: nat)

  ghost predicate PassOk(op: Op, e: Expr, r: Pass)
  {
    && SameSpine(op, e, r.e) && Size(r.e) <= Size(e)
    && (r.count == 0 ==> r.e == e) && (r.count > 0 ==> Shrinkable(r.e))
  }

  ghost predicate Operands(op: Op, e: Expr, p: Path, q: Path)
  {
    IsOp(op, e) && OnSpine(op, e, p) && OnSpine(op, e, q)
  }

  /** After the left operands below `p`, the right ones. */
  lemma Continues(op: Op, e: Expr, f: Expr, p: Path, q: Path)
    requires Operands(op, e, p, q) && IsOp(op, At(op, e, p)) && SameSpine(op, e, f)
    ensures Operands(op, f, p + [true], q)
    ensures Spine(op, At(op, f, p + [true])) + Spine(op, At(op, f, q)) < Spine(op, At(op, e, p)) + Spine(op, At(op, e, q))
  {
    OneStep(op, e, p, true);
    SpineKept(op, e, f, p + [true]);
    SpineKept(op, e, f, q);
    SpineSize(op, At(op, e, p + [true]), At(op, f, p + [true]));
    SpineSize(op, At(op, e, q), At(op, f, q));
  }

  /** `expr_eliminate_dups1(op, &p, &q)` inside `e`. */
  function Dups1(op: Op, e: Expr, p: Path, q: Path): (r: Pass)
    requires Operands(op, e, p, q)
    ensures PassOk(op, e, r)
    decreases Size(e), Spine(op, At(op, e, p)) + Spine(op, At(op, e, q))
  {
    SpineRefl(op, e);
    if IsOp(op, At(op, e, p)) then
      OneStep(op, e, p, false); OneStep(op, e, p, true);
      var first := Dups1(op, e, p + [false], q);
      Continues(op, e, first.e, p, q);
      var second := Dups1(op, first.e, p + [true], q);
      SpineTrans(op, e, first.e, second.e);
      Pass(second.e, first.count + second.count)
    else if IsOp(op, At(op, e, q)) then
      OneStep(op, e, q, false); OneStep(op, e, q, true);
      var first := Dups1(op, e, p, q + [false]);
      Continues(op, e, first.e, q, p);
      var second := Dups1(op, first.e, p, q + [true]);
      SpineTrans(op, e, first.e, second.e);
      Pass(second.e, first.count + second.count)
    else if p == q then Pass(e, 0)
    else
      PutSize(op, e, p, e);
      var self := if At(op, e, p).Two? then Dups1(At(op, e, p).op, At(op, e, p), [], []) else Pass(At(op, e, p), 0);
      Joined(op, e, p, q, self)
  }

  /** After the operand at `p` has been dealt with by itself, it is joined with the one at `q`. */
  function Joined(op: Op, e: Expr, p: Path, q: Path, self: Pass): (r: Pass)
    requires Operands(op, e, p, q) && p != q && !IsOp(op, At(op, e, p)) && !IsOp(op, At(op, e, q))
    requires !IsOp(op, self.e) && Size(self.e) <= Size(At(op, e, p))
    requires (self.count == 0 ==> self.e == At(op, e, p)) && (self.count > 0 ==> Shrinkable(self.e))
    ensures PassOk(op, e, r)
  {
    var f := Put(op, e, p, self.e);
    JoinedOk(op, e, p, q, self);
    match Join(op, self.e, At(op, e, q))
    case None => Pass(f, self.count)
    case Some(x) => Pass(Put(op, Put(op, f, p, Unit(op)), q, x), self.count + 1)
  }

  lemma JoinedOk(op: Op, e: Expr, p: Path, q: Path, self: Pass)
    requires Operands(op, e, p, q) && p != q && !IsOp(op, At(op, e, p)) && !IsOp(op, At(op, e, q))
    requires !IsOp(op, self.e) && Size(self.e) <= Size(At(op, e, p))
    requires (self.count == 0 ==> self.e == At(op, e, p)) && (self.count > 0 ==> Shrinkable(self.e))
    ensures var f := Put(op, e, p, self.e);
      && PassOk(op, e, Pass(f, self.count)) && OnSpine(op, f, p)
      && match Join(op, self.e, At(op, e, q))
         case None => true
         case Some(x) =>
           var g := Put(op, f, p, Unit(op));
           OnSpine(op, g, q) && PassOk(op, e, Pass(Put(op, g, q, x), self.count + 1))
  {
    var f := Put(op, e, p, self.e);
    PutSpine(op, e, p, self.e);
    PutSize(op, e, p, self.e);
    if self.count == 0 { PutAt(op, e, p); } else { PutShrinkable(op, e, p, self.e); }
    match Join(op, self.e, At(op, e, q))
    case None =>
    case Some(x) =>
      var g := Put(op, f, p, Unit(op));
      AtOther(op, e, p, q, self.e);
      AtOther(op, f, p, q, Unit(op));
      PutSpine(op, f, p, Unit(op));
      PutSize(op, f, p, Unit(op));
      PutSpine(op, g, q, x);
      PutSize(op, g, q, x);
      SpineTrans(op, e, f, g);
      SpineTrans(op, e, g, Put(op, g, q, x));
      UnitStays(op, g, q, p, x);
  }

  lemma {:induction false} PutAt(op: Op, e: Expr, p: Path)
    requires OnSpine(op, e, p)
    ensures Put(op, e, p, At(op, e, p)) == e
  {
    if p != [] { PutAt(op, if p[0] then e.r else e.l, p[1..]); }
  }

  /** An operand that is y or n stays when another operand is replaced. */
  lemma {:induction false} UnitStays(op: Op, e: Expr, q: Path, p: Path, x: Expr)
    requires Operands(op, e, p, q) && p != q && !IsOp(op, At(op, e, q)) && IsYn(At(op, e, p)) && !IsOp(op, x)
    ensures Shrinkable(Put(op, e, q, x))
  {
    AtOther(op, e, q, p, x);
    PutSpine(op, e, q, x);
    var f := Put(op, e, q, x);
    PutAt(op, f, p);
    PutShrinkable(op, f, p, At(op, f, p));
  }

  // ----- what replacing an operand does to the value -----

  /** The whole is decided by each of its operands as far as one of them can. */
  lemma {:induction false} SpineBound(a: Assignment, op: Op, e: Expr, p: Path)
    requires OnSpine(op, e, p)
    ensures Apply(op, Value(a, e), Value(a, At(op, e, p))) == Value(a, e)
  {
    if p != [] { SpineBound(a, op, if p[0] then e.r else e.l, p[1..]); }
  }

  lemma {:induction false} PutValue(a: Assignment, op: Op, e: Expr, p: Path, x: Expr)
    requires OnSpine(op, e, p)
    ensures Apply(op, Value(a, Put(op, e, p, x)), Value(a, At(op, e, p))) == Apply(op, Value(a, e), Value(a, x))
    ensures Apply(op, Value(a, Put(op, e, p, x)), Value(a, x)) == Value(a, Put(op, e, p, x))
    ensures Value(a, x) == Value(a, At(op, e, p)) ==> Value(a, Put(op, e, p, x)) == Value(a, e)
  {
    if p != [] {
      var child, other := if p[0] then e.r else e.l, if p[0] then e.l else e.r;
      PutValue(a, op, child, p[1..], x);
      BesideOther(op, Value(a, Put(op, child, p[1..], x)), Value(a, At(op, child, p[1..])), Value(a, child), Value(a, x),
                  Value(a, other));
    }
  }

  /** What holds of one operand holds of it together with another. */
  lemma BesideOther(op: Op, put: Tri, at: Tri, all: Tri, x: Tri, other: Tri)
    requires Apply(op, put, at) == Apply(op, all, x) && Apply(op, put, x) == put && (x == at ==> put == all)
    ensures var p, q := Apply(op, put, other), Apply(op, all, other);
      Apply(op, p, at) == Apply(op, q, x) && Apply(op, p, x) == p && Apply(op, other, put) == p && Apply(op, other, all) == q
  {
  }

  /** Moving the value of one operand into another changes nothing. */
  lemma {:induction false} PutTwoValue(a: Assignment, op: Op, e: Expr, p: Path, q: Path, x: Expr)
    requires OnSpine(op, e, p) && OnSpine(op, e, q) && p != q && !IsOp(op, At(op, e, p)) && !IsOp(op, At(op, e, q))
    requires Value(a, x) == Apply(op, Value(a, At(op, e, p)), Value(a, At(op, e, q)))
    requires OnSpine(op, Put(op, e, p, Unit(op)), q)
    ensures Value(a, Put(op, Put(op, e, p, Unit(op)), q, x)) == Value(a, e)
  {
    assert p != [] && q != [];
    assert p == [p[0]] + p[1..] && q == [q[0]] + q[1..];
    if p[0] == q[0] {
      var child := if p[0] then e.r else e.l;
      PutTwoValue(a, op, child, p[1..], q[1..], x);
    } else {
      var c, d := if p[0] then e.r else e.l, if q[0] then e.r else e.l;
      PutValue(a, op, c, p[1..], Unit(op));
      PutValue(a, op, d, q[1..], x);
      SpineBound(a, op, c, p[1..]);
      SpineBound(a, op, d, q[1..]);
      Shifted(op, Value(a, c), Value(a, d), Value(a, At(op, e, p)), Value(a, At(op, e, q)),
              Value(a, Put(op, c, p[1..], Unit(op))), Value(a, Put(op, d, q[1..], x)));
    }
  }

  lemma Shifted(op: Op, c: Tri, d: Tri, v: Tri, w: Tri, c': Tri, d': Tri)
    requires Apply(op, c', v) == c && Apply(op, d, w) == d
    requires Apply(op, d', w) == Apply(op, d, Apply(op, v, w)) && Apply(op, d', Apply(op, v, w)) == d'
    ensures Apply(op, c', d') == Apply(op, c, d) && Apply(op, d', c') == Apply(op, d, c)
  {
  }

  /** `expr_eliminate_dups1` preserves the value under every assignment. */
  lemma {:induction false} Dups1Value(a: Assignment, op: Op, e: Expr, p: Path, q: Path)
    requires Operands(op, e, p, q)
    ensures Value(a, Dups1(op, e, p, q).e) == Value(a, e)
    decreases Size(e), Spine(op, At(op, e, p)) + Spine(op, At(op, e, q))
  {
    if IsOp(op, At(op, e, p)) {
      OneStep(op, e, p, false);
      Dups1Value(a, op, e, p + [false], q);
      var f := Dups1(op, e, p + [false], q).e;
      Continues(op, e, f, p, q);
      Dups1Value(a, op, f, p + [true], q);
    } else if IsOp(op, At(op, e, q)) {
      OneStep(op, e, q, false);
      Dups1Value(a, op, e, p, q + [false]);
      var f := Dups1(op, e, p, q + [false]).e;
      Continues(op, e, f, q, p);
      Dups1Value(a, op, f, p, q + [true]);
    } else if p != q {
      PutSize(op, e, p, e);
      var x := At(op, e, p);
      var self := if x.Two? then Dups1(x.op, x, [], []) else Pass(x, 0);
      if x.Two? { Dups1Value(a, x.op, x, [], []); }
      JoinedValue(a, op, e, p, q, self);
    }
  }

  lemma JoinedValue(a: Assignment, op: Op, e: Expr, p: Path, q: Path, self: Pass)
    requires Operands(op, e, p, q) && p != q && !IsOp(op, At(op, e, p)) && !IsOp(op, At(op, e, q))
    requires !IsOp(op, self.e) && Size(self.e) <= Size(At(op, e, p))
    requires (self.count == 0 ==> self.e == At(op, e, p)) && (self.count > 0 ==> Shrinkable(self.e))
    requires Value(a, self.e) == Value(a, At(op, e, p))
    ensures Value(a, Joined(op, e, p, q, self).e) == Value(a, e)
  {
    var f := Put(op, e, p, self.e);
    PutValue(a, op, e, p, self.e);
    PutSpine(op, e, p, self.e);
    AtOther(op, e, p, q, self.e);
    if Join(op, self.e, At(op, e, q)).Some? {
      JoinValue(a, op, self.e, At(op, e, q));
      PutSpine(op, f, p, Unit(op));
      AtOther(op, f, p, q, Unit(op));
      PutTwoValue(a, op, f, p, q, Join(op, self.e, At(op, e, q)).value);
    }
  }

  // ----- expr_eliminate_dups2 -----

  /** `expr_eliminate_dups2(op, &p, &q)` inside `e`; an operand is also held against the nodes of
      the operator themselves, after the operands below them. */
  function Dups2(op: Op, e: Expr, p: Path, q: Path): (r: Pass)
    requires Operands(op, e, p, q)
    ensures PassOk(op, e, r)
    decreases Size(e), 1 + Spine(op, At(op, e, p)) + Spine(op, At(op, e, q))
  {
    SpineRefl(op, e);
    if IsOp(op, At(op, e, p)) then
      OneStep(op, e, p, false); OneStep(op, e, p, true);
      var first := Dups2(op, e, p + [false], q);
      Continues(op, e, first.e, p, q);
      var second := Dups2(op, first.e, p + [true], q);
      SpineTrans(op, e, first.e, second.e);
      Pass(second.e, first.count + second.count)
    else if !IsOp(op, At(op, e, q)) then
      if p == q then Pass(e, 0) else Against(op, e, p, q, Size(e))
    else
      OneStep(op, e, q, false); OneStep(op, e, q, true);
      var first := Dups2(op, e, p, q + [false]);
      Continues(op, e, first.e, q, p);
      var second := Dups2(op, first.e, p, q + [true]);
      SpineTrans(op, e, first.e, second.e);
      SpineKept(op, e, second.e, p);
      SpineKept(op, e, second.e, q);
      var third := Against(op, second.e, p, q, Size(e));
      SpineTrans(op, e, second.e, third.e);
      Pass(third.e, first.count + second.count + third.count)
  }

  /** The operand at `p`, dealt with by itself, against the expression at `q`. */
  function Against(op: Op, e: Expr, p: Path, q: Path, n: nat): (r: Pass)
    requires Operands(op, e, p, q) && p != q && !IsOp(op, At(op, e, p)) && Size(e) <= n
    ensures PassOk(op, e, r)
    decreases n, 0
  {
    SpineRefl(op, e);
    var x := At(op, e, p);
    if !x.Two? then Pass(e, 0)
    else
      PutSize(op, e, p, e);
      Refuted(op, e, p, q, Dups2(x.op, x, [], []))
  }

  /** The operand at `p` contradicts the expression at `q`: all operands of its negation occur there. */
  predicate Contradicts(op: Op, x: Expr, y: Expr)
  {
    ExtractEq(op, Transform(Not(x)), y).left == Unit(op)
  }

  function Refuted(op: Op, e: Expr, p: Path, q: Path, self: Pass): (r: Pass)
    requires Operands(op, e, p, q) && p != q && !IsOp(op, At(op, e, p))
    requires !IsOp(op, self.e) && Size(self.e) <= Size(At(op, e, p))
    requires (self.count == 0 ==> self.e == At(op, e, p)) && (self.count > 0 ==> Shrinkable(self.e))
    ensures PassOk(op, e, r)
  {
    var f := Put(op, e, p, self.e);
    RefutedOk(op, e, p, q, self);
    if Contradicts(op, self.e, At(op, f, q)) then Pass(Put(op, f, p, Zero(op)), self.count + 1)
    else Pass(f, self.count)
  }

  lemma RefutedOk(op: Op, e: Expr, p: Path, q: Path, self: Pass)
    requires Operands(op, e, p, q) && p != q && !IsOp(op, At(op, e, p))
    requires !IsOp(op, self.e) && Size(self.e) <= Size(At(op, e, p))
    requires (self.count == 0 ==> self.e == At(op, e, p)) && (self.count > 0 ==> Shrinkable(self.e))
    ensures var f := Put(op, e, p, self.e);
      && PassOk(op, e, Pass(f, self.count)) && OnSpine(op, f, p) && OnSpine(op, f, q)
      && PassOk(op, e, Pass(Put(op, f, p, Zero(op)), self.count + 1))
  {
    var f := Put(op, e, p, self.e);
    PutSpine(op, e, p, self.e);
    PutSize(op, e, p, self.e);
    if self.count == 0 { PutAt(op, e, p); } else { PutShrinkable(op, e, p, self.e); }
    SpineKept(op, e, f, q);
    PutSpine(op, f, p, Zero(op));
    PutSize(op, f, p, Zero(op));
    SpineTrans(op, e, f, Put(op, f, p, Zero(op)));
    PutShrinkable(op, f, p, Zero(op));
  }

  /** A definite value is kept; m may become anything. */
  predicate Settles(v: Tri, w: Tri) { v == 1 || w == v }

  lemma {:induction false} PutSettles(a: Assignment, op: Op, e: Expr, p: Path, x: Expr)
    requires OnSpine(op, e, p) && Settles(Value(a, At(op, e, p)), Value(a, x))
    ensures Settles(Value(a, e), Value(a, Put(op, e, p, x)))
  {
    if p != [] { PutSettles(a, op, if p[0] then e.r else e.l, p[1..], x); }
  }

  /** Replacing a contradicting operand decides the whole; so it changes the value if and only if
      that was m. */
  lemma ContradictionValue(a: Assignment, op: Op, f: Expr, p: Path, q: Path)
    requires OnSpine(op, f, p) && OnSpine(op, f, q) && Contradicts(op, At(op, f, p), At(op, f, q))
    ensures Value(a, Put(op, f, p, Zero(op))) == Value(a, Zero(op))
    ensures Value(a, Put(op, f, p, Zero(op))) == Value(a, f) <==> Value(a, f) != 1
  {
    var x, y := At(op, f, p), At(op, f, q);
    TransformValue(a, Not(x));
    ExtractEqSound(a, op, Transform(Not(x)), y);
    SpineBound(a, op, f, p);
    SpineBound(a, op, f, q);
    PutValue(a, op, f, p, Zero(op));
  }

  lemma RefutedSettles(a: Assignment, op: Op, e: Expr, p: Path, q: Path, self: Pass)
    requires Operands(op, e, p, q) && p != q && !IsOp(op, At(op, e, p))
    requires !IsOp(op, self.e) && Size(self.e) <= Size(At(op, e, p))
    requires (self.count == 0 ==> self.e == At(op, e, p)) && (self.count > 0 ==> Shrinkable(self.e))
    requires Settles(Value(a, At(op, e, p)), Value(a, self.e))
    ensures Settles(Value(a, e), Value(a, Refuted(op, e, p, q, self).e))
  {
    RefutedOk(op, e, p, q, self);
    var f := Put(op, e, p, self.e);
    PutSettles(a, op, e, p, self.e);
    PutSpine(op, e, p, self.e);
    if Contradicts(op, self.e, At(op, f, q)) { ContradictionValue(a, op, f, p, q); }
  }

  /** `expr_eliminate_dups2` keeps definite values under every assignment. */
  lemma {:induction false} Dups2Settles(a: Assignment, op: Op, e: Expr, p: Path, q: Path)
    requires Operands(op, e, p, q)
    ensures Settles(Value(a, e), Value(a, Dups2(op, e, p, q).e))
    decreases Size(e), 1 + Spine(op, At(op, e, p)) + Spine(op, At(op, e, q))
  {
    if IsOp(op, At(op, e, p)) {
      OneStep(op, e, p, false);
      Dups2Settles(a, op, e, p + [false], q);
      var f := Dups2(op, e, p + [false], q).e;
      Continues(op, e, f, p, q);
      Dups2Settles(a, op, f, p + [true], q);
    } else if IsOp(op, At(op, e, q)) {
      OneStep(op, e, q, false);
      Dups2Settles(a, op, e, p, q + [false]);
      var f := Dups2(op, e, p, q + [false]).e;
      Continues(op, e, f, q, p);
      Dups2Settles(a, op, f, p, q + [true]);
      var g := Dups2(op, f, p, q + [true]).e;
      SpineTrans(op, e, f, g);
      SpineKept(op, e, g, p);
      SpineKept(op, e, g, q);
      AgainstSettles(a, op, g, p, q, Size(e));
    } else if p != q {
      AgainstSettles(a, op, e, p, q, Size(e));
    }
  }

  lemma {:induction false} AgainstSettles(a: Assignment, op: Op, e: Expr, p: Path, q: Path, n: nat)
    requires Operands(op, e, p, q) && p != q && !IsOp(op, At(op, e, p)) && Size(e) <= n
    ensures Settles(Value(a, e), Value(a, Against(op, e, p, q, n).e))
    decreases n, 0
  {
    var x := At(op, e, p);
    if x.Two? {
      PutSize(op, e, p, e);
      Dups2Settles(a, x.op, x, [], []);
      RefutedSettles(a, op, e, p, q, Dups2(x.op, x, [], []));
    }
  }

  // ----- what the passes leave alone -----

  predicate IsOperand(op: Op, e: Expr, p: Path) { OnSpine(op, e, p) && !IsOp(op, At(op, e, p)) }

  /** On the way to an operand there are only nodes of the operator. */
  lemma {:induction false} OnTheWay(op: Op, e: Expr, p: Path, p': Path)
    requires OnSpine(op, e, p') && p <= p' && p != p'
    ensures OnSpine(op, e, p) && IsOp(op, At(op, e, p)) && p + [p'[|p|]] <= p'
    ensures OnSpine(op, e, p + [true]) && OnSpine(op, e, p + [false])
  {
    if p != [] {
      OnTheWay(op, if p[0] then e.r else e.l, p[1..], p'[1..]);
    }
    OneStep(op, e, p, true);
    OneStep(op, e, p, false);
  }

  /** If the first pass rewrites nothing, no two operands can be joined. */
  lemma {:induction false} Dups1Idle(op: Op, e: Expr, p: Path, q: Path, p': Path, q': Path)
    requires Operands(op, e, p, q) && Dups1(op, e, p, q).count == 0
    requires p <= p' && q <= q' && p' != q' && IsOperand(op, e, p') && IsOperand(op, e, q')
    ensures var x := At(op, e, p');
      Join(op, x, At(op, e, q')).None? && (x.Two? ==> Dups1(x.op, x, [], []).count == 0)
    decreases |p'| - |p| + |q'| - |q|
  {
    if p != p' {
      OnTheWay(op, e, p, p');
      assert Dups1(op, e, p + [false], q) == Pass(e, 0) == Dups1(op, e, p + [true], q);
      Dups1Idle(op, e, if p'[|p|] then p + [true] else p + [false], q, p', q');
    } else if q != q' {
      OnTheWay(op, e, q, q');
      assert Dups1(op, e, p, q + [false]) == Pass(e, 0) == Dups1(op, e, p, q + [true]);
      Dups1Idle(op, e, p, if q'[|q|] then q + [true] else q + [false], p', q');
    }
  }

  /** If the second pass rewrites nothing, no operand contradicts the whole. */
  lemma {:induction false} Dups2Idle(op: Op, e: Expr, p: Path, p': Path)
    requires Operands(op, e, p, []) && Dups2(op, e, p, []).count == 0 && p <= p' && IsOperand(op, e, p')
    ensures var x := At(op, e, p');
      x.Two? ==> Dups2(x.op, x, [], []).count == 0 && !Contradicts(op, x, e)
    decreases |p'| - |p|
  {
    if p != p' {
      OnTheWay(op, e, p, p');
      assert Dups2(op, e, p + [false], []) == Pass(e, 0) == Dups2(op, e, p + [true], []);
      Dups2Idle(op, e, if p'[|p|] then p + [true] else p + [false], p');
    } else if At(op, e, p).Two? {
      PutAt(op, e, p);
      assert Against(op, e, p, [], Size(e)).count == 0;
    }
  }

  /** The way to operand `i`, counted from the left. */
  function PathTo(op: Op, e: Expr, i: nat): (p: Path)
    requires i < |Leaves(op, e)|
    ensures IsOperand(op, e, p) && At(op, e, p) == Leaves(op, e)[i]
  {
    if !IsOp(op, e) then []
    else
      var n := |Leaves(op, e.l)|;
      if i < n then
        var p := PathTo(op, e.l, i);
        assert ([false] + p)[1..] == p;
        [false] + p
      else
        var p := PathTo(op, e.r, i - n);
        assert ([true] + p)[1..] == p;
        [true] + p
  }

  lemma {:induction false} PathsDiffer(op: Op, e: Expr, i: nat, j: nat)
    requires i < j < |Leaves(op, e)|
    ensures PathTo(op, e, i) != PathTo(op, e, j)
  {
    var n := |Leaves(op, e.l)|;
    if j < n {
      PathsDiffer(op, e.l, i, j);
      OneMore(false, PathTo(op, e.l, i), PathTo(op, e.l, j));
    } else if i >= n {
      PathsDiffer(op, e.r, i - n, j - n);
      OneMore(true, PathTo(op, e.r, i - n), PathTo(op, e.r, j - n));
    }
  }

  lemma OneMore(d: bool, p: Path, q: Path)
    requires p != q
    ensures [d] + p != [d] + q
  {
    assert ([d] + p)[1..] == p && ([d] + q)[1..] == q;
  }

  /** Neither pass rewrites anything. */
  predicate Finished(e: Expr)
  {
    e.Two? ==> Dups1(e.op, e, [], []).count == 0 && Dups2(e.op, e, [], []).count == 0
  }

  /** Then no operand is superfluous. */
  lemma {:induction false} FinishedReduced(e: Expr)
    requires Finished(e)
    ensures Reduced(e)
    decreases Size(e), 1
  {
    if e.Two? {
      var op, x := e.op, Leaves(e.op, e);
      forall i, j | 0 <= i < |x| && 0 <= j < |x| && i != j ensures !Redundant(op, x[i], x[j]) {
        if i < j { PathsDiffer(op, e, i, j); } else { PathsDiffer(op, e, j, i); }
        Dups1Idle(op, e, [], [], PathTo(op, e, i), PathTo(op, e, j));
        if Redundant(op, x[i], x[j]) { RedundantJoined(op, x[i], x[j]); }
      }
      forall i | 0 <= i < |x| && x[i].Two? ensures !Refutes(op, x[i], e) {
        Dups2Idle(op, e, [], PathTo(op, e, i));
        if Refutes(op, x[i], e) { ExtractAll(op, Transform(Not(x[i])), e); }
      }
      FinishedBelow(e, []);
    }
  }

  lemma {:induction false} FinishedBelow(e: Expr, p: Path)
    requires e.Two? && Finished(e) && OnSpine(e.op, e, p)
    ensures AllReduced(e.op, At(e.op, e, p))
    decreases Size(e), 0, Spine(e.op, At(e.op, e, p))
  {
    var op, x := e.op, At(e.op, e, p);
    if IsOp(op, x) {
      OneStep(op, e, p, false);
      OneStep(op, e, p, true);
      FinishedBelow(e, p + [false]);
      FinishedBelow(e, p + [true]);
    } else {
      var q := Elsewhere(op, e, p);
      Dups1Idle(op, e, [], [], p, q);
      Dups2Idle(op, e, [], p);
      PutSize(op, e, p, x);
      FinishedReduced(x);
    }
  }

  /** Another operand. */
  function Elsewhere(op: Op, e: Expr, p: Path): (q: Path)
    requires IsOp(op, e) && IsOperand(op, e, p)
    ensures IsOperand(op, e, q) && q != p
  {
    var n := |Leaves(op, e.l)|;
    if p[0] then PathTo(op, e, 0) else PathTo(op, e, n)
  }

  // ----- constants -----

  /** The only constants among the operands are y, m and n. */
  predicate Plain(e: Expr)
  {
    match e
    case Sym(s) => !s.Const?
    case Not(x) => ConstantFree(x)
    case Two(_, x, y) => Plain(x) && Plain(y)
    case _ => true
  }

  lemma {:induction false} FreePlain(e: Expr)
    requires ConstantFree(e)
    ensures Plain(e)
  {
    if e.Two? {
      FreePlain(e.l);
      FreePlain(e.r);
    }
  }

  /** Without operands y and n, none is left. */
  lemma {:induction false} PlainFree(e: Expr)
    requires Plain(e) && !Shrinkable(e)
    ensures ConstantFree(e) || IsYn(e)
  {
    if e.Two? {
      PlainFree(e.l);
      PlainFree(e.r);
    }
  }

  lemma {:induction false} EliminatePlain(e: Expr)
    requires Plain(e)
    ensures Plain(EliminateYn(e))
  {
    if e.Two? {
      EliminatePlain(e.l);
      EliminatePlain(e.r);
    }
  }

  lemma {:induction false} PutPlain(op: Op, e: Expr, p: Path, x: Expr)
    requires OnSpine(op, e, p) && Plain(e)
    ensures Plain(At(op, e, p)) && (Plain(x) ==> Plain(Put(op, e, p, x)))
  {
    if p != [] { PutPlain(op, if p[0] then e.r else e.l, p[1..], x); }
  }

  lemma JoinPlain(op: Op, e1: Expr, e2: Expr)
    requires Plain(e1) && Join(op, e1, e2).Some?
    ensures Plain(Join(op, e1, e2).value)
  {
  }

  /** The passes bring in no other constants. */
  lemma {:induction false} Dups1Plain(op: Op, e: Expr, p: Path, q: Path)
    requires Operands(op, e, p, q) && Plain(e)
    ensures Plain(Dups1(op, e, p, q).e)
    decreases Size(e), Spine(op, At(op, e, p)) + Spine(op, At(op, e, q))
  {
    if IsOp(op, At(op, e, p)) {
      OneStep(op, e, p, false);
      Dups1Plain(op, e, p + [false], q);
      var f := Dups1(op, e, p + [false], q).e;
      Continues(op, e, f, p, q);
      Dups1Plain(op, f, p + [true], q);
    } else if IsOp(op, At(op, e, q)) {
      OneStep(op, e, q, false);
      Dups1Plain(op, e, p, q + [false]);
      var f := Dups1(op, e, p, q + [false]).e;
      Continues(op, e, f, q, p);
      Dups1Plain(op, f, p, q + [true]);
    } else if p != q {
      PutSize(op, e, p, e);
      var x := At(op, e, p);
      PutPlain(op, e, p, x);
      var self := if x.Two? then Dups1(x.op, x, [], []) else Pass(x, 0);
      if x.Two? { Dups1Plain(x.op, x, [], []); }
      JoinedPlain(op, e, p, q, self);
    }
  }

  lemma JoinedPlain(op: Op, e: Expr, p: Path, q: Path, self: Pass)
    requires Operands(op, e, p, q) && p != q && !IsOp(op, At(op, e, p)) && !IsOp(op, At(op, e, q))
    requires !IsOp(op, self.e) && Size(self.e) <= Size(At(op, e, p)) && Plain(e) && Plain(self.e)
    requires (self.count == 0 ==> self.e == At(op, e, p)) && (self.count > 0 ==> Shrinkable(self.e))
    ensures Plain(Joined(op, e, p, q, self).e)
  {
    var f := Put(op, e, p, self.e);
    JoinedOk(op, e, p, q, self);
    PutPlain(op, e, p, self.e);
    if Join(op, self.e, At(op, e, q)).Some? {
      JoinPlain(op, self.e, At(op, e, q));
      PutPlain(op, f, p, Unit(op));
      PutPlain(op, Put(op, f, p, Unit(op)), q, Join(op, self.e, At(op, e, q)).value);
    }
  }

  lemma {:induction false} Dups2Plain(op: Op, e: Expr, p: Path, q: Path)
    requires Operands(op, e, p, q) && Plain(e)
    ensures Plain(Dups2(op, e, p, q).e)
    decreases Size(e), 1 + Spine(op, At(op, e, p)) + Spine(op, At(op, e, q))
  {
    if IsOp(op, At(op, e, p)) {
      OneStep(op, e, p, false);
      Dups2Plain(op, e, p + [false], q);
      var f := Dups2(op, e, p + [false], q).e;
      Continues(op, e, f, p, q);
      Dups2Plain(op, f, p + [true], q);
    } else if IsOp(op, At(op, e, q)) {
      OneStep(op, e, q, false);
      Dups2Plain(op, e, p, q + [false]);
      var f := Dups2(op, e, p, q + [false]).e;
      Continues(op, e, f, q, p);
      Dups2Plain(op, f, p, q + [true]);
      var g := Dups2(op, f, p, q + [true]).e;
      SpineTrans(op, e, f, g);
      SpineKept(op, e, g, p);
      SpineKept(op, e, g, q);
      AgainstPlain(op, g, p, q, Size(e));
    } else if p != q {
      AgainstPlain(op, e, p, q, Size(e));
    }
  }

  lemma {:induction false} AgainstPlain(op: Op, e: Expr, p: Path, q: Path, n: nat)
    requires Operands(op, e, p, q) && p != q && !IsOp(op, At(op, e, p)) && Size(e) <= n && Plain(e)
    ensures Plain(Against(op, e, p, q, n).e)
    decreases n, 0
  {
    var x := At(op, e, p);
    if x.Two? {
      PutSize(op, e, p, e);
      PutPlain(op, e, p, x);
      Dups2Plain(x.op, x, [], []);
      var self := Dups2(x.op, x, [], []);
      RefutedOk(op, e, p, q, self);
      PutPlain(op, e, p, self.e);
      PutPlain(op, Put(op, e, p, self.e), p, Zero(op));
    }
  }

  // ----- expr_eliminate_dups -----

  /** Definite values are kept under every assignment. */
  ghost predicate Keeps(e: Expr, f: Expr)
  {
    forall a: Assignment :: Settles(Value(a, e), Value(a, f))
  }

  /** One round of both passes. */
  function Round(e: Expr): (r: Pass)
    ensures Size(r.e) <= Size(e) && (r.count == 0 ==> r.e == e) && (r.count > 0 ==> Shrinkable(r.e))
  {
    if e.Two? then
      var first := Dups1(e.op, e, [], []);
      var second := Dups2(first.e.op, first.e, [], []);
      Pass(second.e, first.count + second.count)
    else Pass(e, 0)
  }

  lemma RoundKeeps(e: Expr)
    ensures Keeps(e, Round(e).e)
  {
    if e.Two? {
      var f := Dups1(e.op, e, [], []).e;
      forall a: Assignment ensures Settles(Value(a, e), Value(a, Round(e).e)) {
        Dups1Value(a, e.op, e, [], []);
        Dups2Settles(a, f.op, f, [], []);
      }
    }
  }

  lemma RoundFree(e: Expr)
    requires ConstantFree(e)
    ensures var r := EliminateYn(Round(e).e); ConstantFree(r) || IsYn(r)
  {
    FreePlain(e);
    if e.Two? {
      Dups1Plain(e.op, e, [], []);
      var f := Dups1(e.op, e, [], []).e;
      Dups2Plain(f.op, f, [], []);
    }
    EliminatePlain(Round(e).e);
    NoneLeft(Round(e).e);
    PlainFree(EliminateYn(Round(e).e));
  }

  /** `expr_eliminate_dups`. It ends because every round that rewrites something leaves a y or n
      behind, which `expr_eliminate_yn` removes; the result has no superfluous operand at any level. */
  method EliminateDups(e0: Expr) returns (e: Expr)
    ensures Keeps(e0, e) && Size(e) <= Size(e0) && Round(e).count == 0
    ensures Reduced(e) && (ConstantFree(e0) ==> ConstantFree(e) || IsYn(e))
  {
    e := e0;
    while true
      invariant Keeps(e0, e) && Size(e) <= Size(e0) && (ConstantFree(e0) ==> ConstantFree(e) || IsYn(e))
      decreases Size(e)
    {
      var r := Round(e);
      RoundKeeps(e);
      if r.count == 0 {
        break;
      }
      if ConstantFree(e) { RoundFree(e); }
      ShrinkableShrinks(r.e);
      KeepsOn(e0, e, r.e);
      e := EliminateYn(r.e);
    }
    FinishedReduced(e);
  }

  lemma KeepsOn(e0: Expr, e: Expr, f: Expr)
    requires Keeps(e0, e) && Keeps(e, f)
    ensures Keeps(e0, EliminateYn(f))
  {
    forall a: Assignment ensures Settles(Value(a, e0), Value(a, EliminateYn(f))) {
      assert Settles(Value(a, e0), Value(a, e)) && Settles(Value(a, e), Value(a, f));
      EliminateYnValue(a, f);
    }
  }

  /** Without m, values are preserved exactly. */
  lemma KeepsDefinite(a: Assignment, e: Expr, f: Expr)
    requires Keeps(e, f) && ModFree(e) && forall name: Name :: a.tri(name) != 1
    ensures Value(a, f) == Value(a, e)
  {
    DefiniteAssignment(a, e);
    assert Settles(Value(a, e), Value(a, f));
  }

  // ----- a case in which m is lost -----

  /** The operands are not operators themselves. */
  predicate Flat(op: Op, e: Expr)
  {
    if IsOp(op, e) then Flat(op, e.l) && Flat(op, e.r) else !e.Two?
  }

  lemma {:induction false} FlatAt(op: Op, e: Expr, p: Path)
    requires Flat(op, e) && OnSpine(op, e, p)
    ensures Flat(op, At(op, e, p))
  {
    if p != [] { FlatAt(op, if p[0] then e.r else e.l, p[1..]); }
  }

  /** The second pass finds nothing to do in a flat expression. */
  lemma {:induction false} FlatDups2(op: Op, e: Expr, p: Path, q: Path)
    requires Operands(op, e, p, q) && Flat(op, e)
    ensures Dups2(op, e, p, q) == Pass(e, 0)
    decreases Spine(op, At(op, e, p)) + Spine(op, At(op, e, q))
  {
    SpineRefl(op, e);
    FlatAt(op, e, p);
    if IsOp(op, At(op, e, p)) {
      OneStep(op, e, p, false);
      OneStep(op, e, p, true);
      FlatDups2(op, e, p + [false], q);
      FlatDups2(op, e, p + [true], q);
    } else if IsOp(op, At(op, e, q)) {
      OneStep(op, e, q, false);
      OneStep(op, e, q, true);
      FlatDups2(op, e, p, q + [false]);
      FlatDups2(op, e, p, q + [true]);
    }
  }

  /** No two operands can be joined, and each by itself is left alone by the first pass. */
  ghost predicate Idle(op: Op, e: Expr)
  {
    forall p: Path, q: Path {:trigger At(op, e, p), At(op, e, q)} |
      OnSpine(op, e, p) && OnSpine(op, e, q) && !IsOp(op, At(op, e, p)) && !IsOp(op, At(op, e, q)) && p != q ::
      var x := At(op, e, p);
      Join(op, x, At(op, e, q)) == None && (x.Two? ==> Dups1(x.op, x, [], []) == Pass(x, 0))
  }

  lemma {:induction false} IdleDups1(op: Op, e: Expr, p: Path, q: Path)
    requires Operands(op, e, p, q) && Idle(op, e)
    ensures Dups1(op, e, p, q) == Pass(e, 0)
    decreases Spine(op, At(op, e, p)) + Spine(op, At(op, e, q))
  {
    SpineRefl(op, e);
    if IsOp(op, At(op, e, p)) {
      OneStep(op, e, p, false);
      OneStep(op, e, p, true);
      IdleDups1(op, e, p + [false], q);
      IdleDups1(op, e, p + [true], q);
    } else if IsOp(op, At(op, e, q)) {
      OneStep(op, e, q, false);
      OneStep(op, e, q, true);
      IdleDups1(op, e, p, q + [false]);
      IdleDups1(op, e, p, q + [true]);
    } else if p != q {
      PutAt(op, e, p);
    }
  }

  /** `x` followed by an expression that contradicts it as a whole, but not operand by operand. */
  predicate Contrary(op: Op, x: Expr, y: Expr, z: Expr)
  {
    && x.Two? && x.op != op && Flat(x.op, x) && !y.Two? && !z.Two?
    && !Contradicts(op, x, y) && !Contradicts(op, x, z) && Contradicts(op, x, Two(op, y, z))
  }

  lemma NotRefuted(op: Op, e: Expr, p: Path, q: Path, n: nat)
    requires Operands(op, e, p, q) && p != q && !IsOp(op, At(op, e, p)) && Size(e) <= n
    requires At(op, e, p).Two? && Flat(At(op, e, p).op, At(op, e, p))
    ensures Against(op, e, p, q, n) ==
      if Contradicts(op, At(op, e, p), At(op, e, q)) then Pass(Put(op, e, p, Zero(op)), 1) else Pass(e, 0)
  {
    var x := At(op, e, p);
    FlatDups2(x.op, x, [], []);
    PutAt(op, e, p);
  }

  /** The second pass gets to the contradiction. */
  lemma ContraryFires(op: Op, x: Expr, y: Expr, z: Expr, a: Assignment)
    requires Contrary(op, x, y, z)
    ensures Value(a, Dups2(op, Two(op, x, Two(op, y, z)), [], []).e) == Value(a, Zero(op))
  {
    var e := Two(op, x, Two(op, y, z));
    var root: Path := [];
    var left, right := root + [false], root + [true];
    OneStep(op, e, root, false);
    OneStep(op, e, root, true);
    OneStep(op, e, right, false);
    OneStep(op, e, right, true);
    assert left != right && left != right + [false] && left != right + [true] && left != root;
    NotRefuted(op, e, left, right + [false], Size(e));
    NotRefuted(op, e, left, right + [true], Size(e));
    NotRefuted(op, e, left, right, Size(e));
    var f := Put(op, e, left, Zero(op));
    assert Dups2(op, e, left, left) == Pass(e, 0);
    assert Dups2(op, e, left, right + [false]) == Pass(e, 0);
    assert Dups2(op, e, left, right + [true]) == Pass(e, 0);
    assert Dups2(op, e, left, right) == Pass(f, 1);
    PutSpine(op, e, left, Zero(op));
    assert Against(op, f, left, root, Size(e)) == Pass(f, 0);
    assert Dups2(op, e, left, root).e == f;
    ContradictionValue(a, op, e, left, right);
    Continues(op, e, f, root, root);
    Dups2Settles(a, op, f, right, root);
  }

  lemma TwoOperands(op: Op, x: Expr, y: Expr, p: Path)
    requires !IsOp(op, x) && !IsOp(op, y) && OnSpine(op, Two(op, x, y), p) && !IsOp(op, At(op, Two(op, x, y), p))
    ensures (p == [false] && At(op, Two(op, x, y), p) == x) || (p == [true] && At(op, Two(op, x, y), p) == y)
  {
    assert p == [p[0]] + p[1..];
  }

  lemma ThreeOperands(op: Op, x: Expr, y: Expr, z: Expr, p: Path)
    requires !IsOp(op, x) && !IsOp(op, y) && !IsOp(op, z)
    requires var e := Two(op, x, Two(op, y, z)); OnSpine(op, e, p) && !IsOp(op, At(op, e, p))
    ensures var v := At(op, Two(op, x, Two(op, y, z)), p);
      (p == [false] && v == x) || (p == [true, false] && v == y) || (p == [true, true] && v == z)
  {
    assert p == [p[0]] + p[1..];
    if p[0] { TwoOperands(op, y, z, p[1..]); }
  }

  /** !FOO and !BAR together are all that !(FOO || BAR) needs, each alone is not; the same for && and ||
      exchanged. */
  lemma NegatedBoth(op: Op, x: Expr, y: Expr)
    requires x.Sym? && y.Sym? && x != y && x.sym.Config? && y.sym.Config?
    ensures Contrary(op, Two(Dual(op), x, y), Not(x), Not(y))
  {
    var nx, ny := Not(x), Not(y);
    var n := Two(op, nx, ny);
    NormalFixed(Two(Dual(op), x, y));
    NormalFixed(n);
    assert Transform(Not(Two(Dual(op), x, y))) == n;
    assert ShapeOf(x) == Leaf(x) && ShapeOf(y) == Leaf(y);
    assert ShapeOf(nx) == Neg(Leaf(x)) && ShapeOf(ny) == Neg(Leaf(y));
    assert Parts(op, nx) == multiset{ShapeOf(nx)} && Parts(op, ny) == multiset{ShapeOf(ny)};
    ExtractAll(op, n, nx);
    ExtractAll(op, n, ny);
    ExtractAll(op, n, n);
    assert ShapeOf(nx) in Parts(op, n) && ShapeOf(ny) in Parts(op, n);
  }

  lemma NothingToJoin(op: Op, x: Expr, y: Expr)
    requires x.Sym? && y.Sym? && x != y && x.sym.Config? && y.sym.Config?
    ensures Idle(Dual(op), Two(Dual(op), x, y)) && Idle(op, Two(op, Two(Dual(op), x, y), Two(op, Not(x), Not(y))))
  {
    var d, nx, ny, o := Dual(op), Not(x), Not(y), Two(Dual(op), x, y);
    var e := Two(op, o, Two(op, nx, ny));
    assert !ExprEq(x, y) && !ExprEq(y, x);
    forall p: Path, q: Path | IsOperand(d, o, p) && IsOperand(d, o, q) && p != q
      ensures Join(d, At(d, o, p), At(d, o, q)) == None && !At(d, o, p).Two?
    {
      TwoOperands(d, x, y, p);
      TwoOperands(d, x, y, q);
    }
    IdleDups1(d, o, [], []);
    forall p: Path, q: Path | IsOperand(op, e, p) && IsOperand(op, e, q) && p != q
      ensures var v := At(op, e, p); Join(op, v, At(op, e, q)) == None && (v.Two? ==> v == o)
    {
      ThreeOperands(op, o, nx, ny, p);
      ThreeOperands(op, o, nx, ny, q);
    }
  }

  /** (FOO || BAR) && (!FOO && !BAR) is n after one round, although it is m if FOO is m and BAR is n;
      (FOO && BAR) || (!FOO || !BAR) is y, although it is m if FOO is m and BAR is y. */
  lemma MaybeDecided(op: Op, foo: Name, bar: Name, a: Assignment)
    requires foo != bar
    ensures var x, y := Sym(Config(foo, Tristate)), Sym(Config(bar, Tristate));
      var e := Two(op, Two(Dual(op), x, y), Two(op, Not(x), Not(y)));
      && Value(a, Round(e).e) == Value(a, Zero(op))
      && (a.tri(foo) == 1 && a.tri(bar) == Value(a, Zero(op)) ==> Value(a, e) == 1)
  {
    var x, y := Sym(Config(foo, Tristate)), Sym(Config(bar, Tristate));
    var o, n := Two(Dual(op), x, y), Two(op, Not(x), Not(y));
    var e := Two(op, o, n);
    assert Value(a, x) == a.tri(foo) && Value(a, y) == a.tri(bar);
    assert Value(a, Not(x)) == 2 - a.tri(foo) && Value(a, Not(y)) == 2 - a.tri(bar);
    assert Value(a, e) == Apply(op, Value(a, o), Value(a, n));
    NothingToJoin(op, x, y);
    IdleDups1(op, e, [], []);
    NegatedBoth(op, x, y);
    ContraryFires(op, o, Not(x), Not(y), a);
  }
}
