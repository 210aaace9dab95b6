/** Printed expressions have as few parentheses as can be. */
module KconfigParens {
  import opened KconfigExpr
  import opened KconfigPrint

  // ----- operators that stand below a stronger one -----

  function One(b: bool): nat { if b then 1 else 0 }

  /** How many operators stand directly below !, and how many || directly below &&. */
  function Clashes(e: Expr): nat
  {
    match e
    case Not(x) => Clashes(x) + One(x.Two?)
    case Two(And, x, y) => Clashes(x) + One(IsOp(Or, x)) + Clashes(y) + One(IsOp(Or, y))
    case Two(Or, x, y) => Clashes(x) + Clashes(y)
    case _ => 0
  }

  function Opens(s: seq<Token>): nat { if s == [] then 0 else One(s[0] == Open) + Opens(s[1..]) }

  lemma {:induction false} OpensSum(s: seq<Token>, k: seq<Token>)
    ensures Opens(s + k) == Opens(s) + Opens(k)
  {
    if s == [] {
      assert s + k == k;
    } else {
      assert (s + k)[1..] == s[1..] + k;
      OpensSum(s[1..], k);
    }
  }

  /** One parenthesis is printed for each of them. */
  lemma {:induction false} PrintedParentheses(e: Expr, before: Before)
    ensures Opens(Print(e, before)) == Clashes(e) + One(Parenthesised(before, e))
    decreases e, 1
  {
    BodyParentheses(e);
    OpensSum([Open], Body(e));
    OpensSum([Open] + Body(e), [Close]);
  }

  lemma {:induction false} BodyParentheses(e: Expr)
    ensures Opens(Body(e)) == Clashes(e)
    decreases e, 0
  {
    match e
    case Not(x) =>
      PrintedParentheses(x, InNot);
      OpensSum([Bang], Print(x, InNot));
    case Two(op, x, y) =>
      PrintedParentheses(x, Inside(op));
      PrintedParentheses(y, Inside(op));
      OpensSum(Print(x, Inside(op)), [OpToken(op)]);
      OpensSum(Print(x, Inside(op)) + [OpToken(op)], Print(y, Inside(op)));
    case _ => OpensNone(Body(e));
  }

  lemma {:induction false} OpensNone(s: seq<Token>)
    requires forall i | 0 <= i < |s| :: s[i] != Open
    ensures Opens(s) == 0
  {
    if s != [] { OpensNone(s[1..]); }
  }

  // ----- what the grammar needs -----

  /** The innermost rule reads an operator only between parentheses. */
  lemma {:induction false} NotNeeds(t: Table, s: seq<Token>)
    ensures var r := ParseNot(t, s); r.Parsed? ==> Clashes(r.e) + One(r.e.Two?) + Opens(r.rest) <= Opens(s)
    decreases |s|, 0
  {
    var r := ParseNot(t, s);
    if r.Parsed? {
      if s[0] == Bang {
        NotNeeds(t, s[1..]);
      } else if s[0] == Open {
        OrNeeds(t, s[1..]);
      } else if r.e.Sym? {
        assert s == s[..1] + s[1..];
        OpensSum(s[..1], s[1..]);
      } else {
        assert s == s[..3] + s[3..];
        OpensSum(s[..3], s[3..]);
      }
    }
  }

  /** The rule for && reads || only between parentheses. */
  lemma {:induction false} AndNeeds(t: Table, s: seq<Token>)
    ensures var r := ParseAnd(t, s); r.Parsed? ==> Clashes(r.e) + One(IsOp(Or, r.e)) + Opens(r.rest) <= Opens(s)
    decreases |s|, 1
  {
    NotNeeds(t, s);
    var x := ParseNot(t, s);
    if x.Parsed? { AndTailNeeds(t, x.e, x.rest); }
  }

  lemma {:induction false} AndTailNeeds(t: Table, acc: Expr, s: seq<Token>)
    ensures var r := AndTail(t, acc, s);
      r.Parsed? ==> Clashes(r.e) + One(IsOp(Or, r.e)) + Opens(r.rest) <= Opens(s) + Clashes(acc) + One(IsOp(Or, acc))
    decreases |s|, 0
  {
    if s != [] && s[0] == AndAnd {
      NotNeeds(t, s[1..]);
      var x := ParseNot(t, s[1..]);
      if x.Parsed? { AndTailNeeds(t, Two(And, acc, x.e), x.rest); }
    }
  }

  lemma {:induction false} OrNeeds(t: Table, s: seq<Token>)
    ensures var r := ParseOr(t, s); r.Parsed? ==> Clashes(r.e) + Opens(r.rest) <= Opens(s)
    decreases |s|, 2
  {
    AndNeeds(t, s);
    var x := ParseAnd(t, s);
    if x.Parsed? { OrTailNeeds(t, x.e, x.rest); }
  }

  lemma {:induction false} OrTailNeeds(t: Table, acc: Expr, s: seq<Token>)
    ensures var r := OrTail(t, acc, s); r.Parsed? ==> Clashes(r.e) + Opens(r.rest) <= Opens(s) + Clashes(acc)
    decreases |s|, 0
  {
    if s != [] && s[0] == OrOr {
      AndNeeds(t, s[1..]);
      var x := ParseAnd(t, s[1..]);
      if x.Parsed? { OrTailNeeds(t, Two(Or, acc, x.e), x.rest); }
    }
  }

  // ----- no text does with fewer -----

  lemma {:induction false} GroupedClashes(e: Expr)
    ensures Clashes(LeftGrouped(e)) == Clashes(e) && LeftGrouped(e).Two? == e.Two?
    ensures e.Two? ==> LeftGrouped(e).op == e.op
    decreases e, 0
  {
    match e
    case Not(x) => GroupedClashes(x);
    case Two(op, x, y) =>
      GroupedClashes(x);
      GraftClashes(op, LeftGrouped(x), y);
    case _ =>
  }

  lemma {:induction false} GraftClashes(op: Op, acc: Expr, e: Expr)
    ensures Clashes(Graft(op, acc, e)) == Clashes(Two(op, acc, e)) && IsOp(op, Graft(op, acc, e))
    decreases e, 1
  {
    if IsOp(op, e) {
      GraftClashes(op, acc, e.l);
      GraftClashes(op, Graft(op, acc, e.l), e.r);
    } else {
      GroupedClashes(e);
    }
  }

  lemma {:induction false} RereadClashes(t: Table, e: Expr)
    ensures Clashes(Reread(t, e)) == Clashes(e) && Reread(t, e).Two? == e.Two?
    ensures e.Two? ==> Reread(t, e).op == e.op
  {
    match e
    case Not(x) => RereadClashes(t, x);
    case Two(_, x, y) =>
      RereadClashes(t, x);
      RereadClashes(t, y);
    case _ =>
  }

  /** Whatever is read as what the printed expression is read as, up to grouping, has at least as many
      parentheses. */
  lemma FewestParentheses(t: Table, e: Expr, s: seq<Token>)
    requires var r := Parse(t, s); r.Some? && LeftGrouped(r.value) == LeftGrouped(Reread(t, e))
    ensures Opens(Print(e, Nothing)) <= Opens(s)
  {
    PrintedParentheses(e, Nothing);
    OrNeeds(t, s);
    GroupedClashes(Parse(t, s).value);
    GroupedClashes(Reread(t, e));
    RereadClashes(t, e);
  }
}
