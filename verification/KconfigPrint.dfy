/** Printing expressions with few parentheses, and reading them back. */
module KconfigPrint {
  import opened Options
  import opened KconfigExpr

  /** `Quoted` is a string in quotes, `Keyword` the word if or on. */
  datatype Token = Word(s: string) | Quoted(s: string) | Keyword(s: string) | Open | Close | Bang | AndAnd | OrOr | Eq | Neq

  // ----- expr_print -----

  /** The token before: none, or the operator that the printed expression belongs to. */
  datatype Before = Nothing | InOr | InAnd | InNot

  /** `expr_compare_type(prevtoken, e->type) > 0`. */
  predicate Parenthesised(before: Before, e: Expr)
  {
    e.Two? && (before == InNot || (before == InAnd && e.op == Or))
  }

  function NameOf(s: Symbol): string
  {
    match s
    case Yes => "y"
    case Mod => "m"
    case No => "n"
    case Const(name) => name
    case Config(name, _) => name
  }

  function OpToken(op: Op): Token { if op == And then AndAnd else OrOr }
  function Inside(op: Op): Before { if op == And then InAnd else InOr }

  /** The expression without parentheses around it. */
  function Body(e: Expr): seq<Token>
    decreases e, 0
  {
    match e
    case Sym(s) => [Word(NameOf(s))]
    case Not(x) => [Bang] + Print(x, InNot)
    case Equal(s, t) => [Word(NameOf(s)), Eq, Word(NameOf(t))]
    case Unequal(s, t) => [Word(NameOf(s)), Neq, Word(NameOf(t))]
    case Two(op, x, y) => Print(x, Inside(op)) + [OpToken(op)] + Print(y, Inside(op))
  }

  /** `expr_print`. */
  function Print(e: Expr, before: Before): seq<Token>
    decreases e, 1
  {
    if Parenthesised(before, e) then [Open] + Body(e) + [Close] else Body(e)
  }

  // ----- the grammar: || below && below !, both operators to the left -----

  /** The types of the configuration symbols, by name. */
  type Table = Name -> SymbolType

  /** `sym_lookup` of a name that is not quoted. */
  function Lookup(t: Table, s: string): Symbol
  {
    if s == "y" then Yes else if s == "m" then Mod else if s == "n" then No else Config(s, t(s))
  }

  /** The nonterminal `symbol`: a name, or a constant if it is quoted. */
  predicate Names(w: Token) { w.Word? || w.Quoted? }

  function SymbolOf(t: Table, w: Token): Symbol
    requires Names(w)
  {
    if w.Word? || w.s in {"y", "m", "n"} then Lookup(t, w.s) else Const(w.s)
  }

  /** An expression and the tokens behind it, or a syntax error. */
  datatype Parsed = Error | Parsed(e: Expr, rest: seq<Token>)

  function ParseNot(t: Table, s: seq<Token>): (r: Parsed)
    ensures r.Parsed? ==> |r.rest| < |s|
    decreases |s|, 0
  {
    if s == [] then Error
    else if s[0] == Bang then
      var x := ParseNot(t, s[1..]);
      if x.Error? then Error else Parsed(Not(x.e), x.rest)
    else if s[0] == Open then
      var x := ParseOr(t, s[1..]);
      if x.Parsed? && x.rest != [] && x.rest[0] == Close then Parsed(x.e, x.rest[1..]) else Error
    else if Names(s[0]) then
      if |s| >= 2 && (s[1] == Eq || s[1] == Neq) then
        if |s| >= 3 && Names(s[2]) then
          var left, right := SymbolOf(t, s[0]), SymbolOf(t, s[2]);
          Parsed(if s[1] == Eq then Equal(left, right) else Unequal(left, right), s[3..])
        else Error
      else Parsed(Sym(SymbolOf(t, s[0])), s[1..])
    else Error
  }

  function ParseAnd(t: Table, s: seq<Token>): (r: Parsed)
    ensures r.Parsed? ==> |r.rest| < |s|
    decreases |s|, 1
  {
    var x := ParseNot(t, s);
    if x.Error? then Error else AndTail(t, x.e, x.rest)
  }

  function AndTail(t: Table, acc: Expr, s: seq<Token>): (r: Parsed)
    ensures r.Parsed? ==> |r.rest| <= |s|
    decreases |s|, 0
  {
    if s == [] || s[0] != AndAnd then Parsed(acc, s)
    else
      var x := ParseNot(t, s[1..]);
      if x.Error? then Error else AndTail(t, Two(And, acc, x.e), x.rest)
  }

  function ParseOr(t: Table, s: seq<Token>): (r: Parsed)
    ensures r.Parsed? ==> |r.rest| < |s|
    decreases |s|, 2
  {
    var x := ParseAnd(t, s);
    if x.Error? then Error else OrTail(t, x.e, x.rest)
  }

  function OrTail(t: Table, acc: Expr, s: seq<Token>): (r: Parsed)
    ensures r.Parsed? ==> |r.rest| <= |s|
    decreases |s|, 0
  {
    if s == [] || s[0] != OrOr then Parsed(acc, s)
    else
      var x := ParseAnd(t, s[1..]);
      if x.Error? then Error else OrTail(t, Two(Or, acc, x.e), x.rest)
  }

  /** The whole of `s` as an expression. */
  function Parse(t: Table, s: seq<Token>): Option<Expr>
  {
    var r := ParseOr(t, s);
    if r.Parsed? && r.rest == [] then Some(r.e) else None
  }

  // ----- what reading back gives: the same operands, grouped to the left -----

  function LeftGrouped(e: Expr): Expr
    decreases e, 0
  {
    match e
    case Not(x) => Not(LeftGrouped(x))
    case Two(op, x, y) => Graft(op, LeftGrouped(x), y)
    case _ => e
  }

  function Graft(op: Op, acc: Expr, e: Expr): Expr
    decreases e, 1
  {
    if IsOp(op, e) then Graft(op, Graft(op, acc, e.l), e.r) else Two(op, acc, LeftGrouped(e))
  }

  lemma {:induction false} LeftGroupedValue(a: Assignment, e: Expr)
    ensures Value(a, LeftGrouped(e)) == Value(a, e)
    decreases e, 0
  {
    match e
    case Not(x) => LeftGroupedValue(a, x);
    case Two(op, x, y) =>
      LeftGroupedValue(a, x);
      GraftValue(a, op, LeftGrouped(x), y);
    case _ =>
  }

  lemma {:induction false} GraftValue(a: Assignment, op: Op, acc: Expr, e: Expr)
    ensures Value(a, Graft(op, acc, e)) == Apply(op, Value(a, acc), Value(a, e))
    decreases e, 1
  {
    if IsOp(op, e) {
      GraftValue(a, op, acc, e.l);
      GraftValue(a, op, Graft(op, acc, e.l), e.r);
    } else {
      LeftGroupedValue(a, e);
    }
  }

  // ----- round trip -----

  predicate Known(t: Table, s: Symbol)
  {
    match s
    case Const(_) => false
    case Config(name, kind) => t(name) == kind
    case _ => true
  }

  /** The symbols are those of the table, and none is a quoted constant. */
  predicate AllKnown(t: Table, e: Expr)
  {
    match e
    case Sym(s) => Known(t, s)
    case Not(x) => AllKnown(t, x)
    case Equal(x, y) => Known(t, x) && Known(t, y)
    case Unequal(x, y) => Known(t, x) && Known(t, y)
    case Two(_, x, y) => AllKnown(t, x) && AllKnown(t, y)
  }

  lemma LookupName(t: Table, s: Symbol)
    requires Known(t, s)
    ensures Lookup(t, NameOf(s)) == s
  {
  }

  predicate Starts(k: seq<Token>, tokens: set<Token>) { k != [] && k[0] in tokens }

  lemma ReadAtom(t: Table, e: Expr, k: seq<Token>)
    requires AllKnown(t, e) && !e.Two? && !e.Not? && !Starts(k, {Eq, Neq})
    ensures ParseNot(t, Body(e) + k) == Parsed(e, k)
  {
    var s := Body(e) + k;
    if e.Sym? {
      LookupName(t, e.sym);
      assert s[1..] == k;
    } else {
      LookupName(t, e.left);
      LookupName(t, e.right);
      assert s[0] == Word(NameOf(e.left)) && s[2] == Word(NameOf(e.right)) && s[3..] == k;
    }
  }

  lemma ReadBang(t: Table, u: seq<Token>, e: Expr, k: seq<Token>)
    requires ParseNot(t, u + k) == Parsed(e, k)
    ensures ParseNot(t, [Bang] + u + k) == Parsed(Not(e), k)
  {
    assert ([Bang] + u + k)[1..] == u + k;
  }

  lemma ReadParentheses(t: Table, u: seq<Token>, e: Expr, k: seq<Token>)
    requires ParseOr(t, u + ([Close] + k)) == Parsed(e, [Close] + k)
    ensures ParseNot(t, [Open] + u + [Close] + k) == Parsed(e, k)
  {
    var s := [Open] + u + [Close] + k;
    assert s[1..] == u + ([Close] + k);
    assert ([Close] + k)[1..] == k;
  }

  lemma Regrouped<T>(a: seq<T>, b: seq<T>, c: seq<T>, d: seq<T>, k: seq<T>)
    ensures a + (b + c + d) + k == a + b + (c + d + k)
    ensures b + c + d + k == b + (c + d + k)
  {
  }

  /** What is printed as an operand of ! or && is read back by the innermost rule. */
  lemma {:induction false} ReadOperand(t: Table, e: Expr, before: Before, k: seq<Token>)
    requires AllKnown(t, e) && !Starts(k, {Eq, Neq}) && (e.Two? ==> Parenthesised(before, e))
    ensures ParseNot(t, Print(e, before) + k) == Parsed(LeftGrouped(e), k)
    decreases e, if e.Two? then 5 else 1
  {
    if e.Two? {
      ReadOr(t, e, [Close] + k);
      ReadParentheses(t, Body(e), LeftGrouped(e), k);
    } else if e.Not? {
      ReadOperand(t, e.e, InNot, k);
      ReadBang(t, Print(e.e, InNot), LeftGrouped(e.e), k);
    } else {
      ReadAtom(t, e, k);
    }
  }

  lemma {:induction false} ReadAnd(t: Table, e: Expr, k: seq<Token>)
    requires AllKnown(t, e) && !Starts(k, {Eq, Neq})
    ensures ParseAnd(t, Print(e, InAnd) + k) == AndTail(t, LeftGrouped(e), k)
    decreases e, if IsOp(Or, e) then 6 else 2
  {
    if IsOp(And, e) {
      var k' := [AndAnd] + Print(e.r, InAnd) + k;
      Regrouped([], Print(e.l, InAnd), [AndAnd], Print(e.r, InAnd), k);
      ReadAnd(t, e.l, k');
      ReadAndTail(t, LeftGrouped(e.l), e.r, k);
    } else {
      ReadOperand(t, e, InAnd, k);
    }
  }

  lemma {:induction false} ReadAndTail(t: Table, acc: Expr, e: Expr, k: seq<Token>)
    requires AllKnown(t, e) && !Starts(k, {Eq, Neq})
    ensures AndTail(t, acc, [AndAnd] + Print(e, InAnd) + k) == AndTail(t, Graft(And, acc, e), k)
    decreases e, 8
  {
    var s := [AndAnd] + Print(e, InAnd) + k;
    if IsOp(And, e) {
      var k' := [AndAnd] + Print(e.r, InAnd) + k;
      Regrouped([AndAnd], Print(e.l, InAnd), [AndAnd], Print(e.r, InAnd), k);
      ReadAndTail(t, acc, e.l, k');
      ReadAndTail(t, Graft(And, acc, e.l), e.r, k);
    } else {
      assert s[1..] == Print(e, InAnd) + k;
      ReadOperand(t, e, InAnd, k);
    }
  }

  /** An operand of || is read back by the rule for &&. */
  lemma {:induction false} ReadOrOperand(t: Table, e: Expr, k: seq<Token>)
    requires AllKnown(t, e) && !IsOp(Or, e) && !Starts(k, {Eq, Neq, AndAnd})
    ensures ParseAnd(t, Print(e, InOr) + k) == Parsed(LeftGrouped(e), k)
    decreases e, 3
  {
    assert Print(e, InOr) == Print(e, InAnd);
    ReadAnd(t, e, k);
  }

  lemma {:induction false} ReadOr(t: Table, e: Expr, k: seq<Token>)
    requires AllKnown(t, e) && !Starts(k, {Eq, Neq, AndAnd})
    ensures ParseOr(t, Body(e) + k) == OrTail(t, LeftGrouped(e), k)
    decreases e, 4
  {
    if IsOp(Or, e) {
      var k' := [OrOr] + Print(e.r, InOr) + k;
      Regrouped([], Print(e.l, InOr), [OrOr], Print(e.r, InOr), k);
      assert Print(e.l, InOr) == Body(e.l);
      ReadOr(t, e.l, k');
      ReadOrTail(t, LeftGrouped(e.l), e.r, k);
    } else {
      assert Print(e, InOr) == Body(e);
      ReadOrOperand(t, e, k);
    }
  }

  lemma {:induction false} ReadOrTail(t: Table, acc: Expr, e: Expr, k: seq<Token>)
    requires AllKnown(t, e) && !Starts(k, {Eq, Neq, AndAnd})
    ensures OrTail(t, acc, [OrOr] + Print(e, InOr) + k) == OrTail(t, Graft(Or, acc, e), k)
    decreases e, 8
  {
    var s := [OrOr] + Print(e, InOr) + k;
    if IsOp(Or, e) {
      var k' := [OrOr] + Print(e.r, InOr) + k;
      Regrouped([OrOr], Print(e.l, InOr), [OrOr], Print(e.r, InOr), k);
      ReadOrTail(t, acc, e.l, k');
      ReadOrTail(t, Graft(Or, acc, e.l), e.r, k);
    } else {
      assert s[1..] == Print(e, InOr) + k;
      ReadOrOperand(t, e, k);
    }
  }

  /** Reading back a printed expression gives one of equal value under every assignment, the same
      but for the grouping of operands of the same operator. */
  lemma PrintedThenRead(t: Table, e: Expr, a: Assignment)
    requires AllKnown(t, e)
    ensures Parse(t, Print(e, Nothing)) == Some(LeftGrouped(e)) && Value(a, LeftGrouped(e)) == Value(a, e)
  {
    ReadOr(t, e, []);
    assert Body(e) + [] == Body(e);
    LeftGroupedValue(a, e);
  }

  // ----- any symbols -----

  /** Every symbol replaced by the one its bare name stands for. */
  function Reread(t: Table, e: Expr): Expr
  {
    match e
    case Sym(s) => Sym(Lookup(t, NameOf(s)))
    case Not(x) => Not(Reread(t, x))
    case Equal(x, y) => Equal(Lookup(t, NameOf(x)), Lookup(t, NameOf(y)))
    case Unequal(x, y) => Unequal(Lookup(t, NameOf(x)), Lookup(t, NameOf(y)))
    case Two(op, x, y) => Two(op, Reread(t, x), Reread(t, y))
  }

  lemma {:induction false} RereadPrints(t: Table, e: Expr, before: Before)
    ensures Print(Reread(t, e), before) == Print(e, before) && Body(Reread(t, e)) == Body(e)
  {
    match e
    case Not(x) => RereadPrints(t, x, InNot);
    case Two(op, x, y) =>
      RereadPrints(t, x, Inside(op));
      RereadPrints(t, y, Inside(op));
    case _ =>
  }

  lemma {:induction false} RereadKnown(t: Table, e: Expr)
    ensures AllKnown(t, Reread(t, e)) && (Reread(t, e) == e <==> AllKnown(t, e))
  {
    match e
    case Not(x) => RereadKnown(t, x);
    case Two(op, x, y) =>
      RereadKnown(t, x);
      RereadKnown(t, y);
    case _ =>
  }

  lemma {:induction false} LeftGroupedReread(t: Table, e: Expr)
    ensures LeftGrouped(Reread(t, e)) == Reread(t, LeftGrouped(e))
    ensures AllKnown(t, LeftGrouped(e)) <==> AllKnown(t, e)
    decreases e, 0
  {
    match e
    case Not(x) => LeftGroupedReread(t, x);
    case Two(op, x, y) =>
      LeftGroupedReread(t, x);
      GraftReread(t, op, LeftGrouped(x), y);
    case _ =>
  }

  lemma {:induction false} GraftReread(t: Table, op: Op, acc: Expr, e: Expr)
    ensures Graft(op, Reread(t, acc), Reread(t, e)) == Reread(t, Graft(op, acc, e))
    ensures AllKnown(t, Graft(op, acc, e)) <==> AllKnown(t, acc) && AllKnown(t, e)
    decreases e, 1
  {
    if IsOp(op, e) {
      GraftReread(t, op, acc, e.l);
      GraftReread(t, op, Graft(op, acc, e.l), e.r);
    } else {
      LeftGroupedReread(t, e);
    }
  }

  /** Of the tokens: constants are no longer told from names, so the original comes back, up to
      grouping, if and only if its symbols are those that their bare names stand for. */
  lemma TokensBack(t: Table, e: Expr)
    ensures Parse(t, Print(e, Nothing)) == Some(LeftGrouped(Reread(t, e)))
    ensures Parse(t, Print(e, Nothing)) == Some(LeftGrouped(e)) <==> AllKnown(t, e)
  {
    RereadPrints(t, e, Nothing);
    RereadKnown(t, e);
    PrintedThenRead(t, Reread(t, e), Assignment(_ => 0, _ => ""));
    LeftGroupedReread(t, e);
    RereadKnown(t, LeftGrouped(e));
  }

  // ----- any symbols: values -----

  predicate SameKind(k: SymbolType, l: SymbolType) { k == l || (k in {Int, Hex, String} && l in {Int, Hex, String}) }

  /** The bare name stands for a symbol that means the same: a constant's name must not be declared. */
  predicate SameMeaning(t: Table, s: Symbol)
  {
    match s
    case Const(name) => t(name) == Unknown
    case Config(name, kind) => SameKind(t(name), kind)
    case _ => true
  }

  lemma SameMeaningHere(t: Table, s: Symbol, a: Assignment)
    requires SameMeaning(t, s)
    ensures TriOf(a, Lookup(t, NameOf(s))) == TriOf(a, s) && TextOf(a, Lookup(t, NameOf(s))) == TextOf(a, s)
  {
  }

  /** That is exact: only then is there no assignment that tells the two apart. */
  lemma SameMeaningExact(t: Table, s: Symbol)
    ensures SameMeaning(t, s) <==>
      forall a: Assignment ::
        TriOf(a, Lookup(t, NameOf(s))) == TriOf(a, s) && TextOf(a, Lookup(t, NameOf(s))) == TextOf(a, s)
  {
    if SameMeaning(t, s) {
      forall a: Assignment
        ensures TriOf(a, Lookup(t, NameOf(s))) == TriOf(a, s) && TextOf(a, Lookup(t, NameOf(s))) == TextOf(a, s)
      {
        SameMeaningHere(t, s, a);
      }
    } else {
      var text := s.name + "x";
      var a := Assignment(_ => 1, _ => text);
      assert |text| == |s.name| + 1 && text[|s.name|] == 'x';
      assert TextOf(a, Lookup(t, NameOf(s))) != TextOf(a, s);
    }
  }

  predicate AllSameMeaning(t: Table, e: Expr)
  {
    match e
    case Sym(s) => SameMeaning(t, s)
    case Not(x) => AllSameMeaning(t, x)
    case Equal(x, y) => SameMeaning(t, x) && SameMeaning(t, y)
    case Unequal(x, y) => SameMeaning(t, x) && SameMeaning(t, y)
    case Two(_, x, y) => AllSameMeaning(t, x) && AllSameMeaning(t, y)
  }

  lemma {:induction false} RereadValue(t: Table, e: Expr, a: Assignment)
    requires AllSameMeaning(t, e)
    ensures Value(a, Reread(t, e)) == Value(a, e)
  {
    match e
    case Sym(s) => SameMeaningHere(t, s, a);
    case Not(x) => RereadValue(t, x, a);
    case Two(_, x, y) =>
      RereadValue(t, x, a);
      RereadValue(t, y, a);
    case _ =>
      SameMeaningHere(t, e.left, a);
      SameMeaningHere(t, e.right, a);
  }

  /** Reading back the tokens of a printed expression gives one of equal value under every assignment,
      also with constants whose names are not declared. */
  lemma TokensValue(t: Table, e: Expr, a: Assignment)
    requires AllSameMeaning(t, e)
    ensures var r := Parse(t, Print(e, Nothing)); r.Some? && Value(a, r.value) == Value(a, e)
  {
    TokensBack(t, e);
    LeftGroupedValue(a, Reread(t, e));
    RereadValue(t, e, a);
  }
}
