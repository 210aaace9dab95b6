/** The characters of printed expressions, and the lexer that reads them back. */
module KconfigText {
  import opened Options
  import opened KconfigExpr
  import opened KconfigPrint

  // ----- what expr_print writes -----

  function OpText(op: Op): string { if op == And then " && " else " || " }

  function BodyText(e: Expr): string
    decreases e, 0
  {
    match e
    case Sym(s) => NameOf(s)
    case Not(x) => "!" + Text(x, InNot)
    case Equal(s, t) => NameOf(s) + "=" + NameOf(t)
    case Unequal(s, t) => NameOf(s) + "!=" + NameOf(t)
    case Two(op, x, y) => Text(x, Inside(op)) + OpText(op) + Text(y, Inside(op))
  }

  function Text(e: Expr, before: Before): string
    decreases e, 1
  {
    if Parenthesised(before, e) then "(" + BodyText(e) + ")" else BodyText(e)
  }

  function Spelled(t: Token): string
  {
    match t
    case Word(s) => s
    case Quoted(s) => "\"" + s + "\""
    case Keyword(s) => s
    case Open => "("
    case Close => ")"
    case Bang => "!"
    case AndAnd => " && "
    case OrOr => " || "
    case Eq => "="
    case Neq => "!="
  }

  function Spelling(ts: seq<Token>): string { if ts == [] then "" else Spelled(ts[0]) + Spelling(ts[1..]) }

  lemma {:induction false} SpellingSum(s: seq<Token>, k: seq<Token>)
    ensures Spelling(s + k) == Spelling(s) + Spelling(k)
  {
    if s == [] {
      assert s + k == k;
    } else {
      assert (s + k)[1..] == s[1..] + k;
      SpellingSum(s[1..], k);
    }
  }

  lemma SpellingOne(t: Token)
    ensures Spelling([t]) == Spelled(t)
  {
    assert [t][1..] == [];
    assert Spelling([]) == "";
  }

  /** The text is the tokens one after the other, with blanks around && and || only. */
  lemma {:induction false} TextSpelled(e: Expr, before: Before)
    ensures Text(e, before) == Spelling(Print(e, before))
    decreases e, 1
  {
    BodySpelled(e);
    SpellingOne(Open);
    SpellingOne(Close);
    SpellingSum([Open], Body(e));
    SpellingSum([Open] + Body(e), [Close]);
  }

  lemma {:induction false} BodySpelled(e: Expr)
    ensures BodyText(e) == Spelling(Body(e))
    decreases e, 0
  {
    match e
    case Sym(s) => SpellingOne(Word(NameOf(s)));
    case Not(x) =>
      TextSpelled(x, InNot);
      SpellingAround([], Bang, Print(x, InNot));
      assert [] + [Bang] + Print(x, InNot) == Body(e);
    case Equal(s, t) => SpellingThree(Word(NameOf(s)), Eq, Word(NameOf(t)));
    case Unequal(s, t) => SpellingThree(Word(NameOf(s)), Neq, Word(NameOf(t)));
    case Two(op, x, y) =>
      TextSpelled(x, Inside(op));
      TextSpelled(y, Inside(op));
      SpellingAround(Print(x, Inside(op)), OpToken(op), Print(y, Inside(op)));
  }

  lemma SpellingAround(s: seq<Token>, t: Token, k: seq<Token>)
    ensures Spelling(s + [t] + k) == Spelling(s) + Spelled(t) + Spelling(k)
  {
    SpellingOne(t);
    SpellingSum(s, [t]);
    SpellingSum(s + [t], k);
  }

  lemma SpellingThree(t: Token, u: Token, v: Token)
    ensures Spelling([t, u, v]) == Spelled(t) + Spelled(u) + Spelled(v)
  {
    SpellingOne(t);
    SpellingOne(v);
    assert [t, u, v] == [t] + [u] + [v];
    SpellingAround([t], u, [v]);
  }

  // ----- the lexer, behind the first word of a line -----

  predicate WordChar(c: char)
  {
    'a' <= c <= 'z' || 'A' <= c <= 'Z' || '0' <= c <= '9' || c in {'_', '-', '/', '.'}
  }

  /** The length of the longest word that `s` starts with. */
  function WordLength(s: string): (n: nat)
    ensures n <= |s| && (forall i | 0 <= i < n :: WordChar(s[i])) && (n < |s| ==> !WordChar(s[n]))
  {
    if s != [] && WordChar(s[0]) then 1 + WordLength(s[1..]) else 0
  }

  /** Three dashes are ignored. */
  function WordTokens(w: string): seq<Token>
  {
    if w == "---" then [] else if w in {"if", "on"} then [Keyword(w)] else [Word(w)]
  }

  function OneToken(c: char): seq<Token>
  {
    if c == '(' then [Open] else if c == ')' then [Close] else if c == '!' then [Bang] else if c == '=' then [Eq] else []
  }

  /** The tokens up to the end of the line; other characters are ignored. */
  function Lex(s: string): seq<Token>
    decreases |s|, 1
  {
    if s == [] || s[0] == '\n' || s[0] == '#' then []
    else if WordChar(s[0]) then
      var n := WordLength(s);
      WordTokens(s[..n]) + Lex(s[n..])
    else if s[0] == '"' || s[0] == '\'' then LexString(s[1..], s[0], "", false)
    else if |s| >= 2 && s[..2] == "&&" then [AndAnd] + Lex(s[2..])
    else if |s| >= 2 && s[..2] == "||" then [OrOr] + Lex(s[2..])
    else if |s| >= 2 && s[..2] == "!=" then [Neq] + Lex(s[2..])
    else if |s| >= 2 && s[..2] == "\\\n" then Lex(s[2..])
    else OneToken(s[0]) + Lex(s[1..])
  }

  /** Inside a string; `plain` tells whether the last character was no quote. The end of a line ends
      the string too. */
  function LexString(s: string, quote: char, text: string, plain: bool): seq<Token>
    decreases |s|, 0
  {
    if s == [] then []
    else if s[0] == '\n' then (if plain then [Quoted(text)] else [])
    else if s[0] == quote then [Quoted(text)] + Lex(s[1..])
    else if s[0] == '"' || s[0] == '\'' then LexString(s[1..], quote, text + [s[0]], false)
    else if s[0] != '\\' then LexString(s[1..], quote, text + [s[0]], true)
    else if |s| == 1 then []
    else if s[1] == '\n' then [Quoted(text)]
    else LexString(s[2..], quote, text + [s[1]], true)
  }

  // ----- which names are read as one word -----

  predicate IsWord(s: string)
  {
    s != "" && (forall i | 0 <= i < |s| :: WordChar(s[i])) && s !in {"if", "on", "---"}
  }

  predicate AllWords(e: Expr)
  {
    match e
    case Sym(s) => IsWord(NameOf(s))
    case Not(x) => AllWords(x)
    case Equal(s, t) => IsWord(NameOf(s)) && IsWord(NameOf(t))
    case Unequal(s, t) => IsWord(NameOf(s)) && IsWord(NameOf(t))
    case Two(_, x, y) => AllWords(x) && AllWords(y)
  }

  /** Every word that the lexer finds is one. */
  lemma {:induction false} LexedWords(s: string, w: string)
    requires Word(w) in Lex(s)
    ensures IsWord(w)
    decreases |s|, 1
  {
    if WordChar(s[0]) {
      var n := WordLength(s);
      if Word(w) in Lex(s[n..]) { LexedWords(s[n..], w); }
    } else if s[0] == '"' || s[0] == '\'' {
      LexedStringWords(s[1..], s[0], "", false, w);
    } else if |s| >= 2 && s[..2] in {"&&", "||", "!=", "\\\n"} {
      LexedWords(s[2..], w);
    } else {
      LexedWords(s[1..], w);
    }
  }

  lemma {:induction false} LexedStringWords(s: string, quote: char, text: string, plain: bool, w: string)
    requires Word(w) in LexString(s, quote, text, plain)
    ensures IsWord(w)
    decreases |s|, 0
  {
    if s[0] == quote {
      LexedWords(s[1..], w);
    } else if s[0] == '"' || s[0] == '\'' {
      LexedStringWords(s[1..], quote, text + [s[0]], false, w);
    } else if s[0] != '\\' {
      LexedStringWords(s[1..], quote, text + [s[0]], true, w);
    } else {
      LexedStringWords(s[2..], quote, text + [s[1]], true, w);
    }
  }

  // ----- printed text is lexed into the printed tokens -----

  /** What follows does not prolong a word. */
  predicate Breaks(k: string) { k == [] || !WordChar(k[0]) }

  lemma {:induction false} WordLengthOf(w: string, k: string)
    requires Breaks(k) && forall i | 0 <= i < |w| :: WordChar(w[i])
    ensures WordLength(w + k) == |w|
  {
    if w == [] {
      assert w + k == k;
    } else {
      assert (w + k)[1..] == w[1..] + k;
      WordLengthOf(w[1..], k);
    }
  }

  lemma LexWord(w: string, k: string)
    requires IsWord(w) && Breaks(k)
    ensures Lex(w + k) == [Word(w)] + Lex(k)
  {
    WordLengthOf(w, k);
    assert (w + k)[0] == w[0] && (w + k)[..|w|] == w && (w + k)[|w|..] == k;
  }

  /** A single character that is a token or ignored. */
  lemma LexOne(c: char, k: string)
    requires c in {'(', ')', '=', ' '} || (c == '!' && (k == [] || k[0] != '='))
    ensures Lex([c] + k) == OneToken(c) + Lex(k)
  {
    var s := [c] + k;
    assert s[1..] == k;
    assert |s| >= 2 ==> s[..2] == [c, k[0]];
  }

  lemma LexTwo(u: string, k: string)
    requires u in {"&&", "||", "!="}
    ensures Lex(u + k) == [if u == "&&" then AndAnd else if u == "||" then OrOr else Neq] + Lex(k)
  {
    assert (u + k)[..2] == u && (u + k)[2..] == k && (u + k)[0] == u[0];
  }

  lemma LexOp(op: Op, k: string)
    ensures Lex(OpText(op) + k) == [OpToken(op)] + Lex(k)
  {
    var u := if op == And then "&&" else "||";
    assert OpText(op) + k == [' '] + (u + ([' '] + k));
    LexOne(' ', u + ([' '] + k));
    LexTwo(u, [' '] + k);
    LexOne(' ', k);
  }

  /** No text starts with an equals sign, so that a negation before it is not taken for !=. */
  lemma {:induction false} TextStarts(e: Expr, before: Before, k: string)
    requires AllWords(e)
    ensures Text(e, before) != "" && (Text(e, before) + k)[0] != '='
    decreases e
  {
    match e
    case Two(op, x, y) =>
      TextStarts(x, Inside(op), OpText(op) + Text(y, Inside(op)));
      assert BodyText(e) == Text(x, Inside(op)) + (OpText(op) + Text(y, Inside(op)));
    case _ =>
  }

  lemma Nested<T>(l: seq<T>, m: seq<T>, r: seq<T>, k: seq<T>)
    ensures l + m + r + k == l + (m + (r + k))
  {
  }

  lemma LexCompared(s: string, equal: bool, t: string, k: string)
    requires IsWord(s) && IsWord(t) && Breaks(k)
    ensures var op := if equal then "=" else "!=";
      Lex(s + op + t + k) == [Word(s), if equal then Eq else Neq, Word(t)] + Lex(k)
  {
    var op, u := if equal then "=" else "!=", t + k;
    Nested(s, op, t, k);
    LexWord(t, k);
    LexComparison(equal, u);
    assert Breaks(op + u);
    LexWord(s, op + u);
    InARow(Word(s), if equal then Eq else Neq, Word(t), Lex(k));
  }

  lemma InARow(t: Token, u: Token, v: Token, k: seq<Token>)
    ensures [t] + ([u] + ([v] + k)) == [t, u, v] + k
  {
  }

  lemma LexComparison(equal: bool, u: string)
    ensures var op := if equal then "=" else "!="; Lex(op + u) == [if equal then Eq else Neq] + Lex(u)
  {
    if equal {
      LexOne('=', u);
    } else {
      LexTwo("!=", u);
    }
  }

  lemma {:induction false} LexBody(e: Expr, k: string)
    requires AllWords(e) && Breaks(k)
    ensures Lex(BodyText(e) + k) == Body(e) + Lex(k)
    decreases e, 0
  {
    match e
    case Sym(s) => LexWord(NameOf(s), k);
    case Equal(s, t) => LexCompared(NameOf(s), true, NameOf(t), k);
    case Unequal(s, t) => LexCompared(NameOf(s), false, NameOf(t), k);
    case Not(x) =>
      TextStarts(x, InNot, k);
      LexText(x, InNot, k);
      LexNegated(Text(x, InNot), Print(x, InNot), k);
    case Two(op, x, y) =>
      var l, r := Text(x, Inside(op)), Text(y, Inside(op));
      LexText(x, Inside(op), OpText(op) + (r + k));
      LexText(y, Inside(op), k);
      LexJoined(op, l, Print(x, Inside(op)), r, Print(y, Inside(op)), k);
  }

  lemma LexNegated(u: string, p: seq<Token>, k: string)
    requires Lex(u + k) == p + Lex(k) && u != "" && u[0] != '='
    ensures Lex("!" + u + k) == [Bang] + p + Lex(k)
  {
    assert "!" + u + k == ['!'] + (u + k);
    LexOne('!', u + k);
  }

  lemma LexJoined(op: Op, l: string, p: seq<Token>, r: string, q: seq<Token>, k: string)
    requires Lex(l + (OpText(op) + (r + k))) == p + Lex(OpText(op) + (r + k)) && Lex(r + k) == q + Lex(k)
    ensures Lex(l + OpText(op) + r + k) == p + [OpToken(op)] + q + Lex(k)
  {
    Nested(l, OpText(op), r, k);
    LexOp(op, r + k);
    Nested(p, [OpToken(op)], q, Lex(k));
  }

  lemma LexEnclosed(u: string, p: seq<Token>, k: string)
    requires Lex(u + ([')'] + k)) == p + Lex([')'] + k)
    ensures Lex("(" + u + ")" + k) == [Open] + p + [Close] + Lex(k)
  {
    assert "(" + u + ")" + k == ['('] + (u + ([')'] + k));
    LexOne('(', u + ([')'] + k));
    LexOne(')', k);
  }

  lemma {:induction false} LexText(e: Expr, before: Before, k: string)
    requires AllWords(e) && Breaks(k)
    ensures Lex(Text(e, before) + k) == Print(e, before) + Lex(k)
    decreases e, 1
  {
    if Parenthesised(before, e) {
      LexBody(e, [')'] + k);
      LexEnclosed(BodyText(e), Body(e), k);
    } else {
      LexBody(e, k);
    }
  }

  /** Every word among the tokens is one. */
  predicate GoodWords(p: seq<Token>) { forall i | 0 <= i < |p| && p[i].Word? :: IsWord(p[i].s) }

  lemma GoodParts(p: seq<Token>, q: seq<Token>, r: seq<Token>)
    requires GoodWords(p + q + r)
    ensures GoodWords(p) && GoodWords(q) && GoodWords(r)
  {
    var s := p + q + r;
    assert forall i | 0 <= i < |p| :: p[i] == s[i];
    assert forall i | 0 <= i < |q| :: q[i] == s[|p| + i];
    assert forall i | 0 <= i < |r| :: r[i] == s[|p| + |q| + i];
  }

  lemma {:induction false} PrintedWords(e: Expr, before: Before)
    requires GoodWords(Print(e, before))
    ensures AllWords(e)
    decreases e
  {
    if Parenthesised(before, e) { GoodParts([Open], Body(e), [Close]); }
    match e
    case Not(x) =>
      assert [] + [Bang] + Print(x, InNot) == Body(e);
      GoodParts([], [Bang], Print(x, InNot));
      PrintedWords(x, InNot);
    case Two(op, x, y) =>
      GoodParts(Print(x, Inside(op)), [OpToken(op)], Print(y, Inside(op)));
      PrintedWords(x, Inside(op));
      PrintedWords(y, Inside(op));
    case Sym(s) => assert Body(e)[0] == Word(NameOf(s));
    case _ => assert Body(e)[0] == Word(NameOf(e.left)) && Body(e)[2] == Word(NameOf(e.right));
  }

  /** The text of a printed expression is lexed into its tokens if and only if all names are words. */
  lemma LexedExact(e: Expr)
    ensures Lex(Text(e, Nothing)) == Print(e, Nothing) <==> AllWords(e)
  {
    if AllWords(e) {
      LexText(e, Nothing, "");
      assert Text(e, Nothing) + "" == Text(e, Nothing);
    }
    if Lex(Text(e, Nothing)) == Print(e, Nothing) {
      var p := Print(e, Nothing);
      forall i | 0 <= i < |p| && p[i].Word? ensures IsWord(p[i].s) { LexedWords(Text(e, Nothing), p[i].s); }
      PrintedWords(e, Nothing);
    }
  }

  // ----- reading back -----

  function ReadText(t: Table, s: string): Option<Expr> { Parse(t, Lex(s)) }

  /** With names that are words: the original comes back, up to grouping, if and only if its symbols
      are those that their bare names stand for. */
  lemma ReadBack(t: Table, e: Expr)
    requires AllWords(e)
    ensures ReadText(t, Text(e, Nothing)) == Some(LeftGrouped(Reread(t, e)))
    ensures ReadText(t, Text(e, Nothing)) == Some(LeftGrouped(e)) <==> AllKnown(t, e)
  {
    LexedExact(e);
    TokensBack(t, e);
  }

  /** And what comes back has equal value under every assignment, also with quoted constants, as long
      as their names are not declared. */
  lemma ReadBackValue(t: Table, e: Expr, a: Assignment)
    requires AllWords(e) && AllSameMeaning(t, e)
    ensures var r := ReadText(t, Text(e, Nothing)); r.Some? && Value(a, r.value) == Value(a, e)
  {
    LexedExact(e);
    TokensValue(t, e, a);
  }

  /** STR="FOO" with FOO a declared boolean: y becomes n. */
  lemma QuotesMatter(t: Table, str: Name, foo: Name, a: Assignment)
    requires t(str) == String && t(foo) == Boolean && a.text(str) == foo && IsWord(str) && IsWord(foo)
    ensures var e := Equal(Config(str, String), Const(foo));
      var r := ReadText(t, Text(e, Nothing));
      r.Some? && Value(a, e) == 2 && Value(a, r.value) == 0
  {
    var e := Equal(Config(str, String), Const(foo));
    ReadBack(t, e);
    LeftGroupedValue(a, Reread(t, e));
  }

  /** STR="a b", or with any other two words, is a syntax error without its quotes. */
  lemma SpacesMatter(t: Table, str: Name, u: string, v: string, c: Name)
    requires IsWord(str) && IsWord(u) && IsWord(v) && c == u + ([' '] + v)
    ensures ReadText(t, Text(Equal(Config(str, String), Const(c)), Nothing)) == None
  {
    LexTwoWords(str, u, v);
    TrailingWord(t, Word(str), Word(u), Word(v));
  }

  lemma LexTwoWords(str: string, u: string, v: string)
    requires IsWord(str) && IsWord(u) && IsWord(v)
    ensures Lex(str + "=" + (u + ([' '] + v))) == [Word(str), Eq, Word(u)] + [Word(v)]
  {
    var k := [' '] + v;
    assert str + "=" + (u + k) == str + "=" + u + k;
    LexCompared(str, true, u, k);
    assert Lex(k) == [Word(v)] by {
      LexOne(' ', v);
      LexWord(v, []);
      assert v + [] == v;
    }
  }

  lemma TrailingWord(t: Table, u: Token, v: Token, w: Token)
    requires Names(u) && Names(v) && Names(w)
    ensures Parse(t, [u, Eq, v] + [w]) == None
  {
    var s, x := [u, Eq, v] + [w], Equal(SymbolOf(t, u), SymbolOf(t, v));
    assert s[3..] == [w];
    assert ParseNot(t, s) == Parsed(x, [w]);
    assert AndTail(t, x, [w]) == Parsed(x, [w]) && OrTail(t, x, [w]) == Parsed(x, [w]);
    assert ParseAnd(t, s) == Parsed(x, [w]);
  }
}
