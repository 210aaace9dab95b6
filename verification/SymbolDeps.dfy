/** The search for recursive dependencies between configuration symbols. */
module SymbolDeps {
  import opened Options
  import opened KconfigExpr

  // ----- the dependency graph -----

  datatype PropType = Prompt | Comment | Menu | Default | Choice | Select | Range

  datatype Property = Property(kind: PropType, visible: Option<Expr>, value: Option<Expr>)

  /** What a symbol is declared with: the reverse dependency and the properties. */
  datatype Decl = Decl(revDep: Option<Expr>, props: seq<Property>, isChoice: bool)

  type Decls = map<Symbol, Decl>

  function Symbols(e: Expr): set<Symbol>
  {
    match e
    case Sym(s) => {s}
    case Not(x) => Symbols(x)
    case Equal(s, t) => {s, t}
    case Unequal(s, t) => {s, t}
    case Two(_, x, y) => Symbols(x) + Symbols(y)
  }

  function Mentioned(e: Option<Expr>): set<Symbol> { if e.None? then {} else Symbols(e.value) }

  /** Choices and selects do not count, and default values only of symbols that are no choices. */
  function PropSymbols(d: Decl, p: Property): set<Symbol>
  {
    if p.kind == Choice || p.kind == Select then {}
    else Mentioned(p.visible) + (if p.kind == Default && !d.isChoice then Mentioned(p.value) else {})
  }

  /** `s` depends on `t`. */
  predicate Edge(g: Decls, s: Symbol, t: Symbol)
  {
    s in g && (t in Mentioned(g[s].revDep) || exists i | 0 <= i < |g[s].props| :: t in PropSymbols(g[s], g[s].props[i]))
  }

  /** Every symbol that is mentioned has a declaration, if only an empty one. */
  ghost predicate Closed(g: Decls) { forall s, t | Edge(g, s, t) :: t in g }

  /** Each symbol depends on the next. */
  predicate Chain(g: Decls, p: seq<Symbol>) { forall i | 0 <= i < |p| - 1 :: Edge(g, p[i], p[i + 1]) }

  /** Each symbol depends on the one before it, and the last is the first. */
  predicate Backwards(g: Decls, p: seq<Symbol>) { forall i | 0 <= i < |p| - 1 :: Edge(g, p[i + 1], p[i]) }
  predicate Cycle(g: Decls, p: seq<Symbol>) { |p| >= 2 && p[0] == p[|p| - 1] && Backwards(g, p) }

  // ----- an order in which dependencies come first -----

  /** All that a symbol depends on comes before it, symbols in `X` apart. */
  ghost predicate Ordered(g: Decls, order: seq<Symbol>, X: set<Symbol>)
  {
    forall i, t | 0 <= i < |order| && Edge(g, order[i], t) :: t in order[..i] || t in X
  }

  ghost function Rank(order: seq<Symbol>, s: Symbol): (i: nat)
    requires s in order
    ensures i < |order| && order[i] == s && s !in order[..i]
  {
    if order[0] == s then 0 else
      assert order == [order[0]] + order[1..];
      var i := 1 + Rank(order[1..], s);
      assert order[..i] == [order[0]] + order[1..][..i - 1];
      i
  }

  /** On a cycle outside of `X` every symbol would come before itself. */
  lemma {:induction false} RanksAscend(g: Decls, order: seq<Symbol>, X: set<Symbol>, p: seq<Symbol>, i: nat)
    requires Ordered(g, order, X) && Backwards(g, p) && i < |p| && p[|p| - 1] in order
    requires forall k | 0 <= k < |p| :: p[k] !in X
    ensures p[i] in order && Rank(order, p[i]) <= Rank(order, p[|p| - 1])
    ensures i < |p| - 1 ==> Rank(order, p[i]) < Rank(order, p[|p| - 1])
    decreases |p| - i
  {
    if i < |p| - 1 {
      RanksAscend(g, order, X, p, i + 1);
      assert Edge(g, p[i + 1], p[i]);
      var k := Rank(order, p[i + 1]);
      assert p[i] in order[..k];
      var j :| 0 <= j < k && order[j] == p[i];
      assert Rank(order, p[i]) <= j;
    }
  }

  /** If all symbols with dependencies are in such an order or in `X`, every cycle meets `X`. */
  lemma OrderedAcyclic(g: Decls, order: seq<Symbol>, X: set<Symbol>, p: seq<Symbol>)
    requires Ordered(g, order, X) && (forall s, t | Edge(g, s, t) :: s in order || s in X) && Cycle(g, p)
    ensures exists k | 0 <= k < |p| :: p[k] in X
  {
    if forall k | 0 <= k < |p| :: p[k] !in X {
      assert Edge(g, p[|p| - 2 + 1], p[|p| - 2]);
      RanksAscend(g, order, X, p, 0);
    }
  }

  /** No symbol occurs twice, the first apart. */
  predicate Simple(p: seq<Symbol>) { forall i, j | 0 < i < j < |p| :: p[i] != p[j] }

  /** The warnings are cycles without repetitions and have no symbol in common. */
  predicate Warnings(g: Decls, lines: seq<seq<Symbol>>)
  {
    && (forall i | 0 <= i < |lines| :: Cycle(g, lines[i]) && Simple(lines[i]))
    && forall i, j, s | 0 <= i < j < |lines| && s in lines[i] :: s !in lines[j]
  }

  /** The symbols on the warnings. */
  function Named(lines: seq<seq<Symbol>>): set<Symbol> { set i, s | 0 <= i < |lines| && s in lines[i] :: s }

  lemma NamedMore(lines: seq<seq<Symbol>>, line: seq<Symbol>)
    ensures Named(lines + [line]) == Named(lines) + set s | s in line
  {
    var more := lines + [line];
    assert forall i | 0 <= i < |lines| :: more[i] == lines[i];
    assert more[|lines|] == line;
  }

  lemma WarningsMore(g: Decls, lines: seq<seq<Symbol>>, line: seq<Symbol>)
    requires Warnings(g, lines) && Cycle(g, line) && Simple(line) && forall x | x in line :: x !in Named(lines)
    ensures Warnings(g, lines + [line])
  {
  }

  /** A warning that started with `t` and leads back to `s`: symbols behind the first are no longer under
      examination, and none is in `X`. */
  predicate Trail(g: Decls, line: seq<Symbol>, t: Symbol, s: Symbol, check: set<Symbol>, checked: set<Symbol>,
                  X: set<Symbol>)
  {
    && line != [] && line[0] == t && line[|line| - 1] == s && Backwards(g, line) && Simple(line)
    && (forall i | 0 < i < |line| :: line[i] !in check) && forall x | x in line :: x in checked && x !in X
  }

  lemma TrailMore(g: Decls, line: seq<Symbol>, t: Symbol, u: Symbol, s: Symbol, check: set<Symbol>,
                  checked: set<Symbol>, X: set<Symbol>)
    requires Trail(g, line, t, u, check, checked, X) && Edge(g, s, u) && s in check && s in checked && s !in X
    ensures Trail(g, line + [s], t, s, check - {s}, checked, X)
  {
  }

  // ----- the depth-first search -----

  class Checker {
    const g: Decls
    var check: set<Symbol>     // SYMBOL_CHECK
    var checked: set<Symbol>   // SYMBOL_CHECKED
    var line: seq<Symbol>      // the warning being printed
    var lines: seq<seq<Symbol>>

    // the symbols under examination, outermost first, and those done with, in the order in which that happened
    ghost var path: seq<Symbol>
    ghost var order: seq<Symbol>

    constructor (decls: Decls)
      requires Closed(decls)
      ensures g == decls && Inv() && path == [] && lines == []
    {
      g, check, checked, line, lines, path, order := decls, {}, {}, [], [], [], [];
    }

    ghost predicate Inv()
      reads this
    {
      && Closed(g) && Chain(g, path) && (forall s :: s in check <==> s in path)
      && check <= checked <= g.Keys
      && Warnings(g, lines) && Sorted([])
    }

    /** The symbols done with are in order, unless a warning has named them or `named` does. */
    ghost predicate Sorted(named: seq<Symbol>)
      reads this
    {
      && Ordered(g, order, Named(lines)) && (forall s | s in order :: s in checked && s !in check)
      && (forall s | s in checked && s !in check :: s in Done() || s in named)
      && Named(lines) <= checked - check
    }

    /** The symbols done with and those on warnings. */
    ghost function Done(): set<Symbol>
      reads this
    {
      (set s | s in order) + Named(lines)
    }

    /** A warning is being printed: it started with `t` and leads back to `s`. */
    ghost predicate Reporting(t: Symbol, s: Symbol)
      reads this
    {
      t in path && Warnings(g, lines) && Sorted(line) && Trail(g, line, t, s, check, checked, Named(lines))
    }

    /** `sym_check_deps`. */
    method CheckDeps(s: Symbol) returns (r: Option<Symbol>)
      requires Inv() && s in g && (path != [] ==> Edge(g, path[|path| - 1], s))
      modifies this
      ensures check == old(check) && path == old(path) && old(checked) <= checked <= g.Keys
      ensures old(Done()) <= Done()
      ensures r.None? ==> Inv() && s in Done()
      ensures r.Some? ==> Reporting(r.value, s)
      decreases g.Keys - checked, 0, 0
    {
      if s in check {
        line := [s];
        return Some(s);
      }
      if s in checked {
        return None;
      }
      Enter(s);
      r := CheckDecl(s);
      if r.None? {
        Finish(s);
      } else {
        r := Unwind(s, r.value);
      }
    }

    /** The reverse dependency and the properties of `s`. */
    method CheckDecl(s: Symbol) returns (r: Option<Symbol>)
      requires Inv() && path != [] && path[|path| - 1] == s && s in g
      modifies this
      ensures check == old(check) && path == old(path) && old(checked) <= checked <= g.Keys
      ensures old(Done()) <= Done()
      ensures r.None? ==> Inv() && forall t | Edge(g, s, t) :: t in Done()
      ensures r.Some? ==> line != [] && Edge(g, s, line[|line| - 1]) && Reporting(r.value, line[|line| - 1])
      decreases g.Keys - checked, 4, 0
    {
      r := CheckOptional(g[s].revDep, s);
      if r.None? {
        r := CheckProps(s);
      }
    }

    /** The warning goes on with `s`, and is complete if it started there. */
    method Unwind(s: Symbol, t: Symbol) returns (r: Option<Symbol>)
      requires Reporting(t, if line == [] then s else line[|line| - 1]) && Edge(g, s, line[|line| - 1])
      requires path != [] && path[|path| - 1] == s && s !in path[..|path| - 1]
      requires Closed(g) && Chain(g, path) && (forall x :: x in check <==> x in path) && check <= checked <= g.Keys
      modifies `check, `path, `line, `lines
      ensures path == old(path)[..|old(path)| - 1] && check == old(check) - {s} && old(Done()) <= Done()
      ensures r.None? ==> Inv() && s in Done()
      ensures r.Some? ==> Reporting(r.value, s)
    {
      TrailMore(g, line, t, line[|line| - 1], s, check, checked, Named(lines));
      Leave(s);
      r := Some(t);
      if t == s {
        NamedMore(lines, line);
        WarningsMore(g, lines, line);
        lines := lines + [line];
        r := None;
      }
    }

    /** `s` is added to the warning, and `sym->flags &= ~SYMBOL_CHECK`. */
    method Leave(s: Symbol)
      requires path != [] && path[|path| - 1] == s && s !in path[..|path| - 1]
      requires Closed(g) && Chain(g, path) && (forall x :: x in check <==> x in path) && Sorted(line)
      modifies `check, `path, `line
      ensures path == old(path)[..|old(path)| - 1] && check == old(check) - {s} && line == old(line) + [s]
      ensures Chain(g, path) && (forall x :: x in check <==> x in path) && Sorted(line)
    {
      ghost var p := path[..|path| - 1];
      assert path == p + [s];
      line := line + [s];
      check := check - {s};
      path := p;
    }

    /** `sym->flags |= SYMBOL_CHECK | SYMBOL_CHECKED`. */
    method Enter(s: Symbol)
      requires Inv() && s in g && s !in checked && (path != [] ==> Edge(g, path[|path| - 1], s))
      modifies `check, `checked, `path
      ensures Inv() && path == old(path) + [s] && check == old(check) + {s} && checked == old(checked) + {s}
    {
      check, checked, path := check + {s}, checked + {s}, path + [s];
    }

    /** Everything that `s` depends on is done with: `sym->flags &= ~SYMBOL_CHECK`. */
    method Finish(s: Symbol)
      requires Inv() && path != [] && path[|path| - 1] == s && s !in path[..|path| - 1]
      requires forall t | Edge(g, s, t) :: t in Done()
      modifies `check, `path, `order
      ensures Inv() && path == old(path)[..|old(path)| - 1] && check == old(check) - {s}
      ensures order == old(order) + [s]
    {
      ghost var p, o := path[..|path| - 1], order;
      assert path == p + [s];
      check := check - {s};
      path := p;
      order := order + [s];
      assert forall i | 0 <= i <= |o| :: order[..i] == o[..i];
    }

    method CheckOptional(e: Option<Expr>, ghost s: Symbol) returns (r: Option<Symbol>)
      requires Inv() && path != [] && path[|path| - 1] == s && forall t | t in Mentioned(e) :: Edge(g, s, t)
      modifies this
      ensures check == old(check) && path == old(path) && old(checked) <= checked <= g.Keys
      ensures old(Done()) <= Done()
      ensures r.None? ==> Inv() && Mentioned(e) <= Done()
      ensures r.Some? ==> line != [] && line[|line| - 1] in Mentioned(e) && Reporting(r.value, line[|line| - 1])
      decreases g.Keys - checked, 2, 0
    {
      if e.None? {
        return None;
      }
      r := CheckExpr(e.value, s);
    }

    /** Both sides of a comparison. */
    method CheckPair(x: Symbol, y: Symbol, ghost s: Symbol) returns (r: Option<Symbol>)
      requires Inv() && path != [] && path[|path| - 1] == s && Edge(g, s, x) && Edge(g, s, y)
      modifies this
      ensures check == old(check) && path == old(path) && old(checked) <= checked <= g.Keys
      ensures old(Done()) <= Done()
      ensures r.None? ==> Inv() && x in Done() && y in Done()
      ensures r.Some? ==> line != [] && line[|line| - 1] in {x, y} && Reporting(r.value, line[|line| - 1])
      decreases g.Keys - checked, 0, 1
    {
      r := CheckDeps(x);
      if r.None? { r := CheckDeps(y); }
    }

    /** `sym_check_expr_deps`. */
    method CheckExpr(e: Expr, ghost s: Symbol) returns (r: Option<Symbol>)
      requires Inv() && path != [] && path[|path| - 1] == s && forall t | t in Symbols(e) :: Edge(g, s, t)
      modifies this
      ensures check == old(check) && path == old(path) && old(checked) <= checked <= g.Keys
      ensures old(Done()) <= Done()
      ensures r.None? ==> Inv() && Symbols(e) <= Done()
      ensures r.Some? ==> line != [] && line[|line| - 1] in Symbols(e) && Reporting(r.value, line[|line| - 1])
      decreases g.Keys - checked, 1, e
    {
      match e
      case Two(_, x, y) =>
        r := CheckExpr(x, s);
        if r.None? { r := CheckExpr(y, s); }
      case Not(x) => r := CheckExpr(x, s);
      case Equal(x, y) => r := CheckPair(x, y, s);
      case Unequal(x, y) => r := CheckPair(x, y, s);
      case Sym(x) =>
        assert x in Symbols(e);
        r := CheckDeps(x);
    }

    /** The loop over the properties of `s`. */
    method CheckProps(s: Symbol) returns (r: Option<Symbol>)
      requires Inv() && path != [] && path[|path| - 1] == s && s in g
      modifies this
      ensures check == old(check) && path == old(path) && old(checked) <= checked <= g.Keys
      ensures old(Done()) <= Done()
      ensures r.None? ==> Inv()
      ensures r.None? ==> forall i | 0 <= i < |g[s].props| :: PropSymbols(g[s], g[s].props[i]) <= Done()
      ensures r.Some? ==> line != [] && Edge(g, s, line[|line| - 1]) && Reporting(r.value, line[|line| - 1])
      decreases g.Keys - checked, 3, 0
    {
      var d := g[s];
      for k := 0 to |d.props|
        invariant Inv() && check == old(check) && path == old(path) && old(checked) <= checked <= g.Keys
        invariant old(Done()) <= Done()
        invariant forall i | 0 <= i < k :: PropSymbols(d, d.props[i]) <= Done()
      {
        r := CheckProp(d, k, s);
        if r.Some? {
          return;
        }
      }
      r := None;
    }

    /** Property `k` of `s`. */
    method CheckProp(d: Decl, k: nat, ghost s: Symbol) returns (r: Option<Symbol>)
      requires Inv() && path != [] && path[|path| - 1] == s && s in g && d == g[s] && k < |d.props|
      modifies this
      ensures check == old(check) && path == old(path) && old(checked) <= checked <= g.Keys
      ensures old(Done()) <= Done()
      ensures r.None? ==> Inv() && PropSymbols(d, d.props[k]) <= Done()
      ensures r.Some? ==> line != [] && Edge(g, s, line[|line| - 1]) && Reporting(r.value, line[|line| - 1])
      decreases g.Keys - checked, 2, 1
    {
      var p := d.props[k];
      if p.kind == Choice || p.kind == Select {
        return None;
      }
      r := CheckOptional(p.visible, s);
      if r.Some? || p.kind != Default || d.isChoice {
        return;
      }
      r := CheckOptional(p.value, s);
    }

    /** `sym_check_deps` for all symbols: every warning names a cycle, each symbol followed by one that
        depends on it; no symbol is named twice, and every cycle meets one that is named. */
    method CheckAll(roots: seq<Symbol>)
      requires Inv() && path == [] && lines == [] && (forall s, t | Edge(g, s, t) :: s in roots)
      requires forall k | 0 <= k < |roots| :: roots[k] in g
      modifies this
      ensures Warnings(g, lines)
      ensures forall p | Cycle(g, p) :: exists i, k | 0 <= i < |lines| && 0 <= k < |p| :: p[k] in lines[i]
      ensures lines != [] <==> exists p :: Cycle(g, p)
    {
      for n := 0 to |roots|
        invariant Inv() && path == []
        invariant forall k | 0 <= k < n :: roots[k] in Done()
      {
        var r := CheckDeps(roots[n]);
        assert r.None?;
      }
      forall p | Cycle(g, p) ensures exists i, k | 0 <= i < |lines| && 0 <= k < |p| :: p[k] in lines[i] {
        OrderedAcyclic(g, order, Named(lines), p);
      }
      if lines != [] {
        assert Cycle(g, lines[0]);
      }
    }
  }
}
