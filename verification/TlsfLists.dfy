/** The segregated free lists: doubly linked through words of the free blocks themselves,
    headed by the matrix, summarised by the two bitmap levels. */
module TlsfLists {
  import opened TlsfBits
  import opened TlsfMapping

  /** Word-addressed memory: a 32-bit word for every backed address that is a multiple of 4. */
  type Memory = map<int, int>

  type Matrix = seq<seq<int>>

  /** What is known of a listed block: its class, and a stamp that grows with insertion. */
  datatype Node = Node(cls: Class, stamp: nat)

  type Listed = map<int, Node>

  predicate MatrixShape(M: Matrix) { |M| == REAL_FLI && forall i | 0 <= i < REAL_FLI :: |M[i]| == MAX_SLI }

  function Head(M: Matrix, c: Class): int
    requires MatrixShape(M) && c.InMatrix()
  {
    M[c.fl][c.sl]
  }

  function SetHead(M: Matrix, c: Class, b: int): (M': Matrix)
    requires MatrixShape(M) && c.InMatrix()
    ensures MatrixShape(M') && Head(M', c) == b
    ensures forall d: Class | d.InMatrix() && d != c :: Head(M', d) == Head(M, d)
  {
    M[c.fl := M[c.fl][c.sl := b]]
  }

  /** `b->ptr.free_ptr.prev` and `b->ptr.free_ptr.next`. */
  function Prev(b: int): int { b + 8 }
  function Succ(b: int): int { b + 12 }

  /** A listed block agrees with the block after it in the list. Stamps fall along the list,
      so no list is cyclic. */
  predicate AfterOk(mem: Memory, L: Listed, b: int)
    requires b in L
  {
    && Succ(b) in mem
    && var n := mem[Succ(b)];
       n != 0 ==> n in L && L[n].cls == L[b].cls && L[n].stamp < L[b].stamp && Prev(n) in mem && mem[Prev(n)] == b
  }

  /** And with the block before it, or with the matrix if it is the first. */
  predicate BeforeOk(mem: Memory, L: Listed, M: Matrix, b: int)
    requires MatrixShape(M) && b in L && L[b].cls.InMatrix()
  {
    && Prev(b) in mem
    && var p := mem[Prev(b)];
       if p == 0 then Head(M, L[b].cls) == b
       else p in L && L[p].cls == L[b].cls && L[b].stamp < L[p].stamp && Succ(p) in mem && mem[Succ(p)] == b
  }

  predicate NodeOk(mem: Memory, L: Listed, M: Matrix, b: int)
    requires MatrixShape(M) && b in L
  {
    b > 0 && L[b].cls.InMatrix() && AfterOk(mem, L, b) && BeforeOk(mem, L, M, b)
  }

  predicate HeadOk(mem: Memory, L: Listed, M: Matrix, c: Class)
    requires MatrixShape(M) && c.InMatrix()
  {
    var h := Head(M, c);
    h != 0 ==> h in L && L[h].cls == c && Prev(h) in mem && mem[Prev(h)] == 0
  }

  /** Two blocks with room for their link words do not overlap. */
  predicate Apart(b: int, c: int) { b + 16 <= c || c + 16 <= b }

  predicate Spaced(bs: set<int>)
  {
    forall b, c {:trigger Apart(b, c)} | b in bs && c in bs && b != c :: Apart(b, c)
  }

  ghost predicate Linked(mem: Memory, L: Listed, M: Matrix)
  {
    && MatrixShape(M)
    && Spaced(L.Keys)
    && (forall b {:trigger NodeOk(mem, L, M, b)} | b in L :: NodeOk(mem, L, M, b))
    && (forall c: Class {:trigger HeadOk(mem, L, M, c)} | c.InMatrix() :: HeadOk(mem, L, M, c))
  }

  /** Only link words of the given blocks differ. */
  predicate SameBut(mem: Memory, mem': Memory, bs: set<int>)
  {
    mem'.Keys == mem.Keys &&
    forall a | a in mem :: mem'[a] == mem[a] || a - 8 in bs || a - 12 in bs
  }

  /** Writes elsewhere leave the lists alone. */
  lemma LinkedFrame(mem: Memory, mem': Memory, L: Listed, M: Matrix)
    requires Linked(mem, L, M) && mem.Keys <= mem'.Keys
    requires forall x | x in L ::
      (Prev(x) in mem ==> mem'[Prev(x)] == mem[Prev(x)]) && (Succ(x) in mem ==> mem'[Succ(x)] == mem[Succ(x)])
    ensures Linked(mem', L, M)
  {
    forall x | x in L ensures NodeOk(mem', L, M, x) {
      assert NodeOk(mem, L, M, x);
    }
    forall c: Class | c.InMatrix() ensures HeadOk(mem', L, M, c) {
      assert HeadOk(mem, L, M, c);
    }
  }

  // ----- unlinking -----

  /** The memory writes of `EXTRACT_BLOCK` (and, when `p` is 0, of `EXTRACT_BLOCK_HDR`). */
  function Unlink(mem: Memory, b: int, p: int, n: int): Memory
  {
    var m1 := if n != 0 then mem[Prev(n) := p] else mem;
    var m2 := if p != 0 then m1[Succ(p) := n] else m1;
    m2[Prev(b) := 0][Succ(b) := 0]
  }

  function UnlinkHead(M: Matrix, c: Class, b: int, n: int): Matrix
    requires MatrixShape(M) && c.InMatrix()
  {
    if Head(M, c) == b then SetHead(M, c, n) else M
  }

  lemma UnlinkLinked(mem: Memory, L: Listed, M: Matrix, b: int)
    requires Linked(mem, L, M) && b in L
    ensures NodeOk(mem, L, M, b)
    ensures var p, n, c := mem[Prev(b)], mem[Succ(b)], L[b].cls;
      var mem' := Unlink(mem, b, p, n);
      Linked(mem', L - {b}, UnlinkHead(M, c, b, n)) && SameBut(mem, mem', L.Keys)
  {
    assert NodeOk(mem, L, M, b);
    var p, n, c := mem[Prev(b)], mem[Succ(b)], L[b].cls;
    var mem', M', L' := Unlink(mem, b, p, n), UnlinkHead(M, c, b, n), L - {b};
    assert HeadOk(mem, L, M, c);
    if p != 0 { assert NodeOk(mem, L, M, p); }
    if n != 0 { assert NodeOk(mem, L, M, n); }
    forall x | x in L' ensures NodeOk(mem', L', M', x) {
      UnlinkNode(mem, L, M, b, x);
    }
    forall d: Class | d.InMatrix() ensures HeadOk(mem', L', M', d) {
      assert HeadOk(mem, L, M, d);
      var h := Head(M, d);
      if h != 0 { assert NodeOk(mem, L, M, h); }
    }
  }

  lemma UnlinkNode(mem: Memory, L: Listed, M: Matrix, b: int, x: int)
    requires Linked(mem, L, M) && b in L && x in L && x != b
    requires NodeOk(mem, L, M, b)
    ensures var p, n, c := mem[Prev(b)], mem[Succ(b)], L[b].cls;
      NodeOk(Unlink(mem, b, p, n), L - {b}, UnlinkHead(M, c, b, n), x)
  {
    assert NodeOk(mem, L, M, x);
    UnlinkAfter(mem, L, M, b, x);
    UnlinkBefore(mem, L, M, b, x);
  }

  lemma UnlinkAfter(mem: Memory, L: Listed, M: Matrix, b: int, x: int)
    requires Linked(mem, L, M) && b in L && x in L && x != b
    requires NodeOk(mem, L, M, b)
    ensures AfterOk(Unlink(mem, b, mem[Prev(b)], mem[Succ(b)]), L - {b}, x)
  {
    var p, n := mem[Prev(b)], mem[Succ(b)];
    assert NodeOk(mem, L, M, x);
    if p != 0 { assert NodeOk(mem, L, M, p); }
    if n != 0 { assert NodeOk(mem, L, M, n); }
    var z := mem[Succ(x)];
    if z != 0 { assert NodeOk(mem, L, M, z); }
    assert Apart(x, b) && (x != p ==> p == 0 || Apart(x, p)) && (x != n ==> n == 0 || Apart(x, n));
    assert z != 0 ==> (z != b ==> Apart(z, b)) && (z != p ==> p == 0 || Apart(z, p)) && (z != n ==> n == 0 || Apart(z, n));
  }

  lemma UnlinkBefore(mem: Memory, L: Listed, M: Matrix, b: int, x: int)
    requires Linked(mem, L, M) && b in L && x in L && x != b
    requires NodeOk(mem, L, M, b) && L[x].cls.InMatrix()
    ensures BeforeOk(Unlink(mem, b, mem[Prev(b)], mem[Succ(b)]), L - {b},
                     UnlinkHead(M, L[b].cls, b, mem[Succ(b)]), x)
  {
    var p, n := mem[Prev(b)], mem[Succ(b)];
    assert NodeOk(mem, L, M, x);
    if p != 0 { assert NodeOk(mem, L, M, p); }
    if n != 0 { assert NodeOk(mem, L, M, n); }
    var y := mem[Prev(x)];
    if y != 0 { assert NodeOk(mem, L, M, y); }
    assert Apart(x, b) && (x != p ==> p == 0 || Apart(x, p)) && (x != n ==> n == 0 || Apart(x, n));
    assert y != 0 ==> (y != b ==> Apart(y, b)) && (y != p ==> p == 0 || Apart(y, p)) && (y != n ==> n == 0 || Apart(y, n));
  }

  // ----- linking -----

  /** The memory writes of `INSERT_BLOCK`. */
  function Link(mem: Memory, b: int, h: int): Memory
  {
    var m := mem[Prev(b) := 0][Succ(b) := h];
    if h != 0 then m[Prev(h) := b] else m
  }

  lemma LinkLinked(mem: Memory, L: Listed, M: Matrix, b: int, c: Class, stamp: nat)
    requires Linked(mem, L, M) && b !in L && c.InMatrix() && Spaced(L.Keys + {b})
    requires b > 0 && Prev(b) in mem && Succ(b) in mem
    requires forall x | x in L :: L[x].stamp < stamp
    ensures var h := Head(M, c);
      var mem', L' := Link(mem, b, h), L[b := Node(c, stamp)];
      Linked(mem', L', SetHead(M, c, b)) && SameBut(mem, mem', L'.Keys)
  {
    var h := Head(M, c);
    var mem', M', L' := Link(mem, b, h), SetHead(M, c, b), L[b := Node(c, stamp)];
    assert L'.Keys == L.Keys + {b};
    assert HeadOk(mem, L, M, c);
    if h != 0 { assert NodeOk(mem, L, M, h); }
    forall x | x in L' ensures NodeOk(mem', L', M', x) {
      LinkNode(mem, L, M, b, c, stamp, x);
    }
    forall d: Class | d.InMatrix() ensures HeadOk(mem', L', M', d) {
      assert HeadOk(mem, L, M, d);
    }
  }

  lemma LinkNode(mem: Memory, L: Listed, M: Matrix, b: int, c: Class, stamp: nat, x: int)
    requires Linked(mem, L, M) && b !in L && c.InMatrix() && Spaced(L.Keys + {b})
    requires b > 0 && Prev(b) in mem && Succ(b) in mem
    requires forall y | y in L :: L[y].stamp < stamp
    requires x in L || x == b
    ensures NodeOk(Link(mem, b, Head(M, c)), L[b := Node(c, stamp)], SetHead(M, c, b), x)
  {
    var h, bs := Head(M, c), L.Keys + {b};
    assert HeadOk(mem, L, M, c);
    if h != 0 { assert NodeOk(mem, L, M, h) && L[h].stamp < stamp && Apart(h, b); }
    if x in L {
      assert NodeOk(mem, L, M, x) && Apart(x, b);
      var p, n := mem[Prev(x)], mem[Succ(x)];
      assert h != 0 && h != x ==> Apart(h, x);
      assert n != 0 ==> Apart(n, b) && (h != 0 && h != n ==> Apart(h, n));
      assert p != 0 ==> Apart(p, b) && (h != 0 && h != p ==> Apart(h, p));
    }
  }

  // ----- the lists as sequences -----

  /** The blocks met by following the list from `b`. */
  ghost function ListFrom(mem: Memory, L: Listed, M: Matrix, b: int): seq<int>
    requires Linked(mem, L, M) && b in L
    decreases L[b].stamp
  {
    assert NodeOk(mem, L, M, b);
    if mem[Succ(b)] == 0 then [b] else [b] + ListFrom(mem, L, M, mem[Succ(b)])
  }

  ghost function FreeList(mem: Memory, L: Listed, M: Matrix, c: Class): seq<int>
    requires Linked(mem, L, M) && c.InMatrix()
  {
    assert HeadOk(mem, L, M, c);
    if Head(M, c) == 0 then [] else ListFrom(mem, L, M, Head(M, c))
  }

  lemma {:induction false} ListFromSound(mem: Memory, L: Listed, M: Matrix, b: int)
    requires Linked(mem, L, M) && b in L
    ensures forall x | x in ListFrom(mem, L, M, b) :: x in L && L[x].cls == L[b].cls && L[x].stamp <= L[b].stamp
    ensures forall i, j | 0 <= i < j < |ListFrom(mem, L, M, b)| ::
      ListFrom(mem, L, M, b)[i] != ListFrom(mem, L, M, b)[j]
    decreases L[b].stamp
  {
    assert NodeOk(mem, L, M, b);
    if mem[Succ(b)] != 0 {
      ListFromSound(mem, L, M, mem[Succ(b)]);
    }
  }

  lemma {:induction false} ListFromClosed(mem: Memory, L: Listed, M: Matrix, b: int, x: int)
    requires Linked(mem, L, M) && b in L && x in ListFrom(mem, L, M, b) && x in L
    ensures Succ(x) in mem && (mem[Succ(x)] != 0 ==> mem[Succ(x)] in ListFrom(mem, L, M, b))
    decreases L[b].stamp
  {
    assert NodeOk(mem, L, M, b) && NodeOk(mem, L, M, x);
    var n := mem[Succ(b)];
    if n != 0 {
      var rest := ListFrom(mem, L, M, n);
      assert n == rest[0];
      if x != b { ListFromClosed(mem, L, M, n, x); }
    }
  }

  /** Going back from a listed block, stamps rise until the head of its list is met. */
  lemma {:induction false} ListedReached(mem: Memory, L: Listed, M: Matrix, x: int, top: nat)
    requires Linked(mem, L, M) && x in L
    requires forall y | y in L :: L[y].stamp < top
    ensures L[x].cls.InMatrix() && x in FreeList(mem, L, M, L[x].cls)
    decreases top - L[x].stamp
  {
    assert NodeOk(mem, L, M, x) && HeadOk(mem, L, M, L[x].cls);
    var p := mem[Prev(x)];
    if p == 0 {
      assert ListFrom(mem, L, M, x)[0] == x;
    } else {
      ListedReached(mem, L, M, p, top);
      ListFromClosed(mem, L, M, Head(M, L[x].cls), p);
    }
  }

  /** Each list holds exactly the listed blocks of its class, each of them once. */
  lemma FreeListExact(mem: Memory, L: Listed, M: Matrix, c: Class, top: nat)
    requires Linked(mem, L, M) && c.InMatrix()
    requires forall y | y in L :: L[y].stamp < top
    ensures forall x :: x in FreeList(mem, L, M, c) <==> x in L && L[x].cls == c
    ensures forall i, j | 0 <= i < j < |FreeList(mem, L, M, c)| ::
      FreeList(mem, L, M, c)[i] != FreeList(mem, L, M, c)[j]
  {
    assert HeadOk(mem, L, M, c);
    if Head(M, c) != 0 {
      ListFromSound(mem, L, M, Head(M, c));
    }
    forall x | x in L && L[x].cls == c ensures x in FreeList(mem, L, M, c) {
      ListedReached(mem, L, M, x, top);
    }
  }

  // ----- bitmaps -----

  /** Both bitmap levels are set exactly for non-empty lists. */
  ghost predicate BitmapsOk(M: Matrix, S: seq<Word>, F: Word)
  {
    && MatrixShape(M) && |S| == REAL_FLI
    && (forall i, j | 0 <= i < REAL_FLI && 0 <= j < MAX_SLI :: S[i][j] <==> M[i][j] != 0)
    && (forall i | 0 <= i < 32 :: F[i] <==> i < REAL_FLI && true in S[i])
  }

  /** A list has been emptied: `clear_bit` in the second level, and in the first if the
      second-level word became zero. */
  lemma EmptiedBitmaps(M: Matrix, S: seq<Word>, F: Word, c: Class)
    requires BitmapsOk(M, S, F) && c.InMatrix()
    ensures var S' := S[c.fl := S[c.fl][c.sl := false]];
      BitmapsOk(SetHead(M, c, 0), S', if true in S'[c.fl] then F else F[c.fl := false])
  {
    var S' := S[c.fl := S[c.fl][c.sl := false]];
    if true in S'[c.fl] {
      var j :| 0 <= j < MAX_SLI && S'[c.fl][j];
      assert S[c.fl][j];
    }
  }

  /** A list is not empty: `set_bit` in both levels. */
  lemma FilledBitmaps(M: Matrix, S: seq<Word>, F: Word, c: Class, b: int)
    requires BitmapsOk(M, S, F) && c.InMatrix() && b != 0
    ensures BitmapsOk(SetHead(M, c, b), S[c.fl := S[c.fl][c.sl := true]], F[c.fl := true])
  {
    assert S[c.fl := S[c.fl][c.sl := true]][c.fl][c.sl];
  }

  datatype Found = Found(block: int, cls: Class)

  /** `FIND_SUITABLE_BLOCK`. */
  function FindSuitable(M: Matrix, S: seq<Word>, F: Word, c: Class): Found
    requires BitmapsOk(M, S, F) && c.InMatrix()
  {
    var tmp := From(S[c.fl], c.sl);
    if true in tmp then
      var sl := LsBit(tmp);
      Found(M[c.fl][sl], Class(c.fl, sl))
    else
      var fl := LsBit(From(F, c.fl + 1));
      if fl > 0 then
        var sl := LsBit(S[fl]);
        Found(M[fl][sl], Class(fl, sl))
      else
        Found(0, c)
  }

  /** It is the head of the first non-empty list at or after class `c`, or 0 if all are empty. */
  lemma FindSuitableFirst(M: Matrix, S: seq<Word>, F: Word, c: Class)
    requires BitmapsOk(M, S, F) && c.InMatrix()
    ensures var r := FindSuitable(M, S, F, c);
      && (r.block != 0 ==> r.cls.InMatrix() && r.block == Head(M, r.cls) && c.Index() <= r.cls.Index())
      && forall d: Class | d.InMatrix() && c.Index() <= d.Index() && (r.block == 0 || d.Index() < r.cls.Index()) ::
           Head(M, d) == 0
  {
    var r := FindSuitable(M, S, F, c);
    forall d: Class | d.InMatrix() && c.Index() <= d.Index() && (r.block == 0 || d.Index() < r.cls.Index())
      ensures Head(M, d) == 0
    {
      SkippedEmpty(M, S, F, c, d);
    }
  }

  lemma SkippedEmpty(M: Matrix, S: seq<Word>, F: Word, c: Class, d: Class)
    requires BitmapsOk(M, S, F) && c.InMatrix() && d.InMatrix() && c.Index() <= d.Index()
    requires var r := FindSuitable(M, S, F, c); r.block == 0 || d.Index() < r.cls.Index()
    ensures Head(M, d) == 0
  {
    var tmp := From(S[c.fl], c.sl);
    if d.fl == c.fl {
      assert tmp[d.sl] == S[d.fl][d.sl];
    } else if true !in tmp {
      var rest := From(F, c.fl + 1);
      assert rest[d.fl] == F[d.fl];
      assert S[d.fl][d.sl] <==> M[d.fl][d.sl] != 0;
    }
  }
}
