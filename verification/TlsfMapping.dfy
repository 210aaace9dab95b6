/** The size classes: `MAPPING_INSERT` and `MAPPING_SEARCH`, and why the search is exact. */
module TlsfMapping {
  import opened TlsfBits

  const SMALL_BLOCK := 128
  const MAX_SLI := 32
  const REAL_FLI := 24
  const FLI_OFFSET := 6
  const MAX_LOG2_SLI := 5

  /** The largest request that is searched for as asked (see SearchInMatrix). */
  const MAX_REQUEST := 0x3F00_0000
  const MAX_SIZE := 0x4000_0000

  /** A cell of the matrix: first- and second-level index. */
  datatype Class = Class(fl: int, sl: int) {
    predicate InMatrix() { 0 <= fl < REAL_FLI && 0 <= sl < MAX_SLI }

    /** Position in the order in which the bitmaps are scanned. */
    function Index(): int { fl * MAX_SLI + sl }
  }

  /** `ROUNDUP_SIZE`, including its wrap-around in 32 bits. */
  function RoundUp(r: nat): (s: nat)
    ensures s % 8 == 0
    ensures r <= 0x1_0000_0000 - 8 ==> r <= s < r + 8
  {
    var t := (r + 7) % 0x1_0000_0000;
    t - t % 8
  }

  /** What `malloc_ex` and `realloc_ex` make of a requested size. */
  function Adjust(size: nat): (s: nat)
    ensures s % 8 == 0
    ensures size <= MAX_REQUEST ==> size <= s <= MAX_REQUEST && 8 <= s < size + 8 + 8
  {
    if size < 8 then 8 else RoundUp(size)
  }

  /** The smallest size of a class. */
  function Floor(c: Class): nat
    requires 0 <= c.fl && 0 <= c.sl
  {
    if c.fl == 0 then 4 * c.sl else Shl(MAX_SLI + c.sl, c.fl + FLI_OFFSET - MAX_LOG2_SLI)
  }

  /** One more than the largest size of a class. */
  function Ceiling(c: Class): nat
    requires 0 <= c.fl && 0 <= c.sl
  {
    if c.fl == 0 then 4 * (c.sl + 1) else Shl(MAX_SLI + (c.sl + 1), c.fl + FLI_OFFSET - MAX_LOG2_SLI)
  }

  lemma AdjustTwice(size: nat)
    requires size <= MAX_REQUEST
    ensures Adjust(Adjust(size)) == Adjust(size)
  {
  }

  /** `MAPPING_INSERT`: the class a block of size `r` is filed under. */
  function MappingInsert(r: nat): (c: Class)
    requires r < 0x1_0000_0000
    ensures 0 <= c.fl && 0 <= c.sl < MAX_SLI && Floor(c) <= r < Ceiling(c)
    ensures c.fl == 0 <==> r < SMALL_BLOCK
    ensures c.InMatrix() <==> r < MAX_SIZE
  {
    if r < SMALL_BLOCK then Class(0, r / 4)
    else
      var f := MsBit(r);
      SecondLevel(r, f);
      Class(f - FLI_OFFSET, Shr(r, f - MAX_LOG2_SLI) - MAX_SLI)
  }

  lemma SecondLevel(r: nat, f: int)
    requires SMALL_BLOCK <= r < 0x1_0000_0000 && f == MsBit(r)
    ensures f >= 7
    ensures var k := f - MAX_LOG2_SLI;
      32 <= Shr(r, k) < 64 && Shl(Shr(r, k), k) <= r < Shl(Shr(r, k) + 1, k)
    ensures f < 30 <==> r < MAX_SIZE
  {
    Powers();
    if f < 7 { Pow2Monotone(f + 1, 7); }
    if f >= 30 { Pow2Monotone(30, f); } else { Pow2Monotone(f + 1, 30); }
    var k := f - MAX_LOG2_SLI;
    ShlPow2(5, k);
    ShlPow2(6, k);
    ShrBetween(r, k, 32, 64);
    ShrBounds(r, k);
  }

  datatype Search = Search(size: nat, cls: Class)

  /** What `MAPPING_SEARCH` promises for a request of `r` bytes: a size rounded up by less
      than 1/32 of the request, and the class of that size, which it is the start of. */
  predicate Rounded(r: nat, s: Search)
  {
    && r <= s.size < 0x1_0000_0000
    && (if r == 0 then s.size == 0 else 32 * (s.size - r) < r)
    && s.cls == MappingInsert(s.size)
    && (r % 8 == 0 ==> s.size % 8 == 0 && s.size == Floor(s.cls))
  }

  /** The largest size whose rounding does not leave 32 bits. */
  const MAX_ROUNDED := 0xFC00_0000

  /** `MAPPING_SEARCH`. Above MAX_ROUNDED the sum wraps: the rounded size is 0, and from 0x41 bytes
      further on the class is in the matrix again. */
  function MappingSearch(r: nat): (s: Search)
    requires r < 0x1_0000_0000
    ensures r <= MAX_ROUNDED ==> Rounded(r, s)
    ensures r > MAX_ROUNDED ==> s.size == 0 && (s.cls.InMatrix() <==> r >= MAX_ROUNDED + 0x41)
  {
    if r < SMALL_BLOCK then Search(r, Class(0, r / 4))
    else
      HighBit(r);
      var k := MsBit(r) - MAX_LOG2_SLI;
      var x := Sum32(r, Pow2(k) - 1);
      SearchRounds(r, k, x);
      SearchFrom(x, k)
  }

  /** Addition of 32-bit words. */
  function Sum32(x: nat, y: nat): (s: nat)
    ensures s < 0x1_0000_0000
    ensures x + y < 0x1_0000_0000 ==> s == x + y
    ensures 0x1_0000_0000 <= x + y < 0x2_0000_0000 ==> s == x + y - 0x1_0000_0000
  {
    (x + y) % 0x1_0000_0000
  }

  /** The class of `x` and `x` with its low `k` bits cleared. Below 32 the shift for the second
      index is by a negative number, which C does not define; the first index is negative then. */
  function SearchFrom(x: nat, k: nat): Search
    requires x < 0x1_0000_0000
  {
    var f := MsBit(x);
    Search(Shl(Shr(x, k), k), Class(f - FLI_OFFSET, if f < MAX_LOG2_SLI then 0 else Shr(x, f - MAX_LOG2_SLI) - MAX_SLI))
  }

  /** `f` is the position of the highest bit of `r`. */
  predicate HighestBit(r: nat, f: int) { 7 <= f < 32 && Pow2(f) <= r < Pow2(f + 1) }

  lemma HighBit(r: nat)
    requires SMALL_BLOCK <= r < 0x1_0000_0000
    ensures HighestBit(r, MsBit(r))
  {
    SecondLevel(r, MsBit(r));
  }

  lemma SearchRounds(r: nat, k: nat, x: nat)
    requires SMALL_BLOCK <= r < 0x1_0000_0000 && HighestBit(r, k + MAX_LOG2_SLI) && x == Sum32(r, Pow2(k) - 1)
    ensures r <= MAX_ROUNDED ==> Rounded(r, SearchFrom(x, k)) == true
    ensures var s := SearchFrom(x, k);
      r > MAX_ROUNDED ==> s.size == 0 && (s.cls.InMatrix() <==> r >= MAX_ROUNDED + 0x41)
  {
    if r <= MAX_ROUNDED {
      SlackFits(r, k);
      RoundedAt(r, k + MAX_LOG2_SLI, k, x);
    } else {
      TopBit(r, k);
      Wrapped(x, k);
    }
  }

  lemma TopBit(r: nat, k: nat)
    requires MAX_ROUNDED < r < 0x1_0000_0000 && HighestBit(r, k + MAX_LOG2_SLI)
    ensures k == 26 && Pow2(k) == 0x400_0000 && Sum32(r, Pow2(k) - 1) == r - MAX_ROUNDED - 1
  {
    Powers();
    if k < 26 { Pow2Monotone(k + MAX_LOG2_SLI + 1, 31); }
  }

  /** The sum has wrapped to `x`, which has no more than `k` bits. */
  lemma Wrapped(x: nat, k: nat)
    requires x < Pow2(k) && x < 0x1_0000_0000 && 6 <= k <= 30
    ensures var s := SearchFrom(x, k); s.size == 0 && (s.cls.InMatrix() <==> x >= 64)
  {
    Powers();
    ShlZero(k);
    ShlPow2(0, k);
    ShrUnique(x, k, 0);
    var f := MsBit(x);
    if x >= 64 {
      if f < 6 { Pow2Monotone(f + 1, 6); }
      if f >= k { Pow2Monotone(k, f); }
      ShlPow2(5, f - MAX_LOG2_SLI);
      ShlPow2(6, f - MAX_LOG2_SLI);
      ShrBetween(x, f - MAX_LOG2_SLI, 32, 64);
    }
  }

  /** The sum does not wrap. */
  lemma SlackFits(r: nat, k: nat)
    requires r <= MAX_ROUNDED && k <= 26
    ensures r + (Pow2(k) - 1) < 0x1_0000_0000
  {
    Powers();
    Pow2Monotone(k, 26);
  }

  lemma RoundedAt(r: nat, f: int, k: nat, x: nat)
    requires SMALL_BLOCK <= r <= MAX_ROUNDED && HighestBit(r, f) && 2 <= k == f - MAX_LOG2_SLI
    requires x == r + (Pow2(k) - 1) < 0x1_0000_0000
    ensures Rounded(r, SearchFrom(x, k)) == true
  {
    RoundedBounds(r, k);
    RoundedEight(r, k, Shr(x, k));
    RoundedClass(r, f, x);
    RoundedOf(r, SearchFrom(x, k));
  }

  lemma RoundedOf(r: nat, s: Search)
    requires 0 < r <= s.size < 0x1_0000_0000 && 32 * (s.size - r) < r && s.cls == MappingInsert(s.size)
    requires s.size == Floor(s.cls) && (r % 8 == 0 ==> s.size % 8 == 0)
    ensures Rounded(r, s)
  {
  }

  lemma RoundedClass(r: nat, f: int, x: nat)
    requires SMALL_BLOCK <= r <= x < 0x1_0000_0000 && HighestBit(r, f)
    requires x < r + Pow2(f - MAX_LOG2_SLI)
    requires r <= Shl(Shr(x, f - MAX_LOG2_SLI), f - MAX_LOG2_SLI) <= x
    ensures var s := SearchFrom(x, f - MAX_LOG2_SLI);
      s.cls == MappingInsert(s.size) && s.size == Floor(s.cls)
  {
    if x < Pow2(f + 1) {
      NoCarry(r, f, x, Shr(x, f - MAX_LOG2_SLI));
    } else {
      Carry(r, f, x, Shr(x, f - MAX_LOG2_SLI));
    }
  }

  lemma RoundedBounds(r: nat, k: nat)
    requires Pow2(k + 5) <= r
    ensures var x := r + (Pow2(k) - 1);
      var s := Shl(Shr(x, k), k);
      r <= s <= x && 32 * (s - r) < r
  {
    var x := r + (Pow2(k) - 1);
    ShrBounds(x, k);
    ShlSum(Shr(x, k), 1, k);
    ShlPow2(0, k);
    assert Pow2(k + 5) == 2 * Pow2(k + 4) == 4 * Pow2(k + 3) == 8 * Pow2(k + 2) == 16 * Pow2(k + 1);
  }

  lemma RoundedEight(r: nat, k: nat, q: nat)
    requires k >= 2 && r <= Shl(q, k) < r + Pow2(k)
    ensures r % 8 == 0 ==> Shl(q, k) % 8 == 0
  {
    if r % 8 == 0 {
      if k == 2 {
        assert Shl(q, 2) == 2 * Shl(q, 1) == 4 * q;
        assert Pow2(2) == 4;
        assert r == 8 * (r / 8) && q == 2 * (r / 8);
      } else {
        assert Shl(q, k) == 2 * Shl(q, k - 1) == 4 * Shl(q, k - 2) == 8 * Shl(q, k - 3);
        EightTimes(Shl(q, k - 3));
      }
    }
  }

  lemma EightTimes(n: nat)
    ensures 8 * n % 8 == 0
  {
  }

  /** Rounding that stays below the next power of two. */
  lemma NoCarry(r: nat, f: int, x: nat, q: nat)
    requires SMALL_BLOCK <= r <= x < 0x1_0000_0000 && HighestBit(r, f) && x < Pow2(f + 1)
    requires q == Shr(x, f - MAX_LOG2_SLI) && r <= Shl(q, f - MAX_LOG2_SLI) <= x
    ensures var s := SearchFrom(x, f - MAX_LOG2_SLI);
      s.cls == MappingInsert(s.size) && s.size == Floor(s.cls)
  {
    var k := f - MAX_LOG2_SLI;
    var s := Shl(q, k);
    MsBitUnique(x, f);
    MsBitUnique(s, f);
    ShlMonotone(q, q + 1, k);
    ShrUnique(s, k, q);
    SecondLevel(s, f);
  }

  /** Rounding that reaches the next power of two. */
  lemma Carry(r: nat, f: int, x: nat, q: nat)
    requires SMALL_BLOCK <= r <= x < 0x1_0000_0000 && HighestBit(r, f) && x >= Pow2(f + 1)
    requires x < r + Pow2(f - MAX_LOG2_SLI)
    requires q == Shr(x, f - MAX_LOG2_SLI) && r <= Shl(q, f - MAX_LOG2_SLI) <= x
    ensures var s := SearchFrom(x, f - MAX_LOG2_SLI);
      s.cls == MappingInsert(s.size) && s.size == Floor(s.cls)
  {
    var k := f - MAX_LOG2_SLI;
    CarryExact(f, k, x);
    FirstOfLevel(x, f + 1, k + 1);
    FirstOfLevel(Pow2(f + 1), f + 1, k + 1);
  }

  /** `x` is in the first class of its level. */
  lemma FirstOfLevel(x: nat, g: int, k: nat)
    requires SMALL_BLOCK <= x < 0x1_0000_0000 && g >= 7 && k == g - MAX_LOG2_SLI && Pow2(g) <= x < Pow2(g + 1)
    requires Shr(x, k - 1) == 64
    ensures MsBit(x) == g && Shr(x, k) == 32 && MappingInsert(x) == Class(g - FLI_OFFSET, 0)
  {
    MsBitUnique(x, g);
    HalfShift(x, k - 1);
  }

  lemma HalfShift(x: nat, k: nat)
    requires Shr(x, k) == 64
    ensures Shr(x, k + 1) == 32
  {
  }

  lemma CarryExact(f: int, k: nat, x: nat)
    requires f >= 7 && k == f - MAX_LOG2_SLI
    requires Pow2(f + 1) <= x < Pow2(f + 1) + Pow2(k)
    ensures Shr(x, k) == 64 && Shr(Pow2(f + 1), k) == 64 && Shl(64, k) == Shl(32, k + 1) == Pow2(f + 1)
    ensures Pow2(f + 1) <= x < Pow2(f + 2)
  {
    assert Pow2(6) == 64 && Pow2(5) == 32 && Pow2(0) == 1;
    ShlPow2(6, k);
    ShlPow2(5, k + 1);
    ShlPow2(0, k);
    ShlSum(64, 1, k);
    ShrUnique(x, k, 64);
    ShrUnique(Pow2(f + 1), k, 64);
    Pow2Monotone(k, f + 1);
  }

  lemma FloorBound(c: Class)
    requires 1 <= c.fl && 0 <= c.sl < MAX_SLI
    ensures Pow2(c.fl + 6) <= Floor(c)
  {
    assert Pow2(5) == 32;
    ShlPow2(5, c.fl + 1);
    ShlMonotone(32, MAX_SLI + c.sl, c.fl + 1);
  }

  lemma CeilingBound(c: Class)
    requires 0 <= c.fl && 0 <= c.sl < MAX_SLI
    ensures Ceiling(c) <= Pow2(c.fl + 7)
  {
    assert Pow2(6) == 64 && Pow2(7) == 128;
    if c.fl > 0 {
      ShlPow2(6, c.fl + 1);
      ShlMonotone(MAX_SLI + (c.sl + 1), 64, c.fl + 1);
    }
  }

  /** A class ends where the next one starts. */
  lemma ClassesOrdered(c: Class, d: Class)
    requires 0 <= c.fl && 0 <= c.sl < MAX_SLI && 0 <= d.fl && 0 <= d.sl < MAX_SLI
    requires c.Index() < d.Index()
    ensures Ceiling(c) <= Floor(d)
  {
    if c.fl == d.fl {
      ShlMonotone(MAX_SLI + (c.sl + 1), MAX_SLI + d.sl, c.fl + 1);
    } else {
      CeilingBound(c);
      FloorBound(d);
      Pow2Monotone(c.fl + 7, d.fl + 6);
    }
  }

  /** The bitmap search is exact: a block belongs to a class at or above the one searched
      from if and only if it is at least as large as the rounded request. */
  lemma SearchExact(r: nat, s: nat)
    requires r <= MAX_ROUNDED && r % 8 == 0 && s < 0x1_0000_0000
    ensures MappingSearch(r).cls.Index() <= MappingInsert(s).Index() <==> MappingSearch(r).size <= s
  {
    var a := MappingSearch(r);
    var c := MappingInsert(s);
    if a.cls.Index() < c.Index() {
      ClassesOrdered(a.cls, c);
    } else if c.Index() < a.cls.Index() {
      ClassesOrdered(c, a.cls);
    } else {
      assert a.cls == c;
    }
  }

  /** The class of the search is in the matrix up to MAX_REQUEST, and again where rounding wraps;
      there the rounded size is 0. So the search is for what was asked exactly up to MAX_REQUEST. */
  lemma SearchInMatrix(size: nat)
    requires size < 0x1_0000_0000
    ensures Adjust(size) < 0x1_0000_0000
    ensures var s := MappingSearch(Adjust(size));
      && (s.cls.InMatrix() <==> size <= MAX_REQUEST || size >= MAX_ROUNDED + 0x41)
      && (size > MAX_ROUNDED ==> s.size == 0)
      && (s.cls.InMatrix() && size <= s.size <==> size <= MAX_REQUEST)
  {
    if size <= MAX_ROUNDED {
      AdjustRange(size);
      LowInMatrix(Adjust(size));
    } else {
      AdjustHigh(size);
    }
  }

  lemma AdjustHigh(size: nat)
    requires MAX_ROUNDED < size < 0x1_0000_0000
    ensures Adjust(size) == 0 || MAX_ROUNDED < Adjust(size) < 0x1_0000_0000
    ensures Adjust(size) == 0 ==> size >= MAX_ROUNDED + 0x41
    ensures Adjust(size) > MAX_ROUNDED ==> (Adjust(size) >= MAX_ROUNDED + 0x41 <==> size >= MAX_ROUNDED + 0x41)
  {
    if size > 0x1_0000_0000 - 8 { RequestWraps(size); }
  }

  lemma AdjustRange(size: nat)
    requires size <= MAX_ROUNDED
    ensures size <= Adjust(size) <= MAX_ROUNDED && (Adjust(size) <= MAX_REQUEST <==> size <= MAX_REQUEST)
  {
  }

  lemma LowInMatrix(r: nat)
    requires r <= MAX_ROUNDED
    ensures MappingSearch(r).cls.InMatrix() <==> r <= MAX_REQUEST
  {
    Powers();
    if Pow2(29) <= r < Pow2(30) {
      MsBitUnique(r, 29);
      TopSlack(r + (Pow2(24) - 1));
    }
  }

  lemma TopSlack(x: nat)
    ensures Shl(Shr(x, 24), 24) < MAX_SIZE <==> x < MAX_SIZE
  {
    Powers();
    ShlPow2(6, 24);
    ShrBounds(x, 24);
    ShlMonotone(Shr(x, 24) + 1, 64, 24);
    ShlMonotone(64, Shr(x, 24), 24);
  }

  /** The seven largest requests wrap to a request for nothing. */
  lemma RequestWraps(size: nat)
    requires 0x1_0000_0000 - 8 < size < 0x1_0000_0000
    ensures Adjust(size) == 0
  {
  }
}
