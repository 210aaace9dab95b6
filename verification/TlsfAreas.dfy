/** Areas of memory: laying out a fresh one, and joining neighbouring ones. */
module TlsfAreas {
  import opened TlsfBits
  import opened TlsfMapping
  import opened TlsfBlocks
  import opened TlsfLists
  import opened TlsfState

  /** sizeof(tlsf_t) on the 32-bit target: three words, 24 second-level bitmaps, 24 x 32 heads. */
  const CONTROL_SIZE := 3180

  /** `ROUNDDOWN_SIZE`. */
  function RoundDown(r: int): int { r - r % 8 }

  /** Bytes of the block that `process_area` makes of an area of `size` bytes. */
  function AreaBlock(size: int): int { RoundDown(size - 3 * OVERHEAD - MIN_BLOCK) }

  lemma AreaBlockFits(size: int)
    ensures AreaBlock(size) <= size - 32
  {
  }

  /** The first area lies behind the control structure, rounded up, but its length is computed from
      the unrounded size: it stays inside the pool if and only if the pool size is 0 to 3 modulo 8. */
  lemma FirstAreaFits(size: nat)
    requires CONTROL_SIZE <= size
    ensures RoundUp(CONTROL_SIZE) + RoundDown(size - CONTROL_SIZE) <= size <==> size % 8 < 4
  {
    assert RoundUp(CONTROL_SIZE) == 3184;
  }

  /** Nothing outside `lo .. hi` differs, and no word is lost. */
  ghost predicate OnlyRegion(mem: Memory, mem': Memory, lo: int, hi: int)
  {
    mem.Keys <= mem'.Keys && forall a | a in mem && !(lo <= a < hi) :: mem'[a] == mem[a]
  }

  /** Writes to a region that meets no area leave the allocator alone. */
  lemma RegionKept(mem: Memory, mem': Memory, H: Blocks, A: Areas, L: Listed, S: Blocks, M: Matrix, lo: int, hi: int)
    requires Tiled(H, A) && Filed(H, L) && Disjoint(A, lo, hi) && lo < hi && OnlyRegion(mem, mem', lo, hi)
    requires Linked(mem, L, M) && Stored(mem, S) && S.Keys == H.Keys && Backed(mem.Keys, A)
    ensures Linked(mem', L, M) && Stored(mem', S) && Backed(mem'.Keys, A)
  {
    forall x | x in L ensures Prev(x) in mem ==> mem'[Prev(x)] == mem[Prev(x)] {
      OldBlockOutside(H, A, lo, hi, x);
    }
    forall x | x in L ensures Succ(x) in mem ==> mem'[Succ(x)] == mem[Succ(x)] {
      OldBlockOutside(H, A, lo, hi, x);
    }
    LinkedFrame(mem, mem', L, M);
    forall c | c in S ensures HeaderOk(mem', S, c) {
      assert HeaderOk(mem, S, c);
      OldBlockOutside(H, A, lo, hi, c);
    }
    forall i | i in A ensures Covers(mem'.Keys, i, A[i] + OVERHEAD) {
      assert Covers(mem.Keys, i, A[i] + OVERHEAD);
    }
  }

  lemma RegionChained(mem: Memory, mem': Memory, H: Blocks, A: Areas, lo: int, hi: int, head: int, chain: seq<int>)
    requires Tiled(H, A) && Disjoint(A, lo, hi) && lo < hi && OnlyRegion(mem, mem', lo, hi)
    requires Chained(mem, head, A, chain)
    ensures Chained(mem', head, A, chain)
  {
    forall k | 0 <= k < |chain| ensures InfoOk(mem', A, chain, k) {
      assert InfoOk(mem, A, chain, k) && BlockOk(H, A, chain[k]);
      OldBlockOutside(H, A, lo, hi, chain[k]);
    }
  }

  lemma RegionView(mem: Memory, mem': Memory, H: Blocks, A: Areas, lo: int, hi: int)
    requires Tiled(H, A) && Disjoint(A, lo, hi) && lo < hi && OnlyRegion(mem, mem', lo, hi) && Backed(mem.Keys, A)
    ensures View(mem', H, A) == View(mem, H, A)
  {
    forall c | c in View(mem, H, A) ensures View(mem', H, A)[c] == View(mem, H, A)[c] {
      OldBlockOutside(H, A, lo, hi, c);
      BlockBacked(mem.Keys, H, A, c);
      assert BlockOk(H, A, c);
      assert Words(mem', c + OVERHEAD, H[c].size / 4) == Words(mem, c + OVERHEAD, H[c].size / 4);
    }
  }

  // ----- a fresh area -----

  /** What the headers of a fresh area say: the sentinel already follows a free block. */
  function NewStored(S: Blocks, ib: int, s: int, p: int, q: int): Blocks
  {
    S[ib := Block(MIN_BLOCK, false, false, p, ib, false)][ib + 16 := Block(s, false, false, q, ib, false)]
     [ib + 24 + s := Block(0, false, true, ib + 16, ib, false)]
  }

  lemma NewAreaStored(mem: Memory, S: Blocks, ib: int, s: int)
    requires Stored(mem, S) && s % 8 == 0 && s >= MIN_BLOCK
    requires {Size(ib), PrevHdr(ib), Size(ib + 16), PrevHdr(ib + 16), Size(ib + 24 + s), PrevHdr(ib + 24 + s)} <= mem.Keys
    requires mem[Size(ib)] == 8 && mem[Size(ib + 16)] == s
    requires mem[Size(ib + 24 + s)] == 2 && mem[PrevHdr(ib + 24 + s)] == ib + 16
    requires ib !in S && ib + 16 !in S && ib + 24 + s !in S
    ensures Stored(mem, NewStored(S, ib, s, mem[PrevHdr(ib)], mem[PrevHdr(ib + 16)]))
  {
    var S' := NewStored(S, ib, s, mem[PrevHdr(ib)], mem[PrevHdr(ib + 16)]);
    forall c | c in S' ensures HeaderOk(mem, S', c) {
      if c in S { assert HeaderOk(mem, S, c); }
    }
  }

  lemma NewAreaTruthful(H: Blocks, A: Areas, S: Blocks, L: Listed, ib: int, s: int, p: int, q: int)
    requires Tiled(H, A) && S.Keys == H.Keys && Truthful(H, S, {}) && Complete(H, L, {}) && Filed(H, L)
    requires ib !in H && ib + 16 !in H && ib + 24 + s !in H && s >= MIN_BLOCK
    ensures var H', S' := NewArea(H, ib, s), NewStored(S, ib, s, p, q);
      S'.Keys == H'.Keys && Truthful(H', S', {ib + 24 + s}) && Complete(H', L, {}) && Filed(H', L)
  {
    var H', S' := NewArea(H, ib, s), NewStored(S, ib, s, p, q);
    assert S'.Keys == H'.Keys;
    forall c | c in H' && c != ib + 24 + s ensures True(H', S', c) {
      if c in H { assert True(H, S, c); }
    }
  }

  /** The words of a fresh area. */
  predicate AreaWritten(mem: Memory, ib: int, s: int)
  {
    && {Size(ib), PrevHdr(ib), Size(ib + 16), PrevHdr(ib + 16), Size(ib + 24 + s), PrevHdr(ib + 24 + s)} <= mem.Keys
    && mem[Size(ib)] == 8 && mem[Size(ib + 16)] == s
    && mem[Size(ib + 24 + s)] == 2 && mem[PrevHdr(ib + 24 + s)] == ib + 16
    && Prev(ib) in mem && Succ(ib) in mem && mem[Prev(ib)] == ib + 24 + s && mem[Succ(ib)] == 0
  }

  predicate AreaRoom(A: Areas, ib: int, s: int)
  {
    && 0 < ib && ib % 4 == 0 && MIN_BLOCK <= s && s % 8 == 0
    && s + 24 < SPAN_LIMIT && ib + s + 32 <= ADDRESS_LIMIT && Disjoint(A, ib, ib + 32 + s)
  }

  lemma AreaCells(dom: set<int>, ib: int, s: int)
    requires ib % 4 == 0 && s % 8 == 0 && s >= MIN_BLOCK && Covers(dom, ib, ib + 32 + s)
    ensures {Size(ib), PrevHdr(ib), Size(ib + 16), PrevHdr(ib + 16), Size(ib + 24 + s), PrevHdr(ib + 24 + s)} <= dom
    ensures {Prev(ib), Succ(ib), Prev(ib + 16), Succ(ib + 16)} <= dom
  {
    var hi, q := ib + 32 + s, s / 8;
    Cells(dom, ib, hi, 0);
    Cells(dom, ib, hi, 2);
    Cells(dom, ib, hi, 4);
    assert s == 8 * q;
    Cells(dom, ib, hi, 6);
    Cells(dom, ib, hi, 6 + 2 * q);
  }

  lemma Cells(dom: set<int>, lo: int, hi: int, k: nat)
    requires lo % 4 == 0 && lo + 4 * k + 4 < hi && Covers(dom, lo, hi)
    ensures lo + 4 * k in dom && lo + 4 * k + 4 in dom
  {
    assert (lo + 4 * k) % 4 == 0 && (lo + 4 * k + 4) % 4 == 0;
  }

  lemma NewAreaSound(m: Memory, mem: Memory, H: Blocks, A: Areas, L: Listed, S: Blocks, M: Matrix, ib: int, s: int,
                     H': Blocks, A': Areas, S': Blocks)
    requires Linked(m, L, M) && Tiled(H, A) && Backed(m.Keys, A) && Stored(m, S) && S.Keys == H.Keys && Filed(H, L)
    requires Truthful(H, S, {}) && Complete(H, L, {}) && AreaRoom(A, ib, s) && AreaWritten(mem, ib, s)
    requires Covers(mem.Keys, ib, ib + 32 + s) && OnlyRegion(m, mem, ib, ib + 32 + s)
    requires H' == NewArea(H, ib, s) && A' == A[ib := ib + 24 + s]
    requires S' == NewStored(S, ib, s, mem[PrevHdr(ib)], mem[PrevHdr(ib + 16)])
    ensures ib !in A && Linked(mem, L, M) && Tiled(H', A') && Backed(mem.Keys, A')
    ensures Stored(mem, S') && S'.Keys == H'.Keys && Filed(H', L)
    ensures Truthful(H', S', {ib + 24 + s}) && Complete(H', L, {}) && TrueButPrev(H', S', ib + 24 + s)
  {
    RegionKept(m, mem, H, A, L, S, M, ib, ib + 32 + s);
    NewAreaTiled(H, A, ib, s);
    NewAreaStored(mem, S, ib, s);
    NewAreaTruthful(H, A, S, L, ib, s, mem[PrevHdr(ib)], mem[PrevHdr(ib + 16)]);
  }

  // ----- the first area -----

  /** `init_memory_pool` accepts the pool. */
  predicate Accepted(size: int, pool: int)
  {
    pool != 0 && CONTROL_SIZE + 8 * OVERHEAD <= size && pool % 4 == 0
  }

  /** The one block of a pool of `size` bytes. */
  function FirstBlock(size: int): int { AreaBlock(RoundDown(size - CONTROL_SIZE)) }

  /** The end of the first area. */
  function FirstEnd(size: int, pool: int): int { pool + RoundUp(CONTROL_SIZE) + 32 + FirstBlock(size) }

  predicate FirstRoom(size: int, pool: int) { FirstBlock(size) + 24 < SPAN_LIMIT && FirstEnd(size, pool) <= ADDRESS_LIMIT }

  lemma FirstBlockSize(size: int)
    requires CONTROL_SIZE + 8 * OVERHEAD <= size
    ensures FirstBlock(size) == RoundDown(size - CONTROL_SIZE) - 32 >= MIN_BLOCK && FirstBlock(size) % 8 == 0
  {
    var d := RoundDown(size - CONTROL_SIZE);
    assert d % 8 == 0 && (d - 32) % 8 == 0;
  }

  lemma FirstAreaRoom(size: int, pool: int)
    requires Accepted(size, pool) && 0 < pool && FirstRoom(size, pool)
    ensures var ib, s := pool + RoundUp(CONTROL_SIZE), FirstBlock(size);
      AreaRoom(map[], ib, s) && MIN_BLOCK <= s && (ib + 32 + s <= pool + size <==> size % 8 < 4)
  {
    FirstAreaFits(size);
    FirstBlockSize(size);
    assert RoundUp(CONTROL_SIZE) == 3184;
  }

  function EmptyMatrix(): Matrix { seq(REAL_FLI, _ => seq(MAX_SLI, _ => 0)) }
  function EmptyBitmap(): seq<Word> { seq(REAL_FLI, _ => ZERO) }

  lemma EmptyIndexed(mem: Memory)
    ensures Linked(mem, map[], EmptyMatrix()) && BitmapsOk(EmptyMatrix(), EmptyBitmap(), ZERO)
  {
    var M := EmptyMatrix();
    forall c: Class | c.InMatrix() ensures HeadOk(mem, map[], M, c) { }
  }

  /** The record of an area on its own survives the release of its block. */
  lemma FirstChained(m: Memory, mem: Memory, ib: int, s: int)
    requires AreaWritten(m, ib, s) && s >= MIN_BLOCK && Touched(m, mem, {ib + 16}, {ib, ib + 16, ib + 24 + s})
    ensures Chained(mem, ib + OVERHEAD, map[ib := ib + 24 + s], [ib])
  {
    var D := {ib, ib + 16, ib + 24 + s};
    assert ib + 8 !in D && ib + 4 !in D && ib !in {ib + 16} && ib - 4 !in {ib + 16};
    assert mem[ib + 8] == m[ib + 8];
    assert ib + 12 !in D && ib + 8 !in D && ib + 4 !in {ib + 16} && ib !in {ib + 16};
    assert mem[ib + 12] == m[ib + 12];
    assert InfoOk(mem, map[ib := ib + 24 + s], [ib], 0);
  }

  /** A fresh area holds no allocation once its block is free. */
  lemma FirstView(mem: Memory, H: Blocks, H': Blocks, A: Areas, ib: int, s: int)
    requires Tiled(H', A) && H == NewArea(map[], ib, s) && A == map[ib := ib + 24 + s] && s >= MIN_BLOCK
    requires SameUsed(H, H', {ib + 16}) && ib + 16 in H' && H'[ib + 16].free
    ensures View(mem, H', A) == map[]
  {
    forall c | c in H' ensures !IsLive(H', A, c) {
      assert BlockOk(H', A, c);
    }
  }

  /** The area on its own after its block has been freed. */
  lemma FirstFreed(m: Memory, mem: Memory, H: Blocks, H': Blocks, A: Areas, ib: int, s: int)
    requires Tiled(H', A) && H == NewArea(map[], ib, s) && A == map[ib := ib + 24 + s] && s >= MIN_BLOCK
    requires SameUsed(H, H', {ib + 16}) && ib + 16 in H' && H'[ib + 16].free && H'[ib + 16].size == s
    requires AreaWritten(m, ib, s) && Touched(m, mem, {ib + 16}, {ib, ib + 16, ib + 24 + s})
    ensures H'.Keys == {ib, ib + 16, ib + 24 + s} && Tight(H') && View(mem, H', A) == map[] && Separated(A)
    ensures Chained(mem, ib + OVERHEAD, A, [ib])
  {
    FirstKeys(H', A, ib, s);
    FirstChained(m, mem, ib, s);
    FirstView(mem, H, H', A, ib, s);
  }

  lemma FirstReady(H: Blocks, A: Areas, ib: int, s: int)
    requires H == NewArea(map[], ib, s) && A == map[ib := ib + 24 + s] && s >= MIN_BLOCK
    ensures ib + 16 in H && IsLive(H, A, ib + 16) && !H[ib + 16].prevFree && Complete(H, map[], {ib + 24 + s})
    ensures ib + 24 + s in H && Next(H, ib + 16) == ib + 24 + s && !H[ib + 24 + s].free && Beyond(H, ib + 16) == ib + 24 + s
  {
  }

  lemma FirstKeys(H: Blocks, A: Areas, ib: int, s: int)
    requires Tiled(H, A) && A == map[ib := ib + 24 + s] && s >= MIN_BLOCK
    requires ib + 16 in H && Next(H, ib + 16) == ib + 24 + s
    ensures H.Keys == {ib, ib + 16, ib + 24 + s}
  {
    assert BlockOk(H, A, ib);
    forall c | c in H ensures c in {ib, ib + 16, ib + 24 + s} {
      assert BlockOk(H, A, c);
      assert Ordered(H, ib, c) && Ordered(H, ib + 16, c);
    }
  }

  lemma OneArea(A: Areas, ib: int, end: int)
    requires A == map[]
    ensures A[ib := end] == map[ib := end]
  {
  }
}
