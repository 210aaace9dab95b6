/** A run of `add_new_area` that leaves two free blocks side by side. */
module TlsfGap {
  import opened TlsfBlocks
  import opened TlsfLists
  import opened TlsfState
  import opened TlsfAreas
  import opened TlsfMerge
  import opened TlsfProgress
  import opened TlsfWalk
  import opened Tlsf

  /** No area reaches into the bytes from `lo` to `hi` or touches them. */
  predicate Apart(A: Areas, lo: int, hi: int) { forall i | i in A :: A[i] + OVERHEAD < lo || hi < i }

  /** Where an area of `size` bytes may be added. */
  predicate Place(area: int, size: int)
  {
    0 < area && area % 4 == 0 && 40 <= size < SPAN_LIMIT && size % 8 == 0 && area + size <= ADDRESS_LIMIT
  }

  /** Nothing is allocated and no remark is lost. Below, `== true` lets the verifier hand the predicate on
      as a whole, without unfolding it. */
  ghost predicate Unused(pool: Pool)
    reads pool
  {
    pool.Valid() && Tight(pool.H) && pool.Allocations() == map[]
  }

  lemma ApartRemains(o: Start, mem: Memory, head: int)
    requires Tiled(o.H, o.A) && Chained(mem, head, o.A, o.chain) && o.lo < o.hi && Apart(o.A, o.lo, o.hi + OVERHEAD)
    ensures First(o.A, o.lo) == o.lo && Extended(o.A, o.lo, o.hi) == o.A[o.lo := o.hi]
    ensures Remaining(o, |o.chain|) == o.chain && !LosesFlag(o)
  {
    forall q | 0 <= q < |o.chain| ensures o.chain[q] in o.A && !Joined(o, o.chain[q]) {
      assert InfoOk(mem, o.A, o.chain, q) && BlockOk(o.H, o.A, o.chain[q]);
    }
    AllRemain(o, |o.chain|);
    assert o.A - {o.hi + OVERHEAD} == o.A;
  }

  /** An area of whole blocks is filled completely. */
  lemma PlaceFilled(size: int)
    requires size % 8 == 0
    ensures AreaBlock(size) == size - 32
  {
  }

  /** An area that touches no other becomes the first of the list. */
  method AddApart(pool: Pool, area: int, size: int)
    requires Unused(pool) == true && Place(area, size) && Apart(pool.A, area, area + size)
    modifies pool
    ensures Unused(pool) == true && pool.A == old(pool.A)[area := area + size - OVERHEAD]
    ensures pool.chain == [area] + old(pool.chain)
  {
    PlaceFilled(size);
    ghost var o := Start(pool.H, pool.A, pool.chain, area, area + 24 + AreaBlock(size));
    ApartRemains(o, pool.mem, pool.areaHead);
    assert Extended(o.A, o.lo, o.hi) == o.A[area := area + size - OVERHEAD];
    var r := pool.AddNewArea(area, size);
  }

  /** The gap between two areas, of which the first was added last. */
  ghost predicate Gap(pool: Pool, area: int, gap: int, size: int)
    reads pool
  {
    var next := gap + size;
    && Unused(pool) && area in pool.A && area + 16 < pool.A[area] && pool.A[area] + OVERHEAD == gap
    && |pool.chain| >= 2 && pool.chain[0] == area && pool.chain[1] == next
    && next in pool.A && Place(gap, size) && Disjoint(pool.A, gap, next) && pool.A[next] - area < SPAN_LIMIT
  }

  lemma GapLosesFlag(pool: Pool, area: int, gap: int, size: int)
    requires Gap(pool, area, gap, size) == true
    ensures AreaBlock(size) == size - 32
    ensures First(pool.A, gap) == area && Last(pool.A, gap + 24 + AreaBlock(size)) == pool.A[gap + size]
    ensures LosesFlag(Start(pool.H, pool.A, pool.chain, gap, gap + 24 + AreaBlock(size)))
  {
    PlaceFilled(size);
    var o := Start(pool.H, pool.A, pool.chain, gap, gap + 24 + AreaBlock(size));
    FirstIs(o, area);
    forall b | b in pool.H ensures !IsLive(pool.H, pool.A, b) { NoneLive(pool.mem, pool.H, pool.A, b); }
    AllFreed(pool.H, pool.A, area);
    assert BlockOk(pool.H, pool.A, area + 16);
    assert o.chain[0] == area && o.chain[1] == o.hi + OVERHEAD;
  }

  method FillGap(pool: Pool, area: int, gap: int, size: int)
    requires Gap(pool, area, gap, size) == true
    modifies pool
    ensures pool.Valid() && !Coalesced(pool.mem, pool.H)
  {
    GapLosesFlag(pool, area, gap, size);
    var r := pool.AddNewArea(gap, size);
  }

  lemma GapMade(pool: Pool, A: Areas, A1: Areas, chain: seq<int>, chain1: seq<int>, area: int, size: int, at: int, next: int)
    requires Unused(pool) == true && Apart(A, area, at + next) && at + next - area < SPAN_LIMIT
    requires A1 == A[at := at + next - OVERHEAD] && pool.A == A1[area := area + size - OVERHEAD]
    requires 40 <= size && Place(area + size, at - area - size) && 40 <= next
    requires chain1 == [at] + chain && pool.chain == [area] + chain1
    ensures Gap(pool, area, area + size, at - area - size) == true
  {
  }

  /** An area, then one before it. */
  method AddTwo(pool: Pool, area: int, size: int, gap: int, next: int)
    requires Unused(pool) == true && Apart(pool.A, area, area + size + gap + next) && size + gap + next < SPAN_LIMIT
    requires Place(area, size) && Place(area + size, gap) && Place(area + size + gap, next)
    modifies pool
    ensures Gap(pool, area, area + size, gap) == true
  {
    ghost var A, chain := pool.A, pool.chain;
    var at := area + size + gap;
    AddApart(pool, at, next);
    ghost var A1, chain1 := pool.A, pool.chain;
    AddApart(pool, area, size);
    GapMade(pool, A, A1, chain, chain1, area, size, at, next);
  }

  /** With the gap between them: two free blocks side by side. */
  method AddThree(pool: Pool, area: int, size: int, gap: int, next: int)
    requires Unused(pool) == true && Apart(pool.A, area, area + size + gap + next) && size + gap + next < SPAN_LIMIT
    requires Place(area, size) && Place(area + size, gap) && Place(area + size + gap, next)
    modifies pool
    ensures pool.Valid() && !Coalesced(pool.mem, pool.H)
  {
    AddTwo(pool, area, size, gap, next);
    FillGap(pool, area, area + size, gap);
  }

  /** From `init_memory_pool` on. */
  method LoseFlag(pool: Pool)
    requires Covers(pool.mem.Keys, 4096, 12288)
    modifies pool
    ensures pool.Valid() && !Coalesced(pool.mem, pool.H)
  {
    var r := pool.InitMemoryPool(8192, 4096, false);
    AddThree(pool, 0x10000, 64, 64, 64);
  }
}
