/** What a valid pool looks like: walking its areas from header to header. */
module TlsfWalk {
  import opened TlsfMapping
  import opened TlsfBlocks
  import opened TlsfLists
  import opened TlsfState

  // ----- tiling -----

  /** The headers from `b` to the sentinel of its area. */
  ghost function Walk(H: Blocks, A: Areas, b: int): (w: seq<int>)
    requires Tiled(H, A) && b in H
    ensures |w| > 0 && w[0] == b
    decreases WalkLength(H, A, b)
  {
    assert BlockOk(H, A, b);
    if IsSentinel(H, A, b) then [b] else
      assert BlockOk(H, A, Next(H, b));
      [b] + Walk(H, A, Next(H, b))
  }

  ghost function WalkLength(H: Blocks, A: Areas, b: int): nat
    requires Tiled(H, A) && b in H
  {
    assert BlockOk(H, A, b);
    A[H[b].area] - b
  }

  /** Headers and payloads of the given blocks, in bytes. */
  ghost function Bytes(H: Blocks, w: seq<int>): int
    requires forall i | 0 <= i < |w| :: w[i] in H
  {
    if w == [] then 0 else OVERHEAD + H[w[0]].size + Bytes(H, w[1..])
  }

  /** The walk visits exactly the blocks of the area that lie at or after its start. */
  lemma {:induction false} WalkVisits(H: Blocks, A: Areas, b: int, c: int)
    requires Tiled(H, A) && b in H
    ensures c in Walk(H, A, b) <==> c in H && H[c].area == H[b].area && b <= c
    decreases WalkLength(H, A, b)
  {
    assert BlockOk(H, A, b);
    assert c in H ==> BlockOk(H, A, c);
    if !IsSentinel(H, A, b) {
      assert BlockOk(H, A, Next(H, b));
      WalkVisits(H, A, Next(H, b), c);
      assert c in H ==> Ordered(H, b, c);
    }
  }

  /** It visits them in the order of their addresses. */
  lemma {:induction false} WalkAscends(H: Blocks, A: Areas, b: int, i: nat, j: nat)
    requires Tiled(H, A) && b in H && i < j < |Walk(H, A, b)|
    ensures Walk(H, A, b)[i] < Walk(H, A, b)[j]
    decreases WalkLength(H, A, b)
  {
    assert BlockOk(H, A, b);
    if !IsSentinel(H, A, b) {
      var n := Next(H, b);
      assert BlockOk(H, A, n);
      if i > 0 {
        WalkAscends(H, A, n, i - 1, j - 1);
      } else {
        WalkVisits(H, A, n, Walk(H, A, n)[j - 1]);
      }
    }
  }

  /** Conservation: the blocks of an area account for every byte of it. */
  lemma {:induction false} WalkBytes(H: Blocks, A: Areas, b: int)
    requires Tiled(H, A) && b in H
    ensures H[b].area in A && (forall i | 0 <= i < |Walk(H, A, b)| :: Walk(H, A, b)[i] in H)
    ensures Bytes(H, Walk(H, A, b)) == A[H[b].area] + OVERHEAD - b
    decreases WalkLength(H, A, b)
  {
    assert BlockOk(H, A, b);
    if !IsSentinel(H, A, b) {
      assert BlockOk(H, A, Next(H, b));
      WalkBytes(H, A, Next(H, b));
      assert Walk(H, A, b)[1..] == Walk(H, A, Next(H, b));
    }
  }

  /** Each block of the walk follows the one before it, and the last is the sentinel. */
  lemma {:induction false} WalkSteps(H: Blocks, A: Areas, b: int)
    requires Tiled(H, A) && b in H
    ensures var w := Walk(H, A, b);
      && H[b].area in A && w[|w| - 1] == A[H[b].area] && (forall k | 0 <= k < |w| :: w[k] in H && H[w[k]].area == H[b].area)
      && forall k | 0 <= k < |w| - 1 :: w[k + 1] == Next(H, w[k])
    decreases WalkLength(H, A, b)
  {
    assert BlockOk(H, A, b);
    if !IsSentinel(H, A, b) {
      assert BlockOk(H, A, Next(H, b));
      WalkSteps(H, A, Next(H, b));
      assert Walk(H, A, b) == [b] + Walk(H, A, Next(H, b));
    }
  }

  lemma NoneLive(mem: Memory, H: Blocks, A: Areas, b: int)
    requires Layout(H) && View(mem, H, A) == map[] && b in H
    ensures !IsLive(H, A, b)
  {
    assert b !in View(mem, H, A);
  }

  /** An area without live allocations and lost remarks is a single free block, unless it has no room
      for one. */
  lemma AllFreed(H: Blocks, A: Areas, i: int)
    requires Tiled(H, A) && i in A && (forall b | b in H && H[b].area == i :: !IsLive(H, A, b) && !H[b].lost)
    ensures i + 16 in H && (i + 16 == A[i] || (H[i + 16].free && H[i + 16].size == A[i] - i - 24))
    ensures Walk(H, A, i) == if i + 16 == A[i] then [i, i + 16] else [i, i + 16, A[i]]
  {
    var n := i + 16;
    assert BlockOk(H, A, i) && BlockOk(H, A, A[i]);
    assert BlockOk(H, A, n);
    if n == A[i] {
      assert Walk(H, A, n) == [n];
    } else {
      assert BlockOk(H, A, Next(H, n));
      assert !IsLive(H, A, n) && !IsLive(H, A, Next(H, n));
      assert Walk(H, A, n) == [n] + Walk(H, A, A[i]);
    }
  }

  // ----- what the headers in memory say -----

  /** For every block but the sentinels: the header behind it says that the block is free, and where
      it starts, only if that is so. Unless it has lost that remark, it says so whenever it is so, and
      then its own block is not free. */
  lemma HeadersExact(mem: Memory, H: Blocks, A: Areas, S: Blocks, b: int)
    requires Tiled(H, A) && Stored(mem, S) && S.Keys == H.Keys && Truthful(H, S, {})
    requires b in H && !IsSentinel(H, A, b)
    ensures Next(H, b) in H && {Size(b), Size(Next(H, b)), PrevHdr(Next(H, b))} <= mem.Keys
    ensures SizeBits(mem[Size(b)]) == H[b].size
    ensures PrevFreeBit(mem[Size(Next(H, b))]) ==> FreeBit(mem[Size(b)]) && mem[PrevHdr(Next(H, b))] == b
    ensures FreeBit(mem[Size(b)]) && !H[Next(H, b)].lost ==>
      PrevFreeBit(mem[Size(Next(H, b))]) && !FreeBit(mem[Size(Next(H, b))])
  {
    var n := Next(H, b);
    assert BlockOk(H, A, b);
    assert HeaderOk(mem, S, b) && HeaderOk(mem, S, n) && True(H, S, b) && True(H, S, n);
    Decode(S[b]);
    Decode(S[n]);
  }

  // ----- the free lists -----

  /** The free block `b` is on the list that `MAPPING_INSERT` names for its size, once, and on no
      other; the lists hold nothing else. */
  lemma FreeBlocksListed(mem: Memory, H: Blocks, L: Listed, M: Matrix, top: nat, c: Class)
    requires Linked(mem, L, M) && Filed(H, L) && Complete(H, L, {}) && (forall x | x in L :: L[x].stamp < top)
    requires c.InMatrix()
    ensures forall b :: b in FreeList(mem, L, M, c) <==> b in H && H[b].free && MappingInsert(H[b].size) == c
    ensures forall i, j | 0 <= i < j < |FreeList(mem, L, M, c)| :: FreeList(mem, L, M, c)[i] != FreeList(mem, L, M, c)[j]
  {
    FreeListExact(mem, L, M, c, top);
  }

  // ----- the live allocations -----

  /** A live allocation lies in an area, in backed memory. */
  lemma LiveInside(mem: Memory, H: Blocks, A: Areas, b: int)
    requires Tiled(H, A) && Backed(mem.Keys, A) && b in View(mem, H, A)
    ensures H[b].area in A && H[b].area + 16 <= b && b + OVERHEAD + 4 * |View(mem, H, A)[b]| <= A[H[b].area]
    ensures Covers(mem.Keys, b, b + OVERHEAD + 4 * |View(mem, H, A)[b]|)
  {
    assert BlockOk(H, A, b);
    BlockInArea(H, A, b);
    BlockBacked(mem.Keys, H, A, b);
    assert BlockOk(H, A, H[b].area);
    assert Ordered(H, H[b].area, b);
  }

  /** Live allocations do not overlap, headers included. */
  lemma LiveApart(mem: Memory, H: Blocks, A: Areas, b: int, c: int)
    requires Tiled(H, A) && b in View(mem, H, A) && c in View(mem, H, A) && b != c
    ensures b + OVERHEAD + 4 * |View(mem, H, A)[b]| <= c || c + OVERHEAD + 4 * |View(mem, H, A)[c]| <= b
  {
    assert BlockOk(H, A, b) && BlockOk(H, A, c);
    assert Ordered(H, b, c) && Ordered(H, c, b);
  }
}
