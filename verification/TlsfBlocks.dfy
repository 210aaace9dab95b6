/** The physical side of the pool: block headers by address, tiling the areas.

    A block at address `b` has an 8-byte header and `size` payload bytes, so its physical
    successor starts at `b + 8 + size`. An area runs from its first header, the 8-byte block
    that holds its `area_info_t`, to its sentinel, a used block of size 0. */
module TlsfBlocks {

  const OVERHEAD := 8
  const MIN_BLOCK := 8
  const SPAN_LIMIT := 0x4000_0000
  const ADDRESS_LIMIT := 0x1_0000_0000

  /** One header. `prevHdr` means something only when `prevFree` holds. Not stored in memory are
      `area`, the first header of the area the block belongs to, and `lost`: the remark that the
      predecessor is free has been lost, so that the block may follow a free block without saying
      so, or as a free block itself. */
  datatype Block = Block(size: int, free: bool, prevFree: bool, prevHdr: int, area: int, lost: bool)

  type Blocks = map<int, Block>

  /** First header to sentinel, for every area. */
  type Areas = map<int, int>

  /** `GET_NEXT_BLOCK(b->ptr.buffer, b->size & BLOCK_SIZE)`. */
  function Next(H: Blocks, b: int): int
    requires b in H
  {
    b + OVERHEAD + H[b].size
  }

  predicate IsFirst(H: Blocks, b: int)
    requires b in H
  {
    b == H[b].area
  }

  predicate IsSentinel(H: Blocks, A: Areas, b: int)
    requires b in H
  {
    H[b].area in A && b == A[H[b].area]
  }

  predicate AreasOk(H: Blocks, A: Areas)
  {
    && (forall i | i in A :: 0 < i < A[i] < i + SPAN_LIMIT && A[i] + OVERHEAD <= ADDRESS_LIMIT && i % 4 == 0)
    && (forall i | i in A :: i in H && H[i].area == i && A[i] in H && H[A[i]].area == i)
    && (forall i, j | i in A && j in A && i < j :: A[i] + OVERHEAD <= j)
  }

  /** A block lies in its area, and agrees with its physical neighbours. */
  predicate BlockOk(H: Blocks, A: Areas, b: int)
    requires b in H
  {
    var k := H[b];
    && k.area in A && k.area <= b <= A[k.area] && b % 4 == 0 && k.size % 8 == 0
    && (b == k.area ==> !k.free && !k.prevFree && k.size == MIN_BLOCK)
    && (b == A[k.area] ==> !k.free && k.size == 0)
    && (b != A[k.area] ==>
          && k.size >= MIN_BLOCK
          && Next(H, b) in H
          && H[Next(H, b)].area == k.area
          && (H[Next(H, b)].prevFree ==> k.free && H[Next(H, b)].prevHdr == b)
          && (!H[Next(H, b)].lost ==> H[Next(H, b)].prevFree == k.free && !(k.free && H[Next(H, b)].free)))
    && (k.prevFree ==> k.prevHdr in H && H[k.prevHdr].free && Next(H, k.prevHdr) == b)
  }

  predicate Ordered(H: Blocks, b: int, c: int)
    requires b in H && c in H
  {
    b < c ==> Next(H, b) <= c
  }

  /** Blocks do not overlap. */
  predicate Layout(H: Blocks)
  {
    && (forall b | b in H :: 0 <= H[b].size)
    && (forall b, c {:trigger Ordered(H, b, c)} | b in H && c in H :: Ordered(H, b, c))
  }

  predicate Tiled(H: Blocks, A: Areas)
  {
    && AreasOk(H, A)
    && Layout(H)
    && forall b {:trigger BlockOk(H, A, b)} | b in H :: BlockOk(H, A, b)
  }

  /** No remark has been lost. */
  predicate Tight(H: Blocks) { forall b | b in H :: !H[b].lost }

  /** `b` may come to follow a free block. */
  predicate MayFollow(H: Blocks, b: int)
    requires b in H
  {
    H[b].free ==> H[b].lost
  }

  /** `b` may become free, as far as its predecessor is concerned. */
  predicate MayFree(H: Blocks, b: int)
    requires b in H
  {
    H[b].prevFree ==> H[b].lost
  }

  lemma OneBefore(H: Blocks, b: int, c: int)
    requires Layout(H) && b in H && c in H
    ensures Next(H, b) == Next(H, c) ==> b == c
  {
    assert Ordered(H, b, c) && Ordered(H, c, b);
  }

  // ----- the four elementary changes -----

  function Use(H: Blocks, b: int): Blocks
    requires b in H && Next(H, b) in H
  {
    var n := Next(H, b);
    H[b := H[b].(free := false)][n := H[n].(prevFree := false)]
  }

  /** `told`: the block after `b` is told so. */
  function Release(H: Blocks, b: int, told: bool): Blocks
    requires b in H && Next(H, b) in H
  {
    var n := Next(H, b);
    H[b := H[b].(free := true)][n := H[n].(prevFree := told, prevHdr := b)]
  }

  function Join(H: Blocks, b: int): Blocks
    requires b in H && Next(H, b) in H
  {
    var n := Next(H, b);
    (H - {n})[b := H[b].(size := H[b].size + OVERHEAD + H[n].size)]
  }

  function Split(H: Blocks, b: int, s: int): Blocks
    requires b in H
  {
    H[b := H[b].(size := s)][b + OVERHEAD + s := Block(H[b].size - s - OVERHEAD, false, false, 0, H[b].area, false)]
  }

  lemma UseTiled(H: Blocks, A: Areas, b: int)
    requires Tiled(H, A) && b in H && H[b].free
    ensures Next(H, b) in H && Tiled(Use(H, b), A)
  {
    assert BlockOk(H, A, b);
    var H' := Use(H, b);
    assert H'.Keys == H.Keys;
    assert AreasOk(H', A);
    forall c, d | c in H' && d in H' ensures Ordered(H', c, d) {
      assert Ordered(H, c, d);
    }
    forall c | c in H' ensures BlockOk(H', A, c) {
      UseBlock(H, A, b, c);
    }
  }

  lemma UseBlock(H: Blocks, A: Areas, b: int, c: int)
    requires Tiled(H, A) && b in H && H[b].free && Next(H, b) in H && c in H
    ensures BlockOk(Use(H, b), A, c)
  {
    assert BlockOk(H, A, b) && BlockOk(H, A, c);
    OneBefore(H, b, c);
  }

  lemma ReleaseTiled(H: Blocks, A: Areas, b: int, told: bool)
    requires Tiled(H, A) && b in H && !H[b].free && MayFree(H, b)
    requires !IsFirst(H, b) && !IsSentinel(H, A, b)
    requires Next(H, b) in H && MayFollow(H, Next(H, b)) && (told || H[Next(H, b)].lost)
    ensures Tiled(Release(H, b, told), A)
  {
    var H' := Release(H, b, told);
    assert H'.Keys == H.Keys;
    assert AreasOk(H', A);
    forall c, d | c in H' && d in H' ensures Ordered(H', c, d) {
      assert Ordered(H, c, d);
    }
    forall c | c in H' ensures BlockOk(H', A, c) {
      ReleaseBlock(H, A, b, told, c);
    }
  }

  lemma ReleaseBlock(H: Blocks, A: Areas, b: int, told: bool, c: int)
    requires Tiled(H, A) && b in H && !H[b].free && MayFree(H, b)
    requires !IsFirst(H, b) && !IsSentinel(H, A, b)
    requires Next(H, b) in H && MayFollow(H, Next(H, b)) && (told || H[Next(H, b)].lost) && c in H
    ensures BlockOk(Release(H, b, told), A, c)
  {
    assert BlockOk(H, A, b) && BlockOk(H, A, Next(H, b)) && BlockOk(H, A, c);
    OneBefore(H, b, c);
  }

  lemma JoinTiled(H: Blocks, A: Areas, b: int)
    requires Tiled(H, A) && b in H && !H[b].free
    requires !IsFirst(H, b) && !IsSentinel(H, A, b)
    requires Next(H, b) in H && !H[Next(H, b)].free && !IsSentinel(H, A, Next(H, b))
    ensures Tiled(Join(H, b), A)
  {
    var n := Next(H, b);
    assert BlockOk(H, A, b) && BlockOk(H, A, n);
    var H' := Join(H, b);
    assert H'.Keys == H.Keys - {n};
    assert AreasOk(H', A) by {
      forall i | i in A ensures i in H' && A[i] in H' { assert BlockOk(H, A, i) && BlockOk(H, A, A[i]); }
    }
    assert Layout(H') by {
      forall c, d | c in H' && d in H' ensures Ordered(H', c, d) {
        assert Ordered(H, c, d) && Ordered(H, n, d);
      }
    }
    forall c | c in H' ensures BlockOk(H', A, c) {
      JoinBlock(H, A, b, c);
    }
  }

  lemma JoinBlock(H: Blocks, A: Areas, b: int, c: int)
    requires Tiled(H, A) && b in H && !H[b].free
    requires !IsFirst(H, b) && !IsSentinel(H, A, b)
    requires Next(H, b) in H && !H[Next(H, b)].free && !IsSentinel(H, A, Next(H, b))
    requires c in Join(H, b)
    ensures BlockOk(Join(H, b), A, c)
  {
    assert BlockOk(H, A, b) && BlockOk(H, A, Next(H, b)) && BlockOk(H, A, c);
    OneBefore(H, b, c);
  }

  lemma SplitTiled(H: Blocks, A: Areas, b: int, s: int)
    requires Tiled(H, A) && b in H && !H[b].free
    requires !IsFirst(H, b) && !IsSentinel(H, A, b)
    requires MIN_BLOCK <= s && s % 8 == 0 && s + OVERHEAD + MIN_BLOCK <= H[b].size
    ensures b + OVERHEAD + s !in H
    ensures Tiled(Split(H, b, s), A)
  {
    assert BlockOk(H, A, b);
    var H', r := Split(H, b, s), b + OVERHEAD + s;
    assert r in H ==> Ordered(H, b, r);
    forall c, d | c in H' && d in H' ensures Ordered(H', c, d) {
      assert c in H && d in H ==> Ordered(H, c, d);
      assert c == r && d in H ==> Ordered(H, b, d);
      assert d == r && c in H ==> Ordered(H, c, b) && Ordered(H, b, c);
    }
    forall c | c in H' ensures BlockOk(H', A, c) {
      SplitBlock(H, A, b, s, c);
    }
  }

  lemma SplitBlock(H: Blocks, A: Areas, b: int, s: int, c: int)
    requires Tiled(H, A) && b in H && !H[b].free
    requires !IsFirst(H, b) && !IsSentinel(H, A, b)
    requires MIN_BLOCK <= s && s % 8 == 0 && s + OVERHEAD + MIN_BLOCK <= H[b].size
    requires b + OVERHEAD + s !in H && c in Split(H, b, s)
    ensures BlockOk(Split(H, b, s), A, c)
  {
    assert BlockOk(H, A, b);
    assert BlockOk(H, A, Next(H, b));
    if c in H && c != b {
      assert BlockOk(H, A, c);
      OneBefore(H, b, c);
    } else {
      SplitAligned(b, s, H[b].size);
    }
  }

  lemma SplitAligned(b: int, s: int, size: int)
    requires b % 4 == 0 && s % 8 == 0 && size % 8 == 0
    ensures (b + OVERHEAD + s) % 4 == 0 && (size - s - OVERHEAD) % 8 == 0
  {
  }

  // ----- areas -----

  /** Headers and control words of a fresh area whose single block has `s` bytes. */
  function NewArea(H: Blocks, ib: int, s: int): Blocks
  {
    H[ib := Block(MIN_BLOCK, false, false, 0, ib, false)][ib + 16 := Block(s, false, false, 0, ib, false)]
     [ib + 24 + s := Block(0, false, false, 0, ib, false)]
  }

  /** The area does not meet the region `lo .. hi`. */
  predicate Disjoint(A: Areas, lo: int, hi: int) { forall i | i in A :: A[i] + OVERHEAD <= lo || hi <= i }

  ghost predicate NewAreaFits(H: Blocks, A: Areas, ib: int, s: int)
  {
    && Tiled(H, A) && 0 < ib && ib % 4 == 0 && MIN_BLOCK <= s && s % 8 == 0
    && 24 + s < SPAN_LIMIT && ib + 32 + s <= ADDRESS_LIMIT && Disjoint(A, ib, ib + 32 + s)
  }

  lemma NewAreaTiled(H: Blocks, A: Areas, ib: int, s: int)
    requires NewAreaFits(H, A, ib, s)
    ensures ib !in A && ib !in H && ib + 16 !in H && ib + 24 + s !in H
    ensures Tiled(NewArea(H, ib, s), A[ib := ib + 24 + s])
  {
    var H', A' := NewArea(H, ib, s), A[ib := ib + 24 + s];
    NewAreaLayout(H, A, ib, s);
    NewAreaAreas(H, A, ib, s);
    forall c | c in H' ensures BlockOk(H', A', c) {
      if c in H { NewAreaBlock(H, A, ib, s, c); } else { NewAreaOwn(H, A, ib, s, c); }
    }
  }

  lemma NewAreaOwn(H: Blocks, A: Areas, ib: int, s: int, c: int)
    requires NewAreaFits(H, A, ib, s) && c in {ib, ib + 16, ib + 24 + s}
    ensures BlockOk(NewArea(H, ib, s), A[ib := ib + 24 + s], c)
  {
    Aligned(ib, s);
  }

  lemma Aligned(ib: int, s: int)
    requires ib % 4 == 0 && s % 8 == 0
    ensures (ib + 16) % 4 == 0 && (ib + 24 + s) % 4 == 0
  {
  }

  lemma NewAreaLayout(H: Blocks, A: Areas, ib: int, s: int)
    requires NewAreaFits(H, A, ib, s)
    ensures ib !in H && ib + 16 !in H && ib + 24 + s !in H && Layout(NewArea(H, ib, s))
  {
    var H' := NewArea(H, ib, s);
    forall c | c in H ensures Outside(H, ib, ib + 32 + s, c) {
      OldBlockOutside(H, A, ib, ib + 32 + s, c);
    }
    assert Outside(H, ib, ib + 32 + s, ib) || ib !in H;
    forall c, d | c in H' && d in H' ensures Ordered(H', c, d) {
      assert c in H && d in H ==> Ordered(H, c, d);
      assert c in H ==> Outside(H, ib, ib + 32 + s, c);
      assert d in H ==> Outside(H, ib, ib + 32 + s, d);
    }
  }

  lemma NewAreaAreas(H: Blocks, A: Areas, ib: int, s: int)
    requires NewAreaFits(H, A, ib, s) && ib !in H && ib + 16 !in H && ib + 24 + s !in H
    ensures ib !in A && AreasOk(NewArea(H, ib, s), A[ib := ib + 24 + s])
  {
  }

  predicate Outside(H: Blocks, lo: int, hi: int, c: int)
  {
    c in H ==> 0 <= H[c].size && (Next(H, c) <= lo || hi <= c) && !(lo <= c < hi)
  }

  lemma OldBlockOutside(H: Blocks, A: Areas, lo: int, hi: int, c: int)
    requires Tiled(H, A) && c in H && Disjoint(A, lo, hi) && lo < hi
    ensures Outside(H, lo, hi, c)
  {
    assert BlockOk(H, A, c);
    if c != A[H[c].area] { assert BlockOk(H, A, Next(H, c)); }
  }

  lemma NewAreaBlock(H: Blocks, A: Areas, ib: int, s: int, c: int)
    requires Tiled(H, A) && c in H && MIN_BLOCK <= s && Disjoint(A, ib, ib + 32 + s)
    ensures c in NewArea(H, ib, s) && BlockOk(NewArea(H, ib, s), A[ib := ib + 24 + s], c)
  {
    assert BlockOk(H, A, c);
    OldBlockOutside(H, A, ib, ib + 32 + s, c);
    if c != A[H[c].area] { OldBlockOutside(H, A, ib, ib + 32 + s, Next(H, c)); }
    if H[c].prevFree { OldBlockOutside(H, A, ib, ib + 32 + s, H[c].prevHdr); }
  }

  /** Area `j` begins where area `i` ends: the sentinel of `i` becomes a used block over the
      first block of `j`, and `i` now ends with the sentinel of `j`. */
  function Bridge(H: Blocks, A: Areas, i: int, j: int): Blocks
    requires i in A
  {
    map x | x in H && x != j ::
      if x == A[i] then Block(16, false, H[x].prevFree, H[x].prevHdr, i, H[x].lost)
      else if H[x].area == j then H[x].(area := i) else H[x]
  }

  function BridgeAreas(A: Areas, i: int, j: int): Areas
    requires j in A
  {
    (A - {j})[i := A[j]]
  }

  lemma BridgeTiled(H: Blocks, A: Areas, i: int, j: int)
    requires Tiled(H, A) && i in A && j in A && i != j && A[i] + OVERHEAD == j && A[j] - i < SPAN_LIMIT
    ensures Tiled(Bridge(H, A, i, j), BridgeAreas(A, i, j))
  {
    var H', A' := Bridge(H, A, i, j), BridgeAreas(A, i, j);
    assert BlockOk(H, A, j) && BlockOk(H, A, i) && BlockOk(H, A, A[i]) && BlockOk(H, A, A[j]);
    assert AreasOk(H', A');
    forall c, d | c in H' && d in H' ensures Ordered(H', c, d) {
      assert Ordered(H, c, d) && Ordered(H, j, d);
    }
    forall c | c in H' ensures BlockOk(H', A', c) {
      BridgeBlock(H, A, i, j, c);
    }
  }

  lemma BridgeBlock(H: Blocks, A: Areas, i: int, j: int, c: int)
    requires Tiled(H, A) && i in A && j in A && i != j && A[i] + OVERHEAD == j && A[j] - i < SPAN_LIMIT
    requires c in Bridge(H, A, i, j)
    ensures BlockOk(Bridge(H, A, i, j), BridgeAreas(A, i, j), c)
  {
    assert BlockOk(H, A, c) && BlockOk(H, A, i) && BlockOk(H, A, j) && BlockOk(H, A, A[i]);
    assert Ordered(H, c, A[i]) && Ordered(H, c, j) && Ordered(H, j, c);
    if c != A[H[c].area] { assert BlockOk(H, A, Next(H, c)); }
    if H[c].prevFree { assert BlockOk(H, A, H[c].prevHdr); }
  }
}
