/** How memory words stand for the block headers. */
module TlsfState {
  import opened TlsfBits
  import opened TlsfMapping
  import opened TlsfBlocks
  import opened TlsfLists

  /** The `size` word: bit 0 says free, bit 1 says that the physical predecessor is free. */
  function SizeWord(k: Block): int { k.size + (if k.free then 1 else 0) + (if k.prevFree then 2 else 0) }

  /** `w & BLOCK_SIZE`, `w & FREE_BLOCK`, `w & PREV_FREE` and `w & PREV_STATE`. */
  function SizeBits(w: int): int { w - w % 4 }
  predicate FreeBit(w: int) { w % 2 == 1 }
  predicate PrevFreeBit(w: int) { w / 2 % 2 == 1 }
  function PrevState(w: int): int { if PrevFreeBit(w) then 2 else 0 }

  /** `w |= FREE_BLOCK`, `w &= ~FREE_BLOCK`, `w |= PREV_FREE` and `w &= ~PREV_FREE`. */
  function OrFree(w: int): int { if FreeBit(w) then w else w + 1 }
  function ClearFree(w: int): int { if FreeBit(w) then w - 1 else w }
  function OrPrevFree(w: int): int { if PrevFreeBit(w) then w else w + 2 }
  function ClearPrevFree(w: int): int { if PrevFreeBit(w) then w - 2 else w }

  /** Reading the parts of a size word back. */
  lemma Decode(k: Block)
    requires k.size % 8 == 0
    ensures SizeBits(SizeWord(k)) == k.size && FreeBit(SizeWord(k)) == k.free && PrevFreeBit(SizeWord(k)) == k.prevFree
  {
    DecodeWord(SizeWord(k), 2 * (k.size / 8), SizeWord(k) - k.size);
  }

  lemma DecodeWord(w: int, q: int, r: int)
    requires w == 4 * q + r && 0 <= r < 4
    ensures SizeBits(w) == 4 * q && (FreeBit(w) <==> r == 1 || r == 3) && (PrevFreeBit(w) <==> r >= 2)
  {
    Fours(w, q, r);
    if r < 2 {
      Twos(w, 2 * q, r);
      Twos(2 * q, q, 0);
    } else {
      Twos(w, 2 * q + 1, r - 2);
      Twos(2 * q + 1, q, 1);
    }
  }

  lemma Fours(w: int, q: int, r: int)
    requires w == 4 * q + r && 0 <= r < 4
    ensures w / 4 == q && w % 4 == r
  {
  }

  lemma Twos(w: int, q: int, r: int)
    requires w == 2 * q + r && 0 <= r < 2
    ensures w / 2 == q && w % 2 == r
  {
  }

  /** Addresses of `b->prev_hdr` and `b->size`. */
  function PrevHdr(b: int): int { b }
  function Size(b: int): int { b + 4 }

  predicate HeaderOk(mem: Memory, S: Blocks, b: int)
    requires b in S
  {
    && PrevHdr(b) in mem && Size(b) in mem && S[b].size % 8 == 0
    && mem[Size(b)] == SizeWord(S[b]) && mem[PrevHdr(b)] == S[b].prevHdr
  }

  /** `S` is what the headers in memory say. */
  predicate Stored(mem: Memory, S: Blocks)
  {
    forall b {:trigger HeaderOk(mem, S, b)} | b in S :: HeaderOk(mem, S, b)
  }

  /** What the header of `b` says is so. */
  predicate True(H: Blocks, S: Blocks, b: int)
    requires b in H && b in S
  {
    && S[b].size == H[b].size && S[b].free == H[b].free && S[b].prevFree == H[b].prevFree
    && (H[b].prevFree ==> S[b].prevHdr == H[b].prevHdr)
  }

  /** All headers, those of the blocks in `X` apart, say what is so. */
  predicate Truthful(H: Blocks, S: Blocks, X: set<int>)
    requires S.Keys == H.Keys
  {
    forall b {:trigger True(H, S, b)} | b in H && b !in X :: True(H, S, b)
  }

  lemma TruthfulWrite(H: Blocks, S: Blocks, X: set<int>, b: int, k: Block)
    requires S.Keys == H.Keys && b in H && Truthful(H, S, X)
    ensures Truthful(H, S[b := k], X + {b})
    ensures True(H, S[b := k], b) ==> Truthful(H, S[b := k], X)
  {
    var S' := S[b := k];
    forall c | c in H && c !in X && c != b ensures True(H, S', c) {
      assert True(H, S, c);
    }
  }

  lemma TruthfulAll(H: Blocks, S: Blocks, S': Blocks, b: int, t: int)
    requires S.Keys == H.Keys && b in H && t in H && t != b && Truthful(H, S, {b, t}) && True(H, S, b)
    requires TrueButPrev(H, S, t) && !H[t].prevFree
    requires S'.Keys == S.Keys && S'[t].(prevHdr := 0) == S[t].(prevFree := false, prevHdr := 0)
    requires forall c | c in S && c != t :: S'[c] == S[c]
    ensures Truthful(H, S', {})
  {
    forall c | c in H ensures True(H, S', c) {
      assert c != b && c != t ==> True(H, S, c);
    }
  }

  /** What the header of `b` says of its predecessor is so. */
  predicate PrevTrue(H: Blocks, S: Blocks, b: int)
    requires b in H && b in S
  {
    S[b].prevFree == H[b].prevFree && (H[b].prevFree ==> S[b].prevHdr == H[b].prevHdr)
  }

  /** The header of `b` is wrong at most in what it says of its predecessor. */
  predicate TrueButPrev(H: Blocks, S: Blocks, b: int)
    requires b in H && b in S
  {
    S[b].size == H[b].size && S[b].free == H[b].free
  }

  /** The used blocks other than those in `E` are the same, and no further remark is lost. */
  predicate SameUsed(H: Blocks, H': Blocks, E: set<int>)
  {
    && (forall c | c in H && !H[c].free && c !in E ::
          c in H' && !H'[c].free && H'[c].size == H[c].size && H'[c].area == H[c].area)
    && (forall c | c in H' && !H'[c].free && c !in E :: c in H && !H[c].free)
    && NoNewLoss(H, H')
  }

  /** No further remark is lost. */
  predicate NoNewLoss(H: Blocks, H': Blocks) { forall c | c in H' && H'[c].lost :: c in H && H[c].lost }

  /** The blocks before `b` are the same. */
  predicate SameBelow(H: Blocks, H': Blocks, b: int) { forall c | c in H && c < b :: c in H' && H'[c] == H[c] }

  /** Only words at `W` differ. */
  predicate SameElsewhere(mem: Memory, mem': Memory, W: set<int>)
  {
    mem'.Keys == mem.Keys && forall a | a in mem && a !in W :: mem'[a] == mem[a]
  }

  /** The words behind the link words of `s`, up to the next header. */
  predicate SameInside(mem: Memory, mem': Memory, s: int, n: int)
  {
    forall a | a in mem && s + 16 <= a < n :: a in mem' && mem'[a] == mem[a]
  }

  /** A free block that ends at `e` holds the one at `b`. */
  ghost predicate FreeExtent(H: Blocks, b: int, e: int)
  {
    exists s :: s in H && H[s].free && s <= b && Next(H, s) == e
  }

  /** Listed blocks are under their size's class and have room for their link words. */
  predicate Filed(H: Blocks, L: Listed)
  {
    forall b | b in L :: b in H && MIN_BLOCK <= H[b].size < SPAN_LIMIT && L[b].cls == MappingInsert(H[b].size)
  }

  /** The free blocks, and they alone (those in `X` apart), are listed. */
  predicate Complete(H: Blocks, L: Listed, X: set<int>)
  {
    forall b | b in H && b !in X :: H[b].free <==> b in L
  }

  /** Every word of `lo .. hi` is backed. */
  ghost predicate Covers(dom: set<int>, lo: int, hi: int)
  {
    forall a | lo <= a < hi && a % 4 == 0 :: a in dom
  }

  ghost predicate Backed(dom: set<int>, A: Areas)
  {
    forall i | i in A :: Covers(dom, i, A[i] + OVERHEAD)
  }

  lemma BlockInArea(H: Blocks, A: Areas, b: int)
    requires Tiled(H, A) && b in H
    ensures H[b].area in A && 0 < b && 0 <= H[b].size < SPAN_LIMIT && b % 4 == 0
    ensures H[b].area <= b && Next(H, b) <= A[H[b].area] + OVERHEAD
    ensures !IsSentinel(H, A, b) ==> Next(H, b) in H && Next(H, b) <= A[H[b].area] && MIN_BLOCK <= H[b].size
  {
    assert BlockOk(H, A, b);
    if !IsSentinel(H, A, b) { assert BlockOk(H, A, Next(H, b)); }
  }

  /** The words of a block are backed. */
  lemma BlockBacked(dom: set<int>, H: Blocks, A: Areas, b: int)
    requires Tiled(H, A) && Backed(dom, A) && b in H
    ensures Covers(dom, b, Next(H, b))
    ensures PrevHdr(b) in dom && Size(b) in dom
    ensures MIN_BLOCK <= H[b].size ==> Prev(b) in dom && Succ(b) in dom
  {
    BlockInArea(H, A, b);
    assert Covers(dom, H[b].area, A[H[b].area] + OVERHEAD);
  }

  // ----- what writes leave alone -----

  /** Only header words of the blocks in `D` and link words of the blocks in `K` differ. */
  predicate Touched(mem: Memory, mem': Memory, K: set<int>, D: set<int>)
  {
    mem'.Keys == mem.Keys &&
    forall a | a in mem :: mem'[a] == mem[a] || a in D || a - 4 in D || a - 8 in K || a - 12 in K
  }

  /** The words from `lo` up to `hi` are unchanged. */
  ghost predicate Kept(mem: Memory, mem': Memory, lo: int, hi: int)
  {
    forall a | lo <= a < hi && a in mem :: a in mem' && mem'[a] == mem[a]
  }

  /** Blocks with room for link words. */
  predicate Linkable(H: Blocks, K: set<int>)
  {
    forall x | x in K :: x in H && MIN_BLOCK <= H[x].size
  }

  /** Header words are not link words, and headers do not overlap. */
  lemma HeaderClear(H: Blocks, K: set<int>, c: int)
    requires Layout(H) && Linkable(H, K) && c in H
    ensures c - 8 !in K && c - 12 !in K && c + 4 - 8 !in K && c + 4 - 12 !in K
    ensures c - 4 !in H && c + 4 !in H
  {
    assert forall x | x in K :: Ordered(H, x, c);
    assert c - 4 in H ==> Ordered(H, c - 4, c);
    assert c + 4 in H ==> Ordered(H, c, c + 4);
  }

  lemma LinkableSpaced(H: Blocks, K: set<int>)
    requires Layout(H) && Linkable(H, K)
    ensures Spaced(K)
  {
    forall b, c | b in K && c in K && b != c ensures Apart(b, c) {
      assert Ordered(H, b, c) && Ordered(H, c, b);
    }
  }

  /** Link writes leave the headers alone. */
  lemma StoredFrame(mem: Memory, mem': Memory, H: Blocks, S: Blocks, K: set<int>)
    requires Stored(mem, S) && S.Keys <= H.Keys && Layout(H) && Linkable(H, K) && SameBut(mem, mem', K)
    ensures Stored(mem', S)
  {
    forall b | b in S ensures HeaderOk(mem', S, b) {
      assert HeaderOk(mem, S, b);
      HeaderClear(H, K, b);
    }
  }

  /** Link writes miss what lies behind the link words of `s`. */
  lemma InsideFrame(mem: Memory, mem': Memory, H: Blocks, K: set<int>, s: int)
    requires Layout(H) && Linkable(H, K) && SameBut(mem, mem', K) && s in H
    ensures SameInside(mem, mem', s, Next(H, s))
  {
    forall x | x in K ensures x + 16 <= s || x == s || Next(H, s) <= x {
      assert Ordered(H, x, s) && Ordered(H, s, x);
    }
  }

  /** A write to the header of `b` changes that header only. */
  lemma StoredWrite(mem: Memory, mem': Memory, H: Blocks, S: Blocks, b: int, k: Block)
    requires Stored(mem, S) && S.Keys <= H.Keys && Layout(H) && b in H
    requires mem'.Keys == mem.Keys && forall a | a in mem :: mem'[a] == mem[a] || a == Size(b) || a == PrevHdr(b)
    requires HeaderOk(mem', S[b := k], b)
    ensures Stored(mem', S[b := k])
  {
    HeaderClear(H, {}, b);
    var S' := S[b := k];
    forall c | c in S' ensures HeaderOk(mem', S', c) {
      if c != b { assert HeaderOk(mem, S, c); }
    }
  }

  lemma LinkedWrite(mem: Memory, mem': Memory, H: Blocks, L: Listed, M: Matrix, b: int)
    requires Linked(mem, L, M) && Layout(H) && Linkable(H, L.Keys) && b in H
    requires mem'.Keys == mem.Keys && forall a | a in mem :: mem'[a] == mem[a] || a == Size(b) || a == PrevHdr(b)
    ensures Linked(mem', L, M)
  {
    HeaderClear(H, L.Keys, b);
    LinkedFrame(mem, mem', L, M);
  }

  /** A size word that becomes the header of the new block `r`. */
  lemma HeaderAdded(mem: Memory, mem': Memory, H: Blocks, L: Listed, S: Blocks, M: Matrix, r: int, k: Block)
    requires Stored(mem, S) && S.Keys <= H.Keys && Layout(H) && r in H && Linked(mem, L, M) && Linkable(H, L.Keys)
    requires Size(r) in mem && PrevHdr(r) in mem && mem' == mem[Size(r) := SizeWord(k)]
    requires k.size % 8 == 0 && k.prevHdr == mem[PrevHdr(r)]
    ensures Stored(mem', S[r := k]) && Linked(mem', L, M)
  {
    StoredWrite(mem, mem', H, S, r, k);
    LinkedWrite(mem, mem', H, L, M, r);
  }

  lemma StoredShrink(mem: Memory, S: Blocks, n: int)
    requires Stored(mem, S)
    ensures Stored(mem, S - {n})
  {
    forall c | c in S - {n} ensures HeaderOk(mem, S - {n}, c) {
      assert HeaderOk(mem, S, c);
    }
  }

  // ----- two blocks becoming one, and one two -----

  predicate IsLive(H: Blocks, A: Areas, b: int)
    requires b in H
  {
    !H[b].free && !IsFirst(H, b) && !IsSentinel(H, A, b)
  }

  /** The live block `b` takes in its free successor. */
  ghost function TakeNext(H: Blocks, b: int): Blocks
    requires b in H && Next(H, b) in H && Next(H, Next(H, b)) in H && H[Next(H, b)].size > 0
  {
    Join(Use(H, Next(H, b)), b)
  }

  lemma TakeNextTiled(H: Blocks, A: Areas, b: int)
    requires Tiled(H, A) && b in H && IsLive(H, A, b) && Next(H, b) in H && H[Next(H, b)].free
    ensures var n := Next(H, b); Next(H, n) in H && H[n].size > 0 && MayFollow(H, Next(H, n)) && Next(H, n) != b
    ensures var n, H' := Next(H, b), TakeNext(H, b);
      && Tiled(H', A) && IsLive(H', A, b) && Next(H', b) == Next(H, n)
      && H' == (H - {n})[b := H[b].(size := H[b].size + OVERHEAD + H[n].size)]
                        [Next(H, n) := H[Next(H, n)].(prevFree := false)]
  {
    var n := Next(H, b);
    assert BlockOk(H, A, b) && BlockOk(H, A, n);
    BlockInArea(H, A, n);
    UseTiled(H, A, n);
    JoinTiled(Use(H, n), A, b);
  }

  /** The free predecessor of the live block `b` takes it in, and is used then. */
  ghost function TakePrev(H: Blocks, b: int): Blocks
    requires b in H && H[b].prevHdr in H && Next(H, H[b].prevHdr) == b && H[H[b].prevHdr].size > 0
  {
    Join(Use(H, H[b].prevHdr), H[b].prevHdr)
  }

  lemma TakePrevTiled(H: Blocks, A: Areas, b: int)
    requires Tiled(H, A) && b in H && IsLive(H, A, b) && H[b].prevFree
    ensures var p := H[b].prevHdr; p in H && Next(H, p) == b && H[p].size > 0 && H[p].free && MayFree(H, p)
    ensures var p, H' := H[b].prevHdr, TakePrev(H, b);
      && Tiled(H', A) && IsLive(H', A, p) && Next(H', p) == Next(H, b)
      && H' == (H - {b})[p := H[p].(free := false, size := H[p].size + OVERHEAD + H[b].size)]
  {
    assert BlockOk(H, A, b);
    var p := H[b].prevHdr;
    assert BlockOk(H, A, p);
    assert H[p].prevFree ==> BlockOk(H, A, H[p].prevHdr);
    UseTiled(H, A, p);
    JoinTiled(Use(H, p), A, p);
  }

  /** The block after `b` and, if that is free, the one after it. */
  ghost function Beyond(H: Blocks, b: int): int
    requires b in H && Next(H, b) in H
  {
    if H[Next(H, b)].free then Next(H, Next(H, b)) else Next(H, b)
  }

  /** The payload that `b` can have where it is. */
  ghost function Room(H: Blocks, b: int): int
    requires b in H && Next(H, b) in H
  {
    Beyond(H, b) - b - OVERHEAD
  }

  /** What a block for `s` bytes gets out of `total`: all of it, if the rest is too small for a block. */
  function Fitted(total: int, s: int): int { if total - s >= OVERHEAD + MIN_BLOCK then s else total }

  /** Here and below, `== true` hands a fact over as it is, without taking it apart at the call. */
  lemma TakeNextEffects(H: Blocks, S: Blocks, A: Areas, L: Listed, X: set<int>, b: int, S': Blocks)
    requires Tiled(H, A) == true && b in H && IsLive(H, A, b) && Next(H, b) in H && H[Next(H, b)].free
    requires S.Keys == H.Keys && Truthful(H, S, X + {b}) && Complete(H, L, X) && b !in L
    requires Next(H, b) !in X && Beyond(H, b) in H && TrueButPrev(H, S, Beyond(H, b)) && Beyond(H, b) != b
    requires S'.Keys == S.Keys - {Next(H, b)} && forall c | c in S' && c != b :: S'[c] == S[c]
    ensures H[Next(H, b)].size > 0
    ensures var n, t, H' := Next(H, b), Beyond(H, b), TakeNext(H, b);
      && b in H' && t in H' && Next(H', b) == t && MayFollow(H', t) && H'[b] == H[b].(size := H'[b].size)
      && H'[t] == H[t].(prevFree := false)
      && IsLive(H', A, b) && S'.Keys == H'.Keys && TrueButPrev(H', S', t)
      && SameUsed(H, H', {b}) && Truthful(H', S', X + {b, t}) && Complete(H', L - {n}, X)
      && SameBelow(H, H', b) && H'.Keys <= H.Keys
  {
    TakeNextTiled(H, A, b);
    var n, t, H' := Next(H, b), Beyond(H, b), TakeNext(H, b);
    forall c | c in H' && c !in X + {b, t} ensures True(H', S', c) {
      assert True(H, S, c);
    }
  }

  lemma TakePrevEffects(H: Blocks, S: Blocks, A: Areas, L: Listed, X: set<int>, b: int)
    requires Tiled(H, A) && b in H && IsLive(H, A, b) && H[b].prevFree && H[b].prevHdr !in X && Next(H, b) in H
    requires S.Keys == H.Keys && Truthful(H, S, X + {b, Next(H, b)}) && Complete(H, L, X) && b !in L
    requires TrueButPrev(H, S, Next(H, b)) && MayFollow(H, Next(H, b))
    ensures var p, t := H[b].prevHdr, Next(H, b);
      p in H && Next(H, p) == b && H[p].size > 0 && H[p].free && MayFree(H, p) && p != t && True(H, S, p)
    ensures var p, t, H' := H[b].prevHdr, Next(H, b), TakePrev(H, b);
      && p in H' && t in H' && Next(H', p) == t && H'[t] == H[t] && MayFree(H', p) && PrevTrue(H', S, p)
      && IsLive(H', A, p)
      && SameUsed(H, H', {b, p}) && SameBelow(H, H', p) && H'.Keys <= H.Keys
      && var S' := (S - {b})[p := S[p].(size := H'[p].size)];
         && S'.Keys == H'.Keys && TrueButPrev(H', S', t) && S'[p].free
         && Truthful(H', S', X + {p, t}) && Complete(H', L - {p}, X)
  {
    TakePrevTiled(H, A, b);
    var p, t, H' := H[b].prevHdr, Next(H, b), TakePrev(H, b);
    BlockInArea(H, A, b);
    BlockInArea(H, A, p);
    var S' := (S - {b})[p := S[p].(size := H'[p].size)];
    assert True(H, S, p);
    forall c | c in H' && c !in X + {p, t} ensures True(H', S', c) {
      assert True(H, S, c);
    }
  }

  lemma ReleaseEffects(H: Blocks, S: Blocks, A: Areas, L: Listed, L': Listed, X: set<int>, s: int)
    requires Tiled(H, A) == true && s in H && IsLive(H, A, s) && MayFree(H, s) && s !in X
    requires Next(H, s) in H && MayFollow(H, Next(H, s)) && (H[Next(H, s)].free <==> Next(H, s) in L)
    requires S.Keys == H.Keys && Truthful(H, S, X + {s, Next(H, s)}) && Complete(H, L, X)
    requires TrueButPrev(H, S, Next(H, s)) && S[s].size == H[s].size && S[s].free && PrevTrue(H, S, s)
    requires L'.Keys == L.Keys + {s}
    ensures var t, H' := Next(H, s), Release(H, s, true);
      && Tiled(H', A) && Next(H', s) == t && SameUsed(H, H', {s}) && SameBelow(H, H', s)
      && var S' := S[t := S[t].(prevFree := true, prevHdr := s)];
         S'.Keys == H'.Keys && Truthful(H', S', X - {t}) && Complete(H', L', X - {t})
  {
    ReleaseTiled(H, A, s, true);
    BlockInArea(H, A, s);
    var t, H' := Next(H, s), Release(H, s, true);
    var S' := S[t := S[t].(prevFree := true, prevHdr := s)];
    forall c | c in H' && c !in X - {t} ensures True(H', S', c) {
      if c != s && c != t { assert True(H, S, c); }
    }
  }

  // ----- carving a free block off a used one -----

  ghost predicate CanCarve(H: Blocks, A: Areas, b: int, s: int)
  {
    && Tiled(H, A) && b in H && IsLive(H, A, b)
    && Next(H, b) in H && MayFollow(H, Next(H, b))
    && MIN_BLOCK <= s && s % 8 == 0 && s + OVERHEAD + MIN_BLOCK <= H[b].size
  }

  /** Where the rest starts when `b` keeps `s` bytes. */
  function Rest(b: int, s: int): int { b + OVERHEAD + s }

  /** The header of the rest, if there is room for a rest. */
  function Rests(H: Blocks, b: int, s: int): set<int>
    requires b in H
  {
    if s + OVERHEAD + MIN_BLOCK <= H[b].size then {Rest(b, s)} else {}
  }

  /** `b` keeps `s` bytes; the rest becomes a free block. */
  ghost function Carved(H: Blocks, b: int, s: int, told: bool): Blocks
    requires b in H && Next(H, b) in H
  {
    var r, n := Rest(b, s), Next(H, b);
    H[b := H[b].(size := s)][r := Block(n - r - OVERHEAD, true, false, 0, H[b].area, false)]
     [n := H[n].(prevFree := told, prevHdr := r)]
  }

  lemma CarvedTiled(H: Blocks, A: Areas, b: int, s: int, told: bool)
    requires CanCarve(H, A, b, s) && (told || H[Next(H, b)].lost)
    ensures Rest(b, s) !in H && b != Next(H, b) && Rest(b, s) != Next(H, b)
    ensures Tiled(Split(H, b, s), A) && Tiled(Carved(H, b, s, told), A)
    ensures SameUsed(H, Carved(H, b, s, told), {b})
    ensures var H1, r := Split(H, b, s), Rest(b, s);
      Next(H1, r) == Next(H, b) && Next(H, b) in H1 && Carved(H, b, s, told) == Release(H1, r, told)
  {
    BlockInArea(H, A, b);
    SplitTiled(H, A, b, s);
    var H1, r := Split(H, b, s), Rest(b, s);
    assert BlockOk(H1, A, r) && BlockOk(H, A, b) && BlockOk(H1, A, b);
    ReleaseTiled(H1, A, r, told);
    assert Carved(H, b, s, told) == Release(H1, r, told);
  }

  lemma RestBacked(dom: set<int>, H: Blocks, A: Areas, b: int, s: int)
    requires CanCarve(H, A, b, s) && Backed(dom, A)
    ensures PrevHdr(Rest(b, s)) in dom && Size(Rest(b, s)) in dom && (Next(H, b) - Rest(b, s)) % 8 == 0
  {
    BlockBacked(dom, H, A, b);
    assert BlockOk(H, A, b);
    RestAligned(b, s, H[b].size);
  }

  lemma RestAligned(b: int, s: int, size: int)
    requires b % 4 == 0 && s % 8 == 0 && size % 8 == 0
    ensures PrevHdr(Rest(b, s)) % 4 == 0 && Size(Rest(b, s)) % 4 == 0 && (size - s - OVERHEAD) % 8 == 0
  {
  }

  lemma CarvedTruthful(H: Blocks, A: Areas, S: Blocks, L: Listed, X: set<int>, b: int, s: int, p: int,
                       told: bool, H': Blocks, S': Blocks, L': Listed)
    requires CanCarve(H, A, b, s) && S.Keys == H.Keys && Truthful(H, S, X + {b, Next(H, b)}) && Complete(H, L, X)
    requires b !in X && b !in L
    requires TrueButPrev(H, S, Next(H, b)) && (H[Next(H, b)].free <==> Next(H, b) in L) && (told || H[Next(H, b)].lost)
    requires PrevTrue(H, S, b)
    requires H' == Carved(H, b, s, told) && L'.Keys == L.Keys + {Rest(b, s)}
    requires var n, r := Next(H, b), Rest(b, s);
      S' == S[r := Block(n - r - OVERHEAD, true, false, p, H[b].area, false)]
             [n := S[n].(prevFree := told, prevHdr := r)][b := S[b].(size := s, free := false)]
    ensures S'.Keys == H'.Keys && Truthful(H', S', X - {Next(H, b)}) && Complete(H', L', X - {Next(H, b)})
  {
    CarvedTiled(H, A, b, s, told);
    var n, r := Next(H, b), Rest(b, s);
    assert S'.Keys == H'.Keys;
    forall c | c in H' && c !in X - {n} ensures True(H', S', c) {
      if c != b && c != n && c != r { assert True(H, S, c); }
    }
  }

  // ----- taking a free block into use -----

  lemma UseEffects(H: Blocks, S: Blocks, A: Areas, L: Listed, b: int)
    requires Tiled(H, A) && b in H && H[b].free
    requires S.Keys == H.Keys && Truthful(H, S, {}) && Complete(H, L, {})
    ensures Next(H, b) in H
    ensures var n, H' := Next(H, b), Use(H, b);
      && Tiled(H', A) && IsLive(H', A, b) && n == Next(H', b) && n != b && MayFollow(H', n)
      && (H'[n].free <==> n in L) && H'[n].lost == H[n].lost
      && SameUsed(H, H', {b}) && H'[b] == H[b].(free := false) && H'.Keys == H.Keys
      && Truthful(H', S, {b, n}) && Complete(H', L - {b}, {})
      && TrueButPrev(H', S, n) && (S[n].prevFree || H[n].lost) && S[b].size == H[b].size && PrevTrue(H', S, b)
  {
    UseTiled(H, A, b);
    var n, H' := Next(H, b), Use(H, b);
    assert BlockOk(H, A, b) && True(H, S, b) && True(H, S, n);
    assert H[b].prevFree ==> BlockOk(H, A, H[b].prevHdr);
    forall c | c in H' && c !in {b, n} ensures True(H', S, c) {
      assert True(H, S, c);
    }
  }

  lemma UsedWhole(H: Blocks, S: Blocks, b: int, n: int, S': Blocks)
    requires S.Keys == H.Keys && b in H && n in H && n != b && Truthful(H, S, {b, n})
    requires !H[b].free && S[b].size == H[b].size && PrevTrue(H, S, b)
    requires TrueButPrev(H, S, n) && !H[n].prevFree
    requires S' == S[n := S[n].(prevFree := false)][b := S[b].(free := false)]
    ensures S'.Keys == H.Keys && Truthful(H, S', {})
  {
    assert S'.Keys == H.Keys;
    forall c | c in H ensures True(H, S', c) {
      if c != b && c != n { assert True(H, S, c); }
    }
  }

  // ----- what the client sees -----

  /** The `n` words from `lo` on. */
  function Words(mem: Memory, lo: int, n: nat): (w: seq<int>)
    ensures |w| == n
  {
    seq(n, i requires 0 <= i < n => if lo + 4 * i in mem then mem[lo + 4 * i] else 0)
  }

  /** The live allocations: the payload words of every live block, by header address. The
      pointer handed to the client is the header address plus 8. */
  ghost function View(mem: Memory, H: Blocks, A: Areas): map<int, seq<int>>
    requires Layout(H)
  {
    map b | b in H && IsLive(H, A, b) :: Words(mem, b + OVERHEAD, H[b].size / 4)
  }

  lemma ViewBytes(mem: Memory, H: Blocks, A: Areas, b: int)
    requires Tiled(H, A) && b in H && IsLive(H, A, b)
    ensures b in View(mem, H, A) && 4 * |View(mem, H, A)[b]| == H[b].size
    ensures View(mem, H, A)[b] == Words(mem, b + OVERHEAD, H[b].size / 4)
  {
    assert BlockOk(H, A, b);
    WholeWords(H[b].size);
  }

  lemma WholeWords(z: nat)
    requires z % 8 == 0
    ensures z / 4 * 4 == z
  {
  }

  lemma WordsKept(mem: Memory, mem': Memory, lo: int, n: nat)
    requires mem'.Keys == mem.Keys && Kept(mem, mem', lo, lo + 4 * n)
    ensures Words(mem', lo, n) == Words(mem, lo, n)
  {
  }

  /** Outside the extent of `b` and of the listed block after it, only headers of blocks and links
      of listed blocks are written; inside it also the headers and links of `R`. */
  predicate Confined(H: Blocks, L: Listed, K: set<int>, D: set<int>, b: int, R: set<int>)
  {
    && b in H && MIN_BLOCK <= H[b].size && Linkable(H, L.Keys) && Next(H, b) in H
    && var e := if Next(H, b) in L then Next(H, Next(H, b)) else Next(H, b);
    && (forall r | r in R :: b + OVERHEAD <= r && r + 16 <= e)
    && K <= L.Keys + {b} + R && D <= H.Keys + R
  }

  lemma OutOfTheWay(H: Blocks, x: int, c: int)
    requires Layout(H) && x in H && c in H && x != c
    ensures Next(H, x) <= c || Next(H, c) <= x
  {
    assert Ordered(H, x, c) && Ordered(H, c, x);
  }

  /** A payload word below `hi` is neither in a header nor a link word of a block in `K`. */
  lemma PayloadWord(H: Blocks, K: set<int>, c: int, a: int)
    requires Layout(H) && Linkable(H, K) && c in H && c !in K && c + OVERHEAD <= a < Next(H, c)
    ensures a !in H && a - 4 !in H && a - 8 !in K && a - 12 !in K
  {
    if a in H { OutOfTheWay(H, a, c); }
    if a - 4 in H { OutOfTheWay(H, a - 4, c); }
    if a - 8 in K { OutOfTheWay(H, a - 8, c); }
    if a - 12 in K { OutOfTheWay(H, a - 12, c); }
  }

  lemma ConfinedKept(mem: Memory, mem': Memory, H: Blocks, L: Listed, K: set<int>, D: set<int>, b: int, R: set<int>, c: int)
    requires Layout(H) && Confined(H, L, K, D, b, R) && Touched(mem, mem', K, D)
    requires c in H && c !in L && c != b
    ensures Kept(mem, mem', c + OVERHEAD, Next(H, c))
  {
    var n := Next(H, b);
    OutOfTheWay(H, b, c);
    if n in L { OutOfTheWay(H, n, c); }
    forall a | c + OVERHEAD <= a < Next(H, c) && a in mem ensures mem'[a] == mem[a] {
      PayloadWord(H, L.Keys, c, a);
      assert a !in D && a - 4 !in D && a - 8 !in K && a - 12 !in K;
    }
  }

  /** The part of `b` below `hi` is kept too if `b` is not listed and `R` lies beyond. */
  lemma OwnKept(mem: Memory, mem': Memory, H: Blocks, L: Listed, b: int, R: set<int>, hi: int)
    requires Layout(H) && Linkable(H, L.Keys) && b in H && b !in L && Touched(mem, mem', L.Keys + R, H.Keys + R)
    requires hi <= Next(H, b) && forall r | r in R :: hi <= r
    ensures Kept(mem, mem', b + OVERHEAD, hi)
  {
    forall a | b + OVERHEAD <= a < hi && a in mem ensures mem'[a] == mem[a] {
      PayloadWord(H, L.Keys, b, a);
      assert a !in H.Keys + R && a - 4 !in H.Keys + R && a - 8 !in L.Keys + R && a - 12 !in L.Keys + R;
    }
  }

  /** Allocations outside `E` are unchanged. */
  lemma ViewKept(mem: Memory, mem': Memory, H: Blocks, H': Blocks, A: Areas, L: Listed, K: set<int>, D: set<int>,
                 b: int, R: set<int>, E: set<int>, c: int)
    requires Layout(H) && Layout(H') && Confined(H, L, K, D, b, R) && Touched(mem, mem', K, D)
    requires Complete(H, L, {}) && SameUsed(H, H', E) && c !in E && c != b
    ensures c in View(mem', H', A) <==> c in View(mem, H, A)
    ensures c in View(mem, H, A) ==> View(mem', H', A)[c] == View(mem, H, A)[c]
  {
    if c in View(mem, H, A) {
      ConfinedKept(mem, mem', H, L, K, D, b, R, c);
      WordsKept(mem, mem', c + OVERHEAD, H[c].size / 4);
    }
  }

  // ----- the search against a linear scan -----

  lemma ListedHead(mem: Memory, L: Listed, M: Matrix, b: int, top: nat)
    requires Linked(mem, L, M) && b in L && forall x | x in L :: L[x].stamp < top
    ensures L[b].cls.InMatrix() && Head(M, L[b].cls) != 0
  {
    ListedReached(mem, L, M, b, top);
  }

  lemma TooSmall(mem: Memory, H: Blocks, L: Listed, M: Matrix, top: nat, r: nat, b: int)
    requires Linked(mem, L, M) && Filed(H, L) && b in L && (forall x | x in L :: L[x].stamp < top)
    requires r % 8 == 0 && r <= MAX_REQUEST && MappingSearch(r).cls.InMatrix()
    requires forall d: Class | d.InMatrix() && MappingSearch(r).cls.Index() <= d.Index() :: Head(M, d) == 0
    ensures H[b].size < MappingSearch(r).size
  {
    ListedHead(mem, L, M, b, top);
    SearchExact(r, H[b].size);
  }

  /** A listed block that is large enough is on no list that the search has passed. */
  lemma NotEarlier(mem: Memory, H: Blocks, L: Listed, M: Matrix, top: nat, r: nat, f: Class, b: int)
    requires Linked(mem, L, M) && Filed(H, L) && b in L && (forall x | x in L :: L[x].stamp < top)
    requires r % 8 == 0 && r <= MAX_REQUEST && MappingSearch(r).size <= H[b].size
    requires forall d: Class | d.InMatrix() && MappingSearch(r).cls.Index() <= d.Index() < f.Index() :: Head(M, d) == 0
    ensures f.Index() <= MappingInsert(H[b].size).Index()
  {
    ListedHead(mem, L, M, b, top);
    SearchExact(r, H[b].size);
  }

  /** The bitmap search finds a block exactly when a scan of all free blocks would find one of
      at least the rounded size, and what it finds is such a block of the smallest class. */
  lemma SearchIsScan(mem: Memory, H: Blocks, L: Listed, M: Matrix, S: seq<Word>, F: Word, top: nat, r: nat)
    requires Linked(mem, L, M) && BitmapsOk(M, S, F) && Filed(H, L) && Complete(H, L, {})
    requires forall x | x in L :: L[x].stamp < top
    requires r % 8 == 0 && r <= MAX_REQUEST && MappingSearch(r).cls.InMatrix()
    ensures var s := MappingSearch(r);
      var f := FindSuitable(M, S, F, s.cls);
      && (f.block == 0 <==> forall b | b in H && H[b].free :: H[b].size < s.size)
      && (f.block != 0 ==>
            && f.block in L && f.cls.InMatrix() && L[f.block].cls == f.cls
            && Head(M, f.cls) == f.block && GoodFit(H, f.block, s.size))
  {
    var s := MappingSearch(r);
    FindSuitableFirst(M, S, F, s.cls);
    var f := FindSuitable(M, S, F, s.cls);
    if f.block == 0 {
      forall b | b in H && H[b].free ensures H[b].size < s.size {
        TooSmall(mem, H, L, M, top, r, b);
      }
    } else {
      LargeEnough(mem, H, L, M, r, f.cls);
      forall c | c in H && H[c].free && s.size <= H[c].size < SPAN_LIMIT
        ensures MappingInsert(H[f.block].size).Index() <= MappingInsert(H[c].size).Index()
      {
        NotEarlier(mem, H, L, M, top, r, f.cls, c);
      }
    }
  }

  /** `b` is free and has `s` bytes, and no other such block is of a smaller class. */
  ghost predicate GoodFit(H: Blocks, b: int, s: nat)
  {
    && b in H && H[b].free && s <= H[b].size < SPAN_LIMIT
    && forall c | c in H && H[c].free && s <= H[c].size < SPAN_LIMIT ::
         MappingInsert(H[b].size).Index() <= MappingInsert(H[c].size).Index()
  }

  /** `z` bytes are enough for a request of `s` bytes, rounded, and leave no block over. */
  predicate RightSize(s: nat, z: int)
    requires s <= MAX_REQUEST
  {
    s <= MappingSearch(s).size <= z < MappingSearch(s).size + OVERHEAD + MIN_BLOCK
  }

  /** A request of `s` bytes was served with `z` bytes of the free block `b`. */
  ghost predicate Served(H: Blocks, b: int, s: nat, z: int)
    requires s <= MAX_REQUEST
  {
    var r := MappingSearch(s).size;
    GoodFit(H, b, r) && z == Fitted(H[b].size, r) && RightSize(s, z)
  }

  lemma LargeEnough(mem: Memory, H: Blocks, L: Listed, M: Matrix, r: nat, c: Class)
    requires Linked(mem, L, M) && Filed(H, L) && c.InMatrix() && Head(M, c) != 0
    requires r % 8 == 0 && r <= MAX_REQUEST && MappingSearch(r).cls.Index() <= c.Index()
    ensures Head(M, c) in L && L[Head(M, c)].cls == c && MappingSearch(r).size <= H[Head(M, c)].size
  {
    assert HeadOk(mem, L, M, c);
    SearchExact(r, H[Head(M, c)].size);
  }

  // ----- the list of areas -----

  /** `area_head` and the `area_info_t` records list the areas, each with its sentinel. */
  predicate Chained(mem: Memory, head: int, A: Areas, chain: seq<int>)
  {
    && head == ChainNext(chain, 0)
    && (forall i | i in A :: i in chain)
    && (forall i, j | 0 <= i < j < |chain| :: chain[i] != chain[j])
    && (forall k | 0 <= k < |chain| :: InfoOk(mem, A, chain, k))
  }

  /** The `area_info_t` at position `k` of the list. */
  function ChainNext(chain: seq<int>, k: nat): int { if k < |chain| then chain[k] + OVERHEAD else 0 }

  predicate InfoOk(mem: Memory, A: Areas, chain: seq<int>, k: nat)
    requires k < |chain|
  {
    var i := chain[k];
    && i in A && Prev(i) in mem && Succ(i) in mem
    && mem[Prev(i)] == A[i] && mem[Succ(i)] == ChainNext(chain, k + 1)
  }

  predicate Separated(A: Areas) { forall i, j | i in A && j in A :: A[i] + OVERHEAD != j }

  lemma ChainKept(mem: Memory, mem': Memory, H: Blocks, A: Areas, L: Listed, K: set<int>, D: set<int>,
                  b: int, R: set<int>, head: int, chain: seq<int>)
    requires Tiled(H, A) && Confined(H, L, K, D, b, R) && Touched(mem, mem', K, D) && !IsFirst(H, b)
    requires Complete(H, L, {}) && Chained(mem, head, A, chain)
    ensures Chained(mem', head, A, chain)
  {
    forall k | 0 <= k < |chain| ensures InfoOk(mem', A, chain, k) {
      var i := chain[k];
      assert InfoOk(mem, A, chain, k) && BlockOk(H, A, i);
      ConfinedKept(mem, mem', H, L, K, D, b, R, i);
    }
  }

  /** What allocating the free block `b` means for the client. */
  lemma AllocatedView(mem: Memory, mem': Memory, H: Blocks, H': Blocks, A: Areas, L: Listed, b: int, R: set<int>,
                      head: int, chain: seq<int>)
    requires Tiled(H, A) && Tiled(H', A) && Filed(H, L) && Complete(H, L, {}) && b in H && H[b].free
    requires Confined(H, L, L.Keys + R, H.Keys + R, b, R) && Touched(mem, mem', L.Keys + R, H.Keys + R)
    requires SameUsed(H, H', {b}) && b in H' && IsLive(H', A, b)
    requires Chained(mem, head, A, chain)
    ensures b !in View(mem, H, A) && View(mem', H', A) == View(mem, H, A)[b := View(mem', H', A)[b]]
    ensures 4 * |View(mem', H', A)[b]| == H'[b].size
    ensures Chained(mem', head, A, chain)
  {
    assert BlockOk(H, A, b);
    ViewBytes(mem', H', A, b);
    var v, v' := View(mem, H, A), View(mem', H', A);
    forall c | c != b ensures (c in v' <==> c in v) && (c in v ==> v'[c] == v[c]) {
      ViewKept(mem, mem', H, H', A, L, L.Keys + R, H.Keys + R, b, R, {b}, c);
    }
    ChainKept(mem, mem', H, A, L, L.Keys + R, H.Keys + R, b, R, head, chain);
  }

  /** The block `b` has become part of the free block `s`. */
  predicate Vacated(H: Blocks, H': Blocks, b: int, s: int)
  {
    && s in H' && H'[s].free && s <= b < Next(H', s)
    && (s == b || (s in H && H[s].free))
    && SameUsed(H, H', {b, s})
  }

  /** What freeing the live block `b` means for the client. */
  lemma FreedView(mem: Memory, mem': Memory, H: Blocks, H': Blocks, A: Areas, L: Listed, b: int, s: int,
                  head: int, chain: seq<int>)
    requires Tiled(H, A) && Tiled(H', A) && Filed(H, L) && Complete(H, L, {}) && b in H && IsLive(H, A, b)
    requires Touched(mem, mem', L.Keys + {b}, H.Keys)
    requires Vacated(H, H', b, s)
    requires Chained(mem, head, A, chain)
    ensures View(mem', H', A) == View(mem, H, A) - {b} && b in View(mem, H, A)
    ensures Chained(mem', head, A, chain)
  {
    BlockInArea(H, A, b);
    var v, v' := View(mem, H, A) - {b}, View(mem', H', A);
    forall c ensures (c in v' <==> c in v) && (c in v ==> v'[c] == v[c]) {
      if c != s && c != b {
        ViewKept(mem, mem', H, H', A, L, L.Keys + {b}, H.Keys, b, {}, {b, s}, c);
      }
      assert b in H' ==> Ordered(H', s, b);
    }
    ChainKept(mem, mem', H, A, L, L.Keys + {b}, H.Keys, b, {}, head, chain);
  }

  /** A live block may be freed. */
  lemma FreeReady(H: Blocks, A: Areas, S: Blocks, L: Listed, b: int)
    requires Tiled(H, A) && b in H && IsLive(H, A, b)
    requires S.Keys == H.Keys && Truthful(H, S, {}) && Complete(H, L, {})
    ensures Next(H, b) in H && TrueButPrev(H, S, Next(H, b))
    ensures Beyond(H, b) in H && TrueButPrev(H, S, Beyond(H, b)) && b < Beyond(H, b)
    ensures H[Beyond(H, b)].free <==> Beyond(H, b) in L
    ensures H[b].prevFree ==> H[b].prevHdr in H && H[H[b].prevHdr].free && H[b].prevHdr < b
  {
    BlockInArea(H, A, b);
    var n := Next(H, b);
    assert BlockOk(H, A, b) && True(H, S, n);
    BlockInArea(H, A, n);
    assert BlockOk(H, A, n) && True(H, S, Beyond(H, b));
    if H[b].prevFree { BlockInArea(H, A, H[b].prevHdr); }
  }

  // ----- resizing in place -----

  /** The header of the rest when `b`, together with a free successor, is cut to `s` bytes. */
  ghost function ResizeRests(H: Blocks, b: int, s: int): set<int>
    requires b in H && Next(H, b) in H
  {
    if Rest(b, s) + 16 <= Beyond(H, b) then {Rest(b, s)} else {}
  }

  function Min(x: int, y: int): int { if x < y then x else y }

  /** Both sequences start with the same `k` elements. */
  predicate SamePrefix(v: seq<int>, w: seq<int>, k: int) { 0 <= k <= |v| && k <= |w| && v[..k] == w[..k] }

  lemma WordsPrefix(mem: Memory, mem': Memory, lo: int, n: nat, n': nat, k: nat)
    requires mem'.Keys == mem.Keys && k <= n && k <= n' && Kept(mem, mem', lo, lo + 4 * k)
    ensures Words(mem', lo, n')[..k] == Words(mem, lo, n)[..k]
  {
  }

  lemma ResizeConfined(H: Blocks, A: Areas, L: Listed, b: int, s: int)
    requires Tiled(H, A) && Filed(H, L) && Complete(H, L, {}) && b in H && IsLive(H, A, b)
    requires Next(H, b) in H && MIN_BLOCK <= s && s % 8 == 0
    ensures var R := ResizeRests(H, b, s); Confined(H, L, L.Keys + R, H.Keys + R, b, R)
  {
    BlockInArea(H, A, b);
    BlockInArea(H, A, Next(H, b));
  }

  /** The first bytes of `b` survive. */
  lemma ResizedPrefix(mem: Memory, mem': Memory, H: Blocks, L: Listed, b: int, s: int, z: nat)
    requires Layout(H) && Linkable(H, L.Keys) && b in H && b !in L && Next(H, b) in H && 0 <= s <= z
    requires Touched(mem, mem', L.Keys + ResizeRests(H, b, s), H.Keys + ResizeRests(H, b, s))
    ensures SamePrefix(Words(mem, b + OVERHEAD, H[b].size / 4), Words(mem', b + OVERHEAD, z / 4), Min(H[b].size, s) / 4)
  {
    var k := Min(H[b].size, s) / 4;
    OwnKept(mem, mem', H, L, b, ResizeRests(H, b, s), b + OVERHEAD + 4 * k);
    WordsPrefix(mem, mem', b + OVERHEAD, H[b].size / 4, z / 4, k);
  }

  /** Resizing `b` in place leaves the other allocations and the list of areas alone. */
  lemma ResizedOthers(mem: Memory, mem': Memory, H: Blocks, H': Blocks, A: Areas, L: Listed, b: int, s: int,
                      head: int, chain: seq<int>)
    requires Tiled(H, A) && Tiled(H', A) && Filed(H, L) && Complete(H, L, {}) && b in H && IsLive(H, A, b)
    requires Next(H, b) in H && MIN_BLOCK <= s && s % 8 == 0
    requires Touched(mem, mem', L.Keys + ResizeRests(H, b, s), H.Keys + ResizeRests(H, b, s))
    requires SameUsed(H, H', {b}) && Chained(mem, head, A, chain)
    ensures Chained(mem', head, A, chain)
    ensures SameBesides(View(mem, H, A), View(mem', H', A), b)
  {
    var R := ResizeRests(H, b, s);
    ResizeConfined(H, A, L, b, s);
    var v, v' := View(mem, H, A), View(mem', H', A);
    forall c | c != b ensures (c in v' <==> c in v) && (c in v ==> v'[c] == v[c]) {
      ViewKept(mem, mem', H, H', A, L, L.Keys + R, H.Keys + R, b, R, {b}, c);
    }
    ChainKept(mem, mem', H, A, L, L.Keys + R, H.Keys + R, b, R, head, chain);
  }

  ghost predicate SameBesides(v: map<int, seq<int>>, v': map<int, seq<int>>, b: int)
  {
    forall c | c != b :: (c in v' <==> c in v) && (c in v ==> v'[c] == v[c])
  }

  /** What resizing `b` in place means for the client. */
  lemma ResizedView(mem: Memory, mem': Memory, H: Blocks, H': Blocks, A: Areas, L: Listed, b: int, s: int)
    requires Tiled(H, A) && Tiled(H', A) && Filed(H, L) && Complete(H, L, {}) && b in H && IsLive(H, A, b)
    requires Next(H, b) in H && MIN_BLOCK <= s && s % 8 == 0
    requires Touched(mem, mem', L.Keys + ResizeRests(H, b, s), H.Keys + ResizeRests(H, b, s))
    requires b in H' && IsLive(H', A, b) && s <= H'[b].size
    requires SameBesides(View(mem, H, A), View(mem', H', A), b)
    ensures Moved(View(mem, H, A), View(mem', H', A), b, b, s) && 4 * |View(mem', H', A)[b]| == H'[b].size
  {
    ResizedPrefix(mem, mem', H, L, b, s, H'[b].size);
    ViewBytes(mem, H, A, b);
    ViewBytes(mem', H', A, b);
    ResizedMoved(View(mem, H, A), View(mem', H', A), b, s);
  }

  // ----- writes by the client -----

  /** One more element of `x` is copied to `y`. */
  lemma Overwritten(x: seq<int>, y: seq<int>, i: nat)
    requires i < |x| && i < |y|
    ensures (x[..i] + y[i..])[i := x[i]] == x[..i + 1] + y[i + 1..]
  {
  }

  lemma WordStored(mem: Memory, lo: int, n: nat, i: nat, w: int)
    requires i < n
    ensures Words(mem[lo + 4 * i := w], lo, n) == Words(mem, lo, n)[i := w]
  {
  }

  /** Word `i` of the payload of `b` lies inside it. */
  lemma WordInside(dom: set<int>, H: Blocks, A: Areas, b: int, i: nat)
    requires Tiled(H, A) && Backed(dom, A) && b in H && 4 * i < H[b].size
    ensures b + OVERHEAD + 4 * i in dom && b + OVERHEAD + 4 * i < Next(H, b)
  {
    BlockBacked(dom, H, A, b);
    assert BlockOk(H, A, b);
    WordAligned(b, i);
  }

  lemma WordAligned(b: int, i: nat)
    requires b % 4 == 0
    ensures (b + OVERHEAD + 4 * i) % 4 == 0
  {
  }

  /** Only words inside the payload of `b` differ. */
  ghost predicate Within(mem: Memory, mem': Memory, H: Blocks, b: int)
    requires b in H
  {
    mem'.Keys == mem.Keys && forall a | a in mem :: mem'[a] == mem[a] || b + OVERHEAD <= a < Next(H, b)
  }

  lemma WithinKept(mem: Memory, mem': Memory, H: Blocks, A: Areas, L: Listed, S: Blocks, M: Matrix, b: int,
                   head: int, chain: seq<int>)
    requires Tiled(H, A) && Filed(H, L) && b in H && IsLive(H, A, b) && b !in L && Within(mem, mem', H, b)
    requires Linked(mem, L, M) && Stored(mem, S) && S.Keys == H.Keys && Chained(mem, head, A, chain)
    ensures Linked(mem', L, M) && Stored(mem', S) && Chained(mem', head, A, chain)
  {
    forall x | x in L ensures Prev(x) in mem ==> mem'[Prev(x)] == mem[Prev(x)] {
      OutOfTheWay(H, x, b);
    }
    forall x | x in L ensures Succ(x) in mem ==> mem'[Succ(x)] == mem[Succ(x)] {
      OutOfTheWay(H, x, b);
    }
    LinkedFrame(mem, mem', L, M);
    forall c | c in S ensures HeaderOk(mem', S, c) {
      assert HeaderOk(mem, S, c);
      if c != b { OutOfTheWay(H, c, b); }
    }
    forall k | 0 <= k < |chain| ensures InfoOk(mem', A, chain, k) {
      assert InfoOk(mem, A, chain, k) && BlockOk(H, A, chain[k]);
      OutOfTheWay(H, chain[k], b);
    }
  }

  lemma WithinView(mem: Memory, mem': Memory, H: Blocks, A: Areas, b: int)
    requires Layout(H) && b in H && IsLive(H, A, b) && Within(mem, mem', H, b)
    ensures View(mem', H, A) == View(mem, H, A)[b := Words(mem', b + OVERHEAD, H[b].size / 4)]
  {
    var v, v' := View(mem, H, A), View(mem', H, A);
    forall c | c in v && c != b ensures v'[c] == v[c] {
      OutOfTheWay(H, c, b);
      WordsKept(mem, mem', c + OVERHEAD, H[c].size / 4);
    }
  }

  /** The allocation `b` has become `b'` (the same, if resized in place), which holds at least `s`
      bytes and as much of the old contents as both sizes allow; the others are unchanged. */
  predicate Moved(v: map<int, seq<int>>, v': map<int, seq<int>>, b: int, b': int, s: int)
  {
    && b in v && b' in v' && (b' in v ==> b' == b)
    && v' == (v - {b})[b' := v'[b']]
    && s <= 4 * |v'[b']| && SamePrefix(v[b], v'[b'], Min(4 * |v[b]|, s) / 4)
  }

  lemma MovedBy(v: map<int, seq<int>>, v1: map<int, seq<int>>, v3: map<int, seq<int>>, b: int, b': int, s: int, n: nat)
    requires b in v && b' !in v && b' in v1 && v1 == v[b' := v1[b']] && s <= 4 * |v1[b']|
    requires n == Min(4 * |v[b]|, s) / 4 && n <= |v[b]| && n <= |v1[b']|
    requires v3 == v1[b' := v1[b][..n] + v1[b'][n..]] - {b}
    ensures Moved(v, v3, b, b', s)
  {
    var w := v1[b][..n] + v1[b'][n..];
    assert w[..n] == v[b][..n];
    assert v3 == (v - {b})[b' := w];
  }

  lemma ResizedMoved(v: map<int, seq<int>>, v': map<int, seq<int>>, b: int, s: int)
    requires b in v && b in v' && SameBesides(v, v', b) && s <= 4 * |v'[b]|
    requires SamePrefix(v[b], v'[b], Min(4 * |v[b]|, s) / 4)
    ensures Moved(v, v', b, b, s)
  {
    var w := (v - {b})[b := v'[b]];
    forall c ensures (c in v' <==> c in w) && (c in v' ==> v'[c] == w[c]) {
      assert c != b ==> (c in v' <==> c in v);
    }
    assert v' == w;
  }

  /** `b` has fewer than `s` bytes, also together with the payload of a free successor. */
  predicate CannotGrow(H: Blocks, b: int, s: int)
  {
    b in H && H[b].size < s && (Next(H, b) in H && H[Next(H, b)].free ==> H[b].size + H[Next(H, b)].size < s)
  }

  /** `b` has got `z` bytes for a request of `s` bytes, out of its own and those of a free successor. */
  ghost predicate Cut(H: Blocks, b: int, s: int, z: int)
  {
    b in H && Next(H, b) in H && z == Fitted(Room(H, b), s) && s <= z < s + OVERHEAD + MIN_BLOCK
  }

  /** `b` has become `b'`: the same, cut to size, exactly if it can grow there, or a new allocation. */
  ghost predicate Reallocated(H: Blocks, v: map<int, seq<int>>, v': map<int, seq<int>>, b: int, b': int, s: nat)
    requires s <= MAX_REQUEST
  {
    && Moved(v, v', b, b', s) && (b' == b <==> !CannotGrow(H, b, s))
    && if b' == b then Cut(H, b, s, 4 * |v'[b]|) else Served(H, b', s, 4 * |v'[b']|)
  }

  lemma CanGrow(H: Blocks, b: int, s: int)
    requires b in H && Next(H, b) in H
    ensures !CannotGrow(H, b, s) <==> s <= H[b].size || (H[Next(H, b)].free && s <= H[b].size + H[Next(H, b)].size)
  {
  }

  /** A scan of all blocks finds no free one of the size that a request of `s` bytes is rounded to. */
  ghost predicate NoneFits(H: Blocks, s: nat)
    requires s <= MAX_REQUEST
  {
    forall b | b in H && H[b].free :: H[b].size < MappingSearch(s).size
  }
}
