/** The allocator itself: control structure, memory and the operations on them. */
module Tlsf {
  import opened TlsfBits
  import opened TlsfMapping
  import opened TlsfBlocks
  import opened TlsfLists
  import opened TlsfState
  import opened TlsfAreas
  import opened TlsfMerge
  import opened TlsfProgress

  class Pool {
    // tlsf_t; the memory it manages is addressed by word
    var mem: Memory
    var matrix: Matrix
    var slBitmap: seq<Word>
    var flBitmap: Word
    var areaHead: int

    // the blocks, areas and free lists that memory stands for
    ghost var H: Blocks
    ghost var A: Areas
    ghost var L: Listed
    ghost var clock: nat
    ghost var chain: seq<int>

    // what the headers say at the moment, and what has been written since `base`
    ghost var S: Blocks
    ghost var base: Memory
    ghost var K: set<int>
    ghost var D: set<int>

    /** The free lists, their heads and the bitmaps agree. */
    ghost predicate Indexed()
      reads `mem, `matrix, `slBitmap, `flBitmap, `L, `clock
    {
      && Linked(mem, L, matrix)
      && BitmapsOk(matrix, slBitmap, flBitmap)
      && forall b | b in L :: L[b].stamp < clock
    }

    method ExtractBlockHdr(b: int, c: Class)
      requires Indexed() && b in L && L[b].cls == c && c.InMatrix() && Head(matrix, c) == b
      modifies `mem, `matrix, `slBitmap, `flBitmap, `L
      ensures Indexed() && L == old(L) - {b} && SameBut(old(mem), mem, old(L).Keys)
    {
      assert NodeOk(mem, L, matrix, b) && HeadOk(mem, L, matrix, c);
      ghost var p, n := mem[Prev(b)], mem[Succ(b)];
      UnlinkLinked(mem, L, matrix, b);
      matrix := SetHead(matrix, c, mem[Succ(b)]);
      if Head(matrix, c) != 0 {
        mem := mem[Prev(Head(matrix, c)) := 0];
        assert BitmapsOk(matrix, slBitmap, flBitmap);
      } else {
        EmptiedBitmaps(old(matrix), slBitmap, flBitmap, c);
        slBitmap := slBitmap[c.fl := slBitmap[c.fl][c.sl := false]];
        if true !in slBitmap[c.fl] {
          flBitmap := flBitmap[c.fl := false];
        }
      }
      mem := mem[Prev(b) := 0];
      mem := mem[Succ(b) := 0];
      L := L - {b};
      assert mem == Unlink(old(mem), b, p, n);
    }

    method ExtractBlock(b: int, c: Class)
      requires Indexed() && b in L && L[b].cls == c && c.InMatrix()
      modifies `mem, `matrix, `slBitmap, `flBitmap, `L
      ensures Indexed() && L == old(L) - {b} && SameBut(old(mem), mem, old(L).Keys)
    {
      assert NodeOk(mem, L, matrix, b) && HeadOk(mem, L, matrix, c);
      ghost var p, n := mem[Prev(b)], mem[Succ(b)];
      UnlinkLinked(mem, L, matrix, b);
      if mem[Succ(b)] != 0 {
        mem := mem[Prev(mem[Succ(b)]) := mem[Prev(b)]];
      }
      if mem[Prev(b)] != 0 {
        mem := mem[Succ(mem[Prev(b)]) := mem[Succ(b)]];
      }
      if Head(matrix, c) == b {
        matrix := SetHead(matrix, c, mem[Succ(b)]);
        if Head(matrix, c) == 0 {
          EmptiedBitmaps(old(matrix), slBitmap, flBitmap, c);
          slBitmap := slBitmap[c.fl := slBitmap[c.fl][c.sl := false]];
          if true !in slBitmap[c.fl] {
            flBitmap := flBitmap[c.fl := false];
          }
        }
      }
      mem := mem[Prev(b) := 0];
      mem := mem[Succ(b) := 0];
      L := L - {b};
      assert mem == Unlink(old(mem), b, p, n);
    }

    method InsertBlock(b: int, c: Class)
      requires Indexed() && b !in L && c.InMatrix() && Spaced(L.Keys + {b})
      requires b > 0 && Prev(b) in mem && Succ(b) in mem
      modifies `mem, `matrix, `slBitmap, `flBitmap, `L, `clock
      ensures Indexed() && L == old(L)[b := Node(c, old(clock))] && SameBut(old(mem), mem, L.Keys)
    {
      LinkLinked(mem, L, matrix, b, c, clock);
      FilledBitmaps(matrix, slBitmap, flBitmap, c, b);
      mem := mem[Prev(b) := 0];
      mem := mem[Succ(b) := Head(matrix, c)];
      if Head(matrix, c) != 0 {
        mem := mem[Prev(Head(matrix, c)) := b];
      }
      matrix := SetHead(matrix, c, b);
      slBitmap := slBitmap[c.fl := slBitmap[c.fl][c.sl := true]];
      flBitmap := flBitmap[c.fl := true];
      L, clock := L[b := Node(c, clock)], clock + 1;
    }

    // ----- headers, blocks and lists together -----

    /** Headers are stored in memory, blocks tile the areas, and listed blocks are filed by size. */
    ghost predicate Consistent()
      reads `mem, `matrix, `slBitmap, `flBitmap, `L, `clock, `H, `S, `A
    {
      && Indexed()
      && Tiled(H, A)
      && Backed(mem.Keys, A)
      && Stored(mem, S) && S.Keys == H.Keys
      && Filed(H, L)
    }

    /** And since `base` only headers of `D` and links of `K` have been written. Here and below, `== true`
        lets the verifier hand a predicate on as a whole, without taking its parts one by one. */
    ghost predicate Sound()
      reads `mem, `matrix, `slBitmap, `flBitmap, `L, `clock, `H, `S, `A, `base, `K, `D
    {
      Consistent() == true && Touched(base, mem, K, D) == true
    }

    /** `b->size = w`, where `w` is the size word of `k`. */
    method SetSize(b: int, w: int, ghost k: Block)
      requires Sound() && b in H && b in D && w == SizeWord(k) && k.prevHdr == S[b].prevHdr && k.size % 8 == 0
      modifies `mem, `S
      ensures Sound() && S == old(S)[b := k] && SameElsewhere(old(mem), mem, {Size(b)})
    {
      assert HeaderOk(mem, S, b);
      ghost var m := mem;
      mem := mem[Size(b) := w];
      StoredWrite(m, mem, H, S, b, k);
      LinkedWrite(m, mem, H, L, matrix, b);
      S := S[b := k];
    }

    /** `b->size & BLOCK_SIZE`. */
    method SizeOf(b: int) returns (z: int)
      requires Sound() && b in H
      ensures z == S[b].size && z % 8 == 0
    {
      assert HeaderOk(mem, S, b);
      Decode(S[b]);
      z := SizeBits(mem[Size(b)]);
    }

    /** The size bits in memory are those of the header. */
    lemma WordOf(b: int)
      requires Sound() && b in H
      ensures Size(b) in mem && SizeBits(mem[Size(b)]) == S[b].size
    {
      assert HeaderOk(mem, S, b);
      Decode(S[b]);
    }

    /** `b->size & FREE_BLOCK`. */
    method IsFree(b: int) returns (f: bool)
      requires Sound() && b in H
      ensures f == S[b].free
    {
      assert HeaderOk(mem, S, b);
      Decode(S[b]);
      f := FreeBit(mem[Size(b)]);
    }

    /** `b->size & PREV_FREE`. */
    method IsPrevFree(b: int) returns (f: bool)
      requires Sound() && b in H
      ensures f == S[b].prevFree
    {
      assert HeaderOk(mem, S, b);
      Decode(S[b]);
      f := PrevFreeBit(mem[Size(b)]);
    }

    /** `b->prev_hdr`. */
    method PrevHdrOf(b: int) returns (p: int)
      requires Sound() && b in H
      ensures p == S[b].prevHdr
    {
      assert HeaderOk(mem, S, b);
      p := mem[PrevHdr(b)];
    }

    /** `GET_NEXT_BLOCK(b->ptr.buffer, b->size & BLOCK_SIZE)`. */
    method NextOf(b: int) returns (n: int)
      requires Sound() && b in H && S[b].size == H[b].size
      ensures n == Next(H, b)
    {
      var z := SizeOf(b);
      n := b + OVERHEAD + z;
    }

    /** `b->size |= FREE_BLOCK`. */
    method MarkFree(b: int)
      requires Sound() && b in H && b in D
      modifies `mem, `S
      ensures Sound() && S == old(S)[b := old(S)[b].(free := true)]
    {
      assert HeaderOk(mem, S, b);
      Decode(S[b]);
      SetSize(b, OrFree(mem[Size(b)]), S[b].(free := true));
    }

    /** `b->size &= ~FREE_BLOCK`. */
    method MarkUsed(b: int)
      requires Sound() && b in H && b in D
      modifies `mem, `S
      ensures Sound() && S == old(S)[b := old(S)[b].(free := false)]
    {
      assert HeaderOk(mem, S, b);
      Decode(S[b]);
      SetSize(b, ClearFree(mem[Size(b)]), S[b].(free := false));
    }

    /** `b->size &= ~PREV_FREE`. */
    method MarkPrevUsed(b: int)
      requires Sound() && b in H && b in D
      modifies `mem, `S
      ensures Sound() && S == old(S)[b := old(S)[b].(prevFree := false)]
    {
      assert HeaderOk(mem, S, b);
      Decode(S[b]);
      SetSize(b, ClearPrevFree(mem[Size(b)]), S[b].(prevFree := false));
    }

    /** `b->size += d`. */
    method AddSize(b: int, d: int)
      requires Sound() && b in H && b in D && d % 8 == 0
      modifies `mem, `S
      ensures Sound() && S == old(S)[b := old(S)[b].(size := old(S)[b].size + d)]
      ensures SameElsewhere(old(mem), mem, {Size(b)})
    {
      assert HeaderOk(mem, S, b);
      SetSize(b, mem[Size(b)] + d, S[b].(size := S[b].size + d));
    }

    /** `b->prev_hdr = p` and, if `mark`, `b->size |= PREV_FREE`. */
    method SetPrevHdr(b: int, p: int, mark: bool)
      requires Sound() && b in H && b in D
      modifies `mem, `S
      ensures Sound() && SameElsewhere(old(mem), mem, {Size(b), PrevHdr(b)})
      ensures S == old(S)[b := old(S)[b].(prevHdr := p, prevFree := mark || old(S)[b].prevFree)]
    {
      assert HeaderOk(mem, S, b);
      Decode(S[b]);
      ghost var m, k := mem, S[b].(prevHdr := p, prevFree := mark || S[b].prevFree);
      mem := mem[PrevHdr(b) := p];
      if mark {
        mem := mem[Size(b) := OrPrevFree(mem[Size(b)])];
      }
      StoredWrite(m, mem, H, S, b, k);
      LinkedWrite(m, mem, H, L, matrix, b);
      S := S[b := k];
    }

    /** `MAPPING_INSERT(b->size & BLOCK_SIZE, &fl, &sl); EXTRACT_BLOCK(b, tlsf, fl, sl)`. */
    method Unfile(b: int)
      requires Sound() && b in L && S[b].size == H[b].size && L.Keys <= K
      modifies `mem, `matrix, `slBitmap, `flBitmap, `L
      ensures Sound() && L == old(L) - {b}
    {
      assert HeaderOk(mem, S, b) && NodeOk(mem, L, matrix, b);
      Decode(S[b]);
      ghost var m, lk := mem, L.Keys;
      ExtractBlock(b, MappingInsert(SizeBits(mem[Size(b)])));
      StoredFrame(m, mem, H, S, lk);
    }

    /** `MAPPING_INSERT(b->size & BLOCK_SIZE, &fl, &sl); INSERT_BLOCK(b, tlsf, fl, sl)`. */
    method File(b: int)
      requires Sound() && b in H && b !in L && S[b].size == H[b].size && MIN_BLOCK <= H[b].size
      requires b in K && L.Keys <= K
      modifies `mem, `matrix, `slBitmap, `flBitmap, `L, `clock
      ensures Sound() && L.Keys == old(L).Keys + {b} && SameInside(old(mem), mem, b, Next(H, b))
    {
      assert HeaderOk(mem, S, b);
      Decode(S[b]);
      BlockInArea(H, A, b);
      BlockBacked(mem.Keys, H, A, b);
      LinkableSpaced(H, L.Keys + {b});
      ghost var m := mem;
      InsertBlock(b, MappingInsert(SizeBits(mem[Size(b)])));
      StoredFrame(m, mem, H, S, L.Keys);
      InsideFrame(m, mem, H, L.Keys, b);
    }

    ghost method JoinNext(b: int)
      requires Sound() && b in H && IsLive(H, A, b) && b !in L
      requires Next(H, b) in H && H[Next(H, b)].free && Next(H, b) !in L
      modifies `H, `S
      ensures Sound()
      ensures var n, H0 := old(Next(H, b)), old(H);
        && Next(H0, n) in H0 && H0[n].size > 0 && H == TakeNext(H0, b) && S == old(S) - {n}
        && H[b].size == H0[b].size + OVERHEAD + H0[n].size && b in S
    {
      TakeNextTiled(H, A, b);
      StoredShrink(mem, S, Next(H, b));
      H, S := TakeNext(H, b), S - {Next(H, b)};
    }

    ghost method JoinPrev(b: int)
      requires Sound() && b in H && IsLive(H, A, b) && b !in L && H[b].prevFree && H[b].prevHdr !in L
      modifies `H, `S
      ensures Sound()
      ensures var p, H0 := old(H[b].prevHdr), old(H);
        && p in H0 && Next(H0, p) == b && H0[p].size > 0 && H == TakePrev(H0, b) && S == old(S) - {b}
        && p in H && H[p].size == H0[p].size + OVERHEAD + H0[b].size && p in S
    {
      TakePrevTiled(H, A, b);
      StoredShrink(mem, S, b);
      H, S := TakePrev(H, b), S - {b};
    }

    /** `t` says the right thing of itself, and is listed exactly if it is free. */
    ghost predicate EndOk(t: int)
      reads `H, `S, `L
    {
      S.Keys == H.Keys && t in H && TrueButPrev(H, S, t) && (H[t].free <==> t in L)
    }

    /** The same of the block after `b`, which may come to follow a free block. */
    ghost predicate After(b: int)
      requires b in H
      reads `H, `S, `L
    {
      EndOk(Next(H, b)) && MayFollow(H, Next(H, b))
    }

    /** The free block `n` after `b` is taken off its list and counts as part of `b`. */
    method TakeAfter(b: int, n: int, ghost X: set<int>) returns (z: int)
      requires Sound() && b in H && IsLive(H, A, b) && b !in L && L.Keys <= K
      requires Truthful(H, S, X + {b}) && Complete(H, L, X)
      requires n == Next(H, b) && n in H && H[n].free && n !in X
      requires EndOk(Beyond(H, b))
      modifies `mem, `matrix, `slBitmap, `flBitmap, `L, `H, `S
      ensures Sound() && b in H && IsLive(H, A, b) && L.Keys <= old(L).Keys && H.Keys <= old(H).Keys
      ensures z == old(H)[n].size && H[b] == old(H)[b].(size := old(H)[b].size + OVERHEAD + z) && S == old(S) - {n}
      ensures Next(H, b) == old(Beyond(H, b)) && After(b)
      ensures Truthful(H, S, X + {b, Next(H, b)}) && Complete(H, L, X) && SameUsed(old(H), H, {b}) && SameBelow(old(H), H, b)
    {
      assert True(H, S, n) && BlockOk(H, A, b);
      BlockInArea(H, A, b);
      BlockInArea(H, A, n);
      TakeNextEffects(H, S, A, L, X, b, S - {n});
      Unfile(n);
      z := SizeOf(n);
      JoinNext(b);
    }

    /** And `b->size` is increased accordingly. */
    method MergeNext(b: int, n: int, ghost X: set<int>)
      requires Sound() && b in H && IsLive(H, A, b) && b !in L && b in D && L.Keys <= K
      requires Truthful(H, S, X + {b}) && Complete(H, L, X) && S[b].size == H[b].size
      requires n == Next(H, b) && n in H && H[n].free && n !in X
      requires EndOk(Beyond(H, b))
      modifies `mem, `matrix, `slBitmap, `flBitmap, `L, `H, `S
      ensures Sound() && b in H && IsLive(H, A, b) && L.Keys <= old(L).Keys && H.Keys <= old(H).Keys
      ensures H[b] == old(H)[b].(size := H[b].size) && S[b] == old(S)[b].(size := H[b].size)
      ensures Next(H, b) == old(Beyond(H, b)) && After(b)
      ensures H[b].size == old(H)[b].size + OVERHEAD + old(H)[n].size
      ensures Truthful(H, S, X + {b, Next(H, b)}) && Complete(H, L, X) && SameUsed(old(H), H, {b}) && SameBelow(old(H), H, b)
    {
      BlockInArea(H, A, b);
      var z := TakeAfter(b, n, X);
      assert BlockOk(H, A, b) && HeaderOk(mem, S, b);
      BlockInArea(H, A, b);
      TruthfulWrite(H, S, X + {b, Next(H, b)}, b, S[b].(size := H[b].size));
      assert X + {b, Next(H, b)} + {b} == X + {b, Next(H, b)};
      AddSize(b, z + OVERHEAD);
    }

    /** If the block after `b` is free, it is taken off its list and added to `b`. */
    method AbsorbNext(b: int, ghost X: set<int>)
      requires Sound() && b in H && IsLive(H, A, b) && b !in L && b in D && L.Keys <= K
      requires Truthful(H, S, X + {b}) && Complete(H, L, X) && S[b].size == H[b].size
      requires Next(H, b) in H && TrueButPrev(H, S, Next(H, b)) && (H[Next(H, b)].free ==> Next(H, b) !in X)
      requires EndOk(Beyond(H, b))
      modifies `mem, `matrix, `slBitmap, `flBitmap, `L, `H, `S
      ensures Sound() && b in H && IsLive(H, A, b) && L.Keys <= old(L).Keys && H.Keys <= old(H).Keys
      ensures H[b] == old(H)[b].(size := H[b].size) && S[b] == old(S)[b].(size := H[b].size)
      ensures Next(H, b) == old(Beyond(H, b)) && After(b)
      ensures Truthful(H, S, X + {b, Next(H, b)}) && Complete(H, L, X) && SameUsed(old(H), H, {b}) && SameBelow(old(H), H, b)
    {
      var n := NextOf(b);
      var f := IsFree(n);
      if f {
        MergeNext(b, n, X);
      }
    }

    /** The free block before `b` is taken off its list and `b` is added to it. */
    method MergePrev(b: int, ghost X: set<int>) returns (s: int)
      requires Sound() && b in H && IsLive(H, A, b) && b !in L && b !in X && L.Keys <= K && After(b)
      requires Truthful(H, S, X + {b, Next(H, b)}) && Complete(H, L, X)
      requires S[b].size == H[b].size && PrevTrue(H, S, b) && H[b].prevFree
      requires H[b].prevHdr !in X && H[b].prevHdr in D
      modifies `mem, `matrix, `slBitmap, `flBitmap, `L, `H, `S
      ensures Sound() && s == old(H)[b].prevHdr && s in H && IsLive(H, A, s) && s !in L
      ensures L.Keys <= old(L).Keys && H.Keys <= old(H).Keys && s in old(H) && s + 16 <= b
      ensures MayFree(H, s) && S[s].size == H[s].size && S[s].free && PrevTrue(H, S, s) && H[s].prevFree == old(H)[s].prevFree
      ensures Next(H, s) == old(Next(H, b)) && After(s)
      ensures Truthful(H, S, X + {s, Next(H, s)}) && Complete(H, L, X) && SameUsed(old(H), H, {b, s}) && SameBelow(old(H), H, s)
      ensures Size(b) in mem && SizeBits(mem[Size(b)]) == old(H)[b].size
    {
      TakePrevEffects(H, S, A, L, X, b);
      ghost var S0 := S;
      var z;
      s, z := TakeBefore(b);
      AddSize(s, z + OVERHEAD);
      assert S == (S0 - {b})[s := S0[s].(size := H[s].size)];
    }

    /** The free block before `b` is taken off its list, and `b` counts as part of it. */
    method TakeBefore(b: int) returns (s: int, z: int)
      requires Sound() && b in H && IsLive(H, A, b) && b !in L && L.Keys <= K && H[b].prevFree
      requires S[b].size == H[b].size && PrevTrue(H, S, b) && H[b].prevHdr in H && TrueButPrev(H, S, H[b].prevHdr)
      requires H[b].prevHdr in L
      modifies `mem, `matrix, `slBitmap, `flBitmap, `L, `H, `S
      ensures Sound() && s == old(H)[b].prevHdr && z == old(H)[b].size && z % 8 == 0 && L == old(L) - {s}
      ensures s in old(H) && Next(old(H), s) == b && old(H)[s].size >= MIN_BLOCK && H == TakePrev(old(H), b)
      ensures s in H && H[s].size == old(H)[s].size + OVERHEAD + z && S == old(S) - {b} && s in S
      ensures Size(b) in mem && SizeBits(mem[Size(b)]) == z
    {
      s := PrevHdrOf(b);
      assert BlockOk(H, A, b) && BlockOk(H, A, s);
      Unfile(s);
      z := SizeOf(b);
      WordOf(b);
      JoinPrev(b);
    }

    /** If the block before `b` is free, it is taken off its list and `b` is added to it. */
    method AbsorbPrev(b: int, ghost X: set<int>) returns (s: int)
      requires Sound() && b in H && IsLive(H, A, b) && b !in L && b !in X && L.Keys <= K
      requires After(b)
      requires Truthful(H, S, X + {b, Next(H, b)}) && Complete(H, L, X)
      requires S[b].size == H[b].size && PrevTrue(H, S, b) && S[b].free
      requires H[b].prevFree ==> H[b].prevHdr !in X && H[b].prevHdr in D
      modifies `mem, `matrix, `slBitmap, `flBitmap, `L, `H, `S
      ensures Sound() && s in H && IsLive(H, A, s) && s !in X && L.Keys <= old(L).Keys && H.Keys <= old(H).Keys
      ensures s == (if old(H)[b].prevFree then old(H)[b].prevHdr else b) && s !in L
      ensures MayFree(H, s) && S[s].size == H[s].size && S[s].free && PrevTrue(H, S, s) && H[s].prevFree == old(H)[s].prevFree
      ensures Next(H, s) == old(Next(H, b)) && After(s)
      ensures Truthful(H, S, X + {s, Next(H, s)}) && Complete(H, L, X) && SameUsed(old(H), H, {b, s}) && SameBelow(old(H), H, s)
      ensures Size(b) in mem && SizeBits(mem[Size(b)]) == old(H)[b].size && (s != b ==> s + 16 <= b)
    {
      s := b;
      var f := IsPrevFree(b);
      if f {
        s := MergePrev(b, X);
      } else {
        WordOf(b);
      }
    }

    /** `b->ptr.free_ptr.prev = b->ptr.free_ptr.next = NULL` for a block that is not listed. */
    method ClearLinks(b: int)
      requires Sound() && b in H && MIN_BLOCK <= H[b].size && b !in L && b in K
      modifies `mem
      ensures Sound()
    {
      BlockBacked(mem.Keys, H, A, b);
      LinkableSpaced(H, L.Keys + {b});
      ghost var m := mem;
      mem := mem[Prev(b) := 0];
      mem := mem[Succ(b) := 0];
      forall x | x in L ensures Apart(x, b) {
        assert x in L.Keys + {b};
      }
      LinkedFrame(m, mem, L, matrix);
      StoredFrame(m, mem, H, S, {b});
    }

    /** `next->size |= PREV_FREE; next->prev_hdr = b` for the block after `b`. */
    method TellNext(b: int)
      requires Sound() && b in H && Next(H, b) in H && S[b].size == H[b].size && Next(H, b) in D
      modifies `mem, `S
      ensures Sound() && SameInside(old(mem), mem, b, Next(H, b))
      ensures var n := Next(H, b); S == old(S)[n := old(S)[n].(prevFree := true, prevHdr := b)]
    {
      var n := NextOf(b);
      SetPrevHdr(n, b, true);
    }

    /** Files the block `s`, marked free already, and tells the block after it. */
    method FileAndTell(s: int, ghost X: set<int>)
      requires Sound() && s in H && IsLive(H, A, s) && s !in X && s !in L && MayFree(H, s)
      requires S[s].size == H[s].size && S[s].free && PrevTrue(H, S, s) && After(s)
      requires Truthful(H, S, X + {s, Next(H, s)}) && Complete(H, L, X)
      requires L.Keys + {s} <= K && Next(H, s) in D
      modifies `mem, `matrix, `slBitmap, `flBitmap, `L, `clock, `H, `S
      ensures Sound() && s in H && H[s] == old(H)[s].(free := true) && Next(H, s) == old(Next(H, s)) && SameUsed(old(H), H, {s})
      ensures Truthful(H, S, X - {Next(H, s)}) && Complete(H, L, X - {Next(H, s)}) && SameBelow(old(H), H, s)
      ensures SameInside(old(mem), mem, s, old(Next(H, s)))
    {
      BlockInArea(H, A, s);
      ghost var L1 := L;
      File(s);
      ReleaseEffects(H, S, A, L1, L, X, s);
      SetFree(s, true);
      TellNext(s);
    }

    /** The first half of `free_ex`: `b` is marked free and joined with a free successor. */
    method ReleaseFront(b: int, ghost X: set<int>)
      requires Sound() && Truthful(H, S, X) && Complete(H, L, X)
      requires b in H && IsLive(H, A, b) && b !in X && L.Keys + {b} <= K && b in D
      requires Next(H, b) in H && TrueButPrev(H, S, Next(H, b)) && (H[Next(H, b)].free ==> Next(H, b) !in X)
      requires EndOk(Beyond(H, b))
      modifies `mem, `matrix, `slBitmap, `flBitmap, `L, `H, `S
      ensures Sound() && b in H && IsLive(H, A, b) && L.Keys <= old(L).Keys && H.Keys <= old(H).Keys
      ensures H[b] == old(H)[b].(size := H[b].size) && S[b] == old(S)[b].(free := true, size := H[b].size)
      ensures Next(H, b) == old(Beyond(H, b)) && After(b)
      ensures Truthful(H, S, X + {b, Next(H, b)}) && Complete(H, L, X) && SameUsed(old(H), H, {b}) && SameBelow(old(H), H, b)
    {
      assert True(H, S, b) && BlockOk(H, A, b);
      TruthfulWrite(H, S, X, b, S[b].(free := true));
      MarkFree(b);
      ClearLinks(b);
      AbsorbNext(b, X);
    }

    /** `b` may be freed while the headers of the blocks in `X` may be wrong. */
    ghost predicate Releasable(b: int, X: set<int>)
      reads this
    {
      && Sound() && Truthful(H, S, X) && Complete(H, L, X)
      && b in H && IsLive(H, A, b) && b !in X && (H[b].prevFree ==> H[b].prevHdr !in X)
      && Next(H, b) in H && TrueButPrev(H, S, Next(H, b)) && (H[Next(H, b)].free ==> Next(H, b) !in X)
      && EndOk(Beyond(H, b))
      && L.Keys + {b} <= K && {b, Beyond(H, b)} <= D && (H[b].prevFree ==> H[b].prevHdr in D)
    }

    /** `free_ex` on a non-null pointer. The headers of the blocks in `X` may be wrong; the
        header of the block beyond the freed extent is right again afterwards. */
    method Release(ptr: int, ghost X: set<int>)
      requires Releasable(ptr - OVERHEAD, X) == true
      modifies `mem, `matrix, `slBitmap, `flBitmap, `L, `clock, `H, `S
      ensures Sound()
      ensures var t := old(Beyond(H, ptr - OVERHEAD)); Truthful(H, S, X - {t}) && Complete(H, L, X - {t})
      ensures var b, H0 := ptr - OVERHEAD, old(H);
        var s := if H0[b].prevFree then H0[b].prevHdr else b;
        && s in H && H[s].free && Next(H, s) == old(Beyond(H, b)) && SameUsed(H0, H, {b, s})
        && SameBelow(H0, H, s) && s in H0 && H[s].prevFree == H0[s].prevFree
      // the header of the block, even inside a free block now, tells how far the latter goes from here
      ensures FreeExtent(H, ptr - OVERHEAD, old(Beyond(H, ptr - OVERHEAD)))
      ensures Size(ptr - OVERHEAD) in mem && SizeBits(mem[Size(ptr - OVERHEAD)]) == old(Beyond(H, ptr - OVERHEAD)) - ptr
    {
      var b := ptr - OVERHEAD;
      assert True(H, S, b) && BlockOk(H, A, b);
      ReleaseFront(b, X);
      ReleaseBack(b, X);
    }

    /** The second half of `free_ex`: `b` is joined with a free predecessor and filed. */
    method ReleaseBack(b: int, ghost X: set<int>)
      requires Sound() && b in H && IsLive(H, A, b) && b !in L && b !in X && L.Keys + {b} <= K && After(b) && Next(H, b) in D
      requires Truthful(H, S, X + {b, Next(H, b)}) && Complete(H, L, X)
      requires S[b].size == H[b].size && PrevTrue(H, S, b) && S[b].free
      requires H[b].prevFree ==> H[b].prevHdr !in X && H[b].prevHdr in D && H[b].prevHdr in K
      modifies `mem, `matrix, `slBitmap, `flBitmap, `L, `clock, `H, `S
      ensures var t := old(Next(H, b)); Sound() && Truthful(H, S, X - {t}) && Complete(H, L, X - {t})
      ensures var H0 := old(H);
        var s := if H0[b].prevFree then H0[b].prevHdr else b;
        && s in H && H[s].free && Next(H, s) == Next(H0, b) && SameUsed(H0, H, {b, s})
        && SameBelow(H0, H, s) && s in H0 && H[s].prevFree == H0[s].prevFree && s <= b
      ensures Size(b) in mem && SizeBits(mem[Size(b)]) == old(H)[b].size
    {
      var s := AbsorbPrev(b, X);
      FileAndTell(s, X);
      if s == b {
        assert True(H, S, b);
        WordOf(b);
      }
    }

    /** `r->size = z | FREE_BLOCK | PREV_USED` for the rest `r` of a block that keeps `s` bytes. */
    method NewFreeHeader(b: int, s: int, z: int) returns (ghost p: int)
      requires Sound() && CanCarve(H, A, b, s) && b !in L && Rest(b, s) in D && z == Next(H, b) - Rest(b, s) - OVERHEAD
      modifies `mem, `H, `S
      ensures Sound() && H == Split(old(H), b, s)
      ensures S == old(S)[Rest(b, s) := Block(z, true, false, p, H[b].area, false)]
    {
      ghost var r, m := Rest(b, s), mem;
      CarvedTiled(H, A, b, s, true);
      RestBacked(mem.Keys, H, A, b, s);
      p := mem[PrevHdr(r)];
      mem := mem[Size(b + OVERHEAD + s) := z + 1];
      ghost var k := Block(z, true, false, p, H[b].area, false);
      HeaderAdded(m, mem, Split(H, b, s), L, S, matrix, r, k);
      Install(Split(H, b, s), S[r := k]);
    }

    /** The blocks and their headers become `H'` and `S'`, which the memory shows already. */
    ghost method Install(H': Blocks, S': Blocks)
      requires Indexed() && Tiled(H', A) && Backed(mem.Keys, A) && Stored(mem, S') && S'.Keys == H'.Keys && Filed(H', L)
      requires Touched(base, mem, K, D)
      modifies `H, `S
      ensures Sound() && H == H' && S == S'
    {
      H, S := H', S';
    }

    /** The header of the rest, and what the block after it is told. */
    method CarveHeaders(b: int, n: int, s: int, tell: bool) returns (ghost p: int)
      requires Sound() && CanCarve(H, A, b, s) && b !in L && n == Next(H, b) && (tell || S[n].prevFree || H[n].lost)
      requires Rest(b, s) in D && n in D
      modifies `mem, `H, `S
      ensures Sound() && H == Split(old(H), b, s)
      ensures var r := Rest(b, s);
        S == old(S)[r := Block(n - r - OVERHEAD, true, false, p, H[b].area, false)]
                   [n := old(S)[n].(prevFree := tell || old(S)[n].prevFree, prevHdr := r)]
    {
      CarvedTiled(H, A, b, s, true);
      var r := b + OVERHEAD + s;
      p := NewFreeHeader(b, s, n - r - OVERHEAD);
      SetPrevHdr(n, r, tell);
    }

    ghost method SetFree(b: int, told: bool)
      requires Sound() && b in H && Next(H, b) in H && Tiled(TlsfBlocks.Release(H, b, told), A) == true
      modifies `H
      ensures Sound() && H == TlsfBlocks.Release(old(H), b, told)
    {
      H := TlsfBlocks.Release(H, b, told);
    }

    /** `b->size = s | USED_BLOCK | (b->size & PREV_STATE)`; USED_BLOCK is 0. */
    method SetSizeUsed(b: int, s: int)
      requires Sound() && b in H && b in D && s % 8 == 0
      modifies `mem, `S
      ensures Sound() && S == old(S)[b := old(S)[b].(size := s, free := false)]
    {
      assert HeaderOk(mem, S, b);
      Decode(S[b]);
      SetSize(b, s + PrevState(mem[Size(b)]), S[b].(size := s, free := false));
    }

    /** Writes the headers of both parts and files the rest. */
    method CarveRest(b: int, n: int, s: int, tell: bool) returns (ghost p: int)
      requires Sound() && CanCarve(H, A, b, s) == true && b !in L && n == Next(H, b) && (tell || S[n].prevFree || H[n].lost)
      requires L.Keys + {Rest(b, s)} <= K && {b, n, Rest(b, s)} <= D
      modifies `mem, `matrix, `slBitmap, `flBitmap, `L, `clock, `H, `S
      ensures Sound() && H == Split(old(H), b, s) && L.Keys == old(L).Keys + {Rest(b, s)}
      ensures var r := Rest(b, s);
        S == old(S)[r := Block(n - r - OVERHEAD, true, false, p, H[b].area, false)]
                   [n := old(S)[n].(prevFree := tell || old(S)[n].prevFree, prevHdr := r)][b := old(S)[b].(size := s, free := false)]
    {
      CarvedTiled(H, A, b, s, true);
      var r := b + OVERHEAD + s;
      p := CarveHeaders(b, n, s, tell);
      File(r);
      SetSizeUsed(b, s);
    }

    /** `b` keeps `s` bytes and the rest becomes a free block, with `n` after it; `tell` says
        whether `n` has yet to learn that it follows a free block. */
    method Carve(b: int, n: int, s: int, tell: bool, ghost X: set<int>)
      requires Sound() && CanCarve(H, A, b, s) && b !in L && b !in X
      requires n == Next(H, b) && EndOk(n) && (tell || S[n].prevFree || H[n].lost) && PrevTrue(H, S, b)
      requires Truthful(H, S, X + {b, n}) && Complete(H, L, X)
      requires L.Keys + {Rest(b, s)} <= K && H.Keys + {Rest(b, s)} <= D
      modifies `mem, `matrix, `slBitmap, `flBitmap, `L, `clock, `H, `S
      ensures Sound() && H == Carved(old(H), b, s, tell || old(S)[n].prevFree) && SameUsed(old(H), H, {b})
      ensures Truthful(H, S, X - {n}) && Complete(H, L, X - {n})
    {
      ghost var H0, S0, L0, told := H, S, L, tell || S[n].prevFree;
      CarvedTiled(H, A, b, s, told);
      ghost var p := CarveRest(b, n, s, tell);
      SetFree(Rest(b, s), told);
      CarvedTruthful(H0, A, S0, L0, X, b, s, p, told, H, S, L);
    }

    // ----- the operations -----

    /** Every header is right, the free blocks are exactly the listed ones. */
    ghost predicate Settled()
      reads `mem, `matrix, `slBitmap, `flBitmap, `L, `clock, `H, `S, `A, `base, `K, `D
    {
      Sound() && Truthful(H, S, {}) && Complete(H, L, {})
    }

    /** Starts a new record of what is written. */
    ghost method Begin(links: set<int>, headers: set<int>)
      requires Settled()
      modifies `base, `K, `D
      ensures Settled() && base == mem && K == links && D == headers
    {
      base, K, D := mem, links, headers;
    }

    /** `EXTRACT_BLOCK_HDR(b, tlsf, fl, sl)`, after which `b` counts as used. */
    method TakeHead(b: int, c: Class)
      requires Settled() && b in L && c.InMatrix() && L[b].cls == c && Head(matrix, c) == b && L.Keys <= K
      modifies `mem, `matrix, `slBitmap, `flBitmap, `L, `H
      ensures Sound() && L == old(L) - {b} && Next(old(H), b) in old(H) && H == Use(old(H), b)
    {
      ghost var m, lk := mem, L.Keys;
      UseEffects(H, S, A, L, b);
      ExtractBlockHdr(b, c);
      StoredFrame(m, mem, H, S, lk);
      H := Use(H, b);
    }

    /** The head `b` of list `c` becomes a used block of at least `s` bytes. */
    method Allocate(b: int, c: Class, s: int)
      requires Settled() && b in L && c.InMatrix() && L[b].cls == c && Head(matrix, c) == b
      requires MIN_BLOCK <= s <= H[b].size && s % 8 == 0
      requires L.Keys + Rests(H, b, s) <= K && H.Keys + Rests(H, b, s) <= D
      modifies `mem, `matrix, `slBitmap, `flBitmap, `L, `clock, `H, `S
      ensures Settled() && b in H && IsLive(H, A, b) && s <= H[b].size < s + OVERHEAD + MIN_BLOCK
      ensures H[b].size == Fitted(old(H)[b].size, s)
      ensures SameUsed(old(H), H, {b})
    {
      UseEffects(H, S, A, L, b);
      TakeHead(b, c);
      CutOrUse(b, s);
    }

    /** The block `b`, off its list already, keeps `s` bytes, or all of it. */
    method CutOrUse(b: int, s: int)
      requires Sound() && b in H && IsLive(H, A, b) && b !in L && Complete(H, L, {}) && Truthful(H, S, {b, Next(H, b)})
      requires After(b) && !H[Next(H, b)].prevFree && (S[Next(H, b)].prevFree || H[Next(H, b)].lost)
      requires S[b].size == H[b].size && PrevTrue(H, S, b) && MIN_BLOCK <= s <= H[b].size && s % 8 == 0
      requires L.Keys + Rests(H, b, s) <= K && H.Keys + Rests(H, b, s) <= D
      modifies `mem, `matrix, `slBitmap, `flBitmap, `L, `clock, `H, `S
      ensures Settled() && b in H && IsLive(H, A, b) && s <= H[b].size < s + OVERHEAD + MIN_BLOCK
      ensures H[b].size == Fitted(old(H)[b].size, s)
      ensures SameUsed(old(H), H, {b})
    {
      BlockInArea(H, A, b);
      var n := NextOf(b);
      var z := SizeOf(b);
      if z - s >= OVERHEAD + MIN_BLOCK {
        Carve(b, n, s, false, {});
      } else {
        UseWhole(b, n);
      }
    }

    /** `next->size &= ~PREV_FREE; b->size &= ~FREE_BLOCK`. */
    method UseWhole(b: int, n: int)
      requires Sound() && Complete(H, L, {}) && b in H && n in H && n != b && Truthful(H, S, {b, n})
      requires !H[b].free && S[b].size == H[b].size && PrevTrue(H, S, b)
      requires TrueButPrev(H, S, n) && !H[n].prevFree && {b, n} <= D
      modifies `mem, `S
      ensures Settled()
    {
      ghost var S0 := S;
      MarkPrevUsed(n);
      MarkUsed(b);
      UsedWhole(H, S0, b, n, S);
    }

    /** The invariant between operations. */
    ghost predicate Valid()
      reads this
    {
      Settled() && Chained(mem, areaHead, A, chain) && Separated(A)
    }

    /** The live allocations and their contents. */
    ghost function Allocations(): map<int, seq<int>>
      requires Layout(H)
      reads `mem, `H, `A
    {
      View(mem, H, A)
    }

    /** The same with a record of what is written. */
    method AllocateBlock(b: int, c: Class, s: int) returns (ghost R: set<int>)
      requires Settled() && b in L && c.InMatrix() && L[b].cls == c && Head(matrix, c) == b
      requires MIN_BLOCK <= s <= H[b].size && s % 8 == 0
      modifies `mem, `matrix, `slBitmap, `flBitmap, `L, `clock, `H, `S, `base, `K, `D
      ensures Settled() && b in H && IsLive(H, A, b) && s <= H[b].size < s + OVERHEAD + MIN_BLOCK
      ensures H[b].size == Fitted(old(H)[b].size, s)
      ensures SameUsed(old(H), H, {b}) && Touched(old(mem), mem, old(L).Keys + R, old(H).Keys + R)
      ensures Confined(old(H), old(L), old(L).Keys + R, old(H).Keys + R, b, R)
    {
      R := Rests(H, b, s);
      BlockInArea(H, A, b);
      BlockInArea(H, A, Next(H, b));
      Begin(L.Keys + R, H.Keys + R);
      Allocate(b, c, s);
    }

    /** The second half of `malloc_ex`: the head `b` of list `c` serves a request of `s` bytes. */
    method Serve(b: int, c: Class, s: int)
      requires Valid() && b in L && c.InMatrix() && L[b].cls == c && Head(matrix, c) == b
      requires MIN_BLOCK <= s <= H[b].size && s % 8 == 0
      modifies this
      ensures Valid() && A == old(A) && chain == old(chain) && areaHead == old(areaHead) && NoNewLoss(old(H), H)
      ensures b !in old(Allocations()) && b in Allocations()
      ensures Allocations() == old(Allocations())[b := Allocations()[b]]
      ensures b > 0 && s <= 4 * |Allocations()[b]| == Fitted(old(H)[b].size, s)
    {
      ghost var mem0, H0, L0 := mem, H, L;
      BlockInArea(H, A, b);
      ghost var R := AllocateBlock(b, c, s);
      AllocatedView(mem0, mem, H0, H, A, L0, b, R, areaHead, chain);
    }

    /** `malloc_ex`. */
    method Malloc(size: nat) returns (ptr: int)
      requires Valid() && size <= MAX_REQUEST
      modifies this
      ensures Valid() && A == old(A) && chain == old(chain) && areaHead == old(areaHead) && NoNewLoss(old(H), H)
      // NULL exactly when a scan finds no free block of the rounded size, and then nothing changes
      ensures ptr == 0 <==> NoneFits(old(H), Adjust(size))
      ensures ptr == 0 ==> unchanged(this)
      // otherwise a new allocation out of a block of the smallest class that fits, large enough and not
      // much larger; the others keep their contents
      ensures ptr != 0 ==>
        && var b := ptr - OVERHEAD;
        && b !in old(Allocations()) && b in Allocations()
        && Allocations() == old(Allocations())[b := Allocations()[b]]
        && Served(old(H), b, Adjust(size), 4 * |Allocations()[b]|)
    {
      SearchInMatrix(size);
      SearchIsScan(mem, H, L, matrix, slBitmap, flBitmap, clock, Adjust(size));
      var s := MappingSearch(Adjust(size));
      var f := FindSuitable(matrix, slBitmap, flBitmap, s.cls);
      if f.block == 0 {
        return 0;
      }
      Serve(f.block, f.cls, s.size);
      ptr := f.block + OVERHEAD;
    }

    /** `free_ex` on a live pointer, seen from the blocks. */
    method FreeBlock(ptr: int) returns (ghost s: int)
      requires Settled() && ptr - OVERHEAD in H && IsLive(H, A, ptr - OVERHEAD)
      modifies `mem, `matrix, `slBitmap, `flBitmap, `L, `clock, `H, `S, `base, `K, `D
      ensures Settled() && Touched(old(mem), mem, old(L).Keys + {ptr - OVERHEAD}, old(H).Keys)
      ensures Vacated(old(H), H, ptr - OVERHEAD, s)
    {
      ghost var b := ptr - OVERHEAD;
      FreeReady(H, A, S, L, b);
      s := if H[b].prevFree then H[b].prevHdr else b;
      Begin(L.Keys + {b}, H.Keys);
      Release(ptr, {});
    }

    /** `free_ex` on a live pointer. */
    method FreeLive(ptr: int)
      requires Valid() && ptr - OVERHEAD in Allocations()
      modifies this
      ensures Valid() && A == old(A) && chain == old(chain) && areaHead == old(areaHead) && NoNewLoss(old(H), H)
      ensures Allocations() == old(Allocations()) - {ptr - OVERHEAD}
    {
      ghost var mem0, H0, L0 := mem, H, L;
      ghost var s := FreeBlock(ptr);
      FreedView(mem0, mem, H0, H, A, L0, ptr - OVERHEAD, s, areaHead, chain);
    }

    /** `free_ex`. */
    method Free(ptr: int)
      requires Valid() && (ptr == 0 || ptr - OVERHEAD in Allocations())
      modifies this
      ensures Valid() && A == old(A) && chain == old(chain) && areaHead == old(areaHead) && NoNewLoss(old(H), H)
      ensures ptr == 0 ==> unchanged(this)
      ensures ptr != 0 ==> Allocations() == old(Allocations()) - {ptr - OVERHEAD}
    {
      if ptr == 0 {
        return;
      }
      FreeLive(ptr);
    }

    // ----- realloc_ex -----

    /** The branch of `realloc_ex` for a size that `b` has already: `b` is cut to `s` bytes. */
    method Shrink(b: int, s: int)
      requires Settled() && b in H && IsLive(H, A, b) && MIN_BLOCK <= s <= H[b].size && s % 8 == 0
      requires Next(H, b) in H && L.Keys + ResizeRests(H, b, s) <= K && H.Keys + ResizeRests(H, b, s) <= D
      modifies `mem, `matrix, `slBitmap, `flBitmap, `L, `clock, `H, `S
      ensures Settled() && b in H && IsLive(H, A, b) && s <= H[b].size < s + OVERHEAD + MIN_BLOCK
      ensures H[b].size == Fitted(old(Room(H, b)), s)
      ensures SameUsed(old(H), H, {b})
    {
      FreeReady(H, A, S, L, b);
      assert True(H, S, b) && True(H, S, Next(H, b));
      var n := NextOf(b);
      var total := SizeOf(b);
      var f := IsFree(n);
      if f {
        ShrinkAll(b, n, s);
      } else if total - s >= OVERHEAD + MIN_BLOCK {
        Carve(b, n, s, true, {});
      }
    }

    /** The same when the block `n` after `b` is free: both are taken together first. */
    method ShrinkAll(b: int, n: int, s: int)
      requires Settled() && b in H && IsLive(H, A, b) && MIN_BLOCK <= s <= H[b].size && s % 8 == 0
      requires n == Next(H, b) && n in H && H[n].free && EndOk(Beyond(H, b))
      requires L.Keys + ResizeRests(H, b, s) <= K && H.Keys + ResizeRests(H, b, s) <= D
      modifies `mem, `matrix, `slBitmap, `flBitmap, `L, `clock, `H, `S
      ensures Settled() && b in H && IsLive(H, A, b) && H[b].size == s
      ensures H[b].size == Fitted(old(Room(H, b)), s)
      ensures SameUsed(old(H), H, {b})
    {
      ghost var H0 := H;
      assert True(H, S, b);
      BlockInArea(H, A, n);
      var z := TakeAfter(b, n, {});
      assert CanCarve(H, A, b, s);
      Carve(b, n + OVERHEAD + z, s, true, {});
    }

    /** `next->prev_hdr = b; next->size &= ~PREV_FREE`. */
    method TellUsed(b: int, t: int)
      requires Sound() && b in H && t == Next(H, b) && t in H && t != b && {b, t} <= D
      requires Truthful(H, S, {b, t}) && True(H, S, b) && TrueButPrev(H, S, t) && !H[t].prevFree
      modifies `mem, `S
      ensures Sound() && Truthful(H, S, {}) && S[b] == old(S)[b]
    {
      ghost var S0 := S;
      SetPrevHdr(t, b, false);
      MarkPrevUsed(t);
      TruthfulAll(H, S0, S, b, t);
    }

    /** The branch of `realloc_ex` that grows `b` into its free successor `n`. */
    method Grow(b: int, n: int, s: int)
      requires Settled() && b in H && IsLive(H, A, b) && MIN_BLOCK <= s && s % 8 == 0
      requires n == Next(H, b) && n in H && H[n].free && H[b].size < s <= H[b].size + H[n].size
      requires L.Keys + ResizeRests(H, b, s) <= K && H.Keys + ResizeRests(H, b, s) <= D
      modifies `mem, `matrix, `slBitmap, `flBitmap, `L, `clock, `H, `S
      ensures Settled() && b in H && IsLive(H, A, b) && s <= H[b].size < s + OVERHEAD + MIN_BLOCK
      ensures H[b].size == Fitted(old(Room(H, b)), s)
      ensures SameUsed(old(H), H, {b})
    {
      FreeReady(H, A, S, L, b);
      assert True(H, S, b) && True(H, S, n);
      MergeNext(b, n, {});
      assert BlockOk(H, A, b);
      Trim(b, s);
    }

    /** The rest of that branch: `b` has taken in its successor and is cut to `s` bytes. */
    method Trim(b: int, s: int)
      requires Sound() && b in H && IsLive(H, A, b) && MIN_BLOCK <= s <= H[b].size && s % 8 == 0
      requires Next(H, b) in H && Truthful(H, S, {b, Next(H, b)}) && True(H, S, b) && Complete(H, L, {})
      requires After(b) && !H[Next(H, b)].prevFree
      requires L.Keys + Rests(H, b, s) <= K && H.Keys + Rests(H, b, s) <= D
      modifies `mem, `matrix, `slBitmap, `flBitmap, `L, `clock, `H, `S
      ensures Settled() && b in H && IsLive(H, A, b) && s <= H[b].size < s + OVERHEAD + MIN_BLOCK
      ensures H[b].size == Fitted(old(H)[b].size, s)
      ensures SameUsed(old(H), H, {b})
    {
      BlockInArea(H, A, b);
      var t := NextOf(b);
      TellUsed(b, t);
      var z := SizeOf(b);
      if z - s >= OVERHEAD + MIN_BLOCK {
        assert True(H, S, t) && True(H, S, b);
        Carve(b, t, s, true, {});
      }
    }

    /** The branches of `realloc_ex` that need no move, seen from the blocks. */
    method ResizeBlock(b: int, s: int) returns (done: bool)
      requires Settled() && b in H && IsLive(H, A, b) && MIN_BLOCK <= s && s % 8 == 0
      modifies `mem, `matrix, `slBitmap, `flBitmap, `L, `clock, `H, `S, `base, `K, `D
      ensures Next(old(H), b) in old(H)
      ensures var n := Next(old(H), b);
        done <==> s <= old(H)[b].size || (old(H)[n].free && s <= old(H)[b].size + old(H)[n].size)
      ensures !done ==> unchanged(this)
      ensures done ==>
        && Settled() && b in H && IsLive(H, A, b) && s <= H[b].size < s + OVERHEAD + MIN_BLOCK
        && H[b].size == Fitted(old(Room(H, b)), s) && SameUsed(old(H), H, {b})
        && Touched(old(mem), mem, old(L.Keys + ResizeRests(H, b, s)), old(H.Keys + ResizeRests(H, b, s)))
    {
      FreeReady(H, A, S, L, b);
      ghost var R := ResizeRests(H, b, s);
      assert True(H, S, b) && True(H, S, Next(H, b));
      var n := NextOf(b);
      var z := SizeOf(b);
      var zn := SizeOf(n);
      var f := IsFree(n);
      done := true;
      if s <= z {
        Begin(L.Keys + R, H.Keys + R);
        Shrink(b, s);
      } else if f && s <= z + zn {
        Begin(L.Keys + R, H.Keys + R);
        Grow(b, n, s);
      } else {
        done := false;
      }
    }

    /** The branches of `realloc_ex` that need no move. */
    method ResizeInPlace(b: int, s: int) returns (done: bool)
      requires Valid() && b in H && IsLive(H, A, b) && MIN_BLOCK <= s && s % 8 == 0
      modifies this
      ensures Valid() && A == old(A) && chain == old(chain) && areaHead == old(areaHead) && NoNewLoss(old(H), H)
      ensures done <==> !CannotGrow(old(H), b, s)
      ensures !done ==> unchanged(this)
      ensures done ==>
        Moved(old(Allocations()), Allocations(), b, b, s) && Cut(old(H), b, s, 4 * |Allocations()[b]|)
    {
      ghost var mem0, H0, L0 := mem, H, L;
      done := ResizeBlock(b, s);
      CanGrow(H0, b, s);
      if done {
        ResizedOthers(mem0, mem, H0, H, A, L0, b, s, areaHead, chain);
        ResizedView(mem0, mem, H0, H, A, L0, b, s);
      }
    }

    /** The client writes word `i` of the allocation `ptr`. */
    method Store(ptr: int, i: nat, w: int)
      requires Valid() && ptr - OVERHEAD in Allocations() && i < |Allocations()[ptr - OVERHEAD]|
      modifies `mem, `base
      ensures Valid()
      ensures var b := ptr - OVERHEAD; Allocations() == old(Allocations())[b := old(Allocations())[b][i := w]]
    {
      ghost var b, m := ptr - OVERHEAD, mem;
      assert BlockOk(H, A, b);
      WordInside(mem.Keys, H, A, b, i);
      WordStored(mem, ptr, H[b].size / 4, i, w);
      mem := mem[ptr + 4 * i := w];
      WithinKept(m, mem, H, A, L, S, matrix, b, areaHead, chain);
      WithinView(m, mem, H, A, b);
      base := mem;
    }

    /** Copies word `i`. */
    method CopyWord(dst: int, src: int, i: nat, ghost v: map<int, seq<int>>)
      requires Valid() && dst - OVERHEAD in v && src - OVERHEAD in v && dst != src
      requires i < |v[dst - OVERHEAD]| && i < |v[src - OVERHEAD]|
      requires Allocations() == v[dst - OVERHEAD := v[src - OVERHEAD][..i] + v[dst - OVERHEAD][i..]]
      modifies `mem, `base
      ensures Valid()
      ensures Allocations() == v[dst - OVERHEAD := v[src - OVERHEAD][..i + 1] + v[dst - OVERHEAD][i + 1..]]
    {
      var w := Load(src, i);
      ghost var x, y := v[src - OVERHEAD], v[dst - OVERHEAD];
      Store(dst, i, w);
      Overwritten(x, y, i);
    }

    /** `memcpy(dst, src, 4 * n)` between two allocations. */
    method Copy(dst: int, src: int, n: nat)
      requires Valid() && dst - OVERHEAD in Allocations() && src - OVERHEAD in Allocations() && dst != src
      requires n <= |Allocations()[dst - OVERHEAD]| && n <= |Allocations()[src - OVERHEAD]|
      modifies `mem, `base
      ensures Valid()
      ensures var d, v := dst - OVERHEAD, old(Allocations());
        Allocations() == v[d := v[src - OVERHEAD][..n] + v[d][n..]]
    {
      ghost var v := Allocations();
      assert v[src - OVERHEAD][..0] + v[dst - OVERHEAD][0..] == v[dst - OVERHEAD];
      for i := 0 to n
        invariant Valid()
        invariant Allocations() == v[dst - OVERHEAD := v[src - OVERHEAD][..i] + v[dst - OVERHEAD][i..]]
      {
        CopyWord(dst, src, i, v);
      }
    }

    /** The client reads word `i` of the allocation `ptr`. */
    method Load(ptr: int, i: nat) returns (w: int)
      requires Valid() && ptr - OVERHEAD in Allocations() && i < |Allocations()[ptr - OVERHEAD]|
      ensures w == Allocations()[ptr - OVERHEAD][i]
    {
      BlockBacked(mem.Keys, H, A, ptr - OVERHEAD);
      assert BlockOk(H, A, ptr - OVERHEAD);
      w := mem[ptr + 4 * i];
    }

    /** `b->size & BLOCK_SIZE` of a live block. */
    method PayloadSize(ptr: int) returns (z: nat)
      requires Valid() && ptr - OVERHEAD in Allocations()
      ensures z == 4 * |Allocations()[ptr - OVERHEAD]|
    {
      ghost var b := ptr - OVERHEAD;
      assert True(H, S, b);
      ViewBytes(mem, H, A, b);
      BlockInArea(H, A, b);
      z := SizeOf(ptr - OVERHEAD);
    }

    method CopyAndFree(dst: int, src: int, n: nat)
      requires Valid() && dst - OVERHEAD in Allocations() && src - OVERHEAD in Allocations() && dst != src
      requires n <= |Allocations()[dst - OVERHEAD]| && n <= |Allocations()[src - OVERHEAD]|
      modifies this
      ensures Valid() && A == old(A) && chain == old(chain) && areaHead == old(areaHead) && NoNewLoss(old(H), H)
      ensures var d, v := dst - OVERHEAD, old(Allocations());
        Allocations() == v[d := v[src - OVERHEAD][..n] + v[d][n..]] - {src - OVERHEAD}
    {
      Copy(dst, src, n);
      FreeLive(src);
    }

    /** `memcpy` into the new allocation `r` and `free_ex` of the old one. */
    method MoveTo(ptr: int, r: int, s: nat, ghost v: map<int, seq<int>>)
      requires Valid() && s % 8 == 0
      requires ptr - OVERHEAD in v && r - OVERHEAD !in v && r - OVERHEAD in Allocations()
      requires Allocations() == v[r - OVERHEAD := Allocations()[r - OVERHEAD]] && s <= 4 * |Allocations()[r - OVERHEAD]|
      modifies this
      ensures Valid() && A == old(A) && chain == old(chain) && areaHead == old(areaHead) && NoNewLoss(old(H), H)
      ensures Moved(v, Allocations(), ptr - OVERHEAD, r - OVERHEAD, s)
      ensures |Allocations()[r - OVERHEAD]| == |old(Allocations())[r - OVERHEAD]|
    {
      ghost var v1 := Allocations();
      var z := PayloadSize(ptr);
      var n: nat := (if z > s then s else z) / 4;
      CopyAndFree(r, ptr, n);
      MovedBy(v, v1, Allocations(), ptr - OVERHEAD, r - OVERHEAD, s, n);
    }

    /** The last branch of `realloc_ex`: allocate, copy, free. */
    method Move(ptr: int, s: nat) returns (r: int)
      requires Valid() && ptr - OVERHEAD in Allocations() && MIN_BLOCK <= s <= MAX_REQUEST && s % 8 == 0
      modifies this
      ensures Valid() && A == old(A) && chain == old(chain) && areaHead == old(areaHead) && NoNewLoss(old(H), H)
      ensures r == 0 <==> NoneFits(old(H), Adjust(s))
      ensures r == 0 ==> unchanged(this)
      ensures r != ptr && (r != 0 ==> Moved(old(Allocations()), Allocations(), ptr - OVERHEAD, r - OVERHEAD, s))
      ensures r != 0 ==> Served(old(H), r - OVERHEAD, Adjust(s), 4 * |Allocations()[r - OVERHEAD]|)
    {
      BlockInArea(H, A, ptr - OVERHEAD);
      ghost var v := Allocations();
      r := Malloc(s);
      if r != 0 {
        MoveTo(ptr, r, s, v);
      }
    }

    /** `realloc_ex` when neither the pointer nor the size is 0. */
    method Resize(ptr: int, size: nat) returns (r: int)
      requires Valid() && ptr - OVERHEAD in Allocations() && 0 < size <= MAX_REQUEST
      modifies this
      ensures Valid() && A == old(A) && chain == old(chain) && areaHead == old(areaHead) && NoNewLoss(old(H), H)
      // NULL exactly when the block cannot grow in place and a scan finds no block; nothing changes then
      ensures r == 0 <==> CannotGrow(old(H), ptr - OVERHEAD, Adjust(size)) && NoneFits(old(H), Adjust(size))
      ensures r == 0 ==> unchanged(this)
      // otherwise in place, whenever that is possible, and cut to size, or moved; the contents survive
      ensures r != 0 ==>
        Reallocated(old(H), old(Allocations()), Allocations(), ptr - OVERHEAD, r - OVERHEAD, Adjust(size)) == true
    {
      var s := Adjust(size);
      BlockInArea(H, A, ptr - OVERHEAD);
      AdjustTwice(size);
      var done := ResizeInPlace(ptr - OVERHEAD, s);
      if done {
        return ptr;
      }
      r := Move(ptr, s);
    }

    /** `realloc_ex`. */
    method Realloc(ptr: int, size: nat) returns (r: int)
      requires Valid() && (ptr == 0 || ptr - OVERHEAD in Allocations()) && size <= MAX_REQUEST
      modifies this
      ensures Valid() && A == old(A) && chain == old(chain) && areaHead == old(areaHead) && NoNewLoss(old(H), H)
      // no size: the allocation, if there is one, is freed
      ensures size == 0 ==> r == 0 && (ptr == 0 ==> unchanged(this))
      ensures size == 0 && ptr != 0 ==> Allocations() == old(Allocations()) - {ptr - OVERHEAD}
      // no pointer: a new allocation, or NULL and no change
      ensures size != 0 && ptr == 0 && r != 0 ==>
        && r - OVERHEAD in Allocations() && r - OVERHEAD !in old(Allocations())
        && Allocations() == old(Allocations())[r - OVERHEAD := Allocations()[r - OVERHEAD]]
        && Served(old(H), r - OVERHEAD, Adjust(size), 4 * |Allocations()[r - OVERHEAD]|) == true
      // both: the allocation with its contents, or NULL and the old allocation intact
      ensures size != 0 && r == 0 ==> unchanged(this)
      ensures size != 0 ==>
        (r == 0 <==> NoneFits(old(H), Adjust(size)) && (ptr != 0 ==> CannotGrow(old(H), ptr - OVERHEAD, Adjust(size))))
      // otherwise in place, whenever that is possible, and cut to size, or moved; the contents survive
      ensures size != 0 && ptr != 0 && r != 0 ==>
        Reallocated(old(H), old(Allocations()), Allocations(), ptr - OVERHEAD, r - OVERHEAD, Adjust(size)) == true
    {
      r := 0;
      if ptr == 0 {
        if size != 0 { r := Malloc(size); }
      } else if size == 0 {
        Free(ptr);
      } else {
        r := Resize(ptr, size);
      }
    }

    // ----- areas -----

    /** `process_area` writes the headers of the information block and of the block behind it. */
    method WriteFront(ib: int, s: int)
      requires {Size(ib), Size(ib + 16), Prev(ib + 16), Succ(ib + 16)} <= mem.Keys && s >= MIN_BLOCK
      modifies `mem
      ensures mem.Keys == old(mem).Keys && OnlyRegion(old(mem), mem, ib, ib + 32 + s)
      ensures mem[Size(ib)] == 8 && mem[Size(ib + 16)] == s
    {
      mem := mem[Size(ib) := 8];
      var b := ib + OVERHEAD + 8;
      mem := mem[Size(b) := s];
      mem := mem[Prev(b) := 0];
      mem := mem[Succ(b) := 0];
    }

    /** `process_area` writes the sentinel and the words of the information block. */
    method WriteBack(ib: int, s: int)
      requires {Prev(ib), Succ(ib), Size(ib + 24 + s), PrevHdr(ib + 24 + s)} <= mem.Keys && s >= MIN_BLOCK
      modifies `mem
      ensures mem.Keys == old(mem).Keys && OnlyRegion(old(mem), mem, ib, ib + 32 + s)
      ensures mem[Size(ib + 24 + s)] == 2 && mem[PrevHdr(ib + 24 + s)] == ib + 16
      ensures mem[Prev(ib)] == ib + 24 + s && mem[Succ(ib)] == 0
      ensures forall a | a in {Size(ib), Size(ib + 16)} && a in mem :: mem[a] == old(mem)[a]
    {
      var lb := ib + OVERHEAD + 8 + OVERHEAD + s;
      mem := mem[PrevHdr(lb) := ib + OVERHEAD + 8];
      mem := mem[Size(lb) := 2];
      mem := mem[Succ(ib) := 0];
      mem := mem[Prev(ib) := lb];
    }

    /** The writes of `process_area`. */
    method WriteArea(ib: int, s: int)
      requires ib % 4 == 0 && s % 8 == 0 && s >= MIN_BLOCK && Covers(mem.Keys, ib, ib + 32 + s)
      modifies `mem
      ensures mem.Keys == old(mem).Keys && OnlyRegion(old(mem), mem, ib, ib + 32 + s) && AreaWritten(mem, ib, s)
    {
      AreaCells(mem.Keys, ib, s);
      WriteFront(ib, s);
      WriteBack(ib, s);
    }

    /** The same within the record of what is written. */
    ghost method Become(H': Blocks, A': Areas, S': Blocks)
      requires Sound() && Tiled(H', A') && Backed(mem.Keys, A') && Stored(mem, S') && S'.Keys == H'.Keys && Filed(H', L)
      modifies `H, `S, `A
      ensures Sound() && H == H' && A == A' && S == S'
    {
      H, S, A := H', S', A';
    }

    ghost method Relabel(H': Blocks)
      requires Sound() && Tiled(H', A) && H'.Keys == H.Keys && Filed(H', L)
      modifies `H
      ensures Sound() && H == H'
    {
      H := H';
    }

    /** The record of blocks, areas and headers becomes `H'`, `A'`, `S'`. */
    ghost method Adopt(H': Blocks, A': Areas, S': Blocks)
      requires Indexed() && Tiled(H', A') && Backed(mem.Keys, A') && Stored(mem, S') && S'.Keys == H'.Keys && Filed(H', L)
      modifies `H, `S, `A, `base, `K, `D
      ensures Sound() && H == H' && A == A' && S == S'
    {
      H, S, A, base, K, D := H', S', A', mem, {}, {};
    }

    /** To the blocks `H0` and the areas `A0` a fresh area has been added. */
    ghost predicate LaidOut(H0: Blocks, A0: Areas, ib: int, s: int)
      reads this
    {
      && H == NewArea(H0, ib, s) && A == A0[ib := ib + 24 + s] && AreaWritten(mem, ib, s)
      && Sound() && Truthful(H, S, {ib + 24 + s}) && Complete(H, L, {}) && TrueButPrev(H, S, ib + 24 + s)
    }

    /** `process_area`: an information block, one block and a sentinel. */
    method ProcessArea(area: int, size: int) returns (ib: int)
      requires Settled() && AreaRoom(A, area, AreaBlock(size)) && Covers(mem.Keys, area, area + 32 + AreaBlock(size))
      modifies `mem, `H, `S, `A, `base, `K, `D
      ensures ib == area && ib !in old(A) && mem.Keys == old(mem).Keys
      ensures OnlyRegion(old(mem), mem, ib, ib + 32 + AreaBlock(size)) && LaidOut(old(H), old(A), ib, AreaBlock(size))
    {
      ghost var m := mem;
      ib := area;
      var s := AreaBlock(size);
      WriteArea(ib, s);
      AdoptArea(m, ib, s);
    }

    /** What has been written is a fresh area; `m` is the memory before. */
    ghost method AdoptArea(m: Memory, ib: int, s: int)
      requires Linked(m, L, matrix) && BitmapsOk(matrix, slBitmap, flBitmap) && (forall b | b in L :: L[b].stamp < clock)
      requires Tiled(H, A) && Backed(m.Keys, A) && Stored(m, S) && S.Keys == H.Keys && Filed(H, L)
      requires Truthful(H, S, {}) && Complete(H, L, {}) && AreaRoom(A, ib, s) && AreaWritten(mem, ib, s)
      requires Covers(mem.Keys, ib, ib + 32 + s) && OnlyRegion(m, mem, ib, ib + 32 + s)
      modifies `H, `S, `A, `base, `K, `D
      ensures ib !in old(A) && LaidOut(old(H), old(A), ib, s)
    {
      var H', A' := NewArea(H, ib, s), A[ib := ib + 24 + s];
      var S' := NewStored(S, ib, s, mem[PrevHdr(ib)], mem[PrevHdr(ib + 16)]);
      NewAreaSound(m, mem, H, A, L, S, matrix, ib, s, H', A', S');
      Adopt(H', A', S');
    }

    /** `memset` of the control structure. */
    method ClearControl()
      modifies this
      ensures Settled() && H == map[] && A == map[] && L == map[] && mem == old(mem)
    {
      matrix := EmptyMatrix();
      slBitmap := EmptyBitmap();
      flBitmap := ZERO;
      EmptyIndexed(mem);
      areaHead := 0;
      H, A, L, S, chain := map[], map[], map[], map[], [];
      base, K, D := mem, {}, {};
    }

    ghost method Note(links: set<int>, headers: set<int>)
      requires Sound()
      modifies `base, `K, `D
      ensures Sound() && base == mem && K == links && D == headers
    {
      base, K, D := mem, links, headers;
    }

    /** The block of a single new area becomes free. */
    method FreeFirst(ib: int, ghost s: int)
      requires LaidOut(map[], map[], ib, s) == true && L == map[] && s >= MIN_BLOCK
      modifies `mem, `matrix, `slBitmap, `flBitmap, `L, `clock, `H, `S, `base, `K, `D
      ensures Settled() && ib + 16 in H && H[ib + 16].free && H[ib + 16].size == s && SameUsed(old(H), H, {ib + 16})
      ensures Touched(old(mem), mem, {ib + 16}, {ib, ib + 16, ib + 24 + s})
    {
      FirstSound(ib, s);
      Note({ib + 16}, {ib, ib + 16, ib + 24 + s});
      MayFreeFirst(ib, s);
      Release(ib + 16 + OVERHEAD, {ib + 24 + s});
      assert {ib + 16, ib + 16} == {ib + 16};
    }

    lemma FirstSound(ib: int, s: int)
      requires LaidOut(map[], map[], ib, s) == true
      ensures Sound() && FirstLaid(ib, s) == true
    {
    }

    /** The fresh area is the only one. */
    ghost predicate FirstLaid(ib: int, s: int)
      reads `H, `A, `S
    {
      && H == NewArea(map[], ib, s) && A == map[ib := ib + 24 + s]
      && S.Keys == H.Keys && Truthful(H, S, {ib + 24 + s}) && TrueButPrev(H, S, ib + 24 + s)
    }

    lemma MayFreeFirst(ib: int, s: int)
      requires Sound() && FirstLaid(ib, s) == true && L == map[] && s >= MIN_BLOCK
      requires K == {ib + 16} && D == {ib, ib + 16, ib + 24 + s}
      ensures Releasable(ib + 16, {ib + 24 + s}) == true && Beyond(H, ib + 16) == ib + 24 + s && !H[ib + 16].prevFree
    {
      FirstReady(H, A, ib, s);
    }

    /** The new area is the only one: its block becomes free, and it is listed. */
    method ReleaseFirst(ib: int, ghost s: int)
      requires LaidOut(map[], map[], ib, s) == true && L == map[] && s >= MIN_BLOCK
      modifies this
      ensures Valid() && Tight(H) && A == old(A) && chain == [ib] && Allocations() == map[]
      ensures H.Keys == {ib, ib + 16, ib + 24 + s} && H[ib + 16].free && H[ib + 16].size == s
    {
      ghost var m, H0 := mem, H;
      FreeFirst(ib, s);
      FirstFreed(m, mem, H0, H, A, ib, s);
      SetAreaHead(ib, [ib]);
    }

    /** `tlsf->area_head = i->ptr.buffer`. */
    method SetAreaHead(i: int, ghost c: seq<int>)
      modifies `areaHead, `chain
      ensures areaHead == i + OVERHEAD && chain == c
    {
      areaHead := i + OVERHEAD;
      chain := c;
    }

    method FirstArea(size: int, ib: int)
      requires AreaRoom(map[], ib, AreaBlock(size)) && Covers(mem.Keys, ib, ib + 32 + AreaBlock(size))
      modifies this
      ensures Valid() && Tight(H) && A == map[ib := ib + 24 + AreaBlock(size)] && chain == [ib] && Allocations() == map[]
      ensures H.Keys == {ib, ib + 16, ib + 24 + AreaBlock(size)} && H[ib + 16].free && H[ib + 16].size == AreaBlock(size)
    {
      ClearControl();
      var b := ProcessArea(ib, size);
      OneArea(map[], ib, ib + 24 + AreaBlock(size));
      ReleaseFirst(ib, AreaBlock(size));
    }

    /** `init_memory_pool`; `signed` tells whether the pool carries the signature already, and then it
        is the size of the information block that is returned. */
    method InitMemoryPool(size: int, pool: int, signed: bool) returns (r: int)
      requires 0 <= size && 0 <= pool && pool + size <= ADDRESS_LIMIT
      requires Accepted(size, pool) && !signed ==> FirstRoom(size, pool) && Covers(mem.Keys, pool, FirstEnd(size, pool))
      requires Accepted(size, pool) && signed ==> Valid() && pool + 3184 in A
      modifies this
      ensures !Accepted(size, pool) ==> r == ADDRESS_LIMIT - 1 && unchanged(this)
      ensures Accepted(size, pool) && signed ==> r == MIN_BLOCK && unchanged(this)
      ensures Accepted(size, pool) && !signed ==>
        && Valid() && Tight(H) && Allocations() == map[] && r == FirstBlock(size)
        && A == map[pool + 3184 := pool + 3208 + r] && chain == [pool + 3184] && H.Keys == {pool + 3184, pool + 3200, pool + 3208 + r}
        && H[pool + 3200].free && H[pool + 3200].size == r && (pool + 3216 + r <= pool + size <==> size % 8 < 4)
    {
      if pool == 0 || size == 0 || size < CONTROL_SIZE + 8 * OVERHEAD || pool % 4 != 0 {
        return ADDRESS_LIMIT - 1;
      }
      var ib := pool + RoundUp(CONTROL_SIZE);
      if signed {
        assert BlockOk(H, A, ib) && True(H, S, ib);
        r := SizeOf(ib);
        return;
      }
      FirstAreaRoom(size, pool);
      FirstArea(RoundDown(size - CONTROL_SIZE), ib);
      assert True(H, S, ib + 16);
      r := SizeOf(ib + 16);
    }

    // ----- add_new_area -----

    /** The area at `ib`, with its live block `b`, is not in the list of areas yet. */
    ghost predicate Open(ib: int, b: int)
      reads this
    {
      Sound() && Joining(H, A, S, L, ib, b) && Chained(mem, areaHead, A - {ib}, chain)
    }

    /** `((area_info_t *) i->ptr.buffer)->next = v`. */
    method SetNextArea(i: int, v: int)
      requires Sound() && i in A && i !in L && i in K
      modifies `mem
      ensures Sound() && Succ(i) in old(mem) && mem == old(mem)[Succ(i) := v]
    {
      assert BlockOk(H, A, i);
      BlockBacked(mem.Keys, H, A, i);
      LinkableSpaced(H, L.Keys + {i});
      ghost var m := mem;
      mem := mem[Succ(i) := v];
      forall x | x in L ensures Apart(x, i) {
        assert x in L.Keys + {i};
      }
      LinkedFrame(m, mem, L, matrix);
      StoredFrame(m, mem, H, S, {i});
    }

    /** `prev->next = ptr->next`, or the same for the head of the list. */
    method PassOver(ptr: int, prev: int, ghost B: Areas, ghost k: nat) returns (next: int)
      requires Sound() && Complete(H, L, {}) && B.Keys <= A.Keys && Chained(mem, areaHead, B, chain) && A.Keys <= K
      requires k < |chain| && ptr == chain[k] + OVERHEAD && (k > 0 ==> prev == chain[k - 1] + OVERHEAD)
      modifies `mem, `areaHead
      ensures Sound() && Succ(chain[k]) in old(mem) && next == old(mem)[Succ(chain[k])] == ChainNext(chain, k + 1)
      ensures mem == if k == 0 then old(mem) else old(mem)[Succ(chain[k - 1]) := next]
      ensures areaHead == if k == 0 then next else old(areaHead)
    {
      assert InfoOk(mem, B, chain, k);
      next := mem[Succ(ptr - OVERHEAD)];
      if areaHead == ptr {
        areaHead := next;
      } else {
        assert InfoOk(mem, B, chain, k - 1) && BlockOk(H, A, chain[k - 1]);
        SetNextArea(prev - OVERHEAD, next);
      }
    }

    /** Takes the area whose record is at `ptr` out of the list; `prev` is the record before it. */
    method Drop(ptr: int, prev: int, ghost ib: int, ghost k: nat) returns (next: int)
      requires Sound() && Complete(H, L, {}) && Chained(mem, areaHead, A - {ib}, chain)
      requires k < |chain| && ptr == chain[k] + OVERHEAD && (k > 0 ==> prev == chain[k - 1] + OVERHEAD)
      modifies `mem, `areaHead, `chain, `base, `K, `D
      ensures Sound() && chain == Without(old(chain), k) && next == ChainNext(chain, k)
      ensures Chained(mem, areaHead, A - {ib} - {old(chain)[k]}, chain) && Touched(old(mem), mem, A.Keys, {})
    {
      ghost var m, head := mem, areaHead;
      Note(A.Keys, {});
      next := PassOver(ptr, prev, A - {ib}, k);
      DropChained(m, mem, head, H, A, A - {ib}, chain, k);
      chain := Without(chain, k);
    }

    /** What the block `b` and the first block `c` of an area take up together, the headers between them included. */
    method BothSizes(ghost ib: int, b: int, c: int) returns (z: int)
      requires Sound() && Joining(H, A, S, L, ib, b) == true && c in H && IsFirst(H, c)
      ensures z == H[b].size + H[c].size + 2 * OVERHEAD
    {
      assert BlockOk(H, A, b) && BlockOk(H, A, c) && True(H, S, c);
      var z0 := SizeOf(b);
      var z1 := SizeOf(c);
      z := z0 + z1 + 2 * OVERHEAD;
    }

    ghost method FuseAfter(ib: int, j: int, b: int)
      requires Sound() && Joining(H, A, S, L, ib, b) == true && Touching(H, A, ib, j) == true
      requires Next(H, b) == A[ib] && b < A[ib]
      modifies `H, `S, `A
      ensures Sound() && H == FusedNext(old(H), old(A), ib, j, b) && A == BridgeAreas(old(A), ib, j)
      ensures S == old(S) - {old(A)[ib], j} && b in H && Truthful(H, S, {b}) && Complete(H, L, {})
      ensures j in old(H) && Next(H, b) == Next(old(H), j) && Next(H, b) in H
    {
      assert BlockOk(H, A, A[ib]);
      BridgeBacked(mem.Keys, A, ib, j);
      FusedNextTiled(H, A, ib, j, b);
      StoredWithout(mem, S, A[ib], j);
      assert Loose(H, b) + {b} == {b, A[ib]};
      FusedNextHeaders(H, A, S, L, ib, j, b, FusedNext(H, A, ib, j, b), S - {A[ib], j});
      Become(FusedNext(H, A, ib, j, b), BridgeAreas(A, ib, j), S - {A[ib], j});
    }

    /** The header writes of the first merge. */
    method WriteAfter(b0: int, b1: int, z: int)
      requires Sound() && b0 in H && Truthful(H, S, {b0}) && Complete(H, L, {}) && {b0, b1} <= D
      requires LiveAt(H, A, b0) && Next(H, b0) == b1 && b1 in H && z == H[b0].size && H[b0].area in A
      modifies `mem, `S
      ensures Sound() && Joining(H, A, S, L, H[b0].area, b0) && !S[b0].prevFree
    {
      assert BlockOk(H, A, b0) && HeaderOk(mem, S, b0);
      ghost var k := S[b0].(size := z, free := false, prevFree := false);
      SetSize(b0, RoundDown(z), k);
      SetPrevHdr(b1, b0, false);
      JoiningAfter(H, A, old(S), S, L, b0, b1, k);
    }

    /** The blocks of the new area, with `b0` at its end, and of area `j` behind it. */
    method JoinAfter(b0: int, ib1: int, b1: int, ghost ib: int, ghost j: int)
      requires Sound() && Joining(H, A, S, L, ib, b0) && ib1 == j
      requires Touching(H, A, ib, j) && Next(H, b0) == A[ib] && b0 < A[ib] && b1 == Next(H, j)
      modifies `mem, `H, `S, `A, `base, `K, `D
      ensures Sound() && Joining(H, A, S, L, ib, b0) && !S[b0].prevFree && Touched(old(mem), mem, {}, old(H).Keys)
      ensures A == BridgeAreas(old(A), ib, j) && H == FusedNext(old(H), old(A), ib, j, b0)
    {
      assert BlockOk(H, A, j) && BlockOk(H, A, A[ib]) && BlockOk(H, A, b0);
      var z := BothSizes(ib, b0, ib1);
      Note({}, H.Keys);
      FusedNextBlock(H, A, ib, j, b0, b0);
      FusedNextLive(H, A, ib, j, b0);
      FuseAfter(ib, j, b0);
      WriteAfter(b0, b1, z);
    }

    /** The new area is joined with the area behind it, whose record is at `ptr`. */
    method MergeAfter(b0: int, ptr: int, prev: int, b1: int, ghost ib: int, ghost k: nat) returns (next: int)
      requires Open(ib, b0) && k < |chain| && ptr == chain[k] + OVERHEAD && (k > 0 ==> prev == chain[k - 1] + OVERHEAD)
      requires Touching(H, A, ib, chain[k]) && Next(H, b0) == A[ib] && b0 < A[ib] && b1 == Next(H, chain[k])
      modifies `mem, `areaHead, `chain, `H, `S, `A, `base, `K, `D
      ensures Open(ib, b0) && A == BridgeAreas(old(A), ib, old(chain)[k]) && H == FusedNext(old(H), old(A), ib, old(chain)[k], b0)
      ensures chain == Without(old(chain), k) && next == ChainNext(chain, k) && !S[b0].prevFree
      ensures Allocations() - {b0} == old(Allocations()) - {b0}
    {
      ghost var j, m0, H0, A0 := chain[k], mem, H, A;
      next := Drop(ptr, prev, ib, k);
      ghost var m1 := mem;
      JoinAfter(b0, ptr - OVERHEAD, b1, ib, j);
      MergedAfter(m0, m1, mem, H0, A0, ib, j, b0, areaHead, chain);
    }

    ghost method FuseBefore(i: int, ib: int, b: int)
      requires Sound() && Joining(H, A, S, L, ib, b) == true && Touching(H, A, i, ib) == true && b == ib + 16
      modifies `H, `S, `A
      ensures old(A)[i] != b && H == FusedPrev(old(H), old(A), i, ib, b) && A == BridgeAreas(old(A), i, ib)
      ensures Sound() && S == old(S) - {b, ib} && Complete(H, L, {})
      ensures var lb, n := old(A)[i], old(Next(H, b));
        && lb in H && Next(H, lb) == n && n in H && TrueButPrev(H, S, n) && n != lb
        && PrevTrue(H, S, lb) && Truthful(H, S, Loose(H, lb) + {lb})
        && LiveAt(H, A, lb) && H[lb].area == i && H[lb].size == old(H)[b].size + 24
    {
      assert BlockOk(H, A, A[i]) && BlockOk(H, A, b) && BlockOk(H, A, ib);
      BridgeBacked(mem.Keys, A, i, ib);
      FusedPrevTiled(H, A, i, ib, b);
      StoredWithout(mem, S, b, ib);
      FusedPrevHeaders(H, A, S, L, i, ib, b, Loose(H, b), FusedPrev(H, A, i, ib, b), S - {b, ib});
      FusedPrevBlock(H, A, i, ib, b, A[i]);
      FusedPrevLive(H, A, i, ib, b);
      Become(FusedPrev(H, A, i, ib, b), BridgeAreas(A, i, ib), S - {b, ib});
    }

    /** The header writes of the second merge. */
    method WriteBefore(lb: int, z: int)
      requires Sound() && LiveAt(H, A, lb) && Next(H, lb) in H && Next(H, lb) != lb && TrueButPrev(H, S, Next(H, lb))
      requires Truthful(H, S, Loose(H, lb) + {lb}) == true && Complete(H, L, {}) == true && {lb, Next(H, lb)} <= D
      requires PrevTrue(H, S, lb)
      requires z == H[lb].size && H[lb].area in A
      modifies `mem, `S
      ensures Sound() && Joining(H, A, S, L, H[lb].area, lb) && True(H, S, lb)
    {
      assert BlockOk(H, A, lb);
      ghost var S0 := S;
      SetSizeUsed(lb, RoundDown(z));
      var n := NextOf(lb);
      SetPrevHdr(n, lb, false);
      JoiningBefore(H, A, S0, S, L, lb, n);
    }

    /** The blocks of area `i` and of the new area behind it, which begins with `b0`. */
    method JoinBefore(ib: int, b0: int, lb: int, ghost i: int)
      requires Sound() && Joining(H, A, S, L, ib, b0) && Touching(H, A, i, ib) && b0 == ib + 16 && lb == A[i]
      modifies `mem, `H, `S, `A, `base, `K, `D
      ensures b0 != lb && A == BridgeAreas(old(A), i, ib) && H == FusedPrev(old(H), old(A), i, ib, b0)
      ensures Sound() && Joining(H, A, S, L, i, lb) && True(H, S, lb) && Touched(old(mem), mem, {}, old(H).Keys)
    {
      assert BlockOk(H, A, lb) && BlockOk(H, A, b0) && BlockOk(H, A, ib);
      var z := BothSizes(ib, b0, ib);
      Note({}, H.Keys);
      FuseBefore(i, ib, b0);
      WriteBefore(lb, z);
    }

    /** The new area is joined with the area before it, whose record is at `ptr`. */
    method MergeBefore(ib: int, b0: int, lb: int, ptr: int, prev: int, ghost k: nat) returns (next: int)
      requires Open(ib, b0) && k < |chain| && ptr == chain[k] + OVERHEAD && (k > 0 ==> prev == chain[k - 1] + OVERHEAD)
      requires Touching(H, A, chain[k], ib) && b0 == ib + 16 && lb == A[chain[k]]
      modifies `mem, `areaHead, `chain, `H, `S, `A, `base, `K, `D
      ensures b0 != lb && Open(old(chain)[k], lb) && True(H, S, lb)
      ensures A == BridgeAreas(old(A), old(chain)[k], ib) && H == FusedPrev(old(H), old(A), old(chain)[k], ib, b0)
      ensures chain == Without(old(chain), k) && next == ChainNext(chain, k)
      ensures Allocations() - {lb} == old(Allocations()) - {b0}
    {
      ghost var i, m0, H0, A0 := chain[k], mem, H, A;
      next := Drop(ptr, prev, ib, k);
      ghost var m1 := mem;
      JoinBefore(ib, b0, lb, i);
      MergedBefore(m0, m1, mem, H0, A0, i, ib, b0, areaHead, chain);
    }

    /** `memset(area, 0, size)` on memory that no area meets. */
    method ClearRegion(area: int, size: int)
      requires Valid() && 0 < size && Disjoint(A, area, area + size)
      modifies `mem, `base, `K, `D
      ensures Valid() && Allocations() == old(Allocations()) && Covers(mem.Keys, area, area + size)
    {
      ghost var m := mem;
      ClearWords(area, size);
      RegionChained(m, mem, H, A, area, area + size, areaHead, chain);
      RegionView(m, mem, H, A, area, area + size);
    }

    method ClearWords(area: int, size: int)
      requires Sound() && 0 < size && Disjoint(A, area, area + size)
      modifies `mem, `base, `K, `D
      ensures Sound() && mem == old(mem) + Zeros(area, size)
    {
      ghost var m := mem;
      mem := mem + Zeros(area, size);
      RegionKept(m, mem, H, A, L, S, matrix, area, area + size);
      base, K, D := mem, {}, {};
    }

    /** To the blocks `H0` and the areas `A0` a fresh area has been added, ready to be joined. */
    ghost predicate FreshArea(H0: Blocks, A0: Areas, ib: int, s: int)
      reads this
    {
      && Open(ib, ib + 16) && True(H, S, ib + 16) && H == NewArea(H0, ib, s) && A == A0[ib := ib + 24 + s]
      && Next(H, ib + 16) == A[ib] && !H[ib + 16].prevFree
    }

    /** A fresh area, ready to be joined with others. */
    method StartArea(area: int, size: int) returns (ib: int)
      requires Valid() && AreaRoom(A, area, AreaBlock(size)) && Covers(mem.Keys, area, area + 32 + AreaBlock(size))
      modifies `mem, `H, `S, `A, `base, `K, `D
      ensures ib == area && ib !in old(A) && FreshArea(old(H), old(A), ib, AreaBlock(size))
      ensures Allocations() - {ib + 16} == old(Allocations())
    {
      ghost var m, H0, A0, s := mem, H, A, AreaBlock(size);
      ib := ProcessArea(area, size);
      StartJoining(H0, A0, H, A, S, L, ib, s);
      StartView(m, mem, H0, A0, H, A, ib, s);
      RegionChained(m, mem, H0, A0, ib, ib + 32 + s, areaHead, chain);
    }

    /** The new area, with the sentinel `lb`, becomes the first of the list. */
    method ListArea(ib: int, lb: int, ghost b: int)
      requires Open(ib, b) && lb == A[ib]
      modifies `mem, `areaHead, `chain, `base, `K, `D
      ensures Sound() && Joining(H, A, S, L, ib, b) == true && Chained(mem, areaHead, A, chain) == true
      ensures areaHead == ib + OVERHEAD && chain == [ib] + old(chain)
      ensures Allocations() - {b} == old(Allocations()) - {b}
    {
      ghost var m := mem;
      WriteRecord(ib, lb);
      ListedArea(m, mem, areaHead, H, A, ib, b, chain);
      SetAreaHead(ib, [ib] + chain);
    }

    method WriteRecord(ib: int, lb: int)
      requires Sound() && ib in A && Complete(H, L, {})
      modifies `mem, `base, `K, `D
      ensures Sound() && {Prev(ib), Succ(ib)} <= old(mem).Keys && mem == old(mem)[Succ(ib) := areaHead][Prev(ib) := lb]
      ensures Touched(old(mem), mem, A.Keys, {})
    {
      Note(A.Keys, {});
      assert BlockOk(H, A, ib);
      SetNextArea(ib, areaHead);
      SetEnd(ib, lb);
    }

    /** `((area_info_t *) i->ptr.buffer)->end = lb`. */
    method SetEnd(i: int, lb: int)
      requires Sound() && i in A && i !in L && i in K
      modifies `mem
      ensures Sound() && Prev(i) in old(mem) && mem == old(mem)[Prev(i) := lb]
    {
      assert BlockOk(H, A, i);
      BlockBacked(mem.Keys, H, A, i);
      LinkableSpaced(H, L.Keys + {i});
      ghost var m := mem;
      mem := mem[Prev(i) := lb];
      forall x | x in L ensures Apart(x, i) {
        assert x in L.Keys + {i};
      }
      LinkedFrame(m, mem, L, matrix);
      StoredFrame(m, mem, H, S, {i});
    }

    /** Ghost: if the header of `b` has lost its remark, that is noted. */
    ghost method Prepare(b: int, ib: int)
      requires Sound() && Joining(H, A, S, L, ib, b)
      modifies `H, `base, `K, `D
      ensures Sound() && base == mem && K == L.Keys + {b} && D == H.Keys && Ready(b)
      ensures H == if old(Lost(H, S, b)) then Forget(old(H), b) else old(H)
      ensures Allocations() == old(Allocations()) && Beyond(H, b) == old(Beyond(H, b))
    {
      if Lost(H, S, b) {
        Forgotten(H, A, S, L, ib, b);
        ForgottenView(mem, H, A, b);
        Relabel(Forget(H, b));
      }
      assert True(H, S, b);
      Note(L.Keys + {b}, H.Keys);
    }

    /** The header at `b` tells how far the free block that now holds it goes from there. */
    ghost predicate Returned(b: int, e: int)
      reads `mem, `H
    {
      FreeExtent(H, b, e) && Size(b) in mem && SizeBits(mem[Size(b)]) == e - b - OVERHEAD
    }

    /** `b` may be freed. */
    ghost predicate Ready(b: int)
      reads `H, `A, `S, `L
    {
      && S.Keys == H.Keys && LiveAt(H, A, b) && Next(H, b) in H && True(H, S, b)
      && Truthful(H, S, Loose(H, b)) && Complete(H, L, {}) && TrueButPrev(H, S, Next(H, b))
    }

    lemma MayClose(b: int)
      requires Sound() && Ready(b) && K == L.Keys + {b} && D == H.Keys
      ensures Releasable(b, Loose(H, b)) == true && Loose(H, b) - {Beyond(H, b)} == {}
      ensures b < Beyond(H, b) && (H[b].prevFree ==> H[b].prevHdr in H && H[H[b].prevHdr].free && H[b].prevHdr < b)
    {
      BlockInArea(H, A, b);
      CloseReady(H, A, S, L, b);
    }

    /** The block of the joined area is freed. */
    method CloseBlock(b: int)
      requires Sound() && Ready(b) && base == mem && K == L.Keys + {b} && D == H.Keys
      requires Chained(mem, areaHead, A, chain)
      modifies `mem, `matrix, `slBitmap, `flBitmap, `L, `clock, `H, `S
      ensures Settled() && Chained(mem, areaHead, A, chain) && Allocations() == old(Allocations()) - {b}
      ensures var s := if old(H)[b].prevFree then old(H)[b].prevHdr else b;
        && SameUsed(old(H), H, {b, s}) && SameBelow(old(H), H, s) && s in H && H[s].free
        && s in old(H) && H[s].prevFree == old(H)[s].prevFree
      ensures Returned(b, old(Beyond(H, b)))
    {
      ghost var mem0, H0, L0 := mem, H, L;
      ghost var s := if H[b].prevFree then H[b].prevHdr else b;
      MayClose(b);
      Release(b + OVERHEAD, Loose(H, b));
      FreedView(mem0, mem, H0, H, A, L0, b, s, areaHead, chain);
    }

    /** Reads the first block of the area whose record is at `ptr`, and its sentinel. */
    method ReadArea(ptr: int, ghost ib: int, ghost b: int, ghost k: nat) returns (b1: int, lb1: int)
      requires Open(ib, b) && k < |chain| && ptr == chain[k] + OVERHEAD
      ensures chain[k] in A && chain[k] != ib && chain[k] in H && b1 == Next(H, chain[k]) && lb1 == A[chain[k]]
    {
      assert InfoOk(mem, A - {ib}, chain, k);
      assert BlockOk(H, A, chain[k]) && BlockOk(H, A, b) && True(H, S, chain[k]);
      b1 := NextOf(ptr - OVERHEAD);
      lb1 := mem[Prev(ptr - OVERHEAD)];
    }

    /** `ptr->next`. */
    method NextArea(ptr: int, ghost ib: int, ghost b: int, ghost k: nat) returns (next: int)
      requires Open(ib, b) && k < |chain| && ptr == chain[k] + OVERHEAD
      ensures next == ChainNext(chain, k + 1)
    {
      assert InfoOk(mem, A - {ib}, chain, k);
      next := mem[Succ(ptr - OVERHEAD)];
    }

    /** The pass has dealt with `n` entries of the original list, of which `k` are still there. */
    ghost predicate Walking(o: Start, ib: int, b: int, k: nat, n: nat, px: int, ny: int, ptr: int, prev: int)
      reads this
    {
      && Open(ib, b) && StartOk(o) && Progress(o, H, A, S, ib, b, n, px, ny) && Passed(o, chain, k, n)
      && Extent(o, H, b, ny)
      && ptr == ChainNext(chain, k) && (k > 0 ==> prev == chain[k - 1] + OVERHEAD)
    }

    method StepAfter(b0: int, ptr: int, prev: int, b1: int,
                     ghost o: Start, ghost ib: int, ghost k: nat, ghost n: nat, ghost px: int, ghost ny: int)
      returns (next: int)
      requires Walking(o, ib, b0, k, n, px, ny, ptr, prev) == true && k < |chain|
      requires ib in A && chain[k] in H && chain[k] == A[ib] + OVERHEAD && b1 == Next(H, chain[k])
      modifies `mem, `areaHead, `chain, `H, `S, `A, `base, `K, `D
      ensures Walking(o, ib, b0, k, n + 1, px, n, next, prev) && ptr - OVERHEAD in old(A) && A[ib] == old(A)[ptr - OVERHEAD]
      ensures Allocations() - {b0} == old(Allocations()) - {b0}
    {
      ghost var H0, A0, S0 := H, A, S;
      RestOfChain(o, chain, k, n);
      Unvisited(o, H, A, S, ib, b0, n, px, ny);
      assert BlockOk(H, A, b0);
      next := MergeAfter(b0, ptr, prev, b1, ib, k);
      ProgressAfter(o, H0, A0, S0, S, ib, b0, n, px, ny);
      ExtentAfter(o, H0, A0, ib, o.chain[n], b0, ny);
    }

    method StepBefore(ib: int, b0: int, lb1: int, ptr: int, prev: int,
                     ghost o: Start, ghost k: nat, ghost n: nat, ghost px: int, ghost ny: int)
      returns (next: int)
      requires Walking(o, ib, b0, k, n, px, ny, ptr, prev) == true && k < |chain|
      requires chain[k] in A && A[chain[k]] == lb1 && lb1 + OVERHEAD == ib
      modifies `mem, `areaHead, `chain, `H, `S, `A, `base, `K, `D
      ensures ptr - OVERHEAD in A && Walking(o, ptr - OVERHEAD, lb1, k, n + 1, n, ny, next, prev)
      ensures ib in old(A) && A[ptr - OVERHEAD] == old(A)[ib]
      ensures Allocations() - {lb1} == old(Allocations()) - {b0}
    {
      ghost var H0, A0, S0 := H, A, S;
      RestOfChain(o, chain, k, n);
      Unvisited(o, H, A, S, ib, b0, n, px, ny);
      assert BlockOk(H, A, b0);
      next := MergeBefore(ib, b0, lb1, ptr, prev, k);
      ProgressBefore(o, H0, A0, S0, S, ib, b0, n, px, ny);
      ExtentBefore(o, H0, A0, o.chain[n], ib, b0, ny);
    }

    lemma StepPast(ptr: int, prev: int, o: Start, ib: int, b: int, k: nat, n: nat, px: int, ny: int)
      requires Walking(o, ib, b, k, n, px, ny, ptr, prev) == true && k < |chain|
      requires ib in A && chain[k] in A && chain[k] != A[ib] + OVERHEAD && A[chain[k]] + OVERHEAD != ib
      ensures Walking(o, ib, b, k + 1, n + 1, px, ny, ChainNext(chain, k + 1), ptr)
    {
      RestOfChain(o, chain, k, n);
      Unvisited(o, H, A, S, ib, b, n, px, ny);
      ProgressSkip(o, H, A, S, ib, b, n, px, ny);
    }

    /** One round of the pass. */
    method Step(ib: int, b: int, lb: int, ptr: int, prev: int,
                ghost o: Start, ghost k: nat, ghost n: nat, ghost px: int, ghost ny: int)
      returns (ib': int, b': int, lb': int, ptr': int, prev': int, ghost k': nat, ghost px': int, ghost ny': int)
      requires Walking(o, ib, b, k, n, px, ny, ptr, prev) == true && ib in A && lb == A[ib] && k < |chain|
      modifies `mem, `areaHead, `chain, `H, `S, `A, `base, `K, `D
      ensures Walking(o, ib', b', k', n + 1, px', ny', ptr', prev') == true && ib' in A && lb' == A[ib']
      ensures Allocations() - {b'} == old(Allocations()) - {b}
    {
      var ib1 := ptr - OVERHEAD;
      var b1, lb1 := ReadArea(ptr, ib, b, k);
      if ib1 == lb + OVERHEAD {
        ptr' := StepAfter(b, ptr, prev, b1, o, ib, k, n, px, ny);
        ib', b', lb', prev', k', px', ny' := ib, b, lb1, prev, k, px, n;
        return;
      }
      if lb1 + OVERHEAD == ib {
        ptr' := StepBefore(ib, b, lb1, ptr, prev, o, k, n, px, ny);
        ib', b', lb', prev', k', px', ny' := ib1, lb1, lb, prev, k, n, ny;
        return;
      }
      ptr' := NextArea(ptr, ib, b, k);
      StepPast(ptr, prev, o, ib, b, k, n, px, ny);
      ib', b', lb', prev', k', px', ny' := ib, b, lb, ptr, k + 1, px, ny;
    }

    /** After the pass: what is left of the list, and the extent of the block to be freed. */
    ghost predicate Walked(o: Start, ib: int, b: int, px: int, ny: int)
      reads this
    {
      && Open(ib, b) && Progress(o, H, A, S, ib, b, |o.chain|, px, ny) && chain == Remaining(o, |o.chain|)
      && b == FreshStart(o) && Beyond(H, b) == FreshEnd(o) && NoNewLoss(o.H, H)
    }

    /** The list has come to its end. */
    lemma WalkEnds(o: Start, ib: int, b: int, k: nat, n: nat, px: int, ny: int, prev: int)
      requires Walking(o, ib, b, k, n, px, ny, 0, prev) == true
      ensures Walked(o, ib, b, px, ny)
    {
      assert k == |chain| && n == |o.chain| && chain[..k] == chain;
      ExtentDone(o, H, A, S, ib, b, px, ny);
    }

    /** There is a next entry as long as the pointer is not null. */
    lemma WalkGoesOn(o: Start, ib: int, b: int, k: nat, n: nat, px: int, ny: int, ptr: int, prev: int)
      requires Walking(o, ib, b, k, n, px, ny, ptr, prev) == true && ptr != 0
      ensures k < |chain| && n < |o.chain|
    {
    }

    /** The pass over the list of areas. */
    method JoinAreas(ib: int, ghost o: Start) returns (ib0: int, b0: int, lb0: int, ghost px: int, ghost ny: int)
      requires Walking(o, ib, ib + 16, 0, 0, -1, -1, areaHead, 0) == true && ib in A
      modifies `mem, `areaHead, `chain, `H, `S, `A, `base, `K, `D
      ensures Walked(o, ib0, b0, px, ny) == true && ib0 in A && lb0 == A[ib0]
      ensures Allocations() - {b0} == old(Allocations()) - {ib + 16}
    {
      ib0, b0, px, ny := ib, ib + 16, -1, -1;
      lb0 := NextOf(b0);
      var ptr, prev := areaHead, 0;
      ghost var k: nat, n: nat := 0, 0;
      while ptr != 0
        invariant Walking(o, ib0, b0, k, n, px, ny, ptr, prev) == true && ib0 in A && lb0 == A[ib0]
        invariant Allocations() - {b0} == old(Allocations()) - {ib + 16}
        decreases |o.chain| - n
      {
        WalkGoesOn(o, ib0, b0, k, n, px, ny, ptr, prev);
        ib0, b0, lb0, ptr, prev, k, px, ny := Step(ib0, b0, lb0, ptr, prev, o, k, n, px, ny);
        n := n + 1;
      }
      WalkEnds(o, ib0, b0, k, n, px, ny, prev);
    }

    /** The block of the joined area is freed, whatever its header says of the block before it. */
    method FreeJoined(b: int, ghost ib: int)
      requires Sound() && Joining(H, A, S, L, ib, b) == true && Chained(mem, areaHead, A, chain) == true && Separated(A)
      modifies `mem, `matrix, `slBitmap, `flBitmap, `L, `clock, `H, `S, `base, `K, `D
      ensures Valid() && Allocations() == old(Allocations()) - {b} && Returned(b, old(Beyond(H, b)))
      ensures if old(Lost(H, S, b)) then !Coalesced(mem, H) && Uncoalesced(mem, old(H)[b].prevHdr, b) else NoNewLoss(old(H), H)
    {
      ghost var p, lost := H[b].prevHdr, Lost(H, S, b);
      assert BlockOk(H, A, b);
      Prepare(b, ib);
      ghost var H1 := H;
      CloseBlock(b);
      if lost {
        assert p in H1 && H1[p].free && Next(H1, p) == b && p < b;
        LeftLost(mem, H, S, p, b);
      }
    }

    /** The area, joined with its neighbours, is listed and its block freed. */
    method CloseArea(ib: int, b: int, lb: int)
      requires Open(ib, b) && lb == A[ib] && Separated(A)
      modifies this
      ensures Valid() && A == old(A) && chain == [ib] + old(chain)
      ensures Allocations() == old(Allocations()) - {b} && Returned(b, old(Beyond(H, b))) == true
      ensures old(Lost(H, S, b)) ==> !Coalesced(mem, H) && Uncoalesced(mem, old(H)[b].prevHdr, b) == true
      ensures !old(Lost(H, S, b)) ==> NoNewLoss(old(H), H) == true
    {
      ListArea(ib, lb, b);
      FreeJoined(b, ib);
    }

    /** The fresh area is cleared and laid out. */
    method OpenArea(area: int, size: int)
      requires Valid() && 0 < size && AreaRoom(A, area, AreaBlock(size)) && Disjoint(A, area, area + size)
      modifies `mem, `H, `S, `A, `base, `K, `D
      ensures area !in old(A) && FreshArea(old(H), old(A), area, AreaBlock(size)) == true
      ensures Allocations() - {area + 16} == old(Allocations())
    {
      ClearRegion(area, size);
      AreaBlockFits(size);
      assert Covers(mem.Keys, area, area + 32 + AreaBlock(size));
      var ib := StartArea(area, size);
    }

    lemma TightCoalesced()
      requires Valid()
      ensures Tight(H) ==> Coalesced(mem, H)
    {
      if Tight(H) { TrueCoalesced(mem, H, A, S); }
    }

    /** The pass begins with the fresh area. */
    lemma WalkBegins(o: Start, s: int)
      requires StartOk(o) && o.lo !in o.A && FreshArea(o.H, o.A, o.lo, s) == true && o.hi == o.lo + 24 + s && 0 < s
      requires chain == o.chain
      ensures Walking(o, o.lo, o.lo + 16, 0, 0, -1, -1, areaHead, 0) == true && o.lo in A
    {
      ProgressStart(o, H, A, S);
      ExtentStart(o);
    }

    /** It ends with all areas that touch the fresh one joined. */
    lemma WalkDone(o: Start, ib: int, b: int, px: int, ny: int)
      requires StartOk(o) && Walked(o, ib, b, px, ny) == true
      ensures Open(ib, b) && ib == First(o.A, o.lo) && A == Extended(o.A, o.lo, o.hi) && Separated(A)
      ensures Lost(H, S, b) <==> LosesFlag(o)
      ensures forall x :: InArea(A, x) <==> InArea(o.A, x) || o.lo <= x < o.hi + OVERHEAD
      ensures chain == Remaining(o, |o.chain|) && b == FreshStart(o) && Beyond(H, b) == FreshEnd(o) && NoNewLoss(o.H, H)
    {
      ProgressDone(o, H, A, S, ib, b, px, ny);
      ExtendedExact(o);
    }

    /** `add_new_area`, from the pool described by `o`. */
    method AddArea(area: int, size: int, ghost o: Start) returns (r: int)
      requires Valid() && 0 < size && AreaRoom(A, area, AreaBlock(size)) && Disjoint(A, area, area + size)
      requires o == Start(H, A, chain, area, area + 24 + AreaBlock(size)) && StartOk(o)
      modifies this
      ensures Valid() && Allocations() == old(Allocations()) && A == Extended(o.A, o.lo, o.hi)
      ensures forall x :: InArea(A, x) <==> InArea(o.A, x) || o.lo <= x < o.hi + OVERHEAD
      ensures chain == [First(o.A, o.lo)] + Remaining(o, |o.chain|)
      ensures r == FreshEnd(o) - FreshStart(o) - OVERHEAD && FreeExtent(H, FreshStart(o), FreshEnd(o))
      ensures LosesFlag(o) ==> !Coalesced(mem, H) && exists p, n :: Uncoalesced(mem, p, n)
      ensures !LosesFlag(o) ==> NoNewLoss(o.H, H)
    {
      OpenArea(area, size);
      WalkBegins(o, AreaBlock(size));
      var ib, b, lb, px, ny := JoinAreas(area, o);
      WalkDone(o, ib, b, px, ny);
      ghost var p := H[b].prevHdr;
      CloseArea(ib, b, lb);
      assert LosesFlag(o) ==> Uncoalesced(mem, p, b);
      r := SizeBits(mem[Size(b)]);
    }

    /** `add_new_area`. */
    method AddNewArea(area: int, size: int) returns (r: int)
      requires Valid() && 0 < size && AreaRoom(A, area, AreaBlock(size)) && Disjoint(A, area, area + size)
      requires Last(A, area + 24 + AreaBlock(size)) - First(A, area) < SPAN_LIMIT
      modifies this
      // the allocations stay, the areas are joined with those that touch the new one, and no byte is lost
      ensures Valid() && Allocations() == old(Allocations())
      ensures var o := Start(old(H), old(A), old(chain), area, area + 24 + AreaBlock(size));
        && A == Extended(o.A, o.lo, o.hi)
        && (forall x :: InArea(A, x) <==> InArea(o.A, x) || o.lo <= x < o.hi + OVERHEAD)
        // they are listed in their old order, those joined apart, behind the new one
        && chain == [First(o.A, o.lo)] + Remaining(o, |o.chain|)
        // the result is the length of the free extent from the new block on, not from its start
        && r == FreshEnd(o) - FreshStart(o) - OVERHEAD && FreeExtent(H, FreshStart(o), FreshEnd(o))
        // neighbouring free blocks are joined too, unless the header of the block to free was written wrongly
        && (LosesFlag(o) ==> !Coalesced(mem, H) && exists p, n :: Uncoalesced(mem, p, n))
        && (!LosesFlag(o) ==> NoNewLoss(old(H), H))
        && (old(Tight(H)) ==> (Coalesced(mem, H) <==> !LosesFlag(o)))
    {
      ghost var o := Start(H, A, chain, area, area + 24 + AreaBlock(size));
      StartIsOk(o, mem, areaHead);
      r := AddArea(area, size, o);
      TightCoalesced();
    }
  }
}
