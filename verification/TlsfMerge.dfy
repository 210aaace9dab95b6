/** Joining an area with the areas that touch it. */
module TlsfMerge {
  import opened TlsfBlocks
  import opened TlsfLists
  import opened TlsfState
  import opened TlsfAreas

  /** Area `j` begins where area `i` ends, and together they are not too long. */
  predicate Touching(H: Blocks, A: Areas, i: int, j: int)
  {
    && i in A && j in A && i != j && A[i] + OVERHEAD == j && A[j] - i < SPAN_LIMIT
    && i in H && j in H && A[i] in H
  }

  // ----- the live block at the end of `i` takes in the join -----

  ghost function FusedNext(H: Blocks, A: Areas, i: int, j: int, b: int): Blocks
    requires Touching(H, A, i, j) && b in H && b < A[i] && Next(H, b) == A[i]
  {
    Join(Bridge(H, A, i, j), b)
  }

  lemma FusedNextTiled(H: Blocks, A: Areas, i: int, j: int, b: int)
    requires Tiled(H, A) && Touching(H, A, i, j) && b in H && IsLive(H, A, b) && b < A[i] && Next(H, b) == A[i]
    ensures Tiled(FusedNext(H, A, i, j, b), BridgeAreas(A, i, j))
  {
    assert BlockOk(H, A, b);
    BridgeTiled(H, A, i, j);
    JoinTiled(Bridge(H, A, i, j), BridgeAreas(A, i, j), b);
  }

  /** What stays the same: everything but `b`, the sentinel of `i` and the first block of `j`. */
  lemma FusedNextBlock(H: Blocks, A: Areas, i: int, j: int, b: int, c: int)
    requires Tiled(H, A) && Touching(H, A, i, j) && b in H && IsLive(H, A, b) && b < A[i] && Next(H, b) == A[i]
    ensures var H' := FusedNext(H, A, i, j, b);
      && (c in H' <==> c in H && c != A[i] && c != j)
      && (c in H' && c != b ==> H'[c].(area := 0) == H[c].(area := 0))
      && (c == b ==> H'[c] == H[b].(size := H[b].size + 24) && H[b].area == i)
  {
    assert BlockOk(H, A, b) && BlockOk(H, A, j);
  }

  // ----- the sentinel of `i` becomes the header of a block over the live block at the start of `j` -----

  ghost function FusedPrev(H: Blocks, A: Areas, i: int, j: int, b: int): Blocks
    requires Touching(H, A, i, j) && b in H && b == j + 16 && A[i] != b
  {
    Join(Bridge(H, A, i, j), A[i])
  }

  lemma FusedPrevTiled(H: Blocks, A: Areas, i: int, j: int, b: int)
    requires Tiled(H, A) && Touching(H, A, i, j) && b in H && IsLive(H, A, b) && b == j + 16
    ensures A[i] != b && Tiled(FusedPrev(H, A, i, j, b), BridgeAreas(A, i, j))
  {
    assert BlockOk(H, A, b) && BlockOk(H, A, A[i]) && BlockOk(H, A, j);
    BridgeTiled(H, A, i, j);
    JoinTiled(Bridge(H, A, i, j), BridgeAreas(A, i, j), A[i]);
  }

  lemma FusedPrevBlock(H: Blocks, A: Areas, i: int, j: int, b: int, c: int)
    requires Tiled(H, A) && Touching(H, A, i, j) && b in H && IsLive(H, A, b) && b == j + 16
    ensures A[i] != b
    ensures var H' := FusedPrev(H, A, i, j, b);
      && (c in H' <==> c in H && c != b && c != j)
      && (c in H' && c != A[i] ==> H'[c].(area := 0) == H[c].(area := 0))
      && (c == A[i] ==> c in H' && H'[c] == Block(H[b].size + 24, false, H[c].prevFree, H[c].prevHdr, i, H[c].lost))
  {
    assert BlockOk(H, A, b) && BlockOk(H, A, j) && BlockOk(H, A, A[i]);
  }

  // ----- what the client sees -----

  predicate LiveAt(H: Blocks, A: Areas, c: int) { c in H && IsLive(H, A, c) }

  /** The live blocks outside `E` are the same. */
  ghost predicate SameLive(H: Blocks, A: Areas, H': Blocks, A': Areas, E: set<int>)
  {
    forall c {:trigger LiveAt(H', A', c)} | c !in E ::
      (LiveAt(H', A', c) <==> LiveAt(H, A, c)) && (LiveAt(H, A, c) ==> H'[c].size == H[c].size)
  }

  lemma FusedNextLive(H: Blocks, A: Areas, i: int, j: int, b: int)
    requires Tiled(H, A) && Touching(H, A, i, j) && b in H && IsLive(H, A, b) && b < A[i] && Next(H, b) == A[i]
    ensures var H', A' := FusedNext(H, A, i, j, b), BridgeAreas(A, i, j); LiveAt(H', A', b) && SameLive(H, A, H', A', {b})
  {
    var H', A' := FusedNext(H, A, i, j, b), BridgeAreas(A, i, j);
    FusedNextBlock(H, A, i, j, b, b);
    assert BlockOk(H, A, b);
    forall c | c != b ensures (LiveAt(H', A', c) <==> LiveAt(H, A, c)) && (LiveAt(H, A, c) ==> H'[c].size == H[c].size) {
      FusedNextBlock(H, A, i, j, b, c);
      assert c in H ==> BlockOk(H, A, c);
      assert BlockOk(H, A, i) && BlockOk(H, A, j);
    }
  }

  lemma FusedPrevLive(H: Blocks, A: Areas, i: int, j: int, b: int)
    requires Tiled(H, A) && Touching(H, A, i, j) && b in H && IsLive(H, A, b) && b == j + 16
    ensures A[i] != b
    ensures var H', A' := FusedPrev(H, A, i, j, b), BridgeAreas(A, i, j);
      && LiveAt(H', A', A[i]) && !LiveAt(H', A', b) && !LiveAt(H, A, A[i]) && SameLive(H, A, H', A', {b, A[i]})
  {
    FusedPrevBlock(H, A, i, j, b, A[i]);
    FusedPrevBlock(H, A, i, j, b, b);
    var H', A' := FusedPrev(H, A, i, j, b), BridgeAreas(A, i, j);
    assert BlockOk(H, A, A[i]) && BlockOk(H, A, j);
    forall c | c !in {b, A[i]}
      ensures (LiveAt(H', A', c) <==> LiveAt(H, A, c)) && (LiveAt(H, A, c) ==> H'[c].size == H[c].size)
    {
      FusedPrevBlock(H, A, i, j, b, c);
      assert c in H ==> BlockOk(H, A, c);
      assert BlockOk(H, A, i);
    }
  }

  /** Writes to headers and to the records of areas do not reach the payload of a live block. */
  lemma PayloadKept(mem: Memory, mem': Memory, H: Blocks, A: Areas, c: int)
    requires Tiled(H, A) && Touched(mem, mem', A.Keys, H.Keys) && LiveAt(H, A, c)
    ensures Words(mem', c + OVERHEAD, H[c].size / 4) == Words(mem, c + OVERHEAD, H[c].size / 4)
  {
    assert BlockOk(H, A, c);
    assert Linkable(H, A.Keys) by {
      forall i | i in A ensures i in H && MIN_BLOCK <= H[i].size { assert BlockOk(H, A, i); }
    }
    forall a | c + OVERHEAD <= a < Next(H, c) && a in mem ensures mem'[a] == mem[a] {
      PayloadWord(H, A.Keys, c, a);
    }
    WordsKept(mem, mem', c + OVERHEAD, H[c].size / 4);
  }

  /** `b'` has taken the place of `b`; the other allocations are as they were. */
  lemma StepView(mem: Memory, mem': Memory, H: Blocks, A: Areas, H': Blocks, A': Areas, b: int, b': int)
    requires Tiled(H, A) && Tiled(H', A') && Touched(mem, mem', A.Keys, H.Keys) && SameLive(H, A, H', A', {b, b'})
    requires b == b' || (!LiveAt(H', A', b) && !LiveAt(H, A, b'))
    ensures View(mem', H', A') - {b'} == View(mem, H, A) - {b}
  {
    var v, v' := View(mem, H, A) - {b}, View(mem', H', A') - {b'};
    forall c ensures (c in v' <==> c in v) && (c in v' ==> v'[c] == v[c]) {
      assert LiveAt(H', A', c) || !LiveAt(H', A', c);
      if LiveAt(H, A, c) { PayloadKept(mem, mem', H, A, c); }
    }
  }

  // ----- headers and lists -----

  /** The header after `b` may be wrong about `b`, unless its block is free. */
  ghost function Loose(H: Blocks, b: int): set<int>
    requires b in H && Next(H, b) in H
  {
    if H[Next(H, b)].free then {} else {Next(H, b)}
  }

  lemma FusedNextHeaders(H: Blocks, A: Areas, S: Blocks, L: Listed, i: int, j: int, b: int, H': Blocks, S': Blocks)
    requires Tiled(H, A) && Touching(H, A, i, j) && b in H && IsLive(H, A, b) && b < A[i] && Next(H, b) == A[i]
    requires S.Keys == H.Keys && Truthful(H, S, {b, A[i]}) && Complete(H, L, {}) && Filed(H, L)
    requires H' == FusedNext(H, A, i, j, b) && S' == S - {A[i], j}
    ensures S'.Keys == H'.Keys && b in H' && Truthful(H', S', {b}) && Complete(H', L, {}) && Filed(H', L)
    ensures Next(H', b) == Next(H, j) && Next(H, j) in H'
  {
    assert BlockOk(H, A, j) && BlockOk(H, A, A[i]) && BlockOk(H, A, Next(H, j));
    FusedNextBlock(H, A, i, j, b, b);
    FusedNextBlock(H, A, i, j, b, Next(H, j));
    forall c ensures c in S' <==> c in H' { FusedNextBlock(H, A, i, j, b, c); }
    forall c | c in H' && c != b ensures True(H', S', c) {
      FusedNextBlock(H, A, i, j, b, c);
      assert True(H, S, c);
    }
    forall c | c in H' ensures H'[c].free <==> c in L { FusedNextBlock(H, A, i, j, b, c); }
    forall c | c in L ensures c in H' && H'[c].size == H[c].size { FusedNextBlock(H, A, i, j, b, c); }
  }

  lemma FusedPrevHeaders(H: Blocks, A: Areas, S: Blocks, L: Listed, i: int, j: int, b: int, X: set<int>, H': Blocks, S': Blocks)
    requires Tiled(H, A) && Touching(H, A, i, j) && b in H && IsLive(H, A, b) && b == j + 16 && A[i] != b
    requires S.Keys == H.Keys && Truthful(H, S, X + {b}) && Complete(H, L, {}) && Filed(H, L) && A[i] !in X
    requires H' == FusedPrev(H, A, i, j, b) && S' == S - {b, j}
    ensures S'.Keys == H'.Keys && A[i] in H' && Truthful(H', S', X + {A[i]}) && Complete(H', L, {}) && Filed(H', L)
    ensures Next(H', A[i]) == Next(H, b) && Next(H, b) in H' && True(H, S, A[i])
    ensures H'[Next(H, b)].free == H[Next(H, b)].free && H'[Next(H, b)].size == H[Next(H, b)].size
  {
    assert BlockOk(H, A, b) && BlockOk(H, A, A[i]) && BlockOk(H, A, j) && BlockOk(H, A, Next(H, b)) && True(H, S, A[i]);
    FusedPrevBlock(H, A, i, j, b, A[i]);
    FusedPrevBlock(H, A, i, j, b, Next(H, b));
    forall c ensures c in S' <==> c in H' { FusedPrevBlock(H, A, i, j, b, c); }
    forall c | c in H' && c !in X + {A[i]} ensures True(H', S', c) {
      FusedPrevBlock(H, A, i, j, b, c);
      assert True(H, S, c);
    }
    forall c | c in H' ensures H'[c].free <==> c in L { FusedPrevBlock(H, A, i, j, b, c); }
    forall c | c in L ensures c in H' && H'[c].size == H[c].size { FusedPrevBlock(H, A, i, j, b, c); }
  }

  lemma BridgeBacked(dom: set<int>, A: Areas, i: int, j: int)
    requires i in A && j in A && A[i] + OVERHEAD == j && Backed(dom, A)
    ensures Backed(dom, BridgeAreas(A, i, j))
  {
    assert Covers(dom, i, A[i] + OVERHEAD) && Covers(dom, j, A[j] + OVERHEAD);
    forall x | x in BridgeAreas(A, i, j) ensures Covers(dom, x, BridgeAreas(A, i, j)[x] + OVERHEAD) {
      assert x in A && Covers(dom, x, A[x] + OVERHEAD);
    }
  }

  lemma StoredWithout(mem: Memory, S: Blocks, x: int, y: int)
    requires Stored(mem, S)
    ensures Stored(mem, S - {x, y})
  {
    forall c | c in S - {x, y} ensures HeaderOk(mem, S - {x, y}, c) {
      assert HeaderOk(mem, S, c);
    }
  }

  lemma TouchedBoth(m0: Memory, m1: Memory, m2: Memory, K: set<int>, D: set<int>)
    requires Touched(m0, m1, K, {}) && Touched(m1, m2, {}, D)
    ensures Touched(m0, m2, K, D)
  {
    var none: set<int> := {};
    forall a | a in m0 ensures m2[a] == m0[a] || a in D || a - 4 in D || a - 8 in K || a - 12 in K {
      assert m1[a] == m0[a] || a in none || a - 4 in none || a - 8 in K || a - 12 in K;
      assert m2[a] == m1[a] || a in D || a - 4 in D || a - 8 in none || a - 12 in none;
    }
  }

  // ----- the list of areas -----

  /** The list without its entry `k`: the link before it is redirected. */
  ghost function Without(chain: seq<int>, k: nat): seq<int>
    requires k < |chain|
  {
    chain[..k] + chain[k + 1..]
  }

  lemma InfoApart(H: Blocks, A: Areas, i: int, j: int)
    requires Tiled(H, A) && i in A && j in A && i != j
    ensures i + 16 <= j || j + 16 <= i
  {
    assert BlockOk(H, A, i) && BlockOk(H, A, j);
    assert Ordered(H, i, j) && Ordered(H, j, i);
  }

  lemma DropChained(mem: Memory, mem': Memory, head: int, H: Blocks, A: Areas, B: Areas, chain: seq<int>, k: nat)
    requires Tiled(H, A) && B.Keys <= A.Keys && Chained(mem, head, B, chain) && k < |chain| && Succ(chain[k]) in mem
    requires mem' == if k == 0 then mem else mem[Succ(chain[k - 1]) := mem[Succ(chain[k])]]
    ensures Chained(mem', if k == 0 then mem[Succ(chain[k])] else head, B - {chain[k]}, Without(chain, k))
  {
    var c, B' := Without(chain, k), B - {chain[k]};
    assert InfoOk(mem, B, chain, k);
    forall i | i in B' ensures i in c {
      assert i in chain;
      var x :| 0 <= x < |chain| && chain[x] == i;
      assert c[if x < k then x else x - 1] == i;
    }
    forall q | 0 <= q < |c| ensures InfoOk(mem', B', c, q) {
      var x := if q < k then q else q + 1;
      assert c[q] == chain[x] && InfoOk(mem, B, chain, x);
      if k > 0 && x != k - 1 {
        assert InfoOk(mem, B, chain, k - 1);
        InfoApart(H, A, chain[x], chain[k - 1]);
      }
    }
  }

  /** Header writes do not reach the records of areas. */
  lemma HeaderChained(mem: Memory, mem': Memory, head: int, H: Blocks, A: Areas, B: Areas, chain: seq<int>)
    requires Tiled(H, A) && B.Keys <= A.Keys && Chained(mem, head, B, chain) && Touched(mem, mem', {}, H.Keys)
    ensures Chained(mem', head, B, chain)
  {
    forall k | 0 <= k < |chain| ensures InfoOk(mem', B, chain, k) {
      var i := chain[k];
      assert InfoOk(mem, B, chain, k) && BlockOk(H, A, i);
      PayloadWord(H, {}, i, Prev(i));
      PayloadWord(H, {}, i, Succ(i));
    }
  }

  lemma BridgeRest(A: Areas, i: int, j: int)
    requires i in A && j in A && i != j
    ensures BridgeAreas(A, i, j) - {i} == A - {i, j}
  {
  }

  // ----- the new area while it is being joined -----

  /** The live block `b` of the area at `ib` is to be freed: its own header may have lost the
      remark that its predecessor is free, and the header after it may be wrong about `b`. */
  ghost predicate Joining(H: Blocks, A: Areas, S: Blocks, L: Listed, ib: int, b: int)
  {
    && S.Keys == H.Keys && ib in A && LiveAt(H, A, b) && H[b].area == ib && Next(H, b) in H
    && Truthful(H, S, Loose(H, b) + {b}) && Complete(H, L, {})
    && TrueButPrev(H, S, b) && TrueButPrev(H, S, Next(H, b)) && (S[b].prevFree ==> True(H, S, b))
  }

  /** The header of `b` denies that its predecessor is free. */
  predicate Lost(H: Blocks, S: Blocks, b: int)
    requires b in H && b in S
  {
    H[b].prevFree && !S[b].prevFree
  }

  lemma JoiningAfter(H: Blocks, A: Areas, S: Blocks, S': Blocks, L: Listed, b: int, n: int, k: Block)
    requires Tiled(H, A) && S.Keys == H.Keys && Truthful(H, S, {b}) && Complete(H, L, {}) && LiveAt(H, A, b)
    requires Next(H, b) == n && n in H && n != b && H[b].area in A
    requires k.size == H[b].size && !k.free && !k.prevFree && S' == S[b := k][n := S[n].(prevHdr := b)]
    ensures Joining(H, A, S', L, H[b].area, b)
  {
    assert BlockOk(H, A, b) && True(H, S, n);
    assert S'.Keys == H.Keys;
    forall c | c in H && c != b ensures True(H, S', c) {
      assert True(H, S, c);
    }
  }

  /** What the first merge means for the client and for the list of areas. Here and below, `== true` hands
      a fact over as it is, without taking it apart at the call. */
  lemma MergedAfter(m0: Memory, m1: Memory, m2: Memory, H: Blocks, A: Areas, ib: int, j: int, b: int, head: int, chain: seq<int>)
    requires Tiled(H, A) == true && Touching(H, A, ib, j) && LiveAt(H, A, b) && b < A[ib] && Next(H, b) == A[ib]
    requires Tiled(FusedNext(H, A, ib, j, b), BridgeAreas(A, ib, j)) == true && Touched(m0, m1, A.Keys, {}) == true
    requires Touched(m1, m2, {}, H.Keys) == true && Chained(m1, head, A - {ib} - {j}, chain) == true
    ensures Chained(m2, head, BridgeAreas(A, ib, j) - {ib}, chain)
    ensures View(m2, FusedNext(H, A, ib, j, b), BridgeAreas(A, ib, j)) - {b} == View(m0, H, A) - {b}
  {
    FusedNextLive(H, A, ib, j, b);
    TouchedBoth(m0, m1, m2, A.Keys, H.Keys);
    StepView(m0, m2, H, A, FusedNext(H, A, ib, j, b), BridgeAreas(A, ib, j), b, b);
    BridgeRest(A, ib, j);
    assert A - {ib} - {j} == A - {ib, j};
    HeaderChained(m1, m2, head, H, A, A - {ib, j}, chain);
  }

  lemma JoiningBefore(H: Blocks, A: Areas, S: Blocks, S': Blocks, L: Listed, b: int, n: int)
    requires Tiled(H, A) && S.Keys == H.Keys && LiveAt(H, A, b) && Next(H, b) == n && n in H && n != b && H[b].area in A
    requires Truthful(H, S, Loose(H, b) + {b}) && Complete(H, L, {}) && TrueButPrev(H, S, n)
    requires PrevTrue(H, S, b)
    requires S' == S[b := S[b].(size := H[b].size, free := false)][n := S[n].(prevHdr := b)]
    ensures Joining(H, A, S', L, H[b].area, b) && True(H, S', b)
  {
    assert BlockOk(H, A, b);
    assert S'.Keys == H.Keys;
    forall c | c in H && c !in Loose(H, b) + {b} ensures True(H, S', c) {
      assert True(H, S, c);
    }
  }

  /** What the second merge means for the client and for the list of areas. */
  lemma MergedBefore(m0: Memory, m1: Memory, m2: Memory, H: Blocks, A: Areas, i: int, ib: int, b: int, head: int, chain: seq<int>)
    requires Tiled(H, A) == true && Touching(H, A, i, ib) && LiveAt(H, A, b) && b == ib + 16 && A[i] != b
    requires Tiled(FusedPrev(H, A, i, ib, b), BridgeAreas(A, i, ib)) == true && Touched(m0, m1, A.Keys, {}) == true
    requires Touched(m1, m2, {}, H.Keys) == true && Chained(m1, head, A - {ib} - {i}, chain) == true
    ensures Chained(m2, head, BridgeAreas(A, i, ib) - {i}, chain)
    ensures View(m2, FusedPrev(H, A, i, ib, b), BridgeAreas(A, i, ib)) - {A[i]} == View(m0, H, A) - {b}
  {
    FusedPrevLive(H, A, i, ib, b);
    TouchedBoth(m0, m1, m2, A.Keys, H.Keys);
    StepView(m0, m2, H, A, FusedPrev(H, A, i, ib, b), BridgeAreas(A, i, ib), b, A[i]);
    BridgeRest(A, i, ib);
    assert A - {ib} - {i} == A - {i, ib};
    HeaderChained(m1, m2, head, H, A, A - {i, ib}, chain);
  }

  // ----- the beginning -----

  lemma StartJoining(H: Blocks, A: Areas, H': Blocks, A': Areas, S': Blocks, L: Listed, ib: int, s: int)
    requires Tiled(H, A) && ib !in A && AreaRoom(A, ib, s) && H' == NewArea(H, ib, s) && A' == A[ib := ib + 24 + s]
    requires S'.Keys == H'.Keys && Truthful(H', S', {ib + 24 + s}) && Complete(H', L, {}) && TrueButPrev(H', S', ib + 24 + s)
    ensures Joining(H', A', S', L, ib, ib + 16) && True(H', S', ib + 16) && A' - {ib} == A
    ensures Next(H', ib + 16) == ib + 24 + s && !H'[ib + 16].prevFree && Loose(H', ib + 16) == {ib + 24 + s}
  {
    assert True(H', S', ib + 16);
    assert Next(H', ib + 16) == ib + 24 + s;
    assert A' - {ib} == A;
  }

  lemma StartView(mem: Memory, mem': Memory, H: Blocks, A: Areas, H': Blocks, A': Areas, ib: int, s: int)
    requires Tiled(H, A) && Tiled(H', A') && ib !in A && AreaRoom(A, ib, s) && H' == NewArea(H, ib, s) && A' == A[ib := ib + 24 + s]
    requires OnlyRegion(mem, mem', ib, ib + 32 + s) && Backed(mem.Keys, A)
    ensures View(mem', H', A') - {ib + 16} == View(mem, H, A)
  {
    RegionView(mem, mem', H, A, ib, ib + 32 + s);
    var v, v' := View(mem', H, A), View(mem', H', A') - {ib + 16};
    forall c ensures (c in v' <==> c in v) && (c in v ==> v'[c] == v[c]) {
      if c in H {
        OldBlockOutside(H, A, ib, ib + 32 + s, c);
        assert BlockOk(H, A, c);
      }
    }
  }

  /** The words that `memset` clears. */
  function Zeros(lo: int, size: int): (z: Memory)
    ensures forall a :: a in z <==> lo <= a < lo + size && a % 4 == 0
  {
    map a | lo <= a < lo + size && a % 4 == 0 :: 0
  }

  // ----- the end -----

  lemma ListChained(mem: Memory, mem': Memory, head: int, H: Blocks, A: Areas, ib: int, chain: seq<int>)
    requires Tiled(H, A) && ib in A && Chained(mem, head, A - {ib}, chain) && {Prev(ib), Succ(ib)} <= mem.Keys
    requires mem' == mem[Succ(ib) := head][Prev(ib) := A[ib]]
    ensures Chained(mem', ib + OVERHEAD, A, [ib] + chain)
  {
    var c := [ib] + chain;
    assert mem'[Succ(ib)] == ChainNext(c, 1) && InfoOk(mem', A, c, 0);
    forall i | i in A ensures i in c { assert i == ib || i in A - {ib}; }
    forall q | 0 <= q < |c| ensures InfoOk(mem', A, c, q) {
      if q > 0 {
        assert InfoOk(mem, A - {ib}, chain, q - 1);
        InfoApart(H, A, chain[q - 1], ib);
      }
    }
    forall x, y | 0 <= x < y < |c| ensures c[x] != c[y] {
      assert c[y] == chain[y - 1] && InfoOk(mem, A - {ib}, chain, y - 1);
    }
  }

  /** What that means for the client and for the list of areas. */
  lemma ListedArea(mem: Memory, mem': Memory, head: int, H: Blocks, A: Areas, ib: int, b: int, chain: seq<int>)
    requires Tiled(H, A) && ib in A && Chained(mem, head, A - {ib}, chain) && {Prev(ib), Succ(ib)} <= mem.Keys
    requires mem' == mem[Succ(ib) := head][Prev(ib) := A[ib]] && Touched(mem, mem', A.Keys, {})
    ensures Chained(mem', ib + OVERHEAD, A, [ib] + chain) && View(mem', H, A) - {b} == View(mem, H, A) - {b}
  {
    ListChained(mem, mem', head, H, A, ib, chain);
    TouchedMore(mem, mem', A.Keys, {}, H.Keys);
    StepView(mem, mem', H, A, H, A, b, b);
  }

  /** The header of `b` has lost the remark that its predecessor is free. */
  function Forget(H: Blocks, b: int): Blocks
    requires b in H
  {
    H[b := H[b].(prevFree := false, lost := true)]
  }

  lemma ForgetTiled(H: Blocks, A: Areas, b: int)
    requires Tiled(H, A) && LiveAt(H, A, b)
    ensures Tiled(Forget(H, b), A)
  {
    var H' := Forget(H, b);
    assert H'.Keys == H.Keys;
    assert AreasOk(H', A);
    assert Layout(H') by {
      forall c, d | c in H' && d in H' ensures Ordered(H', c, d) { assert Ordered(H, c, d); }
    }
    forall c | c in H' ensures BlockOk(H', A, c) { ForgetBlock(H, A, b, c); }
  }

  lemma ForgetBlock(H: Blocks, A: Areas, b: int, c: int)
    requires Tiled(H, A) && LiveAt(H, A, b) && c in H
    ensures BlockOk(Forget(H, b), A, c)
  {
    assert BlockOk(H, A, c) && BlockOk(H, A, b);
    assert !IsSentinel(H, A, c) ==> BlockOk(H, A, Next(H, c));
  }

  lemma Forgotten(H: Blocks, A: Areas, S: Blocks, L: Listed, ib: int, b: int)
    requires Tiled(H, A) && Filed(H, L) && Joining(H, A, S, L, ib, b) && Lost(H, S, b)
    ensures var H' := Forget(H, b);
      && Tiled(H', A) && Filed(H', L) && LiveAt(H', A, b) && True(H', S, b) && Next(H', b) == Next(H, b)
      && Loose(H', b) == Loose(H, b) && Truthful(H', S, Loose(H', b)) && Complete(H', L, {})
  {
    ForgetTiled(H, A, b);
    var H' := Forget(H, b);
    forall c | c in H' && c !in Loose(H', b) ensures True(H', S, c) {
      if c != b { assert True(H, S, c); }
    }
  }

  lemma ForgottenView(mem: Memory, H: Blocks, A: Areas, b: int)
    requires Tiled(H, A) && b in H && Layout(Forget(H, b))
    ensures View(mem, Forget(H, b), A) == View(mem, H, A)
  {
    var v, v' := View(mem, H, A), View(mem, Forget(H, b), A);
    assert forall c :: c in v' <==> c in v;
  }

  /** `b` can be freed. */
  lemma CloseReady(H: Blocks, A: Areas, S: Blocks, L: Listed, b: int)
    requires Tiled(H, A) && S.Keys == H.Keys && LiveAt(H, A, b) && Next(H, b) in H && True(H, S, b)
    requires Truthful(H, S, Loose(H, b)) && Complete(H, L, {}) && TrueButPrev(H, S, Next(H, b))
    ensures b !in Loose(H, b) && (H[b].prevFree ==> H[b].prevHdr !in Loose(H, b))
    ensures H[b].prevFree ==> H[b].prevHdr in H && H[H[b].prevHdr].free && H[b].prevHdr < b
    ensures Beyond(H, b) in H && TrueButPrev(H, S, Beyond(H, b)) && b < Beyond(H, b)
    ensures Loose(H, b) - {Beyond(H, b)} == {}
  {
    var n := Next(H, b);
    BlockInArea(H, A, b);
    BlockInArea(H, A, n);
    assert BlockOk(H, A, b) && BlockOk(H, A, n);
    assert Beyond(H, b) != n ==> True(H, S, Beyond(H, b));
    if H[b].prevFree { BlockInArea(H, A, H[b].prevHdr); }
  }

  /** Two neighbouring free blocks: `n` is free, follows the free block `p` and denies it. */
  predicate Uncoalesced(mem: Memory, p: int, n: int)
  {
    && Size(p) in mem && Size(n) in mem && FreeBit(mem[Size(p)]) && n == p + OVERHEAD + SizeBits(mem[Size(p)])
    && FreeBit(mem[Size(n)]) && !PrevFreeBit(mem[Size(n)])
  }

  lemma TouchedMore(mem: Memory, mem': Memory, K: set<int>, D: set<int>, D': set<int>)
    requires Touched(mem, mem', K, D) && D <= D'
    ensures Touched(mem, mem', K, D')
  {
    forall a | a in mem ensures mem'[a] == mem[a] || a in D' || a - 4 in D' || a - 8 in K || a - 12 in K {
      assert mem'[a] == mem[a] || a in D || a - 4 in D || a - 8 in K || a - 12 in K;
    }
  }

  lemma UncoalescedWords(mem: Memory, p: int, n: int, k: Block, k': Block)
    requires Size(p) in mem && Size(n) in mem && mem[Size(p)] == SizeWord(k) && mem[Size(n)] == SizeWord(k')
    requires k.size % 8 == 0 && k'.size % 8 == 0 && k.free && k'.free && !k'.prevFree && n == p + OVERHEAD + k.size
    ensures Uncoalesced(mem, p, n)
  {
    Decode(k);
    Decode(k');
  }

  /** The headers in memory show no two neighbours that are both free. */
  ghost predicate Coalesced(mem: Memory, H: Blocks)
  {
    forall b | b in H && Next(H, b) in H && Size(b) in mem && Size(Next(H, b)) in mem ::
      !(FreeBit(mem[Size(b)]) && FreeBit(mem[Size(Next(H, b))]))
  }

  lemma TrueCoalesced(mem: Memory, H: Blocks, A: Areas, S: Blocks)
    requires Tiled(H, A) && Tight(H) && Stored(mem, S) && S.Keys == H.Keys && Truthful(H, S, {})
    ensures Coalesced(mem, H)
  {
    forall b | b in H && Next(H, b) in H && Size(b) in mem && Size(Next(H, b)) in mem
      ensures !(FreeBit(mem[Size(b)]) && FreeBit(mem[Size(Next(H, b))]))
    {
      FreeBitTrue(mem, H, S, b);
      FreeBitTrue(mem, H, S, Next(H, b));
      assert BlockOk(H, A, b);
    }
  }

  lemma FreeBitTrue(mem: Memory, H: Blocks, S: Blocks, b: int)
    requires Stored(mem, S) && S.Keys == H.Keys && Truthful(H, S, {}) && b in H
    ensures Size(b) in mem && (FreeBit(mem[Size(b)]) <==> H[b].free)
  {
    assert HeaderOk(mem, S, b) && True(H, S, b);
    Decode(S[b]);
  }

  /** Two neighbours that are both free, the second of which denies it. */
  lemma LeftLost(mem: Memory, H: Blocks, S: Blocks, p: int, b: int)
    requires Stored(mem, S) && S.Keys == H.Keys && Truthful(H, S, {}) && p in H && b in H
    requires H[p].free && Next(H, p) == b && H[b].free && !H[b].prevFree
    ensures Uncoalesced(mem, p, b) && !Coalesced(mem, H)
  {
    assert HeaderOk(mem, S, p) && HeaderOk(mem, S, b) && True(H, S, p) && True(H, S, b);
    UncoalescedWords(mem, p, b, S[p], S[b]);
  }
}
