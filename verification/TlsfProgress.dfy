/** The single pass of `add_new_area` over the list of areas. */
module TlsfProgress {
  import opened TlsfBlocks
  import opened TlsfLists
  import opened TlsfState
  import opened TlsfMerge

  /** The pool before the call, and the first header and sentinel of the fresh area. */
  datatype Start = Start(H: Blocks, A: Areas, chain: seq<int>, lo: int, hi: int)

  /** The first header and the sentinel of the area that the fresh area is to be part of. */
  ghost function First(A: Areas, lo: int): int
  {
    if exists i :: i in A && A[i] + OVERHEAD == lo then var i :| i in A && A[i] + OVERHEAD == lo; i else lo
  }

  function Last(A: Areas, hi: int): int { if hi + OVERHEAD in A then A[hi + OVERHEAD] else hi }

  /** The areas after the fresh one has been joined with those that touch it. */
  ghost function Extended(A: Areas, lo: int, hi: int): Areas
  {
    (A - {hi + OVERHEAD})[First(A, lo) := Last(A, hi)]
  }

  ghost predicate StartOk(o: Start)
  {
    && Tiled(o.H, o.A) && Separated(o.A) && o.lo < o.hi && Disjoint(o.A, o.lo, o.hi + OVERHEAD)
    && (forall i | i in o.A :: i in o.chain) && (forall q | 0 <= q < |o.chain| :: o.chain[q] in o.A)
    && (forall p, q | 0 <= p < q < |o.chain| :: o.chain[p] != o.chain[q])
    && Last(o.A, o.hi) - First(o.A, o.lo) < SPAN_LIMIT
  }

  lemma FirstIs(o: Start, i: int)
    requires Tiled(o.H, o.A) && i in o.A && o.A[i] + OVERHEAD == o.lo
    ensures First(o.A, o.lo) == i
  {
  }

  /** The areas not joined yet have the sentinels they had. */
  ghost predicate SentinelsKept(o: Start, H: Blocks, A: Areas, ib: int)
  {
    forall i | i in A && i != ib :: A[i] in H && A[i] in o.H && H[A[i]].prevFree == o.H[A[i]].prevFree
  }

  /** After `k` entries of the list: the area before the fresh one was entry `px` and the area
      behind it entry `ny`, or they have not been met, which is -1. */
  ghost predicate Progress(o: Start, H: Blocks, A: Areas, S: Blocks, ib: int, b: int, k: nat, px: int, ny: int)
  {
    && b in H && b in S && ib in A && -1 <= px < k <= |o.chain| && -1 <= ny < k
    && Before(o, H, ib, b, k, px) && Behind(o, H, A, ib, b, k, ny)
    && A == (if ny >= 0 then o.A - {o.hi + OVERHEAD} else o.A)[ib := A[ib]]
    && SentinelsKept(o, H, A, ib)
    && (Lost(H, S, b) <==> 0 <= px < ny && b in o.H && o.H[b].prevFree)
  }

  ghost predicate Before(o: Start, H: Blocks, ib: int, b: int, k: nat, px: int)
    requires b in H && px < k <= |o.chain|
  {
    if px >= 0 then
      && o.chain[px] == ib && ib in o.A && o.A[ib] + OVERHEAD == o.lo && b == o.A[ib]
      && b in o.H && H[b].prevFree == o.H[b].prevFree
    else
      && ib == o.lo && b == o.lo + 16 && !H[b].prevFree
      && forall q | 0 <= q < k :: o.chain[q] in o.A ==> o.A[o.chain[q]] + OVERHEAD != o.lo
  }

  ghost predicate Behind(o: Start, H: Blocks, A: Areas, ib: int, b: int, k: nat, ny: int)
    requires b in H && ib in A && ny < k <= |o.chain|
  {
    if ny >= 0 then
      o.chain[ny] == o.hi + OVERHEAD && o.hi + OVERHEAD in o.A && A[ib] == o.A[o.hi + OVERHEAD]
    else
      A[ib] == o.hi && Next(H, b) == o.hi && forall q | 0 <= q < k :: o.chain[q] != o.hi + OVERHEAD
  }

  /** The area `c` touches the fresh one. */
  predicate Joined(o: Start, c: int)
  {
    c == o.hi + OVERHEAD || (c in o.A && o.A[c] + OVERHEAD == o.lo)
  }

  /** The first `n` entries of the list without the areas that touch the fresh one. */
  function Remaining(o: Start, n: nat): seq<int>
    requires n <= |o.chain|
  {
    if n == 0 then [] else Remaining(o, n - 1) + (if Joined(o, o.chain[n - 1]) then [] else [o.chain[n - 1]])
  }

  lemma {:induction false} AllRemain(o: Start, n: nat)
    requires n <= |o.chain| && forall q | 0 <= q < n :: !Joined(o, o.chain[q])
    ensures Remaining(o, n) == o.chain[..n]
  {
    if n > 0 {
      AllRemain(o, n - 1);
      assert o.chain[..n] == o.chain[..n - 1] + [o.chain[n - 1]];
    }
  }

  /** The blocks do not matter for that. */
  lemma {:induction false} RemainingSame(o: Start, o': Start, n: nat)
    requires o' == o.(H := o'.H) && n <= |o.chain|
    ensures Remaining(o', n) == Remaining(o, n)
  {
    if n > 0 { RemainingSame(o, o', n - 1); }
  }

  /** The next entry is an area that has not been joined. */
  lemma Unvisited(o: Start, H: Blocks, A: Areas, S: Blocks, ib: int, b: int, k: nat, px: int, ny: int)
    requires StartOk(o) && Progress(o, H, A, S, ib, b, k, px, ny) && k < |o.chain|
    ensures o.chain[k] in A && o.chain[k] != ib && A[o.chain[k]] == o.A[o.chain[k]]
    ensures First(o.A, o.lo) <= ib && A[ib] <= Last(o.A, o.hi)
    ensures Joined(o, o.chain[k]) <==> o.chain[k] == A[ib] + OVERHEAD || A[o.chain[k]] + OVERHEAD == ib
    ensures o.chain[k] == A[ib] + OVERHEAD ==> ny == -1 && A[o.chain[k]] == Last(o.A, o.hi) && Next(H, b) == A[ib]
    ensures A[o.chain[k]] + OVERHEAD == ib ==> px == -1 && o.chain[k] == First(o.A, o.lo) && b == ib + 16
  {
    var c := o.chain[k];
    assert c in o.A && o.lo !in o.A;
    FirstCases(o, c);
    FirstCases(o, ib);
  }

  lemma FirstCases(o: Start, c: int)
    requires StartOk(o)
    ensures First(o.A, o.lo) <= o.lo && (c in o.A && o.A[c] + OVERHEAD == o.lo ==> First(o.A, o.lo) == c)
  {
    if exists i :: i in o.A && o.A[i] + OVERHEAD == o.lo {
      var i :| i in o.A && o.A[i] + OVERHEAD == o.lo;
      FirstIs(o, i);
    }
  }

  lemma ProgressSkip(o: Start, H: Blocks, A: Areas, S: Blocks, ib: int, b: int, k: nat, px: int, ny: int)
    requires StartOk(o) && Progress(o, H, A, S, ib, b, k, px, ny) && k < |o.chain|
    requires o.chain[k] != A[ib] + OVERHEAD && o.chain[k] in A && A[o.chain[k]] + OVERHEAD != ib
    ensures Progress(o, H, A, S, ib, b, k + 1, px, ny)
  {
    Unvisited(o, H, A, S, ib, b, k, px, ny);
  }

  lemma ProgressAfter(o: Start, H: Blocks, A: Areas, S: Blocks, S': Blocks, ib: int, b: int, k: nat, px: int, ny: int)
    requires StartOk(o) && Progress(o, H, A, S, ib, b, k, px, ny) && k < |o.chain| && Tiled(H, A) && LiveAt(H, A, b)
    requires Touching(H, A, ib, o.chain[k]) && Next(H, b) == A[ib] && b < A[ib] && ny == -1
    requires b in S' && !S'[b].prevFree
    ensures Progress(o, FusedNext(H, A, ib, o.chain[k], b), BridgeAreas(A, ib, o.chain[k]), S', ib, b, k + 1, px, k) == true
  {
    Unvisited(o, H, A, S, ib, b, k, px, ny);
    var j := o.chain[k];
    var H', A' := FusedNext(H, A, ib, j, b), BridgeAreas(A, ib, j);
    FusedNextBlock(H, A, ib, j, b, b);
    SentinelsAfter(o, H, A, ib, j, b);
  }

  lemma SentinelsAfter(o: Start, H: Blocks, A: Areas, ib: int, j: int, b: int)
    requires Tiled(H, A) && LiveAt(H, A, b) && Touching(H, A, ib, j) && Next(H, b) == A[ib] && b < A[ib]
    requires SentinelsKept(o, H, A, ib)
    ensures SentinelsKept(o, FusedNext(H, A, ib, j, b), BridgeAreas(A, ib, j), ib)
  {
    var H', A' := FusedNext(H, A, ib, j, b), BridgeAreas(A, ib, j);
    forall i | i in A' && i != ib ensures A'[i] in H' && A'[i] in o.H && H'[A'[i]].prevFree == o.H[A'[i]].prevFree {
      assert BlockOk(H, A, A[i]) && BlockOk(H, A, b) && BlockOk(H, A, j);
      FusedNextBlock(H, A, ib, j, b, A[i]);
    }
  }

  lemma ProgressBefore(o: Start, H: Blocks, A: Areas, S: Blocks, S': Blocks, ib: int, b: int, k: nat, px: int, ny: int)
    requires StartOk(o) && Progress(o, H, A, S, ib, b, k, px, ny) && k < |o.chain| && Tiled(H, A) && LiveAt(H, A, b)
    requires Touching(H, A, o.chain[k], ib) && b == ib + 16 && px == -1 && A[o.chain[k]] != b
    requires var H', lb := FusedPrev(H, A, o.chain[k], ib, b), A[o.chain[k]];
      lb in H' && lb in S' && S'[lb].prevFree == H'[lb].prevFree
    ensures Progress(o, FusedPrev(H, A, o.chain[k], ib, b), BridgeAreas(A, o.chain[k], ib), S', o.chain[k], A[o.chain[k]], k + 1, k, ny)
  {
    BeforeMet(o, H, A, S, ib, b, k, px, ny);
    SentinelsBefore(o, H, A, o.chain[k], ib, b);
  }

  /** `== true` hands the facts over as they are, without taking them apart at the call. */
  lemma BeforeMet(o: Start, H: Blocks, A: Areas, S: Blocks, ib: int, b: int, k: nat, px: int, ny: int)
    requires StartOk(o) == true && Progress(o, H, A, S, ib, b, k, px, ny) == true && k < |o.chain| && ib in A
    requires Tiled(H, A) == true && LiveAt(H, A, b)
    requires Touching(H, A, o.chain[k], ib) && b == ib + 16 && px == -1 && A[o.chain[k]] != b
    ensures ib !in o.A && o.chain[k] != ib
    ensures var i, H', A' := o.chain[k], FusedPrev(H, A, o.chain[k], ib, b), BridgeAreas(A, o.chain[k], ib);
      && A[i] in H' && Before(o, H', i, A[i], k + 1, k) && Behind(o, H', A', i, A[i], k + 1, ny)
      && A' == (if ny >= 0 then o.A - {o.hi + OVERHEAD} else o.A)[i := A'[i]]
  {
    Unvisited(o, H, A, S, ib, b, k, px, ny);
    BridgedBefore(if ny >= 0 then o.A - {o.hi + OVERHEAD} else o.A, A, o.chain[k], ib);
    FusedPrevBlock(H, A, o.chain[k], ib, b, A[o.chain[k]]);
  }

  /** Bridging takes the fresh area out again and prolongs the one before it. */
  lemma BridgedBefore(B: Areas, A: Areas, i: int, ib: int)
    requires ib in A && A == B[ib := A[ib]] && ib !in B && i in A && i != ib
    ensures BridgeAreas(A, i, ib) == B[i := A[ib]]
  {
  }

  lemma SentinelsBefore(o: Start, H: Blocks, A: Areas, i: int, ib: int, b: int)
    requires Tiled(H, A) && LiveAt(H, A, b) && Touching(H, A, i, ib) && b == ib + 16 && A[i] != b
    requires SentinelsKept(o, H, A, ib)
    ensures SentinelsKept(o, FusedPrev(H, A, i, ib, b), BridgeAreas(A, i, ib), i)
  {
    var H', A' := FusedPrev(H, A, i, ib, b), BridgeAreas(A, i, ib);
    forall x | x in A' && x != i ensures A'[x] in H' && A'[x] in o.H && H'[A'[x]].prevFree == o.H[A'[x]].prevFree {
      assert BlockOk(H, A, A[x]) && BlockOk(H, A, b) && BlockOk(H, A, ib) && BlockOk(H, A, A[i]);
      FusedPrevBlock(H, A, i, ib, b, A[x]);
    }
  }

  /** Where the block to be freed starts: at the sentinel of the area before the fresh one, if any. */
  ghost function FreshStart(o: Start): int { if First(o.A, o.lo) == o.lo then o.lo + 16 else o.lo - OVERHEAD }

  /** How far it goes once it is joined with a free block behind it, past the first block of the area
      behind the fresh one. */
  ghost function FreshEnd(o: Start): int
  {
    var n := o.hi + 24;
    if o.hi + OVERHEAD !in o.A then o.hi else if n in o.H && o.H[n].free then Next(o.H, n) else n
  }

  /** All blocks but `b` are as they were, `b` ends where it should, and no remark is lost. */
  ghost predicate Extent(o: Start, H: Blocks, b: int, ny: int)
    requires b in H
  {
    && (ny >= 0 ==> Next(H, b) == o.hi + 24) && NoNewLoss(o.H, H)
    && forall c | c in H && c in o.H && c != b :: H[c].free == o.H[c].free && H[c].size == o.H[c].size
  }

  lemma ExtentAfter(o: Start, H: Blocks, A: Areas, ib: int, j: int, b: int, ny: int)
    requires Tiled(H, A) && Touching(H, A, ib, j) && b in H && IsLive(H, A, b) && b < A[ib] && Next(H, b) == A[ib]
    requires Extent(o, H, b, ny) && j == o.hi + OVERHEAD
    ensures b in FusedNext(H, A, ib, j, b) && Extent(o, FusedNext(H, A, ib, j, b), b, 0)
  {
    var H' := FusedNext(H, A, ib, j, b);
    FusedNextBlock(H, A, ib, j, b, b);
    forall c | c in H' && c in o.H && c != b ensures H'[c].free == o.H[c].free && H'[c].size == o.H[c].size {
      FusedNextBlock(H, A, ib, j, b, c);
    }
  }

  lemma ExtentBefore(o: Start, H: Blocks, A: Areas, i: int, ib: int, b: int, ny: int)
    requires Tiled(H, A) && Touching(H, A, i, ib) && b in H && IsLive(H, A, b) && b == ib + 16 && A[i] != b
    requires Extent(o, H, b, ny)
    ensures A[i] in FusedPrev(H, A, i, ib, b) && Extent(o, FusedPrev(H, A, i, ib, b), A[i], ny)
  {
    var H' := FusedPrev(H, A, i, ib, b);
    FusedPrevBlock(H, A, i, ib, b, A[i]);
    forall c | c in H' && c in o.H && c != A[i] ensures H'[c].free == o.H[c].free && H'[c].size == o.H[c].size {
      FusedPrevBlock(H, A, i, ib, b, c);
    }
  }

  lemma ExtentStart(o: Start)
    requires StartOk(o) && o.lo + 24 < o.hi
    ensures var H := NewArea(o.H, o.lo, o.hi - o.lo - 24); o.lo + 16 in H && Extent(o, H, o.lo + 16, -1)
  {
    var H := NewArea(o.H, o.lo, o.hi - o.lo - 24);
    forall c | c in H && c in o.H && c != o.lo + 16 ensures H[c].free == o.H[c].free && H[c].size == o.H[c].size {
      OldBlockOutside(o.H, o.A, o.lo, o.hi + OVERHEAD, c);
    }
  }

  lemma ExtentDone(o: Start, H: Blocks, A: Areas, S: Blocks, ib: int, b: int, px: int, ny: int)
    requires StartOk(o) && Progress(o, H, A, S, ib, b, |o.chain|, px, ny) && Extent(o, H, b, ny)
    requires Tiled(H, A) && Next(H, b) in H && LiveAt(H, A, b)
    ensures b == FreshStart(o) && Beyond(H, b) == FreshEnd(o)
  {
    if px >= 0 { FirstIs(o, ib); }
    forall i | i in o.A ensures px >= 0 || o.A[i] + OVERHEAD != o.lo { assert i in o.chain; }
    var j, n := o.hi + OVERHEAD, Next(H, b);
    assert BlockOk(H, A, b);
    if j in o.A {
      assert j in o.chain;
      assert BlockOk(o.H, o.A, j);
    } else {
      assert BlockOk(H, A, n);
    }
  }

  /** The area before the fresh one ends with a free block and comes before the area behind the
      fresh one in the list. */
  ghost predicate LosesFlag(o: Start)
  {
    exists x, y | 0 <= x < y < |o.chain| ::
      && o.chain[x] in o.A && o.A[o.chain[x]] + OVERHEAD == o.lo && o.chain[y] == o.hi + OVERHEAD
      && o.A[o.chain[x]] in o.H && o.H[o.A[o.chain[x]]].prevFree
  }

  lemma ProgressDone(o: Start, H: Blocks, A: Areas, S: Blocks, ib: int, b: int, px: int, ny: int)
    requires StartOk(o) && Progress(o, H, A, S, ib, b, |o.chain|, px, ny)
    ensures A == Extended(o.A, o.lo, o.hi) && ib == First(o.A, o.lo) && A[ib] == Last(o.A, o.hi)
    ensures Lost(H, S, b) <==> LosesFlag(o)
  {
    AreasDone(o, H, A, S, ib, b, px, ny);
    LossDone(o, H, A, S, ib, b, px, ny);
  }

  lemma AreasDone(o: Start, H: Blocks, A: Areas, S: Blocks, ib: int, b: int, px: int, ny: int)
    requires StartOk(o) && Progress(o, H, A, S, ib, b, |o.chain|, px, ny)
    ensures A == Extended(o.A, o.lo, o.hi) && ib == First(o.A, o.lo) && A[ib] == Last(o.A, o.hi)
  {
    if px >= 0 { FirstIs(o, ib); }
    assert o.hi + OVERHEAD in o.A ==> o.hi + OVERHEAD in o.chain;
    forall i | i in o.A ensures px >= 0 || o.A[i] + OVERHEAD != o.lo { assert i in o.chain; }
  }

  lemma LossDone(o: Start, H: Blocks, A: Areas, S: Blocks, ib: int, b: int, px: int, ny: int)
    requires StartOk(o) && Progress(o, H, A, S, ib, b, |o.chain|, px, ny)
    ensures Lost(H, S, b) <==> LosesFlag(o)
  {
    forall i | i in o.A ensures px >= 0 || o.A[i] + OVERHEAD != o.lo { assert i in o.chain; }
  }

  /** Whether the byte at `x` belongs to an area. */
  predicate InArea(A: Areas, x: int) { exists i | i in A :: i <= x < A[i] + OVERHEAD }

  /** Joining loses no byte and adds none but those of the fresh area, and no two areas touch. */
  lemma ExtendedExact(o: Start)
    requires StartOk(o)
    ensures Separated(Extended(o.A, o.lo, o.hi))
    ensures forall x :: InArea(Extended(o.A, o.lo, o.hi), x) <==> InArea(o.A, x) || o.lo <= x < o.hi + OVERHEAD
  {
    var E, f, j := Extended(o.A, o.lo, o.hi), First(o.A, o.lo), o.hi + OVERHEAD;
    assert f == o.lo || (f in o.A && o.A[f] + OVERHEAD == o.lo);
    assert f in E && E[f] == Last(o.A, o.hi);
    forall x ensures InArea(E, x) <==> InArea(o.A, x) || o.lo <= x < o.hi + OVERHEAD {
      if InArea(o.A, x) {
        var i :| i in o.A && i <= x < o.A[i] + OVERHEAD;
        assert if i == j || i == f then f <= x < E[f] + OVERHEAD else i in E && E[i] == o.A[i];
      }
      if InArea(E, x) {
        var i :| i in E && i <= x < E[i] + OVERHEAD;
        assert i != f ==> i in o.A && o.A[i] == E[i];
      }
    }
  }

  /** Before the first entry. */
  lemma ProgressStart(o: Start, H: Blocks, A: Areas, S: Blocks)
    requires StartOk(o) && o.lo !in o.A && A == o.A[o.lo := o.hi] && H == NewArea(o.H, o.lo, o.hi - o.lo - 24)
    requires o.lo + 16 in S && o.lo + 24 < o.hi && !S[o.lo + 16].prevFree
    ensures Progress(o, H, A, S, o.lo, o.lo + 16, 0, -1, -1)
  {
    forall i | i in A && i != o.lo ensures A[i] in H && A[i] in o.H && H[A[i]].prevFree == o.H[A[i]].prevFree {
      OldBlockOutside(o.H, o.A, o.lo, o.hi + OVERHEAD, A[i]);
    }
  }

  predicate SameRest(chain: seq<int>, k: nat, chain0: seq<int>, n: nat)
  {
    && k <= |chain| && n <= |chain0| && |chain| - k == |chain0| - n
    && forall q | k <= q < |chain| :: chain[q] == chain0[q - k + n]
  }

  /** `n` entries of the original list have been dealt with, and those kept come first, in order. */
  ghost predicate Passed(o: Start, chain: seq<int>, k: nat, n: nat)
  {
    SameRest(chain, k, o.chain, n) && chain[..k] == Remaining(o, n)
  }

  /** The next entry stays, or it is taken out because its area touches the fresh one. */
  lemma RestOfChain(o: Start, chain: seq<int>, k: nat, n: nat)
    requires k < |chain| && Passed(o, chain, k, n)
    ensures n < |o.chain| && chain[k] == o.chain[n]
    ensures !Joined(o, chain[k]) ==> Passed(o, chain, k + 1, n + 1)
    ensures Joined(o, chain[k]) ==> Passed(o, Without(chain, k), k, n + 1)
    ensures k > 0 ==> Without(chain, k)[k - 1] == chain[k - 1]
  {
    var c := Without(chain, k);
    assert forall q | k <= q < |chain| - 1 :: c[q] == chain[q + 1];
    assert c[..k] == chain[..k] && chain[..k + 1] == chain[..k] + [chain[k]];
    assert Remaining(o, n) + [] == Remaining(o, n);
  }

  lemma StartIsOk(o: Start, mem: Memory, head: int)
    requires Tiled(o.H, o.A) && Separated(o.A) && Chained(mem, head, o.A, o.chain)
    requires o.lo < o.hi && Disjoint(o.A, o.lo, o.hi + OVERHEAD) && Last(o.A, o.hi) - First(o.A, o.lo) < SPAN_LIMIT
    ensures StartOk(o)
  {
    forall q | 0 <= q < |o.chain| ensures o.chain[q] in o.A { assert InfoOk(mem, o.A, o.chain, q); }
  }
}
