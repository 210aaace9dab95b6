/** Whole runs: the pool behaves like an ideal heap of separate buffers. */
module TlsfRun {
  import opened TlsfMapping
  import opened TlsfBlocks
  import opened TlsfLists
  import opened TlsfState
  import opened TlsfAreas
  import opened TlsfProgress
  import opened TlsfWalk
  import opened Tlsf

  /** What a client does; `k` is one of the pointers it holds. */
  datatype Op = Allocate(size: nat) | Dispose(k: nat) | Resize(k: nat, size: nat) | Write(k: nat, i: nat, w: int)
              | Extend(area: int, bytes: int)

  /** The pointers a client holds and the buffers behind them, by header address. */
  datatype Heap = Heap(held: seq<int>, buffers: map<int, seq<int>>)

  /** The client holds each buffer by one pointer. */
  predicate Held(h: Heap)
  {
    && (forall k | 0 <= k < |h.held| :: h.held[k] - OVERHEAD in h.buffers)
    && (forall j, k | 0 <= j < k < |h.held| :: h.held[j] != h.held[k])
    && |h.held| == |h.buffers|
  }

  /** The buffers do not overlap. */
  predicate Separate(v: map<int, seq<int>>)
  {
    forall b, c | b in v && c in v && b != c :: b + OVERHEAD + 4 * |v[b]| <= c || c + OVERHEAD + 4 * |v[c]| <= b
  }

  function Dropped(s: seq<int>, k: nat): seq<int>
    requires k < |s|
  {
    s[..k] + s[k + 1..]
  }

  /** One operation on the ideal heap. Nothing but the buffer it names changes. */
  ghost predicate Step(h: Heap, op: Op, h': Heap)
  {
    match op
    case Allocate(size) => h' == h || Allocated(h, size, h')
    case Dispose(k) => if k < |h.held| then Disposed(h, k, h') else h' == h
    case Resize(k, size) =>
      if k >= |h.held| then h' == h
      else if size == 0 then Disposed(h, k, h')
      else h' == h || Resized(h, k, size, h')
    case Write(k, i, w) =>
      if k < |h.held| && h.held[k] - OVERHEAD in h.buffers && i < |h.buffers[h.held[k] - OVERHEAD]| then
        var b := h.held[k] - OVERHEAD;
        h' == h.(buffers := h.buffers[b := h.buffers[b][i := w]])
      else h' == h
    case Extend(_, _) => h' == h
  }

  /** A new buffer of the rounded size. */
  ghost predicate Allocated(h: Heap, size: nat, h': Heap)
  {
    && size <= MAX_REQUEST
    && |h'.held| == |h.held| + 1 && h'.held[..|h.held|] == h.held
    && var b := h'.held[|h.held|] - OVERHEAD;
    && b !in h.buffers && b in h'.buffers && h'.buffers == h.buffers[b := h'.buffers[b]]
    && RightSize(Adjust(size), 4 * |h'.buffers[b]|)
  }

  ghost predicate Disposed(h: Heap, k: nat, h': Heap)
    requires k < |h.held|
  {
    h' == Heap(Dropped(h.held, k), h.buffers - {h.held[k] - OVERHEAD})
  }

  /** The buffer with its contents, as far as both sizes allow, cut to size or elsewhere. */
  ghost predicate Resized(h: Heap, k: nat, size: nat, h': Heap)
    requires k < |h.held|
  {
    && |h'.held| == |h.held| && h'.held == h.held[k := h'.held[k]]
    && Moved(h.buffers, h'.buffers, h.held[k] - OVERHEAD, h'.held[k] - OVERHEAD, Adjust(size))
    && size <= MAX_REQUEST && var z := 4 * |h'.buffers[h'.held[k] - OVERHEAD]|;
    if h'.held[k] == h.held[k] then z < Adjust(size) + OVERHEAD + MIN_BLOCK else RightSize(Adjust(size), z)
  }

  // ----- the areas of a run -----

  function Sentinel(area: int, bytes: int): int { area + 24 + AreaBlock(bytes) }

  /** A fresh area fills a gap whose earlier neighbour precedes the later one in the list. */
  predicate FillsInOrder(A: Areas, chain: seq<int>, lo: int, hi: int)
  {
    exists x, y | 0 <= x < y < |chain| ::
      chain[x] in A && A[chain[x]] + OVERHEAD == lo && chain[y] == hi + OVERHEAD
  }

  /** Memory of its own, and not too much in one piece. */
  ghost predicate CanExtend(A: Areas, area: int, bytes: int)
  {
    && 0 < bytes && AreaRoom(A, area, AreaBlock(bytes)) && Disjoint(A, area, area + bytes)
    && Last(A, Sentinel(area, bytes)) - First(A, area) < SPAN_LIMIT
  }

  ghost predicate Admissible(A: Areas, op: Op)
  {
    match op
    case Allocate(size) => size <= MAX_REQUEST
    case Resize(_, size) => size <= MAX_REQUEST
    case Extend(area, bytes) => CanExtend(A, area, bytes)
    case _ => true
  }

  /** The areas and their list after an operation. */
  ghost function Grown(A: Areas, chain: seq<int>, op: Op): (Areas, seq<int>)
  {
    if op.Extend? then
      var hi := Sentinel(op.area, op.bytes);
      (Extended(A, op.area, hi), [First(A, op.area)] + Remaining(Start(map[], A, chain, op.area, hi), |chain|))
    else (A, chain)
  }

  ghost function GrownBy(A: Areas, chain: seq<int>, ops: seq<Op>): (Areas, seq<int>)
    decreases |ops|
  {
    if ops == [] then (A, chain) else var g := Grown(A, chain, ops[0]); GrownBy(g.0, g.1, ops[1..])
  }

  ghost predicate AllAdmissible(A: Areas, chain: seq<int>, ops: seq<Op>)
    decreases |ops|
  {
    ops == [] || (Admissible(A, ops[0]) && var g := Grown(A, chain, ops[0]); AllAdmissible(g.0, g.1, ops[1..]))
  }

  /** The operation fills no gap in the order of the list, so that no remark can be lost. */
  predicate Harmless(A: Areas, chain: seq<int>, op: Op)
  {
    op.Extend? ==> !FillsInOrder(A, chain, op.area, Sentinel(op.area, op.bytes))
  }

  ghost predicate AllHarmless(A: Areas, chain: seq<int>, ops: seq<Op>)
    decreases |ops|
  {
    ops == [] || (Harmless(A, chain, ops[0]) && var g := Grown(A, chain, ops[0]); AllHarmless(g.0, g.1, ops[1..]))
  }

  lemma {:induction false} NotGrown(A: Areas, chain: seq<int>, ops: seq<Op>)
    requires forall j | 0 <= j < |ops| :: !ops[j].Extend?
    ensures GrownBy(A, chain, ops) == (A, chain) && AllHarmless(A, chain, ops)
  {
    if ops != [] { NotGrown(A, chain, ops[1..]); }
  }

  // ----- the client holds what there is -----

  lemma HeldAllocated(h: Heap, size: nat, h': Heap)
    requires Held(h) && Allocated(h, size, h')
    ensures Held(h')
  {
    var n := |h.held|;
    assert forall k | 0 <= k < n :: h'.held[k] == h'.held[..n][k];
    assert h'.buffers.Keys == h.buffers.Keys + {h'.held[n] - OVERHEAD};
  }

  lemma HeldDisposed(h: Heap, k: nat, h': Heap)
    requires Held(h) && k < |h.held| && Disposed(h, k, h')
    ensures Held(h')
  {
    assert h'.buffers.Keys == h.buffers.Keys - {h.held[k] - OVERHEAD};
    forall j | 0 <= j < |h'.held| ensures h'.held[j] == h.held[if j < k then j else j + 1] { }
  }

  lemma HeldResized(h: Heap, k: nat, size: nat, h': Heap)
    requires Held(h) && k < |h.held| && Resized(h, k, size, h')
    ensures Held(h')
  {
    var b, b' := h.held[k] - OVERHEAD, h'.held[k] - OVERHEAD;
    assert (h.buffers - {b}).Keys == h.buffers.Keys - {b};
    Exchanged(h.buffers.Keys, h'.buffers.Keys, b, b');
    HeldElsewhere(h, k);
    assert forall j | 0 <= j < |h'.held| && j != k :: h'.held[j] == h.held[j];
  }

  lemma HeldElsewhere(h: Heap, k: nat)
    requires Held(h) && k < |h.held|
    ensures forall j | 0 <= j < |h.held| && j != k :: h.held[j] - OVERHEAD in h.buffers - {h.held[k] - OVERHEAD}
  {
    forall j | 0 <= j < |h.held| && j != k ensures h.held[j] != h.held[k] {
      assert j < k ==> h.held[j] != h.held[k];
      assert k < j ==> h.held[k] != h.held[j];
    }
  }

  lemma Exchanged(K: set<int>, K': set<int>, b: int, b': int)
    requires b in K && K' == (K - {b}) + {b'} && (b' in K ==> b' == b)
    ensures |K'| == |K|
  {
    if b' == b { assert K' == K; }
  }

  lemma StepHeld(h: Heap, op: Op, h': Heap)
    requires Held(h) && Step(h, op, h')
    ensures Held(h')
  {
    match op
    case Allocate(size) => if h' != h { HeldAllocated(h, size, h'); }
    case Dispose(k) => if k < |h.held| { HeldDisposed(h, k, h'); }
    case Resize(k, size) =>
      if k < |h.held| {
        if size == 0 { HeldDisposed(h, k, h'); } else if h' != h { HeldResized(h, k, size, h'); }
      }
    case Write(k, i, w) =>
    case Extend(_, _) =>
  }

  // ----- what a valid pool looks like -----

  /** The blocks of every area, from its first header on, lie one behind the other up to its
      sentinel and account for every byte. */
  lemma ValidTiling(pool: Pool, i: int)
    requires pool.Valid() && i in pool.A
    ensures i in pool.H && var w := Walk(pool.H, pool.A, i);
      && w[|w| - 1] == pool.A[i] && (forall k | 0 <= k < |w| :: w[k] in pool.H && pool.H[w[k]].area == i)
      && (forall k | 0 <= k < |w| - 1 :: w[k + 1] == Next(pool.H, w[k]))
      && Bytes(pool.H, w) == pool.A[i] + OVERHEAD - i
  {
    assert BlockOk(pool.H, pool.A, i);
    WalkBytes(pool.H, pool.A, i);
    WalkSteps(pool.H, pool.A, i);
  }

  /** Every free block is on the list that its size calls for, once; nothing else is listed; both
      levels of bitmaps tell which lists are empty. */
  lemma ValidLists(pool: Pool, c: Class)
    requires pool.Valid() && c.InMatrix()
    ensures var l := FreeList(pool.mem, pool.L, pool.matrix, c);
      && (forall b :: b in l <==> b in pool.H && pool.H[b].free && MappingInsert(pool.H[b].size) == c)
      && (forall i, j | 0 <= i < j < |l| :: l[i] != l[j])
      && (pool.slBitmap[c.fl][c.sl] <==> l != []) && (pool.slBitmap[c.fl][c.sl] ==> pool.flBitmap[c.fl])
    ensures pool.flBitmap[c.fl] ==> exists sl | 0 <= sl < MAX_SLI :: pool.slBitmap[c.fl][sl]
  {
    FreeBlocksListed(pool.mem, pool.H, pool.L, pool.matrix, pool.clock, c);
    assert HeadOk(pool.mem, pool.L, pool.matrix, c);
    assert pool.slBitmap[c.fl][c.sl] <==> pool.matrix[c.fl][c.sl] != 0;
    var w := pool.slBitmap[c.fl];
    assert pool.flBitmap[c.fl] <==> true in w;
    assert w[c.sl] ==> true in w;
    if true in w {
      var sl :| 0 <= sl < |w| && w[sl];
    }
  }

  /** The header behind a block says that the block is free, and where it starts, only if that is so;
      as long as no remark is lost, it does so always, and two neighbours are never both free. */
  lemma ValidHeaders(pool: Pool, b: int)
    requires pool.Valid() && b in pool.H && !IsSentinel(pool.H, pool.A, b)
    ensures {Size(b), Size(Next(pool.H, b)), PrevHdr(Next(pool.H, b))} <= pool.mem.Keys
    ensures SizeBits(pool.mem[Size(b)]) == pool.H[b].size
    ensures PrevFreeBit(pool.mem[Size(Next(pool.H, b))]) ==>
      FreeBit(pool.mem[Size(b)]) && pool.mem[PrevHdr(Next(pool.H, b))] == b
    ensures Tight(pool.H) && FreeBit(pool.mem[Size(b)]) ==>
      PrevFreeBit(pool.mem[Size(Next(pool.H, b))]) && !FreeBit(pool.mem[Size(Next(pool.H, b))])
  {
    HeadersExact(pool.mem, pool.H, pool.A, pool.S, b);
  }

  /** Live allocations lie in the areas, behind the area's first block, and in backed memory. */
  lemma ValidLive(pool: Pool, b: int)
    requires pool.Valid() && b in pool.Allocations()
    ensures var e := b + OVERHEAD + 4 * |pool.Allocations()[b]|;
      && Covers(pool.mem.Keys, b, e) && exists i :: i in pool.A && i + 16 <= b && e <= pool.A[i]
  {
    LiveInside(pool.mem, pool.H, pool.A, b);
  }

  // ----- runs of the pool -----

  /** The pool and the ideal heap agree. */
  ghost predicate Agree(pool: Pool, held: seq<int>)
    reads pool
  {
    pool.Valid() && Held(Heap(held, pool.Allocations()))
  }

  method PerformResize(pool: Pool, k: nat, size: nat, held: seq<int>) returns (held': seq<int>)
    requires Agree(pool, held) && k < |held| && size <= MAX_REQUEST
    modifies pool
    ensures pool.Valid() && pool.A == old(pool.A) && pool.chain == old(pool.chain) && NoNewLoss(old(pool.H), pool.H)
    ensures Step(Heap(held, old(pool.Allocations())), Resize(k, size), Heap(held', pool.Allocations()))
  {
    held' := held;
    NotNull(pool, held, k);
    ghost var v, H := pool.Allocations(), pool.H;
    var p := pool.Realloc(held[k], size);
    if size == 0 {
      held' := Dropped(held, k);
    } else if p != 0 {
      held' := held[k := p];
      ResizeStep(H, v, pool.Allocations(), held, k, size, p);
    }
  }

  lemma ResizeStep(H: Blocks, v: map<int, seq<int>>, v': map<int, seq<int>>, held: seq<int>, k: nat, size: nat, p: int)
    requires k < |held| && 0 < size <= MAX_REQUEST
    requires Reallocated(H, v, v', held[k] - OVERHEAD, p - OVERHEAD, Adjust(size))
    ensures Step(Heap(held, v), Resize(k, size), Heap(held[k := p], v'))
  {
    var held' := held[k := p];
    assert held'[k] == p && held' == held[k := held'[k]];
  }

  method PerformExtend(pool: Pool, area: int, bytes: int)
    requires pool.Valid() && CanExtend(pool.A, area, bytes)
    modifies pool
    ensures pool.Valid() && pool.Allocations() == old(pool.Allocations())
    ensures (pool.A, pool.chain) == Grown(old(pool.A), old(pool.chain), Extend(area, bytes))
    ensures !FillsInOrder(old(pool.A), old(pool.chain), area, Sentinel(area, bytes)) ==> NoNewLoss(old(pool.H), pool.H)
  {
    ghost var o := Start(pool.H, pool.A, pool.chain, area, area + 24 + AreaBlock(bytes));
    ExtendGrown(o, bytes);
    var r := pool.AddNewArea(area, bytes);
  }

  lemma ExtendGrown(o: Start, bytes: int)
    requires o.hi == Sentinel(o.lo, bytes)
    ensures Grown(o.A, o.chain, Extend(o.lo, bytes)) ==
      (Extended(o.A, o.lo, o.hi), [First(o.A, o.lo)] + Remaining(o, |o.chain|))
    ensures LosesFlag(o) ==> FillsInOrder(o.A, o.chain, o.lo, o.hi)
  {
    RemainingSame(o, o.(H := map[]), |o.chain|);
  }

  method PerformAllocate(pool: Pool, size: nat, held: seq<int>) returns (held': seq<int>)
    requires Agree(pool, held) && size <= MAX_REQUEST
    modifies pool
    ensures pool.Valid() && pool.A == old(pool.A) && pool.chain == old(pool.chain) && NoNewLoss(old(pool.H), pool.H)
    ensures Step(Heap(held, old(pool.Allocations())), Allocate(size), Heap(held', pool.Allocations()))
  {
    held' := held;
    var p := pool.Malloc(size);
    if p != 0 { held' := held + [p]; }
  }

  method PerformWrite(pool: Pool, k: nat, i: nat, w: int, held: seq<int>)
    requires Agree(pool, held) && k < |held|
    modifies pool
    ensures pool.Valid() && pool.A == old(pool.A) && pool.chain == old(pool.chain) && NoNewLoss(old(pool.H), pool.H)
    ensures Step(Heap(held, old(pool.Allocations())), Write(k, i, w), Heap(held, pool.Allocations()))
  {
    var z := pool.PayloadSize(held[k]);
    if i < z / 4 { pool.Store(held[k], i, w); }
  }

  /** The pool carries out one operation. */
  method Perform(pool: Pool, op: Op, held: seq<int>) returns (held': seq<int>)
    requires Agree(pool, held) && Admissible(pool.A, op)
    modifies pool
    ensures pool.Valid() && (pool.A, pool.chain) == Grown(old(pool.A), old(pool.chain), op)
    ensures Harmless(old(pool.A), old(pool.chain), op) ==> NoNewLoss(old(pool.H), pool.H)
    ensures Step(Heap(held, old(pool.Allocations())), op, Heap(held', pool.Allocations()))
  {
    held' := held;
    match op
    case Allocate(size) =>
      held' := PerformAllocate(pool, size, held);
    case Dispose(k) =>
      if k < |held| {
        NotNull(pool, held, k);
        pool.Free(held[k]);
        held' := Dropped(held, k);
      }
    case Resize(k, size) =>
      if k < |held| { held' := PerformResize(pool, k, size, held); }
    case Write(k, i, w) =>
      if k < |held| { PerformWrite(pool, k, i, w, held); }
    case Extend(area, bytes) =>
      PerformExtend(pool, area, bytes);
  }

  lemma NotNull(pool: Pool, held: seq<int>, k: nat)
    requires Agree(pool, held) && k < |held|
    ensures held[k] != 0
  {
    BlockInArea(pool.H, pool.A, held[k] - OVERHEAD);
  }

  lemma AlwaysSeparate(pool: Pool)
    requires pool.Valid()
    ensures Separate(pool.Allocations())
  {
    var v := pool.Allocations();
    forall b, c | b in v && c in v && b != c
      ensures b + OVERHEAD + 4 * |v[b]| <= c || c + OVERHEAD + 4 * |v[c]| <= b
    {
      LiveApart(pool.mem, pool.H, pool.A, b, c);
    }
  }

  /** The same between states in which the client holds each buffer by one pointer. */
  method PerformNext(pool: Pool, op: Op, held: seq<int>) returns (held': seq<int>)
    requires Agree(pool, held) && Admissible(pool.A, op)
    modifies pool
    ensures Agree(pool, held') && Separate(pool.Allocations())
    ensures (pool.A, pool.chain) == Grown(old(pool.A), old(pool.chain), op)
    ensures Harmless(old(pool.A), old(pool.chain), op) ==> NoNewLoss(old(pool.H), pool.H)
    ensures Step(Heap(held, old(pool.Allocations())), op, Heap(held', pool.Allocations()))
  {
    ghost var h := Heap(held, pool.Allocations());
    held' := Perform(pool, op, held);
    StepHeld(h, op, Heap(held', pool.Allocations()));
    AlwaysSeparate(pool);
  }

  /** A run of the ideal heap: one state more than operations. */
  ghost predicate Trace(t: seq<Heap>, ops: seq<Op>)
  {
    |t| == |ops| + 1 && forall j | 0 <= j < |ops| :: Step(t[j], ops[j], t[j + 1])
  }

  /** In all of its states the client holds each buffer by one pointer, and buffers do not overlap. */
  ghost predicate Orderly(t: seq<Heap>) { forall j | 0 <= j < |t| :: Held(t[j]) && Separate(t[j].buffers) }

  lemma TraceExtended(t: seq<Heap>, ops: seq<Op>, n: nat, h: Heap)
    requires n < |ops| && Trace(t, ops[..n]) && Step(t[n], ops[n], h)
    requires Orderly(t) && Held(h) && Separate(h.buffers)
    ensures Trace(t + [h], ops[..n + 1]) && Orderly(t + [h])
  {
    var t', ops' := t + [h], ops[..n + 1];
    forall j | 0 <= j < |ops'| ensures Step(t'[j], ops'[j], t'[j + 1]) {
      if j < n { assert ops[..n][j] == ops'[j] && Step(t[j], ops[..n][j], t[j + 1]); }
    }
  }

  /** What is left of a run from the areas `A0` and their list on; `tight` tells that no remark has
      been lost. */
  ghost predicate Onward(A: Areas, chain: seq<int>, A0: Areas, chain0: seq<int>, ops: seq<Op>, n: nat, tight: bool)
    requires n <= |ops|
  {
    && AllAdmissible(A, chain, ops[n..]) && GrownBy(A, chain, ops[n..]) == GrownBy(A0, chain0, ops)
    && (AllHarmless(A0, chain0, ops) ==> tight && AllHarmless(A, chain, ops[n..]))
  }

  lemma OnwardStep(A: Areas, chain: seq<int>, A0: Areas, chain0: seq<int>, ops: seq<Op>, n: nat, tight: bool, tight': bool)
    requires n < |ops| && Onward(A, chain, A0, chain0, ops, n, tight)
    requires tight && Harmless(A, chain, ops[n]) ==> tight'
    ensures var g := Grown(A, chain, ops[n]); Onward(g.0, g.1, A0, chain0, ops, n + 1, tight')
  {
    assert ops[n..][0] == ops[n] && ops[n..][1..] == ops[n + 1..];
  }

  /** Every run of the pool is a run of the ideal heap, with separate buffers throughout. Only
      extensions change the areas. If none of them fills a gap in the order of the list, no remark is
      lost; and then, when the client holds nothing any more, each area is one free block. */
  method Run(pool: Pool, ops: seq<Op>) returns (held: seq<int>, ghost t: seq<Heap>)
    requires pool.Valid() && Tight(pool.H) && pool.Allocations() == map[] && AllAdmissible(pool.A, pool.chain, ops)
    modifies pool
    ensures pool.Valid() && (pool.A, pool.chain) == GrownBy(old(pool.A), old(pool.chain), ops)
    ensures Trace(t, ops) && t[0] == Heap([], map[]) && t[|ops|] == Heap(held, pool.Allocations())
    ensures Orderly(t)
    ensures AllHarmless(old(pool.A), old(pool.chain), ops) ==> Tight(pool.H)
    ensures held == [] && Tight(pool.H) ==> forall i | i in pool.A :: OneFreeBlock(pool, i)
  {
    held, t := [], [Heap([], map[])];
    assert ops[0..] == ops;
    for n := 0 to |ops|
      invariant pool.Valid() && Onward(pool.A, pool.chain, old(pool.A), old(pool.chain), ops, n, Tight(pool.H))
      invariant |t| == n + 1 && t[0] == Heap([], map[]) && t[n] == Heap(held, pool.Allocations())
      invariant Trace(t, ops[..n]) == true && Orderly(t) == true
    {
      ghost var A, chain, tight := pool.A, pool.chain, Tight(pool.H);
      assert ops[n..][0] == ops[n];
      held := PerformNext(pool, ops[n], held);
      OnwardStep(A, chain, old(pool.A), old(pool.chain), ops, n, tight, Tight(pool.H));
      TraceExtended(t, ops, n, Heap(held, pool.Allocations()));
      t := t + [Heap(held, pool.Allocations())];
    }
    assert ops[..|ops|] == ops;
    if held == [] && Tight(pool.H) { AllOneBlock(pool); }
  }

  lemma AllOneBlock(pool: Pool)
    requires pool.Valid() && Tight(pool.H) && pool.Allocations() == map[]
    ensures forall i | i in pool.A :: OneFreeBlock(pool, i)
  {
    forall i | i in pool.A ensures OneFreeBlock(pool, i) {
      forall b | b in pool.H ensures !IsLive(pool.H, pool.A, b) { NoneLive(pool.mem, pool.H, pool.A, b); }
      AllFreed(pool.H, pool.A, i);
    }
  }

  /** Area `i` consists of its first block, one free block and its sentinel, if there is room. */
  ghost predicate OneFreeBlock(pool: Pool, i: int)
    requires i in pool.A
    reads pool
  {
    pool.A[i] == i + 16 || (i + 16 in pool.H && pool.H[i + 16].free && Next(pool.H, i + 16) == pool.A[i])
  }

  /** A pool from its beginning: after any run without extensions that ends with everything freed,
      its one free block has the size it had at first. */
  method Session(pool: Pool, size: int, base: int, ops: seq<Op>) returns (r: int, held: seq<int>, ghost t: seq<Heap>)
    requires 0 <= size && 0 <= base && base + size <= ADDRESS_LIMIT && Accepted(size, base)
    requires FirstRoom(size, base) && Covers(pool.mem.Keys, base, FirstEnd(size, base))
    requires AllAdmissible(map[base + 3184 := base + 3208 + FirstBlock(size)], [base + 3184], ops)
    modifies pool
    ensures pool.Valid() && Trace(t, ops) && t[|ops|] == Heap(held, pool.Allocations())
    ensures Orderly(t)
    ensures AllHarmless(map[base + 3184 := base + 3208 + FirstBlock(size)], [base + 3184], ops) ==> Tight(pool.H)
    ensures held == [] && Tight(pool.H) ==> forall i | i in pool.A :: OneFreeBlock(pool, i)
    ensures held == [] && (forall j | 0 <= j < |ops| :: !ops[j].Extend?) ==>
      base + 3200 in pool.H && pool.H[base + 3200].free && pool.H[base + 3200].size == r
  {
    r := pool.InitMemoryPool(size, base, false);
    ghost var A, chain := map[base + 3184 := base + 3208 + FirstBlock(size)], [base + 3184];
    assert pool.A == A && pool.chain == chain;
    held, t := Run(pool, ops);
    if held == [] && forall j | 0 <= j < |ops| :: !ops[j].Extend? {
      NotGrown(A, chain, ops);
      assert OneFreeBlock(pool, base + 3184);
    }
  }
}
