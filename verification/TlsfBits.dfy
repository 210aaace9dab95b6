/** The bit tricks of the allocator: the logarithm table, `ms_bit`, `ls_bit` and the
    bitmap words. Sizes are integers (their 32-bit range is a precondition), bitmap
    words are sequences of bits. */
module TlsfBits {

  /** C's `n << k` on unbounded integers. */
  function Shl(n: nat, k: nat): nat { if k == 0 then n else 2 * Shl(n, k - 1) }

  /** C's `x >> k`. */
  function Shr(x: nat, k: nat): nat { if k == 0 then x else Shr(x, k - 1) / 2 }

  /** C's `1 << k`. */
  function Pow2(k: nat): (r: nat)
    ensures r >= 1
  {
    if k == 0 then 1 else 2 * Pow2(k - 1)
  }

  lemma {:induction false} ShlMonotone(m: nat, n: nat, k: nat)
    ensures m <= n ==> Shl(m, k) <= Shl(n, k)
    ensures m < n ==> Shl(m, k) < Shl(n, k)
  {
    if k > 0 {
      ShlMonotone(m, n, k - 1);
    }
  }

  lemma {:induction false} ShlZero(k: nat)
    ensures Shl(0, k) == 0
  {
    if k > 0 {
      ShlZero(k - 1);
    }
  }

  lemma {:induction false} ShlSum(m: nat, n: nat, k: nat)
    ensures Shl(m + n, k) == Shl(m, k) + Shl(n, k)
  {
    if k > 0 {
      ShlSum(m, n, k - 1);
    }
  }

  lemma {:induction false} ShlPow2(j: nat, k: nat)
    ensures Shl(Pow2(j), k) == Pow2(j + k)
    decreases k
  {
    if k > 0 {
      ShlPow2(j, k - 1);
      assert Pow2(j + k) == 2 * Pow2(j + (k - 1));
    }
  }

  lemma {:induction false} Pow2Monotone(m: nat, n: nat)
    requires m <= n
    ensures Pow2(m) <= Pow2(n)
    decreases n
  {
    if m < n {
      Pow2Monotone(m, n - 1);
    }
  }

  /** Shifting right and back clears the low bits. */
  lemma {:induction false} ShrBounds(x: nat, k: nat)
    ensures Shl(Shr(x, k), k) <= x < Shl(Shr(x, k) + 1, k)
  {
    if k > 0 {
      ShrBounds(x, k - 1);
      var q := Shr(x, k - 1);
      ShlSum(q / 2, q / 2, k - 1);
      ShlSum(q / 2 + 1, q / 2 + 1, k - 1);
      ShlMonotone(q / 2 + q / 2, q, k - 1);
      ShlMonotone(q + 1, q / 2 + 1 + q / 2 + 1, k - 1);
    }
  }

  lemma ShrUnique(x: nat, k: nat, q: nat)
    requires Shl(q, k) <= x < Shl(q + 1, k)
    ensures Shr(x, k) == q
  {
    ShrBounds(x, k);
    var r := Shr(x, k);
    ShlMonotone(r + 1, q, k);
    ShlMonotone(q + 1, r, k);
  }

  /** `lo <= x >> k < hi` in terms of `x`. */
  lemma ShrBetween(x: nat, k: nat, lo: nat, hi: nat)
    requires Shl(lo, k) <= x < Shl(hi, k)
    ensures lo <= Shr(x, k) < hi
  {
    ShrBounds(x, k);
    var r := Shr(x, k);
    ShlMonotone(r + 1, lo, k);
    ShlMonotone(hi, r, k);
  }

  /** The powers in use, for unfolding without search. */
  lemma Powers()
    ensures Pow2(0) == 1 && Pow2(1) == 2 && Pow2(2) == 4 && Pow2(3) == 8 && Pow2(4) == 16
    ensures Pow2(5) == 32 && Pow2(6) == 64 && Pow2(7) == 128 && Pow2(8) == 256
    ensures Pow2(16) == 0x1_0000 && Pow2(24) == 0x100_0000 && Pow2(26) == 0x400_0000
    ensures Pow2(29) == 0x2000_0000 && Pow2(30) == 0x4000_0000 && Pow2(31) == 0x8000_0000 && Pow2(32) == 0x1_0000_0000
  {
  }

  /** `n` copies of `v`. */
  function Run(n: nat, v: int): (s: seq<int>)
    ensures |s| == n && forall i | 0 <= i < n :: s[i] == v
  {
    seq(n, _ => v)
  }

  /** The 256-entry `table`, written run by run. */
  const TABLE: seq<int> :=
    [-1, 0] + Run(2, 1) + Run(4, 2) + Run(8, 3) + Run(16, 4) + Run(32, 5) + Run(64, 6) + Run(128, 7)

  lemma TableIsLogarithm(v: int)
    requires 0 <= v < 256
    ensures |TABLE| == 256
    ensures v == 0 ==> TABLE[v] == -1
    ensures v > 0 ==> 0 <= TABLE[v] < 8 && Pow2(TABLE[v]) <= v < Pow2(TABLE[v] + 1)
  {
    Powers();
    assert v < 2 || 2 <= v < 4 || 4 <= v < 8 || 8 <= v < 16 || 16 <= v < 32 || 32 <= v < 64 || 64 <= v < 128 || 128 <= v;
  }

  /** The shift both bit searches choose so that the table index is one byte. */
  function ByteShift(x: nat): (a: nat)
    requires x < 0x1_0000_0000
    ensures Shr(x, a) < 256 && (x > 0 ==> Shr(x, a) > 0)
    ensures a <= 24
  {
    var a := if x <= 0xffff then if x <= 0xff then 0 else 8 else if x <= 0xffffff then 16 else 24;
    Powers();
    ShlPow2(8, a);
    ShlPow2(0, a);
    ShrBetween(x, a, if x > 0 then 1 else 0, 256);
    a
  }

  /** `ms_bit`: the index of the most significant set bit, -1 for zero. */
  function MsBit(x: nat): (r: int)
    requires x < 0x1_0000_0000
    ensures x == 0 ==> r == -1
    ensures x > 0 ==> 0 <= r < 32 && Pow2(r) <= x < Pow2(r + 1)
  {
    var a := ByteShift(x);
    TableIsLogarithm(Shr(x, a));
    MsBitByByte(x, a);
    TABLE[Shr(x, a)] + a
  }

  lemma MsBitByByte(x: nat, a: nat)
    requires Shr(x, a) < 256 && a <= 24
    ensures |TABLE| == 256
    ensures var t := TABLE[Shr(x, a)];
      Shr(x, a) > 0 ==> 0 <= t < 8 && Pow2(t + a) <= x < Pow2(t + a + 1)
  {
    var v := Shr(x, a);
    TableIsLogarithm(v);
    var t := TABLE[v];
    if v > 0 {
      ScaledLogarithm(x, a, v, t);
      assert Pow2(t + a) <= x < Pow2(t + a + 1);
    }
  }

  lemma ScaledLogarithm(x: nat, a: nat, v: nat, t: nat)
    requires v == Shr(x, a) && Pow2(t) <= v < Pow2(t + 1)
    ensures Pow2(t + a) <= x < Pow2(t + a + 1)
  {
    ShrBounds(x, a);
    ShlPow2(t, a);
    ShlPow2(t + 1, a);
    ShlMonotone(Pow2(t), v, a);
    ShlMonotone(v + 1, Pow2(t + 1), a);
  }

  lemma MsBitUnique(x: nat, k: nat)
    requires x < 0x1_0000_0000 && Pow2(k) <= x < Pow2(k + 1)
    ensures MsBit(x) == k
  {
    var r := MsBit(x);
    if r < k { Pow2Monotone(r + 1, k); }
    if k < r { Pow2Monotone(k + 1, r); }
  }

  // ----- bitmap words, least significant bit first -----

  type Bits = seq<bool>

  type Word = w: Bits | |w| == 32 witness ZERO

  const ZERO: Bits := seq(32, _ => false)

  function Value(w: Bits): (n: nat)
    ensures n < Pow2(|w|)
  {
    if w == [] then 0 else (if w[0] then 1 else 0) + 2 * Value(w[1..])
  }

  function Complement(w: Bits): (r: Bits)
    ensures |r| == |w|
  {
    seq(|w|, i requires 0 <= i < |w| => !w[i])
  }

  /** Two's complement `-w`: the bits above the lowest set bit are inverted. */
  function Negate(w: Bits): (r: Bits)
    ensures |r| == |w|
    ensures Value(r) == if Value(w) == 0 then 0 else Pow2(|w|) - Value(w)
  {
    if w == [] then []
    else if w[0] then
      var r := [true] + Complement(w[1..]);
      ComplementValue(w[1..]);
      assert r[1..] == Complement(w[1..]);
      r
    else
      var r := [false] + Negate(w[1..]);
      assert r[1..] == Negate(w[1..]);
      r
  }

  lemma {:induction false} ComplementValue(w: Bits)
    ensures Value(Complement(w)) == Pow2(|w|) - 1 - Value(w)
  {
    if w != [] {
      ComplementValue(w[1..]);
      assert Complement(w)[1..] == Complement(w[1..]);
    }
  }

  /** Bitwise `&`. */
  function And(v: Bits, w: Bits): (r: Bits)
    requires |v| == |w|
    ensures |r| == |w|
  {
    seq(|w|, i requires 0 <= i < |w| => v[i] && w[i])
  }

  /** `w & (~0 << k)`. */
  function From(w: Bits, k: nat): (r: Bits)
    ensures |r| == |w|
  {
    seq(|w|, i requires 0 <= i < |w| => k <= i && w[i])
  }

  /** `ls_bit`: `ms_bit` of `w & -w`, so -1 for zero and otherwise the lowest set bit. */
  function LsBit(w: Word): (r: int)
    ensures true !in w ==> r == -1
    ensures true in w ==> 0 <= r < 32 && w[r] && forall j | 0 <= j < r :: !w[j]
  {
    LowestIsolated(w);
    MsBit(Value(And(w, Negate(w))))
  }

  lemma LowestIsolated(w: Word)
    ensures Value(And(w, Negate(w))) < 0x1_0000_0000
    ensures var r := MsBit(Value(And(w, Negate(w))));
      if true !in w then r == -1 else 0 <= r < 32 && w[r] && forall j | 0 <= j < r :: !w[j]
  {
    var k := LowestBit(w);
    if k < 32 {
      WordPower(k);
      MsBitUnique(Pow2(k), k);
    } else {
      assert true !in w;
    }
  }

  lemma WordPower(k: nat)
    requires k < 32
    ensures Pow2(k) < 0x1_0000_0000
    ensures Pow2(k) < Pow2(k + 1)
  {
    Powers();
    Pow2Monotone(k, 31);
  }

  /** `w & -w` is the single bit `Pow2(k)`, `k` the lowest set bit (none when `k` is the length). */
  lemma {:induction false} LowestBit(w: Bits) returns (k: nat)
    ensures k <= |w| && forall j | 0 <= j < k :: !w[j]
    ensures k < |w| ==> w[k]
    ensures Value(And(w, Negate(w))) == if k < |w| then Pow2(k) else 0
  {
    var x := And(w, Negate(w));
    if w == [] {
      k := 0;
    } else if w[0] {
      k := 0;
      assert x[1..] == And(w[1..], Complement(w[1..]));
      NothingShared(w[1..]);
    } else {
      var k' := LowestBit(w[1..]);
      k := k' + 1;
      assert x[1..] == And(w[1..], Negate(w[1..]));
    }
  }

  lemma {:induction false} NothingShared(w: Bits)
    ensures Value(And(w, Complement(w))) == 0
  {
    if w != [] {
      NothingShared(w[1..]);
      assert And(w, Complement(w))[1..] == And(w[1..], Complement(w[1..]));
    }
  }
}
