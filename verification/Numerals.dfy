/** Reading and printing integers: `strtoul`, `strtol` and `__ltostr` with 32-bit longs. */
module Numerals {
  import opened Options
  import opened TlsfBits

  /** A character; strings end where they end, or at the first zero. */
  type Byte = b: int | 0 <= b < 256

  const ULONG_MAX := 0xFFFF_FFFF
  const ABS_LONG_MIN := 0x8000_0000

  function ByteAt(s: seq<Byte>, i: nat): Byte { if i < |s| then s[i] else 0 }

  // ----- characters -----

  predicate IsSpace(c: Byte) { 9 <= c < 14 || c == ' ' as int }
  predicate Between(lo: char, c: Byte, hi: char) { lo as int <= c <= hi as int }
  predicate IsHexDigit(c: Byte) { Between('0', c, '9') || Between('a', c, 'f') || Between('A', c, 'F') }
  predicate IsAlnum(c: Byte) { Between('0', c, '9') || Between('a', c, 'z') || Between('A', c, 'Z') }

  /** The value of a digit; at least 36 for other characters. Below '0' the difference wraps. */
  function DigitOf(c: Byte): Byte
  {
    if c >= 'a' as int then c - 'a' as int + 10
    else if c >= 'A' as int then c - 'A' as int + 10
    else if c <= '9' as int then (c - '0' as int) % 256
    else 0xff
  }

  /** The number that the digits from `i` up to `e` stand for. */
  function Num(s: seq<Byte>, i: nat, e: nat, base: nat): nat
    requires e <= |s|
    decreases e
  {
    if e <= i then 0 else Num(s, i, e - 1, base) * base + DigitOf(s[e - 1])
  }

  // ----- what strtoul reads -----

  function SkipSpaces(s: seq<Byte>, i: nat): (k: nat)
    requires i <= |s|
    ensures i <= k <= |s| && !IsSpace(ByteAt(s, k)) && forall j | i <= j < k :: IsSpace(ByteAt(s, j))
    decreases |s| - i
  {
    if IsSpace(ByteAt(s, i)) then SkipSpaces(s, i + 1) else i
  }

  predicate HexPrefix(s: seq<Byte>, i: nat)
  {
    (ByteAt(s, i + 1) == 'x' as int || ByteAt(s, i + 1) == 'X' as int) && IsHexDigit(ByteAt(s, i + 2))
  }

  predicate Minus(s: seq<Byte>) { ByteAt(s, SkipSpaces(s, 0)) == '-' as int }

  /** The place behind spaces and sign. */
  function SignEnd(s: seq<Byte>): (o: nat)
    ensures o <= |s|
  {
    var i := SkipSpaces(s, 0);
    if ByteAt(s, i) == '-' as int || ByteAt(s, i) == '+' as int then i + 1 else i
  }

  /** The first digit and the base. */
  datatype Head = Invalid | Head(start: nat, base: nat)

  function HeadAt(s: seq<Byte>, base: int, o: nat): (h: Head)
    requires o <= |s|
    ensures h.Head? ==> 2 <= h.base <= 36 && o <= h.start <= |s|
  {
    if base == 16 && ByteAt(s, o) == '0' as int then Head(if HexPrefix(s, o) then o + 2 else o, 16)
    else if base != 0 then (if 2 <= base <= 36 then Head(o, base) else Invalid)
    else if ByteAt(s, o) != '0' as int then Head(o, 10)
    else if HexPrefix(s, o) then Head(o + 2, 16)
    else Head(o, 8)
  }

  /** The digits from `i` on end at `e`. */
  predicate DigitsUpTo(s: seq<Byte>, i: nat, e: nat, base: nat)
  {
    && i <= e && (forall k | i <= k < e :: k < |s| && DigitOf(s[k]) < base)
    && (e >= |s| || s[e] == 0 || DigitOf(s[e]) >= base)
  }

  function DigitsEnd(s: seq<Byte>, i: nat, base: nat): (e: nat)
    requires base <= 36 && i <= |s|
    ensures DigitsUpTo(s, i, e, base) && e <= |s|
    decreases |s| - i
  {
    if i < |s| && s[i] != 0 && DigitOf(s[i]) < base then
      var e := DigitsEnd(s, i + 1, base);
      assert forall k | i <= k < e :: k < |s| && DigitOf(s[k]) < base;
      e
    else i
  }

  /** The number at `o`, of any size, and its end: 0 without a digit, none for an invalid base. */
  function Found(s: seq<Byte>, base: int, o: nat): (nat, Option<nat>)
    requires o <= |s|
  {
    var h := HeadAt(s, base, o);
    if h.Invalid? then (0, None)
    else
      var e := DigitsEnd(s, h.start, h.base);
      if e == o then (0, Some(0)) else (Num(s, h.start, e, h.base), Some(e))
  }

  /** Saturating at ULONG_MAX, negated modulo 2^32. */
  function Unsigned(n: nat, neg: bool): nat
  {
    if n > ULONG_MAX then ULONG_MAX else if neg then (ULONG_MAX + 1 - n) % (ULONG_MAX + 1) else n
  }

  /** Result and end pointer of `strtoul`; the end pointer is not set for an invalid base. */
  function Read(s: seq<Byte>, base: int): (r: (nat, Option<nat>))
    ensures r.0 <= ULONG_MAX
  {
    var f := Found(s, base, SignEnd(s));
    (Unsigned(f.0, Minus(s)), f.1)
  }

  // ----- strtoul -----

  /** One digit, added in two parts so that nothing exceeds 32 bits; `w` tells of an overflow. */
  lemma SplitStep(v: nat, base: nat, c: nat)
    requires v <= ULONG_MAX && base <= 36 && c < base
    ensures var x := v % 256 * base + c;
      var w := v / 256 * base + x / 256;
      && w * 256 + x % 256 == v * base + c && x <= ULONG_MAX && w <= ULONG_MAX
      && (w > ULONG_MAX / 256 <==> v * base + c > ULONG_MAX)
      && (w <= ULONG_MAX / 256 ==> w * 256 % (ULONG_MAX + 1) == w * 256)
  {
    var q, r := v / 256, v % 256;
    var x := r * base + c;
    Product(r, 255, base, 36);
    Product(q, ULONG_MAX / 256, base, 36);
    Distribute(q, r, base);
    Parts(q * base, x);
  }

  lemma Distribute(q: nat, r: nat, base: nat)
    ensures (256 * q + r) * base == 256 * (q * base) + r * base
  {
  }

  lemma Parts(p: nat, x: nat)
    ensures (p + x / 256) * 256 + x % 256 == 256 * p + x
    ensures p + x / 256 > ULONG_MAX / 256 <==> 256 * p + x > ULONG_MAX
    ensures p + x / 256 <= ULONG_MAX / 256 ==> (p + x / 256) * 256 % (ULONG_MAX + 1) == (p + x / 256) * 256
  {
  }

  lemma Product(a: nat, b: nat, c: nat, d: nat)
    requires a <= b && c <= d
    ensures a * c <= b * d
  {
    assert a * c <= b * c;
    assert b * c <= b * d;
  }

  method AddDigit(v: nat, base: nat, c: nat) returns (v': nat, overflow: bool)
    requires v <= ULONG_MAX && base <= 36 && c < base
    ensures v' <= ULONG_MAX && (overflow <==> v * base + c > ULONG_MAX) && (!overflow ==> v' == v * base + c)
  {
    var x := v % 256 * base + c;
    var w := v / 256 * base + x / 256;
    overflow := w > ULONG_MAX / 256;
    v' := w * 256 % (ULONG_MAX + 1) + x % 256;
    DigitAdded(v, base, c, x, w, v');
  }

  lemma DigitAdded(v: nat, base: nat, c: nat, x: int, w: int, v': int)
    requires v <= ULONG_MAX && base <= 36 && c < base
    requires x == v % 256 * base + c && w == v / 256 * base + x / 256
    requires v' == w * 256 % (ULONG_MAX + 1) + x % 256
    ensures v' <= ULONG_MAX && (w > ULONG_MAX / 256 <==> v * base + c > ULONG_MAX)
    ensures w <= ULONG_MAX / 256 ==> v' == v * base + c
  {
    SplitStep(v, base, c);
    Product(0, v % 256, 0, base);
    Product(0, v / 256, 0, base);
    HighPart(w, x);
  }

  /** The shifted part has nothing in its low byte. */
  lemma HighPart(w: nat, x: nat)
    ensures w * 256 % (ULONG_MAX + 1) + x % 256 <= ULONG_MAX
  {
    var m := ULONG_MAX / 256 + 1;
    var q, r := w / m, w % m;
    assert w * 256 == q * (ULONG_MAX + 1) + r * 256;
    Remainder(w * 256, ULONG_MAX + 1, q, r * 256);
  }

  lemma Remainder(x: nat, m: nat, q: nat, r: nat)
    requires x == q * m + r && r < m
    ensures x % m == r
  {
    var d := x / m - q;
    assert x % m == r - d * m;
    if d >= 1 { Product(1, d, m, m); }
    if d <= -1 { Product(1, -d, m, m); }
  }

  /** The loop over the digits: the number modulo 2^32, and whether it is too large. */
  method Accumulate(s: seq<Byte>, start: nat, base: nat) returns (v: nat, overflow: bool, p: nat)
    requires 2 <= base <= 36 && start <= |s|
    ensures p == DigitsEnd(s, start, base)
    ensures overflow <==> Num(s, start, p, base) > ULONG_MAX
    ensures !overflow ==> v == Num(s, start, p, base)
  {
    v, overflow, p := 0, false, start;
    while ByteAt(s, p) != 0
      invariant start <= p <= |s| && v <= ULONG_MAX && DigitsEnd(s, p, base) == DigitsEnd(s, start, base)
      invariant overflow <==> Num(s, start, p, base) > ULONG_MAX
      invariant !overflow ==> v == Num(s, start, p, base)
      decreases |s| - p
    {
      var c := DigitOf(ByteAt(s, p));
      if c >= base {
        break;
      }
      Grows(Num(s, start, p, base), base, c);
      var o;
      v, o := AddDigit(v, base, c);
      overflow := overflow || o;
      p := p + 1;
    }
  }

  lemma Grows(n: nat, base: nat, c: nat)
    requires base >= 1
    ensures n <= n * base + c
  {
    Product(n, n, 1, base);
  }

  /** The prefix and the base. */
  method Detect(s: seq<Byte>, o: nat, base: int) returns (h: Head)
    requires o <= |s|
    ensures h == HeadAt(s, base, o)
  {
    var p, b := o, base;
    if !(base == 16 && ByteAt(s, p) == '0' as int) && base != 0 {
      if base < 2 || base > 36 {
        return Invalid;
      }
    } else if ByteAt(s, p) == '0' as int {
      b := if base == 16 then 16 else 8;
      if HexPrefix(s, p) {
        p, b := p + 2, 16;
      }
    } else {
      b := 10;
    }
    h := Head(p, b);
  }

  /** `strtoul`. */
  method StrToUL(s: seq<Byte>, base: int) returns (r: nat, end: Option<nat>)
    ensures (r, end) == Read(s, base)
  {
    var p: nat := 0;
    while IsSpace(ByteAt(s, p))
      invariant p <= |s| && SkipSpaces(s, p) == SkipSpaces(s, 0)
      decreases |s| - p
    {
      p := p + 1;
    }
    var neg := false;
    if ByteAt(s, p) == '-' as int {
      neg := true;
      p := p + 1;
    } else if ByteAt(s, p) == '+' as int {
      p := p + 1;
    }
    var orig := p;
    assert orig == SignEnd(s) && neg == Minus(s);
    var h := Detect(s, orig, base);
    if h.Invalid? {
      return 0, None;
    }
    var v, overflow;
    v, overflow, p := Accumulate(s, h.start, h.base);
    if p == orig {
      return 0, Some(0);
    }
    end := Some(p);
    if overflow {
      return ULONG_MAX, end;
    }
    r := if neg then (ULONG_MAX + 1 - v) % (ULONG_MAX + 1) else v;
  }

  /** Digits, and a zero behind them where the string goes on. */
  predicate DigitString(s: seq<Byte>, j: nat, base: nat)
  {
    0 < j <= |s| && ByteAt(s, j) == 0 && forall k | 0 <= k < j :: DigitOf(s[k]) < base
  }

  /** In any base from 2 to 36 a string of digits, however long, is read completely: its value if
      that fits into 32 bits, ULONG_MAX otherwise. */
  lemma ReadDigits(ds: seq<Byte>, base: nat)
    requires 2 <= base <= 36 && ds != [] && forall k | 0 <= k < |ds| :: DigitOf(ds[k]) < base
    ensures Read(ds, base) == (Unsigned(Num(ds, 0, |ds|, base), false), Some(|ds|))
  {
    ReadDigitString(ds, |ds|, base);
  }

  lemma ReadDigitString(s: seq<Byte>, j: nat, base: nat)
    requires 2 <= base <= 36 && DigitString(s, j, base)
    ensures Read(s, base) == (Unsigned(Num(s, 0, j, base), false), Some(j))
  {
    assert DigitOf(s[0]) < base;
    assert SignEnd(s) == 0 && !Minus(s) && HeadAt(s, base, 0) == Head(0, base) by {
      assert j >= 2 ==> DigitOf(s[1]) < base;
    }
    AllDigits(s, j, 0, base);
  }

  lemma {:induction false} AllDigits(s: seq<Byte>, j: nat, i: nat, base: nat)
    requires base <= 36 && i <= j && DigitString(s, j, base)
    ensures DigitsEnd(s, i, base) == j
    decreases j - i
  {
    if i < j {
      assert DigitOf(s[i]) < base;
      AllDigits(s, j, i + 1, base);
    }
  }

  // ----- strtol -----

  const LONG_MAX := ABS_LONG_MIN - 1

  function Clamp(n: int): int
  {
    if n < -ABS_LONG_MIN then -ABS_LONG_MIN else if n > LONG_MAX then LONG_MAX else n
  }

  function Sign(n: int, neg: bool): int { if neg then -n else n }

  /** What `strtol` reads: spaces, a sign, a prefix and digits as `strtoul` does, but the number
      with its sign is brought into the range of a long. */
  function ReadLong(s: seq<Byte>, base: int): (int, Option<nat>)
  {
    var f := Found(s, base, SignEnd(s));
    (Clamp(Sign(f.0, Minus(s))), f.1)
  }

  // The string from `n` on, seen from its own start.

  lemma HeadShift(s: seq<Byte>, base: int, n: nat, o: nat)
    requires n + o <= |s|
    ensures var h, t := HeadAt(s, base, n + o), HeadAt(s[n..], base, o);
      h == if t.Invalid? then t else Head(n + t.start, t.base)
  {
    assert forall k: nat | k <= o + 2 :: ByteAt(s[n..], k) == ByteAt(s, n + k);
  }

  lemma {:induction false} EndShift(s: seq<Byte>, n: nat, i: nat, base: nat)
    requires base <= 36 && n + i <= |s|
    ensures DigitsEnd(s, n + i, base) == n + DigitsEnd(s[n..], i, base)
    decreases |s| - i
  {
    if n + i < |s| && s[n + i] != 0 && DigitOf(s[n + i]) < base {
      EndShift(s, n, i + 1, base);
    }
  }

  lemma {:induction false} NumShift(s: seq<Byte>, n: nat, i: nat, e: nat, base: nat)
    requires n + e <= |s|
    ensures Num(s, n + i, n + e, base) == Num(s[n..], i, e, base)
    decreases e
  {
    if e > i { NumShift(s, n, i, e - 1, base); }
  }

  /** A place in the string from `n` on; 0 stands for no conversion. */
  function Shifted(end: Option<nat>, n: nat): Option<nat>
  {
    if end.None? then None else Some(if end.value == 0 then 0 else n + end.value)
  }

  lemma FoundShift(s: seq<Byte>, base: int, n: nat, o: nat)
    requires n + o <= |s|
    ensures var f := Found(s[n..], base, o); Found(s, base, n + o) == (f.0, Shifted(f.1, n))
  {
    HeadShift(s, base, n, o);
    var t := HeadAt(s[n..], base, o);
    if t.Head? { NumberShift(s, n, t.start, t.base); }
  }

  lemma NumberShift(s: seq<Byte>, n: nat, i: nat, base: nat)
    requires base <= 36 && n + i <= |s|
    ensures var e := DigitsEnd(s[n..], i, base);
      DigitsEnd(s, n + i, base) == n + e && Num(s, n + i, n + e, base) == Num(s[n..], i, e, base)
  {
    EndShift(s, n, i, base);
    NumShift(s, n, i, DigitsEnd(s[n..], i, base), base);
  }

  predicate TakesSign(s: seq<Byte>, i: nat) { ByteAt(s, i) == '-' as int && IsAlnum(ByteAt(s, i + 1)) }

  /** A minus before a letter or digit is taken off, and `strtoul` reads what is behind it. */
  lemma FromSign(s: seq<Byte>, base: int, i: nat)
    requires i == SkipSpaces(s, 0) && TakesSign(s, i)
    ensures var r := Read(s[i + 1..], base); ReadLong(s, base) == (Clamp(Sign(r.0, true)), Shifted(r.1, i + 1))
  {
    var t := s[i + 1..];
    assert ByteAt(t, 0) == ByteAt(s, i + 1);
    assert SignEnd(t) == 0 && !Minus(t);
    FoundShift(s, base, i + 1, 0);
  }

  /** Any other minus is left to `strtoul`, and there is nothing to read behind it. */
  lemma FromSpaces(s: seq<Byte>, base: int, i: nat)
    requires i == SkipSpaces(s, 0) && !TakesSign(s, i)
    ensures var r := Read(s[i..], base); ReadLong(s, base) == (Clamp(r.0), Shifted(r.1, i))
  {
    var t := s[i..];
    assert ByteAt(t, 0) == ByteAt(s, i);
    assert SkipSpaces(t, 0) == 0;
    assert SignEnd(s) == i + SignEnd(t) && Minus(s) == Minus(t);
    FoundShift(s, base, i, SignEnd(t));
    if Minus(s) { NothingFound(s, base, i + 1); }
    ClampUnsigned(Found(t, base, SignEnd(t)).0, Minus(t));
  }

  lemma ClampUnsigned(n: nat, neg: bool)
    requires neg ==> n == 0
    ensures Clamp(Unsigned(n, neg)) == Clamp(Sign(n, neg))
  {
  }

  lemma NothingFound(s: seq<Byte>, base: int, o: nat)
    requires o <= |s| && !IsAlnum(ByteAt(s, o))
    ensures Found(s, base, o).0 == 0
  {
    if o < |s| && DigitOf(s[o]) < 36 { DigitIsAlnum(s[o]); }
  }

  /** `strtol`. */
  method StrToL(s: seq<Byte>, base: int) returns (r: int, end: Option<nat>)
    ensures (r, end) == ReadLong(s, base)
  {
    var p: nat := 0;
    while IsSpace(ByteAt(s, p))
      invariant p <= |s| && SkipSpaces(s, p) == SkipSpaces(s, 0)
      decreases |s| - p
    {
      p := p + 1;
    }
    var neg := false;
    if ByteAt(s, p) == '-' as int && IsAlnum(ByteAt(s, p + 1)) {
      neg := true;
      p := p + 1;
    }
    var v, e := StrToUL(s[p..], base);
    end := Shifted(e, p);
    if neg { FromSign(s, base, p - 1); } else { FromSpaces(s, base, p); }
    if v >= ABS_LONG_MIN {
      return if neg then -ABS_LONG_MIN else LONG_MAX, end;
    }
    r := if neg then -v else v;
  }

  lemma DigitIsAlnum(c: Byte)
    requires DigitOf(c) < 36
    ensures IsAlnum(c) && !IsSpace(c) && c != '-' as int && c != '+' as int
  {
  }

  /** Digits with a minus before them are read as the nearest 32-bit number. */
  lemma ReadNegative(ds: seq<Byte>, base: nat)
    requires 2 <= base <= 36 && ds != [] && forall k | 0 <= k < |ds| :: DigitOf(ds[k]) < base
    ensures ReadLong(['-' as int] + ds, base) == (Clamp(Sign(Num(ds, 0, |ds|, base), true)), Some(|ds| + 1))
  {
    ReadDigits(ds, base);
    DigitIsAlnum(ds[0]);
    var s: seq<Byte> := ['-' as int] + ds;
    assert SkipSpaces(s, 0) == 0;
    assert ByteAt(s, 1) == ds[0];
    assert s[1..] == ds;
    FromSign(s, base, 0);
  }

  /** And so are digits without a sign. */
  lemma ReadPositive(ds: seq<Byte>, base: nat)
    requires 2 <= base <= 36 && ds != [] && forall k | 0 <= k < |ds| :: DigitOf(ds[k]) < base
    ensures ReadLong(ds, base) == (Clamp(Num(ds, 0, |ds|, base)), Some(|ds|))
  {
    ReadDigits(ds, base);
    DigitIsAlnum(ds[0]);
    assert SkipSpaces(ds, 0) == 0;
    assert ds[0..] == ds;
    FromSpaces(ds, base, 0);
  }

  // ----- __ltostr -----

  function DigitChar(d: nat, upper: bool): Byte
    requires d < 36
  {
    if d < 10 then '0' as int + d else d - 10 + (if upper then 'A' as int else 'a' as int)
  }

  /** The digits of `i`, the most significant first. */
  function Digits(i: nat, base: nat, upper: bool): (ds: seq<Byte>)
    requires 2 <= base <= 36
    ensures ds != []
  {
    if i < base then [DigitChar(i, upper)] else
      assert i / base < i by { Quotient(i, base); }
      Digits(i / base, base, upper) + [DigitChar(i % base, upper)]
  }

  lemma Quotient(i: nat, base: nat)
    requires base >= 2 && i > 0
    ensures i / base < i && i == i / base * base + i % base
  {
    if i / base >= i { Product(i, i / base, 2, base); }
  }

  /** A digit, or a letter of the right case. */
  predicate CharOf(c: Byte, upper: bool)
  {
    Between('0', c, '9') || (if upper then Between('A', c, 'Z') else Between('a', c, 'z'))
  }

  /** Digits and letters of one case only, and no zero in front, but for the number 0. */
  lemma {:induction false} DigitsForm(i: nat, base: nat, upper: bool)
    requires 2 <= base <= 36
    ensures var ds := Digits(i, base, upper);
      (forall k | 0 <= k < |ds| :: CharOf(ds[k], upper)) && (ds[0] == '0' as int <==> i == 0)
  {
    if i >= base {
      Quotient(i, base);
      DigitsForm(i / base, base, upper);
    }
  }

  lemma CharValue(d: nat, upper: bool)
    requires d < 36
    ensures DigitOf(DigitChar(d, upper)) == d
  {
  }

  lemma {:induction false} DigitsInBase(i: nat, base: nat, upper: bool)
    requires 2 <= base <= 36
    ensures forall k | 0 <= k < |Digits(i, base, upper)| :: DigitOf(Digits(i, base, upper)[k]) < base
  {
    if i < base {
      CharValue(i, upper);
    } else {
      Quotient(i, base);
      DigitsInBase(i / base, base, upper);
      CharValue(i % base, upper);
    }
  }

  lemma {:induction false} DigitsValue(i: nat, base: nat, upper: bool)
    requires 2 <= base <= 36
    ensures Num(Digits(i, base, upper), 0, |Digits(i, base, upper)|, base) == i
  {
    if i < base {
      CharValue(i, upper);
      assert Num(Digits(i, base, upper), 0, 0, base) == 0;
    } else {
      Quotient(i, base);
      DigitsValue(i / base, base, upper);
      CharValue(i % base, upper);
      NumAppend(Digits(i / base, base, upper), DigitChar(i % base, upper), base);
    }
  }

  lemma NumAppend(ds: seq<Byte>, c: Byte, base: nat)
    ensures Num(ds + [c], 0, |ds| + 1, base) == Num(ds, 0, |ds|, base) * base + DigitOf(c)
  {
    NumPrefix(ds, ds + [c], |ds|, base);
  }

  lemma {:induction false} NumPrefix(s: seq<Byte>, t: seq<Byte>, e: nat, base: nat)
    requires e <= |s| && e <= |t| && forall k | 0 <= k < e :: s[k] == t[k]
    ensures Num(s, 0, e, base) == Num(t, 0, e, base)
  {
    if e > 0 { NumPrefix(s, t, e - 1, base); }
  }

  /** What is printed is read back, in every base and in both cases of letters. */
  lemma PrintedThenRead(i: nat, base: nat, upper: bool)
    requires 2 <= base <= 36 && i <= ULONG_MAX
    ensures Read(Digits(i, base, upper), base) == (i, Some(|Digits(i, base, upper)|))
  {
    DigitsInBase(i, base, upper);
    DigitsValue(i, base, upper);
    ReadDigits(Digits(i, base, upper), base);
  }

  /** A number below 2^k has at most k digits. */
  lemma {:induction false} DigitsLength(i: nat, base: nat, upper: bool, k: nat)
    requires 2 <= base <= 36 && k > 0 && i < Pow2(k)
    ensures |Digits(i, base, upper)| <= k
  {
    if i >= base {
      Quotient(i, base);
      Product(i / base, i / base, 2, base);
      assert k > 1;
      DigitsLength(i / base, base, upper, k - 1);
    }
  }

  function Min(a: nat, b: nat): nat { if a < b then a else b }

  /** `memmove` to the front of the buffer. */
  method MoveToFront(buf: array<Byte>, from: nat, n: nat)
    requires from + n <= buf.Length
    modifies buf
    ensures buf[..n] == old(buf[from..from + n])
  {
    for k := 0 to n
      invariant buf[..k] == old(buf[from..from + k]) && buf[from + k..] == old(buf[from + k..])
    {
      buf[k] := buf[from + k];
    }
  }

  function Zeros(n: nat): seq<Byte> { seq(n, _ => '0' as int) }

  /** What is printed where there is room for `room` digits. In base 1 the number does not get
      smaller, and zeros fill the room. */
  function Printed(i: nat, base: nat, upper: bool, room: nat): seq<Byte>
    requires 1 <= base <= 36
  {
    if i == 0 then Zeros(1) else if base == 1 then Zeros(room) else Digits(i, base, upper)
  }

  /** The digits `w` have been written and `i` is left. */
  ghost predicate Writing(n: nat, i: nat, base: nat, upper: bool, w: seq<Byte>)
    requires 1 <= base <= 36
  {
    if base == 1 then i == n && w == Zeros(|w|)
    else Digits(n, base, upper) == (if i > 0 then Digits(i, base, upper) else []) + w
  }

  lemma WritingStep(n: nat, i: nat, base: nat, upper: bool, w: seq<Byte>)
    requires 1 <= base <= 36 && i > 0 && Writing(n, i, base, upper, w)
    ensures 0 <= i / base && 0 <= i % base < base
    ensures Writing(n, i / base, base, upper, [DigitChar(i % base, upper)] + w)
  {
    if base == 1 { return; }
    Quotient(i, base);
    if i < base { assert i / base == 0 && i % base == i; }
  }

  method NextDigit(ghost n: nat, i: nat, base: nat, upper: bool, ghost w: seq<Byte>) returns (q: nat, c: Byte)
    requires 1 <= base <= 36 && i > 0 && Writing(n, i, base, upper, w) == true
    ensures q == i / base && c == DigitChar(i % base, upper) && Writing(n, q, base, upper, [c] + w) == true
  {
    WritingStep(n, i, base, upper, w);
    q, c := i / base, DigitChar(i % base, upper);
  }

  lemma LowDigits(n: nat, i: nat, base: nat, upper: bool, w: seq<Byte>, room: nat)
    requires 1 <= base <= 36 && n > 0 && Writing(n, i, base, upper, w) && |w| <= room && (i == 0 || |w| == room)
    ensures var ds := Printed(n, base, upper, room); |w| == Min(|ds|, room) && w == ds[|ds| - |w|..]
  {
  }

  /** A character before those that end at `end`. */
  method PutDigit(buf: array<Byte>, at: nat, end: nat, c: Byte)
    requires at < end < buf.Length
    modifies buf
    ensures buf[end] == old(buf[end]) && buf[at..end] == [c] + old(buf[at + 1..end])
  {
    buf[at] := c;
  }

  /** The loop of `__ltostr`, from the end of the buffer to its front. */
  method WriteDigits(buf: array<Byte>, size: nat, n: nat, base: nat, upper: bool) returns (tmp: nat)
    requires 0 < size <= buf.Length && 1 <= base <= 36 && n > 0
    modifies buf
    ensures buf[size - 1] == old(buf[size - 1]) && tmp <= size - 1
    ensures var ds := Printed(n, base, upper, size - 1);
      size - 1 - tmp == Min(|ds|, size - 1) && buf[tmp..size - 1] == ds[|ds| - (size - 1 - tmp)..]
  {
    tmp := size - 1;
    var i: nat := n;
    ghost var w := [];
    // `== true` lets the verifier carry the predicate over as a whole, without unfolding it
    while tmp > 0 && i > 0
      invariant tmp <= size - 1 && buf[size - 1] == old(buf[size - 1]) && w == buf[tmp..size - 1]
      invariant Writing(n, i, base, upper, w) == true
      decreases tmp
    {
      var c;
      i, c := NextDigit(n, i, base, upper, w);
      tmp := tmp - 1;
      PutDigit(buf, tmp, size - 1, c);
      w := [c] + w;
    }
    LowDigits(n, i, base, upper, w, size - 1);
  }

  /** The low digits that fit lie from `tmp` up to the final zero. */
  ghost predicate Written(buf: seq<Byte>, size: nat, tmp: nat, ds: seq<Byte>)
  {
    && tmp < size <= |buf| && size - 1 - tmp == Min(|ds|, size - 1)
    && buf[tmp..size - 1] == ds[|ds| - (size - 1 - tmp)..] && buf[size - 1] == 0
  }

  /** A zero is written as one digit. */
  method WriteZero(buf: array<Byte>, size: nat) returns (tmp: nat)
    requires 2 <= size <= buf.Length && buf[size - 1] == 0
    modifies buf
    ensures Written(buf[..], size, tmp, Zeros(1))
  {
    tmp := size - 2;
    buf[tmp] := '0' as int;
    assert buf[..][tmp..size - 1] == [buf[tmp]];
  }

  method WriteNumber(buf: array<Byte>, size: nat, i: nat, base: nat, upper: bool) returns (tmp: nat)
    requires 0 < size <= buf.Length && (i == 0 ==> size >= 2) && 1 <= base <= 36 && buf[size - 1] == 0
    modifies buf
    ensures Written(buf[..], size, tmp, Printed(i, base, upper, size - 1))
  {
    if i == 0 {
      tmp := WriteZero(buf, size);
    } else {
      tmp := WriteDigits(buf, size, i, base, upper);
      assert buf[..][tmp..size - 1] == buf[tmp..size - 1];
    }
  }

  /** The base in use. */
  function BaseOf(base: nat): nat { if base == 0 || base > 36 then 10 else base }

  /** `__ltostr`: the digits that fit, the low ones, and a zero behind them. */
  method LToStr(buf: array<Byte>, size: nat, i: nat, base: nat, upper: bool) returns (j: nat)
    requires 0 < size <= buf.Length && (i == 0 ==> size >= 2)
    modifies buf
    ensures var ds := Printed(i, BaseOf(base), upper, size - 1);
      j == Min(|ds|, size - 1) && buf[..j] == ds[|ds| - j..] && buf[j] == 0
  {
    buf[size - 1] := 0;
    var b := BaseOf(base);
    var tmp := WriteNumber(buf, size, i, b, upper);
    j := size - 1 - tmp;
    ghost var ds := Printed(i, b, upper, size - 1);
    assert buf[tmp..size - 1] == buf[..][tmp..size - 1];
    ToFront(buf, tmp, j, ds[|ds| - j..]);
  }

  /** The string at `from`, with its final zero, is moved to the front. */
  method ToFront(buf: array<Byte>, from: nat, j: nat, ghost w: seq<Byte>)
    requires from + j < buf.Length && buf[from..from + j] == w && buf[from + j] == 0
    modifies buf
    ensures buf[..j] == w && buf[j] == 0
  {
    ghost var was := buf[from..from + j + 1];
    assert was == w + [0];
    MoveToFront(buf, from, j + 1);
    assert buf[..j] == buf[..j + 1][..j];
    assert buf[j] == buf[..j + 1][j];
  }

  lemma PrintedDigits(i: nat, base: nat, upper: bool, room: nat)
    requires 2 <= base <= 36
    ensures Printed(i, base, upper, room) == Digits(i, base, upper)
  {
  }

  /** A buffer that starts with the digits of `i` and a zero is read as `i`. */
  lemma BufferRead(s: seq<Byte>, i: nat, base: nat, upper: bool)
    requires 2 <= base <= 36 && i <= ULONG_MAX
    requires var ds := Digits(i, base, upper); |ds| < |s| && s[..|ds|] == ds && s[|ds|] == 0
    ensures Read(s, base) == (i, Some(|Digits(i, base, upper)|))
  {
    var ds := Digits(i, base, upper);
    DigitsInBase(i, base, upper);
    DigitsValue(i, base, upper);
    assert forall k | 0 <= k < |ds| :: s[k] == ds[k];
    NumPrefix(ds, s, |ds|, base);
    ReadDigitString(s, |ds|, base);
  }

  /** 32 digits are enough for every 32-bit number in every base. */
  lemma DigitsFit(i: nat, base: nat, upper: bool)
    requires 2 <= base <= 36 && i <= ULONG_MAX
    ensures |Digits(i, base, upper)| <= 32
  {
    Powers();
    DigitsLength(i, base, upper, 32);
  }

  /** What `__ltostr` leaves in a buffer with room for all digits, which 33 bytes always are, is read
      back by `strtoul` up to its final zero. */
  method PrintAndRead(buf: array<Byte>, size: nat, i: nat, base: nat, upper: bool)
    returns (j: nat, r: nat, end: Option<nat>)
    requires size <= buf.Length && 2 <= base <= 36 && i <= ULONG_MAX
    requires |Digits(i, base, upper)| < size || 33 <= size
    modifies buf
    ensures j < size && buf[..j] == Digits(i, base, upper) && r == i && end == Some(j)
  {
    DigitsFit(i, base, upper);
    PrintedDigits(i, base, upper, size - 1);
    j := LToStr(buf, size, i, base, upper);
    ghost var ds := Digits(i, base, upper);
    assert ds[0..] == ds && buf[..][..j] == buf[..j];
    BufferRead(buf[..], i, base, upper);
    r, end := StrToUL(buf[..], base);
  }
}
