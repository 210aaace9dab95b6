/** What `strtoul` and `strtol` read, told by the parts of the string. */
module NumeralText {
  import opened Options
  import opened Numerals

  // ----- the parts of a string -----

  predicate Spaces(w: seq<Byte>) { forall k | 0 <= k < |w| :: IsSpace(w[k]) }

  predicate IsSign(g: seq<Byte>) { g == [] || g == ['+' as int] || g == ['-' as int] }

  predicate InBase(ds: seq<Byte>, base: nat) { forall k | 0 <= k < |ds| :: DigitOf(ds[k]) < base }

  /** No digit of the base comes next. */
  predicate NoDigit(t: seq<Byte>, base: nat) { t == [] || DigitOf(t[0]) >= base }

  /** Neither a space nor a sign comes next. */
  predicate Begun(t: seq<Byte>) { t == [] || !(IsSpace(t[0]) || t[0] == '+' as int || t[0] == '-' as int) }

  predicate IsHexPrefix(x: seq<Byte>) { x == ['0' as int, 'x' as int] || x == ['0' as int, 'X' as int] }

  /** The prefix of a hexadecimal number with a digit behind it. */
  predicate StartsHex(t: seq<Byte>) { |t| >= 3 && IsHexPrefix(t[..2]) && IsHexDigit(t[2]) }

  /** For `strtoul` in base `base`, the prefix `x` and the digits `ds` are a number in base `b`, and it
      ends where `rest` begins. */
  predicate Numeral(base: int, x: seq<Byte>, ds: seq<Byte>, rest: seq<Byte>, b: nat)
  {
    && 2 <= b <= 36 && ds != [] && InBase(ds, b) && NoDigit(rest, b)
    && if x == [] then
         && (base == 0 || base == 16 ==> !StartsHex(ds + rest))
         && b == if base != 0 then base else if ds[0] == '0' as int then 8 else 10
       else (base == 0 || base == 16) && IsHexPrefix(x) && b == 16
  }

  /** The characters that are digits, and their values. */
  lemma DigitExact(c: Byte)
    ensures DigitOf(c) < 36 <==> IsAlnum(c)
    ensures Between('0', c, '9') ==> DigitOf(c) == c - '0' as int
    ensures Between('a', c, 'z') ==> DigitOf(c) == c - 'a' as int + 10
    ensures Between('A', c, 'Z') ==> DigitOf(c) == c - 'A' as int + 10
    ensures DigitOf(c) < 16 <==> IsHexDigit(c)
  {
  }

  // ----- numbers -----

  lemma SpacesEnd(w: seq<Byte>, t: seq<Byte>)
    requires Spaces(w) && (t == [] || !IsSpace(t[0]))
    ensures SkipSpaces(w + t, 0) == |w|
  {
    var s := w + t;
    assert forall k | 0 <= k < |w| :: ByteAt(s, k) == w[k];
    assert ByteAt(s, |w|) == if t == [] then 0 else t[0];
  }

  /** The place behind spaces and sign. */
  lemma SignAt(w: seq<Byte>, g: seq<Byte>, t: seq<Byte>)
    requires Spaces(w) && IsSign(g) && (g == [] ==> Begun(t))
    ensures SignEnd(w + g + t) == |w + g| && Minus(w + g + t) == (g == ['-' as int]) && (w + g + t)[|w + g|..] == t
    ensures SkipSpaces(w + g + t, 0) == |w|
  {
    assert w + g + t == w + (g + t);
    SpacesEnd(w, g + t);
    assert ByteAt(w + g + t, |w|) == ByteAt(g + t, 0);
  }

  lemma NumeralHead(base: int, x: seq<Byte>, ds: seq<Byte>, rest: seq<Byte>, b: nat)
    requires Numeral(base, x, ds, rest, b)
    ensures HeadAt(x + ds + rest, base, 0) == Head(|x|, b) && Begun(x + ds + rest)
  {
    var t := x + ds + rest;
    DigitExact(ds[0]);
    if x == [] {
      assert t == ds + rest;
      assert HexPrefix(t, 0) && t[0] == '0' as int ==> t[..2] == [t[0], t[1]];
    } else {
      assert t[0] == x[0] && t[1] == x[1] && t[2] == ds[0];
    }
  }

  lemma NumeralEnd(x: seq<Byte>, ds: seq<Byte>, rest: seq<Byte>, b: nat)
    requires 2 <= b <= 36 && InBase(ds, b) && NoDigit(rest, b)
    ensures var t := x + ds + rest; DigitsEnd(t, |x|, b) == |x + ds| && Num(t, |x|, |x + ds|, b) == Num(ds, 0, |ds|, b)
  {
    var t := x + ds + rest;
    assert t[|x|..] == ds + rest;
    NumberShift(t, |x|, 0, b);
    assert forall k | 0 <= k < |ds| :: (ds + rest)[k] == ds[k];
    assert rest != [] ==> (ds + rest)[|ds|] == rest[0];
    EndAt(ds + rest, |ds|, b);
    NumPrefix(ds, ds + rest, |ds|, b);
  }

  lemma EndAt(t: seq<Byte>, e: nat, b: nat)
    requires b <= 36 && e <= |t| && InBase(t[..e], b) && NoDigit(t[e..], b)
    ensures DigitsEnd(t, 0, b) == e
  {
    assert forall k | 0 <= k < e :: t[k] == t[..e][k];
  }

  lemma FoundNumeral(base: int, x: seq<Byte>, ds: seq<Byte>, rest: seq<Byte>, b: nat)
    requires Numeral(base, x, ds, rest, b)
    ensures Found(x + ds + rest, base, 0) == (Num(ds, 0, |ds|, b), Some(|x + ds|))
  {
    NumeralHead(base, x, ds, rest, b);
    NumeralEnd(x, ds, rest, b);
  }

  /** Up to ULONG_MAX the result is the number, or adds up with it to 0 modulo 2^32; beyond, it is
      ULONG_MAX. */
  lemma UnsignedExact(n: nat, neg: bool)
    ensures var r := Unsigned(n, neg);
      if n > ULONG_MAX then r == ULONG_MAX
      else 0 <= r <= ULONG_MAX && if neg then (r + n) % (ULONG_MAX + 1) == 0 else r == n
  {
  }

  /** The result is the long that is nearest to the number. */
  lemma ClampNearest(n: int, m: int)
    requires -ABS_LONG_MIN <= m <= LONG_MAX
    ensures var r := Clamp(n); -ABS_LONG_MIN <= r <= LONG_MAX && (n <= r <= m || m <= r <= n || r == n)
  {
  }

  /** Spaces, a sign, a prefix and digits, whatever follows: `strtoul` reads the number, saturated or
      negated modulo 2^32, `strtol` brings it with its sign into the range of a long; the end is behind
      the digits. */
  lemma ReadNumeral(w: seq<Byte>, g: seq<Byte>, x: seq<Byte>, ds: seq<Byte>, rest: seq<Byte>, base: int, b: nat)
    requires Spaces(w) && IsSign(g) && Numeral(base, x, ds, rest, b)
    ensures var n, neg, end := Num(ds, 0, |ds|, b), g == ['-' as int], |w + g + x + ds|;
      && Read(w + g + x + ds + rest, base) == (Unsigned(n, neg), Some(end))
      && ReadLong(w + g + x + ds + rest, base) == (Clamp(Sign(n, neg)), Some(end))
  {
    var t := x + ds + rest;
    assert w + g + x + ds + rest == w + g + t && |w + g + x + ds| == |w + g| + |x + ds|;
    NumeralHead(base, x, ds, rest, b);
    FoundNumeral(base, x, ds, rest, b);
    FoundBehind(w, g, t, base);
  }

  /** What is found behind spaces and sign does not depend on them. */
  lemma FoundBehind(w: seq<Byte>, g: seq<Byte>, t: seq<Byte>, base: int)
    requires Spaces(w) && IsSign(g) && (g == [] ==> Begun(t))
    ensures var s, f := w + g + t, Found(t, base, 0);
      Found(s, base, SignEnd(s)) == (f.0, Shifted(f.1, |w + g|)) && Minus(s) == (g == ['-' as int])
  {
    SignAt(w, g, t);
    FoundShift(w + g + t, base, |w + g|, 0);
  }

  /** Without a digit behind spaces and sign there is no conversion. */
  lemma ReadNothing(w: seq<Byte>, g: seq<Byte>, rest: seq<Byte>, base: int)
    requires Spaces(w) && IsSign(g) && (g == [] ==> Begun(rest)) && (base == 0 || 2 <= base <= 36)
    requires NoDigit(rest, if base == 0 then 10 else base)
    ensures Read(w + g + rest, base) == (0, Some(0)) && ReadLong(w + g + rest, base) == (0, Some(0))
  {
    var b := if base == 0 then 10 else base;
    assert rest != [] ==> rest[0] != '0' as int;
    assert HeadAt(rest, base, 0) == Head(0, b);
    EndAt(rest, 0, b);
    FoundBehind(w, g, rest, base);
  }

  lemma ReadInvalid(s: seq<Byte>, base: int)
    requires base != 0 && !(2 <= base <= 36)
    ensures Read(s, base) == (0, None) && ReadLong(s, base) == (0, None)
  {
  }

  /** These are all strings there are. */
  lemma AllStrings(s: seq<Byte>, base: int)
    returns (w: seq<Byte>, g: seq<Byte>, x: seq<Byte>, ds: seq<Byte>, rest: seq<Byte>, b: nat)
    requires base == 0 || 2 <= base <= 36
    ensures s == w + g + x + ds + rest && Spaces(w) && IsSign(g)
    ensures Numeral(base, x, ds, rest, b) ||
      (x == ds == [] && NoDigit(rest, if base == 0 then 10 else base) && (g == [] ==> Begun(rest)))
  {
    var i, o := SkipSpaces(s, 0), SignEnd(s);
    w, g := s[..i], s[i..o];
    CutSign(s);
    Pieces(s, i, o);
    x, ds, rest, b := AllNumerals(s[o..], base);
    Ungrouped(w, g, x, ds, rest);
  }

  lemma Ungrouped(w: seq<Byte>, g: seq<Byte>, x: seq<Byte>, ds: seq<Byte>, rest: seq<Byte>)
    ensures w + g + (x + ds + rest) == w + g + x + ds + rest
    ensures x == ds == [] ==> x + ds + rest == rest
  {
  }

  lemma CutSign(s: seq<Byte>)
    ensures var i, o := SkipSpaces(s, 0), SignEnd(s);
      && i <= o <= |s| && Spaces(s[..i]) && IsSign(s[i..o]) && (s[i..o] == [] ==> Begun(s[o..]))
  {
    var i := SkipSpaces(s, 0);
    assert forall k | 0 <= k < i :: ByteAt(s, k) == s[k];
  }

  lemma AllNumerals(t: seq<Byte>, base: int) returns (x: seq<Byte>, ds: seq<Byte>, rest: seq<Byte>, b: nat)
    requires base == 0 || 2 <= base <= 36
    ensures t == x + ds + rest
    ensures Numeral(base, x, ds, rest, b) || (x == ds == [] && NoDigit(rest, if base == 0 then 10 else base))
  {
    var h := HeadAt(t, base, 0);
    var n, e := h.start, DigitsEnd(t, h.start, h.base);
    x, ds, rest, b := t[..n], t[n..e], t[e..], h.base;
    Pieces(t, n, e);
    CutNumeral(t, base);
  }

  lemma Pieces(t: seq<Byte>, n: nat, e: nat)
    requires n <= e <= |t|
    ensures t == t[..n] + t[n..e] + t[e..] && t[n..e] + t[e..] == t[n..]
  {
  }

  lemma CutNumeral(t: seq<Byte>, base: int)
    requires base == 0 || 2 <= base <= 36
    ensures var h := HeadAt(t, base, 0);
      var n, e := h.start, DigitsEnd(t, h.start, h.base);
      if e == 0 then NoDigit(t, if base == 0 then 10 else base) else Numeral(base, t[..n], t[n..e], t[e..], h.base)
  {
    var h := HeadAt(t, base, 0);
    CutDigits(t, h.start, h.base);
    CutHead(t, base);
    Pieces(t, h.start, DigitsEnd(t, h.start, h.base));
  }

  lemma CutDigits(t: seq<Byte>, n: nat, b: nat)
    requires n <= |t| && b <= 36
    ensures var e := DigitsEnd(t, n, b); n <= e <= |t| && InBase(t[n..e], b) && NoDigit(t[e..], b)
  {
  }

  lemma CutHead(t: seq<Byte>, base: int)
    requires base == 0 || 2 <= base <= 36
    ensures var h := HeadAt(t, base, 0);
      if h.start == 0 then
        && (base == 0 || base == 16 ==> !StartsHex(t))
        && h.base == if base != 0 then base else if ByteAt(t, 0) == '0' as int then 8 else 10
      else
        && (base == 0 || base == 16) && h.start == 2 <= |t| && IsHexPrefix(t[..2]) && h.base == 16
        && DigitsEnd(t, 2, 16) > 2
  {
    if |t| >= 3 {
      assert t[..2] == [t[0], t[1]];
      DigitExact(t[2]);
    }
  }
}
