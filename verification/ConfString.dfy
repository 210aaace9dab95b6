/** String values in configuration files: escaping on writing, unescaping in place on reading. */
module ConfString {
  import opened Options

  const NUL := '\0'

  predicate Special(c: char) { c == '"' || c == '\\' }

  // ----- what is written and what is read -----

  /** A backslash before every quote and backslash. */
  function Escape(v: string): string
  {
    if v == [] then [] else (if Special(v[0]) then ['\\', v[0]] else [v[0]]) + Escape(v[1..])
  }

  function Prepend(w: string, o: Option<string>): Option<string> { if o.None? then None else Some(w + o.value) }

  /** The value up to the closing quote, if there is one. */
  function Unquote(t: string): Option<string>
  {
    if t == [] then None
    else if t[0] == '"' then Some([])
    else if t[0] != '\\' then Prepend([t[0]], Unquote(t[1..]))
    else if |t| == 1 then None
    else Prepend([t[1]], Unquote(t[2..]))
  }

  lemma {:induction false} EscapeThenUnquote(v: string, rest: string)
    ensures Unquote(Escape(v) + ['"'] + rest) == Some(v)
  {
    if v == [] {
      assert Escape(v) + ['"'] + rest == ['"'] + rest;
    } else {
      EscapeThenUnquote(v[1..], rest);
      var t := Escape(v[1..]) + ['"'] + rest;
      if Special(v[0]) {
        assert Escape(v) + ['"'] + rest == ['\\', v[0]] + t;
        assert (['\\', v[0]] + t)[2..] == t;
      } else {
        assert Escape(v) + ['"'] + rest == [v[0]] + t;
      }
      assert v == [v[0]] + v[1..];
    }
  }

  /** A character of a value as it may be written: with a backslash before it or, if it is neither quote
      nor backslash, without. */
  datatype Unit = Unit(c: char, escaped: bool)

  predicate Writable(us: seq<Unit>) { forall i | 0 <= i < |us| :: Special(us[i].c) ==> us[i].escaped }

  function Spelling(us: seq<Unit>): string
  {
    if us == [] then [] else (if us[0].escaped then ['\\', us[0].c] else [us[0].c]) + Spelling(us[1..])
  }

  function Meaning(us: seq<Unit>): string { if us == [] then [] else [us[0].c] + Meaning(us[1..]) }

  /** Any way of writing a value is read as that value, whatever follows the closing quote. */
  lemma {:induction false} ReadSpelling(us: seq<Unit>, rest: string)
    requires Writable(us)
    ensures Unquote(Spelling(us) + ['"'] + rest) == Some(Meaning(us))
  {
    var s := Spelling(us) + ['"'] + rest;
    if us == [] {
      assert s == ['"'] + rest;
    } else {
      ReadSpelling(us[1..], rest);
      var t := Spelling(us[1..]) + ['"'] + rest;
      if us[0].escaped {
        assert s == ['\\', us[0].c] + t && s[2..] == t;
      } else {
        assert s == [us[0].c] + t && s[1..] == t;
      }
    }
  }

  /** And nothing else is read. */
  lemma {:induction false} OnlySpellings(t: string) returns (us: seq<Unit>, rest: string)
    requires Unquote(t).Some?
    ensures Writable(us) && t == Spelling(us) + ['"'] + rest && Unquote(t) == Some(Meaning(us))
  {
    if t[0] == '"' {
      us, rest := [], t[1..];
    } else {
      var escaped := t[0] == '\\';
      var n := if escaped then 2 else 1;
      var more;
      more, rest := OnlySpellings(t[n..]);
      us := [Unit(t[n - 1], escaped)] + more;
      assert us[1..] == more;
      assert t == t[..n] + t[n..];
    }
  }

  /** No way of writing a value is shorter than the one that is used. */
  lemma {:induction false} EscapeShortest(us: seq<Unit>)
    requires Writable(us)
    ensures |Escape(Meaning(us))| <= |Spelling(us)|
  {
    if us != [] {
      EscapeShortest(us[1..]);
      assert Meaning(us)[1..] == Meaning(us[1..]);
    }
  }

  /** Without the closing quote, or cut somewhere before it, nothing is read. */
  lemma {:induction false} EscapeCut(v: string, n: nat)
    requires n <= |Escape(v)|
    ensures Unquote(Escape(v)[..n]) == None
  {
    if v != [] && n > 0 {
      var t := Escape(v)[..n];
      if !Special(v[0]) {
        EscapeCut(v[1..], n - 1);
        assert t[1..] == Escape(v[1..])[..n - 1];
      } else if n >= 2 {
        EscapeCut(v[1..], n - 2);
        assert t[2..] == Escape(v[1..])[..n - 2];
      }
    }
  }

  // ----- a whole line -----

  /** The text up to the newline, which the reader replaces by a zero. */
  function CutLine(t: string): string
  {
    if t == [] || t[0] == '\n' then [] else [t[0]] + CutLine(t[1..])
  }

  /** The text up to and including the newline. */
  function FirstLine(t: string): string
  {
    if t == [] then [] else if t[0] == '\n' then [t[0]] else [t[0]] + FirstLine(t[1..])
  }

  function Take(t: string, n: nat): string { if n <= |t| then t[..n] else t }

  /** The size of the reader's buffer. */
  const LINE_SIZE := 1024

  /** `fgets`: one line, or as much of it as fits before a final zero. */
  function FGets(t: string): string { Take(FirstLine(t), LINE_SIZE - 1) }

  /** `strchr`. */
  function FirstAt(t: string, c: char): (r: Option<nat>)
    ensures r.None? ==> c !in t
    ensures r.Some? ==> r.value < |t| && t[r.value] == c && c !in t[..r.value]
  {
    if t == [] then None
    else if t[0] == c then Some(0)
    else
      var r := FirstAt(t[1..], c);
      if r.None? then None else
        assert t[..r.value + 1] == [t[0]] + t[1..][..r.value];
        Some(r.value + 1)
  }

  const PREFIX := "CONFIG_"

  /** The line of a string symbol up to its value, and the whole line. */
  function LineHead(name: string): string { PREFIX + name + ['=', '"'] }
  function EntryLine(name: string, v: string): string { LineHead(name) + (Escape(v) + ['"', '\n']) }

  /** Name and value that the reader takes from a line; None if it ignores the line or complains. */
  function ReadEntry(line: string): Option<(string, string)>
  {
    if !(PREFIX <= line) then None
    else
      var k := FirstAt(line[7..], '=');
      if k.None? then None
      else
        var p := CutLine(line[7 + k.value + 1..]);
        if p == [] || p[0] != '"' then None
        else
          var v := Unquote(p[1..]);
          if v.None? then None else Some((line[7..7 + k.value], v.value))
  }

  lemma OneFurther(s: string, t: string)
    requires s != []
    ensures s + t == [s[0]] + (s[1..] + t)
  {
  }

  lemma {:induction false} CutPlain(s: string, t: string)
    requires '\n' !in s
    ensures CutLine(s + t) == s + CutLine(t) && FirstLine(s + t) == s + FirstLine(t)
  {
    if s == [] {
      assert s + t == t && s + CutLine(t) == CutLine(t) && s + FirstLine(t) == FirstLine(t);
    } else {
      CutPlain(s[1..], t);
      var u := s + t;
      assert u[0] == s[0] != '\n' && u[1..] == s[1..] + t;
      OneFurther(s, CutLine(t));
      OneFurther(s, FirstLine(t));
    }
  }

  /** What is in front of the newline has the same beginning, whole or cut. */
  lemma {:induction false} CutTaken(t: string, n: nat)
    ensures CutLine(Take(FirstLine(t), n)) == Take(CutLine(t), n)
  {
    if t != [] && t[0] != '\n' && n > 0 {
      CutTaken(t[1..], n - 1);
      var l := FirstLine(t[1..]);
      assert Take([t[0]] + l, n) == [t[0]] + Take(l, n - 1);
      assert Take([t[0]] + CutLine(t[1..]), n) == [t[0]] + Take(CutLine(t[1..]), n - 1);
    }
  }

  lemma {:induction false} EscapeKeepsLines(v: string)
    ensures '\n' in Escape(v) <==> '\n' in v
  {
    if v != [] {
      EscapeKeepsLines(v[1..]);
      assert v == [v[0]] + v[1..];
    }
  }

  lemma {:induction false} CutEscaped(v: string, rest: string)
    requires '\n' in v
    ensures CutLine(Escape(v) + rest) == Escape(CutLine(v))
  {
    if v[0] != '\n' {
      assert v == [v[0]] + v[1..];
      CutEscaped(v[1..], rest);
      var c := if Special(v[0]) then ['\\', v[0]] else [v[0]];
      assert Escape(v) + rest == c + (Escape(v[1..]) + rest);
      CutPlain(c, Escape(v[1..]) + rest);
    }
  }

  /** The value on a line of which `m` characters behind the opening quote fit. */
  lemma ValueTaken(v: string, m: nat)
    ensures var r := Unquote(Take(CutLine(Escape(v) + ['"', '\n']), m));
      r == if '\n' !in v && |Escape(v)| < m then Some(v) else None
  {
    if '\n' in v {
      CutEscaped(v, ['"', '\n']);
      var w := Escape(CutLine(v));
      EscapeCut(CutLine(v), if m <= |w| then m else |w|);
      assert w[..|w|] == w;
    } else {
      EscapeKeepsLines(v);
      CutPlain(Escape(v), ['"', '\n']);
      assert CutLine(['"', '\n']) == ['"'];
      var w := Escape(v) + ['"'];
      if |Escape(v)| < m {
        EscapeThenUnquote(v, []);
        assert w + [] == w == Take(w, m);
      } else {
        EscapeCut(v, m);
        assert w[..m] == Escape(v)[..m];
      }
    }
  }

  /** A line that is long enough to hold the opening quote. */
  lemma ReadHeaded(name: string, t: string)
    requires '=' !in name && '\n' !in name
    ensures ReadEntry(LineHead(name) + t) ==
      var v := Unquote(CutLine(t)); if v.None? then None else Some((name, v.value))
  {
    var line := LineHead(name) + t;
    HeadParts(name, t);
    FirstBehind(name, ['"'] + t);
    CutPlain(['"'], t);
    assert (['"'] + CutLine(t))[1..] == CutLine(t);
  }

  lemma HeadParts(name: string, t: string)
    ensures var line := LineHead(name) + t;
      && line == PREFIX + (name + (['='] + (['"'] + t))) && line[7..] == name + (['='] + (['"'] + t))
      && line[7..7 + |name|] == name && line[7 + |name| + 1..] == ['"'] + t
  {
  }

  lemma {:induction false} FirstBehind(name: string, t: string)
    requires '=' !in name
    ensures FirstAt(name + (['='] + t), '=') == Some(|name|)
  {
    var s := name + (['='] + t);
    if name != [] {
      FirstBehind(name[1..], t);
      assert s[1..] == name[1..] + (['='] + t);
    }
  }

  /** A line that is cut before the opening quote. */
  lemma ReadHeadless(name: string, n: nat)
    requires '=' !in name && '\n' !in name && 7 <= n < |LineHead(name)|
    ensures ReadEntry(LineHead(name)[..n]) == None
  {
    var line := LineHead(name)[..n];
    HeadCut(name, n);
    if n > 7 + |name| { FirstBehind(name, []); }
  }

  lemma HeadCut(name: string, n: nat)
    requires 7 <= n < |LineHead(name)|
    ensures var line := LineHead(name)[..n];
      if n <= 7 + |name| then line[7..] == name[..n - 7]
      else line[7..] == name + (['='] + []) && line[7 + |name| + 1..] == []
  {
    assert LineHead(name) == LineHead(name) + [];
    HeadParts(name, []);
    assert LineHead(name)[..n][7..] == LineHead(name)[7..][..n - 7];
  }

  /** A written value is read back if and only if it contains no newline and its line, up to the
      closing quote, fits into the reader's buffer; otherwise the line gives no value. */
  lemma WrittenThenRead(name: string, v: string)
    requires '=' !in name && '\n' !in name
    ensures ReadEntry(FGets(EntryLine(name, v))) ==
      if '\n' !in v && 10 + |name| + |Escape(v)| < LINE_SIZE then Some((name, v)) else None
  {
    var head, t := LineHead(name), Escape(v) + ['"', '\n'];
    CutPlain(head, t);
    var l := FirstLine(t);
    var m := LINE_SIZE - 1;
    TakeBoth(head, l, m);
    if m < |head| {
      ReadHeadless(name, m);
    } else {
      m := m - |head|;
      ReadHeaded(name, Take(l, m));
      CutTaken(t, m);
      ValueTaken(v, m);
    }
  }

  lemma TakeBoth(s: string, t: string, n: nat)
    ensures Take(s + t, n) == if n < |s| then s[..n] else s + Take(t, n - |s|)
  {
  }

  // ----- the loop of conf_write -----

  lemma {:induction false} EscapePlain(v: string, n: nat)
    requires n <= |v| && forall k | 0 <= k < n :: !Special(v[k])
    ensures Escape(v) == v[..n] + Escape(v[n..])
  {
    if n > 0 {
      EscapePlain(v[1..], n - 1);
      assert v[1..][n - 1..] == v[n..] && v[..n] == [v[0]] + v[1..][..n - 1];
    }
  }

  /** `strcspn`. */
  method PlainLength(v: string, from: nat) returns (n: nat)
    requires from <= |v|
    ensures from + n <= |v| && (forall k | from <= k < from + n :: !Special(v[k]))
    ensures from + n == |v| || Special(v[from + n])
  {
    n := 0;
    while from + n < |v| && !Special(v[from + n])
      invariant from + n <= |v| && forall k | from <= k < from + n :: !Special(v[k])
    {
      n := n + 1;
    }
  }

  /** The loop that writes the value of a string symbol. */
  method WriteValue(v: string) returns (out: string)
    ensures out == Escape(v)
  {
    out := [];
    var i := 0;
    assert v[0..] == v;
    while true
      invariant i <= |v| && out + Escape(v[i..]) == Escape(v)
      decreases |v| - i
    {
      var n := PlainLength(v, i);
      EscapePlain(v[i..], n);
      assert v[i..][..n] == v[i..i + n] && v[i..][n..] == v[i + n..];
      out := out + v[i..i + n];
      i := i + n;
      while i < |v| && Special(v[i])
        invariant i <= |v| && out + Escape(v[i..]) == Escape(v)
      {
        assert v[i..][1..] == v[i + 1..];
        out := out + ['\\', v[i]];
        i := i + 1;
      }
      if i == |v| {
        break;
      }
    }
  }

  // ----- the loop of conf_read_simple -----

  lemma {:induction false} UnquotePlain(t: string, n: nat)
    requires n <= |t| && forall k | 0 <= k < n :: !Special(t[k])
    ensures Unquote(t) == Prepend(t[..n], Unquote(t[n..]))
  {
    if n > 0 {
      UnquotePlain(t[1..], n - 1);
      var w, o := t[1..][..n - 1], Unquote(t[n..]);
      assert t[1..][n - 1..] == t[n..] && t[..n] == [t[0]] + w;
      assert o.Some? ==> [t[0]] + (w + o.value) == t[..n] + o.value;
    } else {
      assert t[0..] == t && t[..0] == [];
      assert Unquote(t).Some? ==> [] + Unquote(t).value == Unquote(t).value;
    }
  }

  /** The buffer holds a string from `p` to its zero at `e`. */
  ghost predicate Terminated(buf: seq<char>, p: nat, e: nat)
  {
    p <= e < |buf| && buf[e] == NUL && forall k | p <= k < e :: buf[k] != NUL
  }

  /** `strpbrk(p, "\"\\")`. */
  method FindSpecial(buf: array<char>, p: nat, ghost e: nat) returns (q: Option<nat>)
    requires Terminated(buf[..], p, e)
    ensures q.None? ==> forall k | p <= k < e :: !Special(buf[k])
    ensures q.Some? ==> p <= q.value < e && Special(buf[q.value]) && forall k | p <= k < q.value :: !Special(buf[k])
  {
    var k := p;
    while buf[k] != NUL
      invariant p <= k <= e && forall j | p <= j < k :: !Special(buf[j])
      decreases e - k
    {
      if Special(buf[k]) {
        return Some(k);
      }
      k := k + 1;
    }
    q := None;
  }

  /** `memmove(p, p + 1, strlen(p))`: the character at `p` is taken out. */
  method TakeOut(buf: array<char>, p: nat, ghost e: nat)
    requires Terminated(buf[..], p, e) && p < e
    modifies buf
    ensures buf[..p] == old(buf[..p]) && buf[p..e] == old(buf[p + 1..e + 1]) && buf[e] == NUL
  {
    var k := p;
    while buf[k] != NUL
      invariant p <= k <= e && buf[..p] == old(buf[..p]) && buf[p..k] == old(buf[p + 1..k + 1]) && buf[k..] == old(buf[k..])
      decreases e - k
    {
      assert buf[k] == old(buf[..][k]) && buf[k + 1] == buf[k..][1] == old(buf[k..][1]);
      buf[k] := buf[k + 1];
      k := k + 1;
    }
  }

  lemma PrependTwice(v: string, w: string, o: Option<string>)
    ensures Prepend(v, Prepend(w, o)) == Prepend(v + w, o)
  {
    assert o.Some? ==> v + (w + o.value) == (v + w) + o.value;
  }

  /** What has been read so far, and what the rest of the buffer stands for. */
  ghost function Outlook(buf: seq<char>, p: nat, q: nat, e: nat): Option<string>
    requires p <= q <= e <= |buf|
  {
    Prepend(buf[p..q], Unquote(buf[q..e]))
  }

  /** Plain characters are read. */
  lemma OutlookPlain(buf: seq<char>, p: nat, q: nat, r: nat, e: nat)
    requires p <= q <= r <= e <= |buf| && forall k | q <= k < r :: !Special(buf[k])
    ensures Outlook(buf, p, q, e) == Outlook(buf, p, r, e)
  {
    var t := buf[q..e];
    UnquotePlain(t, r - q);
    assert t[..r - q] == buf[q..r] && t[r - q..] == buf[r..e] && buf[p..q] + buf[q..r] == buf[p..r];
    PrependTwice(buf[p..q], buf[q..r], Unquote(buf[r..e]));
  }

  /** A backslash has been taken out and the character behind it is read. */
  lemma OutlookEscaped(buf: seq<char>, buf': seq<char>, p: nat, q: nat, e: nat)
    requires p <= q && q + 1 < e < |buf| == |buf'| && buf[q] == '\\'
    requires buf'[..q] == buf[..q] && buf'[q..e] == buf[q + 1..e + 1]
    ensures Outlook(buf, p, q, e) == Outlook(buf', p, q + 1, e - 1)
  {
    var t := buf[q..e];
    assert buf'[q] == buf'[q..e][0] == t[1];
    var rest := buf'[q + 1..e - 1];
    forall j | 0 <= j < e - q - 2 ensures t[2..][j] == rest[j] {
      assert rest[j] == buf'[q..e][1 + j] == buf[q + 1..e + 1][1 + j];
    }
    assert t[2..] == rest;
    assert buf'[p..q + 1] == buf[p..q] + [t[1]] by {
      assert buf'[p..q] == buf'[..q][p..] && buf[p..q] == buf[..q][p..];
    }
    PrependTwice(buf[p..q], [t[1]], Unquote(t[2..]));
  }

  /** Unescapes the string at `p` in place and ends it at the closing quote; fails if there is none. */
  method ReadValue(buf: array<char>, p: nat, ghost e0: nat) returns (ok: bool)
    requires Terminated(buf[..], p, e0)
    modifies buf
    ensures var v := Unquote(old(buf[p..e0]));
      && ok == v.Some?
      && (ok ==> p + |v.value| < buf.Length && buf[p..p + |v.value|] == v.value && buf[p + |v.value|] == NUL)
  {
    var q: nat := p;
    ghost var e: nat := e0;
    assert buf[..][p..e0] == buf[p..e0];
    OutlookStart(buf[..], p, e0);
    while true
      invariant p <= q && Terminated(buf[..], q, e) && Outlook(buf[..], p, q, e) == Unquote(old(buf[p..e0]))
      decreases e - q
    {
      var next := FindSpecial(buf, q, e);
      if next.None? {
        OutlookNone(buf[..], p, q, e);
        return false;
      }
      OutlookPlain(buf[..], p, q, next.value, e);
      q := next.value;
      if buf[q] == '"' {
        OutlookQuote(buf[..], p, q, e);
        buf[q] := NUL;
        return true;
      }
      ghost var was := buf[..];
      TakeOut(buf, q, e);
      TakenOut(was, buf[..], q, e);
      if q + 1 == e {
        OutlookNone(was, p, q, e);
        OutlookNone(buf[..], p, e, e);
      } else {
        OutlookEscaped(was, buf[..], p, q, e);
        e := e - 1;
      }
      q := q + 1;
    }
  }

  lemma TakenOut(buf: seq<char>, buf': seq<char>, q: nat, e: nat)
    requires Terminated(buf, q, e) && q < e && |buf'| == |buf| && buf'[q..e] == buf[q + 1..e + 1] && buf'[e] == NUL
    ensures Terminated(buf', if q + 1 == e then e else q + 1, if q + 1 == e then e else e - 1)
  {
    forall k | q <= k < e ensures buf'[k] == buf[k + 1] {
      assert buf'[q..e][k - q] == buf[q + 1..e + 1][k - q];
    }
  }

  lemma OutlookStart(buf: seq<char>, p: nat, e: nat)
    requires p <= e <= |buf|
    ensures Outlook(buf, p, p, e) == Unquote(buf[p..e])
  {
    var o := Unquote(buf[p..e]);
    assert buf[p..p] == [] && (o.Some? ==> [] + o.value == o.value);
  }

  /** No special character, or only a backslash at the very end: no closing quote. */
  lemma OutlookNone(buf: seq<char>, p: nat, q: nat, e: nat)
    requires p <= q <= e <= |buf|
    requires (forall k | q <= k < e :: !Special(buf[k])) || (q + 1 == e && buf[q] == '\\')
    ensures Outlook(buf, p, q, e) == None
  {
    if forall k | q <= k < e :: !Special(buf[k]) {
      OutlookPlain(buf, p, q, e, e);
      assert buf[e..e] == [];
    }
  }

  lemma OutlookQuote(buf: seq<char>, p: nat, q: nat, e: nat)
    requires p <= q < e <= |buf| && buf[q] == '"'
    ensures Outlook(buf, p, q, e) == Some(buf[p..q])
  {
    assert buf[q..e][0] == '"';
    assert buf[p..q] + [] == buf[p..q];
  }
}
