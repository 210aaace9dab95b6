/** The binary heap of the kernel's timers: slot 0 holds a sentinel that stops the sift-up. */
module Heap {

  datatype Node<T> = Node(key: int, item: T)

  const SENTINEL := -1

  /** The node in slot `j` is not smaller than the one above it. */
  ghost predicate Above<T>(s: seq<Node<T>>, j: nat)
  {
    2 <= j < |s| ==> s[j / 2].key <= s[j].key
  }

  ghost predicate HeapOrder<T>(s: seq<Node<T>>, n: nat)
  {
    forall j: nat {:trigger Above(s, j)} | j <= n :: Above(s, j)
  }

  /** The keys below slot `i` are at least `key`. */
  ghost predicate Under<T>(s: seq<Node<T>>, n: nat, i: nat, key: int)
    requires n < |s|
  {
    (2 * i <= n ==> key <= s[2 * i].key) && (2 * i + 1 <= n ==> key <= s[2 * i + 1].key)
  }

  /** Slots 1 to `n` are in heap order, the slots around `hole` apart; what is above the hole is
      not larger than what is below it. */
  ghost predicate OrderedBut<T>(s: seq<Node<T>>, n: nat, hole: nat)
    requires n < |s|
  {
    && (forall j: nat {:trigger Above(s, j)} | j <= n && j != hole && j / 2 != hole :: Above(s, j))
    && (2 <= hole <= n ==> Under(s, n, hole, s[hole / 2].key))
  }

  lemma {:induction false} RootIsLeast<T>(s: seq<Node<T>>, n: nat, j: nat)
    requires n < |s| && HeapOrder(s, n) && 1 <= j <= n
    ensures s[1].key <= s[j].key
  {
    if j > 1 {
      assert Above(s, j);
      RootIsLeast(s, n, j / 2);
    }
  }

  lemma Swapped<T>(s: seq<T>, i: nat, j: nat)
    requires i < |s| && j < |s|
    ensures multiset(s[i := s[j]][j := s[i]]) == multiset(s)
  {
  }

  /** The sentinel is in place and the keys of slots 1 to `n`, the hole apart, are not below it. */
  ghost predicate Guarded<T>(s: seq<Node<T>>, n: nat, hole: nat)
    requires n < |s|
  {
    s[0].key == SENTINEL && forall j | 1 <= j <= n && j != hole :: s[j].key >= SENTINEL
  }

  /** The nodes in slots 1 to `n`, with `x` in the hole. */
  function Filled<T>(s: seq<Node<T>>, n: nat, hole: nat, x: Node<T>): seq<Node<T>>
    requires 1 <= hole <= n < |s|
  {
    s[1..n + 1][hole - 1 := x]
  }

  /** Moving a node into the hole moves the hole. */
  lemma HoleMoved<T>(s: seq<Node<T>>, n: nat, i: nat, k: nat, x: Node<T>)
    requires 1 <= i <= n < |s| && 1 <= k <= n
    ensures multiset(Filled(s[i := s[k]], n, k, x)) == multiset(Filled(s, n, i, x))
  {
    var v, w := Filled(s, n, i, x), Filled(s[i := s[k]], n, k, x);
    Swapped(v, i - 1, k - 1);
    var u := v[i - 1 := v[k - 1]][k - 1 := v[i - 1]];
    forall q | 0 <= q < n ensures w[q] == u[q] { }
    assert w == u;
  }

  /** The hole moves to the slot above. */
  lemma OrderUp<T>(s: seq<Node<T>>, n: nat, i: nat)
    requires 2 <= i <= n < |s| && OrderedBut(s, n, i)
    ensures OrderedBut(s[i := s[i / 2]], n, i / 2) && Under(s[i := s[i / 2]], n, i / 2, s[i / 2].key)
  {
    var p, s' := i / 2, s[i := s[i / 2]];
    forall j: nat | j <= n && j != p && j / 2 != p ensures Above(s', j) {
      assert j != i && j / 2 != i ==> Above(s, j);
    }
    assert 2 * p <= n && 2 * p != i ==> Above(s, 2 * p);
    assert 2 * p + 1 <= n && 2 * p + 1 != i ==> Above(s, 2 * p + 1);
    assert Above(s, p);
  }

  /** The hole moves to the slot of the smaller child. */
  lemma OrderDown<T>(s: seq<Node<T>>, n: nat, i: nat, c: nat)
    requires 1 <= i <= n < |s| && c / 2 == i && c <= n && OrderedBut(s, n, i) && Under(s, n, i, s[c].key)
    ensures OrderedBut(s[i := s[c]], n, c)
  {
    var s' := s[i := s[c]];
    forall j: nat | j <= n && j != c && j / 2 != c ensures Above(s', j) {
      assert j != i && j / 2 != i ==> Above(s, j);
    }
    assert 2 * c <= n ==> Above(s, 2 * c);
    assert 2 * c + 1 <= n ==> Above(s, 2 * c + 1);
  }

  /** A heap of the nodes in `m`. */
  ghost predicate HeapOf<T>(s: seq<Node<T>>, n: nat, m: multiset<Node<T>>)
  {
    n < |s| && Guarded(s, n, 0) && HeapOrder(s, n) && multiset(s[1..n + 1]) == m
  }

  // ----- sifting up -----

  /** A hole on its way up that `x` can fill as far as what is below is concerned. */
  ghost predicate Rising<T>(s: seq<Node<T>>, n: nat, i: nat, x: Node<T>, m: multiset<Node<T>>)
  {
    && 1 <= i <= n < |s| && Guarded(s, n, i) && OrderedBut(s, n, i) && Under(s, n, i, x.key)
    && multiset(Filled(s, n, i, x)) == m
  }

  lemma RisingStep<T>(s: seq<Node<T>>, n: nat, i: nat, x: Node<T>, m: multiset<Node<T>>)
    requires Rising(s, n, i, x, m) && s[i / 2].key > x.key >= SENTINEL
    ensures i / 2 >= 1 && Rising(s[i := s[i / 2]], n, i / 2, x, m)
  {
    assert i / 2 >= 1;
    HoleMoved(s, n, i, i / 2, x);
    OrderUp(s, n, i);
  }

  lemma RisingDone<T>(s: seq<Node<T>>, n: nat, i: nat, x: Node<T>, m: multiset<Node<T>>)
    requires Rising(s, n, i, x, m) && s[i / 2].key <= x.key && x.key >= SENTINEL
    ensures HeapOf(s[i := x], n, m)
  {
    var s' := s[i := x];
    assert s'[1..n + 1] == Filled(s, n, i, x);
    forall j: nat | j <= n ensures Above(s', j) {
      assert j != i && j / 2 != i ==> Above(s, j);
    }
  }

  lemma RisingStart<T>(s: seq<Node<T>>, n: nat, x: Node<T>)
    requires n + 1 < |s| && Guarded(s, n, 0) && HeapOrder(s, n)
    ensures Rising(s, n + 1, n + 1, x, multiset(s[1..n + 1]) + multiset{x})
  {
    assert Filled(s, n + 1, n + 1, x) == s[1..n + 1] + [x];
  }

  // ----- sifting down -----

  /** A hole on its way down that `x` can fill as far as what is above is concerned. */
  ghost predicate Sinking<T>(s: seq<Node<T>>, n: nat, i: nat, x: Node<T>, m: multiset<Node<T>>)
  {
    && 1 <= i <= n < |s| && Guarded(s, n, i) && OrderedBut(s, n, i) && multiset(Filled(s, n, i, x)) == m
    && x.key >= SENTINEL && (i >= 2 ==> s[i / 2].key <= x.key)
  }

  lemma SinkingStep<T>(s: seq<Node<T>>, n: nat, i: nat, c: nat, x: Node<T>, m: multiset<Node<T>>)
    requires Sinking(s, n, i, x, m) && c / 2 == i && c <= n && Under(s, n, i, s[c].key) && x.key > s[c].key
    ensures Sinking(s[i := s[c]], n, c, x, m)
  {
    HoleMoved(s, n, i, c, x);
    OrderDown(s, n, i, c);
  }

  lemma SinkingDone<T>(s: seq<Node<T>>, n: nat, i: nat, x: Node<T>, m: multiset<Node<T>>)
    requires Sinking(s, n, i, x, m) && Under(s, n, i, x.key)
    ensures HeapOf(s[i := x], n, m)
  {
    var s' := s[i := x];
    assert s'[1..n + 1] == Filled(s, n, i, x);
    forall j: nat | j <= n ensures Above(s', j) {
      assert j != i && j / 2 != i ==> Above(s, j);
    }
  }

  lemma SinkingStart<T>(s: seq<Node<T>>, n: nat)
    requires 1 <= n && n + 1 < |s| && Guarded(s, n + 1, 0) && HeapOrder(s, n + 1)
    ensures Sinking(s, n, 1, s[n + 1], multiset(s[1..n + 2]) - multiset{s[1]})
  {
    assert s[1..n + 2] == [s[1]] + s[2..n + 1] + [s[n + 1]];
    assert Filled(s, n, 1, s[n + 1]) == [s[n + 1]] + s[2..n + 1];
  }

  /** The last node leaves nothing behind. */
  lemma SinkingNone<T>(s: seq<Node<T>>)
    requires |s| >= 2 && s[0].key == SENTINEL
    ensures HeapOf(s[1 := s[1]], 0, multiset(s[1..2]) - multiset{s[1]})
  {
    assert s[1..2] == [s[1]];
  }

  class Heap<T> {
    var elements: array<Node<T>>
    var size: nat

    ghost predicate Valid()
      reads this, elements
    {
      size < elements.Length && Guarded(elements[..], size, 0) && HeapOrder(elements[..], size)
    }

    ghost function Contents(): multiset<Node<T>>
      requires size < elements.Length
      reads this, elements
    {
      multiset(elements[..][1..size + 1])
    }

    /** Moves nodes down until `x` fits into the hole; the sentinel ends that. */
    method Ascend(key: int, ghost x: Node<T>, ghost m: multiset<Node<T>>) returns (i: nat)
      requires size < elements.Length && Rising(elements[..], size, size, x, m) && x.key == key >= SENTINEL
      modifies elements
      ensures Rising(elements[..], size, i, x, m) && elements[i / 2].key <= key
    {
      i := size;
      // `== true` lets the verifier carry the predicate over as a whole, without unfolding it
      while elements[i / 2].key > key
        invariant i < elements.Length && Rising(elements[..], size, i, x, m) == true
        decreases i
      {
        ghost var s := elements[..];
        RisingStep(s, size, i, x, m);
        elements[i] := elements[i / 2];
        assert elements[..] == s[i := s[i / 2]];
        i := i / 2;
      }
    }

    /** Fills the hole. */
    method Place(i: nat, x: Node<T>, ghost m: multiset<Node<T>>)
      requires i < elements.Length && size < elements.Length
      requires HeapOf(elements[..][i := x], size, m)
      modifies elements
      ensures Valid() && Contents() == m
    {
      ghost var s := elements[..][i := x];
      elements[i] := x;
      assert elements[..] == s;
    }

    /** `heap_insert`. */
    method Insert(item: T, key: int)
      requires Valid() && size + 1 < elements.Length && key >= SENTINEL
      modifies this`size, elements
      ensures Valid() && size == old(size) + 1 && Contents() == old(Contents()) + multiset{Node(key, item)}
    {
      ghost var x, m := Node(key, item), Contents() + multiset{Node(key, item)};
      RisingStart(elements[..], size, x);
      size := size + 1;
      var i := Ascend(key, x, m);
      RisingDone(elements[..], size, i, x, m);
      Place(i, Node(key, item), m);
    }

    /** `heap_getmin`. */
    method GetMin() returns (key: int)
      requires Valid()
      ensures size == 0 ==> key == -1
      ensures size > 0 ==>
        (exists n :: n in Contents() && n.key == key) && forall n | n in Contents() :: key <= n.key
    {
      if size > 0 {
        assert elements[1] == elements[..][1..size + 1][0];
        forall n | n in Contents() ensures elements[1].key <= n.key { Least(n); }
        return elements[1].key;
      }
      return -1;
    }

    lemma Least(n: Node<T>)
      requires Valid() && size > 0 && n in Contents()
      ensures elements[1].key <= n.key
    {
      assert n in elements[..][1..size + 1];
      var k :| 0 <= k < size && elements[..][1..size + 1][k] == n;
      RootIsLeast(elements[..], size, k + 1);
    }

    /** `heap_extract`; `none` is what it returns when the heap is empty. */
    method Extract(none: T) returns (item: T, ghost least: Node<T>)
      requires Valid()
      modifies this`size, elements
      ensures Valid()
      ensures old(size) == 0 ==> item == none && size == 0 && elements[..] == old(elements[..])
      ensures old(size) > 0 ==>
        && size == old(size) - 1 && least in old(Contents()) && item == least.item
        && Contents() == old(Contents()) - multiset{least} && forall n | n in old(Contents()) :: least.key <= n.key
    {
      least := elements[0];
      if size == 0 {
        return none, least;
      }
      least := elements[1];
      item := elements[1].item;
      forall n | n in Contents() ensures least.key <= n.key { Least(n); }
      assert least == elements[..][1..size + 1][0];
      var last := size;
      size := size - 1;
      Sink(last, old(Contents()) - multiset{least});
    }

    method SmallerChild(i: nat) returns (child: nat)
      requires 1 <= i && 2 * i <= size < elements.Length
      ensures child / 2 == i && i < child <= size && Under(elements[..], size, i, elements[child].key)
    {
      child := 2 * i;
      if child != size && elements[child + 1].key < elements[child].key {
        child := child + 1;
      }
    }

    /** Moves nodes up until the node in slot `last`, just behind the heap, fits into the hole. */
    method Descend(last: nat, ghost x: Node<T>, ghost m: multiset<Node<T>>) returns (i: nat)
      requires last == size + 1 < elements.Length && elements[last] == x && Sinking(elements[..], size, 1, x, m)
      modifies elements
      ensures elements[last] == x && Sinking(elements[..], size, i, x, m) && Under(elements[..], size, i, x.key)
    {
      i := 1;
      var child: nat := 0;
      // `== true` lets the verifier carry the predicate over as a whole, without unfolding it
      while 2 * i <= size
        invariant elements[last] == x && Sinking(elements[..], size, i, x, m) == true
        decreases size - i
      {
        child := SmallerChild(i);
        if elements[last].key > elements[child].key {
          ghost var s := elements[..];
          SinkingStep(s, size, i, child, x, m);
          elements[i] := elements[child];
          assert elements[..] == s[i := s[child]];
        } else {
          assert Under(elements[..], size, i, x.key);
          return;
        }
        i := child;
      }
    }

    /** The node in slot `last` takes the place of the root. */
    method Sink(last: nat, ghost m: multiset<Node<T>>)
      requires last == size + 1 < elements.Length && Guarded(elements[..], last, 0) && HeapOrder(elements[..], last)
      requires m == multiset(elements[..][1..last + 1]) - multiset{elements[1]}
      modifies elements
      ensures Valid() && Contents() == m
    {
      var i := 1;
      if size == 0 {
        SinkingNone(elements[..]);
      } else {
        i := DescendAll(last, m);
      }
      Place(i, elements[last], m);
    }

    method DescendAll(last: nat, ghost m: multiset<Node<T>>) returns (i: nat)
      requires last == size + 1 < elements.Length && Guarded(elements[..], last, 0) && HeapOrder(elements[..], last)
      requires size > 0 && m == multiset(elements[..][1..last + 1]) - multiset{elements[1]}
      modifies elements
      ensures elements[last] == old(elements[last]) && 1 <= i <= size
      ensures HeapOf(elements[..][i := elements[last]], size, m)
    {
      ghost var x := elements[last];
      SinkingStart(elements[..], size);
      i := Descend(last, x, m);
      SinkingDone(elements[..], size, i, x, m);
    }

    /** Extracting until the heap is empty gives all nodes in the order of their keys. */
    method Drain(none: T) returns (items: seq<T>, ghost out: seq<Node<T>>)
      requires Valid()
      modifies this`size, elements
      ensures Valid() && size == 0 && multiset(out) == old(Contents()) && Sorted(out) && Items(items, out)
    {
      items, out := [], [];
      ghost var all := Contents();
      while size > 0
        invariant Valid() && multiset(out) + Contents() == all
        invariant Sorted(out) == true && Items(items, out) == true && Before(out, Contents()) == true
        decreases size
      {
        ghost var was := Contents();
        var item, least := Extract(none);
        OneMore(items, out, was, least);
        items, out := items + [item], out + [least];
      }
    }
  }

  // ----- draining -----

  ghost predicate Sorted<T>(s: seq<Node<T>>) { forall j, k | 0 <= j < k < |s| :: s[j].key <= s[k].key }

  /** The items of the nodes. */
  ghost predicate Items<T>(items: seq<T>, s: seq<Node<T>>)
  {
    |items| == |s| && forall k | 0 <= k < |s| :: items[k] == s[k].item
  }

  ghost predicate Before<T>(s: seq<Node<T>>, m: multiset<Node<T>>)
  {
    forall k, n | 0 <= k < |s| && n in m :: s[k].key <= n.key
  }

  lemma OneMore<T>(items: seq<T>, s: seq<Node<T>>, m: multiset<Node<T>>, x: Node<T>)
    requires Items(items, s) && Sorted(s) && Before(s, m) && x in m && forall n | n in m :: x.key <= n.key
    ensures Items(items + [x.item], s + [x]) && Sorted(s + [x]) && Before(s + [x], m - multiset{x})
    ensures multiset(s + [x]) + (m - multiset{x}) == multiset(s) + m
  {
    forall n | n in m - multiset{x} ensures n in m { }
  }
}
