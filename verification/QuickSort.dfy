/** list_quicksort: the nodes are mapped to an array, sorted there by Hoare's algorithm, and
    linked again. The partition reads its pivot from array[p] again after every swap. */
module QuickSort {
  import opened LinkedList

  ghost predicate Le<T>(compare: (T, T) -> int, x: Node<T>, y: Node<T>) {
    compare(x.data, y.data) <= 0
  }

  lemma Signs<T(!new)>(compare: (T, T) -> int)
    requires Comparator(compare)
    ensures forall a, b :: compare(a, b) > 0 <==> compare(b, a) < 0
  {}

  /** t is s with the elements from p to r rearranged. */
  ghost predicate Keeps<X>(s: seq<X>, t: seq<X>, p: int, r: int) {
    && |t| == |s| && multiset(t) == multiset(s)
    && forall k :: 0 <= k < |s| && (k < p || r < k) ==> t[k] == s[k]
  }

  lemma Transitive<T(!new)>(compare: (T, T) -> int, a: T, b: T, c: T)
    requires Comparator(compare) && compare(a, b) <= 0 && compare(b, c) <= 0
    ensures compare(a, c) <= 0
  {}

  lemma LeByPivot<T(!new)>(compare: (T, T) -> int, x: Node<T>, pivot: Node<T>, y: Node<T>)
    requires Comparator(compare) && compare(x.data, pivot.data) <= 0 && compare(pivot.data, y.data) <= 0
    ensures compare(x.data, y.data) <= 0
  {}

  lemma KeepsSelf<X>(s: seq<X>, p: int, r: int)
    ensures Keeps(s, s, p, r)
  {}

  lemma KeepsTwice<X>(s: seq<X>, t: seq<X>, u: seq<X>, p: int, r: int)
    requires Keeps(s, t, p, r) && Keeps(t, u, p, r)
    ensures Keeps(s, u, p, r)
  {}

  /** swap() */
  method Swap<X>(a: array<X>, i: nat, j: nat)
    requires i < j < a.Length
    modifies a
    ensures a[..] == old(a[..])[i := old(a[j])][j := old(a[i])]
    ensures forall p, r :: p <= i && j <= r ==> Keeps(old(a[..]), a[..], p, r)
  {
    var tmp := a[i];
    a[i] := a[j];
    a[j] := tmp;
  }

  /** _quicksort_partition */
  method Partition<T(!new)>(a: array<Node<T>>, p: nat, r: nat, compare: (T, T) -> int) returns (q: nat)
    requires p < r < a.Length && Comparator(compare)
    modifies a
    ensures p <= q < r && Keeps(old(a[..]), a[..], p, r)
    ensures forall k, l :: p <= k <= q < l <= r ==> compare(a[k].data, a[l].data) <= 0
  {
    hide Comparator, Keeps, Le;
    Signs(compare);
    assert Keeps(a[..], a[..], p, r) by { KeepsSelf(a[..], p, r); }
    var i: int, j: int := p - 1, r + 1;
    while true
      invariant Keeps(old(a[..]), a[..], p, r)
      invariant (i == p - 1 && j == r + 1) || p <= i < j <= r
      invariant forall k :: p <= k <= i ==> compare(a[k].data, a[p].data) <= 0
      invariant forall k :: j <= k <= r ==> compare(a[p].data, a[k].data) <= 0
      decreases j
    {
      ghost var j0 := j;
      j := j - 1;
      while compare(a[j].data, a[p].data) > 0
        invariant p <= j < j0 && i <= j
        invariant forall k :: j < k <= r ==> compare(a[p].data, a[k].data) <= 0
        decreases j
      {
        j := j - 1;
      }
      ghost var i0 := i;
      i := i + 1;
      assert !(compare(a[p].data, a[p].data) < 0);
      assert j0 <= r ==> !(compare(a[j0].data, a[p].data) < 0);
      while compare(a[i].data, a[p].data) < 0
        invariant i0 < i && p <= i && (if j0 <= r then i <= j0 else i == p)
        invariant forall k :: p <= k < i ==> compare(a[k].data, a[p].data) <= 0
        decreases r - i
      {
        i := i + 1;
      }
      if i < j {
        ghost var before, v := a[..], a[p].data;
        assert compare(v, a[i].data) <= 0;
        Swap(a, i, j);
        if i == p {
          forall k | j <= k <= r ensures compare(a[p].data, a[k].data) <= 0 {
            Transitive(compare, a[p].data, v, a[k].data);
          }
        }
        KeepsTwice(old(a[..]), before, a[..], p, r);
      } else {
        forall k, l | p <= k <= j < l <= r ensures compare(a[k].data, a[l].data) <= 0 {
          LeByPivot(compare, a[k], a[p], a[l]);
        }
        return j;
      }
    }
  }

  lemma Thirds<X>(s: seq<X>, p: nat, r: nat)
    requires p <= r < |s|
    ensures multiset(s) == multiset(s[..p]) + multiset(s[p..r + 1]) + multiset(s[r + 1..])
  {
    assert s == s[..p] + s[p..r + 1] + s[r + 1..];
  }

  lemma Cancel<X>(a: multiset<X>, m: multiset<X>, n: multiset<X>, b: multiset<X>)
    requires a + m + b == a + n + b
    ensures m == n
  {
    assert m == (a + m + b) - a - b;
    assert n == (a + n + b) - a - b;
  }

  /** An element of the rearranged range was in that range before. */
  lemma KeptFrom<X>(s: seq<X>, t: seq<X>, p: nat, r: nat, k: nat) returns (k': nat)
    requires Keeps(s, t, p, r) && p <= k <= r < |s|
    ensures p <= k' <= r && t[k] == s[k']
  {
    var ms, mt := s[p..r + 1], t[p..r + 1];
    Thirds(s, p, r);
    Thirds(t, p, r);
    assert s[..p] == t[..p] && s[r + 1..] == t[r + 1..];
    Cancel(multiset(s[..p]), multiset(ms), multiset(mt), multiset(s[r + 1..]));
    assert t[k] == mt[k - p] && mt[k - p] in multiset(ms);
    var m :| 0 <= m < |ms| && ms[m] == t[k];
    k' := p + m;
  }

  /** Left part at or before right part: still so when the two parts are rearranged. */
  ghost predicate Split<T>(compare: (T, T) -> int, s: seq<Node<T>>, p: nat, q: nat, r: nat)
    requires r < |s|
  {
    forall k, l :: p <= k <= q < l <= r ==> Le(compare, s[k], s[l])
  }

  ghost predicate OrderedFrom<T>(compare: (T, T) -> int, s: seq<Node<T>>, p: int, r: int)
    requires 0 <= p && r < |s|
  {
    forall i, j :: p <= i < j <= r ==> Le(compare, s[i], s[j])
  }

  lemma SplitKept<T>(compare: (T, T) -> int, s: seq<Node<T>>, t: seq<Node<T>>, u: seq<Node<T>>, p: nat, q: nat, r: nat)
    requires p <= q < r < |s| && Split(compare, s, p, q, r)
    requires Keeps(s, t, p, q) && Keeps(t, u, q + 1, r)
    requires OrderedFrom(compare, t, p, q) && OrderedFrom(compare, u, q + 1, r)
    ensures OrderedFrom(compare, u, p, r) && Keeps(s, u, p, r)
  {
    hide Le;
    forall i, j | p <= i < j <= r ensures Le(compare, u[i], u[j]) {
      if i <= q < j {
        var i' := KeptFrom(s, t, p, q, i);
        var j' := KeptFrom(t, u, q + 1, r, j);
        assert u[i] == t[i] && t[j'] == s[j'];
      } else if j <= q {
        assert u[i] == t[i] && u[j] == t[j];
      }
    }
  }

  /** _quicksort */
  method Sort<T(!new)>(a: array<Node<T>>, p: int, r: int, compare: (T, T) -> int)
    requires 0 <= p <= r + 1 <= a.Length && Comparator(compare)
    modifies a
    ensures Keeps(old(a[..]), a[..], p, r) && OrderedFrom(compare, a[..], p, r)
    ensures forall i, j :: p <= i < j <= r ==> compare(a[i].data, a[j].data) <= 0
    decreases r - p
  {
    hide Comparator, Le, Keeps, Split;
    if p < r {
      var q := Partition(a, p, r, compare);
      ghost var s := a[..];
      assert Split(compare, s, p, q, r) by { SplitOf(compare, s, p, q, r); }
      Sort(a, p, q, compare);
      ghost var t := a[..];
      assert |t| == |s|;
      Sort(a, q + 1, r, compare);
      SplitKept(compare, s, t, a[..], p, q, r);
      KeepsTwice(old(a[..]), s, a[..], p, r);
    } else {
      KeepsSelf(a[..], p, r);
    }
    OrderedMeans(compare, a[..], p, r);
  }

  lemma OrderedMeans<T>(compare: (T, T) -> int, s: seq<Node<T>>, p: int, r: int)
    requires 0 <= p && r < |s| && OrderedFrom(compare, s, p, r)
    ensures forall i, j :: p <= i < j <= r ==> compare(s[i].data, s[j].data) <= 0
  {}

  lemma SplitOf<T>(compare: (T, T) -> int, s: seq<Node<T>>, p: nat, q: nat, r: nat)
    requires r < |s| && forall k, l :: p <= k <= q < l <= r ==> compare(s[k].data, s[l].data) <= 0
    ensures Split(compare, s, p, q, r)
  {}

  // ---- the list around it ----

  /** list_map_to_array; the length of the array takes the place of the terminator */
  method MapToArray<T>(list: List<T>) returns (a: array<Node<T>>)
    requires list.Valid()
    ensures fresh(a) && a[..] == list.nodes
  {
    var h := list.head;
    if h == null {
      a := new Node<T>[0];
      return;
    }
    a := new Node<T>[list.count](_ => h);
    var current, i := list.head, 0;
    while current != null
      invariant 0 <= i <= a.Length == |list.nodes| && a[..i] == list.nodes[..i]
      invariant if i < |list.nodes| then current == list.nodes[i] else current == null
      decreases a.Length - i
    {
      a[i] := current;
      current := current.next;
      i := i + 1;
    }
  }

  /** Forward links follow the array and every back link is null: prev is never advanced. */
  ghost predicate ForwardOnly<T>(s: seq<Node<T>>)
    reads s
  {
    && (forall i :: 0 <= i < |s| ==> s[i].prev == null)
    && (forall i {:trigger s[i].next} :: 0 <= i < |s| - 1 ==> s[i].next == s[i + 1])
    && (s != [] ==> s[|s| - 1].next == null)
  }

  /** list_map_from_array */
  method MapFromArray<T>(list: List<T>, a: array<Node<T>>) returns (total: int)
    requires a.Length > 0 && forall i, j :: 0 <= i < j < a.Length ==> a[i] != a[j]
    modifies list`head, list`tail, list`nodes, a[..]
    ensures a[..] == old(a[..]) && list.nodes == a[..] && total == a.Length
    ensures list.head == a[0] && list.tail == a[a.Length - 1] && ForwardOnly(list.nodes)
  {
    var prev: Node?<T> := null;
    list.head := a[0];
    var i := 0;
    while i < a.Length
      invariant 0 <= i <= a.Length && list.head == a[0]
      invariant forall k :: 0 <= k < i ==> a[k].prev == null
      invariant forall k {:trigger a[k].next} :: 0 <= k < i && k + 1 < a.Length ==> a[k].next == a[k + 1]
      invariant i == a.Length ==> a[i - 1].next == null
    {
      a[i].prev := prev;
      a[i].next := if i + 1 < a.Length then a[i + 1] else null;
      i := i + 1;
    }
    list.tail := a[i - 1];
    list.nodes := a[..];
    total := i;
  }

  /** list_quicksort. The result is a sorted rearrangement that can be walked forward; the back
      links are right only when there is a single node. */
  method ListQuickSort<T(!new)>(list: List<T>, compare: (T, T) -> int) returns (total: int)
    requires list.Valid() && list.nodes != [] && Comparator(compare)
    modifies list, list.nodes
    ensures multiset(list.nodes) == multiset(old(list.nodes))
    ensures forall i, j :: 0 <= i < j < |list.nodes| ==> compare(list.nodes[i].data, list.nodes[j].data) <= 0
    ensures ForwardOnly(list.nodes) && list.head == list.nodes[0] && list.tail == list.nodes[|list.nodes| - 1]
    ensures total == list.count == |list.nodes|
    ensures list.Valid() <==> |list.nodes| == 1
  {
    hide *;
    ListParts(list);
    var a := MapToArray(list);
    Sort(a, 0, list.count - 1, compare);
    ghost var s, t := list.nodes, a[..];
    SortedWhole(compare, s, t);
    StillDistinct(s, t);
    var n := MapFromArray(list, a);
    total := list.count;
    BackLinks(list);
  }

  lemma ListParts<T>(list: List<T>)
    requires list.Valid()
    ensures list.count == |list.nodes| && forall i, j :: 0 <= i < j < |list.nodes| ==> list.nodes[i] != list.nodes[j]
  {}

  lemma SortedWhole<T>(compare: (T, T) -> int, s: seq<Node<T>>, t: seq<Node<T>>)
    requires s != [] && Keeps(s, t, 0, |s| - 1) && OrderedFrom(compare, t, 0, |t| - 1)
    ensures (forall i, j :: 0 <= i < j < |t| ==> compare(t[i].data, t[j].data) <= 0)
    ensures multiset(t) == multiset(s) && |t| == |s|
  {}

  lemma BackLinks<T>(list: List<T>)
    requires list.nodes != [] && ForwardOnly(list.nodes) && list.count == |list.nodes|
    requires forall i, j :: 0 <= i < j < |list.nodes| ==> list.nodes[i] != list.nodes[j]
    requires list.head == list.nodes[0] && list.tail == list.nodes[|list.nodes| - 1]
    ensures list.Valid() <==> |list.nodes| == 1
  {
    if |list.nodes| > 1 { assert list.nodes[1].prev == null; }
  }

  lemma StillDistinct<X>(s: seq<X>, t: seq<X>)
    requires multiset(s) == multiset(t) && forall i, j :: 0 <= i < j < |s| ==> s[i] != s[j]
    ensures |s| == |t| && (forall k :: 0 <= k < |t| ==> t[k] in s) && forall i, j :: 0 <= i < j < |t| ==> t[i] != t[j]
  {
    assert |multiset(s)| == |s| && |multiset(t)| == |t|;
    forall k | 0 <= k < |t| ensures t[k] in s { assert t[k] in multiset(t); }
    forall i, j | 0 <= i < j < |t| ensures t[i] != t[j] {
      AtMostOnce(s, t[i]);
      if t[i] == t[j] { Twice(t, i, j); }
    }
  }

  lemma Twice<X>(t: seq<X>, i: nat, j: nat)
    requires i < j < |t| && t[i] == t[j]
    ensures multiset(t)[t[i]] >= 2
  {
    assert t == t[..j] + t[j..];
    assert t[..j][i] == t[i] && t[j..][0] == t[j];
    assert t[i] in multiset(t[..j]) && t[j] in multiset(t[j..]);
  }

  lemma {:induction false} AtMostOnce<X>(s: seq<X>, x: X)
    requires forall i, j :: 0 <= i < j < |s| ==> s[i] != s[j]
    ensures multiset(s)[x] <= 1
  {
    if s != [] {
      AtMostOnce(s[1..], x);
      assert s == [s[0]] + s[1..];
      if s[0] == x {
        assert x !in s[1..];
        assert multiset(s[1..])[x] == 0;
      }
    }
  }
}
