/** Stable insertion into an ordered sequence: the order that list_node_insert_sorted and
    ezxml_insert both keep. after(c, x) says that c has to come after a new element x;
    it is compare(c, x) > 0 for lists and c->off > off for tags. */
module StableOrder {
  import opened Splice

  /** after is the strict part of a total preorder. */
  ghost predicate Preorder<T(!new)>(after: (T, T) -> bool) {
    && (forall a, b :: after(a, b) ==> !after(b, a))
    && (forall a, b, c :: !after(a, b) && !after(b, c) ==> !after(a, c))
  }

  ghost predicate Sorted<T>(after: (T, T) -> bool, s: seq<T>) {
    forall i, j :: 0 <= i < j < |s| ==> !after(s[i], s[j])
  }

  /** Where x goes: before the first element that has to come after it. */
  function Slot<T>(after: (T, T) -> bool, s: seq<T>, x: T): (k: nat)
    ensures k <= |s|
    ensures forall i :: 0 <= i < k ==> !after(s[i], x)
    ensures k < |s| ==> after(s[k], x)
  {
    if s == [] || after(s[0], x) then 0 else 1 + Slot(after, s[1..], x)
  }

  function Insert<T>(after: (T, T) -> bool, s: seq<T>, x: T): seq<T> {
    With(s, Slot(after, s, x), x)
  }

  /** The elements of xs inserted one by one, first to last. */
  function InsertAll<T>(after: (T, T) -> bool, xs: seq<T>): seq<T> {
    if xs == [] then [] else Insert(after, InsertAll(after, xs[..|xs| - 1]), xs[|xs| - 1])
  }

  /** The elements that tie with k, in order. */
  function Ties<T>(after: (T, T) -> bool, s: seq<T>, k: T): seq<T> {
    if s == [] then []
    else (if !after(s[0], k) && !after(k, s[0]) then [s[0]] else []) + Ties(after, s[1..], k)
  }

  lemma {:induction false} TiesConcat<T>(after: (T, T) -> bool, s: seq<T>, t: seq<T>, k: T)
    ensures Ties(after, s + t, k) == Ties(after, s, k) + Ties(after, t, k)
  {
    if s == [] {
      assert s + t == t;
    } else {
      assert (s + t)[1..] == s[1..] + t;
      TiesConcat(after, s[1..], t, k);
    }
  }

  lemma {:induction false} NoTies<T(!new)>(after: (T, T) -> bool, s: seq<T>, k: T)
    requires forall i :: 0 <= i < |s| ==> after(s[i], k)
    ensures Ties(after, s, k) == []
  {
    if s != [] { NoTies(after, s[1..], k); }
  }

  lemma Transitive<T(!new)>(after: (T, T) -> bool, a: T, b: T, c: T)
    requires Preorder(after) && !after(a, b) && !after(b, c)
    ensures !after(a, c)
  {}

  lemma SlotSplits<T(!new)>(after: (T, T) -> bool, s: seq<T>, x: T)
    requires Preorder(after) && Sorted(after, s)
    ensures forall i :: Slot(after, s, x) <= i < |s| ==> after(s[i], x) && !after(x, s[i])
  {
    var k := Slot(after, s, x);
    forall i | k <= i < |s| ensures after(s[i], x) && !after(x, s[i]) {
      hide Preorder;
      if i > k && !after(s[i], x) { Transitive(after, s[k], s[i], x); }
      assert after(s[i], x) ==> !after(x, s[i]) by { Asymmetric(after, s[i], x); }
    }
  }

  lemma Asymmetric<T(!new)>(after: (T, T) -> bool, a: T, b: T)
    requires Preorder(after)
    ensures after(a, b) ==> !after(b, a)
  {}

  lemma InsertSorted<T(!new)>(after: (T, T) -> bool, s: seq<T>, x: T)
    requires Preorder(after) && Sorted(after, s)
    ensures Sorted(after, Insert(after, s, x)) && multiset(Insert(after, s, x)) == multiset(s) + multiset{x}
  {
    hide Preorder, With, Slot;
    SlotSplits(after, s, x);
    WithElements(s, Slot(after, s, x), x);
  }

  lemma InsertSplits<T>(after: (T, T) -> bool, s: seq<T>, x: T)
    ensures var n := Slot(after, s, x);
            n <= |s| && s == s[..n] + s[n..] && Insert(after, s, x) == s[..n] + [x] + s[n..]
  {
    hide Slot, With;
    WithParts(s, Slot(after, s, x), x);
  }

  lemma NoTie<T>(after: (T, T) -> bool, x: T, k: T)
    requires after(x, k) || after(k, x)
    ensures Ties(after, [x], k) == []
  {
    assert [x][1..] == [];
  }

  /** Elements that tie keep the order in which they arrived. */
  lemma InsertTies<T(!new)>(after: (T, T) -> bool, s: seq<T>, x: T, k: T)
    requires Preorder(after) && Sorted(after, s)
    ensures Ties(after, Insert(after, s, x), k) == Ties(after, s, k) + Ties(after, [x], k)
  {
    hide *;
    SlotSplits(after, s, x);
    InsertSplits(after, s, x);
    var n := Slot(after, s, x);
    var low, high := s[..n], s[n..];
    TiesConcat(after, low, high, k);
    TiesConcat(after, low + [x], high, k);
    TiesConcat(after, low, [x], k);
    if !after(x, k) && !after(k, x) {
      forall i | n <= i < |s| ensures after(s[i], k) {
        if !after(s[i], k) { Transitive(after, s[i], k, x); }
      }
      NoTies(after, high, k);
    } else {
      NoTie(after, x, k);
    }
  }

  lemma SortedNil<T>(after: (T, T) -> bool)
    ensures Sorted(after, [])
  {}

  /** Inserting any elements one by one sorts them, loses none, and is stable. */
  lemma {:induction false} InsertAllSorts<T(!new)>(after: (T, T) -> bool, xs: seq<T>)
    requires Preorder(after)
    ensures Sorted(after, InsertAll(after, xs)) && multiset(InsertAll(after, xs)) == multiset(xs)
    ensures forall k :: Ties(after, InsertAll(after, xs), k) == Ties(after, xs, k)
  {
    hide Preorder, Sorted, Insert;
    if xs == [] {
      assert Sorted(after, InsertAll(after, xs)) by { SortedNil(after); }
    } else {
      var n := |xs| - 1;
      var ys, x := xs[..n], xs[n];
      InsertAllSorts(after, ys);
      assert xs == ys + [x];
      InsertSorted(after, InsertAll(after, ys), x);
      forall k ensures Ties(after, InsertAll(after, xs), k) == Ties(after, xs, k) {
        InsertTies(after, InsertAll(after, ys), x, k);
        TiesConcat(after, ys, [x], k);
      }
    }
  }

  /** An element that no other has to follow goes to the end. */
  lemma InsertAtEnd<T>(after: (T, T) -> bool, s: seq<T>, x: T)
    requires forall i :: 0 <= i < |s| ==> !after(s[i], x)
    ensures Insert(after, s, x) == s + [x]
  {}
}
