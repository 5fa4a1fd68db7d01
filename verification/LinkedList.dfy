/** The doubly linked list of trx: nodes linked both ways, with head, tail and count.
    The assert() of this library is a no-op, so a null position is allowed for an empty
    list. The iterator context `current` is not part of the state. */
module LinkedList {
  import opened Splice
  import StableOrder

  class Node<T> {
    const data: T
    var next: Node?<T>
    var prev: Node?<T>

    /** list_node_new */
    constructor (data: T)
      ensures this.data == data && next == null && prev == null
    {
      this.data := data;
      next, prev := null, null;
    }
  }

  function Reversed<X>(s: seq<X>): (r: seq<X>)
    ensures |r| == |s|
    ensures forall i :: 0 <= i < |s| ==> r[i] == s[|s| - 1 - i]
  {
    if s == [] then [] else Reversed(s[1..]) + [s[0]]
  }

  class List<T> {
    var head: Node?<T>
    var tail: Node?<T>
    var count: int
    /** the nodes, first to last */
    ghost var nodes: seq<Node<T>>

    ghost predicate Valid()
      reads this, nodes
    {
      && count == |nodes|
      && Distinct(nodes) && Linked(nodes)
      && (if nodes == [] then head == null && tail == null else head == nodes[0] && tail == nodes[|nodes| - 1])
    }

    static ghost predicate Distinct(s: seq<Node<T>>) {
      forall i, j :: 0 <= i < j < |s| ==> s[i] != s[j]
    }

    /** next and prev mirror each other, and end in null */
    static ghost predicate Linked(s: seq<Node<T>>)
      reads s
    {
      && (s != [] ==> s[0].prev == null && s[|s| - 1].next == null)
      && (forall i {:trigger s[i].next} :: 0 <= i < |s| - 1 ==> s[i].next == s[i + 1])
      && (forall i {:trigger s[i].prev} :: 1 <= i < |s| ==> s[i].prev == s[i - 1])
    }

    ghost function Contents(): seq<T>
      reads this
    {
      Data(nodes)
    }

    static ghost function Data(s: seq<Node<T>>): seq<T> {
      seq(|s|, i requires 0 <= i < |s| => s[i].data)
    }

    /** list_new */
    constructor ()
      ensures Valid() && nodes == []
    {
      head, tail, count, nodes := null, null, 0, [];
    }

    /** list_node_del */
    method Delete(goner: Node<T>, ghost k: nat)
      requires Valid() && k < |nodes| && nodes[k] == goner
      modifies this, nodes
      ensures Valid() && nodes == Without(old(nodes), k)
      ensures goner.next == null && goner.prev == null
    {
      if head == goner {
        head := goner.next;
      } else {
        goner.prev.next := goner.next;
      }
      if tail == goner {
        tail := goner.prev;
      } else {
        goner.next.prev := goner.prev;
      }
      count := count - 1;
      goner.next := null;
      goner.prev := null;
      nodes := Without(nodes, k);
    }

    /** list_node_insert_after; where is null for an empty list */
    method InsertAfter(where: Node?<T>, n: Node<T>, ghost k: nat) returns (total: int)
      requires Valid() && n !in nodes && k <= |nodes|
      requires if nodes == [] then where == null && k == 0 else k > 0 && where == nodes[k - 1]
      modifies this, nodes, n
      ensures Valid() && nodes == With(old(nodes), k, n) && total == |nodes|
    {
      hide With;
      if tail == where {
        tail := n;
        n.next := null;
      } else {
        var next := where.next;
        n.next := next;
        next.prev := n;
      }
      if where != null {
        where.next := n;
      } else {
        head := n;
      }
      n.prev := where;
      count := count + 1;
      nodes := With(nodes, k, n);
      total := count;
    }

    /** list_node_insert_before; where is null for an empty list */
    method InsertBefore(where: Node?<T>, n: Node<T>, ghost k: nat) returns (total: int)
      requires Valid() && n !in nodes && k <= |nodes|
      requires if nodes == [] then where == null && k == 0 else k < |nodes| && where == nodes[k]
      modifies this, nodes, n
      ensures Valid() && nodes == With(old(nodes), k, n) && total == |nodes|
    {
      hide With;
      if head == where {
        head := n;
        n.prev := null;
      } else {
        var prev := where.prev;
        prev.next := n;
        n.prev := prev;
      }
      if where != null {
        where.prev := n;
      } else {
        tail := n;
      }
      n.next := where;
      count := count + 1;
      nodes := With(nodes, k, n);
      total := count;
    }

    /** list_reverse */
    method Reverse()
      requires Valid()
      modifies this, nodes
      ensures Valid() && nodes == Reversed(old(nodes))
    {
      var current := head;
      ghost var i := 0;
      while current != null
        invariant 0 <= i <= |nodes| && nodes == old(nodes) && count == old(count)
        invariant head == old(head) && tail == old(tail)
        invariant if i < |nodes| then current == nodes[i] else current == null
        invariant nodes != [] ==> (if i == |nodes| then nodes[i - 1].prev == null else nodes[|nodes| - 1].next == null)
        invariant nodes != [] ==> (if i == 0 then nodes[0].prev == null else nodes[0].next == null)
        invariant forall j {:trigger nodes[j].prev} :: 0 <= j < i && j + 1 < |nodes| ==> nodes[j].prev == nodes[j + 1]
        invariant forall j {:trigger nodes[j].next} :: 1 <= j < i ==> nodes[j].next == nodes[j - 1]
        invariant forall j {:trigger nodes[j].next} :: i <= j < |nodes| - 1 ==> nodes[j].next == nodes[j + 1]
        invariant forall j {:trigger nodes[j].prev} :: i <= j < |nodes| && 1 <= j ==> nodes[j].prev == nodes[j - 1]
        decreases |nodes| - i
      {
        assert current == nodes[i];
        var tmp := current.prev;
        current.prev := current.next;
        current.next := tmp;
        current := current.prev;
        i := i + 1;
      }
      head, tail := tail, head;
      nodes := Reversed(nodes);
      hide Reversed;
    }

    static lemma DataWith(s: seq<Node<T>>, k: nat, n: Node<T>, compare: (T, T) -> int)
      requires k == StableOrder.Slot(After(compare), Data(s), n.data)
      ensures k <= |s| && Data(With(s, k, n)) == StableOrder.Insert(After(compare), Data(s), n.data)
    {
      hide With;
    }

    /** list_node_insert_sorted */
    method InsertSorted(n: Node<T>, compare: (T, T) -> int)
      requires Valid() && n !in nodes
      modifies this, nodes, n
      ensures Valid() && nodes == With(old(nodes), StableOrder.Slot(After(compare), old(Contents()), n.data), n)
      ensures multiset(nodes) == multiset(old(nodes)) + multiset{n}
      ensures forall m :: m in nodes <==> m in old(nodes) || m == n
      ensures Contents() == StableOrder.Insert(After(compare), old(Contents()), n.data)
    {
      hide With, StableOrder.Insert, Distinct;
      ghost var k := StableOrder.Slot(After(compare), Contents(), n.data);
      DataWith(nodes, k, n, compare);
      WithElements(nodes, k, n);
      if head == null {
        var total := InsertAfter(tail, n, 0);
        return;
      }
      var c := head;
      ghost var i := 0;
      while c.next != null
        invariant 0 <= i < |nodes| && c == nodes[i] && i <= k && Valid() && nodes == old(nodes)
        decreases |nodes| - i
      {
        assert Contents()[i] == c.data;
        if compare(c.data, n.data) > 0 {
          var total := InsertBefore(c, n, i);
          return;
        }
        c := c.next;
        i := i + 1;
      }
      assert Contents()[i] == c.data;
      if compare(c.data, n.data) > 0 {
        var total := InsertBefore(c, n, i);
      } else {
        var total := InsertAfter(c, n, i + 1);
      }
    }

    /** list_insertion_sort: the header is copied, and the nodes move over one by one. */
    method InsertionSort(compare: (T, T) -> int) returns (total: int)
      requires Valid()
      modifies this, nodes
      ensures Valid() && total == |nodes|
      ensures Contents() == StableOrder.InsertAll(After(compare), old(Contents()))
      ensures multiset(nodes) == multiset(old(nodes))
    {
      hide Linked, Distinct, StableOrder.Insert, StableOrder.InsertAll, Data;
      if head == null {
        EmptyValid();
        return 0;
      }
      var tmp := new List<T>();
      tmp.head, tmp.tail, tmp.count, tmp.nodes := head, tail, count, nodes;
      head, tail, count, nodes := null, null, 0, [];
      ghost var all, i := tmp.nodes, 0;
      EmptyValid();
      while tmp.head != null
        invariant 0 <= i <= |all| && tmp.Valid() && Valid() && fresh(tmp)
        invariant all == old(nodes) && tmp.nodes == all[i..] && multiset(nodes) == multiset(all[..i])
        invariant forall n :: n in nodes ==> n in all && n !in tmp.nodes
        invariant Contents() == StableOrder.InsertAll(After(compare), Data(all[..i]))
        decreases |all| - i
      {
        assert forall k :: 0 <= k < |tmp.nodes| ==> tmp.nodes[k] in old(nodes);
        assert forall k :: 0 <= k < |nodes| ==> nodes[k] in old(nodes);
        MoveFirst(tmp, compare);
        TakeOne(all, i, compare);
        i := i + 1;
      }
      assert all[..i] == all;
      total := count;
    }

    /** the body of the loop of list_insertion_sort */
    method MoveFirst(from: List<T>, compare: (T, T) -> int)
      requires Valid() && from.Valid() && from != this && from.nodes != []
      requires forall n :: n in nodes ==> n !in from.nodes
      modifies this, nodes, from, from.nodes
      ensures Valid() && from.Valid() && from.nodes == old(from.nodes)[1..]
      ensures Contents() == StableOrder.Insert(After(compare), old(Contents()), old(from.nodes[0]).data)
      ensures multiset(nodes) == old(multiset(nodes)) + multiset{old(from.nodes[0])}
      ensures forall n :: n in nodes ==> n !in from.nodes && (n in old(nodes) || n == old(from.nodes[0]))
    {
      hide StableOrder.Insert, StableOrder.Slot, With, Without;
      ghost var before, rest := nodes, from.nodes;
      FirstGone(rest);
      assert rest[0] in rest && forall k :: 0 <= k < |rest| - 1 ==> rest[1..][k] in rest[1..];
      hide Distinct;
      var c := from.head;
      from.Delete(c, 0);
      assert from.nodes == rest[1..];
      assert forall k :: 0 <= k < |from.nodes| ==> from.nodes[k] !in before && from.nodes[k] != c;
      InsertSorted(c, compare);
    }

    lemma EmptyValid()
      ensures Data([]) == []
      ensures Linked([]) && Distinct([])
      ensures forall compare: (T, T) -> int :: StableOrder.InsertAll(After(compare), Data([])) == []
    {
      assert Data([]) == [];
    }

    static lemma TakeOne(all: seq<Node<T>>, i: nat, compare: (T, T) -> int)
      requires i < |all|
      ensures all[i..][1..] == all[i + 1..]
      ensures multiset(all[..i + 1]) == multiset(all[..i]) + multiset{all[i]}
      ensures StableOrder.InsertAll(After(compare), Data(all[..i + 1]))
           == StableOrder.Insert(After(compare), StableOrder.InsertAll(After(compare), Data(all[..i])), all[i].data)
    {
      hide StableOrder.Insert;
      assert all[..i + 1] == all[..i] + [all[i]];
      assert Data(all[..i + 1])[..i] == Data(all[..i]);
    }

    static lemma FirstGone(s: seq<Node<T>>)
      requires s != [] && Distinct(s)
      ensures Without(s, 0) == s[1..] && s[0] !in s[1..] && forall n :: n in s[1..] ==> n in s
    {}
  }

  /** compare(c, x) > 0: c has to come after x */
  function After<T>(compare: (T, T) -> int): (T, T) -> bool {
    (c: T, x: T) => compare(c, x) > 0
  }

  /** compare() behaves like strcmp(): its sign is a total preorder. */
  ghost predicate Comparator<T(!new)>(compare: (T, T) -> int) {
    && (forall a, b :: compare(a, b) > 0 <==> compare(b, a) < 0)
    && (forall a, b, c :: compare(a, b) <= 0 && compare(b, c) <= 0 ==> compare(a, c) <= 0)
  }

  /** What list_insertion_sort leaves: sorted, nothing lost, ties in their old order. */
  lemma InsertionSortIsStable<T(!new)>(compare: (T, T) -> int, xs: seq<T>)
    requires Comparator(compare)
    ensures var ys := StableOrder.InsertAll(After(compare), xs);
            && (forall i, j :: 0 <= i < j < |ys| ==> compare(ys[i], ys[j]) <= 0)
            && multiset(ys) == multiset(xs)
            && forall k :: StableOrder.Ties(After(compare), ys, k) == StableOrder.Ties(After(compare), xs, k)
  {
    assert StableOrder.Preorder(After(compare));
    hide StableOrder.Preorder, Comparator;
    StableOrder.InsertAllSorts(After(compare), xs);
    var ys := StableOrder.InsertAll(After(compare), xs);
    forall i, j | 0 <= i < j < |ys| ensures compare(ys[i], ys[j]) <= 0 {
      assert !After(compare)(ys[i], ys[j]);
    }
  }
}
