/** The child list of an ezxml tag, threaded three times: `ordered` runs through all children,
    `next` through the children of one name, `sibling` through the first child of each name.
    ezxml_insert keeps all three. */
module TagTree {
  import opened Splice
  import StableOrder

  class TagNode {
    const name: string
    var off: nat
    var next: TagNode?
    var sibling: TagNode?
    var ordered: TagNode?
    var child: TagNode?
    var parent: TagNode?
    /** the children in document order */
    ghost var kids: seq<TagNode>
    /** the sibling chain from the first child on */
    ghost var sibs: seq<TagNode>

    constructor (name: string)
      ensures this.name == name && kids == [] && Valid()
    {
      this.name := name;
      off := 0;
      next, sibling, ordered, child, parent := null, null, null, null, null;
      kids, sibs := [], [];
    }

    ghost predicate Valid()
      reads this`child, this`kids, this`sibs, kids`off, kids`ordered, kids`next, sibs`off, sibs`sibling
    {
      && this !in kids && Distinct(kids)
      && child == (if kids == [] then null else kids[0])
      && Threaded(kids, sibs)
    }
  }

  /** the three chains */
  ghost predicate Threaded(kids: seq<TagNode>, sibs: seq<TagNode>)
    reads kids`off, kids`ordered, kids`next, sibs`off, sibs`sibling
  {
    && OrderedChain(kids) && OffSorted(kids)
    && NextChain(kids)
    && SiblingsCover(kids, sibs) && SiblingChain(sibs)
  }

  ghost predicate Distinct(s: seq<TagNode>) {
    forall i, j :: 0 <= i < j < |s| ==> s[i] != s[j]
  }

  ghost predicate OrderedChain(s: seq<TagNode>)
    reads s`ordered
  {
    && (forall i {:trigger s[i].ordered} :: 0 <= i < |s| - 1 ==> s[i].ordered == s[i + 1])
    && (s != [] ==> s[|s| - 1].ordered == null)
  }

  ghost predicate OffSorted(s: seq<TagNode>)
    reads s`off
  {
    forall i, j :: 0 <= i < j < |s| ==> s[i].off <= s[j].off
  }

  /** The first tag of s with this name. */
  ghost function FirstNamed(s: seq<TagNode>, name: string): (f: TagNode?)
    ensures f != null ==> f in s && f.name == name
    ensures f == null ==> forall t :: t in s ==> t.name != name
  {
    if s == [] then null else if s[0].name == name then s[0] else FirstNamed(s[1..], name)
  }

  /** All tags of s with this name, in order. */
  ghost function Named(s: seq<TagNode>, name: string): seq<TagNode> {
    if s == [] then [] else (if s[0].name == name then [s[0]] else []) + Named(s[1..], name)
  }

  ghost predicate NextChain(s: seq<TagNode>)
    reads s`next
  {
    forall i {:trigger s[i].next} :: 0 <= i < |s| ==> s[i].next == FirstNamed(s[i + 1..], s[i].name)
  }

  ghost predicate SiblingChain(s: seq<TagNode>)
    reads s`sibling
  {
    && (forall i {:trigger s[i].sibling} :: 0 <= i < |s| - 1 ==> s[i].sibling == s[i + 1])
    && (s != [] ==> s[|s| - 1].sibling == null)
  }

  /** The sibling chain starts with the first child, is sorted, and holds the first child of
      every name. It may hold others of that name, but only further on. */
  ghost predicate SiblingsCover(kids: seq<TagNode>, sibs: seq<TagNode>)
    reads kids`off, sibs`off
  {
    && Distinct(sibs) && OffSorted(sibs)
    && (kids == [] <==> sibs == []) && (kids != [] ==> sibs[0] == kids[0])
    && (forall t :: t in sibs ==> t in kids)
    && (forall t :: t in kids && FirstNamed(kids, t.name) == t ==> t in sibs)
    && (forall t :: t in sibs && FirstNamed(kids, t.name) != t ==>
                      FirstNamed(kids, t.name) != null && FirstNamed(kids, t.name).off < t.off)
  }

  /** ezxml_child on the sibling chain finds the first child of the name. */
  lemma SiblingLookup(kids: seq<TagNode>, sibs: seq<TagNode>, name: string)
    requires SiblingsCover(kids, sibs)
    ensures FirstNamed(sibs, name) == FirstNamed(kids, name)
  {
    var f := FirstNamed(kids, name);
    if f != null { EarliestNamed(sibs, f); }
  }

  /** In a sorted chain, nothing of the same name stands before FirstNamed with a larger offset. */
  lemma {:induction false} EarliestNamed(s: seq<TagNode>, f: TagNode)
    requires f in s && OffSorted(s)
    ensures FirstNamed(s, f.name) != null && FirstNamed(s, f.name).off <= f.off
  {
    if s[0].name != f.name {
      assert f in s[1..];
      EarliestNamed(s[1..], f);
    }
  }

  /** ezxml_child */
  method Child(xml: TagNode?, name: string) returns (r: TagNode?)
    requires xml != null ==> xml.Valid()
    ensures r == if xml == null then null else FirstNamed(xml.kids, name)
  {
    r := if xml != null then xml.child else null;
    if xml == null { return; }
    ghost var i := 0;
    assert xml.sibs[0..] == xml.sibs;
    while r != null && name != r.name
      invariant 0 <= i <= |xml.sibs|
      invariant if i < |xml.sibs| then r == xml.sibs[i] else r == null
      invariant FirstNamed(xml.sibs[i..], name) == FirstNamed(xml.sibs, name)
      decreases |xml.sibs| - i
    {
      r := r.sibling;
      assert xml.sibs[i..][1..] == xml.sibs[i + 1..];
      i := i + 1;
    }
    SiblingLookup(xml.kids, xml.sibs, name);
  }

  /** ezxml_child, then ezxml_next until it ends: the children of the name, in order. */
  method ChildrenNamed(xml: TagNode, name: string) returns (r: seq<TagNode>)
    requires xml.Valid()
    ensures r == Named(xml.kids, name)
  {
    hide *;
    var c := Child(xml, name);
    ghost var kids := xml.kids;
    ValidMeans(xml);
    r := [];
    ghost var i := 0;
    assert kids[0..] == kids;
    while c != null
      invariant 0 <= i <= |kids| && c == FirstNamed(kids[i..], name)
      invariant r + Named(kids[i..], name) == Named(kids, name)
      decreases |kids| - i
    {
      ghost var j := Position(kids, i, name);
      ghost var more := Named(kids[j + 1..], name);
      assert r + ([c] + more) == (r + [c]) + more;
      r := r + [c];
      NextOf(kids, j);
      c := c.next;
      i := j + 1;
    }
    NoneNamed(kids[i..], name);
  }

  lemma ValidMeans(t: TagNode)
    requires t.Valid()
    ensures Distinct(t.kids) && Threaded(t.kids, t.sibs) && t.child == (if t.kids == [] then null else t.kids[0])
    ensures NextChain(t.kids) && t !in t.kids && (forall i :: 0 <= i < |t.sibs| ==> t.sibs[i] in t.kids)
  {
    hide Distinct, OrderedChain, NextChain, SiblingChain;
  }

  lemma NextOf(s: seq<TagNode>, i: nat)
    requires NextChain(s) && i < |s|
    ensures s[i].next == FirstNamed(s[i + 1..], s[i].name)
  {
    hide FirstNamed;
  }

  lemma {:induction false} NoneNamed(s: seq<TagNode>, name: string)
    requires FirstNamed(s, name) == null
    ensures Named(s, name) == []
  {
    if s != [] { NoneNamed(s[1..], name); }
  }

  lemma {:induction false} Position(s: seq<TagNode>, i: nat, name: string) returns (j: nat)
    requires i <= |s| && FirstNamed(s[i..], name) != null
    ensures i <= j < |s| && s[j] == FirstNamed(s[i..], name) && s[j].name == name
    ensures Named(s[i..], name) == [s[j]] + Named(s[j + 1..], name)
    decreases |s| - i
  {
    var t := s[i..];
    assert t[0] == s[i] && t[1..] == s[i + 1..];
    if s[i].name == name {
      j := i;
    } else {
      j := Position(s, i + 1, name);
      assert Named(t, name) == Named(t[1..], name);
    }
  }

  // ---- ezxml_insert ----

  /** k is the place of an offset: after everything at or before it. */
  ghost predicate Slot(s: seq<TagNode>, off: nat, k: nat)
    reads s`off
  {
    k <= |s| && (forall i :: 0 <= i < k ==> s[i].off <= off) && (forall i :: k <= i < |s| ==> s[i].off > off)
  }

  /** the `ordered` part: after the last child at or before the offset, or in front of all */
  method LinkOrdered(x: TagNode, dest: TagNode, ghost kids: seq<TagNode>) returns (ghost k: nat)
    requires kids != [] && dest.child == kids[0] && x !in kids && x.ordered == null
    requires Distinct(kids) && OrderedChain(kids) && OffSorted(kids)
    modifies dest`child, kids`ordered, x`ordered
    ensures k <= |kids| && Slot(kids, x.off, k) && OrderedChain(With(kids, k, x)) && dest.child == With(kids, k, x)[0]
  {
    hide With, OffSorted, Slot;
    var head := dest.child;
    if head.off <= x.off {
      var cur := head;
      k := 0;
      while cur.ordered != null && cur.ordered.off <= x.off
        invariant 0 <= k < |kids| && cur == kids[k] && cur.off <= x.off
        decreases |kids| - k
      {
        cur := cur.ordered;
        k := k + 1;
      }
      x.ordered := cur.ordered;
      cur.ordered := x;
      k := k + 1;
    } else {
      x.ordered := head;
      dest.child := x;
      k := 0;
    }
    SlotFrom(kids, x.off, k);
    OrderedDone(kids, k, x);
  }

  lemma SlotFrom(s: seq<TagNode>, off: nat, k: nat)
    requires OffSorted(s) && k <= |s|
    requires (k > 0 ==> s[k - 1].off <= off) && (k < |s| ==> s[k].off > off)
    ensures Slot(s, off, k)
  {}

  lemma OrderedDone(s: seq<TagNode>, k: nat, x: TagNode)
    requires s != [] && k <= |s|
    requires forall i {:trigger s[i].ordered} :: 0 <= i < |s| - 1 && i != k - 1 ==> s[i].ordered == s[i + 1]
    requires k < |s| ==> x.ordered == s[k] && s[|s| - 1].ordered == null
    requires k == |s| ==> x.ordered == null
    requires k > 0 ==> s[k - 1].ordered == x
    ensures OrderedChain(With(s, k, x))
  {}

  predicate NoneIn(s: seq<TagNode>, i: nat, k: nat, name: string) {
    forall m :: i <= m < k && m < |s| ==> s[m].name != name
  }

  lemma {:induction false} SkipNone(s: seq<TagNode>, i: nat, k: nat, name: string)
    requires i <= k <= |s| && NoneIn(s, i, k, name)
    ensures FirstNamed(s[i..], name) == FirstNamed(s[k..], name)
    decreases k - i
  {
    if i < k {
      assert s[i..][1..] == s[i + 1..];
      SkipNone(s, i + 1, k, name);
    }
  }

  /** Lookup from position i <= k on, after x has been put in at k. */
  lemma {:induction false} FirstNamedWith(s: seq<TagNode>, k: nat, x: TagNode, i: nat, name: string)
    requires i <= k <= |s|
    ensures FirstNamed(With(s, k, x)[i..], name)
         == if name == x.name && NoneIn(s, i, k, name) then x else FirstNamed(s[i..], name)
    decreases k - i
  {
    var t := With(s, k, x);
    if i == k {
      assert t[k..][0] == x && t[k..][1..] == s[k..];
    } else {
      assert t[i..][0] == s[i] && t[i..][1..] == t[i + 1..] && s[i..][1..] == s[i + 1..];
      hide With;
      FirstNamedWith(s, k, x, i + 1, name);
    }
  }

  /** What `next` of position i has to be after x has been put in at k. */
  ghost function NextGoal(s: seq<TagNode>, k: nat, x: TagNode, i: nat): TagNode?
    requires k <= |s| && i < |s| + 1
  {
    if i == k then FirstNamed(s[k..], x.name)
    else if i > k then FirstNamed(s[i..], s[i - 1].name)
    else if s[i].name == x.name && NoneIn(s, i + 1, k, x.name) then x
    else FirstNamed(s[i + 1..], s[i].name)
  }

  lemma NextAfter(s: seq<TagNode>, k: nat, x: TagNode, i: nat)
    requires k <= |s| && i < |s| + 1
    ensures var t := With(s, k, x); FirstNamed(t[i + 1..], t[i].name) == NextGoal(s, k, x, i)
  {
    var t := With(s, k, x);
    if i < k {
      FirstNamedWith(s, k, x, i + 1, s[i].name);
    } else {
      assert t[i + 1..] == s[i..];
    }
    hide With, FirstNamed;
  }

  /** c is the last child before k with the name of x: only its link and that of x change. */
  lemma NextMiddle(s: seq<TagNode>, c: nat, k: nat, x: TagNode)
    requires c < k <= |s| && s[c].name == x.name && Slot(s, x.off, k) && NextChain(s)
    requires s[c].next == null || s[c].next.off > x.off
    ensures !NoneIn(s, 0, k, x.name)
    ensures NextGoal(s, k, x, c) == x && NextGoal(s, k, x, k) == s[c].next
    ensures forall i :: 0 <= i < k && i != c ==> s[i].next == NextGoal(s, k, x, i)
    ensures forall i :: k <= i < |s| ==> s[i].next == NextGoal(s, k, x, i + 1)
  {
    assert s[c].next == FirstNamed(s[c + 1..], x.name);
    NoneBefore(s, c + 1, k, x);
    SkipNone(s, c + 1, k, x.name);
    hide *;
  }

  lemma {:induction false} NoneBefore(s: seq<TagNode>, i: nat, k: nat, x: TagNode)
    requires i <= k <= |s| && Slot(s, x.off, k)
    requires var f := FirstNamed(s[i..], x.name); f == null || f.off > x.off
    ensures NoneIn(s, i, k, x.name)
    decreases k - i
  {
    if i < k {
      assert s[i..][1..] == s[i + 1..] && s[i..][0] == s[i];
      NoneBefore(s, i + 1, k, x);
    }
  }

  /** the last child of the name at or before the offset, from the first one on */
  method LastNamed(first: TagNode, off: nat, ghost kids: seq<TagNode>, ghost k: nat)
    returns (cur: TagNode, ghost c: nat)
    requires NextChain(kids) && Slot(kids, off, k) && first == FirstNamed(kids, first.name) && first.off <= off
    ensures c < k <= |kids| && cur == kids[c] && cur.name == first.name && (cur.next == null || cur.next.off > off)
  {
    hide Named;
    cur := first;
    assert kids[0..] == kids;
    c := Position(kids, 0, first.name);
    while cur.next != null && cur.next.off <= off
      invariant 0 <= c < k && cur == kids[c] && cur.name == first.name
      decreases k - c
    {
      assert kids[c].next == FirstNamed(kids[c + 1..], first.name);
      cur := cur.next;
      c := Position(kids, c + 1, first.name);
    }
  }

  /** the `next` part for a tag that is not the first of its name: behind the last one before it */
  method LinkNext(x: TagNode, first: TagNode, ghost kids: seq<TagNode>, ghost k: nat)
    requires x !in kids && Distinct(kids) && NextChain(kids) && Slot(kids, x.off, k)
    requires first == FirstNamed(kids, x.name) && first.off <= x.off
    modifies kids`next, x`next
    ensures NextChain(With(kids, k, x)) && !NoneIn(kids, 0, k, x.name)
  {
    hide NextGoal, With;
    var cur, c := LastNamed(first, x.off, kids, k);
    NextMiddle(kids, c, k, x);
    x.next := cur.next;
    cur.next := x;
    NextDone(kids, k, x);
  }

  lemma NextDone(s: seq<TagNode>, k: nat, x: TagNode)
    requires k <= |s|
    requires x.next == NextGoal(s, k, x, k)
    requires forall i :: 0 <= i < k ==> s[i].next == NextGoal(s, k, x, i)
    requires forall i :: k <= i < |s| ==> s[i].next == NextGoal(s, k, x, i + 1)
    ensures NextChain(With(s, k, x))
  {
    var t := With(s, k, x);
    forall i | 0 <= i < |t| ensures t[i].next == FirstNamed(t[i + 1..], t[i].name) {
      NextAfter(s, k, x, i);
    }
  }

  /** With no child of the name before k, the other `next` links stay as they are. */
  lemma NextFirst(s: seq<TagNode>, k: nat, x: TagNode)
    requires NextChain(s) && Slot(s, x.off, k)
    requires var f := FirstNamed(s, x.name); f == null || f.off > x.off
    ensures NoneIn(s, 0, k, x.name) && NextGoal(s, k, x, k) == FirstNamed(s, x.name)
    ensures forall i :: 0 <= i < k ==> s[i].next == NextGoal(s, k, x, i)
    ensures forall i :: k <= i < |s| ==> s[i].next == NextGoal(s, k, x, i + 1)
  {
    assert s[0..] == s;
    NoneBefore(s, 0, k, x);
    SkipNone(s, 0, k, x.name);
    hide FirstNamed, Slot;
  }

  /** the search for the tag type, with the tag before it in the sibling chain */
  method FindType(head: TagNode, name: string, ghost kids: seq<TagNode>, ghost sibs: seq<TagNode>)
    returns (prev: TagNode?, cur: TagNode?, ghost m: nat)
    requires sibs != [] && SiblingsCover(kids, sibs) && SiblingChain(sibs) && sibs[0] == head
    ensures cur == FirstNamed(kids, name) && m <= |sibs|
    ensures if cur == null then m == |sibs| else m < |sibs| && sibs[m] == cur
    ensures prev == if m == 0 then null else sibs[m - 1]
  {
    hide SiblingsCover;
    prev, cur, m := null, head, 0;
    assert sibs[0..] == sibs;
    while cur != null && cur.name != name
      invariant 0 <= m <= |sibs| && prev == if m == 0 then null else sibs[m - 1]
      invariant if m < |sibs| then cur == sibs[m] else cur == null
      invariant FirstNamed(sibs[m..], name) == FirstNamed(sibs, name)
      decreases |sibs| - m
    {
      assert sibs[m..][1..] == sibs[m + 1..];
      prev := cur;
      cur := cur.sibling;
      m := m + 1;
    }
    SiblingLookup(kids, sibs, name);
  }

  /** What stays of the sibling chain when x becomes the first of its name: the old first goes,
      unless the chain starts with it. */
  ghost predicate Rest(sibs: seq<TagNode>, rest: seq<TagNode>, name: string) {
    && (forall t :: t in rest ==> t in sibs)
    && (forall t :: t in sibs && t.name != name ==> t in rest)
    && (sibs != [] ==> rest != [] && rest[0] == sibs[0])
  }

  lemma RestWithout(sibs: seq<TagNode>, m: nat, name: string)
    requires 1 <= m < |sibs| && sibs[m].name == name && Distinct(sibs) && OffSorted(sibs)
    ensures Rest(sibs, Without(sibs, m), name) && Distinct(Without(sibs, m)) && OffSorted(Without(sibs, m))
  {
    var rest := Without(sibs, m);
    hide Without;
    assert forall t :: t in rest ==> t in sibs;
    forall t | t in sibs && t.name != name ensures t in rest {
      var i :| 0 <= i < |sibs| && sibs[i] == t;
      assert rest[if i < m then i else i - 1] == t;
    }
  }

  lemma FirstsWith(kids: seq<TagNode>, k: nat, x: TagNode)
    requires k <= |kids| && NoneIn(kids, 0, k, x.name)
    ensures forall name :: FirstNamed(With(kids, k, x), name) == if name == x.name then x else FirstNamed(kids, name)
  {
    hide With;
    forall name ensures FirstNamed(With(kids, k, x), name) == if name == x.name then x else FirstNamed(kids, name) {
      FirstNamedWith(kids, k, x, 0, name);
      assert With(kids, k, x)[0..] == With(kids, k, x) && kids[0..] == kids;
    }
  }

  /** The sibling chain of the larger child list, when x becomes the first of its name. */
  lemma CoverFirst(kids: seq<TagNode>, sibs: seq<TagNode>, rest: seq<TagNode>, x: TagNode, k: nat, j: nat)
    requires kids != [] && x !in kids && SiblingsCover(kids, sibs) && Slot(kids, x.off, k)
    requires var f := FirstNamed(kids, x.name); f == null || f.off > x.off
    requires Rest(sibs, rest, x.name) && Distinct(rest) && OffSorted(rest)
    requires Slot(rest, x.off, j) && NoneIn(kids, 0, k, x.name)
    ensures SiblingsCover(With(kids, k, x), With(rest, j, x))
  {
    hide With, FirstNamed, Distinct, OffSorted;
    var kids', sibs' := With(kids, k, x), With(rest, j, x);
    FirstsWith(kids, k, x);
    WithElements(kids, k, x);
    WithElements(rest, j, x);
    SortedWith(rest, j, x);
    assert sibs'[0] == kids'[0];
    hide Slot;
    CoverElements(kids, sibs, rest, x, kids', sibs');
  }

  lemma CoverElements(kids: seq<TagNode>, sibs: seq<TagNode>, rest: seq<TagNode>, x: TagNode, kids': seq<TagNode>,
                      sibs': seq<TagNode>)
    requires kids != [] && x !in kids && SiblingsCover(kids, sibs)
    requires var f := FirstNamed(kids, x.name); f == null || f.off > x.off
    requires Rest(sibs, rest, x.name)
    requires forall name :: FirstNamed(kids', name) == if name == x.name then x else FirstNamed(kids, name)
    requires (forall t :: t in kids' <==> t in kids || t == x) && (forall t :: t in sibs' <==> t in rest || t == x)
    requires Distinct(sibs') && OffSorted(sibs') && kids' != [] && sibs' != [] && sibs'[0] == kids'[0]
    ensures SiblingsCover(kids', sibs')
  {
    hide FirstNamed, Distinct, OffSorted;
    forall t | t in sibs' && FirstNamed(kids', t.name) != t
      ensures FirstNamed(kids', t.name) != null && FirstNamed(kids', t.name).off < t.off
    {
      assert t in sibs;
    }
  }

  lemma SortedWith(s: seq<TagNode>, k: nat, x: TagNode)
    requires x !in s && Distinct(s) && OffSorted(s) && Slot(s, x.off, k)
    ensures Distinct(With(s, k, x)) && OffSorted(With(s, k, x))
  {}

  /** The old first of the name leaves the chain, unless the chain starts with it. */
  method DropFirst(prev: TagNode?, cur: TagNode?, name: string, ghost sibs: seq<TagNode>, ghost m: nat)
    returns (ghost rest: seq<TagNode>)
    requires sibs != [] && Distinct(sibs) && OffSorted(sibs) && SiblingChain(sibs) && m <= |sibs|
    requires if cur == null then m == |sibs| else m < |sibs| && sibs[m] == cur && cur.name == name
    requires prev == if m == 0 then null else sibs[m - 1]
    modifies sibs`sibling
    ensures Rest(sibs, rest, name) && Distinct(rest) && OffSorted(rest) && SiblingChain(rest)
  {
    hide Without, OffSorted;
    rest := sibs;
    assert Rest(sibs, sibs, name);
    if prev != null && cur != null {
      rest := Without(sibs, m);
      RestWithout(sibs, m, name);
      hide Rest;
      prev.sibling := cur.sibling;
      ChainWithout(sibs, m);
    }
  }

  /** the new sibling insert point */
  method LinkIn(x: TagNode, head: TagNode, ghost rest: seq<TagNode>) returns (ghost j: nat)
    requires rest != [] && head == rest[0] && x !in rest && x.sibling == null
    requires Distinct(rest) && OffSorted(rest) && SiblingChain(rest)
    modifies rest`sibling, x`sibling
    ensures j <= |rest| && Slot(rest, x.off, j) && SiblingChain(With(rest, j, x))
  {
    hide With, OffSorted, Slot;
    var c, p := head, null;
    j := 0;
    while c != null && c.off <= x.off
      invariant 0 <= j <= |rest| && p == if j == 0 then null else rest[j - 1]
      invariant if j < |rest| then c == rest[j] else c == null
      invariant p != null ==> p.off <= x.off
      decreases |rest| - j
    {
      p := c;
      c := c.sibling;
      j := j + 1;
    }
    x.sibling := c;
    if p != null {
      p.sibling := x;
    }
    SlotFrom(rest, x.off, j);
    ChainWith(rest, j, x);
  }

  /** the `sibling` part for a tag that becomes the first of its name */
  method LinkSibling(x: TagNode, head: TagNode, prev: TagNode?, cur: TagNode?, ghost kids: seq<TagNode>,
                     ghost sibs: seq<TagNode>, ghost k: nat, ghost m: nat)
    returns (ghost sibs': seq<TagNode>)
    requires kids != [] && x !in kids && SiblingsCover(kids, sibs) && SiblingChain(sibs) && Slot(kids, x.off, k)
    requires x.sibling == null && head == sibs[0] && NoneIn(kids, 0, k, x.name)
    requires cur == FirstNamed(kids, x.name) && (cur == null || cur.off > x.off) && m <= |sibs|
    requires if cur == null then m == |sibs| else m < |sibs| && sibs[m] == cur
    requires prev == if m == 0 then null else sibs[m - 1]
    modifies kids`sibling, x`sibling
    ensures SiblingsCover(With(kids, k, x), sibs') && SiblingChain(sibs')
  {
    hide With, FirstNamed, NoneIn, SiblingChain, Slot, OffSorted, Distinct;
    assert forall i :: 0 <= i < |sibs| ==> sibs[i] in kids;
    ghost var rest := DropFirst(prev, cur, x.name, sibs, m);
    assert forall i :: 0 <= i < |rest| ==> rest[i] in kids;
    ghost var j := LinkIn(x, head, rest);
    CoverFirst(kids, sibs, rest, x, k, j);
    sibs' := With(rest, j, x);
  }

  lemma ChainWithout(s: seq<TagNode>, m: nat)
    requires 1 <= m < |s| && s[m - 1].sibling == s[m].sibling
    requires forall i {:trigger s[i].sibling} :: 0 <= i < |s| - 1 && i != m - 1 ==> s[i].sibling == s[i + 1]
    requires m < |s| - 1 ==> s[|s| - 1].sibling == null
    requires m == |s| - 1 ==> s[m].sibling == null
    ensures SiblingChain(Without(s, m))
  {}

  lemma ChainWith(s: seq<TagNode>, k: nat, x: TagNode)
    requires s != [] && k <= |s|
    requires forall i {:trigger s[i].sibling} :: 0 <= i < |s| - 1 && i != k - 1 ==> s[i].sibling == s[i + 1]
    requires k < |s| ==> x.sibling == s[k] && s[|s| - 1].sibling == null
    requires k == |s| ==> x.sibling == null
    requires k > 0 ==> s[k - 1].sibling == x
    ensures SiblingChain(With(s, k, x))
  {}

  /** A later child of a known name leaves the sibling chain alone. */
  lemma CoverLater(kids: seq<TagNode>, sibs: seq<TagNode>, x: TagNode, k: nat)
    requires kids != [] && x !in kids && SiblingsCover(kids, sibs) && k <= |kids| && !NoneIn(kids, 0, k, x.name)
    ensures SiblingsCover(With(kids, k, x), sibs)
  {
    var kids' := With(kids, k, x);
    forall name ensures FirstNamed(kids', name) == FirstNamed(kids, name) {
      FirstNamedWith(kids, k, x, 0, name);
      assert kids'[0..] == kids' && kids[0..] == kids;
    }
    WithElements(kids, k, x);
    assert kids'[0] == kids[0];
    hide FirstNamed, With, Distinct, OffSorted, NoneIn;
  }

  /** the `next` and `sibling` part for the first tag of its name */
  method ThreadFirst(x: TagNode, head: TagNode, prev: TagNode?, cur: TagNode?, ghost kids: seq<TagNode>,
                     ghost sibs: seq<TagNode>, ghost k: nat, ghost m: nat)
    returns (ghost sibs': seq<TagNode>)
    requires kids != [] && x !in kids && x.sibling == null && sibs != [] && head == sibs[0] && k <= |kids|
             && m <= |sibs|
    requires NextChain(kids) && SiblingsCover(kids, sibs) && SiblingChain(sibs) && Slot(kids, x.off, k)
    requires cur == FirstNamed(kids, x.name) && (cur == null || cur.off > x.off)
    requires if cur == null then m == |sibs| else m < |sibs| && sibs[m] == cur
    requires prev == if m == 0 then null else sibs[m - 1]
    modifies kids`sibling, x`next, x`sibling
    ensures NextChain(With(kids, k, x)) && SiblingsCover(With(kids, k, x), sibs') && SiblingChain(sibs')
  {
    hide With, NoneIn, NextGoal, NextChain, SiblingChain, SiblingsCover, FirstNamed;
    NextFirst(kids, k, x);
    hide Slot;
    x.next := cur;
    NextDone(kids, k, x);
    sibs' := LinkSibling(x, head, prev, cur, kids, sibs, k, m);
  }

  /** the `next` and `sibling` part, behind the tag whose type is found */
  method Thread(x: TagNode, head: TagNode, ghost kids: seq<TagNode>, ghost sibs: seq<TagNode>, ghost k: nat)
    returns (ghost sibs': seq<TagNode>)
    requires kids != [] && x !in kids && x.next == null && x.sibling == null && sibs != [] && head == sibs[0]
             && k <= |kids|
    requires Distinct(kids) && NextChain(kids) && SiblingsCover(kids, sibs) && SiblingChain(sibs)
             && Slot(kids, x.off, k)
    modifies kids`next, kids`sibling, x`next, x`sibling
    ensures NextChain(With(kids, k, x)) && SiblingsCover(With(kids, k, x), sibs') && SiblingChain(sibs')
  {
    hide *;
    var prev, cur, m := FindType(head, x.name, kids, sibs);
    if cur != null && cur.off <= x.off {
      LinkNext(x, cur, kids, k);
      CoverLater(kids, sibs, x, k);
      sibs' := sibs;
    } else {
      sibs' := ThreadFirst(x, head, prev, cur, kids, sibs, k, m);
    }
  }

  /** ezxml_insert into a tag that already has children */
  method InsertAmong(x: TagNode, dest: TagNode, ghost kids: seq<TagNode>, ghost sibs: seq<TagNode>)
    returns (ghost k: nat, ghost kids': seq<TagNode>, ghost sibs': seq<TagNode>)
    requires kids != [] && dest.child == kids[0] && dest !in kids && x != dest && x !in kids
    requires Distinct(kids) && Threaded(kids, sibs) && (forall i :: 0 <= i < |sibs| ==> sibs[i] in kids)
    requires x.next == null && x.sibling == null && x.ordered == null
    modifies dest`child, kids`ordered, kids`next, kids`sibling, x`next, x`sibling, x`ordered
    ensures k <= |kids| && Slot(kids, x.off, k) && kids' == With(kids, k, x) && dest.child == kids'[0]
    ensures dest !in kids' && Distinct(kids') && Threaded(kids', sibs')
  {
    hide With, Slot, Distinct, OffSorted, OrderedChain, NextChain, SiblingChain;
    assert sibs != [] && sibs[0] == kids[0];
    hide SiblingsCover;
    var head := dest.child;
    k := LinkOrdered(x, dest, kids);
    kids' := With(kids, k, x);
    sibs' := Thread(x, head, kids, sibs, k);
    SortedWith(kids, k, x);
    WithElements(kids, k, x);
  }

  ghost method Adopt(dest: TagNode, kids: seq<TagNode>, sibs: seq<TagNode>)
    requires dest !in kids && Distinct(kids) && Threaded(kids, sibs) && kids != [] && dest.child == kids[0]
    modifies dest`kids, dest`sibs
    ensures dest.Valid() && dest.kids == kids && dest.sibs == sibs
  {
    hide Threaded, Distinct;
    dest.kids, dest.sibs := kids, sibs;
  }

  method Place(x: TagNode, dest: TagNode, off: nat)
    modifies x`next, x`sibling, x`ordered, x`off, x`parent
    ensures x.next == null && x.sibling == null && x.ordered == null && x.off == off && x.parent == dest
  {
    x.next, x.sibling, x.ordered := null, null, null;
    x.off := off;
    x.parent := dest;
  }

  /** ezxml_insert */
  method Insert(x: TagNode, dest: TagNode, off: nat) returns (ghost k: nat)
    requires dest.Valid() && x != dest && x !in dest.kids
    modifies dest`child, dest`kids, dest`sibs, dest.kids`ordered, dest.kids`next, dest.kids`sibling
    modifies x`next, x`sibling, x`ordered, x`off, x`parent
    ensures dest.Valid() && x.off == off && x.parent == dest
    ensures k <= |old(dest.kids)| && dest.kids == With(old(dest.kids), k, x) && Slot(old(dest.kids), off, k)
    ensures dest.kids == old(dest.kids)[..k] + [x] + old(dest.kids)[k..]
    ensures forall i :: 0 <= i < k ==> old(dest.kids[i].off) <= off
    ensures forall i :: k <= i < |old(dest.kids)| ==> off < old(dest.kids[i].off)
  {
    hide *;
    ghost var kids, sibs := dest.kids, dest.sibs;
    ValidMeans(dest);
    Place(x, dest, off);
    if dest.child != null {
      ghost var kids', sibs';
      k, kids', sibs' := InsertAmong(x, dest, kids, sibs);
      Adopt(dest, kids', sibs');
    } else {
      dest.child := x;
      k := 0;
      EmptySlot(off);
      OnlyKid(x);
      Adopt(dest, [x], [x]);
    }
    SlotMeans(kids, off, k);
    WithParts(kids, k, x);
  }

  lemma SlotMeans(s: seq<TagNode>, off: nat, k: nat)
    requires Slot(s, off, k)
    ensures k <= |s| && (forall i :: 0 <= i < k ==> s[i].off <= off) && forall i :: k <= i < |s| ==> off < s[i].off
  {}

  lemma OnlyKid(x: TagNode)
    requires x.next == null && x.sibling == null && x.ordered == null
    ensures Distinct([x]) && Threaded([x], [x]) && [x] == With([], 0, x)
  {
    assert FirstNamed([], x.name) == null && [x][1..] == [];
    assert FirstNamed([x], x.name) == x;
  }

  lemma EmptySlot(off: nat)
    ensures Slot([], off, 0)
  {}

  // ---- any run of insertions ----

  /** One call of ezxml_insert: the tag that arrives, and the offset it is given. */
  datatype Kid = Kid(arrival: nat, off: nat)

  predicate KidAfter(c: Kid, x: Kid) {
    c.off > x.off
  }

  function Requests(offs: seq<nat>): (r: seq<Kid>)
    ensures |r| == |offs| && forall i :: 0 <= i < |r| ==> r[i] == Kid(i, offs[i])
  {
    seq(|offs|, i requires 0 <= i < |offs| => Kid(i, offs[i]))
  }

  /** What ezxml_insert is to keep: document order is the stable order by offset. */
  function InOrder(reqs: seq<Kid>): seq<Kid> {
    StableOrder.InsertAll(KidAfter, reqs)
  }

  /** Every request arrives behind the ones before it. */
  ghost predicate Arriving(reqs: seq<Kid>) {
    forall i, j :: 0 <= i < j < |reqs| ==> reqs[i].arrival < reqs[j].arrival
  }

  predicate Before(a: Kid, b: Kid) {
    a.off < b.off || (a.off == b.off && a.arrival < b.arrival)
  }

  /** Every request is there once, by offset, and in order of arrival where offsets are equal. */
  lemma {:induction false} InOrderIsStable(reqs: seq<Kid>)
    requires Arriving(reqs)
    ensures multiset(InOrder(reqs)) == multiset(reqs)
    ensures forall i, j :: 0 <= i < j < |InOrder(reqs)| ==> Before(InOrder(reqs)[i], InOrder(reqs)[j])
    ensures var r := InOrder(reqs);
            forall i, j :: 0 <= i < j < |r| ==>
                             r[i].off < r[j].off || (r[i].off == r[j].off && r[i].arrival < r[j].arrival)
  {
    hide *;
    BeforeMeans();
    if reqs == [] {
      NoRequests();
    } else {
      var n := |reqs| - 1;
      var q := InOrder(reqs[..n]);
      Earlier(reqs);
      InOrderIsStable(reqs[..n]);
      InOrderStep(reqs);
      AmongEarlier(q, reqs[..n], reqs[n].arrival);
      InsertStays(q, reqs[n]);
      assert reqs == reqs[..n] + [reqs[n]];
    }
  }

  lemma Earlier(reqs: seq<Kid>)
    requires Arriving(reqs) && reqs != []
    ensures var n := |reqs| - 1;
            Arriving(reqs[..n]) && forall i :: 0 <= i < n ==> reqs[..n][i].arrival < reqs[n].arrival
  {}

  lemma AmongEarlier(q: seq<Kid>, reqs: seq<Kid>, n: nat)
    requires multiset(q) == multiset(reqs) && forall i :: 0 <= i < |reqs| ==> reqs[i].arrival < n
    ensures forall i :: 0 <= i < |q| ==> q[i].arrival < n
  {
    forall i | 0 <= i < |q| ensures q[i].arrival < n {
      assert q[i] in multiset(q) && q[i] in reqs;
    }
  }

  lemma BeforeMeans()
    ensures forall a, b :: Before(a, b) <==> a.off < b.off || (a.off == b.off && a.arrival < b.arrival)
  {}

  lemma NoRequests()
    ensures InOrder([]) == []
  {}

  lemma InsertStays(q: seq<Kid>, x: Kid)
    requires forall i, j :: 0 <= i < j < |q| ==> Before(q[i], q[j])
    requires forall i :: 0 <= i < |q| ==> q[i].arrival < x.arrival
    ensures var r := StableOrder.Insert(KidAfter, q, x);
            multiset(r) == multiset(q) + multiset{x} && forall i, j :: 0 <= i < j < |r| ==> Before(r[i], r[j])
  {
    hide StableOrder.Slot;
    var k := StableOrder.Slot(KidAfter, q, x);
    WithElements(q, k, x);
    assert StableOrder.Insert(KidAfter, q, x) == With(q, k, x);
    hide StableOrder.Insert, With;
    forall i | k <= i < |q| ensures Before(x, q[i]) {
      assert i > k ==> Before(q[k], q[i]);
    }
  }

  lemma InOrderStep(reqs: seq<Kid>)
    requires reqs != []
    ensures var n := |reqs| - 1; InOrder(reqs) == StableOrder.Insert(KidAfter, InOrder(reqs[..n]), reqs[n])
  {
    hide StableOrder.Insert;
  }

  /** Requests that come by offset are in order already. */
  lemma {:induction false} InOrderAlready(reqs: seq<Kid>)
    requires forall i, j :: 0 <= i < j < |reqs| ==> reqs[i].off <= reqs[j].off
    ensures InOrder(reqs) == reqs
  {
    hide *;
    if reqs == [] {
      NoRequests();
    } else {
      var n := |reqs| - 1;
      InOrderAlready(reqs[..n]);
      InOrderStep(reqs);
      InsertLast(reqs[..n], reqs[n]);
      assert reqs == reqs[..n] + [reqs[n]];
    }
  }

  lemma InsertLast(q: seq<Kid>, x: Kid)
    requires forall i :: 0 <= i < |q| ==> q[i].off <= x.off
    ensures StableOrder.Insert(KidAfter, q, x) == q + [x]
  {
    var k := StableOrder.Slot(KidAfter, q, x);
    assert forall i :: 0 <= i < |q| ==> !KidAfter(q[i], x);
    WithParts(q, k, x);
  }

  /** The children are the tags of q, in that order. */
  ghost predicate Holds(kids: seq<TagNode>, tags: seq<TagNode>, q: seq<Kid>)
    reads kids`off
  {
    && |kids| == |q|
    && forall i :: 0 <= i < |q| ==> q[i].arrival < |tags| && kids[i] == tags[q[i].arrival] && kids[i].off == q[i].off
  }

  lemma SlotAgrees(kids: seq<TagNode>, tags: seq<TagNode>, q: seq<Kid>, x: Kid, k: nat)
    requires k <= |kids| && Holds(kids, tags, q) && Slot(kids, x.off, k)
    ensures StableOrder.Slot(KidAfter, q, x) == k
  {
    var j := StableOrder.Slot(KidAfter, q, x);
    hide StableOrder.Slot;
    assert j < |q| ==> KidAfter(q[j], x);
    assert k < |q| ==> KidAfter(q[k], x);
  }

  lemma HoldsWith(kids: seq<TagNode>, tags: seq<TagNode>, q: seq<Kid>, x: Kid, k: nat)
    requires k <= |kids| && Holds(kids, tags, q) && Slot(kids, x.off, k)
    requires x.arrival < |tags| && tags[x.arrival].off == x.off
    ensures Holds(With(kids, k, tags[x.arrival]), tags, StableOrder.Insert(KidAfter, q, x))
  {
    SlotAgrees(kids, tags, q, x, k);
    hide With, Slot, StableOrder.Slot;
  }

  // ---- several tags of a document ----

  /** Tags of a document whose children are threaded; no tag is a child of two of them. */
  ghost predicate Forest(dests: seq<TagNode>, nodes: set<TagNode>)
    reads nodes
  {
    && Distinct(dests)
    && (forall d :: d in dests ==> d in nodes && Within(d.kids, nodes) && Within(d.sibs, nodes) && d.Valid())
    && forall d, e, t :: d in dests && e in dests && t in d.kids && t in e.kids ==> d == e
  }

  predicate Within(s: seq<TagNode>, nodes: set<TagNode>) {
    forall i :: 0 <= i < |s| ==> s[i] in nodes
  }

  /** ezxml_insert into one of several tags leaves the others alone. */
  method InsertInto(x: TagNode, dest: TagNode, off: nat, ghost dests: seq<TagNode>, ghost nodes: set<TagNode>)
    returns (ghost k: nat)
    requires Forest(dests, nodes) && dest in dests && x in nodes && x != dest
    requires forall d :: d in dests ==> x !in d.kids
    modifies dest`child, dest`kids, dest`sibs, dest.kids`ordered, dest.kids`next, dest.kids`sibling
    modifies x`next, x`sibling, x`ordered, x`off, x`parent
    ensures Forest(dests, nodes) && x.off == off && x.parent == dest
    ensures k <= |old(dest.kids)| && dest.kids == With(old(dest.kids), k, x) && Slot(old(dest.kids), off, k)
  {
    hide Slot, With, Threaded;
    ghost var kids := dest.kids;
    forall d | d in dests ensures forall t :: t in d.sibs ==> t in d.kids { SibsInKids(d); }
    k := Insert(x, dest, off);
    WithElements(kids, k, x);
    SibsInKids(dest);
    forall d | d in dests && d != dest ensures d.kids == old(d.kids) && d.sibs == old(d.sibs) && d.Valid() {
      assert forall t :: t in d.kids ==> t != x && t !in kids;
      Untouched(d);
    }
    assert forall t :: t in dest.kids ==> t in kids || t == x;
    assert forall t :: t in kids ==> t in nodes;
    forall i | 0 <= i < |dest.sibs| ensures dest.sibs[i] in nodes {
      assert dest.sibs[i] in dest.kids;
    }
    forall d, e, t | d in dests && e in dests && t in d.kids && t in e.kids ensures d == e {
      assert d != dest ==> t in old(d.kids);
      assert e != dest ==> t in old(e.kids);
    }
  }

  twostate lemma Untouched(d: TagNode)
    requires old(d.Valid()) && d.kids == old(d.kids) && d.sibs == old(d.sibs) && d.child == old(d.child)
    requires forall t :: t in d.kids ==> t.off == old(t.off) && t.ordered == old(t.ordered) && t.next == old(t.next)
                                         && t.sibling == old(t.sibling)
    ensures d.Valid()
  {
    hide FirstNamed, Distinct;
  }

  lemma SibsInKids(d: TagNode)
    requires d.Valid()
    ensures forall t :: t in d.sibs ==> t in d.kids
  {}

  // ---- any run of insertions ----

  /** The requests for one of the tags, of the first n; its old children, m of them, are there before. */
  function Mine(into: seq<TagNode>, offs: seq<nat>, dest: TagNode, m: nat, n: nat): (r: seq<Kid>)
    requires n <= |into| == |offs|
    ensures forall i :: 0 <= i < |r| ==> r[i].arrival < m + n
  {
    if n == 0 then []
    else Mine(into, offs, dest, m, n - 1) + if into[n - 1] == dest then [Kid(m + n - 1, offs[n - 1])] else []
  }

  /** All requests of a tag: its old children, by their offsets, and those of the run. */
  function Asked(had: seq<nat>, into: seq<TagNode>, offs: seq<nat>, dest: TagNode, n: nat): (r: seq<Kid>)
    requires n <= |into| == |offs|
    ensures forall i :: 0 <= i < |r| ==> r[i].arrival < |had| + n
  {
    Requests(had) + Mine(into, offs, dest, |had|, n)
  }

  /** These are just the old children, with their offsets, and what the run brings to this tag. */
  lemma {:induction false} AskedExactly(had: seq<nat>, into: seq<TagNode>, offs: seq<nat>, dest: TagNode, n: nat,
                                        r: Kid)
    requires n <= |into| == |offs|
    ensures r in Asked(had, into, offs, dest, n)
       <==> (r.arrival < |had| && r.off == had[r.arrival])
            || exists i :: 0 <= i < n && into[i] == dest && r.arrival == |had| + i && r.off == offs[i]
  {
    if n > 0 {
      AskedExactly(had, into, offs, dest, n - 1, r);
      AskedStep(had, into, offs, dest, n);
    } else {
      assert Asked(had, into, offs, dest, 0) == Requests(had) + [];
      if r.arrival < |had| { assert Requests(had)[r.arrival] == Kid(r.arrival, had[r.arrival]); }
    }
  }

  lemma {:induction false} AskedArrive(had: seq<nat>, into: seq<TagNode>, offs: seq<nat>, dest: TagNode, n: nat)
    requires n <= |into| == |offs|
    ensures Arriving(Asked(had, into, offs, dest, n))
  {
    if n > 0 {
      AskedArrive(had, into, offs, dest, n - 1);
      AskedStep(had, into, offs, dest, n);
    }
  }

  lemma AskedStep(had: seq<nat>, into: seq<TagNode>, offs: seq<nat>, dest: TagNode, n: nat)
    requires 0 < n <= |into| == |offs|
    ensures Asked(had, into, offs, dest, n)
         == Asked(had, into, offs, dest, n - 1) + if into[n - 1] == dest then [Kid(|had| + n - 1, offs[n - 1])] else []
  {}

  ghost function OffsOf(kids: seq<TagNode>): (r: seq<nat>)
    reads kids`off
    ensures |r| == |kids| && forall i :: 0 <= i < |r| ==> r[i] == kids[i].off
  {
    if kids == [] then [] else OffsOf(kids[..|kids| - 1]) + [kids[|kids| - 1].off]
  }

  ghost function OffsIn(kids: seq<seq<TagNode>>, nodes: set<TagNode>): (r: seq<seq<nat>>)
    requires forall j :: 0 <= j < |kids| ==> Within(kids[j], nodes)
    reads nodes
    ensures |r| == |kids| && forall j :: 0 <= j < |r| ==> r[j] == OffsOf(kids[j])
  {
    if kids == [] then []
    else
      var n := |kids| - 1;
      WithinMeans(kids[n], nodes);
      OffsIn(kids[..n], nodes) + [OffsOf(kids[n])]
  }

  /** Before the run. */
  lemma HeldAlready(kids: seq<TagNode>, tags: seq<TagNode>, into: seq<TagNode>, offs: seq<nat>, dest: TagNode)
    requires OffSorted(kids) && |into| == |offs|
    ensures Holds(kids, kids + tags, InOrder(Asked(OffsOf(kids), into, offs, dest, 0)))
  {
    hide InOrder, Holds, OffsOf, Requests;
    var reqs := Requests(OffsOf(kids));
    assert Asked(OffsOf(kids), into, offs, dest, 0) == reqs + [] == reqs;
    InOrderAlready(reqs);
    HoldsRequests(kids, tags);
  }

  lemma HoldsRequests(kids: seq<TagNode>, tags: seq<TagNode>)
    ensures Holds(kids, kids + tags, Requests(OffsOf(kids)))
  {
    hide OffsOf, Requests;
  }

  /** One insertion of the run, seen from the tag it goes to. */
  lemma HeldNext(kids: seq<TagNode>, kids': seq<TagNode>, all: seq<TagNode>, had: seq<nat>, into: seq<TagNode>,
                 offs: seq<nat>, n: nat, k: nat)
    requires n < |into| == |offs| && |all| >= |had| + n + 1
    requires Holds(kids, all, InOrder(Asked(had, into, offs, into[n], n)))
    requires k <= |kids| && Slot(kids, offs[n], k) && kids' == With(kids, k, all[|had| + n])
    requires all[|had| + n].off == offs[n]
    ensures Holds(kids', all, InOrder(Asked(had, into, offs, into[n], n + 1)))
  {
    hide Holds, Slot, With, Asked, InOrder, StableOrder.Insert;
    var reqs, x := Asked(had, into, offs, into[n], n + 1), Kid(|had| + n, offs[n]);
    AskedStep(had, into, offs, into[n], n + 1);
    assert reqs[..|reqs| - 1] == Asked(had, into, offs, into[n], n);
    InOrderStep(reqs);
    HoldsWith(kids, all, InOrder(Asked(had, into, offs, into[n], n)), x, k);
  }

  /** One insertion of the run, seen from any of the tags. */
  lemma HeldStep(d: TagNode, kids: seq<TagNode>, all: seq<TagNode>, had: seq<nat>, into: seq<TagNode>, offs: seq<nat>,
                 n: nat, k: nat)
    requires n < |into| == |offs| && |all| >= |had| + n + 1 && all[|had| + n].off == offs[n]
    requires Holds(kids, all, InOrder(Asked(had, into, offs, d, n)))
    requires d != into[n] ==> d.kids == kids
    requires d == into[n] ==> k <= |kids| && d.kids == With(kids, k, all[|had| + n]) && Slot(kids, offs[n], k)
    ensures Holds(d.kids, all, InOrder(Asked(had, into, offs, d, n + 1)))
  {
    hide With, Slot, InOrder, Asked;
    if d == into[n] {
      HeldNext(kids, d.kids, all, had, into, offs, n, k);
    } else {
      AskedStep(had, into, offs, d, n + 1);
      var reqs := Asked(had, into, offs, d, n);
      assert reqs + [] == reqs;
    }
  }

  lemma ForestMeans(dests: seq<TagNode>, nodes: set<TagNode>, d: TagNode)
    requires Forest(dests, nodes) && d in dests
    ensures d in nodes && d.Valid() && Within(d.kids, nodes) && OffSorted(d.kids)
    ensures forall t :: t in d.kids ==> t in nodes
  {
    hide FirstNamed, Distinct;
  }

  lemma NotYet(tags: seq<TagNode>, n: nat, kids: seq<TagNode>, k: nat, kids': seq<TagNode>)
    requires Distinct(tags) && n < |tags| && k <= |kids| && kids' == With(kids, k, tags[n])
    requires forall i :: n <= i < |tags| ==> tags[i] !in kids
    ensures forall i :: n + 1 <= i < |tags| ==> tags[i] !in kids'
  {
    WithElements(kids, k, tags[n]);
    hide With;
  }

  /** All tags hold what n insertions have asked for. */
  ghost predicate Progress(dests: seq<TagNode>, tags: seq<TagNode>, kids: seq<seq<TagNode>>, had: seq<seq<nat>>,
                           into: seq<TagNode>, offs: seq<nat>, n: nat, nodes: set<TagNode>)
    requires |kids| == |had| == |dests| && n <= |into| == |offs|
    reads nodes
  {
    forall j :: 0 <= j < |dests| ==>
                  && dests[j] in nodes && Within(dests[j].kids, nodes)
                  && Holds(dests[j].kids, kids[j] + tags, InOrder(Asked(had[j], into, offs, dests[j], n)))
  }

  /** The n-th insertion of a run. */
  method InsertNth(tags: seq<TagNode>, into: seq<TagNode>, offs: seq<nat>, n: nat, ghost dests: seq<TagNode>,
                   ghost nodes: set<TagNode>, ghost kids: seq<seq<TagNode>>, ghost had: seq<seq<nat>>)
    requires Forest(dests, nodes) && Distinct(tags) && Within(tags, nodes) && n < |tags| == |into| == |offs|
    requires into[n] in dests && tags[n] != into[n]
    requires forall i, d :: n <= i < |tags| && d in dests ==> tags[i] !in d.kids
    requires |kids| == |had| == |dests| && (forall j :: 0 <= j < |dests| ==> |kids[j]| == |had[j]|)
    requires Progress(dests, tags, kids, had, into, offs, n, nodes)
    modifies nodes
    ensures Forest(dests, nodes) && Progress(dests, tags, kids, had, into, offs, n + 1, nodes)
    ensures forall i, d :: n + 1 <= i < |tags| && d in dests ==> tags[i] !in d.kids
  {
    hide Forest, Distinct, Within, Holds, Asked, InOrder, Slot, With;
    var x, dest := tags[n], into[n];
    ForestMeans(dests, nodes, dest);
    WithinAt(tags, nodes, n);
    ghost var was := seq(|dests|, j requires 0 <= j < |dests| reads dests => dests[j].kids);
    ghost var k := InsertInto(x, dest, offs[n], dests, nodes);
    forall j | 0 <= j < |dests|
      ensures dests[j] in nodes && Within(dests[j].kids, nodes)
      ensures Holds(dests[j].kids, kids[j] + tags, InOrder(Asked(had[j], into, offs, dests[j], n + 1)))
    {
      ForestMeans(dests, nodes, dests[j]);
      HeldStep(dests[j], was[j], kids[j] + tags, had[j], into, offs, n, k);
    }
    NotYet(tags, n, old(dest.kids), k, dest.kids);
  }

  lemma WithinMeans(s: seq<TagNode>, nodes: set<TagNode>)
    requires Within(s, nodes)
    ensures forall t :: t in s ==> t in nodes
  {}

  lemma WithinAt(s: seq<TagNode>, nodes: set<TagNode>, i: nat)
    requires Within(s, nodes) && i < |s|
    ensures s[i] in nodes
  {}

  /** Any run of insertions into the tags of a document: each of them ends up with its old children and those of the
      run in document order. A tag may get children after it has become one. */
  method InsertRun(tags: seq<TagNode>, into: seq<TagNode>, offs: seq<nat>, ghost dests: seq<TagNode>,
                   ghost nodes: set<TagNode>)
    requires Forest(dests, nodes) && Distinct(tags) && Within(tags, nodes) && |tags| == |into| == |offs|
    requires forall i :: 0 <= i < |tags| ==> into[i] in dests && tags[i] != into[i]
    requires forall i, d :: 0 <= i < |tags| && d in dests ==> tags[i] !in d.kids
    modifies nodes
    ensures Forest(dests, nodes)
    ensures forall d :: d in dests ==>
                          Holds(d.kids, old(d.kids) + tags, InOrder(Asked(old(OffsOf(d.kids)), into, offs, d, |tags|)))
  {
    hide *;
    ghost var kids := seq(|dests|, j requires 0 <= j < |dests| reads dests => dests[j].kids);
    forall j | 0 <= j < |dests| ensures Within(kids[j], nodes) { ForestMeans(dests, nodes, dests[j]); }
    ghost var had := OffsIn(kids, nodes);
    NoProgress(dests, tags, kids, had, into, offs, nodes);
    for n := 0 to |tags|
      invariant Forest(dests, nodes) && Progress(dests, tags, kids, had, into, offs, n, nodes)
      invariant forall i, d :: n <= i < |tags| && d in dests ==> tags[i] !in d.kids
    {
      InsertNth(tags, into, offs, n, dests, nodes, kids, had);
    }
    forall d | d in dests
      ensures Holds(d.kids, old(d.kids) + tags, InOrder(Asked(old(OffsOf(d.kids)), into, offs, d, |tags|)))
    {
      ghost var j :| 0 <= j < |dests| && dests[j] == d;
      ProgressAt(dests, tags, kids, had, into, offs, |tags|, nodes, j);
    }
  }

  lemma NoProgress(dests: seq<TagNode>, tags: seq<TagNode>, kids: seq<seq<TagNode>>, had: seq<seq<nat>>,
                   into: seq<TagNode>, offs: seq<nat>, nodes: set<TagNode>)
    requires Forest(dests, nodes) && |kids| == |had| == |dests| && |into| == |offs|
    requires forall j :: 0 <= j < |dests| ==> kids[j] == dests[j].kids && had[j] == OffsOf(kids[j])
    ensures Progress(dests, tags, kids, had, into, offs, 0, nodes)
  {
    hide Forest, Within, Holds, Asked, InOrder, OffsOf;
    forall j | 0 <= j < |dests|
      ensures dests[j] in nodes && Within(dests[j].kids, nodes)
      ensures Holds(dests[j].kids, kids[j] + tags, InOrder(Asked(had[j], into, offs, dests[j], 0)))
    {
      ForestMeans(dests, nodes, dests[j]);
      HeldAlready(kids[j], tags, into, offs, dests[j]);
    }
  }

  lemma ProgressAt(dests: seq<TagNode>, tags: seq<TagNode>, kids: seq<seq<TagNode>>, had: seq<seq<nat>>,
                   into: seq<TagNode>, offs: seq<nat>, n: nat, nodes: set<TagNode>, j: nat)
    requires |kids| == |had| == |dests| && n <= |into| == |offs| && j < |dests|
    requires Progress(dests, tags, kids, had, into, offs, n, nodes)
    ensures Holds(dests[j].kids, kids[j] + tags, InOrder(Asked(had[j], into, offs, dests[j], n)))
  {
    hide Holds, Asked, InOrder;
  }
}
