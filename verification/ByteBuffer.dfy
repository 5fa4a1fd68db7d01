/** The byte buffer: a storage area with a write position and a read position. It behaves as a
    bounded queue of bytes. */
module ByteBuffer {
  type Byte = x: int | 0 <= x < 0x100 witness 0

  function Min(a: nat, b: nat): nat {
    if a < b then a else b
  }

  class Buffer {
    var start: array<Byte>
    var size: nat
    /** in and out, as offsets from start */
    var inn: nat
    var out: nat

    ghost predicate Valid()
      reads this
    {
      size == start.Length && out <= inn <= size
    }

    /** The bytes held, oldest first. */
    ghost function Queue(): (q: seq<Byte>)
      requires Valid()
      reads this, start
      ensures |q| == inn - out
    {
      start[out..inn]
    }

    /** buffer_new */
    constructor (size: nat)
      ensures Valid() && fresh(start) && this.size == size && Queue() == [] && out == 0
    {
      start := new Byte[size];
      inn, out := 0, 0;
      this.size := size;
    }

    /** buffer_space */
    function Space(): nat
      requires Valid()
      reads this
    {
      size - inn
    }

    /** buffer_len */
    function Len(): (n: nat)
      requires Valid()
      reads this, start
      ensures n == |Queue()|
    {
      inn - out
    }

    /** buffer_unusable: the distance of in, not of out, from the start */
    function Unusable(): nat
      reads this
    {
      inn
    }

    /** buffer_poke */
    method Poke(c: Byte)
      requires Valid() && Space() > 0
      modifies `inn, start
      ensures Valid() && Queue() == old(Queue()) + [c]
    {
      start[inn] := c;
      inn := inn + 1;
    }

    /** buffer_reset */
    method Reset()
      requires Valid()
      modifies `inn, `out
      ensures Valid() && Queue() == [] && Space() == size
    {
      inn, out := 0, 0;
    }

    /** buffer_eat */
    method Eat(len: nat)
      requires Valid()
      modifies `out
      ensures Valid() && Queue() == old(Queue())[Min(len, old(|Queue()|))..]
    {
      if len > Len() {
        out := out + Len();
      } else {
        out := out + len;
      }
    }

    /** memmove() of the held bytes to the front */
    method MoveToFront(len: nat)
      requires Valid() && len == Len()
      modifies start
      ensures start[..len] == old(Queue())
    {
      for i := 0 to len
        invariant start[..i] == old(Queue())[..i]
        invariant forall k :: out + i <= k < inn ==> start[k] == old(start[k])
      {
        start[i] := start[out + i];
      }
    }

    /** buffer_compact: afterwards no space is wasted, whatever the branch */
    method Compact() returns (ret: nat)
      requires Valid()
      modifies `inn, `out, start
      ensures Valid() && Queue() == old(Queue()) && out == 0 && ret == |Queue()|
    {
      var len := Len();
      if Unusable() <= 0 {
        return 0;
      }
      if len > 0 {
        MoveToFront(len);
      }
      out := 0;
      inn := len;
      ret := len;
    }

    /** buffer_resize. It is meant to make the buffer bigger, but any size that holds the data will do. */
    method Resize(newSize: nat)
      requires Valid() && newSize >= Len()
      modifies this, start
      ensures Valid() && fresh(start) && size == newSize && out == 0 && Queue() == old(Queue())
    {
      var n := Compact();
      var p := new Byte[newSize];
      for i := 0 to inn
        invariant p[..i] == start[..i]
        modifies p
      {
        p[i] := start[i];
      }
      start := p;
      size := newSize;
    }

    /** memcpy() from the storage */
    method MoveOut(dest: array<Byte>, from: nat, n: nat)
      requires from + n <= start.Length && n <= dest.Length && dest != start
      modifies dest
      ensures dest[..n] == start[from..from + n]
      ensures forall k :: n <= k < dest.Length ==> dest[k] == old(dest[k])
    {
      for i := 0 to n
        invariant dest[..i] == start[from..from + i]
        invariant forall k :: n <= k < dest.Length ==> dest[k] == old(dest[k])
      {
        dest[i] := start[from + i];
      }
    }

    /** buffer_part_copy_from: the copy starts behind offset bytes, but the queue moves on by what is copied. */
    method PartCopyFrom(offset: nat, dest: array<Byte>, len: nat) returns (n: nat)
      requires Valid() && offset <= len <= dest.Length && dest != start
      requires out + offset + Min(|Queue()|, len - offset) <= start.Length
      modifies dest, `out
      ensures Valid() && n == Min(old(|Queue()|), len - offset)
      ensures dest[..n] == old(start[out + offset..out + offset + n]) && Queue() == old(Queue())[n..]
      ensures offset + n <= old(|Queue()|) ==> dest[..n] == old(Queue())[offset..offset + n]
      ensures forall k :: n <= k < dest.Length ==> dest[k] == old(dest[k])
    {
      n := Min(Len(), len - offset);
      if n == 0 {
        return;
      }
      if offset + n <= Len() { Inside(start[..], out, inn, offset, n); }
      assert Queue()[n..] == start[out + n..inn];
      MoveOut(dest, out + offset, n);
      out := out + n;
    }

    /** buffer_copy_from */
    method CopyFrom(dest: array<Byte>, len: nat) returns (n: nat)
      requires Valid() && len <= dest.Length && dest != start
      modifies dest, `out
      ensures Valid() && n == Min(old(|Queue()|), len)
      ensures dest[..n] == old(Queue())[..n] && Queue() == old(Queue())[n..]
      ensures forall k :: n <= k < dest.Length ==> dest[k] == old(dest[k])
    {
      n := PartCopyFrom(0, dest, len);
    }

    /** memcpy() behind the held bytes */
    method Append(src: array<Byte>, at: nat, n: nat)
      requires Valid() && at + n <= src.Length && src != start && n <= Space()
      modifies `inn, start
      ensures Valid() && Queue() == old(Queue()) + src[at..at + n]
    {
      ghost var held := Queue();
      for i := 0 to n
        invariant start[out..inn] == held && start[inn..inn + i] == src[at..at + i]
        modifies start
      {
        start[inn + i] := src[at + i];
      }
      assert start[out..inn + n] == start[out..inn] + start[inn..inn + n];
      inn := inn + n;
    }

    /** buffer_copy_to: takes as many bytes as there is room for in the whole storage area */
    method CopyTo(src: array<Byte>, at: nat, len: nat) returns (n: nat)
      requires Valid() && at + len <= src.Length && src != start
      modifies `inn, `out, start
      ensures Valid() && n == Min(len, size - old(|Queue()|))
      ensures Queue() == old(Queue()) + src[at..at + n]
    {
      if Space() < len {
        var m := Compact();
      }
      if Space() == 0 {
        return 0;
      }
      n := Min(Space(), len);
      Append(src, at, n);
    }
  }

  /** buffer_to_buffer_copy_len: what leaves one queue enters the other. A destination that is full up to its end takes
      nothing, even when its front has been read. More than the queue holds is copied too, from the storage behind
      it, and then the source's out is past its in. */
  method BufferToBuffer(from: Buffer, to: Buffer, len: nat) returns (n: nat)
    requires from.Valid() && to.Valid() && from != to && from.start != to.start && from.out + len <= from.size
    modifies from`out, to`inn, to`out, to.start
    ensures to.Valid() && (from.Valid() <==> n <= old(|from.Queue()|))
    ensures n == if old(|from.Queue()|) == 0 || old(to.inn) == to.size then 0
                 else Min(len, to.size - old(|to.Queue()|))
    ensures to.Queue() == old(to.Queue()) + old(from.start[from.out..from.out + n]) && from.out == old(from.out) + n
    ensures n <= old(|from.Queue()|) ==>
              to.Queue() == old(to.Queue()) + old(from.Queue())[..n] && from.Queue() == old(from.Queue())[n..]
  {
    if from.Len() == 0 {
      return 0;
    }
    if to.Space() == 0 {
      return 0;
    }
    ghost var s := from.start[..];
    n := to.CopyTo(from.start, from.out, len);
    assert from.start[..] == s;
    if n <= from.Len() { Prefix(s, from.out, from.inn, n); }
    from.out := from.out + n;
  }

  lemma Inside(s: seq<Byte>, a: nat, b: nat, k: nat, n: nat)
    requires a + k + n <= b <= |s|
    ensures s[a..b][k..k + n] == s[a + k..a + k + n]
  {
    var q, l, r := s[a..b], s[a..b][k..k + n], s[a + k..a + k + n];
    assert |l| == |r| == n;
    forall i | 0 <= i < n ensures l[i] == r[i] {
      assert l[i] == q[k + i] == s[a + (k + i)];
    }
    assert l == r;
  }

  lemma Prefix(s: seq<Byte>, a: nat, b: nat, n: nat)
    requires a + n <= b <= |s|
    ensures s[a..b][..n] == s[a..a + n] && s[a..b][n..] == s[a + n..b]
  {}

  // ---- any run of operations ----

  datatype Op = Put(bytes: seq<Byte>) | Take(n: nat) | Drop(n: nat) | Squeeze | Grow(more: nat)

  /** A bounded queue of bytes, with all that ever went in and came out. */
  datatype Line = Line(queue: seq<Byte>, size: nat, accepted: seq<Byte>, removed: seq<Byte>)

  function Step(l: Line, op: Op): Line
    requires |l.queue| <= l.size
  {
    match op
    case Put(bytes) =>
      var n := Min(|bytes|, l.size - |l.queue|);
      l.(queue := l.queue + bytes[..n], accepted := l.accepted + bytes[..n])
    case Take(n) => Leave(l, n)
    case Drop(n) => Leave(l, n)
    case Squeeze => l
    case Grow(more) => l.(size := l.size + more + 1)
  }

  function Leave(l: Line, len: nat): Line {
    var n := Min(len, |l.queue|);
    l.(queue := l.queue[n..], removed := l.removed + l.queue[..n])
  }

  function Steps(l: Line, ops: seq<Op>): (r: Line)
    requires |l.queue| <= l.size
    ensures |r.queue| <= r.size
  {
    if ops == [] then l else Step(Steps(l, ops[..|ops| - 1]), ops[|ops| - 1])
  }

  /** Whatever is done: bytes removed followed by bytes held are the bytes accepted, in order. */
  lemma {:induction false} Conservation(l: Line, ops: seq<Op>)
    requires |l.queue| <= l.size && l.accepted == l.removed + l.queue
    ensures var r := Steps(l, ops); r.accepted == r.removed + r.queue
  {
    if ops != [] {
      var m, op := Steps(l, ops[..|ops| - 1]), ops[|ops| - 1];
      Conservation(l, ops[..|ops| - 1]);
      match op
      case Put(bytes) =>
        var n := Min(|bytes|, m.size - |m.queue|);
        assert m.removed + m.queue + bytes[..n] == m.removed + (m.queue + bytes[..n]);
      case Take(n) => LeaveConserves(m, n);
      case Drop(n) => LeaveConserves(m, n);
      case Squeeze =>
      case Grow(more) =>
    }
  }

  lemma LeaveConserves(l: Line, len: nat)
    requires l.accepted == l.removed + l.queue
    ensures var r := Leave(l, len); r.accepted == r.removed + r.queue
  {
    var n := Min(len, |l.queue|);
    assert l.queue == l.queue[..n] + l.queue[n..];
    assert l.removed + (l.queue[..n] + l.queue[n..]) == l.removed + l.queue[..n] + l.queue[n..];
  }

  /** buffer_copy_to from an array that holds just these bytes */
  method Offer(b: Buffer, bytes: seq<Byte>) returns (given: seq<Byte>)
    requires b.Valid()
    modifies b`inn, b`out, b.start
    ensures b.Valid() && given == bytes[..Min(|bytes|, b.size - old(|b.Queue()|))]
    ensures b.Queue() == old(b.Queue()) + given
  {
    var src := new Byte[|bytes|](i requires 0 <= i < |bytes| => bytes[i]);
    assert src[..] == bytes;
    var n := b.CopyTo(src, 0, |bytes|);
    given := src[..n];
    assert src[0..n] == bytes[..n];
  }

  /** buffer_copy_from into a new array */
  method Fetch(b: Buffer, len: nat) returns (taken: seq<Byte>)
    requires b.Valid()
    modifies b`out
    ensures b.Valid() && taken == old(b.Queue())[..Min(len, old(|b.Queue()|))]
    ensures b.Queue() == old(b.Queue())[Min(len, old(|b.Queue()|))..]
  {
    var dest := new Byte[len];
    var n := b.CopyFrom(dest, len);
    taken := dest[..n];
  }

  /** buffer_eat */
  method Skip(b: Buffer, len: nat) returns (taken: seq<Byte>)
    requires b.Valid()
    modifies b`out
    ensures b.Valid() && taken == old(b.Queue())[..Min(len, old(|b.Queue()|))]
    ensures b.Queue() == old(b.Queue())[Min(len, old(|b.Queue()|))..]
  {
    taken := b.start[b.out..b.out + Min(len, b.Len())];
    b.Eat(len);
  }

  lemma StepPut(q: seq<Byte>, size: nat, bytes: seq<Byte>)
    requires |q| <= size
    ensures var b := bytes[..Min(|bytes|, size - |q|)];
            Step(Line(q, size, [], []), Put(bytes)) == Line(q + b, size, b, [])
  {}

  lemma StepLeave(q: seq<Byte>, size: nat, len: nat)
    requires |q| <= size
    ensures var n := Min(len, |q|); Leave(Line(q, size, [], []), len) == Line(q[n..], size, [], q[..n])
    ensures Step(Line(q, size, [], []), Take(len)) == Step(Line(q, size, [], []), Drop(len))
         == Leave(Line(q, size, [], []), len)
  {}

  lemma StepSize(q: seq<Byte>, size: nat, more: nat)
    requires |q| <= size
    ensures Step(Line(q, size, [], []), Squeeze) == Line(q, size, [], [])
    ensures Step(Line(q, size, [], []), Grow(more)) == Line(q, size + more + 1, [], [])
  {}

  /** One operation on the buffer, for bytes offered or asked for in arrays of their own. */
  method Perform(b: Buffer, op: Op) returns (given: seq<Byte>, taken: seq<Byte>)
    requires b.Valid()
    modifies b, b.start
    ensures b.Valid() && (b.start == old(b.start) || fresh(b.start))
    ensures Step(Line(old(b.Queue()), old(b.size), [], []), op) == Line(b.Queue(), b.size, given, taken)
  {
    hide Step, Leave, Min;
    given, taken := [], [];
    ghost var q, size := b.Queue(), b.size;
    match op
    case Put(bytes) =>
      StepPut(q, size, bytes);
      given := Offer(b, bytes);
    case Take(len) =>
      StepLeave(q, size, len);
      taken := Fetch(b, len);
    case Drop(len) =>
      StepLeave(q, size, len);
      taken := Skip(b, len);
    case Squeeze =>
      StepSize(q, size, 0);
      var n := b.Compact();
    case Grow(more) =>
      StepSize(q, size, more);
      b.Resize(b.size + more + 1);
  }

  /** Step adds to the history, whatever it is. */
  lemma StepAdds(q: seq<Byte>, size: nat, accepted: seq<Byte>, removed: seq<Byte>, op: Op)
    requires |q| <= size
    ensures var r := Step(Line(q, size, [], []), op);
            Step(Line(q, size, accepted, removed), op)
            == Line(r.queue, r.size, accepted + r.accepted, removed + r.removed)
  {}

  lemma StepsNext(l: Line, ops: seq<Op>, i: nat)
    requires |l.queue| <= l.size && i < |ops|
    ensures Steps(l, ops[..i + 1]) == Step(Steps(l, ops[..i]), ops[i])
  {
    assert ops[..i + 1][..i] == ops[..i];
  }

  lemma NoSteps(l: Line)
    requires |l.queue| <= l.size
    ensures Steps(l, []) == l
  {}

  /** A run on the buffer is a run on the bounded queue. */
  method Drive(b: Buffer, ops: seq<Op>) returns (given: seq<Byte>, taken: seq<Byte>)
    requires b.Valid()
    modifies b, b.start
    ensures b.Valid()
    ensures Steps(Line(old(b.Queue()), old(b.size), old(b.Queue()), []), ops)
         == Line(b.Queue(), b.size, old(b.Queue()) + given, taken)
    ensures old(b.Queue()) + given == taken + b.Queue()
  {
    hide Steps, Step;
    given, taken := [], [];
    ghost var q := b.Queue();
    ghost var l := Line(q, b.size, q, []);
    NoSteps(l);
    assert q + [] == q && ops[..0] == [];
    for i := 0 to |ops|
      invariant b.Valid() && (b.start == old(b.start) || fresh(b.start))
      invariant Steps(l, ops[..i]) == Line(b.Queue(), b.size, q + given, taken)
    {
      StepsNext(l, ops, i);
      StepAdds(b.Queue(), b.size, q + given, taken, ops[i]);
      var g, k := Perform(b, ops[i]);
      assert q + given + g == q + (given + g);
      given, taken := given + g, taken + k;
    }
    assert ops[..|ops|] == ops;
    Conservation(l, ops);
  }
}
