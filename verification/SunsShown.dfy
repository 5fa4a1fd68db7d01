/** Which points of a model have values in a dataset: this depends on the length of the body alone. With it, whether a
    dataset leaves a reference open is settled by the model and the length, wherever its blocks repeat. */
module SunsShown {
  import opened ByteBuffer
  import opened CStrings
  import opened SunsValue
  import opened SunsModel
  import opened SunsDecode
  import opened ScaleFactors
  import opened SunsDataset
  import opened SunsLayout
  import opened SunsScaling

  // ---- the points that are shown ----

  /** As many points as fit into len bytes. */
  function PointsIn(points: seq<Point>, len: nat): (p: seq<Point>)
    ensures p <= points && BytesOf(p) <= len && (BytesOf(points) <= len ==> p == points)
  {
    if points == [] || len < PairSize(points[0].tp) then []
    else
      var p := PointsIn(points[1..], len - PairSize(points[0].tp));
      assert ([points[0]] + p)[1..] == p;
      [points[0]] + p
  }

  function RecordPoints(points: seq<Point>, len: nat, n: nat): (p: seq<Point>)
    ensures BytesOf(p) <= len
    decreases n
  {
    if n == 0 then []
    else if BytesOf(points) > len then PointsIn(points, len)
    else
      var p := RecordPoints(points, len - BytesOf(points), n - 1);
      BytesSplit(points, p);
      points + p
  }

  function BlockPoints(points: seq<Point>, repeating: bool, regs: nat, len: nat): (p: seq<Point>)
    requires repeating ==> regs > 0
    ensures BytesOf(p) <= len
  {
    RecordPoints(points, len, Count(repeating, regs, len))
  }

  /** The points that have a value in a dataset of len bytes, in order. */
  function Shown(blocks: seq<Block>, len: nat): (p: seq<Point>)
    requires Divisible(blocks)
    ensures BytesOf(p) <= len
  {
    if blocks == [] then []
    else
      var points := PointsOf(blocks[0].dps);
      var p := BlockPoints(points, blocks[0].repeating, RegsOf(points), len);
      var rest := Shown(blocks[1..], len - BytesOf(p));
      BytesSplit(p, rest);
      p + rest
  }

  /** The values have the names and types of these points. */
  ghost predicate Mirrors(vs: seq<Value>, pts: seq<Point>) {
    |vs| == |pts| && forall i :: 0 <= i < |vs| ==> vs[i].name == pts[i].name && vs[i].tp == SeenType(pts[i].tp)
  }

  lemma MirrorBoth(a: seq<Value>, p: seq<Point>, b: seq<Value>, q: seq<Point>)
    requires Mirrors(a, p) && Mirrors(b, q)
    ensures Mirrors(a + b, p + q)
  {
    hide SeenType;
  }

  lemma {:induction false} PointsMirror(points: seq<Point>, b: seq<Byte>, index: nat, rep: bool)
    ensures Mirrors(PointValues(points, b, index, rep), PointsIn(points, |b|))
    ensures PointBytes(points, b) == BytesOf(PointsIn(points, |b|))
  {
    hide PairSize, ValueOf;
    if points != [] && PairSize(points[0].tp) <= |b| {
      var n := PairSize(points[0].tp);
      PointsMirror(points[1..], b[n..], index, rep);
      ValueShows(points[0], b[..n], index, rep);
      var p := PointsIn(points[1..], |b| - n);
      assert ([points[0]] + p)[1..] == p;
      MirrorBoth([ValueOf(points[0], b[..n], index, rep)], [points[0]],
                 PointValues(points[1..], b[n..], index, rep), p);
    }
  }

  lemma {:induction false} RecordsMirror(points: seq<Point>, b: seq<Byte>, n: nat, index: nat, rep: bool)
    ensures Mirrors(Records(points, b, n, index, rep), RecordPoints(points, |b|, n))
    ensures RecordBytes(points, b, n) == BytesOf(RecordPoints(points, |b|, n))
    decreases n
  {
    hide PointValues, PointBytes, PointsIn, BytesOf, Mirrors;
    NothingMirrors();
    PointsMirror(points, b, index, rep);
    if n > 0 && BytesOf(points) <= |b| {
      var rest := b[BytesOf(points)..];
      RecordsMirror(points, rest, n - 1, index + 1, rep);
      BytesSplit(points, RecordPoints(points, |rest|, n - 1));
      MirrorBoth(PointValues(points, b, index, rep), points, Records(points, rest, n - 1, index + 1, rep),
                 RecordPoints(points, |rest|, n - 1));
    }
  }

  lemma NothingMirrors()
    ensures Mirrors([], []) && BytesOf([]) == 0
  {}

  /** The values of a dataset are those of the points shown, whatever the bytes. */
  lemma {:induction false} ShownIsDecoded(blocks: seq<Block>, body: seq<Byte>)
    requires Divisible(blocks)
    ensures Mirrors(BodyValues(blocks, body), Shown(blocks, |body|))
    decreases |blocks|
  {
    hide Records, RecordBytes, RecordPoints, RegsOf, PointsOf, BytesOf, Mirrors;
    NothingMirrors();
    if blocks != [] {
      var b := blocks[0];
      var points := PointsOf(b.dps);
      var n := Count(b.repeating, RegsOf(points), |body|);
      RecordsMirror(points, body, n, 1, b.repeating);
      var rest := body[RecordBytes(points, body, n)..];
      ShownIsDecoded(blocks[1..], rest);
      MirrorBoth(Records(points, body, n, 1, b.repeating), RecordPoints(points, |body|, n),
                 BodyValues(blocks[1..], rest), Shown(blocks[1..], |rest|));
    }
  }

  // ---- references ----

  /** Every reference from one of these points is to a name that some of those bear. */
  ghost predicate Finds(from: seq<Point>, pts: seq<Point>) {
    forall p :: p in from && Refers(p.tp) ==> Borne(pts, p.tp.name.value)
  }

  predicate Borne(pts: seq<Point>, name: string) {
    exists i :: 0 <= i < |pts| && pts[i].name == name
  }

  /** Every reference from one of the values finds a value. */
  ghost predicate AllFound(vs: seq<Value>) {
    forall v :: v in vs && Refers(v.tp) ==> FindValue(vs, v.tp.name.value).Some?
  }

  lemma SameSearch(vs: seq<Value>, pts: seq<Point>, name: string)
    requires Mirrors(vs, pts)
    ensures FindValue(vs, name) == FindPoint(pts, name)
    ensures FindValue(vs, name).Some? <==> Borne(pts, name)
  {
    var f, g := FindValue(vs, name), FindPoint(pts, name);
    hide FindValue, FindPoint, SeenType;
    if f.Some? { assert pts[f.value].name == name; }
    if g.Some? { assert vs[g.value].name == name; }
  }

  lemma SeenRefers(tp: TypePair)
    ensures Refers(SeenType(tp)) <==> Refers(tp)
    ensures Refers(tp) ==> SeenType(tp) == tp
  {}

  /** Values and points say the same of the references from a first part of them. */
  lemma FindsAreFound(us: seq<Value>, qs: seq<Point>, vs: seq<Value>, pts: seq<Point>)
    requires Mirrors(us, qs) && Mirrors(vs, pts)
    ensures (forall v :: v in us && Refers(v.tp) ==> FindValue(vs, v.tp.name.value).Some?) <==> Finds(qs, pts)
  {
    hide FindValue, SeenType, Borne;
    if Finds(qs, pts) {
      forall v | v in us && Refers(v.tp) ensures FindValue(vs, v.tp.name.value).Some? {
        var i: nat :| i < |us| && us[i] == v;
        SeenRefers(qs[i].tp);
        SameSearch(vs, pts, v.tp.name.value);
      }
    }
    if forall v :: v in us && Refers(v.tp) ==> FindValue(vs, v.tp.name.value).Some? {
      forall p | p in qs && Refers(p.tp) ensures Borne(pts, p.tp.name.value) {
        var i: nat :| i < |qs| && qs[i] == p;
        SeenRefers(p.tp);
        assert us[i] in us;
        SameSearch(vs, pts, p.tp.name.value);
      }
    }
  }

  /** For every model and every body: all references are found if and only if the points shown at that length find
      each other. */
  lemma FoundIsExact(blocks: seq<Block>, body: seq<Byte>)
    requires Divisible(blocks)
    ensures var pts := Shown(blocks, |body|); AllFound(BodyValues(blocks, body)) <==> Finds(pts, pts)
  {
    hide BodyValues, Shown, Finds, Mirrors, FindValue;
    ShownIsDecoded(blocks, body);
    var vs, pts := BodyValues(blocks, body), Shown(blocks, |body|);
    FindsAreFound(vs, pts, vs, pts);
  }

  /** The first point shown with the name, if there is one, is a scale factor. */
  predicate ScaleOrNone(pts: seq<Point>, name: string) {
    FindPoint(pts, name).Some? ==> pts[FindPoint(pts, name).value].tp.kind == SunsSf
  }

  /** For every model and every body: the resolver succeeds if and only if each name referred to is first borne by a
      scale factor, or by nothing, among the points shown at that length. */
  lemma ResolverIsExact(blocks: seq<Block>, body: seq<Byte>)
    requires Divisible(blocks)
    ensures var vs, pts := BodyValues(blocks, body), Shown(blocks, |body|);
            Stops(vs, |vs|) <==> forall p :: p in pts && Refers(p.tp) ==> ScaleOrNone(pts, p.tp.name.value)
  {
    hide BodyValues, Shown, FindValue, FindPoint, SeenType;
    ShownIsDecoded(blocks, body);
    var vs, pts := BodyValues(blocks, body), Shown(blocks, |body|);
    forall i | 0 <= i < |vs|
      ensures BadReference(vs, vs[i]) <==> Refers(pts[i].tp) && !ScaleOrNone(pts, pts[i].tp.name.value)
    {
      SeenRefers(pts[i].tp);
      if Refers(pts[i].tp) {
        var name := pts[i].tp.name.value;
        SameSearch(vs, pts, name);
        if FindPoint(pts, name).Some? { KindKept(vs, pts, FindPoint(pts, name).value); }
      }
    }
    hide BadReference, ScaleOrNone, Mirrors;
    if Stops(vs, |vs|) {
      forall p | p in pts && Refers(p.tp) ensures ScaleOrNone(pts, p.tp.name.value) {
        var i: nat :| i < |pts| && pts[i] == p;
        assert !BadReference(vs, vs[i]);
      }
    }
  }

  lemma KindKept(vs: seq<Value>, pts: seq<Point>, i: nat)
    requires Mirrors(vs, pts) && i < |pts|
    ensures vs[i].tp.kind == SunsSf <==> pts[i].tp.kind == SunsSf
  {}

  // ---- parts of a model ----

  lemma {:induction false} ShownConcat(a: seq<Block>, b: seq<Block>, len: nat)
    requires Divisible(a) && Divisible(b)
    ensures Divisible(a + b)
    ensures Shown(a + b, len) == Shown(a, len) + Shown(b, len - BytesOf(Shown(a, len)))
    decreases |a|
  {
    hide RegsOf, PointsOf, BlockPoints, BytesOf;
    NothingMirrors();
    assert forall x :: x in a + b ==> x in a || x in b;
    if a == [] {
      assert a + b == b;
    } else {
      var points := PointsOf(a[0].dps);
      var p := BlockPoints(points, a[0].repeating, RegsOf(points), len);
      var rest := len - BytesOf(p);
      assert (a + b)[1..] == a[1..] + b && (a + b)[0] == a[0];
      assert forall x :: x in a[1..] ==> x in a;
      ShownConcat(a[1..], b, rest);
      BytesSplit(p, Shown(a[1..], rest));
      JoinParts(p, Shown(a[1..], rest), Shown(b, rest - BytesOf(Shown(a[1..], rest))));
    }
  }

  lemma JoinParts(a: seq<Point>, b: seq<Point>, c: seq<Point>)
    ensures a + b + c == a + (b + c)
  {}

  /** n times the points of a record */
  function Copies(points: seq<Point>, n: nat): seq<Point>
    decreases n
  {
    if n == 0 then [] else points + Copies(points, n - 1)
  }

  lemma {:induction false} WholeCopies(points: seq<Point>, len: nat, n: nat)
    requires Nth(n, BytesOf(points), 0) <= len
    ensures RecordPoints(points, len, n) == Copies(points, n)
    ensures BytesOf(Copies(points, n)) == Nth(n, BytesOf(points), 0)
    decreases n
  {
    hide BytesOf, Nth, PointsIn;
    NothingMirrors();
    NthFirst(BytesOf(points), 0);
    if n > 0 {
      NthStep(n, BytesOf(points), 0);
      WholeCopies(points, len - BytesOf(points), n - 1);
      BytesSplit(points, Copies(points, n - 1));
    }
  }

  lemma {:induction false} CopiesHold(points: seq<Point>, n: nat, p: Point)
    ensures p in Copies(points, n) <==> n > 0 && p in points
    decreases n
  {
    if n > 0 { CopiesHold(points, n - 1, p); }
  }

  /** Blocks that do not repeat are shown whole when there are bytes for them. */
  lemma {:induction false} FixedShown(fixed: seq<Block>, len: nat)
    requires NoneRepeat(fixed) && BytesOf(Flat(fixed)) <= len
    ensures Divisible(fixed) && Shown(fixed, len) == Flat(fixed)
    decreases |fixed|
  {
    hide RegsOf, PointsOf, BytesOf, PointsIn;
    if fixed != [] {
      var points := PointsOf(fixed[0].dps);
      BytesSplit(points, Flat(fixed[1..]));
      assert RecordPoints(points, len, 1) == points + RecordPoints(points, len - BytesOf(points), 0) == points;
      FixedShown(fixed[1..], len - BytesOf(points));
    }
  }

  lemma {:induction false} BornePart(a: seq<Point>, b: seq<Point>, name: string)
    ensures Borne(a + b, name) <==> Borne(a, name) || Borne(b, name)
  {
    assert forall i :: 0 <= i < |a| ==> (a + b)[i] == a[i];
    assert forall i :: 0 <= i < |b| ==> (a + b)[|a| + i] == b[i];
  }

  /** Only which points there are matters, not how often or in which order. */
  lemma SamePoints(from: seq<Point>, pts: seq<Point>, from': seq<Point>, pts': seq<Point>)
    requires forall p :: p in from <==> p in from'
    requires forall p :: p in pts <==> p in pts'
    ensures Finds(from, pts) <==> Finds(from', pts')
  {
    forall name: string ensures Borne(pts, name) <==> Borne(pts', name) {
      if Borne(pts, name) {
        var i :| 0 <= i < |pts| && pts[i].name == name;
        assert pts[i] in pts';
      }
      if Borne(pts', name) {
        var i :| 0 <= i < |pts'| && pts'[i].name == name;
        assert pts'[i] in pts;
      }
    }
    hide Borne;
  }
}
