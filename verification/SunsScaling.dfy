/** The static check of scale factor references is sound: in every dataset that is decoded by a checked
    model, every reference finds its value. */
module SunsScaling {
  import opened ByteBuffer
  import opened CStrings
  import opened SunsValue
  import opened SunsModel
  import opened SunsDecode
  import opened ScaleFactors
  import opened SunsDataset
  import opened SunsLayout

  /** The type that a value of a point has; unsupported types leave none. */
  function SeenType(tp: TypePair): TypePair {
    if tp.kind in {Null, Undef} then NO_TYPE else tp
  }

  predicate Shows(v: Value, pt: Point, index: nat) {
    v.name == pt.name && v.tp == SeenType(pt.tp) && v.index == index
  }

  /** the values begin with one for each point */
  ghost predicate Opens(vs: seq<Value>, points: seq<Point>, index: nat) {
    |points| <= |vs| && forall k :: 0 <= k < |points| ==> Shows(vs[k], points[k], index)
  }

  /** v is a value of one of the points. */
  predicate ShownBy(v: Value, points: seq<Point>) {
    exists k :: 0 <= k < |points| && Shows(v, points[k], v.index)
  }

  lemma {:induction false} PointsShown(points: seq<Point>, b: seq<Byte>, index: nat, rep: bool)
    requires BytesOf(points) <= |b|
    ensures Opens(PointValues(points, b, index, rep), points, index)
  {
    hide PairSize, SeenType, BytesOf, PointValues;
    forall k | 0 <= k < |points| ensures Shows(PointValues(points, b, index, rep)[k], points[k], index) {
      PointAt(points, b, index, rep, k);
      var at := BytesOf(points[..k]);
      ValueShows(points[k], b[at..at + PairSize(points[k].tp)], index, rep);
    }
  }

  lemma ValueShows(pt: Point, b: seq<Byte>, index: nat, rep: bool)
    requires |b| == PairSize(pt.tp)
    ensures Shows(ValueOf(pt, b, index, rep), pt, index)
  {
    hide Decode, MetaOf;
  }

  /** Every value of a number of whole records is one of a point. */
  lemma {:induction false} RecordsShown(points: seq<Point>, b: seq<Byte>, n: nat, index: nat, rep: bool, v: Value)
    requires Nth(n, BytesOf(points), 0) <= |b| && v in Records(points, b, n, index, rep)
    ensures ShownBy(v, points)
    decreases n
  {
    hide PointValues, BytesOf, Nth, SeenType;
    if n > 0 {
      NthStep(n, BytesOf(points), 0);
      PointsShown(points, b, index, rep);
      WholeRecord(points, b, index, rep);
      if v !in PointValues(points, b, index, rep) {
        RecordsShown(points, b[BytesOf(points)..], n - 1, index + 1, rep, v);
      }
    }
  }

  /** A search among values that open with points finds what a search among the points finds. */
  lemma FirstShown(vs: seq<Value>, points: seq<Point>, name: string)
    requires Opens(vs, points, 1) && FindPoint(points, name).Some?
    ensures FindValue(vs, name) == FindPoint(points, name)
  {
    var j, r := FindPoint(points, name).value, FindValue(vs, name);
    hide FindPoint, FindValue, SeenType;
    assert Shows(vs[j], points[j], 1);
    assert forall i :: 0 <= i < j ==> Shows(vs[i], points[i], 1);
    if r.Some? && r.value < j {
      assert false;
    }
  }

  // ---- the model as one run of points ----

  lemma FindSplit(a: seq<Point>, b: seq<Point>, name: string)
    ensures var f := FindPoint(a, name);
            FindPoint(a + b, name)
            == if f.Some? then f else match FindPoint(b, name) case Some(k) => Some(|a| + k) case None => None
  {
    var f, g, r := FindPoint(a, name), FindPoint(b, name), FindPoint(a + b, name);
    hide FindPoint;
    assert forall i :: 0 <= i < |b| ==> (a + b)[|a| + i] == b[i];
    assert f.Some? ==> (a + b)[f.value].name == name;
    assert g.Some? ==> (a + b)[|a| + g.value].name == name;
    assert r.Some? ==> (if r.value < |a| then a[r.value] else b[r.value - |a|]).name == name;
  }

  lemma {:induction false} FindFlat(blocks: seq<Block>, name: string)
    requires LastRepeats(blocks)
    ensures var f, j := FindInModel(blocks, name), FindPoint(Flat(blocks), name);
            && (f.Some? <==> j.Some?)
            && (j.Some? ==>
                  && f.value.point == Flat(blocks)[j.value]
                  && (f.value.repeating <==> j.value >= |Flat(Fixed(blocks))|))
  {
    hide FindPoint, PointsOf, Fixed;
    if blocks != [] {
      var points, tail := PointsOf(blocks[0].dps), blocks[1..];
      FindSplit(points, Flat(tail), name);
      assert forall i :: 0 <= i < |tail| ==> tail[i] == blocks[i + 1];
      FindFlat(tail, name);
      FixedTail(blocks);
    }
  }

  lemma FixedTail(blocks: seq<Block>)
    requires blocks != [] && LastRepeats(blocks)
    ensures blocks[0].repeating ==> Flat(Fixed(blocks)) == []
    ensures !blocks[0].repeating ==> Flat(Fixed(blocks)) == PointsOf(blocks[0].dps) + Flat(Fixed(blocks[1..]))
    ensures Flat(blocks) == PointsOf(blocks[0].dps) + Flat(blocks[1..])
  {
    hide PointsOf, Fixed;
    FixedTailBlocks(blocks);
  }

  lemma FixedTailBlocks(blocks: seq<Block>)
    requires blocks != [] && LastRepeats(blocks)
    ensures blocks[0].repeating ==> Fixed(blocks) == []
    ensures !blocks[0].repeating ==>
              Fixed(blocks) != [] && Fixed(blocks)[0] == blocks[0] && Fixed(blocks)[1..] == Fixed(blocks[1..])
  {}

  /** Every point of the run is in one of the blocks. */
  lemma {:induction false} FlatMember(blocks: seq<Block>, j: nat)
    requires j < |Flat(blocks)|
    ensures exists i, k :: 0 <= i < |blocks| && 0 <= k < |blocks[i].dps| && Flat(blocks)[j] == blocks[i].dps[k].point
  {
    var points := PointsOf(blocks[0].dps);
    if j < |points| {
      assert Flat(blocks)[j] == blocks[0].dps[j].point;
    } else {
      FlatMember(blocks[1..], j - |points|);
      var i, k :| 0 <= i < |blocks[1..]| && 0 <= k < |blocks[1..][i].dps|
                  && Flat(blocks[1..])[j - |points|] == blocks[1..][i].dps[k].point;
      assert blocks[1..][i] == blocks[i + 1];
      assert Flat(blocks)[j] == blocks[i + 1].dps[k].point;
    }
  }

  /** What a checked model says of a value, by the part that the value is from. */
  lemma CheckedPoint(blocks: seq<Block>, i: nat, k: nat)
    requires ScaleFactorsOk(blocks) && i < |blocks| && k < |blocks[i].dps|
    ensures ReferenceOk(blocks, blocks[i].repeating, blocks[i].dps[k].point)
  {
    assert blocks[i] in blocks;
    hide ReferenceOk;
  }

  // ---- the dataset ----

  /** A reference from the decoded value v finds the value of the first point of that name, with index 1. */
  ghost predicate Resolves(blocks: seq<Block>, vs: seq<Value>, name: string) {
    && FindInModel(blocks, name).Some? && FindValue(vs, name).Some?
    && Shows(vs[FindValue(vs, name).value], FindInModel(blocks, name).value.point, 1)
  }

  lemma ResolvesIn(blocks: seq<Block>, vs: seq<Value>, name: string)
    requires LastRepeats(blocks) && FindInModel(blocks, name).Some?
    requires Opens(vs, Flat(Fixed(blocks)), 1)
    requires FindInModel(blocks, name).value.repeating ==> Opens(vs, Flat(blocks), 1)
    ensures Resolves(blocks, vs, name)
  {
    hide FindPoint, FindValue, FindInModel, Flat, Shows;
    FindFlat(blocks, name);
    FixedIsPrefix(blocks);
    var j := FindPoint(Flat(blocks), name).value;
    if FindInModel(blocks, name).value.repeating {
      FirstShown(vs, Flat(blocks), name);
    } else {
      FindPrefix(Flat(Fixed(blocks)), Flat(blocks), name);
      FirstShown(vs, Flat(Fixed(blocks)), name);
    }
  }

  lemma FixedIsPrefix(blocks: seq<Block>)
    ensures Flat(Fixed(blocks)) <= Flat(blocks)
    ensures Fixed(blocks) != blocks ==> Flat(blocks) == Flat(Fixed(blocks)) + PointsOf(blocks[|blocks| - 1].dps)
  {
    hide Flat, PointsOf, Fixed;
    FixedEnds(blocks);
    if Fixed(blocks) != blocks {
      var last := blocks[|blocks| - 1];
      FlatSplit(Fixed(blocks), [last]);
      FlatOne(last);
    }
  }

  lemma FixedEnds(blocks: seq<Block>)
    ensures Fixed(blocks) != blocks ==> blocks != [] && blocks == Fixed(blocks) + [blocks[|blocks| - 1]]
  {}

  lemma FlatOne(b: Block)
    ensures Flat([b]) == PointsOf(b.dps)
  {
    assert [b][1..] == [] && Flat([b]) == PointsOf(b.dps) + [];
  }

  lemma FindPrefix(a: seq<Point>, b: seq<Point>, name: string)
    requires a <= b && FindPoint(b, name).Some? && FindPoint(b, name).value < |a|
    ensures FindPoint(a, name) == FindPoint(b, name)
  {
    assert b == a + b[|a|..];
    FindSplit(a, b[|a|..], name);
  }

  /** The fixed part opens the dataset; so does the whole model when there is a record. */
  lemma DatasetOpens(blocks: seq<Block>, body: seq<Byte>)
    requires Divisible(blocks) && LastRepeats(blocks) && BytesOf(Flat(Fixed(blocks))) <= |body|
    ensures var vs, flat := BodyValues(blocks, body), Flat(Fixed(blocks));
            && Opens(vs, flat, 1)
            && (|vs| > |flat| ==> Fixed(blocks) != blocks && Opens(vs, Flat(blocks), 1))
            && forall v :: v in vs[|flat|..] ==> blocks != [] && ShownBy(v, PointsOf(blocks[|blocks| - 1].dps))
  {
    hide BodyValues, BytesOf, RegsOf, PointValues, Records, Flat, Shows, ShownBy, Nth, TotalRegs;
    BodyShape(blocks, body);
    var flat := Flat(Fixed(blocks));
    var base := BytesOf(flat);
    PointsShown(flat, body, 1, false);
    WholeRecord(flat, body, 1, false);
    if Fixed(blocks) != blocks {
      var points := PointsOf(blocks[|blocks| - 1].dps);
      FixedIsPrefix(blocks);
      FixedPart(blocks);
      var n := (|body| - base) / RegsOf(points) / 2;
      RegsCover(points);
      CountFits(|body| - base, RegsOf(points), BytesOf(points));
      RecordsOpen(points, body[base..], n);
      OpensBoth(PointValues(flat, body, 1, false), flat, Records(points, body[base..], n, 1, true), points);
      forall v | v in Records(points, body[base..], n, 1, true)
        ensures ShownBy(v, points)
      {
        RecordsShown(points, body[base..], n, 1, true, v);
      }
    }
  }

  lemma CountFits(x: nat, r: nat, size: nat)
    requires r > 0 && size <= 2 * r
    ensures Nth(x / r / 2, size, 0) <= x
  {
    var q, n := x / r, x / r / 2;
    assert q * r <= x;
    TimesLe(2 * n, q, r);
    TimesLe(size, 2 * r, n);
  }

  lemma TimesLe(a: nat, b: nat, c: nat)
    requires a <= b
    ensures a * c <= b * c
  {}

  lemma RecordsOpen(points: seq<Point>, b: seq<Byte>, n: nat)
    requires Nth(n, BytesOf(points), 0) <= |b|
    ensures n == 0 ==> Records(points, b, n, 1, true) == []
    ensures n > 0 ==> Opens(Records(points, b, n, 1, true), points, 1)
  {
    hide PointValues, BytesOf, Shows, Nth;
    if n > 0 {
      NthStep(n, BytesOf(points), 0);
      PointsShown(points, b, 1, true);
      WholeRecord(points, b, 1, true);
    }
  }

  lemma OpensBoth(a: seq<Value>, p: seq<Point>, b: seq<Value>, q: seq<Point>)
    requires Opens(a, p, 1) && |a| == |p|
    ensures Opens(a + b, p, 1) && (Opens(b, q, 1) ==> Opens(a + b, p + q, 1))
  {
    hide Shows;
  }

  /** The point that a referring value is of. A value of the repeating block shows that there is a record. */
  lemma Origin(blocks: seq<Block>, body: seq<Byte>, v: Value) returns (i: nat, k: nat)
    requires Divisible(blocks) && LastRepeats(blocks) && BytesOf(Flat(Fixed(blocks))) <= |body|
    requires v in BodyValues(blocks, body) && Refers(v.tp)
    ensures i < |blocks| && k < |blocks[i].dps| && v.tp == blocks[i].dps[k].point.tp
    ensures Opens(BodyValues(blocks, body), Flat(Fixed(blocks)), 1)
    ensures blocks[i].repeating ==> Opens(BodyValues(blocks, body), Flat(blocks), 1)
  {
    hide BodyValues, BytesOf, Divisible, Shows, Flat;
    var vs, flat := BodyValues(blocks, body), Flat(Fixed(blocks));
    DatasetOpens(blocks, body);
    var j: nat :| j < |vs| && vs[j] == v;
    if j < |flat| {
      i, k := FixedPointOf(blocks, j);
      ShownRefers(v, flat[j], 1);
    } else {
      assert v == vs[|flat|..][j - |flat|] && v in vs[|flat|..];
      var points := PointsOf(blocks[|blocks| - 1].dps);
      i := |blocks| - 1;
      k :| k < |points| && Shows(v, points[k], v.index);
      ShownRefers(v, points[k], v.index);
    }
  }

  /** Soundness of the static check, for any number of records, where only the last block repeats. */
  lemma CheckedReferences(blocks: seq<Block>, body: seq<Byte>, v: Value)
    requires Divisible(blocks) && LastRepeats(blocks) && ScaleFactorsOk(blocks)
    requires BytesOf(Flat(Fixed(blocks))) <= |body|
    requires v in BodyValues(blocks, body) && Refers(v.tp)
    ensures Resolves(blocks, BodyValues(blocks, body), v.tp.name.value)
  {
    hide BodyValues, BytesOf, ScaleFactorsOk, FindInModel, FindValue, Divisible, LastRepeats, Opens, Flat;
    var i, k := Origin(blocks, body, v);
    CheckedPoint(blocks, i, k);
    ResolvesIn(blocks, BodyValues(blocks, body), v.tp.name.value);
  }

  lemma FixedPointOf(blocks: seq<Block>, j: nat) returns (i: nat, k: nat)
    requires LastRepeats(blocks) && j < |Flat(Fixed(blocks))|
    ensures i < |blocks| && k < |blocks[i].dps| && !blocks[i].repeating
            && Flat(Fixed(blocks))[j] == blocks[i].dps[k].point
  {
    FlatMember(Fixed(blocks), j);
    i, k :| i < |Fixed(blocks)| && k < |Fixed(blocks)[i].dps|
            && Flat(Fixed(blocks))[j] == Fixed(blocks)[i].dps[k].point;
    hide Flat;
    FixedPart(blocks);
  }

  lemma ShownRefers(v: Value, pt: Point, index: nat)
    requires Shows(v, pt, index) && Refers(v.tp)
    ensures v.tp == pt.tp
  {}

  /** In a checked model the resolver succeeds if and only if every name a decoded value refers to is,
      in the model, first borne by a scale factor. It then takes that point's value in the first record. */
  lemma ResolverSucceeds(blocks: seq<Block>, body: seq<Byte>)
    requires Divisible(blocks) && LastRepeats(blocks) && ScaleFactorsOk(blocks)
    requires BytesOf(Flat(Fixed(blocks))) <= |body|
    ensures var vs := BodyValues(blocks, body);
            Stops(vs, |vs|)
            <==> forall v :: v in vs && Refers(v.tp) ==>
                               && FindInModel(blocks, v.tp.name.value).Some?
                               && FindInModel(blocks, v.tp.name.value).value.point.tp.kind == SunsSf
  {
    hide BodyValues, BytesOf, ScaleFactorsOk, FindInModel, FindValue, Divisible, LastRepeats, Flat;
    var vs := BodyValues(blocks, body);
    forall v | v in vs && Refers(v.tp)
      ensures BadReference(vs, v) <==> !(FindInModel(blocks, v.tp.name.value).Some?
                                         && FindInModel(blocks, v.tp.name.value).value.point.tp.kind == SunsSf)
    {
      CheckedReferences(blocks, body, v);
    }
    hide Refers;
    assert forall v :: v in vs && !Refers(v.tp) ==> !BadReference(vs, v);
  }
}
