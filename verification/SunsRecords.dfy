/** Scale factors inside a repeating block: every record is scaled with the factor of the first. */
module SunsRecords {
  import opened ByteBuffer
  import opened CStrings
  import opened SunsValue
  import opened SunsModel
  import opened SunsDecode
  import opened ScaleFactors
  import opened SunsDataset
  import opened SunsLayout
  import opened SunsScaling

  /** The points of the last block. */
  function LastPoints(blocks: seq<Block>): seq<Point>
    requires blocks != []
  {
    PointsOf(blocks[|blocks| - 1].dps)
  }

  /** The number of records in a body, and where point k of record i is in the dataset. */
  function RecordsIn(blocks: seq<Block>, body: seq<Byte>): nat
    requires blocks != [] && RegsOf(LastPoints(blocks)) > 0 && BytesOf(Flat(Fixed(blocks))) <= |body|
  {
    (|body| - BytesOf(Flat(Fixed(blocks)))) / RegsOf(LastPoints(blocks)) / 2
  }

  function Place(blocks: seq<Block>, i: nat, k: nat): nat
    requires blocks != []
  {
    |Flat(Fixed(blocks))| + Nth(i, |LastPoints(blocks)|, k)
  }

  /** A model whose point k in the repeating block has point m of that block as its scale factor. */
  ghost predicate ScaledInside(blocks: seq<Block>, k: nat, m: nat) {
    && blocks != [] && Divisible(blocks) && LastRepeats(blocks) && blocks[|blocks| - 1].repeating
    && var points := LastPoints(blocks);
    && k < |points| && m < |points| && Refers(points[k].tp) && points[k].tp.name == Some(points[m].name)
    && points[m].tp.kind == SunsSf && FindInModel(blocks, points[m].name) == Some(Found(points[m], true))
    && FindPoint(points, points[m].name) == Some(m)
  }

  /** Value k of record i. */
  lemma RecordValue(blocks: seq<Block>, body: seq<Byte>, i: nat, k: nat)
    requires blocks != [] && Divisible(blocks) && LastRepeats(blocks) && blocks[|blocks| - 1].repeating
    requires RegsOf(LastPoints(blocks)) > 0 && BytesOf(Flat(Fixed(blocks))) <= |body|
    requires i < RecordsIn(blocks, body) && k < |LastPoints(blocks)|
    ensures Place(blocks, i, k) < |BodyValues(blocks, body)|
    ensures Shows(BodyValues(blocks, body)[Place(blocks, i, k)], LastPoints(blocks)[k], i + 1)
  {
    hide BodyValues, BytesOf, RegsOf, PointValues, Records, Flat, Shows, Nth;
    BodyShape(blocks, body);
    var flat, points, n := Flat(Fixed(blocks)), LastPoints(blocks), RecordsIn(blocks, body);
    var rest := body[BytesOf(flat)..];
    RegsCover(points);
    CountFits(|rest|, RegsOf(points), BytesOf(points));
    RecordAt(points, rest, n, 1, true, i, k);
    PointsShown(points, rest[Nth(i, BytesOf(points), 0)..], i + 1, true);
    WholeRecord(flat, body, 1, false);
    Tail(PointValues(flat, body, 1, false), Records(points, rest, n, 1, true), Nth(i, |points|, k));
  }

  lemma Tail<T>(a: seq<T>, b: seq<T>, k: nat)
    requires k < |b|
    ensures |a| + k < |a + b| && (a + b)[|a| + k] == b[k]
  {}

  /** The scale factor found from record i is that of the first record: it is the record's own if and only if
      i is 0. The exponent taken is the own one if and only if both records hold the same exponent. */
  lemma RecordExponent(blocks: seq<Block>, body: seq<Byte>, i: nat, k: nat, m: nat)
    requires ScaledInside(blocks, k, m) && BytesOf(Flat(Fixed(blocks))) <= |body|
    requires RegsOf(LastPoints(blocks)) > 0 && i < RecordsIn(blocks, body)
    ensures var vs := BodyValues(blocks, body);
            var at, own, first := Place(blocks, i, k), Place(blocks, i, m), Place(blocks, 0, m);
            && at < |vs| && own < |vs| && first < |vs| && FindValue(vs, LastPoints(blocks)[m].name) == Some(first)
            && vs[at].index == vs[own].index == i + 1 && (first == own <==> i == 0)
            && !BadReference(vs, vs[at]) && Scaled(vs, vs[at]).tp.sf == Exponent(vs[first])
            && (Scaled(vs, vs[at]).tp.sf == Exponent(vs[own]) <==> Exponent(vs[first]) == Exponent(vs[own]))
  {
    hide BodyValues, BytesOf, RegsOf, FindInModel, FindPoint, FindValue, Exponent, Flat, Nth, PointsOf;
    var vs, points := BodyValues(blocks, body), LastPoints(blocks);
    RecordValue(blocks, body, i, k);
    RecordValue(blocks, body, i, m);
    RecordValue(blocks, body, 0, m);
    FirstRecord(blocks, body, m);
    SameRecord(i, |points|, m);
  }

  lemma SameRecord(i: nat, n: nat, m: nat)
    requires m < n
    ensures Nth(0, n, m) == Nth(i, n, m) <==> i == 0
  {
    if i > 0 { assert i * n >= n; }
  }

  lemma FirstRecord(blocks: seq<Block>, body: seq<Byte>, m: nat)
    requires blocks != [] && Divisible(blocks) && LastRepeats(blocks) && blocks[|blocks| - 1].repeating
    requires RegsOf(LastPoints(blocks)) > 0 && BytesOf(Flat(Fixed(blocks))) <= |body|
    requires 0 < RecordsIn(blocks, body) && m < |LastPoints(blocks)|
             && FindPoint(LastPoints(blocks), LastPoints(blocks)[m].name) == Some(m)
    requires FindInModel(blocks, LastPoints(blocks)[m].name) == Some(Found(LastPoints(blocks)[m], true))
    ensures FindValue(BodyValues(blocks, body), LastPoints(blocks)[m].name) == Some(Place(blocks, 0, m))
  {
    hide BodyValues, BytesOf, RegsOf, FindInModel, FindPoint, FindValue, Flat, Shows, PointsOf;
    var points, name := LastPoints(blocks), LastPoints(blocks)[m].name;
    RecordValue(blocks, body, 0, m);
    DatasetOpens(blocks, body);
    FindFlat(blocks, name);
    FixedIsPrefix(blocks);
    FindSplit(Flat(Fixed(blocks)), points, name);
    assert Fixed(blocks) != blocks;
    FirstShown(BodyValues(blocks, body), Flat(blocks), name);
  }

  /** All records get their own exponents if and only if all hold the same. */
  lemma OwnExponents(blocks: seq<Block>, body: seq<Byte>, k: nat, m: nat)
    requires ScaledInside(blocks, k, m) && BytesOf(Flat(Fixed(blocks))) <= |body| && RegsOf(LastPoints(blocks)) > 0
    ensures var vs, n := BodyValues(blocks, body), RecordsIn(blocks, body);
            && (forall i :: 0 <= i < n ==> Place(blocks, i, k) < |vs| && Place(blocks, i, m) < |vs|)
            && ((forall i :: 0 <= i < n ==>
                               Scaled(vs, vs[Place(blocks, i, k)]).tp.sf == Exponent(vs[Place(blocks, i, m)]))
                <==> forall i :: 0 <= i < n ==> Exponent(vs[Place(blocks, i, m)]) == Exponent(vs[Place(blocks, 0, m)]))
  {
    hide BodyValues, BytesOf, RegsOf, Exponent, Flat, Nth, PointsOf, Scaled, FindInModel, FindPoint;
    var vs, n := BodyValues(blocks, body), RecordsIn(blocks, body);
    forall i | 0 <= i < n
      ensures Place(blocks, i, k) < |vs| && Place(blocks, i, m) < |vs| && Place(blocks, 0, m) < |vs|
      ensures Scaled(vs, vs[Place(blocks, i, k)]).tp.sf == Exponent(vs[Place(blocks, 0, m)])
    {
      RecordExponent(blocks, body, i, k, m);
    }
  }

  const X: Point := Point("x", TypePair(Int16, Some("s"), 0, 0))
  const S: Point := Point("s", TypePair(SunsSf, None, 0, 0))

  /** Two records of a value and its scale factor, 7 and 1, then 7 and 2: the second value is given exponent 1. */
  lemma SecondRecordWrong(b: Block)
    requires b.repeating && PointsOf(b.dps) == [X, S]
    ensures Divisible([b])
    ensures var vs := BodyValues([b], [0, 7, 0, 1, 0, 7, 0, 2]);
            && |vs| == 4 && Exponent(vs[1]) == 1 && Exponent(vs[3]) == 2
            && Scaled(vs, vs[0]).tp.sf == 1 && Scaled(vs, vs[2]).tp.sf == 1
  {
    hide PointValues, BytesOf, RegsOf, Records, FindValue, BodyValues, PointsOf, Exponent, ValueOf;
    var body: seq<Byte> := [0, 7, 0, 1, 0, 7, 0, 2];
    TwoPoints();
    LastBlock(b, body);
    TwoRecords(body);
    var vs := BodyValues([b], body);
    assert FindValue(vs, "s") == Some(1) by {
      assert vs[0].name == "x" && vs[1].name == "s";
    }
  }

  lemma TwoPoints()
    ensures BytesOf([X, S]) == 4 && RegsOf([X, S]) == 2 && BytesOf([X]) == 2
  {
    assert [X, S] == [X] + [S];
    OnePoint(X);
    OnePoint(S);
    BytesSplit([X], [S]);
    RegsCover([X, S]);
    hide BytesOf, RegsOf;
  }

  lemma TwoRecords(body: seq<Byte>)
    requires body == [0, 7, 0, 1, 0, 7, 0, 2]
    ensures var vs := Records([X, S], body, 2, 1, true);
            && |vs| == 4 && Shows(vs[0], X, 1) && Shows(vs[1], S, 1) && Shows(vs[2], X, 2) && Shows(vs[3], S, 2)
            && Exponent(vs[1]) == 1 && Exponent(vs[3]) == 2
  {
    hide PointValues, BytesOf, Records, Exponent, Shows;
    TwoPoints();
    var rest := body[4..];
    RecordStep([X, S], body, 2, 1, true);
    RecordStep([X, S], rest, 1, 2, true);
    NoRecords([X, S], rest[4..], 3, true);
    PairValues(body, 1, 1);
    PairValues(rest, 2, 2);
    assert PointValues([X, S], rest, 2, true) + [] == PointValues([X, S], rest, 2, true);
  }

  lemma PairValues(b: seq<Byte>, s: Byte, index: nat)
    requires |b| >= 4 && b[2] == 0 && b[3] == s && s < 0x80
    ensures var vs := PointValues([X, S], b, index, true);
            |vs| == 2 && Shows(vs[0], X, index) && Shows(vs[1], S, index) && Exponent(vs[1]) == s
  {
    hide PointValues, BytesOf, FromBE;
    TwoPoints();
    WholeRecord([X, S], b, index, true);
    PointsShown([X, S], b, index, true);
    PointAt([X, S], b, index, true, 1);
    assert [X, S][..1] == [X];
    TwoRead(b[2..4]);
  }
}
