/** What the register list encodes, the model decodes: the same values, in order, with the records
    numbered from 1. */
module SunsRoundTrip {
  import opened ByteBuffer
  import opened CStrings
  import opened SunsValue
  import opened SunsModel
  import opened SunsDecode
  import opened SunsDataset
  import opened SunsLayout

  /** A value that goes with a point: of its type, with a binary form, and not too large to encode. */
  predicate Suits(pt: Point, v: TypedValue) {
    && v.tp.kind == pt.tp.kind && (pt.tp.kind == String ==> v.tp.len == pt.tp.len)
    && Codable(v.tp.kind) && Fits(v.tp, v.p) && PairSize(v.tp) <= BUFFER_SIZE
  }

  predicate SuitAll(points: seq<Point>, vs: seq<TypedValue>) {
    |points| == |vs| && forall i :: 0 <= i < |vs| ==> Suits(points[i], vs[i])
  }

  /** The value as it comes back: a string longer than its field is cut, nothing else changes. */
  function Back(pt: Point, v: TypedValue, index: nat, rep: bool): Value {
    var p := Clipped(v.tp, v.p);
    Value(pt.name, pt.tp, MetaOf(pt.tp.kind, p), p, index, rep)
  }

  function AllBack(points: seq<Point>, vs: seq<TypedValue>, index: nat, rep: bool): (r: seq<Value>)
    requires |points| == |vs|
    ensures |r| == |vs| && forall i :: 0 <= i < |vs| ==> r[i] == Back(points[i], vs[i], index, rep)
  {
    if points == [] then [] else [Back(points[0], vs[0], index, rep)] + AllBack(points[1..], vs[1..], index, rep)
  }

  /** records numbered from index on */
  function RecordsBack(points: seq<Point>, recs: seq<seq<TypedValue>>, index: nat): seq<Value>
    requires forall i :: 0 <= i < |recs| ==> |recs[i]| == |points|
  {
    if recs == [] then [] else AllBack(points, recs[0], index, true) + RecordsBack(points, recs[1..], index + 1)
  }

  function Concat<T>(ss: seq<seq<T>>): seq<T> {
    if ss == [] then [] else ss[0] + Concat(ss[1..])
  }

  lemma {:induction false} RegistersSplit(a: seq<TypedValue>, b: seq<TypedValue>)
    requires AllStorable(a) && AllStorable(b)
    ensures AllStorable(a + b) && Registers(a + b) == Registers(a) + Registers(b)
  {
    hide Storable, Bytes, PairSize;
    if b == [] {
      assert a + b == a;
    } else {
      var n := |b| - 1;
      assert (a + b)[..|a + b| - 1] == a + b[..n];
      assert forall v :: v in b[..n] ==> v in b;
      RegistersSplit(a, b[..n]);
      Assoc3Bytes(Registers(a), Registers(b[..n]), if PairSize(b[n].tp) > BUFFER_SIZE then [] else Bytes(b[n]));
    }
  }

  lemma Assoc3Bytes(a: seq<Byte>, b: seq<Byte>, c: seq<Byte>)
    ensures a + b + c == a + (b + c)
  {}

  lemma OneValue(pt: Point, v: TypedValue)
    requires Suits(pt, v)
    ensures Storable(v) && AllStorable([v]) && Registers([v]) == Encode(v.tp, v.p)
    ensures PairSize(pt.tp) == PairSize(v.tp) == |Registers([v])|
  {
    assert [v][..0] == [];
    hide Encode, Fits;
  }

  lemma ValueBack(pt: Point, v: TypedValue, index: nat, rep: bool)
    requires Suits(pt, v) && |Encode(v.tp, v.p)| == PairSize(pt.tp)
    ensures ValueOf(pt, Encode(v.tp, v.p), index, rep) == Back(pt, v, index, rep)
  {
    DecodeEncode(v.tp, v.p);
    hide Encode, Fits, Clipped, MetaOf;
  }

  lemma {:induction false} Storables(points: seq<Point>, vs: seq<TypedValue>)
    requires SuitAll(points, vs)
    ensures AllStorable(vs)
  {
    hide Fits, PairSize;
  }

  /** A run of values. */
  lemma {:induction false} RunBack(points: seq<Point>, vs: seq<TypedValue>, rest: seq<Byte>, index: nat, rep: bool)
    requires SuitAll(points, vs) && AllStorable(vs)
    ensures |Registers(vs)| == BytesOf(points)
    ensures PointValues(points, Registers(vs) + rest, index, rep) == AllBack(points, vs, index, rep)
    decreases |points|
  {
    hide Suits, Storable, ValueOf, PairSize, Back, Bytes, Encode;
    if points != [] {
      var v, tail := vs[0], vs[1..];
      OneValue(points[0], v);
      assert forall i :: 0 <= i < |tail| ==> tail[i] == vs[i + 1];
      Storables(points[1..], tail);
      RunBack(points[1..], tail, rest, index, rep);
      assert vs == [v] + tail;
      RegistersSplit([v], tail);
      var b, n := Registers(vs) + rest, PairSize(points[0].tp);
      Assoc3Bytes(Registers([v]), Registers(tail), rest);
      assert b[..n] == Registers([v]) && b[n..] == Registers(tail) + rest;
      ValueBack(points[0], v, index, rep);
    }
  }

  ghost predicate SuitRecords(points: seq<Point>, recs: seq<seq<TypedValue>>) {
    forall i :: 0 <= i < |recs| ==> SuitAll(points, recs[i])
  }

  lemma RecordLengths(points: seq<Point>, recs: seq<seq<TypedValue>>)
    requires SuitRecords(points, recs)
    ensures forall i :: 0 <= i < |recs| ==> |recs[i]| == |points|
  {}

  lemma {:induction false} ConcatStorable(points: seq<Point>, recs: seq<seq<TypedValue>>)
    requires SuitRecords(points, recs)
    ensures AllStorable(Concat(recs))
  {
    hide SuitAll;
    if recs != [] {
      Storables(points, recs[0]);
      assert forall i :: 0 <= i < |recs[1..]| ==> recs[1..][i] == recs[i + 1];
      ConcatStorable(points, recs[1..]);
    }
  }

  /** Any number of records. */
  lemma {:induction false} RecordRunBack(points: seq<Point>, recs: seq<seq<TypedValue>>, index: nat)
    requires SuitRecords(points, recs) && AllStorable(Concat(recs))
    requires forall i :: 0 <= i < |recs| ==> |recs[i]| == |points|
    ensures |Registers(Concat(recs))| == Nth(|recs|, BytesOf(points), 0)
    ensures Records(points, Registers(Concat(recs)), |recs|, index, true) == RecordsBack(points, recs, index)
    decreases |recs|
  {
    hide SuitAll, AllBack, PointValues, BytesOf, Nth, Storable, Records, RecordsBack, AllStorable;
    NthFirst(BytesOf(points), 0);
    if recs != [] {
      var first, tail := recs[0], recs[1..];
      assert forall i :: 0 <= i < |tail| ==> tail[i] == recs[i + 1];
      Storables(points, first);
      ConcatStorable(points, tail);
      RecordRunBack(points, tail, index + 1);
      RegistersSplit(first, Concat(tail));
      RunBack(points, first, Registers(Concat(tail)), index, true);
      NthStep(|recs|, BytesOf(points), 0);
      var b := Registers(Concat(recs));
      assert b[BytesOf(points)..] == Registers(Concat(tail));
      RecordStep(points, b, |recs|, index, true);
      RecordBackStep(points, recs, index);
    } else {
      NoRecordsBack(points, index);
      NoRecords(points, [], index, true);
    }
  }

  lemma RecordBackStep(points: seq<Point>, recs: seq<seq<TypedValue>>, index: nat)
    requires recs != [] && forall i :: 0 <= i < |recs| ==> |recs[i]| == |points|
    ensures forall i :: 0 <= i < |recs[1..]| ==> |recs[1..][i]| == |points|
    ensures RecordsBack(points, recs, index)
         == AllBack(points, recs[0], index, true) + RecordsBack(points, recs[1..], index + 1)
  {}

  /** A 16-bit word of the header. */
  function Word(n: nat): TypedValue {
    TypedValue(TypePair(UInt16, None, 0, 0), Bits(n))
  }

  lemma WordBytes(n: nat)
    requires n < 0x10000
    ensures AllStorable([Word(n)]) && |Registers([Word(n)])| == 2 && FromBE(Registers([Word(n)])) == n
  {
    assert Base(2) == 0x10000 by { assert Base(1) == 256; }
    OneValue(Point("", TypePair(UInt16, None, 0, 0)), Word(n));
    BigEndian(n, 2);
    hide Base, ToBE, FromBE, Registers;
  }

  lemma Header(did: nat, len: nat)
    requires did < 0x10000 && len < 0x10000
    ensures var vs := [Word(did), Word(len)];
            && AllStorable(vs) && |Registers(vs)| == 4
            && FromBE(Registers(vs)[..2]) == did && FromBE(Registers(vs)[2..4]) == len
  {
    hide FromBE, Registers, Word, Storable;
    WordBytes(did);
    WordBytes(len);
    assert [Word(did), Word(len)] == [Word(did)] + [Word(len)];
    RegistersSplit([Word(did)], [Word(len)]);
    var a, b := Registers([Word(did)]), Registers([Word(len)]);
    assert (a + b)[..2] == a && (a + b)[2..4] == b;
  }

  /** A data block as it is written down: did, length, the fixed values, any number of records. */
  function DataBlock(did: nat, len: nat, fixed: seq<TypedValue>, recs: seq<seq<TypedValue>>): seq<TypedValue> {
    [Word(did), Word(len)] + (fixed + Concat(recs))
  }

  /** The length in registers, for n records. */
  function BlockLength(blocks: seq<Block>, n: nat): nat
    requires blocks != []
  {
    RegsOf(Flat(Fixed(blocks))) + Nth(n, RegsOf(PointsOf(blocks[|blocks| - 1].dps)), 0)
  }

  /** Decoding the encoded block gives the values back. */
  lemma EncodeDecode(blocks: seq<Block>, did: nat, fixed: seq<TypedValue>, recs: seq<seq<TypedValue>>)
    requires blocks != [] && Divisible(blocks) && LastRepeats(blocks) && EvenStrings(blocks)
    requires blocks[|blocks| - 1].repeating || recs == []
    requires SuitAll(Flat(Fixed(blocks)), fixed) && SuitRecords(PointsOf(blocks[|blocks| - 1].dps), recs)
    requires did < 0x10000 && BlockLength(blocks, |recs|) < 0x10000
    ensures var len := BlockLength(blocks, |recs|);
            var vs := DataBlock(did, len, fixed, recs);
            && AllStorable(vs) && |Registers(vs)| == 4 + 2 * len && DidOf(Registers(vs)) == did
            && LenOf(Registers(vs)) == len
            && (forall i :: 0 <= i < |recs| ==> |recs[i]| == |PointsOf(blocks[|blocks| - 1].dps)|)
            && BodyValues(blocks, Registers(vs)[4..])
               == AllBack(Flat(Fixed(blocks)), fixed, 1, false)
                  + RecordsBack(PointsOf(blocks[|blocks| - 1].dps), recs, 1)
  {
    hide BodyValues, Registers, Storable, Suits, SuitAll, RecordsBack, AllBack, RegsOf, PointsOf, Flat, Even,
      EvenStrings, Divisible, LastRepeats, Nth, FromBE, SuitRecords, AllStorable, BytesOf, Concat;
    var len := BlockLength(blocks, |recs|);
    var flat, points := Flat(Fixed(blocks)), PointsOf(blocks[|blocks| - 1].dps);
    Header(did, len);
    Storables(flat, fixed);
    ConcatStorable(points, recs);
    RecordLengths(points, recs);
    var head, body := [Word(did), Word(len)], Registers(fixed) + Registers(Concat(recs));
    RegistersSplit(fixed, Concat(recs));
    RegistersSplit(head, fixed + Concat(recs));
    Joined(Registers(head), body);
    RunBack(flat, fixed, Registers(Concat(recs)), 1, false);
    RecordRunBack(points, recs, 1);
    EvenParts(blocks);
    FlatEven(Fixed(blocks));
    RegsCover(points);
    TwiceNth(|recs|, RegsOf(points), 0);
    BodyBack(blocks, fixed, recs, body);
  }

  lemma Joined(head: seq<Byte>, body: seq<Byte>)
    requires |head| == 4
    ensures var b := head + body; b[4..] == body && b[..2] == head[..2] && b[2..4] == head[2..4]
  {}

  lemma BodyBack(blocks: seq<Block>, fixed: seq<TypedValue>, recs: seq<seq<TypedValue>>, body: seq<Byte>)
    requires blocks != [] && Divisible(blocks) && LastRepeats(blocks) && (blocks[|blocks| - 1].repeating || recs == [])
    requires forall i :: 0 <= i < |recs| ==> |recs[i]| == |PointsOf(blocks[|blocks| - 1].dps)|
    requires var flat, points := Flat(Fixed(blocks)), PointsOf(blocks[|blocks| - 1].dps);
             && |flat| == |fixed| && BytesOf(flat) <= |body|
             && |body| - BytesOf(flat) == 2 * Nth(|recs|, RegsOf(points), 0)
             && PointValues(flat, body, 1, false) == AllBack(flat, fixed, 1, false)
             && Records(points, body[BytesOf(flat)..], |recs|, 1, true) == RecordsBack(points, recs, 1)
    ensures BodyValues(blocks, body)
         == AllBack(Flat(Fixed(blocks)), fixed, 1, false) + RecordsBack(PointsOf(blocks[|blocks| - 1].dps), recs, 1)
  {
    hide BodyValues, RecordsBack, AllBack, RegsOf, PointsOf, Flat, LastRepeats, BytesOf, PointValues, Records, Nth;
    BodyShape(blocks, body);
    if blocks[|blocks| - 1].repeating {
      WholeRecords(|recs|, RegsOf(PointsOf(blocks[|blocks| - 1].dps)));
    } else {
      NoRecordsBack(PointsOf(blocks[|blocks| - 1].dps), 1);
    }
  }

  lemma NoRecordsBack(points: seq<Point>, index: nat)
    ensures RecordsBack(points, [], index) == []
  {}
}
