/** Decoding of a device's register block by a model. */
module SunsDecode {
  import opened ByteBuffer
  import opened CStrings
  import opened SunsValue
  import opened SunsModel

  datatype Meta = Unset | Implemented | NotImplemented

  /** A decoded value. */
  datatype Value = Value(name: string, tp: TypePair, meta: Meta, p: Payload, index: nat, repeating: bool)

  class Dataset {
    const did: nat
    var values: seq<Value>

    constructor (did: nat)
      ensures this.did == did && values == []
    {
      this.did := did;
      values := [];
    }
  }

  // ---- one value ----

  /** suns_check_not_implemented */
  function MetaOf(kind: Type, p: Payload): Meta {
    if !p.Bits? then Implemented
    else
      var missing := match kind
        case Int16 | SunsSf => p.n == 0x8000
        case UInt16 | Enum16 | Bitfield16 => p.n == 0xFFFF
        case Int32 => p.n == 0x8000_0000
        case UInt32 | Enum32 | Bitfield32 => p.n == 0xFFFF_FFFF
        case Int64 => p.n == 0x8000_0000_0000_0000
        case UInt64 => p.n == 0xFFFF_FFFF_FFFF_FFFF
        case Float32 => p.n % 0x8000_0000 > 0x7F80_0000
        case Float64 => p.n % 0x8000_0000_0000_0000 > 0x7FF0_0000_0000_0000
        case IPv4 => p.n == 0
        case _ => false;
      if missing then NotImplemented else Implemented
  }

  const NO_TYPE := TypePair(Null, None, 0, 0)

  /** The value of a point in a field of bytes. An unsupported type leaves an empty value. */
  function ValueOf(pt: Point, b: seq<Byte>, index: nat, repeating: bool): Value
    requires |b| == PairSize(pt.tp)
  {
    if pt.tp.kind in {Null, Undef} then Value(pt.name, NO_TYPE, Unset, Nothing, index, repeating)
    else
      var p := Decode(pt.tp, b);
      Value(pt.name, pt.tp, MetaOf(pt.tp.kind, p), p, index, repeating)
  }

  /** suns_buf_to_value */
  method BufToValue(buf: seq<Byte>, at: nat, pt: Point, index: nat, repeating: bool) returns (v: Value)
    requires at + PairSize(pt.tp) <= |buf|
    ensures v == ValueOf(pt, buf[at..at + PairSize(pt.tp)], index, repeating)
    ensures pt.tp.kind in {Int16, UInt16, Acc16, Enum16, Bitfield16, SunsSf} ==>
              v.p == Bits(0x100 * buf[at] as int + buf[at + 1] as int)
    ensures pt.tp.kind in {Int32, UInt32, Float32, Acc32, Enum32, Bitfield32, IPv4} ==>
              v.p == Bits(0x100_0000 * buf[at] as int + 0x1_0000 * buf[at + 1] as int + 0x100 * buf[at + 2] as int
                          + buf[at + 3] as int)
    ensures pt.tp.kind in {Int64, UInt64, Float64, Acc64} ==>
              v.p == Bits(0x100_0000_0000_0000 * buf[at] as int + 0x1_0000_0000_0000 * buf[at + 1] as int
                          + 0x100_0000_0000 * buf[at + 2] as int + 0x1_0000_0000 * buf[at + 3] as int
                          + 0x100_0000 * buf[at + 4] as int + 0x1_0000 * buf[at + 5] as int
                          + 0x100 * buf[at + 6] as int + buf[at + 7] as int)
  {
    hide MetaOf, FromBE, UpToNul;
    NumberRead(pt.tp, buf[at..at + PairSize(pt.tp)]);
    v := Value(pt.name, NO_TYPE, Unset, Nothing, index, repeating);
    match pt.tp.kind {
      case Int16 | UInt16 | Acc16 | Enum16 | Bitfield16 | SunsSf =>
        v := v.(p := Bits(FromBE(buf[at..at + 2])));
      case Int32 | UInt32 | Float32 | Acc32 | Enum32 | Bitfield32 | IPv4 =>
        v := v.(p := Bits(FromBE(buf[at..at + 4])));
      case Int64 | UInt64 | Float64 | Acc64 =>
        v := v.(p := Bits(FromBE(buf[at..at + 8])));
      case String =>
        v := v.(p := Text(UpToNul(buf[at..at + pt.tp.len])));
      case Pad =>
      case IPv6 =>
      case _ =>
        return;
    }
    v := v.(meta := MetaOf(pt.tp.kind, v.p), tp := pt.tp);
  }

  /** When a decoded value is marked as not implemented, by the bytes of its field. */
  lemma MarkedShort(pt: Point, b: seq<Byte>, index: nat, rep: bool)
    requires |b| == PairSize(pt.tp)
    ensures var m := ValueOf(pt, b, index, rep).meta;
            && (pt.tp.kind in {Int16, SunsSf} ==> (m == NotImplemented <==> b == [0x80, 0]))
            && (pt.tp.kind in {UInt16, Enum16, Bitfield16} ==> (m == NotImplemented <==> b == [0xFF, 0xFF]))
            && (pt.tp.kind in {Acc16, Acc32, Acc64, String, Pad, IPv6} ==> m == Implemented)
            && (pt.tp.kind in {Null, Undef} ==> m == Unset)
  {
    NumberRead(pt.tp, b);
    hide FromBE, UpToNul;
  }

  lemma MarkedLong(pt: Point, b: seq<Byte>, index: nat, rep: bool)
    requires |b| == PairSize(pt.tp) == 4 && IsBits(pt.tp.kind)
    ensures var m := ValueOf(pt, b, index, rep).meta;
            && (pt.tp.kind == Int32 ==> (m == NotImplemented <==> b == [0x80, 0, 0, 0]))
            && (pt.tp.kind in {UInt32, Enum32, Bitfield32} ==> (m == NotImplemented <==> b == [0xFF, 0xFF, 0xFF, 0xFF]))
            && (pt.tp.kind == IPv4 ==> (m == NotImplemented <==> b == [0, 0, 0, 0]))
            && (pt.tp.kind == Float32 ==>
                  (m == NotImplemented <==> b[0] in {0x7F, 0xFF} && b[1] >= 0x80 && b[1..] != [0x80, 0, 0]))
  {
    hide FromBE, UpToNul;
    NumberRead(pt.tp, b);
    FourAre(b[0], b[1], b[2], b[3]);
    assert b == [b[0], b[1], b[2], b[3]] && b[1..] == [b[1], b[2], b[3]];
  }

  lemma FourAre(a: Byte, b: Byte, c: Byte, d: Byte)
    ensures var n := 0x100_0000 * a as int + 0x1_0000 * b as int + 0x100 * c as int + d as int;
            && (n == 0x8000_0000 <==> a == 0x80 && b == c == d == 0)
            && (n == 0xFFFF_FFFF <==> a == b == c == d == 0xFF)
            && (n == 0 <==> a == b == c == d == 0)
            && (n % 0x8000_0000 > 0x7F80_0000 <==> a in {0x7F, 0xFF} && b >= 0x80 && !(b == 0x80 && c == d == 0))
  {
    var low := 0x1_0000 * b as int + 0x100 * c as int + d as int;
    var n := 0x100_0000 * a as int + low;
    assert n % 0x8000_0000 == 0x100_0000 * (a as int % 0x80) + low;
  }

  lemma MarkedWide(pt: Point, b: seq<Byte>, index: nat, rep: bool)
    requires |b| == PairSize(pt.tp) == 8 && IsBits(pt.tp.kind)
    ensures var m := ValueOf(pt, b, index, rep).meta;
            && (pt.tp.kind == Int64 ==> (m == NotImplemented <==> b == [0x80, 0, 0, 0, 0, 0, 0, 0]))
            && (pt.tp.kind == UInt64 ==>
                  (m == NotImplemented <==> b == [0xFF, 0xFF, 0xFF, 0xFF, 0xFF, 0xFF, 0xFF, 0xFF]))
            && (pt.tp.kind == Float64 ==>
                  (m == NotImplemented
                   <==> b[0] in {0x7F, 0xFF} && b[1] >= 0xF0 && b[1..] != [0xF0, 0, 0, 0, 0, 0, 0]))
  {
    hide MetaOf, FromBE, UpToNul;
    NumberRead(pt.tp, b);
    var rest := 0x100_0000_0000 * b[2] as int + 0x1_0000_0000 * b[3] as int + 0x100_0000 * b[4] as int
    + 0x1_0000 * b[5] as int + 0x100 * b[6] as int + b[7] as int;
    var n := 0x100_0000_0000_0000 * b[0] as int + 0x1_0000_0000_0000 * b[1] as int + rest;
    assert Decode(pt.tp, b) == Bits(n);
    MetaWide(n);
    RestIs(b[2], b[3], b[4], b[5], b[6], b[7]);
    WideAre(b[0], b[1], rest);
    assert b == [b[0], b[1], b[2], b[3], b[4], b[5], b[6], b[7]];
    assert b[1..] == [b[1], b[2], b[3], b[4], b[5], b[6], b[7]];
  }

  lemma MetaWide(n: nat)
    ensures MetaOf(Int64, Bits(n)) == NotImplemented <==> n == 0x8000_0000_0000_0000
    ensures MetaOf(UInt64, Bits(n)) == NotImplemented <==> n == 0xFFFF_FFFF_FFFF_FFFF
    ensures MetaOf(Float64, Bits(n)) == NotImplemented <==> n % 0x8000_0000_0000_0000 > 0x7FF0_0000_0000_0000
  {}

  lemma RestIs(a: Byte, b: Byte, c: Byte, d: Byte, e: Byte, f: Byte)
    ensures var n := 0x100_0000_0000 * a as int + 0x1_0000_0000 * b as int + 0x100_0000 * c as int
                     + 0x1_0000 * d as int + 0x100 * e as int + f as int;
            && 0 <= n <= 0xFFFF_FFFF_FFFF
            && (n == 0 <==> a == b == c == d == e == f == 0)
            && (n == 0xFFFF_FFFF_FFFF <==> a == b == c == d == e == f == 0xFF)
  {}

  lemma WideAre(a: Byte, b: Byte, rest: int)
    requires 0 <= rest <= 0xFFFF_FFFF_FFFF
    ensures var n := 0x100_0000_0000_0000 * a as int + 0x1_0000_0000_0000 * b as int + rest;
            && (n == 0x8000_0000_0000_0000 <==> a == 0x80 && b == 0 && rest == 0)
            && (n == 0xFFFF_FFFF_FFFF_FFFF <==> a == b == 0xFF && rest == 0xFFFF_FFFF_FFFF)
            && (n % 0x8000_0000_0000_0000 > 0x7FF0_0000_0000_0000
                <==> a in {0x7F, 0xFF} && b >= 0xF0 && !(b == 0xF0 && rest == 0))
  {
    var low := 0x1_0000_0000_0000 * b as int + rest;
    var n := 0x100_0000_0000_0000 * a as int + low;
    assert n % 0x8000_0000_0000_0000 == 0x100_0000_0000_0000 * (a as int % 0x80) + low;
  }

  // ---- one block ----

  /** The values of points laid one behind the other, as far as the bytes go. */
  function PointValues(points: seq<Point>, b: seq<Byte>, index: nat, repeating: bool): (vs: seq<Value>)
    ensures |vs| <= |points|
    ensures BytesOf(points) <= |b| ==> |vs| == |points|
  {
    if points == [] || |b| < PairSize(points[0].tp) then []
    else
      var n := PairSize(points[0].tp);
      [ValueOf(points[0], b[..n], index, repeating)] + PointValues(points[1..], b[n..], index, repeating)
  }

  /** The bytes they take up. */
  function PointBytes(points: seq<Point>, b: seq<Byte>): (n: nat)
    ensures n <= |b|
    ensures BytesOf(points) <= |b| ==> n == BytesOf(points)
  {
    if points == [] || |b| < PairSize(points[0].tp) then 0
    else PairSize(points[0].tp) + PointBytes(points[1..], b[PairSize(points[0].tp)..])
  }

  /** n records, numbered from index on; a record that is cut short is the last one */
  function Records(points: seq<Point>, b: seq<Byte>, n: nat, index: nat, repeating: bool): seq<Value>
    decreases n
  {
    if n == 0 then []
    else if BytesOf(points) > |b| then PointValues(points, b, index, repeating)
    else PointValues(points, b, index, repeating) + Records(points, b[BytesOf(points)..], n - 1, index + 1, repeating)
  }

  function RecordBytes(points: seq<Point>, b: seq<Byte>, n: nat): (r: nat)
    ensures r <= |b|
    decreases n
  {
    if n == 0 then 0
    else if BytesOf(points) > |b| then PointBytes(points, b)
    else BytesOf(points) + RecordBytes(points, b[BytesOf(points)..], n - 1)
  }

  /** len_multiple */
  function Count(repeating: bool, regs: nat, len: nat): nat
    requires repeating ==> regs > 0
  {
    if repeating then len / regs / 2 else 1
  }

  /** the inner loop of suns_decode_dp_block: one record, from byte `from` of the block on */
  method DecodeRecord(block: Block, buf: seq<Byte>, at: nat, len: nat, from: nat, index: nat, data: Dataset)
    returns (byteOffset: nat, complete: bool)
    requires from <= len && at + len <= |buf|
    modifies data
    ensures var points, b := PointsOf(block.dps), buf[at + from..at + len];
            && data.values == old(data.values) + PointValues(points, b, index, block.repeating)
            && byteOffset == from + PointBytes(points, b) && (complete <==> BytesOf(points) <= |b|)
  {
    hide *;
    byteOffset := from;
    ghost var points, b := PointsOf(block.dps), buf[at + from..at + len];
    ghost var done: seq<Value> := [];
    assert points[0..] == points && buf[at + from..at + len] == b;
    for k := 0 to |block.dps|
      invariant from <= byteOffset <= len && data.values == old(data.values) + done
      invariant done + PointValues(points[k..], buf[at + byteOffset..at + len], index, block.repeating)
             == PointValues(points, b, index, block.repeating)
      invariant byteOffset - from + PointBytes(points[k..], buf[at + byteOffset..at + len]) == PointBytes(points, b)
      invariant byteOffset - from + BytesOf(points[k..]) == BytesOf(points)
    {
      var dp := block.dps[k];
      var size := PairSize(dp.point.tp);
      PointStep(points, k, buf[at + byteOffset..at + len], index, block.repeating);
      if byteOffset + size <= len {
        var v := BufToValue(buf, at + byteOffset, dp.point, index, block.repeating);
        ghost var rest := buf[at + byteOffset..at + len];
        assert rest[..size] == buf[at + byteOffset..at + byteOffset + size]
               && rest[size..] == buf[at + byteOffset + size..at + len];
        assert done + ([v] + PointValues(points[k + 1..], rest[size..], index, block.repeating))
            == done + [v] + PointValues(points[k + 1..], rest[size..], index, block.repeating);
        data.values := data.values + [v];
        done := done + [v];
        byteOffset := byteOffset + size;
      } else {
        return byteOffset, false;
      }
    }
    NoPoints(points, buf[at + byteOffset..at + len], index, block.repeating);
    complete := true;
  }

  lemma PointStep(points: seq<Point>, k: nat, b: seq<Byte>, index: nat, repeating: bool)
    requires k < |points|
    ensures var pt, n := points[k], PairSize(points[k].tp);
            && BytesOf(points[k..]) == n + BytesOf(points[k + 1..])
            && (n <= |b| ==>
                  && PointValues(points[k..], b, index, repeating)
                     == [ValueOf(pt, b[..n], index, repeating)] + PointValues(points[k + 1..], b[n..], index, repeating)
                  && PointBytes(points[k..], b) == n + PointBytes(points[k + 1..], b[n..]))
            && (n > |b| ==> PointValues(points[k..], b, index, repeating) == [] && PointBytes(points[k..], b) == 0)
  {
    assert points[k..][0] == points[k] && points[k..][1..] == points[k + 1..];
    hide PairSize, ValueOf;
  }

  lemma NoPoints(points: seq<Point>, b: seq<Byte>, index: nat, repeating: bool)
    ensures points[|points|..] == [] && BytesOf([]) == 0 && PointBytes([], b) == 0
            && PointValues([], b, index, repeating) == []
  {}

  /** The values of a block in the bytes given to it, and the bytes it uses. */
  function BlockValues(points: seq<Point>, repeating: bool, regs: nat, b: seq<Byte>): seq<Value>
    requires repeating ==> regs > 0
  {
    Records(points, b, Count(repeating, regs, |b|), 1, repeating)
  }

  function BlockBytes(points: seq<Point>, repeating: bool, regs: nat, b: seq<Byte>): (n: nat)
    requires repeating ==> regs > 0
    ensures n <= |b|
  {
    RecordBytes(points, b, Count(repeating, regs, |b|))
  }

  /** suns_decode_dp_block */
  method DecodeDpBlock(block: Block, buf: seq<Byte>, at: nat, len: nat, data: Dataset) returns (byteOffset: nat)
    requires at + len <= |buf| && (block.repeating ==> block.len > 0)
    modifies data
    ensures var points, b := PointsOf(block.dps), buf[at..at + len];
            && data.values == old(data.values) + BlockValues(points, block.repeating, block.len, b)
            && byteOffset == BlockBytes(points, block.repeating, block.len, b)
  {
    hide *;
    byteOffset := 0;
    var lenMultiple := Count(block.repeating, block.len, len);
    ghost var points, rest, rep := PointsOf(block.dps), buf[at..at + len], block.repeating;
    ghost var all := data.values + Records(points, rest, lenMultiple, 1, rep);
    ghost var size := RecordBytes(points, rest, lenMultiple);
    for i := 0 to lenMultiple
      invariant byteOffset <= len && rest == buf[at + byteOffset..at + len]
      invariant data.values + Records(points, rest, lenMultiple - i, i + 1, rep) == all
      invariant byteOffset + RecordBytes(points, rest, lenMultiple - i) == size
    {
      RecordStep(points, rest, lenMultiple - i, i + 1, rep);
      ghost var had := data.values;
      var complete;
      byteOffset, complete := DecodeRecord(block, buf, at, len, byteOffset, i + 1, data);
      if !complete {
        BlockIs(points, rep, block.len, buf[at..at + len]);
        return;
      }
      Assoc3(had, PointValues(points, rest, i + 1, rep),
             Records(points, rest[BytesOf(points)..], lenMultiple - i - 1, i + 2, rep));
      rest := rest[BytesOf(points)..];
    }
    NoRecords(points, rest, lenMultiple + 1, rep);
    BlockIs(points, rep, block.len, buf[at..at + len]);
  }

  lemma BlockIs(points: seq<Point>, rep: bool, regs: nat, b: seq<Byte>)
    requires rep ==> regs > 0
    ensures var n := Count(rep, regs, |b|);
            && BlockValues(points, rep, regs, b) == Records(points, b, n, 1, rep)
            && BlockBytes(points, rep, regs, b) == RecordBytes(points, b, n)
  {
    hide Count;
  }

  lemma Assoc3<T>(a: seq<T>, b: seq<T>, c: seq<T>)
    ensures a + b + c == a + (b + c)
  {}

  lemma RecordStep(points: seq<Point>, b: seq<Byte>, n: nat, index: nat, rep: bool)
    requires n > 0
    ensures BytesOf(points) > |b| ==> Records(points, b, n, index, rep) == PointValues(points, b, index, rep)
                                      && RecordBytes(points, b, n) == PointBytes(points, b)
    ensures BytesOf(points) <= |b| ==>
              && PointBytes(points, b) == BytesOf(points)
              && Records(points, b, n, index, rep)
                 == PointValues(points, b, index, rep) + Records(points, b[BytesOf(points)..], n - 1, index + 1, rep)
              && RecordBytes(points, b, n) == BytesOf(points) + RecordBytes(points, b[BytesOf(points)..], n - 1)
  {}

  lemma NoRecords(points: seq<Point>, b: seq<Byte>, index: nat, rep: bool)
    ensures Records(points, b, 0, index, rep) == [] && RecordBytes(points, b, 0) == 0
  {}
}
