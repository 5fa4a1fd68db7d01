/** SunSpec models: fixed blocks of data points, and a last block that may repeat. Offsets and block
    lengths count 16-bit registers; the decoder counts bytes. */
module SunsModel {
  import opened ByteBuffer
  import opened CStrings
  import opened SunsValue

  datatype Point = Point(name: string, tp: TypePair)

  class Dp {
    const point: Point
    var offset: int

    constructor (point: Point)
      ensures this.point == point && offset == -1
    {
      this.point := point;
      offset := -1;
    }
  }

  class Block {
    const repeating: bool
    const dps: seq<Dp>
    var len: nat

    constructor (repeating: bool, dps: seq<Dp>)
      ensures this.repeating == repeating && this.dps == dps && len == 0
    {
      this.repeating, this.dps := repeating, dps;
      len := 0;
    }
  }

  class Model {
    const blocks: seq<Block>
    /** 16-bit */
    var len: nat
    var baseLen: nat

    constructor (blocks: seq<Block>)
      ensures this.blocks == blocks && len == 0 && baseLen == 0
    {
      this.blocks := blocks;
      len, baseLen := 0, 0;
    }
  }

  function PointsOf(dps: seq<Dp>): (p: seq<Point>)
    ensures |p| == |dps| && forall i :: 0 <= i < |dps| ==> p[i] == dps[i].point
  {
    seq(|dps|, i requires 0 <= i < |dps| => dps[i].point)
  }

  // ---- layout ----

  /** The registers of a point: an odd string takes up a whole last register. */
  function RegSize(tp: TypePair): nat {
    if tp.kind == String then (if tp.len % 2 == 1 then tp.len / 2 + 1 else tp.len / 2) else TypeSize(tp.kind) / 2
  }

  function RegsOf(points: seq<Point>): nat {
    if points == [] then 0 else RegsOf(points[..|points| - 1]) + RegSize(points[|points| - 1].tp)
  }

  function BytesOf(points: seq<Point>): nat {
    if points == [] then 0 else PairSize(points[0].tp) + BytesOf(points[1..])
  }

  predicate Even(points: seq<Point>) {
    forall p :: p in points && p.tp.kind == String ==> p.tp.len % 2 == 0
  }

  lemma {:induction false} BytesSplit(a: seq<Point>, b: seq<Point>)
    ensures BytesOf(a + b) == BytesOf(a) + BytesOf(b)
  {
    if a == [] {
      assert a + b == b;
    } else {
      assert (a + b)[1..] == a[1..] + b;
      BytesSplit(a[1..], b);
    }
  }

  /** A block never holds more bytes than its registers, and as many if and only if all strings are even. */
  lemma {:induction false} RegsCover(points: seq<Point>)
    ensures BytesOf(points) <= 2 * RegsOf(points)
    ensures Even(points) <==> BytesOf(points) == 2 * RegsOf(points)
  {
    hide PairSize, RegSize;
    if points != [] {
      var n := |points| - 1;
      assert points == points[..n] + [points[n]];
      BytesSplit(points[..n], [points[n]]);
      RegsCover(points[..n]);
      OnePoint(points[n]);
      EvenLast(points);
    }
  }

  lemma EvenLast(points: seq<Point>)
    requires points != []
    ensures var n := |points| - 1;
            Even(points) <==> Even(points[..n]) && (points[n].tp.kind == String ==> points[n].tp.len % 2 == 0)
  {
    assert points == points[..|points| - 1] + [points[|points| - 1]];
  }

  lemma OnePoint(p: Point)
    ensures BytesOf([p]) == PairSize(p.tp) <= 2 * RegSize(p.tp) <= PairSize(p.tp) + 1
    ensures (p.tp.kind == String ==> p.tp.len % 2 == 0) <==> PairSize(p.tp) == 2 * RegSize(p.tp)
  {
    assert [p][1..] == [];
  }

  /** The length of points some of which come with an offset: one that is positive is kept, and the points behind
      it go on from there. */
  function Reach(points: seq<Point>, given: seq<int>): nat
    requires |given| == |points|
    decreases |points|, 0
  {
    if points == [] then 0
    else
      var n := |points| - 1;
      OffsetAt(points, given, n) + RegSize(points[n].tp)
  }

  function OffsetAt(points: seq<Point>, given: seq<int>, k: nat): nat
    requires |given| == |points| && k < |points|
    decreases k, 1
  {
    if given[k] > 0 then given[k] else Reach(points[..k], given[..k])
  }

  lemma NextReach(points: seq<Point>, given: seq<int>, i: nat)
    requires |given| == |points| && i < |points|
    ensures Reach(points[..i + 1], given[..i + 1]) == OffsetAt(points, given, i) + RegSize(points[i].tp)
    ensures OffsetAt(points, given, i) == if given[i] > 0 then given[i] else Reach(points[..i], given[..i])
  {
    assert points[..i + 1][..i] == points[..i] && given[..i + 1][..i] == given[..i];
    hide RegSize;
  }

  lemma NoReach(points: seq<Point>, given: seq<int>)
    requires |given| == |points|
    ensures Reach(points[..0], given[..0]) == 0
  {}

  predicate Implied(given: seq<int>) {
    forall k :: 0 <= k < |given| ==> given[k] <= 0
  }

  /** Without given offsets, every point starts where the one before it ends. */
  lemma {:induction false} ImpliedReach(points: seq<Point>, given: seq<int>)
    requires |given| == |points| && Implied(given)
    ensures Reach(points, given) == RegsOf(points)
    decreases |points|
  {
    hide RegSize;
    if points != [] {
      var n := |points| - 1;
      ImpliedReach(points[..n], given[..n]);
    }
  }

  /** A point has the offset it was given, or starts where the one before it ends. */
  ghost predicate FollowsOn(b: Block, given: seq<int>, k: nat)
    requires k < |given| == |b.dps|
    reads b.dps`offset
  {
    b.dps[k].offset == if given[k] > 0 then given[k] else if k == 0 then 0
    else b.dps[k - 1].offset + RegSize(b.dps[k - 1].point.tp)
  }

  /** the inner loop of suns_model_fill_offsets */
  method FillBlock(b: Block, ghost given: seq<int>)
    requires forall i, j :: 0 <= i < j < |b.dps| ==> b.dps[i] != b.dps[j]
    requires |given| == |b.dps| && forall k :: 0 <= k < |given| ==> b.dps[k].offset == given[k]
    modifies b`len, b.dps`offset
    ensures Placed(b, given) && b.len == Reach(PointsOf(b.dps), given)
    ensures forall k :: 0 <= k < |given| ==> FollowsOn(b, given, k)
    ensures b.len == if b.dps == [] then 0
                     else b.dps[|b.dps| - 1].offset + RegSize(b.dps[|b.dps| - 1].point.tp)
  {
    hide Reach, OffsetAt, PointsOf;
    var offset, dpBlockOffset := 0, 0;
    ghost var points := PointsOf(b.dps);
    NoReach(points, given);
    for i := 0 to |b.dps|
      invariant dpBlockOffset == Reach(points[..i], given[..i])
      invariant forall k :: 0 <= k < i ==> b.dps[k].offset == OffsetAt(points, given, k)
      invariant forall k :: i <= k < |b.dps| ==> b.dps[k].offset == given[k]
    {
      var dp := b.dps[i];
      NextReach(points, given, i);
      if dp.offset > 0 {
        dpBlockOffset := dp.offset - offset;
      } else {
        dp.offset := offset + dpBlockOffset;
      }
      if dp.point.tp.kind == String {
        if dp.point.tp.len % 2 == 1 {
          dpBlockOffset := dpBlockOffset + (dp.point.tp.len / 2 + 1);
        } else {
          dpBlockOffset := dpBlockOffset + dp.point.tp.len / 2;
        }
      } else {
        dpBlockOffset := dpBlockOffset + TypeSize(dp.point.tp.kind) / 2;
      }
    }
    assert points[..|b.dps|] == points && given[..|b.dps|] == given;
    b.len := dpBlockOffset;
    forall k | 0 <= k < |given| ensures FollowsOn(b, given, k) { OffsetStep(points, given, k); }
    if b.dps != [] { NextReach(points, given, |b.dps| - 1); }
  }

  lemma OffsetStep(points: seq<Point>, given: seq<int>, k: nat)
    requires |given| == |points| && k < |points|
    ensures OffsetAt(points, given, k) == if given[k] > 0 then given[k] else if k == 0 then 0
                                          else OffsetAt(points, given, k - 1) + RegSize(points[k - 1].tp)
  {
    hide Reach, OffsetAt, RegSize;
    NextReach(points, given, k);
    if k > 0 { NextReach(points, given, k - 1); } else { NoReach(points, given); }
  }

  /** Every point has its place, and the block its length. */
  ghost predicate Placed(b: Block, given: seq<int>)
    requires |given| == |b.dps|
    reads b`len, b.dps`offset
  {
    && b.len == Reach(PointsOf(b.dps), given)
    && forall k :: 0 <= k < |b.dps| ==> b.dps[k].offset == OffsetAt(PointsOf(b.dps), given, k)
  }

  ghost predicate Separate(blocks: seq<Block>) {
    && (forall i, j :: 0 <= i < j < |blocks| ==> blocks[i] != blocks[j])
    && (forall b, i, j :: b in blocks && 0 <= i < j < |b.dps| ==> b.dps[i] != b.dps[j])
    && (forall i, j, k, l :: 0 <= i < j < |blocks| && 0 <= k < |blocks[i].dps| && 0 <= l < |blocks[j].dps|
                             ==> blocks[i].dps[k] != blocks[j].dps[l])
  }

  /** Placed, without given offsets. */
  ghost predicate LaidOut(b: Block)
    reads b`len, b.dps`offset
  {
    && b.len == RegsOf(PointsOf(b.dps))
    && forall k :: 0 <= k < |b.dps| ==> b.dps[k].offset == RegsOf(PointsOf(b.dps)[..k])
  }

  function TotalRegs(blocks: seq<Block>, all: bool): nat {
    if blocks == [] then 0
    else
      var b := blocks[|blocks| - 1];
      TotalRegs(blocks[..|blocks| - 1], all) + if all || !b.repeating then RegsOf(PointsOf(b.dps)) else 0
  }

  lemma PlacedIsLaidOut(b: Block, given: seq<int>)
    requires |given| == |b.dps| && Implied(given) && Placed(b, given)
    ensures LaidOut(b)
  {
    hide RegsOf, Reach, PointsOf;
    var points := PointsOf(b.dps);
    ImpliedReach(points, given);
    forall k | 0 <= k < |points| ensures OffsetAt(points, given, k) == RegsOf(points[..k]) {
      ImpliedReach(points[..k], given[..k]);
    }
  }

  function TotalReach(blocks: seq<Block>, given: seq<seq<int>>, all: bool): nat
    requires |given| == |blocks| && forall i :: 0 <= i < |blocks| ==> |given[i]| == |blocks[i].dps|
  {
    if blocks == [] then 0
    else
      var n := |blocks| - 1;
      TotalReach(blocks[..n], given[..n], all)
      + if all || !blocks[n].repeating then Reach(PointsOf(blocks[n].dps), given[n]) else 0
  }

  lemma {:induction false} ImpliedTotal(blocks: seq<Block>, given: seq<seq<int>>, all: bool)
    requires |given| == |blocks| && forall i :: 0 <= i < |blocks| ==> |given[i]| == |blocks[i].dps| && Implied(given[i])
    ensures TotalReach(blocks, given, all) == TotalRegs(blocks, all)
  {
    hide RegsOf, Reach, PointsOf, Implied;
    if blocks != [] {
      var n := |blocks| - 1;
      ImpliedTotal(blocks[..n], given[..n], all);
      ImpliedReach(PointsOf(blocks[n].dps), given[n]);
    }
  }

  ghost function AllDps(blocks: seq<Block>): set<Dp> {
    set b, d | b in blocks && d in b.dps :: d
  }

  lemma AmongAll(blocks: seq<Block>, i: nat)
    requires i < |blocks|
    ensures forall k :: 0 <= k < |blocks[i].dps| ==> blocks[i].dps[k] in AllDps(blocks)
  {
    var b := blocks[i];
    forall k | 0 <= k < |b.dps| ensures b.dps[k] in AllDps(blocks) {
      assert b in blocks && b.dps[k] in b.dps;
    }
  }

  lemma Apart(blocks: seq<Block>, i: nat)
    requires Separate(blocks) && i < |blocks|
    ensures forall j :: 0 <= j < |blocks| && j != i ==> blocks[j] != blocks[i]
    ensures forall j, k :: 0 <= j < |blocks| && j != i && 0 <= k < |blocks[j].dps| ==>
                             blocks[j].dps[k] !in blocks[i].dps
  {}

  lemma NextTotal(blocks: seq<Block>, given: seq<seq<int>>, i: nat, all: bool, was: nat, len: nat)
    requires |given| == |blocks| && forall j :: 0 <= j < |blocks| ==> |given[j]| == |blocks[j].dps|
    requires i < |blocks| && len == (was + TotalReach(blocks[..i], given[..i], all)) % 0x10000
    ensures (was + TotalReach(blocks[..i + 1], given[..i + 1], all)) % 0x10000
         == (len + if all || !blocks[i].repeating then Reach(PointsOf(blocks[i].dps), given[i]) else 0) % 0x10000
  {
    hide Reach, PointsOf;
    assert blocks[..i + 1][..i] == blocks[..i] && given[..i + 1][..i] == given[..i];
  }

  /** suns_model_fill_offsets. The two lengths are 16-bit. Without given offsets, all blocks are laid out. */
  method FillOffsets(m: Model, ghost given: seq<seq<int>>)
    requires Separate(m.blocks) && m.len < 0x10000 && m.baseLen < 0x10000
    requires |given| == |m.blocks| && forall i :: 0 <= i < |m.blocks| ==> |given[i]| == |m.blocks[i].dps|
    requires forall i, k :: 0 <= i < |m.blocks| && 0 <= k < |m.blocks[i].dps| ==>
                              m.blocks[i].dps[k].offset == given[i][k]
    modifies m`len, m`baseLen, m.blocks`len, AllDps(m.blocks)`offset
    ensures forall i :: 0 <= i < |m.blocks| ==> Placed(m.blocks[i], given[i])
    ensures forall i :: 0 <= i < |m.blocks| && Implied(given[i]) ==> LaidOut(m.blocks[i])
    ensures m.len == (old(m.len) + TotalReach(m.blocks, given, true)) % 0x10000
    ensures m.baseLen == (old(m.baseLen) + TotalReach(m.blocks, given, false)) % 0x10000
  {
    hide Separate, Placed, LaidOut, Implied, AllDps, Reach, PointsOf, TotalReach;
    ghost var len, baseLen := m.len, m.baseLen;
    NoTotal(m.blocks, given);
    for i := 0 to |m.blocks|
      invariant forall j :: 0 <= j < i ==> Placed(m.blocks[j], given[j])
      invariant forall j, k :: i <= j < |m.blocks| && 0 <= k < |m.blocks[j].dps| ==>
                                 m.blocks[j].dps[k].offset == given[j][k]
      invariant m.len == (len + TotalReach(m.blocks[..i], given[..i], true)) % 0x10000
      invariant m.baseLen == (baseLen + TotalReach(m.blocks[..i], given[..i], false)) % 0x10000
    {
      var b := m.blocks[i];
      Apart(m.blocks, i);
      DistinctPoints(m.blocks, i);
      AmongAll(m.blocks, i);
      NextTotal(m.blocks, given, i, true, len, m.len);
      NextTotal(m.blocks, given, i, false, baseLen, m.baseLen);
      FillBlock(b, given[i]);
      if !b.repeating {
        m.baseLen := (m.baseLen + b.len) % 0x10000;
      }
      m.len := (m.len + b.len) % 0x10000;
    }
    assert m.blocks[..|m.blocks|] == m.blocks && given[..|m.blocks|] == given;
    forall i | 0 <= i < |m.blocks| && Implied(given[i]) ensures LaidOut(m.blocks[i]) {
      PlacedIsLaidOut(m.blocks[i], given[i]);
    }
  }

  lemma NoTotal(blocks: seq<Block>, given: seq<seq<int>>)
    requires |given| == |blocks| && forall j :: 0 <= j < |blocks| ==> |given[j]| == |blocks[j].dps|
    ensures TotalReach(blocks[..0], given[..0], true) == 0 == TotalReach(blocks[..0], given[..0], false)
  {}

  lemma DistinctPoints(blocks: seq<Block>, i: nat)
    requires Separate(blocks) && i < |blocks|
    ensures forall k, l :: 0 <= k < l < |blocks[i].dps| ==> blocks[i].dps[k] != blocks[i].dps[l]
  {}
}
