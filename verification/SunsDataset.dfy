/** A device's data block as a dataset: the decoder as a whole, and what the layout, the encoder and
    the scale factor check promise about it. */
module SunsDataset {
  import opened ByteBuffer
  import opened CStrings
  import opened SunsValue
  import opened SunsModel
  import opened SunsDecode
  import opened ScaleFactors

  /** A repeating block has registers: the decoder divides by their number. */
  predicate Divisible(blocks: seq<Block>) {
    forall b :: b in blocks && b.repeating ==> RegsOf(PointsOf(b.dps)) > 0
  }

  /** The values of the blocks, each from where the one before it ended. */
  function BodyValues(blocks: seq<Block>, body: seq<Byte>): seq<Value>
    requires Divisible(blocks)
  {
    if blocks == [] then []
    else
      var b := blocks[0];
      var points := PointsOf(b.dps);
      BlockValues(points, b.repeating, RegsOf(points), body)
      + BodyValues(blocks[1..], body[BlockBytes(points, b.repeating, RegsOf(points), body)..])
  }

  datatype Did = Did(did: nat, model: Model)

  /** suns_find_did */
  function FindDid(dids: seq<Did>, did: nat): (r: Option<Model>)
    ensures r.None? <==> forall d :: d in dids ==> d.did != did
    ensures r.Some? ==> exists d :: d in dids && d.did == did && d.model == r.value
  {
    if dids == [] then None else if dids[0].did == did then Some(dids[0].model) else FindDid(dids[1..], did)
  }

  method LookupDid(dids: seq<Did>, did: nat) returns (r: Option<Model>)
    ensures r == FindDid(dids, did)
  {
    assert dids[0..] == dids;
    for i := 0 to |dids|
      invariant FindDid(dids[i..], did) == FindDid(dids, did)
    {
      assert dids[i..][1..] == dids[i + 1..];
      if dids[i].did == did {
        return Some(dids[i].model);
      }
    }
    r := None;
  }

  /** the loop over the blocks in suns_decode_data, with its test for an overrun that never happens */
  method DecodeBlocks(m: Model, body: seq<Byte>, data: Dataset)
    requires Divisible(m.blocks) && forall i :: 0 <= i < |m.blocks| ==> LaidOut(m.blocks[i])
    modifies data
    ensures data.values == old(data.values) + BodyValues(m.blocks, body)
  {
    hide *;
    var byteOffset: nat := 0;
    ghost var rest := body;
    ghost var all := data.values + BodyValues(m.blocks, body);
    assert m.blocks[0..] == m.blocks;
    for i := 0 to |m.blocks|
      invariant byteOffset <= |body| && rest == body[byteOffset..] && Divisible(m.blocks[i..])
      invariant data.values + BodyValues(m.blocks[i..], rest) == all
      invariant forall k :: 0 <= k < |m.blocks| ==> LaidOut(m.blocks[k])
    {
      var b := m.blocks[i];
      ghost var had := data.values;
      BodyStep(m.blocks, i, rest);
      BlockLen(b);
      var used := DecodeDpBlock(b, body, byteOffset, |body| - byteOffset, data);
      byteOffset := byteOffset + used;
      if byteOffset >= |body| + 4 {
        assert false;
      }
      assert body[byteOffset - used..byteOffset - used + (|body| - (byteOffset - used))] == rest;
      Assoc3(had, BlockValues(PointsOf(b.dps), b.repeating, b.len, rest), BodyValues(m.blocks[i + 1..], rest[used..]));
      rest := rest[used..];
    }
    NoBlocks(m.blocks, rest);
  }

  lemma BlockLen(b: Block)
    requires LaidOut(b)
    ensures b.len == RegsOf(PointsOf(b.dps))
  {}

  lemma BodyStep(blocks: seq<Block>, i: nat, body: seq<Byte>)
    requires i < |blocks| && Divisible(blocks[i..])
    ensures Divisible(blocks[i + 1..]) && (blocks[i].repeating ==> RegsOf(PointsOf(blocks[i].dps)) > 0)
    ensures var b, points := blocks[i], PointsOf(blocks[i].dps);
            BodyValues(blocks[i..], body) == BlockValues(points, b.repeating, RegsOf(points), body)
            + BodyValues(blocks[i + 1..],
                         body[BlockBytes(points, b.repeating, RegsOf(points), body)..])
  {
    assert blocks[i..][1..] == blocks[i + 1..] && blocks[i] in blocks[i..];
    assert forall b :: b in blocks[i + 1..] ==> b in blocks[i..];
    hide RegsOf, PointsOf, BlockValues, BlockBytes;
  }

  lemma NoBlocks(blocks: seq<Block>, body: seq<Byte>)
    requires Divisible(blocks[|blocks|..])
    ensures BodyValues(blocks[|blocks|..], body) == []
  {}

  /** The header: two big-endian numbers, the did and the length in registers. */
  function DidOf(buf: seq<Byte>): nat
    requires |buf| >= 4
  {
    FromBE(buf[..2])
  }

  function LenOf(buf: seq<Byte>): nat
    requires |buf| >= 4
  {
    FromBE(buf[2..4])
  }

  /** suns_decode_data. The values depend on nothing outside the declared length. */
  method DecodeData(dids: seq<Did>, buf: seq<Byte>) returns (data: Dataset?)
    requires |buf| >= 4 && |buf| >= 4 + 2 * LenOf(buf)
    requires forall d :: d in dids ==> Divisible(d.model.blocks)
    requires forall d :: d in dids ==> forall i :: 0 <= i < |d.model.blocks| ==> LaidOut(d.model.blocks[i])
    ensures data == null <==> FindDid(dids, DidOf(buf)).None?
    ensures data != null ==>
              var vs := BodyValues(FindDid(dids, DidOf(buf)).value.blocks, buf[4..4 + 2 * LenOf(buf)]);
              && fresh(data) && data.did == DidOf(buf) && |data.values| == |vs|
              && exists n: nat ::
                   && Stops(vs, n) && data.values[n..] == vs[n..]
                   && forall i :: 0 <= i < n ==> data.values[i] == Scaled(vs, vs[i])
  {
    hide BodyValues, Divisible, LaidOut, Stops, Scaled, FromBE;
    var didValue := FromBE(buf[..2]);
    var didLen := FromBE(buf[2..4]);
    var m := LookupDid(dids, didValue);
    if m == None {
      return null;
    }
    data := new Dataset(didValue);
    var body := buf[4..4 + didLen * 2];
    DecodeBlocks(m.value, body, data);
    ghost var vs := data.values;
    assert vs == BodyValues(m.value.blocks, body);
    var rc, n := ResolveScaleFactors(data);
  }
}
