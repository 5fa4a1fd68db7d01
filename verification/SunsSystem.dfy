/** From a data file to datasets: values are encoded into data blocks, laid out by the server, found and
    read by the client, decoded and numbered. */
module SunsSystem {
  import opened ByteBuffer
  import opened CStrings
  import opened SunsValue
  import opened SunsModel
  import SunsDecode
  import ScaleFactors
  import SunsScaling
  import opened SunsDataset
  import opened SunsLayout
  import opened SunsRoundTrip
  import DeviceWalk
  import DatasetIndex

  /** A data block of a data file: the values for the fixed blocks of a model, and any records. */
  datatype Item = Item(did: nat, model: Model, fixed: seq<TypedValue>, recs: seq<seq<TypedValue>>)

  function LengthOf(it: Item): nat
    requires it.model.blocks != []
  {
    BlockLength(it.model.blocks, |it.recs|)
  }

  function ValuesOf(it: Item): seq<TypedValue>
    requires it.model.blocks != []
  {
    DataBlock(it.did, LengthOf(it), it.fixed, it.recs)
  }

  /** The values suit the model, and the block fits the client's registers and is no end marker. */
  ghost predicate ItemOk(it: Item) {
    var blocks := it.model.blocks;
    && blocks != [] && Divisible(blocks) && LastRepeats(blocks) && EvenStrings(blocks)
    && (blocks[|blocks| - 1].repeating || it.recs == [])
    && SuitAll(Flat(Fixed(blocks)), it.fixed) && SuitRecords(PointsOf(blocks[|blocks| - 1].dps), it.recs)
    && 0 < it.did < 0xFFFF && LengthOf(it) + 2 <= DeviceWalk.REGS
  }

  /** The values as they come back. */
  ghost function Expected(it: Item): seq<SunsDecode.Value>
    requires ItemOk(it)
  {
    RecordLengths(PointsOf(it.model.blocks[|it.model.blocks| - 1].dps), it.recs);
    AllBack(Flat(Fixed(it.model.blocks)), it.fixed, 1, false)
    + RecordsBack(PointsOf(it.model.blocks[|it.model.blocks| - 1].dps), it.recs, 1)
  }

  ghost function BlockOf(it: Item): (b: seq<Byte>)
    requires ItemOk(it)
  {
    ItemValues(it);
    Registers(ValuesOf(it))
  }

  /** The encoded block is well formed for the server, and decodes to the values. */
  lemma ItemValues(it: Item)
    requires ItemOk(it)
    ensures AllStorable(ValuesOf(it))
    ensures var b := Registers(ValuesOf(it));
            && |b| == 4 + 2 * LengthOf(it) && DidOf(b) == it.did && LenOf(b) == LengthOf(it)
            && Divisible(it.model.blocks) && BodyValues(it.model.blocks, b[4..]) == Expected(it)
  {
    hide AllBack, RecordsBack, BodyValues, Registers, SuitAll, SuitRecords, Flat, PointsOf, RegsOf, FromBE,
      Divisible, LastRepeats, EvenStrings, AllStorable;
    EncodeDecode(it.model.blocks, it.did, it.fixed, it.recs);
  }

  /** The header as the registers hold it. */
  lemma {:induction false} FirstWords(b: seq<Byte>)
    requires |b| % 2 == 0 && |b| >= 4
    ensures DeviceWalk.Words(b)[0] == FromBE(b[..2]) && DeviceWalk.Words(b)[1] == FromBE(b[2..4])
  {
    if |b| == 4 {
      TwoRead(b[..2]);
      TwoRead(b[2..4]);
      FourBytes(b);
    } else {
      var n := |b| - 2;
      FirstWords(b[..n]);
      assert b[..n][..2] == b[..2] && b[..n][2..4] == b[2..4];
      assert DeviceWalk.Words(b)[..|DeviceWalk.Words(b)| - 1] == DeviceWalk.Words(b[..n]);
      hide DeviceWalk.Words, FromBE;
    }
  }

  lemma FourBytes(b: seq<Byte>)
    requires |b| == 4
    ensures DeviceWalk.Words(b) == [DeviceWalk.PairOf(b[0], b[1]), DeviceWalk.PairOf(b[2], b[3])]
  {
    assert b[..2][..0] == [];
  }

  lemma BlockWellFormed(it: Item)
    requires ItemOk(it)
    ensures |BlockOf(it)| % 2 == 0
    ensures DeviceWalk.WellFormed(DeviceWalk.Words(BlockOf(it)))
    ensures DeviceWalk.Words(BlockOf(it))[0] == it.did
  {
    hide Registers, DeviceWalk.Words, FromBE, Expected, BodyValues, Divisible;
    ItemValues(it);
    FirstWords(BlockOf(it));
  }

  ghost function Blocks(items: seq<Item>): (r: seq<seq<Byte>>)
    requires forall i :: 0 <= i < |items| ==> ItemOk(items[i])
    ensures |r| == |items| && forall i :: 0 <= i < |r| ==> r[i] == BlockOf(items[i])
  {
    seq(|items|, i requires 0 <= i < |items| => BlockOf(items[i]))
  }

  function DidsOf(items: seq<Item>): (r: seq<nat>)
    ensures |r| == |items| && forall i :: 0 <= i < |r| ==> r[i] == items[i].did
  {
    seq(|items|, i requires 0 <= i < |items| => items[i].did)
  }

  /** The client knows the models of the data file. */
  ghost predicate Known(items: seq<Item>, dids: seq<Did>) {
    forall i :: 0 <= i < |items| ==> FindDid(dids, items[i].did) == Some(items[i].model)
  }

  /** The model passes the check, and what it refers to as scale factors are scale factors. */
  ghost predicate ScalesOk(blocks: seq<Block>) {
    && ScaleFactors.ScaleFactorsOk(blocks)
    && forall i, k ::
         0 <= i < |blocks| && 0 <= k < |blocks[i].dps| && ScaleFactors.Refers(blocks[i].dps[k].point.tp) ==>
           var f := ScaleFactors.FindInModel(blocks, blocks[i].dps[k].point.tp.name.value);
           f.Some? && f.value.point.tp.kind == SunsSf
  }

  function AllScaled(vs: seq<SunsDecode.Value>): (r: seq<SunsDecode.Value>)
    ensures |r| == |vs| && forall i :: 0 <= i < |vs| ==> r[i] == ScaleFactors.Scaled(vs, vs[i])
  {
    seq(|vs|, i requires 0 <= i < |vs| => ScaleFactors.Scaled(vs, vs[i]))
  }

  /** values are vs with exponents filled in, up to the first bad reference. */
  ghost predicate Resolved(values: seq<SunsDecode.Value>, vs: seq<SunsDecode.Value>) {
    && |values| == |vs|
    && exists n: nat :: ScaleFactors.Stops(vs, n) && values[n..] == vs[n..]
                        && forall i :: 0 <= i < n ==> values[i] == ScaleFactors.Scaled(vs, vs[i])
  }

  /** the data blocks of a data file */
  method EncodeAll(items: seq<Item>) returns (blocks: seq<seq<Byte>>)
    requires forall i :: 0 <= i < |items| ==> ItemOk(items[i])
    ensures blocks == Blocks(items)
  {
    hide *;
    blocks := [];
    for i := 0 to |items|
      invariant |blocks| == i && forall k :: 0 <= k < i ==> blocks[k] == BlockOf(items[k])
    {
      var block := EncodeItem(items[i]);
      blocks := blocks + [block];
    }
    BlocksAre(items, blocks);
  }

  lemma BlocksAre(items: seq<Item>, blocks: seq<seq<Byte>>)
    requires |blocks| == |items| && forall i :: 0 <= i < |items| ==> ItemOk(items[i]) && blocks[i] == BlockOf(items[i])
    ensures blocks == Blocks(items)
  {
    hide ItemOk, BlockOf;
  }

  /** one data block, as the grammar's buffer holds it */
  method EncodeItem(it: Item) returns (block: seq<Byte>)
    requires ItemOk(it)
    ensures block == BlockOf(it)
  {
    hide Registers, AllStorable, ValuesOf, Expected, ItemOk, BodyValues;
    ItemValues(it);
    ItemHasBlocks(it);
    CodableItem(it);
    var buf := RegisterList(ValuesOf(it));
    block := buf.start[buf.out..buf.inn];
  }

  lemma CodableItem(it: Item)
    requires ItemOk(it)
    ensures it.model.blocks != [] && forall v :: v in ValuesOf(it) ==> v.tp.kind != IPv6
  {
    hide SuitAll, SuitRecords, Flat, PointsOf, Divisible, LastRepeats, EvenStrings, BlockLength;
    CodableRun(Flat(Fixed(it.model.blocks)), it.fixed);
    CodableRecords(PointsOf(it.model.blocks[|it.model.blocks| - 1].dps), it.recs);
  }

  lemma CodableRun(points: seq<Point>, vs: seq<TypedValue>)
    requires SuitAll(points, vs)
    ensures forall v :: v in vs ==> v.tp.kind != IPv6
  {
    hide Fits, PairSize;
  }

  lemma {:induction false} CodableRecords(points: seq<Point>, recs: seq<seq<TypedValue>>)
    requires SuitRecords(points, recs)
    ensures forall v :: v in Concat(recs) ==> v.tp.kind != IPv6
  {
    hide SuitAll;
    if recs != [] {
      CodableRun(points, recs[0]);
      assert forall i :: 0 <= i < |recs[1..]| ==> recs[1..][i] == recs[i + 1];
      CodableRecords(points, recs[1..]);
    }
  }

  lemma ItemHasBlocks(it: Item)
    requires ItemOk(it)
    ensures it.model.blocks != []
  {}

  /** one block, decoded by its model */
  method DecodeItem(it: Item, dids: seq<Did>, blob: seq<Byte>) returns (data: SunsDecode.Dataset)
    requires ItemOk(it) && FindDid(dids, it.did) == Some(it.model) && blob == BlockOf(it)
    requires forall d :: d in dids ==> Divisible(d.model.blocks)
    requires forall d :: d in dids ==> forall i :: 0 <= i < |d.model.blocks| ==> LaidOut(d.model.blocks[i])
    ensures fresh(data) && data.did == it.did && Resolved(data.values, Expected(it))
    ensures ScalesOk(it.model.blocks) ==> data.values == AllScaled(Expected(it))
  {
    hide ItemOk, Registers, ValuesOf, Expected, BodyValues, LaidOut, Divisible, DidOf, LenOf, ScalesOk,
      ScaleFactors.Stops;
    ItemValues(it);
    if ScalesOk(it.model.blocks) { ItemScales(it); }
    var d := DecodeData(dids, blob);
    assert blob[4..4 + 2 * LenOf(blob)] == blob[4..];
    data := d;
    if ScalesOk(it.model.blocks) { AllResolved(data.values, Expected(it)); }
  }

  /** Nothing stops the resolver on the values of such a model. */
  lemma ItemScales(it: Item)
    requires ItemOk(it) && ScalesOk(it.model.blocks)
    ensures ScaleFactors.Stops(Expected(it), |Expected(it)|)
  {
    hide Registers, Expected, BodyValues, ScaleFactors.ScaleFactorsOk, ScaleFactors.FindInModel, ScaleFactors.Stops,
      Flat, BytesOf, RegsOf, SuitAll, SuitRecords;
    ItemValues(it);
    var blocks, body := it.model.blocks, Registers(ValuesOf(it))[4..];
    RegsCover(Flat(Fixed(blocks)));
    SunsScaling.ResolverSucceeds(blocks, body);
    forall v | v in BodyValues(blocks, body) && ScaleFactors.Refers(v.tp)
      ensures var f := ScaleFactors.FindInModel(blocks, v.tp.name.value); f.Some? && f.value.point.tp.kind == SunsSf
    {
      var i, k := SunsScaling.Origin(blocks, body, v);
    }
  }

  lemma AllResolved(values: seq<SunsDecode.Value>, vs: seq<SunsDecode.Value>)
    requires Resolved(values, vs) && ScaleFactors.Stops(vs, |vs|)
    ensures values == AllScaled(vs)
  {
    hide ScaleFactors.BadReference, ScaleFactors.Scaled;
  }

  /** The registers that the blocks take up. */
  ghost function MapLength(items: seq<Item>): nat
    requires forall i :: 0 <= i < |items| ==> ItemOk(items[i])
  {
    if items == [] then 0 else assert ItemOk(items[0]); LengthOf(items[0]) + 2 + MapLength(items[1..])
  }

  lemma {:induction false} MapFits(items: seq<Item>)
    requires forall i :: 0 <= i < |items| ==> ItemOk(items[i])
    ensures forall i :: 0 <= i < |items| ==> |BlockOf(items[i])| % 2 == 0
    ensures |DeviceWalk.Concat(DeviceWalk.AllWords(Blocks(items)))| == MapLength(items)
  {
    hide ItemOk, BlockOf, DeviceWalk.Words, LengthOf;
    forall i | 0 <= i < |items| ensures |BlockOf(items[i])| % 2 == 0 {
      BlockSize(items[i]);
    }
    if items != [] {
      MapFits(items[1..]);
      BlockSize(items[0]);
      assert DeviceWalk.AllWords(Blocks(items))[1..] == DeviceWalk.AllWords(Blocks(items[1..]));
    }
  }

  lemma BlockSize(it: Item)
    requires ItemOk(it)
    ensures it.model.blocks != [] && |BlockOf(it)| == 2 * (LengthOf(it) + 2)
  {
    ItemValues(it);
    hide Registers, Expected, BodyValues;
  }

  /** Whatever the failures and the read limit: the datasets are the values of the data file, in order,
      under their dids, with their exponents resolved, and numbered. */
  method FileToDatasets(items: seq<Item>, dids: seq<Did>, fails: nat -> bool, retries: nat, maxRead: nat)
    returns (rc: int, datasets: seq<SunsDecode.Dataset>, device: DatasetIndex.Device)
    requires Known(items, dids)
    requires forall d :: d in dids ==> Divisible(d.model.blocks)
    requires forall d :: d in dids ==> forall i :: 0 <= i < |d.model.blocks| ==> LaidOut(d.model.blocks[i])
    requires forall i :: 0 <= i < |items| ==> ItemOk(items[i])
    requires MapLength(items) + 4 <= DeviceWalk.MAP_SIZE
    requires DeviceWalk.Bearable(fails, retries) && 1 <= maxRead <= 125
    ensures rc == if items != [] && items[0].did == 1 then 0 else -1
    ensures |datasets| == |items|
    ensures forall i :: 0 <= i < |items| ==>
                          datasets[i].did == items[i].did && Resolved(datasets[i].values, Expected(items[i]))
    ensures forall i :: 0 <= i < |items| && ScalesOk(items[i].model.blocks) ==>
                          datasets[i].values == AllScaled(Expected(items[i]))
    ensures device.datasets == DatasetIndex.Numbered(DidsOf(items))
  {
    hide *;
    MapFits(items);
    var blocks := EncodeAll(items);
    MapLayout(blocks);
    ItemsKnown(items, dids, blocks);
    var known := KnownDids(dids);
    var blobs;
    rc, blobs := DeviceWalk.ServeAndRead(blocks, fails, retries, maxRead, known);
    FirstKnown(items, dids, blocks, known);
    datasets := [];
    for i := 0 to |items|
      invariant |datasets| == i
      invariant forall d :: d in dids ==> Divisible(d.model.blocks)
      invariant forall d :: d in dids ==> forall i :: 0 <= i < |d.model.blocks| ==> LaidOut(d.model.blocks[i])
      invariant forall k :: 0 <= k < i ==>
                              datasets[k].did == items[k].did && Resolved(datasets[k].values, Expected(items[k]))
      invariant forall k :: 0 <= k < i && ScalesOk(items[k].model.blocks) ==>
                              datasets[k].values == AllScaled(Expected(items[k]))
    {
      var data := DecodeItem(items[i], dids, blobs[i]);
      datasets := datasets + [data];
    }
    device := DatasetIndex.AddAll(DidsOf(items));
  }

  function KnownDids(dids: seq<Did>): set<DeviceWalk.Word> {
    set d | d in dids && 0 <= d.did < 0x10000 :: d.did
  }

  lemma ItemsKnown(items: seq<Item>, dids: seq<Did>, blocks: seq<seq<Byte>>)
    requires Known(items, dids) && (forall i :: 0 <= i < |items| ==> ItemOk(items[i])) && blocks == Blocks(items)
    ensures forall i :: 0 <= i < |items| ==> FindDid(dids, items[i].did) == Some(items[i].model)
    ensures forall i :: 0 <= i < |blocks| ==> blocks[i] == BlockOf(items[i]) && |blocks[i]| % 2 == 0
                                              && DeviceWalk.WellFormed(DeviceWalk.Words(blocks[i]))
  {
    hide ItemOk, BlockOf, DeviceWalk.WellFormed, DeviceWalk.Words;
    forall i | 0 <= i < |blocks| ensures |blocks[i]| % 2 == 0 && DeviceWalk.WellFormed(DeviceWalk.Words(blocks[i])) {
      BlockWellFormed(items[i]);
    }
  }

  /** The first block is the common model the client knows if its did is 1. */
  lemma FirstKnown(items: seq<Item>, dids: seq<Did>, blocks: seq<seq<Byte>>, known: set<DeviceWalk.Word>)
    requires Known(items, dids) && (forall i :: 0 <= i < |items| ==> ItemOk(items[i])) && blocks == Blocks(items)
    requires (forall i :: 0 <= i < |blocks| ==> |blocks[i]| % 2 == 0) && known == KnownDids(dids)
    ensures DeviceWalk.CommonFirst(DeviceWalk.AllWords(blocks), known) <==> items != [] && items[0].did == 1
  {
    hide ItemOk, BlockOf, DeviceWalk.WellFormed, DeviceWalk.Words;
    if items != [] {
      BlockWellFormed(items[0]);
      BlockSize(items[0]);
    }
  }

  lemma MapLayout(blocks: seq<seq<Byte>>)
    requires forall i :: 0 <= i < |blocks| ==> |blocks[i]| % 2 == 0
    ensures |DeviceWalk.Layout(DeviceWalk.AllWords(blocks))| == |DeviceWalk.Concat(DeviceWalk.AllWords(blocks))| + 4
  {}
}
