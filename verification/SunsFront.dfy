/** Models in which a block repeats that is not the last. The program reports them and goes on. Which references a
    dataset then leaves open depends on how many bytes the first repeating block leaves for the blocks behind it. */
module SunsFront {
  import opened ByteBuffer
  import opened CStrings
  import opened SunsValue
  import opened SunsModel
  import opened SunsDecode
  import opened ScaleFactors
  import opened SunsDataset
  import opened SunsLayout
  import opened SunsScaling
  import opened SunsShown
  import SunsRecords

  /** The blocks up to the first that repeats, and those behind it. */
  function Front(blocks: seq<Block>): (f: seq<Block>)
    ensures f <= blocks
    ensures LastRepeats(f) && (f == blocks <==> LastRepeats(blocks))
    ensures f != blocks ==> f != [] && f[|f| - 1].repeating
  {
    if blocks == [] then []
    else if blocks[0].repeating then [blocks[0]]
    else
      var f := Front(blocks[1..]);
      assert forall i :: 0 <= i < |blocks| - 1 ==> blocks[1..][i] == blocks[i + 1];
      [blocks[0]] + f
  }

  function Behind(blocks: seq<Block>): seq<Block> {
    blocks[|Front(blocks)|..]
  }

  lemma Parts(blocks: seq<Block>)
    ensures blocks == Front(blocks) + Behind(blocks)
    ensures Divisible(blocks) ==> Divisible(Front(blocks)) && Divisible(Behind(blocks))
  {
    hide RegsOf, PointsOf;
    assert forall b :: b in Behind(blocks) ==> b in blocks;
    assert forall b :: b in Front(blocks) ==> b in blocks;
  }

  /** The bytes of all blocks that do not repeat. */
  function FixedBytes(blocks: seq<Block>): nat {
    if blocks == [] then 0
    else (if blocks[0].repeating then 0 else BytesOf(PointsOf(blocks[0].dps))) + FixedBytes(blocks[1..])
  }

  lemma {:induction false} FrontBytes(blocks: seq<Block>)
    ensures BytesOf(Flat(Fixed(Front(blocks)))) <= FixedBytes(blocks)
  {
    hide BytesOf, PointsOf;
    if blocks != [] {
      var f := Front(blocks);
      FixedTail(f);
      if blocks[0].repeating {
        NoBytes();
      } else {
        FrontBytes(blocks[1..]);
        assert f[1..] == Front(blocks[1..]);
        BytesSplit(PointsOf(blocks[0].dps), Flat(Fixed(f[1..])));
      }
    } else {
      NoBytes();
    }
  }

  lemma NoBytes()
    ensures Flat([]) == [] && BytesOf([]) == 0 && Fixed([]) == []
  {}

  // ---- the front at a length ----

  /** Some block repeats. */
  predicate Repeats(blocks: seq<Block>) {
    var f := Front(blocks); f != [] && f[|f| - 1].repeating
  }

  /** The points of the first block that repeats, and their registers. */
  function Cycle(blocks: seq<Block>): seq<Point>
    requires Repeats(blocks)
  {
    PointsOf(Front(blocks)[|Front(blocks)| - 1].dps)
  }

  function Regs(blocks: seq<Block>): (r: nat)
    requires Divisible(blocks) && Repeats(blocks)
    ensures r > 0
  {
    var f := Front(blocks);
    assert f[|f| - 1] in blocks;
    RegsOf(Cycle(blocks))
  }

  /** The points in front of it. */
  function Opening(blocks: seq<Block>): seq<Point> {
    Flat(Fixed(Front(blocks)))
  }

  lemma FrontParts(blocks: seq<Block>)
    requires Divisible(blocks) && Repeats(blocks)
    ensures var f := Front(blocks);
            && f == Fixed(f) + [f[|f| - 1]] && NoneRepeat(Fixed(f)) && Divisible(f) && Divisible(Behind(blocks))
            && Flat(f) == Opening(blocks) + Cycle(blocks)
  {
    hide Flat, PointsOf, RegsOf, Front, Divisible;
    Parts(blocks);
    FixedPart(Front(blocks));
    FixedEnds(Front(blocks));
    FixedIsPrefix(Front(blocks));
  }

  /** Without enough bytes for its points the front is not whole; with them, it is the points in front of the
      repeating block and a number of whole records. */
  lemma FrontShown(blocks: seq<Block>, len: nat)
    requires Divisible(blocks) && Repeats(blocks) && BytesOf(Opening(blocks)) <= len
    ensures Divisible(Front(blocks))
    ensures var n := Count(true, Regs(blocks), len - BytesOf(Opening(blocks)));
            && Shown(Front(blocks), len) == Opening(blocks) + Copies(Cycle(blocks), n)
            && BytesOf(Shown(Front(blocks), len)) == BytesOf(Opening(blocks)) + Nth(n, BytesOf(Cycle(blocks)), 0)
  {
    hide Flat, BytesOf, PointsOf, RegsOf, Front, Nth, RecordPoints, Copies, Divisible;
    FrontParts(blocks);
    var f := Front(blocks);
    var last := f[|f| - 1];
    var points, rest := Cycle(blocks), len - BytesOf(Opening(blocks));
    FixedShown(Fixed(f), len);
    assert Regs(blocks) == RegsOf(PointsOf(last.dps));
    OneShown(last, rest);
    ShownConcat(Fixed(f), [last], len);
    RegsCover(points);
    CountFits(rest, Regs(blocks), BytesOf(points));
    WholeCopies(points, rest, Count(true, Regs(blocks), rest));
    BytesSplit(Opening(blocks), Copies(points, Count(true, Regs(blocks), rest)));
  }

  lemma OneShown(b: Block, len: nat)
    requires b.repeating && RegsOf(PointsOf(b.dps)) > 0
    ensures Divisible([b])
    ensures Shown([b], len) == RecordPoints(PointsOf(b.dps), len, Count(true, RegsOf(PointsOf(b.dps)), len))
  {
    assert [b][1..] == [];
    hide RegsOf, PointsOf, RecordPoints;
  }

  lemma WholeShown(blocks: seq<Block>, len: nat)
    requires Divisible(blocks)
    ensures Divisible(Front(blocks)) && Divisible(Behind(blocks))
    ensures Shown(blocks, len)
         == Shown(Front(blocks), len) + Shown(Behind(blocks), len - BytesOf(Shown(Front(blocks), len)))
  {
    hide Front, Behind, Shown, Divisible;
    Parts(blocks);
    ShownConcat(Front(blocks), Behind(blocks), len);
  }

  // ---- lengths ----

  /** The bytes of n records and some registers more. */
  function Length(blocks: seq<Block>, n: nat, rest: nat): nat
    requires Divisible(blocks) && Repeats(blocks)
  {
    2 * (RegsOf(Opening(blocks)) + Nth(n, Regs(blocks), rest))
  }

  lemma OpeningBytes(blocks: seq<Block>)
    requires Divisible(blocks) && Repeats(blocks) && EvenStrings(Front(blocks))
    ensures BytesOf(Opening(blocks)) == 2 * RegsOf(Opening(blocks))
    ensures BytesOf(Cycle(blocks)) == 2 * Regs(blocks)
  {
    hide BytesOf, RegsOf, PointsOf, Flat, Front, Even, Divisible;
    FrontParts(blocks);
    var f := Front(blocks);
    assert forall i :: 0 <= i < |Fixed(f)| ==> Fixed(f)[i] == f[i];
    FlatEven(Fixed(f));
    RegsCover(Cycle(blocks));
  }

  lemma RecordsAt(n: nat, r: nat, rest: nat)
    requires r > 0 && rest < r
    ensures 2 * Nth(n, r, rest) / r / 2 == n && 2 * Nth(n, r, rest) - Nth(n, 2 * r, 0) == 2 * rest
  {
    HalfCount(Nth(n, r, rest), r);
    QuotientIs(Nth(n, r, rest), r, n);
  }

  /** The points shown at such a length. */
  lemma ShownAt(blocks: seq<Block>, n: nat, rest: nat)
    requires Divisible(blocks) && Repeats(blocks) && EvenStrings(Front(blocks)) && rest < Regs(blocks)
    ensures Divisible(Front(blocks)) && Divisible(Behind(blocks))
    ensures var len, front := Length(blocks, n, rest), Opening(blocks) + Copies(Cycle(blocks), n);
            Shown(Front(blocks), len) == front && Shown(blocks, len) == front + Shown(Behind(blocks), 2 * rest)
  {
    hide BytesOf, Nth, Regs, Opening, Cycle, Front, Behind, Shown, Copies, Divisible, EvenStrings, RegsOf;
    OpeningBytes(blocks);
    RecordsAt(n, Regs(blocks), rest);
    FrontShown(blocks, Length(blocks, n, rest));
    WholeShown(blocks, Length(blocks, n, rest));
  }

  /** Every even length that covers the points in front is such a length. */
  lemma LengthSplits(blocks: seq<Block>, len: nat) returns (n: nat, rest: nat)
    requires Divisible(blocks) && Repeats(blocks) && len % 2 == 0 && 2 * RegsOf(Opening(blocks)) <= len
    ensures rest < Regs(blocks) && len == Length(blocks, n, rest)
  {
    hide RegsOf, Regs, Opening;
    var x, r := len / 2 - RegsOf(Opening(blocks)), Regs(blocks);
    n, rest := x / r, x % r;
  }

  /** Lengths of a device that cover the fixed part; limit is 2 * 0xFFFF for the 16-bit length of a data block. */
  predicate Covers(blocks: seq<Block>, len: nat, limit: nat) {
    len % 2 == 0 && FixedBytes(blocks) <= len <= limit
  }

  /** The least number of records, from n on, with which a length covers the fixed part. */
  function Needed(blocks: seq<Block>, n: nat, rest: nat): (m: nat)
    requires Divisible(blocks) && Repeats(blocks)
    ensures m >= n && FixedBytes(blocks) <= Length(blocks, m, rest)
    ensures forall k :: n <= k < m ==> Length(blocks, k, rest) < FixedBytes(blocks)
    decreases FixedBytes(blocks) - Length(blocks, n, rest)
  {
    NthStep(n + 1, Regs(blocks), rest);
    if FixedBytes(blocks) <= Length(blocks, n, rest) then n else Needed(blocks, n + 1, rest)
  }

  lemma NeededIsLess(blocks: seq<Block>, n: nat, rest: nat)
    requires Divisible(blocks) && Repeats(blocks) && n > 0 && FixedBytes(blocks) <= Length(blocks, n, rest)
    ensures Length(blocks, Needed(blocks, 1, rest), rest) <= Length(blocks, n, rest)
  {
    hide RegsOf, Opening, FixedBytes;
    var m := Needed(blocks, 1, rest);
    assert m <= n;
    NthMonotone(m, n, Regs(blocks), rest);
  }

  lemma NthMonotone(m: nat, n: nat, r: nat, k: nat)
    requires m <= n
    ensures Nth(m, r, k) <= Nth(n, r, k)
  {
    TimesLe(m, n, r);
  }

  // ---- all references, over all lengths ----

  /** The points that the first repeating block leaves rest registers to, with records or without. */
  function Seen(blocks: seq<Block>, some: bool, rest: nat): seq<Point>
    requires Divisible(blocks) && Repeats(blocks)
  {
    Parts(blocks);
    Opening(blocks) + (if some then Cycle(blocks) else []) + Shown(Behind(blocks), 2 * rest)
  }

  /** The finitely many cases: for each rest of less than a record, the points without a record if that covers the
      fixed part, and with one if some number of records covers it. */
  ghost predicate RestsOk(blocks: seq<Block>, limit: nat)
    requires Divisible(blocks) && Repeats(blocks)
  {
    forall rest :: 0 <= rest < Regs(blocks) ==>
                     && (Covers(blocks, Length(blocks, 0, rest), limit) ==> RestOk(blocks, false, rest))
                     && (Covers(blocks, Length(blocks, Needed(blocks, 1, rest), rest), limit) ==>
                           RestOk(blocks, true, rest))
  }

  ghost predicate RestOk(blocks: seq<Block>, some: bool, rest: nat)
    requires Divisible(blocks) && Repeats(blocks)
  {
    Finds(Seen(blocks, some, rest), Seen(blocks, some, rest))
  }

  /** Further records show nothing new. */
  lemma FoundAt(blocks: seq<Block>, n: nat, rest: nat, body: seq<Byte>)
    requires Divisible(blocks) && Repeats(blocks) && EvenStrings(Front(blocks)) && rest < Regs(blocks)
    requires |body| == Length(blocks, n, rest)
    ensures AllFound(BodyValues(blocks, body)) <==> RestOk(blocks, n > 0, rest)
  {
    hide Regs, Opening, Cycle, Front, Behind, Shown, Copies, Divisible, EvenStrings, AllFound, BodyValues, Finds,
      Length, Repeats;
    FoundIsExact(blocks, body);
    ShownAt(blocks, n, rest);
    var pts, seen := Shown(blocks, |body|), Seen(blocks, n > 0, rest);
    forall p ensures p in pts <==> p in seen { CopiesHold(Cycle(blocks), n, p); }
    SamePoints(pts, pts, seen, seen);
  }

  /** For every model in which a block repeats, with even strings up to it: no device leaves a reference open if and
      only if the finitely many cases leave none. */
  lemma DevicesAreExact(blocks: seq<Block>, limit: nat)
    requires Divisible(blocks) && Repeats(blocks) && EvenStrings(Front(blocks))
    ensures RestsOk(blocks, limit)
       <==> forall body: seq<Byte> :: Covers(blocks, |body|, limit) ==> AllFound(BodyValues(blocks, body))
  {
    hide Regs, Opening, Front, Divisible, EvenStrings, AllFound, BodyValues, FixedBytes, Length, Repeats, RestOk,
      BytesOf, RegsOf;
    if RestsOk(blocks, limit) {
      forall body: seq<Byte> | Covers(blocks, |body|, limit) ensures AllFound(BodyValues(blocks, body)) {
        FrontBytes(blocks);
        OpeningBytes(blocks);
        OpeningIs(blocks);
        var n, rest := LengthSplits(blocks, |body|);
        if n > 0 { NeededIsLess(blocks, n, rest); }
        LengthIsEven(blocks, Needed(blocks, 1, rest), rest);
        FoundAt(blocks, n, rest, body);
      }
    }
    if forall body: seq<Byte> :: Covers(blocks, |body|, limit) ==> AllFound(BodyValues(blocks, body)) {
      forall rest | 0 <= rest < Regs(blocks)
        ensures Covers(blocks, Length(blocks, 0, rest), limit) ==> RestOk(blocks, false, rest)
        ensures Covers(blocks, Length(blocks, Needed(blocks, 1, rest), rest), limit) ==> RestOk(blocks, true, rest)
      {
        var m := Needed(blocks, 1, rest);
        var a, b := Zeros(Length(blocks, 0, rest)), Zeros(Length(blocks, m, rest));
        FoundAt(blocks, 0, rest, a);
        FoundAt(blocks, m, rest, b);
      }
    }
  }

  function Zeros(n: nat): (b: seq<Byte>)
    ensures |b| == n
  {
    seq(n, i => 0)
  }

  lemma LengthIsEven(blocks: seq<Block>, n: nat, rest: nat)
    requires Divisible(blocks) && Repeats(blocks)
    ensures Length(blocks, n, rest) % 2 == 0
  {}

  lemma OpeningIs(blocks: seq<Block>)
    ensures Opening(blocks) == Flat(Fixed(Front(blocks)))
  {}

  // ---- references up to the first repeating block ----

  lemma {:induction false} FindConcat(a: seq<Block>, b: seq<Block>, name: string)
    ensures FindInModel(a + b, name)
         == if FindInModel(a, name).Some? then FindInModel(a, name) else FindInModel(b, name)
  {
    hide FindPoint, PointsOf;
    if a == [] {
      assert a + b == b;
    } else {
      assert (a + b)[1..] == a[1..] + b;
      FindConcat(a[1..], b, name);
    }
  }

  /** Every reference up to the first repeating block is to a name that is borne there, or behind it by a point that
      takes no bytes. */
  ghost predicate FrontOk(blocks: seq<Block>)
    requires Divisible(blocks)
  {
    Parts(blocks);
    Finds(Flat(Front(blocks)), Flat(Front(blocks)) + Shown(Behind(blocks), 0))
  }

  /** The references of the values up to the first repeating block are all found in the dataset. */
  ghost predicate Settled(blocks: seq<Block>, body: seq<Byte>)
    requires Divisible(blocks)
  {
    Parts(blocks);
    forall v :: v in BodyValues(Front(blocks), body) && Refers(v.tp) ==>
                  FindValue(BodyValues(blocks, body), v.tp.name.value).Some?
  }

  lemma SettledIsExact(blocks: seq<Block>, body: seq<Byte>)
    requires Divisible(blocks)
    ensures Divisible(Front(blocks))
    ensures Settled(blocks, body) <==> Finds(Shown(Front(blocks), |body|), Shown(blocks, |body|))
  {
    hide BodyValues, Shown, Finds, Mirrors, Divisible, Front, FindValue;
    Parts(blocks);
    ShownIsDecoded(Front(blocks), body);
    ShownIsDecoded(blocks, body);
    FindsAreFound(BodyValues(Front(blocks), body), Shown(Front(blocks), |body|), BodyValues(blocks, body),
                  Shown(blocks, |body|));
  }

  /** A point that takes no bytes is shown at every length. */
  lemma {:induction false} FreeStays(blocks: seq<Block>, len: nat, p: Point)
    requires Divisible(blocks) && p in Shown(blocks, 0)
    ensures p in Shown(blocks, len)
    decreases |blocks|
  {
    hide RegsOf, PointsOf, BlockPoints, BytesOf;
    var points := PointsOf(blocks[0].dps);
    var q := BlockPoints(points, blocks[0].repeating, RegsOf(points), 0);
    if p in q {
      FreeInBlock(points, blocks[0].repeating, RegsOf(points), len, p);
    } else {
      FreeStays(blocks[1..], len - BytesOf(BlockPoints(points, blocks[0].repeating, RegsOf(points), len)), p);
    }
  }

  lemma FreeInBlock(points: seq<Point>, repeating: bool, regs: nat, len: nat, p: Point)
    requires (repeating ==> regs > 0) && p in BlockPoints(points, repeating, regs, 0)
    ensures p in BlockPoints(points, repeating, regs, len)
  {
    hide PointsIn, BytesOf;
    if !repeating {
      assert RecordPoints(points, 0, 0) == [];
      FreeInPoints(points, len, p);
    }
  }

  lemma {:induction false} FreeInPoints(points: seq<Point>, len: nat, p: Point)
    requires p in PointsIn(points, 0)
    ensures p in PointsIn(points, len)
  {
    hide *;
    PointsInStep(points, 0, p);
    PointsInStep(points, len, p);
    if p != points[0] { FreeInPoints(points[1..], len - PairSize(points[0].tp), p); }
  }

  lemma PointsInStep(points: seq<Point>, len: nat, p: Point)
    ensures p in PointsIn(points, len)
       <==> points != [] && PairSize(points[0].tp) <= len
            && (p == points[0] || p in PointsIn(points[1..], len - PairSize(points[0].tp)))
  {
    hide PairSize, BytesOf;
    if points != [] && PairSize(points[0].tp) <= len {
      assert PointsIn(points, len) == [points[0]] + PointsIn(points[1..], len - PairSize(points[0].tp));
    }
  }

  // ---- what the check says of them ----

  lemma BorneIsFound(pts: seq<Point>, name: string)
    ensures Borne(pts, name) <==> FindPoint(pts, name).Some?
  {
    hide FindPoint;
  }

  /** In a checked model a point in front of the repeating block refers to another one in front of it. */
  lemma CheckedOpening(blocks: seq<Block>, p: Point)
    requires ScaleFactorsOk(blocks) && p in Opening(blocks) && Refers(p.tp)
    requires Borne(Flat(Front(blocks)), p.tp.name.value)
    ensures Borne(Opening(blocks), p.tp.name.value)
  {
    hide Flat, FindPoint, FindInModel, Borne, LastRepeats;
    var f, name := Front(blocks), p.tp.name.value;
    var j: nat :| j < |Opening(blocks)| && Opening(blocks)[j] == p;
    var i, k := FixedPointOf(f, j);
    assert f[i] == blocks[i];
    CheckedPoint(blocks, i, k);
    BorneIsFound(Flat(f), name);
    FindFlat(f, name);
    Parts(blocks);
    FindConcat(f, Behind(blocks), name);
    FixedIsPrefix(f);
    var m := FindPoint(Flat(f), name).value;
    BorneAt(Opening(blocks), m, name);
  }

  lemma BorneAt(pts: seq<Point>, m: nat, name: string)
    requires m < |pts| && pts[m].name == name
    ensures Borne(pts, name)
  {}

  /** In a checked model all references up to the first repeating block are borne, if no block repeats. */
  lemma CheckedFlat(blocks: seq<Block>)
    requires ScaleFactorsOk(blocks) && LastRepeats(blocks)
    ensures Finds(Flat(blocks), Flat(blocks))
  {
    hide Flat, FindPoint, FindInModel, Borne, LastRepeats;
    forall p | p in Flat(blocks) && Refers(p.tp) ensures Borne(Flat(blocks), p.tp.name.value) {
      var j: nat :| j < |Flat(blocks)| && Flat(blocks)[j] == p;
      FlatMember(blocks, j);
      var i: nat, k: nat :| i < |blocks| && k < |blocks[i].dps| && Flat(blocks)[j] == blocks[i].dps[k].point;
      CheckedPoint(blocks, i, k);
      FindFlat(blocks, p.tp.name.value);
      BorneIsFound(Flat(blocks), p.tp.name.value);
    }
  }

  lemma FrontSettles(blocks: seq<Block>, body: seq<Byte>)
    requires Divisible(blocks) && ScaleFactorsOk(blocks) && FrontOk(blocks) && FixedBytes(blocks) <= |body|
    ensures Settled(blocks, body)
  {
    hide BodyValues, BytesOf, Front, Flat, FixedBytes, Divisible, ScaleFactorsOk, Shown, Borne, Settled, LastRepeats,
      Opening, Cycle;
    SettledIsExact(blocks, body);
    WholeShown(blocks, |body|);
    Parts(blocks);
    var front, flat, len := Shown(Front(blocks), |body|), Flat(Front(blocks)), |body|;
    var behind := Shown(Behind(blocks), len - BytesOf(front));
    var n := FrontCopies(blocks, len);
    forall p | p in front && Refers(p.tp) ensures Borne(front + behind, p.tp.name.value) {
      var name := p.tp.name.value;
      assert p in flat;
      BornePart(flat, Shown(Behind(blocks), 0), name);
      BornePart(front, behind, name);
      if Borne(Shown(Behind(blocks), 0), name) {
        FreeName(Behind(blocks), len - BytesOf(front), name);
      } else if n == 0 {
        CheckedOpening(blocks, p);
      } else {
        BorneAmong(flat, front, name);
      }
    }
  }

  /** The front at a length that covers it: without a record only its opening, otherwise all its points. */
  lemma FrontCopies(blocks: seq<Block>, len: nat) returns (n: nat)
    requires Divisible(blocks) && FixedBytes(blocks) <= len
    ensures Divisible(Front(blocks)) && forall p :: p in Shown(Front(blocks), len) ==> p in Flat(Front(blocks))
    ensures n == 0 ==> Shown(Front(blocks), len) == Opening(blocks)
    ensures n > 0 ==> forall p :: p in Flat(Front(blocks)) ==> p in Shown(Front(blocks), len)
  {
    hide BytesOf, Front, Flat, FixedBytes, Divisible, Shown, RegsOf, Cycle, Regs;
    FrontBytes(blocks);
    if Repeats(blocks) {
      FrontShown(blocks, len);
      FrontParts(blocks);
      n := Count(true, Regs(blocks), len - BytesOf(Opening(blocks)));
      forall p ensures p in Copies(Cycle(blocks), n) <==> n > 0 && p in Cycle(blocks) {
        CopiesHold(Cycle(blocks), n, p);
      }
    } else {
      n := 0;
      NoneRepeats(blocks);
      FixedShown(Front(blocks), len);
    }
  }

  lemma NoneRepeats(blocks: seq<Block>)
    requires !Repeats(blocks)
    ensures Front(blocks) == blocks && Behind(blocks) == [] && NoneRepeat(blocks) && Fixed(Front(blocks)) == blocks
  {}

  lemma FreeName(blocks: seq<Block>, len: nat, name: string)
    requires Divisible(blocks) && Borne(Shown(blocks, 0), name)
    ensures Borne(Shown(blocks, len), name)
  {
    hide Shown, Divisible;
    var pts := Shown(blocks, 0);
    var i :| 0 <= i < |pts| && pts[i].name == name;
    FreeStays(blocks, len, pts[i]);
    BorneBy(Shown(blocks, len), pts[i]);
  }

  lemma BorneBy(pts: seq<Point>, p: Point)
    requires p in pts
    ensures Borne(pts, p.name)
  {}

  lemma BorneAmong(a: seq<Point>, b: seq<Point>, name: string)
    requires Borne(a, name) && forall p :: p in a ==> p in b
    ensures Borne(b, name)
  {
    var i :| 0 <= i < |a| && a[i].name == name;
    BorneBy(b, a[i]);
  }

  /** Where the front is not in order: the least number of records that covers the fixed part, and nothing more,
      leaves one of its references open. */
  lemma LateReference(blocks: seq<Block>, body: seq<Byte>)
    requires Divisible(blocks) && Repeats(blocks) && EvenStrings(Front(blocks)) && !FrontOk(blocks)
    requires |body| == Length(blocks, Needed(blocks, 1, 0), 0)
    ensures FixedBytes(blocks) <= |body| && |body| % 2 == 0 && !Settled(blocks, body)
  {
    hide Regs, Opening, Cycle, Front, Behind, Shown, Copies, Divisible, EvenStrings, Settled, Finds, Flat, Repeats,
      FixedBytes, Length;
    var n := Needed(blocks, 1, 0);
    LengthIsEven(blocks, n, 0);
    SettledIsExact(blocks, body);
    ShownAt(blocks, n, 0);
    FrontParts(blocks);
    var front, flat, free := Shown(Front(blocks), |body|), Flat(Front(blocks)), Shown(Behind(blocks), 0);
    forall p ensures p in front <==> p in flat { CopiesHold(Cycle(blocks), n, p); }
    SamePoints(front, front + free, flat, flat + free);
  }

  /** For a model that passes the check, where that least length is one of a device: the references up to the first
      repeating block are found in the dataset of every device, if and only if their names are all borne there or
      without bytes. */
  lemma FrontIsExact(blocks: seq<Block>, limit: nat)
    requires Divisible(blocks) && ScaleFactorsOk(blocks) && EvenStrings(Front(blocks))
    requires Repeats(blocks) ==> Length(blocks, Needed(blocks, 1, 0), 0) <= limit
    ensures FrontOk(blocks)
       <==> forall body: seq<Byte> :: Covers(blocks, |body|, limit) ==> Settled(blocks, body)
  {
    hide FixedBytes, ScaleFactorsOk, EvenStrings, Settled, Front, Divisible, Finds, Repeats, Length;
    if FrontOk(blocks) {
      forall body: seq<Byte> | Covers(blocks, |body|, limit) ensures Settled(blocks, body) {
        FrontSettles(blocks, body);
      }
    } else if Repeats(blocks) {
      var body := Zeros(Length(blocks, Needed(blocks, 1, 0), 0));
      LateReference(blocks, body);
    } else {
      NothingRepeats(blocks);
      assert false;
    }
  }

  lemma NothingRepeats(blocks: seq<Block>)
    requires Divisible(blocks) && ScaleFactorsOk(blocks) && !Repeats(blocks)
    ensures FrontOk(blocks)
  {
    hide Flat, ScaleFactorsOk, Finds;
    NoneRepeats(blocks);
    CheckedFlat(blocks);
    Parts(blocks);
    assert Flat(blocks) + Shown([], 0) == Flat(blocks);
  }

  // ---- inputs ----

  const X: Point := SunsRecords.X
  const S: Point := SunsRecords.S
  const Y: Point := Point("y", TypePair(Int32, None, 0, 0))

  /** A reference to "s" when no such point is shown. */
  lemma LeftOpen(blocks: seq<Block>, body: seq<Byte>, i: nat)
    requires Divisible(blocks) && i < |Shown(blocks, |body|)| && Shown(blocks, |body|)[i] == X
    requires forall p :: p in Shown(blocks, |body|) ==> p.name != "s"
    ensures var vs := BodyValues(blocks, body);
            && |vs| == |Shown(blocks, |body|)| && Refers(vs[i].tp) && vs[i].tp.name == Some("s")
            && FindValue(vs, "s") == None && !AllFound(vs)
  {
    hide BodyValues, Shown, FindValue;
    var vs := BodyValues(blocks, body);
    ShownIsDecoded(blocks, body);
    SeenRefers(X.tp);
    assert forall k :: 0 <= k < |vs| ==> vs[k].name != "s";
    assert vs[i] in vs;
  }

  lemma Sizes()
    ensures BytesOf([X]) == 2 && BytesOf([S]) == 2 && BytesOf([X, S]) == 4 && BytesOf([Y]) == 4
    ensures RegsOf([X]) == 1 && RegsOf([Y]) == 2
    ensures Even([X]) && Even([Y])
  {
    SunsRecords.TwoPoints();
    OnePoint(X);
    OnePoint(S);
    OnePoint(Y);
    assert [X][..0] == [] && [Y][..0] == [];
  }

  /** One block that does not repeat. */
  lemma FixedOne(b: Block, len: nat)
    requires !b.repeating
    ensures Divisible([b])
    ensures var points := PointsOf(b.dps);
            Shown([b], len) == if BytesOf(points) <= len then points else PointsIn(points, len)
  {
    hide BytesOf, PointsOf, RegsOf, PointsIn;
    assert [b][1..] == [];
    assert forall m: nat :: RecordPoints(PointsOf(b.dps), m, 0) == [];
  }

  /** A block that repeats once or more, and one behind it. */
  lemma TwoShown(a: Block, b: Block, n: nat, rest: nat)
    requires a.repeating && !b.repeating && RegsOf(PointsOf(a.dps)) > rest && Even(PointsOf(a.dps))
    ensures Divisible([a, b]) && !LastRepeats([a, b])
    ensures FixedBytes([a, b]) == BytesOf(PointsOf(b.dps))
    ensures Shown([a, b], 2 * Nth(n, RegsOf(PointsOf(a.dps)), rest))
         == Copies(PointsOf(a.dps), n) + Shown([b], 2 * rest)
  {
    hide BytesOf, PointsOf, RegsOf, Shown, Even, Nth;
    var points, len := PointsOf(a.dps), 2 * Nth(n, RegsOf(PointsOf(a.dps)), rest);
    FixedOne(b, 2 * rest);
    OneShown(a, len);
    RegsCover(points);
    RecordsAt(n, RegsOf(points), rest);
    WholeCopies(points, len, n);
    assert [a] + [b] == [a, b];
    ShownConcat([a], [b], len);
    TwoSizes(a, b);
  }

  lemma TwoSizes(a: Block, b: Block)
    requires a.repeating && !b.repeating
    ensures FixedBytes([a, b]) == BytesOf(PointsOf(b.dps)) && !LastRepeats([a, b])
  {
    hide BytesOf, PointsOf;
    assert [a, b][1..] == [b] && [b][1..] == [] && [a, b][0].repeating;
    assert FixedBytes([b]) == BytesOf(PointsOf(b.dps));
  }

  /** The check accepts X in one block with S in another that does not repeat. */
  lemma ChecksOut(blocks: seq<Block>)
    requires forall b :: b in blocks ==> PointsOf(b.dps) in {[X], [S], [Y], [X, S]}
    requires FindInModel(blocks, "s") == Some(Found(S, false))
    ensures ScaleFactorsOk(blocks)
  {
    hide FindInModel, PointsOf;
    forall b, k | b in blocks && 0 <= k < |b.dps| ensures ReferenceOk(blocks, b.repeating, b.dps[k].point) {
      assert b.dps[k].point == PointsOf(b.dps)[k];
    }
  }

  lemma FoundBehind(a: Block, b: Block)
    requires PointsOf(a.dps) in {[X], [Y]} && !b.repeating && PointsOf(b.dps) in {[S], [X, S]}
    ensures FindInModel([a, b], "s") == FindInModel([b], "s") == Some(Found(S, false))
  {
    hide FindPoint, PointsOf;
    assert [a, b][1..] == [b];
    assert FindPoint(PointsOf(a.dps), "s") == None;
    assert PointsOf(b.dps)[|PointsOf(b.dps)| - 1] == S && PointsOf(b.dps)[0].name == "s" ==> |PointsOf(b.dps)| == 1;
    assert FindPoint(PointsOf(b.dps), "s") == Some(|PointsOf(b.dps)| - 1);
  }

  /** A value in a block that repeats in front of its scale factor: the check accepts the model, the body
      covers the fixed part, and the repeating block takes all of it. */
  lemma RepeatInFront(a: Block, b: Block)
    requires a.repeating && PointsOf(a.dps) == [X] && !b.repeating && PointsOf(b.dps) == [S]
    ensures Divisible([a, b]) && ScaleFactorsOk([a, b]) && !LastRepeats([a, b]) && FixedBytes([a, b]) == 2
    ensures var vs := BodyValues([a, b], [0, 7, 0, 9]);
            && |vs| == 2 && Refers(vs[0].tp) && Refers(vs[1].tp)
            && vs[0].tp.name == vs[1].tp.name == Some("s") && FindValue(vs, "s") == None && !AllFound(vs)
  {
    hide BodyValues, BytesOf, RegsOf, PointsOf, FindInModel, Shown, FindValue, Divisible, ScaleFactorsOk;
    var body: seq<Byte> := [0, 7, 0, 9];
    Sizes();
    FoundBehind(a, b);
    ChecksOut([a, b]);
    TwoShown(a, b, 2, 0);
    FixedOne(b, 0);
    assert Copies([X], 2) == [X, X] && PointsIn([S], 0) == [];
    LeftOpen([a, b], body, 0);
    LeftOpen([a, b], body, 1);
  }

  /** A repeating block without references in front: it leaves one register for the value and none for its scale
      factor. All references up to the first repeating block are in order, as there are none. */
  lemma CutBehind(a: Block, b: Block)
    requires a.repeating && PointsOf(a.dps) == [Y] && !b.repeating && PointsOf(b.dps) == [X, S]
    ensures Divisible([a, b]) && ScaleFactorsOk([a, b]) && FrontOk([a, b]) && FixedBytes([a, b]) == 4
    ensures var vs := BodyValues([a, b], [0, 0, 0, 0, 0, 7]);
            |vs| == 2 && Refers(vs[1].tp) && vs[1].tp.name == Some("s") && FindValue(vs, "s") == None && !AllFound(vs)
  {
    hide BodyValues, BytesOf, RegsOf, PointsOf, FindInModel, Shown, FindValue, Divisible, ScaleFactorsOk, Finds, Flat;
    var body: seq<Byte> := [0, 0, 0, 0, 0, 7];
    Sizes();
    FoundBehind(a, b);
    ChecksOut([a, b]);
    TwoShown(a, b, 1, 1);
    FixedOne(b, 2);
    assert Copies([Y], 1) == [Y] && PointsIn([X, S], 2) == [X];
    LeftOpen([a, b], body, 1);
    NothingRefers(a, b);
  }

  lemma NothingRefers(a: Block, b: Block)
    requires a.repeating && PointsOf(a.dps) == [Y] && Divisible([a, b])
    ensures FrontOk([a, b])
  {
    hide Shown, Divisible, Flat, PointsOf;
    FlatOne(a);
    Parts([a, b]);
  }

  /** A device that ends before the scale factor of a fixed block. */
  lemma ShortDevice(b: Block)
    requires !b.repeating && PointsOf(b.dps) == [X, S]
    ensures Divisible([b]) && ScaleFactorsOk([b]) && LastRepeats([b]) && FixedBytes([b]) == 4
    ensures var vs := BodyValues([b], [0, 7]);
            |vs| == 1 && Refers(vs[0].tp) && vs[0].tp.name == Some("s") && FindValue(vs, "s") == None && !AllFound(vs)
  {
    hide BodyValues, BytesOf, RegsOf, PointsOf, FindInModel, FindPoint, Shown, FindValue, Divisible, ScaleFactorsOk;
    Sizes();
    FixedOne(b, 2);
    assert [X, S][0].name != "s" && [X, S][1].name == "s";
    OnlyBlock(b);
    ChecksOut([b]);
    assert PointsIn([X, S], 2) == [X];
    LeftOpen([b], [0, 7], 0);
  }

  lemma OnlyBlock(b: Block)
    requires !b.repeating && PointsOf(b.dps) == [X, S]
    ensures FindInModel([b], "s") == Some(Found(S, false)) && FixedBytes([b]) == BytesOf([X, S])
  {
    hide FindPoint, PointsOf, BytesOf;
    assert [b][1..] == [];
    assert [X, S][0].name != "s" && [X, S][1].name == "s";
    assert FindPoint([X, S], "s") == Some(1);
  }
}
