/** Where the decoder finds each point: the layout in registers and the decoder's walk in bytes agree. */
module SunsLayout {
  import opened ByteBuffer
  import opened CStrings
  import opened SunsValue
  import opened SunsModel
  import opened SunsDecode
  import opened SunsDataset

  /** The points of blocks, one behind the other. */
  function Flat(blocks: seq<Block>): seq<Point> {
    if blocks == [] then [] else PointsOf(blocks[0].dps) + Flat(blocks[1..])
  }

  /** Only the last block may repeat. */
  predicate LastRepeats(blocks: seq<Block>) {
    forall i :: 0 <= i < |blocks| - 1 ==> !blocks[i].repeating
  }

  function Fixed(blocks: seq<Block>): seq<Block> {
    if blocks != [] && blocks[|blocks| - 1].repeating then blocks[..|blocks| - 1] else blocks
  }

  predicate NoneRepeat(blocks: seq<Block>) {
    forall i :: 0 <= i < |blocks| ==> !blocks[i].repeating
  }

  lemma {:induction false} FlatSplit(a: seq<Block>, b: seq<Block>)
    ensures Flat(a + b) == Flat(a) + Flat(b)
  {
    if a == [] {
      assert a + b == b;
    } else {
      assert (a + b)[1..] == a[1..] + b;
      FlatSplit(a[1..], b);
    }
  }

  lemma {:induction false} RegsSplit(a: seq<Point>, b: seq<Point>)
    ensures RegsOf(a + b) == RegsOf(a) + RegsOf(b)
  {
    if b == [] {
      assert a + b == a;
    } else {
      assert (a + b)[..|a + b| - 1] == a + b[..|b| - 1];
      RegsSplit(a, b[..|b| - 1]);
    }
  }

  // ---- points in bytes ----

  lemma {:induction false} ValuesSplit(p: seq<Point>, q: seq<Point>, b: seq<Byte>, index: nat, rep: bool)
    requires BytesOf(p) <= |b|
    ensures PointValues(p + q, b, index, rep)
         == PointValues(p, b, index, rep) + PointValues(q, b[BytesOf(p)..], index, rep)
  {
    hide ValueOf, PairSize;
    if p == [] {
      assert p + q == q && b[0..] == b;
    } else {
      var n := PairSize(p[0].tp);
      assert (p + q)[1..] == p[1..] + q;
      ValuesSplit(p[1..], q, b[n..], index, rep);
      assert b[n..][BytesOf(p[1..])..] == b[BytesOf(p)..];
    }
  }

  /** The k-th value of a record comes from the bytes behind the points before it. */
  lemma PointAt(points: seq<Point>, b: seq<Byte>, index: nat, rep: bool, k: nat)
    requires BytesOf(points) <= |b| && k < |points|
    ensures BytesOf(points[..k]) + PairSize(points[k].tp) <= BytesOf(points)
    ensures var at := BytesOf(points[..k]);
            PointValues(points, b, index, rep)[k] == ValueOf(points[k], b[at..at + PairSize(points[k].tp)], index, rep)
  {
    hide ValueOf, PairSize;
    var p, q := points[..k], points[k..];
    assert points == p + q && q[0] == points[k];
    BytesSplit(p, q);
    ValuesSplit(p, q, b, index, rep);
    var at, n := BytesOf(p), PairSize(points[k].tp);
    assert b[at..][..n] == b[at..at + n];
  }

  /** A block with all its bytes is read whole, repeating or not. */
  lemma WholeBlock(points: seq<Point>, regs: nat, b: seq<Byte>)
    requires BytesOf(points) <= |b|
    ensures BlockValues(points, false, regs, b) == PointValues(points, b, 1, false)
    ensures BlockBytes(points, false, regs, b) == BytesOf(points)
  {
    RecordStep(points, b, 1, 1, false);
    NoRecords(points, b[BytesOf(points)..], 2, false);
  }

  /** The fixed blocks are read as one run of points. */
  lemma {:induction false} FixedBody(fixed: seq<Block>, rest: seq<Block>, body: seq<Byte>)
    requires NoneRepeat(fixed) && Divisible(rest) && BytesOf(Flat(fixed)) <= |body|
    ensures Divisible(fixed + rest)
    ensures BodyValues(fixed + rest, body)
         == PointValues(Flat(fixed), body, 1, false) + BodyValues(rest, body[BytesOf(Flat(fixed))..])
    decreases |fixed|
  {
    hide PointValues, BlockValues, BlockBytes, RegsOf, PointsOf;
    var blocks := fixed + rest;
    if fixed == [] {
      assert blocks == rest && body[0..] == body;
      NoPoints([], body, 1, false);
    } else {
      var points, tail := PointsOf(fixed[0].dps), fixed[1..];
      BytesSplit(points, Flat(tail));
      var body' := body[BytesOf(points)..];
      FixedBody(tail, rest, body');
      assert blocks[1..] == tail + rest && blocks[0] == fixed[0];
      WholeBlock(points, RegsOf(points), body);
      ValuesSplit(points, Flat(tail), body, 1, false);
      assert body'[BytesOf(Flat(tail))..] == body[BytesOf(Flat(fixed))..];
      assert blocks[0..] == blocks;
      assert forall b :: b in blocks && b.repeating ==> b in rest;
      BodyStep(blocks, 0, body);
      Assoc3(PointValues(points, body, 1, false), PointValues(Flat(tail), body', 1, false),
             BodyValues(rest, body'[BytesOf(Flat(tail))..]));
    }
  }

  // ---- records in bytes ----

  /** point k of record i, with n to a record */
  function Nth(i: nat, n: nat, k: nat): (r: nat)
    ensures r >= k
  {
    i * n + k
  }

  lemma NthStep(i: nat, n: nat, k: nat)
    requires i > 0
    ensures Nth(i, n, k) == Nth(i - 1, n, k) + n
  {}

  lemma NthFirst(n: nat, k: nat)
    ensures Nth(0, n, k) == k
  {}

  lemma {:induction false} RecordsLength(points: seq<Point>, b: seq<Byte>, n: nat, index: nat, rep: bool)
    requires Nth(n, BytesOf(points), 0) <= |b|
    ensures |Records(points, b, n, index, rep)| == Nth(n, |points|, 0)
    decreases n
  {
    hide PointValues, BytesOf, Nth;
    NthFirst(|points|, 0);
    if n > 0 {
      var size := BytesOf(points);
      NthStep(n, size, 0);
      NthStep(n, |points|, 0);
      RecordsLength(points, b[size..], n - 1, index + 1, rep);
      WholeRecord(points, b, index, rep);
    }
  }

  lemma WholeRecord(points: seq<Point>, b: seq<Byte>, index: nat, rep: bool)
    requires BytesOf(points) <= |b|
    ensures |PointValues(points, b, index, rep)| == |points|
  {}

  /** Record i of n is numbered index + i and lies i records further on. */
  lemma {:induction false} RecordAt(points: seq<Point>, b: seq<Byte>, n: nat, index: nat, rep: bool, i: nat, k: nat)
    requires Nth(n, BytesOf(points), 0) <= |b| && i < n && k < |points|
    ensures Nth(i, BytesOf(points), 0) + BytesOf(points) <= |b|
    ensures Nth(i, |points|, k) < |Records(points, b, n, index, rep)|
    ensures k < |PointValues(points, b[Nth(i, BytesOf(points), 0)..], index + i, rep)|
    ensures Records(points, b, n, index, rep)[Nth(i, |points|, k)]
         == PointValues(points, b[Nth(i, BytesOf(points), 0)..], index + i, rep)[k]
    decreases n
  {
    hide PointValues, BytesOf, Nth, Records;
    var size := BytesOf(points);
    NthStep(n, size, 0);
    NthFirst(|points|, k);
    NthFirst(size, 0);
    WholeRecord(points, b, index, rep);
    RecordStep(points, b, n, index, rep);
    if i == 0 {
      assert b[0..] == b;
    } else {
      RecordAt(points, b[size..], n - 1, index + 1, rep, i - 1, k);
      NthStep(i, size, 0);
      NthStep(i, |points|, k);
      assert b[size..][Nth(i - 1, size, 0)..] == b[Nth(i, size, 0)..];
    }
  }

  /** Halving bytes before or after the division makes no difference. */
  lemma HalfCount(x: nat, r: nat)
    requires r > 0
    ensures 2 * x / r / 2 == x / r
  {
    var q, s := x / r, x % r;
    assert 2 * x == (2 * q) * r + 2 * s && 2 * s < 2 * r;
    var t := if 2 * s < r then 0 else 1;
    QuotientIs(2 * x, r, 2 * q + t);
  }

  lemma FixedPart(blocks: seq<Block>)
    requires LastRepeats(blocks)
    ensures NoneRepeat(Fixed(blocks))
    ensures TotalRegs(blocks, false) == RegsOf(Flat(Fixed(blocks)))
  {
    var fixed := Fixed(blocks);
    TotalOfFixed(fixed);
    if fixed != blocks {
      assert blocks[..|blocks| - 1] == fixed;
    }
  }

  lemma {:induction false} TotalOfFixed(fixed: seq<Block>)
    requires NoneRepeat(fixed)
    ensures TotalRegs(fixed, false) == RegsOf(Flat(fixed))
  {
    if fixed != [] {
      var n := |fixed| - 1;
      TotalOfFixed(fixed[..n]);
      assert fixed == fixed[..n] + [fixed[n]];
      FlatSplit(fixed[..n], [fixed[n]]);
      assert Flat([fixed[n]]) == PointsOf(fixed[n].dps) + [] by { assert [fixed[n]][1..] == []; }
      RegsSplit(Flat(fixed[..n]), PointsOf(fixed[n].dps));
      assert Flat(fixed) == Flat(fixed[..n]) + PointsOf(fixed[n].dps);
    }
  }

  ghost predicate EvenStrings(blocks: seq<Block>) {
    forall i :: 0 <= i < |blocks| ==> Even(PointsOf(blocks[i].dps))
  }

  lemma {:induction false} FlatEven(blocks: seq<Block>)
    requires EvenStrings(blocks)
    ensures Even(Flat(blocks)) && BytesOf(Flat(blocks)) == 2 * RegsOf(Flat(blocks))
  {
    hide BytesOf, RegsOf, PointsOf;
    if blocks != [] {
      assert forall i :: 0 <= i < |blocks[1..]| ==> blocks[1..][i] == blocks[i + 1];
      FlatEven(blocks[1..]);
    }
    RegsCover(Flat(blocks));
  }

  // ---- the layout ----

  /** A device length that covers the fixed part decodes to the fixed points, then whole records. */
  lemma BodyShape(blocks: seq<Block>, body: seq<Byte>)
    requires Divisible(blocks) && LastRepeats(blocks) && BytesOf(Flat(Fixed(blocks))) <= |body|
    ensures var base := BytesOf(Flat(Fixed(blocks)));
            BodyValues(blocks, body)
            == PointValues(Flat(Fixed(blocks)), body, 1, false)
            + if Fixed(blocks) == blocks then []
            else
              var points := PointsOf(blocks[|blocks| - 1].dps);
              Records(points, body[base..], (|body| - base) / RegsOf(points) / 2, 1, true)
  {
    hide BytesOf, RegsOf, PointsOf, PointValues, Records, RecordBytes, Flat;
    FixedPart(blocks);
    var fixed := Fixed(blocks);
    var base := BytesOf(Flat(fixed));
    if fixed == blocks {
      FixedBody(fixed, [], body);
      assert fixed + [] == blocks;
      assert BodyValues([], body[base..]) == [];
      assert PointValues(Flat(fixed), body, 1, false) + [] == PointValues(Flat(fixed), body, 1, false);
    } else {
      var last := blocks[|blocks| - 1];
      assert blocks == fixed + [last] && last in blocks;
      FixedBody(fixed, [last], body);
      LastBlock(last, body[base..]);
    }
  }

  lemma LastBlock(b: Block, body: seq<Byte>)
    requires b.repeating && RegsOf(PointsOf(b.dps)) > 0
    ensures Divisible([b])
    ensures var points := PointsOf(b.dps);
            BodyValues([b], body) == Records(points, body, |body| / RegsOf(points) / 2, 1, true)
  {
    hide RegsOf, PointsOf, Records, RecordBytes;
    var points := PointsOf(b.dps);
    BodyStep([b], 0, body);
    assert [b][0..] == [b];
    var vs := Records(points, body, |body| / RegsOf(points) / 2, 1, true);
    assert vs + [] == vs;
  }

  /** Value j is the one of this point, in the bytes from `at` on. */
  ghost predicate DecodedAt(vs: seq<Value>, j: nat, pt: Point, body: seq<Byte>, at: nat, index: nat, rep: bool) {
    && j < |vs| && at + PairSize(pt.tp) <= |body|
    && vs[j] == ValueOf(pt, body[at..at + PairSize(pt.tp)], index, rep)
  }

  /** The number of records that the README gives, for a device length in registers. */
  function RecordCount(blocks: seq<Block>, len: nat): nat
    requires Divisible(blocks) && blocks != [] && blocks[|blocks| - 1].repeating && TotalRegs(blocks, false) <= len
  {
    (len - TotalRegs(blocks, false)) / RegsOf(PointsOf(blocks[|blocks| - 1].dps))
  }

  /** With even strings, point k of record i is decoded from the register that the layout gives it:
      base + i * block length + offset of the point. There are RecordCount records, and no more values. */
  lemma LayoutAgrees(blocks: seq<Block>, body: seq<Byte>, len: nat, i: nat, k: nat)
    requires Divisible(blocks) && LastRepeats(blocks) && EvenStrings(blocks)
    requires blocks != [] && blocks[|blocks| - 1].repeating
    requires |body| == 2 * len && TotalRegs(blocks, false) <= len
    requires i < RecordCount(blocks, len) && k < |blocks[|blocks| - 1].dps|
    ensures var last := blocks[|blocks| - 1];
            var points := PointsOf(last.dps);
            var base := TotalRegs(blocks, false);
            var at := 2 * (base + Nth(i, RegsOf(points), RegsOf(points[..k])));
            var j := |Flat(Fixed(blocks))| + Nth(i, |points|, k);
            && |BodyValues(blocks, body)| == |Flat(Fixed(blocks))| + Nth(RecordCount(blocks, len), |points|, 0)
            && DecodedAt(BodyValues(blocks, body), j, points[k], body, at, i + 1, true)
  {
    hide BodyValues, BytesOf, RegsOf, PointValues, Records, Flat, DecodedAt, TotalRegs, Even, NoneRepeat, EvenStrings,
      Nth;
    var points, n := PointsOf(blocks[|blocks| - 1].dps), RecordCount(blocks, len);
    var base, flat := TotalRegs(blocks, false), Flat(Fixed(blocks));
    EvenParts(blocks);
    FixedPart(blocks);
    FlatEven(Fixed(blocks));
    BodyShape(blocks, body);
    HalfCount(len - base, RegsOf(points));
    Fitting(len - base, RegsOf(points));
    RecordPoint(points, body, base, n, i, k);
    WholeRecord(flat, body, 1, false);
    Behind(PointValues(flat, body, 1, false), Records(points, body[2 * base..], n, 1, true), Nth(i, |points|, k),
           points[k], body, 2 * (base + Nth(i, RegsOf(points), RegsOf(points[..k]))), i + 1, true);
  }

  lemma EvenParts(blocks: seq<Block>)
    requires EvenStrings(blocks)
    ensures EvenStrings(Fixed(blocks)) && (blocks != [] ==> Even(PointsOf(blocks[|blocks| - 1].dps)))
  {}

  lemma Behind(a: seq<Value>, b: seq<Value>, k: nat, pt: Point, body: seq<Byte>, at: nat, index: nat, rep: bool)
    requires DecodedAt(b, k, pt, body, at, index, rep)
    ensures |a + b| == |a| + |b| && DecodedAt(a + b, |a| + k, pt, body, at, index, rep)
  {}

  /** Point k of record i, where all sizes are even. */
  lemma RecordPoint(points: seq<Point>, body: seq<Byte>, base: nat, n: nat, i: nat, k: nat)
    requires Even(points) && i < n && k < |points| && 2 * base + Nth(n, 2 * RegsOf(points), 0) <= |body|
    ensures 2 * base <= |body|
    ensures var vs := Records(points, body[2 * base..], n, 1, true);
            var at := 2 * (base + Nth(i, RegsOf(points), RegsOf(points[..k])));
            |vs| == Nth(n, |points|, 0) && DecodedAt(vs, Nth(i, |points|, k), points[k], body, at, i + 1, true)
  {
    hide BytesOf, RegsOf, PointValues, Records, PairSize, ValueOf, Even, Nth;
    var rest, size := body[2 * base..], BytesOf(points);
    RegsCover(points);
    PrefixEven(points, k);
    TwiceNth(i, RegsOf(points), RegsOf(points[..k]));
    RecordsLength(points, rest, n, 1, true);
    RecordAt(points, rest, n, 1, true, i, k);
    PointAt(points, rest[Nth(i, size, 0)..], i + 1, true, k);
    Slices(body, 2 * base, Nth(i, size, 0), BytesOf(points[..k]), PairSize(points[k].tp));
  }

  lemma TwiceNth(i: nat, n: nat, k: nat)
    ensures 2 * Nth(i, n, k) == Nth(i, 2 * n, 0) + 2 * k
  {}

  lemma WholeRecords(n: nat, r: nat)
    requires r > 0
    ensures 2 * Nth(n, r, 0) / r / 2 == n
  {
    HalfCount(n * r, r);
    QuotientIs(n * r, r, n);
  }

  lemma Slices(b: seq<Byte>, x: nat, y: nat, z: nat, n: nat)
    requires x + y + z + n <= |b|
    ensures b[x..][y..][z..z + n] == b[x + y + z..x + y + z + n]
  {}

  lemma Fitting(x: nat, r: nat)
    requires r > 0
    ensures Nth(x / r, 2 * r, 0) <= 2 * x
  {
    assert x / r * r <= x;
    Scale(x / r, r);
  }

  lemma Scale(n: nat, r: nat)
    ensures n * (2 * r) == 2 * (n * r)
  {}

  lemma PrefixEven(points: seq<Point>, k: nat)
    requires Even(points) && k <= |points|
    ensures BytesOf(points[..k]) == 2 * RegsOf(points[..k])
  {
    RegsCover(points[..k]);
  }

  /** The points of the fixed blocks are decoded where the layout puts them, too. */
  lemma FixedLayoutAgrees(blocks: seq<Block>, body: seq<Byte>, i: nat, k: nat)
    requires Divisible(blocks) && LastRepeats(blocks) && EvenStrings(blocks)
    requires 2 * TotalRegs(blocks, false) <= |body|
    requires i < |Fixed(blocks)| && k < |blocks[i].dps|
    ensures var points := PointsOf(blocks[i].dps);
            var at := 2 * (TotalRegs(blocks[..i], false) + RegsOf(points[..k]));
            DecodedAt(BodyValues(blocks, body), |Flat(blocks[..i])| + k, points[k], body, at, 1, false)
  {
    hide BodyValues, BytesOf, RegsOf, PointValues, Records, DecodedAt, TotalRegs, Even, NoneRepeat, EvenStrings, Flat;
    var fixed, points := Fixed(blocks), PointsOf(blocks[i].dps);
    FixedPart(blocks);
    EvenParts(blocks);
    FlatEven(fixed);
    BodyShape(blocks, body);
    var before, after := fixed[..i], fixed[i..];
    assert fixed == before + after && before == blocks[..i] && after[0] == blocks[i];
    FixedParts(fixed, i);
    TotalOfFixed(before);
    FlatEven(before);
    PrefixEven(points, k);
    PointInRun(Flat(before), points, Flat(after[1..]), k);
    PointIn(Flat(fixed), body, 1, false, |Flat(before)| + k);
  }

  lemma FixedParts(fixed: seq<Block>, i: nat)
    requires NoneRepeat(fixed) && EvenStrings(fixed) && i < |fixed|
    ensures NoneRepeat(fixed[..i]) && EvenStrings(fixed[..i]) && Even(PointsOf(fixed[i].dps))
    ensures Flat(fixed) == Flat(fixed[..i]) + (PointsOf(fixed[i].dps) + Flat(fixed[i..][1..]))
  {
    assert fixed == fixed[..i] + fixed[i..];
    FlatSplit(fixed[..i], fixed[i..]);
    hide PointsOf;
  }

  lemma PointIn(points: seq<Point>, b: seq<Byte>, index: nat, rep: bool, k: nat)
    requires BytesOf(points) <= |b| && k < |points|
    ensures forall more ::
              DecodedAt(PointValues(points, b, index, rep) + more, k, points[k], b, BytesOf(points[..k]), index, rep)
  {
    hide BytesOf, PointValues, ValueOf;
    PointAt(points, b, index, rep, k);
    WholeRecord(points, b, index, rep);
  }

  lemma PointInRun(a: seq<Point>, b: seq<Point>, c: seq<Point>, k: nat)
    requires k < |b|
    ensures (a + (b + c))[|a| + k] == b[k] && BytesOf((a + (b + c))[..|a| + k]) == BytesOf(a) + BytesOf(b[..k])
  {
    assert (a + (b + c))[..|a| + k] == a + b[..k];
    BytesSplit(a, b[..k]);
  }
}
