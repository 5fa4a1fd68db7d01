/** Scale factors by name: the static check of a model, and their resolution in a decoded dataset. */
module ScaleFactors {
  import opened ByteBuffer
  import opened CStrings
  import opened SunsValue
  import opened SunsModel
  import opened SunsDecode

  // ---- in a model ----

  /** The first occurrence of a name. */
  function FindName(names: seq<string>, name: string): (r: Option<nat>)
    ensures r.Some? ==> r.value < |names| && names[r.value] == name
    ensures forall i :: 0 <= i < (if r.Some? then r.value else |names|) ==> names[i] != name
  {
    if names == [] then None
    else if names[0] == name then Some(0)
    else match FindName(names[1..], name) case Some(k) => Some(k + 1) case None => None
  }

  function FindPoint(points: seq<Point>, name: string): (r: Option<nat>)
    ensures r.Some? ==> r.value < |points| && points[r.value].name == name
    ensures forall i :: 0 <= i < (if r.Some? then r.value else |points|) ==> points[i].name != name
  {
    var names := seq(|points|, i requires 0 <= i < |points| => points[i].name);
    assert forall i :: 0 <= i < |points| ==> names[i] == points[i].name;
    FindName(names, name)
  }

  datatype Found = Found(point: Point, repeating: bool)

  function FindInModel(blocks: seq<Block>, name: string): Option<Found> {
    if blocks == [] then None
    else
      match FindPoint(PointsOf(blocks[0].dps), name)
      case Some(k) => Some(Found(PointsOf(blocks[0].dps)[k], blocks[0].repeating))
      case None => FindInModel(blocks[1..], name)
  }

  /** Points with a scale factor that is another point. */
  predicate Refers(tp: TypePair) {
    IsNumeric(tp.kind) && tp.name.Some?
  }

  /** The reference is to a point of the model, and a point outside the repeating block does not
      refer to one inside. */
  predicate ReferenceOk(blocks: seq<Block>, repeating: bool, p: Point) {
    Refers(p.tp) ==>
      var f := FindInModel(blocks, p.tp.name.value);
      f.Some? && (f.value.repeating ==> repeating)
  }

  ghost predicate ScaleFactorsOk(blocks: seq<Block>) {
    forall b, k :: b in blocks && 0 <= k < |b.dps| ==> ReferenceOk(blocks, b.repeating, b.dps[k].point)
  }

  /** Point l of block c is the first point of the model with this name. */
  predicate FirstPoint(blocks: seq<Block>, name: string, c: nat, l: nat) {
    && c < |blocks| && l < |blocks[c].dps| && blocks[c].dps[l].point.name == name
    && (forall k :: 0 <= k < l ==> blocks[c].dps[k].point.name != name)
    && forall b, k :: 0 <= b < c && 0 <= k < |blocks[b].dps| ==> blocks[b].dps[k].point.name != name
  }

  /** What the search finds, block by block and point by point. */
  lemma {:induction false} FoundFirst(blocks: seq<Block>, name: string) returns (c: nat, l: nat)
    ensures FindInModel(blocks, name).Some? ==>
              && FirstPoint(blocks, name, c, l)
              && FindInModel(blocks, name).value == Found(blocks[c].dps[l].point, blocks[c].repeating)
    ensures FindInModel(blocks, name).None? ==>
              forall b, k :: 0 <= b < |blocks| && 0 <= k < |blocks[b].dps| ==> blocks[b].dps[k].point.name != name
  {
    c, l := 0, 0;
    if blocks != [] {
      var points := PointsOf(blocks[0].dps);
      var f := FindPoint(points, name);
      if f.Some? {
        l := f.value;
      } else {
        hide FindPoint;
        c, l := FoundFirst(blocks[1..], name);
        c := c + 1;
        forall b, k | 0 <= b < |blocks| && 0 <= k < |blocks[b].dps|
                      && (FindInModel(blocks, name).None? || b < c || (b == c && k < l))
          ensures blocks[b].dps[k].point.name != name
        {
          if b == 0 { assert points[k].name != name; } else { assert blocks[b] == blocks[1..][b - 1]; }
        }
      }
    }
  }

  lemma FirstIsOne(blocks: seq<Block>, name: string, c: nat, l: nat, c': nat, l': nat)
    requires FirstPoint(blocks, name, c, l) && FirstPoint(blocks, name, c', l')
    ensures c == c' && l == l'
  {}

  /** A point of one of the ten types with a name leads to the first point with it, and from outside the repeating
      block not into it. */
  ghost predicate SoundReference(blocks: seq<Block>, b: Block, p: Point) {
    p.tp.kind in {Int16, UInt16, Acc16, Int32, Float32, Acc32, Int64, UInt64, Float64, Acc64} && p.tp.name.Some? ==>
      exists c: nat, l: nat :: FirstPoint(blocks, p.tp.name.value, c, l) && (blocks[c].repeating ==> b.repeating)
  }

  lemma ReferenceMeans(blocks: seq<Block>, b: Block, p: Point)
    ensures ReferenceOk(blocks, b.repeating, p) <==> SoundReference(blocks, b, p)
  {
    hide FindInModel, FirstPoint;
    if p.tp.name.Some? {
      var name := p.tp.name.value;
      var c, l := FoundFirst(blocks, name);
      forall c': nat, l': nat | FirstPoint(blocks, name, c', l')
        ensures FindInModel(blocks, name).Some? && c' == c && l' == l
      {
        AtFirst(blocks, name, c', l');
        if FindInModel(blocks, name).Some? { FirstIsOne(blocks, name, c, l, c', l'); }
      }
      if FindInModel(blocks, name).Some? { AtFirst(blocks, name, c, l); }
    }
  }

  lemma AtFirst(blocks: seq<Block>, name: string, c: nat, l: nat)
    requires FirstPoint(blocks, name, c, l)
    ensures c < |blocks| && l < |blocks[c].dps| && blocks[c].dps[l].point.name == name
  {}

  /** suns_search_model_for_dp_by_name, with suns_search_dp_block_for_dp_by_name inside */
  method SearchModel(m: Model, name: string) returns (r: Option<Found>)
    ensures r == FindInModel(m.blocks, name)
  {
    assert m.blocks[0..] == m.blocks;
    for i := 0 to |m.blocks|
      invariant FindInModel(m.blocks[i..], name) == FindInModel(m.blocks, name)
    {
      var b := m.blocks[i];
      ghost var points := PointsOf(b.dps);
      assert m.blocks[i..][1..] == m.blocks[i + 1..] && m.blocks[i..][0] == b;
      for k := 0 to |b.dps|
        invariant forall l :: 0 <= l < k ==> points[l].name != name
      {
        if name == b.dps[k].point.name {
          assert FindPoint(points, name) == Some(k);
          return Some(Found(b.dps[k].point, b.repeating));
        }
      }
    }
    r := None;
  }

  lemma CheckMeans(blocks: seq<Block>)
    ensures ScaleFactorsOk(blocks) <==> forall i, k :: 0 <= i < |blocks| && 0 <= k < |blocks[i].dps| ==>
                                                         SoundReference(blocks, blocks[i], blocks[i].dps[k].point)
  {
    hide ReferenceOk, FirstPoint;
    forall b, k | b in blocks && 0 <= k < |b.dps|
      ensures ReferenceOk(blocks, b.repeating, b.dps[k].point) <==> SoundReference(blocks, b, b.dps[k].point)
    {
      ReferenceMeans(blocks, b, b.dps[k].point);
    }
    hide SoundReference;
    if forall i, k :: 0 <= i < |blocks| && 0 <= k < |blocks[i].dps| ==>
                        SoundReference(blocks, blocks[i], blocks[i].dps[k].point) {
      forall b, k | b in blocks && 0 <= k < |b.dps| ensures ReferenceOk(blocks, b.repeating, b.dps[k].point) {
        var i :| 0 <= i < |blocks| && blocks[i] == b;
      }
    }
  }

  /** suns_check_scale_factors */
  method CheckScaleFactors(m: Model) returns (rc: int)
    ensures rc == if ScaleFactorsOk(m.blocks) then 0 else -1
    ensures rc == 0 <==> forall i, k :: 0 <= i < |m.blocks| && 0 <= k < |m.blocks[i].dps| ==>
                                          SoundReference(m.blocks, m.blocks[i], m.blocks[i].dps[k].point)
  {
    CheckMeans(m.blocks);
    rc := 0;
    for i := 0 to |m.blocks|
      invariant rc == 0 || (rc == -1 && !ScaleFactorsOk(m.blocks))
      invariant rc == 0 ==> forall j, k :: 0 <= j < i && 0 <= k < |m.blocks[j].dps| ==>
                                             ReferenceOk(m.blocks, m.blocks[j].repeating, m.blocks[j].dps[k].point)
    {
      var block := m.blocks[i];
      for l := 0 to |block.dps|
        invariant rc == 0 || (rc == -1 && !ScaleFactorsOk(m.blocks))
        invariant rc == 0 ==> forall j, k :: 0 <= j < i && 0 <= k < |m.blocks[j].dps| ==>
                                               ReferenceOk(m.blocks, m.blocks[j].repeating, m.blocks[j].dps[k].point)
        invariant rc == 0 ==> forall k :: 0 <= k < l ==> ReferenceOk(m.blocks, block.repeating, block.dps[k].point)
      {
        var dp := block.dps[l];
        if IsNumeric(dp.point.tp.kind) && dp.point.tp.name.Some? {
          var sf := SearchModel(m, dp.point.tp.name.value);
          if sf.Some? {
            if !block.repeating && sf.value.repeating {
              assert block in m.blocks && !ReferenceOk(m.blocks, block.repeating, dp.point);
              rc := -1;
            }
          } else {
            assert block in m.blocks && !ReferenceOk(m.blocks, block.repeating, dp.point);
            rc := -1;
          }
        }
      }
    }
  }

  // ---- in a dataset ----

  function FindValue(vs: seq<Value>, name: string): (r: Option<nat>)
    ensures r.Some? ==> r.value < |vs| && vs[r.value].name == name
    ensures forall i :: 0 <= i < (if r.Some? then r.value else |vs|) ==> vs[i].name != name
  {
    var names := seq(|vs|, i requires 0 <= i < |vs| => vs[i].name);
    assert forall i :: 0 <= i < |vs| ==> names[i] == vs[i].name;
    FindName(names, name)
  }

  /** suns_search_value_list */
  method SearchValueList(vs: seq<Value>, name: string) returns (r: Option<nat>)
    ensures r == FindValue(vs, name)
  {
    for i := 0 to |vs|
      invariant forall k :: 0 <= k < i ==> vs[k].name != name
    {
      if vs[i].name == name {
        return Some(i);
      }
    }
    r := None;
  }

  /** suns_value_get_sunssf: a signed 16-bit number */
  function SfOf(p: Payload): int {
    if !p.Bits? then 0 else if p.n % 0x10000 >= 0x8000 then p.n % 0x10000 - 0x10000 else p.n % 0x10000
  }

  /** The exponent that a scale factor value stands for. */
  function Exponent(f: Value): int {
    if f.meta == NotImplemented then 0 else SfOf(f.p)
  }

  /** The value a name refers to is not a scale factor. */
  predicate BadReference(vs: seq<Value>, v: Value) {
    Refers(v.tp) && FindValue(vs, v.tp.name.value).Some? && vs[FindValue(vs, v.tp.name.value).value].tp.kind != SunsSf
  }

  /** The value with the exponent it refers to, or 0 if that is not implemented. */
  function Scaled(vs: seq<Value>, v: Value): Value {
    if Refers(v.tp) && FindValue(vs, v.tp.name.value).Some? then
      var found := vs[FindValue(vs, v.tp.name.value).value];
      v.(tp := v.tp.(sf := Exponent(found)))
    else v
  }

  /** The first value with a bad reference, or the number of values. */
  ghost predicate Stops(vs: seq<Value>, n: nat) {
    && n <= |vs| && (forall i :: 0 <= i < n ==> !BadReference(vs, vs[i]))
    && (n < |vs| ==> BadReference(vs, vs[n]))
  }

  /** Nothing but exponents is different. */
  ghost predicate SameButSf(vs: seq<Value>, ws: seq<Value>) {
    && |vs| == |ws|
    && forall i :: 0 <= i < |vs| ==> ws[i] == vs[i].(tp := vs[i].tp.(sf := ws[i].tp.sf))
  }

  lemma SameFound(vs: seq<Value>, ws: seq<Value>, name: string)
    requires SameButSf(vs, ws)
    ensures FindValue(vs, name) == FindValue(ws, name)
  {
    var a, b := FindValue(vs, name), FindValue(ws, name);
    hide FindValue;
    if a.Some? { assert ws[a.value].name == name; }
    if b.Some? { assert vs[b.value].name == name; }
  }

  lemma SameResolved(vs: seq<Value>, ws: seq<Value>, v: Value)
    requires SameButSf(vs, ws)
    ensures BadReference(vs, v) == BadReference(ws, v) && (!BadReference(vs, v) ==> Scaled(vs, v) == Scaled(ws, v))
  {
    if v.tp.name.Some? { SameFound(vs, ws, v.tp.name.value); }
    hide FindValue, SfOf;
  }

  /** Value j is the first with this name. */
  predicate FirstValue(vs: seq<Value>, name: string, j: nat) {
    j < |vs| && vs[j].name == name && forall i :: 0 <= i < j ==> vs[i].name != name
  }

  lemma ValueFound(vs: seq<Value>, name: string, j: nat)
    requires FirstValue(vs, name, j)
    ensures FindValue(vs, name) == Some(j)
  {
    var r := FindValue(vs, name);
    hide FindValue;
    if r.Some? && r.value < j { assert false; }
  }

  /** A value of one of the ten types whose name leads to a scale factor takes its exponent; a value of any other type
      stays as it is. uint32 is one of these others. */
  lemma ExponentTaken(vs: seq<Value>, v: Value, j: nat)
    requires v.tp.name.Some? && FirstValue(vs, v.tp.name.value, j) && vs[j].tp.kind == SunsSf
    ensures !BadReference(vs, v)
    ensures v.tp.kind in {Int16, UInt16, Acc16, Int32, Float32, Acc32, Int64, UInt64, Float64, Acc64} ==>
              Scaled(vs, v) == v.(tp := v.tp.(sf := Exponent(vs[j])))
    ensures v.tp.kind !in {Int16, UInt16, Acc16, Int32, Float32, Acc32, Int64, UInt64, Float64, Acc64} ==>
              Scaled(vs, v) == v
  {
    ValueFound(vs, v.tp.name.value, j);
    hide FindValue, SfOf;
  }

  /** The exponent in a scale factor's two bytes: a two's complement number, or 0 if it is not implemented. */
  lemma FieldExponent(pt: Point, b: seq<Byte>, index: nat, rep: bool)
    requires pt.tp.kind == SunsSf && |b| == 2
    ensures Exponent(ValueOf(pt, b, index, rep))
         == if b == [0x80, 0] then 0
            else if b[0] >= 0x80 then 0x100 * b[0] as int + b[1] as int - 0x1_0000
            else 0x100 * b[0] as int + b[1] as int
  {
    hide FromBE;
    NumberRead(pt.tp, b);
    MarkedShort(pt, b, index, rep);
  }

  /** Resolving stops at a value of one of the ten types whose name leads to a value that is no scale factor. */
  lemma BadMeans(vs: seq<Value>, v: Value)
    ensures BadReference(vs, v)
       <==> && v.tp.kind in {Int16, UInt16, Acc16, Int32, Float32, Acc32, Int64, UInt64, Float64, Acc64}
            && v.tp.name.Some?
            && exists j: nat :: FirstValue(vs, v.tp.name.value, j) && vs[j].tp.kind != SunsSf
  {
    if v.tp.name.Some? {
      var name := v.tp.name.value;
      var f := FindValue(vs, name);
      if f.Some? { assert FirstValue(vs, name, f.value); }
      forall j: nat | FirstValue(vs, name, j) ensures f == Some(j) { ValueFound(vs, name, j); }
    }
    hide FindValue;
  }

  /** 1234 with the implemented scale factor -2, as int32 and as uint32: the second keeps exponent 0. */
  lemma UInt32Unscaled(kind: Type)
    requires kind in {Int32, UInt32}
    ensures var sf := Value("s", TypePair(SunsSf, None, 0, 0), Implemented, Bits(0xFFFE), 1, false);
            var v := Value("x", TypePair(kind, Some("s"), 0, 0), Implemented, Bits(1234), 1, false);
            Stops([v, sf], 2) && Exponent(sf) == -2 && Scaled([v, sf], v).tp.sf == if kind == Int32 then -2 else 0
  {
    var sf := Value("s", TypePair(SunsSf, None, 0, 0), Implemented, Bits(0xFFFE), 1, false);
    var v := Value("x", TypePair(kind, Some("s"), 0, 0), Implemented, Bits(1234), 1, false);
    assert FindValue([v, sf], "s") == Some(1) by {
      assert [v, sf][0].name != "s" && [v, sf][1].name == "s";
    }
    hide FindValue;
  }

  /** A reference from a uint32 point is not checked: this model is accepted, whatever name it refers to. */
  lemma UInt32Unchecked(b: Block, name: string)
    requires |b.dps| == 1 && b.dps[0].point == Point("x", TypePair(UInt32, Some(name), 0, 0)) && name != "x"
    ensures ScaleFactorsOk([b]) && FindInModel([b], name) == None
  {
    var points := PointsOf(b.dps);
    assert FindPoint(points, name) == None;
    hide FindPoint;
    assert [b][1..] == [];
  }

  /** r is v after resolving: with the exponent of the scale factor its name leads to, if it has one of the ten types
      and there is one, and nothing else changed. */
  ghost predicate Resolved(vs: seq<Value>, v: Value, r: Value) {
    && (v.tp.kind !in {Int16, UInt16, Acc16, Int32, Float32, Acc32, Int64, UInt64, Float64, Acc64} ==> r == v)
    && (v.tp.name.None? ==> r == v)
    && (v.tp.kind in {Int16, UInt16, Acc16, Int32, Float32, Acc32, Int64, UInt64, Float64, Acc64} && v.tp.name.Some? ==>
          && (forall j: nat :: FirstValue(vs, v.tp.name.value, j) ==>
                                 vs[j].tp.kind == SunsSf && r == v.(tp := v.tp.(sf := Exponent(vs[j]))))
          && ((forall j :: 0 <= j < |vs| ==> vs[j].name != v.tp.name.value) ==> r == v))
  }

  lemma AllResolved(vs: seq<Value>, ws: seq<Value>, n: nat)
    requires n <= |vs| == |ws| && forall k :: 0 <= k < n ==> !BadReference(vs, vs[k]) && ws[k] == Scaled(vs, vs[k])
    ensures forall k :: 0 <= k < n ==> Resolved(vs, vs[k], ws[k])
  {
    forall k | 0 <= k < n ensures Resolved(vs, vs[k], ws[k]) { OneResolved(vs, vs[k]); }
  }

  lemma OneResolved(vs: seq<Value>, v: Value)
    requires !BadReference(vs, v)
    ensures Resolved(vs, v, Scaled(vs, v))
  {
    hide Exponent;
    BadMeans(vs, v);
    if v.tp.name.Some? {
      var name := v.tp.name.value;
      forall j: nat | FirstValue(vs, name, j) ensures FindValue(vs, name) == Some(j) { ValueFound(vs, name, j); }
    }
    hide FindValue, FirstValue;
  }

  /** suns_resolve_scale_factors: exponents are filled in up to the first bad reference */
  method ResolveScaleFactors(data: Dataset) returns (rc: int, ghost n: nat)
    modifies data
    ensures Stops(old(data.values), n) && rc == (if n == |old(data.values)| then 0 else -1)
    ensures |data.values| == |old(data.values)|
    ensures forall i :: 0 <= i < n ==> data.values[i] == Scaled(old(data.values), old(data.values)[i])
    ensures data.values[n..] == old(data.values)[n..]
    ensures forall i :: 0 <= i < n ==> Resolved(old(data.values), old(data.values)[i], data.values[i])
  {
    hide BadReference, Scaled, Resolved;
    ghost var vs := data.values;
    for i := 0 to |data.values|
      invariant |data.values| == |vs| && SameButSf(vs, data.values)
      invariant forall k :: 0 <= k < i ==> !BadReference(vs, vs[k]) && data.values[k] == Scaled(vs, vs[k])
      invariant data.values[i..] == vs[i..]
    {
      SameResolved(vs, data.values, vs[i]);
      assert data.values[i] == data.values[i..][0] == vs[i..][0] == vs[i];
      var bad, v := ResolveOne(data.values, data.values[i]);
      if bad {
        AllResolved(vs, data.values, i);
        return -1, i;
      }
      ghost var was := data.values;
      data.values := data.values[i := v];
      assert data.values[i + 1..] == was[i..][1..];
    }
    rc, n := 0, |data.values|;
    AllResolved(vs, data.values, n);
  }

  /** the body of the loop */
  method ResolveOne(vs: seq<Value>, v: Value) returns (bad: bool, r: Value)
    ensures bad == BadReference(vs, v) && r.(tp := r.tp.(sf := v.tp.sf)) == v
    ensures !bad ==> r == Scaled(vs, v)
  {
    bad, r := false, v;
    if v.tp.name.Some? && IsNumeric(v.tp.kind) {
      var found := SearchValueList(vs, v.tp.name.value);
      if found.Some? {
        var f := vs[found.value];
        if f.tp.kind != SunsSf {
          return true, v;
        }
        if f.meta == NotImplemented {
          r := v.(tp := v.tp.(sf := 0));
        } else {
          r := v.(tp := v.tp.(sf := SfOf(f.p)));
        }
      }
    }
  }
}
