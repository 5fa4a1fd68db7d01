/** The index that tells datasets of the same did on one device apart. */
module DatasetIndex {

  /** index is 0 while the did occurs once */
  datatype Dataset = Dataset(did: nat, index: nat)

  function CountDid(dids: seq<nat>, did: nat): nat {
    if dids == [] then 0 else CountDid(dids[..|dids| - 1], did) + if dids[|dids| - 1] == did then 1 else 0
  }

  /** What the index of arrival k has to be: 0 for a did that occurs once, otherwise its number among
      the arrivals of that did, from 1. */
  function IndexOf(dids: seq<nat>, k: nat): nat
    requires k < |dids|
  {
    if CountDid(dids, dids[k]) == 1 then 0 else CountDid(dids[..k + 1], dids[k])
  }

  function Numbered(dids: seq<nat>): (r: seq<Dataset>)
    ensures |r| == |dids| && forall k :: 0 <= k < |r| ==> r[k] == Dataset(dids[k], IndexOf(dids, k))
  {
    seq(|dids|, k requires 0 <= k < |dids| => Dataset(dids[k], IndexOf(dids, k)))
  }

  class Device {
    var datasets: seq<Dataset>

    constructor ()
      ensures datasets == []
    {
      datasets := [];
    }

    /** suns_model_get_did_index, for the dids that have arrived so far */
    method GetDidIndex(did: nat, ghost dids: seq<nat>) returns (index: nat)
      requires datasets == Numbered(dids)
      modifies `datasets
      ensures datasets + [Dataset(did, index)] == Numbered(dids + [did])
    {
      hide *;
      if |datasets| == 0 {
        FirstOfDid(dids, did);
        return 0;
      }
      var last := |datasets| - 1;
      if datasets[last].did == did {
        LastOfDid(dids, did, last);
        index := Again(did, last, dids);
        return;
      }
      var found := -1;
      for c := 0 to |datasets|
        invariant -1 <= found < c && (found >= 0 ==> datasets[found].did == did)
        invariant forall k :: found < k < c ==> datasets[k].did != did
      {
        if datasets[c].did == did {
          found := c;
        }
      }
      NumberedDids(dids);
      if found >= 0 {
        LastOfDid(dids, did, found);
        index := Again(did, found, dids);
        return;
      }
      FirstOfDid(dids, did);
      index := 0;
    }

    /** the did has been seen: number its first dataset 1 if it has no index yet */
    method Again(did: nat, found: nat, ghost dids: seq<nat>) returns (index: nat)
      requires datasets == Numbered(dids) && found < |dids| && dids[found] == did
      requires forall k :: found < k < |dids| ==> dids[k] != did
      modifies `datasets
      ensures datasets + [Dataset(did, index)] == Numbered(dids + [did])
    {
      hide *;
      Renumbered(dids, did, found);
      if datasets[found].index == 0 {
        datasets := datasets[found := datasets[found].(index := 1)];
        index := 2;
      } else {
        index := datasets[found].index + 1;
      }
    }

    /** suns_app_read_device: index first, then add the dataset */
    method Add(did: nat, ghost dids: seq<nat>)
      requires datasets == Numbered(dids)
      modifies `datasets
      ensures datasets == Numbered(dids + [did])
    {
      var index := GetDidIndex(did, dids);
      datasets := datasets + [Dataset(did, index)];
    }
  }

  lemma NumberedDids(dids: seq<nat>)
    ensures |Numbered(dids)| == |dids| && forall k :: 0 <= k < |dids| ==> Numbered(dids)[k].did == dids[k]
  {}

  lemma LastOfDid(dids: seq<nat>, did: nat, k: nat)
    requires k < |dids| && Numbered(dids)[k].did == did
    ensures dids[k] == did
  {}

  lemma {:induction false} CountNone(dids: seq<nat>, did: nat)
    ensures CountDid(dids, did) == 0 <==> did !in dids
  {
    if dids != [] {
      CountNone(dids[..|dids| - 1], did);
      assert dids == dids[..|dids| - 1] + [dids[|dids| - 1]];
    }
  }

  lemma {:induction false} CountIsNumber(dids: seq<nat>, did: nat)
    ensures CountDid(dids, did) == multiset(dids)[did]
  {
    if dids != [] {
      CountIsNumber(dids[..|dids| - 1], did);
      assert dids == dids[..|dids| - 1] + [dids[|dids| - 1]];
    }
  }

  lemma CountMore(dids: seq<nat>, did: nat, d: nat)
    ensures CountDid(dids + [did], d) == CountDid(dids, d) + if d == did then 1 else 0
  {
    assert (dids + [did])[..|dids|] == dids;
  }

  /** A new did changes no index. */
  lemma FirstOfDid(dids: seq<nat>, did: nat)
    requires did !in dids
    ensures Numbered(dids) + [Dataset(did, 0)] == Numbered(dids + [did])
  {
    var more := dids + [did];
    CountNone(dids, did);
    CountMore(dids, did, did);
    forall k | 0 <= k < |dids| ensures IndexOf(more, k) == IndexOf(dids, k) {
      CountMore(dids, did, dids[k]);
      assert more[..k + 1] == dids[..k + 1];
    }
  }

  lemma {:induction false} CountUpTo(dids: seq<nat>, did: nat, found: nat)
    requires found < |dids| && dids[found] == did && forall k :: found < k < |dids| ==> dids[k] != did
    ensures CountDid(dids, did) == CountDid(dids[..found + 1], did) > 0
  {
    var n := |dids| - 1;
    if found < n {
      CountUpTo(dids[..n], did, found);
      assert dids[..n][..found + 1] == dids[..found + 1];
    } else {
      assert dids[..found + 1] == dids;
    }
  }

  /** With one occurrence so far, there is no other. */
  lemma {:induction false} OnlyOne(dids: seq<nat>, did: nat, k: nat, found: nat)
    requires k < found < |dids| && dids[k] == did == dids[found]
    ensures CountDid(dids, did) >= 2
  {
    var n := |dids| - 1;
    if found == n {
      CountNone(dids[..n], did);
      assert dids[..n][k] == did;
    } else {
      OnlyOne(dids[..n], did, k, found);
    }
  }

  /** A did that comes again: the others keep their index, its only dataset so far becomes number 1,
      and the new number is one more than the last. */
  lemma Renumbered(dids: seq<nat>, did: nat, found: nat)
    requires found < |dids| && dids[found] == did && forall k :: found < k < |dids| ==> dids[k] != did
    ensures var r, more := Numbered(dids), dids + [did];
            && |r| == |dids|
            && (r[found].index == 0 ==> r[found := r[found].(index := 1)] + [Dataset(did, 2)] == Numbered(more))
            && (r[found].index != 0 ==> r + [Dataset(did, r[found].index + 1)] == Numbered(more))
  {
    hide IndexOf, CountDid;
    NewIndex(dids, did, found);
    forall k | 0 <= k < |dids|
      ensures IndexOf(dids + [did], k) == if k == found && IndexOf(dids, k) == 0 then 1 else IndexOf(dids, k)
    {
      KeepsIndex(dids, did, found, k);
    }
    var r, more := Numbered(dids), Numbered(dids + [did]);
    assert forall k :: 0 <= k < |dids| ==> (dids + [did])[k] == dids[k];
    assert r[found].index == 0 ==> r[found := r[found].(index := 1)] + [Dataset(did, 2)] == more;
    assert r[found].index != 0 ==> r + [Dataset(did, r[found].index + 1)] == more;
  }

  lemma NewIndex(dids: seq<nat>, did: nat, found: nat)
    requires found < |dids| && dids[found] == did && forall k :: found < k < |dids| ==> dids[k] != did
    ensures IndexOf(dids + [did], |dids|) == if IndexOf(dids, found) == 0 then 2 else IndexOf(dids, found) + 1
  {
    var more := dids + [did];
    CountUpTo(dids, did, found);
    CountMore(dids, did, did);
    assert more[..|dids| + 1] == more;
    hide CountDid;
  }

  lemma KeepsIndex(dids: seq<nat>, did: nat, found: nat, k: nat)
    requires found < |dids| && dids[found] == did && (forall k :: found < k < |dids| ==> dids[k] != did) && k < |dids|
    ensures IndexOf(dids + [did], k) == if k == found && IndexOf(dids, k) == 0 then 1 else IndexOf(dids, k)
  {
    hide CountDid;
    var more := dids + [did];
    CountUpTo(dids, did, found);
    CountMore(dids, did, dids[k]);
    assert more[..k + 1] == dids[..k + 1];
    if dids[k] == did && k < found {
      OnlyOne(dids, did, k, found);
    }
    assert dids[k] == did ==> k <= found;
  }

  /** Any sequence of datasets ends up numbered. */
  method AddAll(dids: seq<nat>) returns (device: Device)
    ensures fresh(device) && device.datasets == Numbered(dids)
  {
    device := new Device();
    assert Numbered([]) == [];
    for i := 0 to |dids|
      invariant fresh(device) && device.datasets == Numbered(dids[..i])
    {
      device.Add(dids[i], dids[..i]);
      assert dids[..i] + [dids[i]] == dids[..i + 1];
    }
    assert dids[..|dids|] == dids;
  }
}
