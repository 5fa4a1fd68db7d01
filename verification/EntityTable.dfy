/** Entity declarations: ezxml_ent_ok and the table that internal_dtd grows with it. */
module EntityTable {
  import opened CStrings
  import opened Entities

  /** ezxml_ent_ok: false when some chain of references leads from s to name. */
  ghost predicate EntOk(ent: Table, rank: seq<nat>, k: nat, name: string, s: string)
    requires RankOk(ent, rank)
    decreases k, |s|
  {
    if s == "" then true
    else if s[0] != '&' then EntOk(ent, rank, k, name, s[1..])
    else
      var b := Lookup(ent, s[1..]);
      !(name <= s[1..])
      && (b < |ent| && rank[b] < k ==> EntOk(ent, rank, rank[b], name, ent[b].value))
      && EntOk(ent, rank, k, name, s[1..])
  }

  /** A chain of references: from s through the entities of path to a reference to name. */
  ghost predicate Chain(ent: Table, s: string, path: seq<nat>, name: string)
    decreases |path|
  {
    if path == [] then exists p: nat :: RefersTo(s, p, name)
    else
      && path[0] < |ent|
      && (exists p: nat :: RefersToEntity(ent, s, p, path[0]))
      && Chain(ent, ent[path[0]].value, path[1..], name)
  }

  /** Some chain of references leads from s to name. */
  ghost predicate Reaches(ent: Table, s: string, name: string) {
    exists path: seq<nat> :: Chain(ent, s, path, name)
  }

  predicate RefersTo(s: string, p: nat, name: string) {
    p < |s| && s[p] == '&' && name <= s[p + 1..]
  }

  predicate RefersToEntity(ent: Table, s: string, p: nat, b: nat) {
    p < |s| && s[p] == '&' && Lookup(ent, s[p + 1..]) == b
  }

  /** A reference inside s, seen from the suffix it is found in. */
  lemma {:induction false} EntOkAt(ent: Table, rank: seq<nat>, k: nat, name: string, s: string, p: nat)
    requires RankOk(ent, rank) && Below(ent, rank, s, k) && EntOk(ent, rank, k, name, s)
    requires p < |s| && s[p] == '&'
    ensures !(name <= s[p + 1..])
    ensures var b := Lookup(ent, s[p + 1..]);
            b < |ent| ==> rank[b] < k && EntOk(ent, rank, rank[b], name, ent[b].value)
  {
    if p > 0 {
      assert s[1..][p..] == s[p + 1..];
      EntOkAt(ent, rank, k, name, s[1..], p - 1);
    }
  }

  lemma {:induction false} EntOkNoChain(ent: Table, rank: seq<nat>, k: nat, name: string, s: string, path: seq<nat>)
    requires RankOk(ent, rank) && Below(ent, rank, s, k) && EntOk(ent, rank, k, name, s)
    ensures !Chain(ent, s, path, name)
    decreases |path|
  {
    if Chain(ent, s, path, name) {
      if path == [] {
        var p: nat :| RefersTo(s, p, name);
        EntOkAt(ent, rank, k, name, s, p);
      } else {
        var p: nat :| RefersToEntity(ent, s, p, path[0]);
        EntOkAt(ent, rank, k, name, s, p);
        EntOkNoChain(ent, rank, rank[path[0]], name, ent[path[0]].value, path[1..]);
      }
    }
  }

  lemma {:induction false} ChainLater(ent: Table, s: string, path: seq<nat>, name: string)
    requires s != "" && Chain(ent, s[1..], path, name)
    ensures Chain(ent, s, path, name)
  {
    if path == [] {
      var p: nat :| RefersTo(s[1..], p, name);
      assert s[1..][p + 1..] == s[p + 2..];
      assert RefersTo(s, p + 1, name);
    } else {
      var p: nat :| RefersToEntity(ent, s[1..], p, path[0]);
      assert s[1..][p + 1..] == s[p + 2..];
      assert RefersToEntity(ent, s, p + 1, path[0]);
    }
  }

  lemma {:induction false} NotOkChain(ent: Table, rank: seq<nat>, k: nat, name: string, s: string)
    returns (path: seq<nat>)
    requires RankOk(ent, rank) && Below(ent, rank, s, k) && !EntOk(ent, rank, k, name, s)
    ensures Chain(ent, s, path, name)
    decreases k, |s|
  {
    var b := Lookup(ent, s[1..]);
    if s[0] == '&' && name <= s[1..] {
      path := [];
      assert RefersTo(s, 0, name);
    } else if s[0] == '&' && b < |ent| && !EntOk(ent, rank, rank[b], name, ent[b].value) {
      path := NotOkChain(ent, rank, rank[b], name, ent[b].value);
      assert RefersToEntity(ent, s, 0, b);
      path := [b] + path;
    } else {
      path := NotOkChain(ent, rank, k, name, s[1..]);
      ChainLater(ent, s, path, name);
    }
  }

  /** What the check means: there is no chain of references from the value to the name. */
  lemma EntOkMeaning(ent: Table, rank: seq<nat>, k: nat, name: string, s: string)
    requires RankOk(ent, rank) && Below(ent, rank, s, k)
    ensures EntOk(ent, rank, k, name, s) <==> !Reaches(ent, s, name)
  {
    if EntOk(ent, rank, k, name, s) {
      forall path: seq<nat> ensures !Chain(ent, s, path, name) { EntOkNoChain(ent, rank, k, name, s, path); }
    } else {
      var path: seq<nat> := NotOkChain(ent, rank, k, name, s);
      assert Chain(ent, s, path, name);
    }
  }

  /** ezxml_ent_ok itself: it calls itself on the value of every entity it meets, and ends
      because the table it walks is acyclic. */
  method CheckEntity(name: string, text: string, ent: Table, ghost rank: seq<nat>, ghost k: nat) returns (ok: bool)
    requires RankOk(ent, rank) && Below(ent, rank, text, k)
    ensures ok <==> !Reaches(ent, text, name)
    decreases k
  {
    ghost var spec := EntOk(ent, rank, k, name, text);
    EntOkMeaning(ent, rank, k, name, text);
    var s := text;
    while s != ""
      invariant Below(ent, rank, s, k)
      invariant EntOk(ent, rank, k, name, s) == spec
      decreases |s|
    {
      if s[0] == '&' {
        if name <= s[1..] { return false; }
        var i := Lookup(ent, s[1..]);
        if i < |ent| {
          var inner := CheckEntity(name, ent[i].value, ent, rank, rank[i]);
          EntOkMeaning(ent, rank, rank[i], name, ent[i].value);
          if !inner { return false; }
        }
      }
      s := s[1..];
    }
    ok := true;
  }

  // ---- growing the table ----

  function Extend(ent: Table, name: string, value: string): Table {
    ent + [Entity(name, value)]
  }

  lemma {:induction false} LookupExtend(ent: Table, name: string, value: string, s: string)
    ensures Lookup(Extend(ent, name, value), s)
         == if Lookup(ent, s) < |ent| then Lookup(ent, s) else if name <= s then |ent| else |ent| + 1
  {
    var grown := Extend(ent, name, value);
    if ent != [] {
      assert grown[1..] == Extend(ent[1..], name, value);
      LookupExtend(ent[1..], name, value, s);
    } else {
      assert grown[1..] == [];
    }
  }

  /** Ranks for the larger table: whatever reaches the new entity moves above it. */
  ghost function NewRank(ent: Table, rank: seq<nat>, name: string): (r: seq<nat>)
    requires RankOk(ent, rank)
    ensures |r| == |ent| + 1
  {
    seq(|ent| + 1, i requires 0 <= i <= |ent| =>
      if i == |ent| then Top(rank)
      else if EntOk(ent, rank, rank[i], name, ent[i].value) then rank[i]
      else rank[i] + Top(rank) + 1)
  }

  lemma {:induction false} BelowExtend(ent: Table, rank: seq<nat>, name: string, value: string, s: string, k: nat)
    requires RankOk(ent, rank) && Below(ent, rank, s, k)
    ensures EntOk(ent, rank, k, name, s) ==> Below(Extend(ent, name, value), NewRank(ent, rank, name), s, k)
    ensures Below(Extend(ent, name, value), NewRank(ent, rank, name), s, k + Top(rank) + 1)
  {
    if s != "" {
      LookupExtend(ent, name, value, s[1..]);
      BelowExtend(ent, rank, name, value, s[1..], k);
    }
  }

  lemma {:induction false} BelowTop(ent: Table, rank: seq<nat>, s: string)
    requires |rank| == |ent|
    ensures Below(ent, rank, s, Top(rank))
  {
    if s != "" { BelowTop(ent, rank, s[1..]); }
  }

  /** Accepted: the larger table is acyclic again. */
  lemma AcceptedStaysAcyclic(ent: Table, rank: seq<nat>, name: string, value: string)
    requires RankOk(ent, rank) && EntOk(ent, rank, Top(rank), name, value)
    ensures RankOk(Extend(ent, name, value), NewRank(ent, rank, name))
  {
    var grown, r := Extend(ent, name, value), NewRank(ent, rank, name);
    forall i | 0 <= i < |grown| ensures Below(grown, r, grown[i].value, r[i]) {
      if i < |ent| {
        BelowExtend(ent, rank, name, value, ent[i].value, rank[i]);
      } else {
        BelowTop(ent, rank, value);
        BelowExtend(ent, rank, name, value, value, Top(rank));
      }
    }
  }

  lemma {:induction false} RejectedReaches(ent: Table, rank: seq<nat>, k: nat, name: string, value: string,
                                           s: string, r: seq<nat>, m: nat)
    requires RankOk(ent, rank) && Below(ent, rank, s, k) && !EntOk(ent, rank, k, name, s)
    requires Lookup(ent, name) == |ent| && forall i :: 0 <= i < |ent| ==> !(name <= ent[i].name)
    requires RankOk(Extend(ent, name, value), r) && Below(Extend(ent, name, value), r, s, m)
    ensures r[|ent|] < m
    decreases k, |s|
  {
    var grown, b := Extend(ent, name, value), Lookup(ent, s[1..]);
    LookupExtend(ent, name, value, s[1..]);
    if s[0] == '&' && name <= s[1..] {
      if b < |ent| { OneIsPrefix(ent[b].name, name, s[1..]); }
    } else if s[0] == '&' && b < |ent| && !EntOk(ent, rank, rank[b], name, ent[b].value) {
      assert grown[b] == ent[b];
      RejectedReaches(ent, rank, rank[b], name, value, ent[b].value, r, r[b]);
    } else {
      RejectedReaches(ent, rank, k, name, value, s[1..], r, m);
    }
  }

  /** Two names that both start a text are the same name. */
  lemma SameName(v: string, w: string, s: string)
    requires NameOk(v) && NameOk(w) && v <= s && w <= s
    ensures v == w
  {
    assert v[|v| - 1] == ';' && w[|w| - 1] == ';';
    assert s[|v| - 1] == ';' && s[|w| - 1] == ';';
    assert |v| <= |w| ==> w[|v| - 1] == s[|v| - 1];
    assert |w| <= |v| ==> v[|w| - 1] == s[|w| - 1];
  }

  lemma OneIsPrefix(v: string, w: string, s: string)
    requires v <= s && w <= s
    ensures v <= w || w <= v
  {
    if |v| <= |w| {
      assert v == s[..|v|] == w[..|v|];
    } else {
      assert w == s[..|w|] == v[..|w|];
    }
  }

  /** A second declaration of a name is never looked up. */
  lemma RedeclaredStaysAcyclic(ent: Table, rank: seq<nat>, name: string, value: string)
    requires RankOk(ent, rank) && Lookup(ent, name) < |ent|
    ensures RankOk(Extend(ent, name, value), rank + [Top(rank)])
  {
    var grown, r := Extend(ent, name, value), rank + [Top(rank)];
    forall i | 0 <= i < |grown| ensures Below(grown, r, grown[i].value, r[i]) {
      if i < |ent| {
        BelowHidden(ent, rank, name, value, ent[i].value, rank[i]);
      } else {
        BelowTop(ent, rank, value);
        BelowHidden(ent, rank, name, value, value, Top(rank));
      }
    }
  }

  lemma {:induction false} BelowHidden(ent: Table, rank: seq<nat>, name: string, value: string, s: string, k: nat)
    requires |rank| == |ent| && Below(ent, rank, s, k) && Lookup(ent, name) < |ent|
    ensures Below(Extend(ent, name, value), rank + [Top(rank)], s, k)
  {
    if s != "" {
      LookupExtend(ent, name, value, s[1..]);
      assert name <= s[1..] ==> ent[Lookup(ent, name)].name <= s[1..];
      BelowHidden(ent, rank, name, value, s[1..], k);
    }
  }

  /** For a name that no earlier name starts or continues, the check accepts exactly the declarations that keep
      the reference graph acyclic. A name that an earlier one starts makes no cycle, whatever its value, and what
      the check accepts is acyclic for every name. */
  lemma CheckIsExact(ent: Table, rank: seq<nat>, name: string, value: string)
    requires RankOk(ent, rank)
    ensures EntOk(ent, rank, Top(rank), name, value) ==> Ranked(Extend(ent, name, value))
    ensures Lookup(ent, name) == |ent| && (forall i :: 0 <= i < |ent| ==> !(name <= ent[i].name)) ==>
              (EntOk(ent, rank, Top(rank), name, value) <==> Ranked(Extend(ent, name, value)))
    ensures Lookup(ent, name) < |ent| ==> Ranked(Extend(ent, name, value))
  {
    BelowTop(ent, rank, value);
    if EntOk(ent, rank, Top(rank), name, value) {
      AcceptedStaysAcyclic(ent, rank, name, value);
    } else if Lookup(ent, name) < |ent| {
      RedeclaredStaysAcyclic(ent, rank, name, value);
    } else if Ranked(Extend(ent, name, value)) && forall i :: 0 <= i < |ent| ==> !(name <= ent[i].name) {
      var grown := Extend(ent, name, value);
      var r :| RankOk(grown, r);
      assert grown[|ent|].value == value;
      RejectedReaches(ent, rank, Top(rank), name, value, value, r, r[|ent|]);
      assert false;
    }
  }

  // ---- a declared table ----

  datatype Declaration = Declaration(name: string, literal: string)

  lemma EmptyTableSafe()
    ensures Safe([])
  {
    var rank: seq<nat> := [];
    assert Sound([], rank);
  }

  /** The value kept for a literal; no parameter entities are declared. */
  function StoredOf(literal: string): string {
    EmptyTableSafe();
    Decoded([], EntityValue, literal)
  }

  function Stored(d: Declaration): string {
    StoredOf(d.literal)
  }

  /** The table after the first n declarations. */
  function TableOf(decls: seq<Declaration>, n: nat): Table
    requires n <= |decls|
  {
    if n == 0 then DEFAULTS
    else Extend(TableOf(decls, n - 1), decls[n - 1].name, Stored(decls[n - 1]))
  }

  /** Declaration i passes the circularity check against the table before it. */
  ghost predicate CheckPasses(decls: seq<Declaration>, i: nat)
    requires i < |decls|
  {
    !Reaches(TableOf(decls, i), Stored(decls[i]), decls[i].name)
  }

  /** Declared names that fit the table before them. */
  ghost predicate AllFit(decls: seq<Declaration>, n: nat)
    requires n <= |decls|
  {
    forall i :: 0 <= i < n ==> Fits(TableOf(decls, i), decls[i].name)
  }

  lemma NoDefaultName(s: string)
    requires s != "" && s[0] == '#'
    ensures Lookup(DEFAULTS, s) == 5
  {}

  lemma NameIsOk(stem: string)
    requires stem != "" && stem[0] != '%' && forall k :: 0 <= k < |stem| ==> stem[k] !in REFERENCE_END
    ensures NameOk(stem + ";")
  {
    CSpanStops(stem, ";", REFERENCE_END);
  }

  /** "&#nn;" refers to no default entity, and is a whole reference. */
  lemma DefaultValue(v: string)
    requires |v| == 5 && v[0] == '&' && v[1] == '#' && v[2] != '&' && v[3] != '&' && v[4] == ';'
    ensures Below(DEFAULTS, [0, 0, 0, 0, 0], v, 0) && Complete(v)
  {
    var w := v[1..];
    assert w[0] == '#' && w[3] == ';';
    NoDefaultName(w);
    NoReferences(DEFAULTS, [0, 0, 0, 0, 0], w, 0);
  }

  lemma DefaultsRanked()
    ensures RankOk(DEFAULTS, [0, 0, 0, 0, 0])
    ensures NamesOk(DEFAULTS) && forall i :: 0 <= i < 5 ==> Complete(DEFAULTS[i].value)
  {
    hide Below, Complete, NameOk;
    DefaultNamesOk();
    DefaultValue("&#60;");
    DefaultValue("&#62;");
    DefaultValue("&#34;");
    DefaultValue("&#39;");
    DefaultValue("&#38;");
  }

  lemma DefaultNamesOk()
    ensures NamesOk(DEFAULTS)
  {
    hide NameOk;
    NameIsOk("lt");
    NameIsOk("gt");
    NameIsOk("quot");
    NameIsOk("apos");
    NameIsOk("amp");
    assert "lt" + ";" == "lt;" && "gt" + ";" == "gt;" && "quot" + ";" == "quot;" && "apos" + ";" == "apos;"
           && "amp" + ";" == "amp;";
  }

  lemma {:induction false} NoReferences(ent: Table, rank: seq<nat>, s: string, k: nat)
    requires |rank| == |ent| && forall p :: 0 <= p < |s| ==> s[p] != '&'
    ensures Below(ent, rank, s, k) && Complete(s)
  {
    if s != "" { NoReferences(ent, rank, s[1..], k); }
  }

  /** However many declarations pass, the references of the table have no cycle. */
  lemma {:induction false} DeclaredAcyclic(decls: seq<Declaration>, n: nat)
    requires n <= |decls| && forall i :: 0 <= i < n ==> CheckPasses(decls, i)
    ensures Ranked(TableOf(decls, n))
  {
    hide Stored, Reaches, EntOk;
    if n == 0 {
      DefaultsRanked();
    } else {
      DeclaredAcyclic(decls, n - 1);
      var ent, d := TableOf(decls, n - 1), decls[n - 1];
      var rank :| RankOk(ent, rank);
      assert CheckPasses(decls, n - 1);
      BelowTop(ent, rank, Stored(d));
      EntOkMeaning(ent, rank, Top(rank), d.name, Stored(d));
      AcceptedStaysAcyclic(ent, rank, d.name, Stored(d));
    }
  }

  lemma AcyclicRank(ent: Table) returns (rank: seq<nat>)
    requires Ranked(ent)
    ensures RankOk(ent, rank) && |rank| == |ent|
  {
    rank :| RankOk(ent, rank);
  }

  /** The entity part of ezxml_internal_dtd: declarations are added until one is circular. */
  method DeclareEntities(decls: seq<Declaration>) returns (ent: Table, n: nat)
    ensures n <= |decls| && ent == TableOf(decls, n) && Ranked(ent)
    ensures forall i :: 0 <= i < n ==> CheckPasses(decls, i)
    ensures n < |decls| ==> !CheckPasses(decls, n)
  {
    hide Stored, Reaches, EntOk, Below, Top, RankOk;
    n := 0;
    ent := DEFAULTS;
    while n < |decls|
      invariant n <= |decls| && ent == TableOf(decls, n)
      invariant forall i :: 0 <= i < n ==> CheckPasses(decls, i)
    {
      DeclaredAcyclic(decls, n);
      ghost var rank := AcyclicRank(ent);
      var value := Stored(decls[n]);
      BelowTop(ent, rank, value);
      var ok := CheckEntity(decls[n].name, value, ent, rank, Top(rank));
      assert CheckPasses(decls, n) <==> ok;
      if !ok {
        return;
      }
      ent := Extend(ent, decls[n].name, value);
      n := n + 1;
    }
    DeclaredAcyclic(decls, n);
  }

  /** Declarations as XML 1.0 asks for (no ';' inside a name, every reference of a value ends inside it), and those
      whose names are never looked up: whatever text is decoded with the accepted table, the decoder ends. */
  lemma DeclaredTableDecodes(decls: seq<Declaration>, n: nat, t: Mode, text: string) returns (passes: nat)
    requires n <= |decls| && forall i :: 0 <= i < n ==> CheckPasses(decls, i)
    requires AllFit(decls, n) && forall i :: 0 <= i < n ==> Complete(Stored(decls[i]))
    ensures Run(TableOf(decls, n), t, text, passes).rest == ""
  {
    hide Stored, Reaches, EntOk, Run, Fits, Complete, CheckPasses;
    DeclaredAcyclic(decls, n);
    var ent := TableOf(decls, n);
    var rank :| RankOk(ent, rank);
    DeclaredNames(decls, n);
    assert Sound(ent, rank);
    DecodeHalts(ent, t, text);
    passes := Entities.Passes(ent, text);
  }

  lemma {:induction false} DeclaredNames(decls: seq<Declaration>, n: nat)
    requires n <= |decls|
    requires AllFit(decls, n) && forall i :: 0 <= i < n ==> Complete(Stored(decls[i]))
    ensures NamesFit(TableOf(decls, n))
    ensures var ent := TableOf(decls, n); forall i :: 0 <= i < |ent| ==> Complete(ent[i].value)
  {
    hide Stored, Fits, Complete;
    if n == 0 {
      DefaultsRanked();
      PlainNamesFit(DEFAULTS);
    } else {
      DeclaredNames(decls, n - 1);
      var ent, grown := TableOf(decls, n - 1), TableOf(decls, n);
      forall i | 0 <= i < |grown| ensures Fits(grown[..i], grown[i].name) {
        assert if i < |ent| then grown[..i] == ent[..i] && grown[i] == ent[i] else grown[..i] == ent;
      }
    }
  }

  lemma PlainNamesFit(ent: Table)
    requires NamesOk(ent)
    ensures NamesFit(ent)
  {
    hide NameOk;
  }
}
