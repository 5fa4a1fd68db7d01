/** What the circularity check is worth to the decoder: a name with a ';' inside, which the declaration loop stores
    and the check accepts, is taken out of the text only up to its first ';', so that its value can bring it back. */
module EntityNames {
  import opened CStrings
  import opened CharRefs
  import opened Entities
  import opened EntityTable
  import opened EntityTrap

  /** As the declaration loop stores the name of a general entity: up to the next blank, then a ';'. */
  predicate StoredName(name: string) {
    && name != "" && name[0] != '%' && name[|name| - 1] == ';'
    && forall k :: 0 <= k < |name| ==> name[k] !in XML_WS
  }

  /** What the decoder takes out of the text for a reference to this name. */
  function Head(name: string): string {
    name[..CSpan(name, {';'})] + ";"
  }

  lemma StoredParts(name: string)
    requires StoredName(name)
    ensures var n := CSpan(name, {';'}); n < |name| && name == Head(name) + name[n + 1..] && |Head(name)| == n + 1
    ensures NameOk(name) <==> |Head(name)| == |name|
  {
    var n, m := CSpan(name, {';'}), CSpan(name, REFERENCE_END);
    assert m < |name| ==> name[m] == ';';
  }

  // ---- every value can be declared ----

  /** The literal for a value: each '&' is written as a character reference. */
  function AsLiteral(v: string): string {
    if v == "" then "" else (if v[0] == '&' then "&#38;" else [v[0]]) + AsLiteral(v[1..])
  }

  lemma {:induction false} LiteralChars(v: string)
    requires '\r' !in v
    ensures '\r' !in AsLiteral(v)
  {
    if v != "" { LiteralChars(v[1..]); }
  }

  lemma {:induction false} NewlinesKept(s: string)
    requires '\r' !in s
    ensures Newlines(s) == s
  {
    if s != "" {
      assert s == [s[0]] + s[1..];
      NewlinesKept(s[1..]);
    }
  }

  lemma LiteralStep(v: string)
    requires v != ""
    ensures AsLiteral(v) != "" && Step([], EntityValue, AsLiteral(v)) == Move([v[0]], AsLiteral(v[1..]))
  {
    var rest := AsLiteral(v[1..]);
    if v[0] == '&' {
      AmpersandStep(rest);
    } else {
      assert AsLiteral(v) == [v[0]] + rest;
      hide CharRef, AsLiteral, Lookup;
    }
  }

  lemma AmpersandStep(rest: string)
    ensures Step([], EntityValue, "&#38;" + rest) == Move("&", rest)
  {
    hide CharRef, Lookup;
    DecimalRef('3', '8', rest);
    var s := "&#38;" + rest;
    assert s == ['&', '#', '3', '8', ';'] + rest;
    assert "&#" <= s && s[5..] == rest;
  }

  lemma {:induction false} LiteralDecodes(v: string)
    requires Safe([])
    ensures Decode([], EntityValue, AsLiteral(v)) == v
  {
    hide Step;
    if v != "" {
      LiteralStep(v);
      LiteralDecodes(v[1..]);
      assert v == [v[0]] + v[1..];
    }
  }

  lemma StoredLiteral(v: string)
    requires '\r' !in v
    ensures StoredOf(AsLiteral(v)) == v
  {
    hide Decode, AsLiteral;
    EmptyTableSafe();
    LiteralChars(v);
    NewlinesKept(AsLiteral(v));
    LiteralDecodes(v);
  }

  // ---- the name comes back ----

  /** A reference to the name, with a value that puts back what was taken out. */
  lemma RoundAgain(ent: Table, name: string)
    requires StoredName(name) && name[0] != '#' && Lookup(ent, name) < |ent|
    requires ent[Lookup(ent, name)].value == "&" + Head(name)
    ensures Step(ent, Content, "&" + name) == Move("", "&" + name)
  {
    hide *;
    var s := "&" + name;
    AfterHead(name, s);
    ReferenceStep(ent, s);
  }

  lemma AfterHead(name: string, s: string)
    requires StoredName(name) && name[0] != '#' && s == "&" + name
    ensures s != "" && s[0] == '&' && s[1..] == name && !("&#" <= s)
    ensures "&" + Head(name) + Drop(s, CSpan(s, {';'}) + 1) == s
  {
    hide CSpan, StoredName;
    StoredParts(name);
    NextSpan(name);
    var n := CSpan(name, {';'});
    assert s[1] == name[0] && s[1..] == name && s[n + 2..] == name[n + 1..];
    Assoc("&", Head(name), name[n + 1..]);
  }

  lemma NextSpan(name: string)
    ensures CSpan("&" + name, {';'}) == CSpan(name, {';'}) + 1
  {
    assert ("&" + name)[1..] == name;
  }

  lemma ReferenceStep(ent: Table, s: string)
    requires s != "" && s[0] == '&' && !("&#" <= s) && Lookup(ent, s[1..]) < |ent|
    ensures Step(ent, Content, s) == Move("", ent[Lookup(ent, s[1..])].value + Drop(s, CSpan(s, {';'}) + 1))
  {
    hide Lookup, CSpan, Drop, CharRef;
  }

  lemma {:induction false} RoundForEver(ent: Table, s: string, n: nat)
    requires s != "" && Step(ent, Content, s) == Move("", s)
    ensures Run(ent, Content, s, n).rest == s
    decreases n
  {
    hide Step;
    if n > 0 { RoundForEver(ent, s, n - 1); }
  }

  // ---- the check lets it pass ----

  /** Every reference of the value ends inside it. */
  lemma {:induction false} EndsClosed(s: string)
    requires s == "" || s[|s| - 1] == ';'
    ensures Complete(s)
  {
    if s != "" {
      assert s[1..] != "" ==> s[1..][|s| - 2] == ';';
      EndsClosed(s[1..]);
    }
  }

  lemma {:induction false} BelowAt(ent: Table, rank: seq<nat>, s: string, k: nat, p: nat)
    requires |rank| == |ent| && Below(ent, rank, s, k) && p < |s| && s[p] == '&' && Lookup(ent, s[p + 1..]) < |ent|
    ensures rank[Lookup(ent, s[p + 1..])] < k
  {
    if p > 0 {
      assert s[1..][p..] == s[p + 1..];
      BelowAt(ent, rank, s[1..], k, p - 1);
    }
  }

  /** If each reference to the name holds one to entity b, then b is below all that reach the name. */
  lemma {:induction false} ReachesAbove(ent: Table, rank: seq<nat>, s: string, k: nat, path: seq<nat>, name: string,
                                        b: nat)
    requires RankOk(ent, rank) && Below(ent, rank, s, k) && Chain(ent, s, path, name) && b < |ent|
    requires forall v: string, p: nat :: RefersTo(v, p, name) ==> exists q: nat :: RefersToEntity(ent, v, q, b)
    ensures rank[b] < k
    decreases |path|
  {
    hide RefersToEntity, RefersTo, Below, Lookup;
    if path == [] {
      var p: nat :| RefersTo(s, p, name);
      var q: nat :| RefersToEntity(ent, s, q, b);
      EntityBelow(ent, rank, s, k, q, b);
    } else {
      var q: nat :| RefersToEntity(ent, s, q, path[0]);
      EntityBelow(ent, rank, s, k, q, path[0]);
      ReachesAbove(ent, rank, ent[path[0]].value, rank[path[0]], path[1..], name, b);
    }
  }

  lemma EntityBelow(ent: Table, rank: seq<nat>, s: string, k: nat, q: nat, b: nat)
    requires |rank| == |ent| && Below(ent, rank, s, k) && RefersToEntity(ent, s, q, b) && b < |ent|
    ensures rank[b] < k
  {
    BelowAt(ent, rank, s, k, q);
  }

  /** No earlier entity with a name that starts with '#' is referred to inside the name. */
  predicate PlainInside(ent: Table, name: string) {
    forall i, j :: 0 <= i < |ent| && 0 <= j < |name| && name[j] == '&' && ent[i].name != "" && ent[i].name[0] == '#'
                   ==> !(ent[i].name <= name[j + 1..])
  }

  /** An '&' inside the head of the name refers to the same entity wherever the name is. */
  lemma InsideRefers(ent: Table, name: string, q: nat, b: nat, v: string, p: nat)
    requires NamesFit(ent) && StoredName(name) && 0 < q < |Head(name)| && RefersToEntity(ent, "&" + Head(name), q, b)
    requires name[q] != '#' && RefersTo(v, p, name)
    ensures RefersToEntity(ent, v, p + q, b)
  {
    hide Lookup, CSpan, NamesFit, StoredName;
    StoredParts(name);
    var head := Head(name);
    var u, w := head[q..], v[p + 1 + |head|..];
    assert ("&" + head)[q + 1..] == u && ("&" + head)[q] == head[q - 1] == name[q - 1];
    assert v[p + 1..][..|name|] == name && v[p + q] == v[p + 1..][q - 1] == name[q - 1];
    assert v[p + q + 1..] == u + w;
    ClosedEnd(u);
    LookupExtends(ent, u, w);
  }

  lemma ClosedEnd(u: string)
    requires u != "" && u[|u| - 1] == ';'
    ensures Closed(u)
  {
    assert CSpan(u, REFERENCE_END) <= |u| - 1;
  }

  /** The value that brings the name back does not reach it. */
  lemma NotReached(ent: Table, rank: seq<nat>, name: string, path: seq<nat>)
    requires RankOk(ent, rank) && NamesFit(ent) && PlainInside(ent, name)
    requires StoredName(name) && !NameOk(name) && Lookup(ent, name) == |ent|
    ensures !Chain(ent, "&" + Head(name), path, name)
  {
    hide Lookup, CSpan, NamesFit, StoredName, NameOk, Below, PlainInside;
    StoredParts(name);
    var head := Head(name);
    var s := "&" + head;
    if Chain(ent, s, path, name) && path != [] {
      var b := path[0];
      var q: nat :| RefersToEntity(ent, s, q, b);
      FirstHop(ent, name, q, b);
      forall v: string, p: nat | RefersTo(v, p, name) ensures exists q: nat :: RefersToEntity(ent, v, q, b) {
        InsideRefers(ent, name, q, b, v, p);
      }
      ReachesAbove(ent, rank, ent[b].value, rank[b], path[1..], name, b);
    }
  }

  lemma FirstHop(ent: Table, name: string, q: nat, b: nat)
    requires PlainInside(ent, name) && StoredName(name) && Lookup(ent, name) == |ent| && b < |ent|
    requires RefersToEntity(ent, "&" + Head(name), q, b)
    ensures 0 < q < |Head(name)| && name[q] != '#'
  {
    hide CSpan, StoredName, Lookup;
    StoredParts(name);
    var head := Head(name);
    var s := "&" + head;
    assert s[q + 1..] == head[q..] && ent[b].name <= head[q..] <= name[q..];
    assert name[0..] == name;
    assert ent[b].name != "";
    assert q > 0 ==> s[q] == name[q - 1];
  }

  // ---- which names the decoder can do with ----

  lemma {:induction false} TablePrefix(decls: seq<Declaration>, more: seq<Declaration>, n: nat)
    requires n <= |decls|
    ensures TableOf(decls + more, n) == TableOf(decls, n)
  {
    hide Stored;
    if n > 0 { TablePrefix(decls, more, n - 1); }
  }

  /** One declaration more. */
  function Declared(decls: seq<Declaration>, name: string, literal: string): seq<Declaration> {
    decls + [Declaration(name, literal)]
  }

  lemma OneMore(decls: seq<Declaration>, name: string, literal: string)
    ensures var ds, ent, n := Declared(decls, name, literal), TableOf(decls, |decls|), |decls|;
            && TableOf(ds, n) == ent && TableOf(ds, n + 1) == Extend(ent, name, StoredOf(literal))
            && (CheckPasses(ds, n) <==> !Reaches(ent, StoredOf(literal), name))
  {
    hide StoredOf, Reaches, TableOf;
    var ds, n := Declared(decls, name, literal), |decls|;
    TablePrefix(decls, [Declaration(name, literal)], n);
    Grown(ds, n);
  }

  lemma OneMoreAccepted(decls: seq<Declaration>, name: string, literal: string)
    ensures var ds, n := Declared(decls, name, literal), |decls|;
            && (Accepted(ds) <==> Accepted(decls) && CheckPasses(ds, n))
            && (AllFit(ds, n + 1) <==> AllFit(decls, n) && Fits(TableOf(decls, n), name))
  {
    hide Stored, Reaches, TableOf, Fits;
    var ds, n := Declared(decls, name, literal), |decls|;
    forall i | 0 <= i <= n ensures TableOf(ds, i) == TableOf(decls, i) {
      TablePrefix(decls, [Declaration(name, literal)], i);
    }
    forall i | 0 <= i < n ensures ds[i] == decls[i] && (CheckPasses(ds, i) <==> CheckPasses(decls, i)) {}
    assert ds[n].name == name;
    hide CheckPasses;
    if AllFit(decls, n) && Fits(TableOf(decls, n), name) {
      forall i | 0 <= i < n + 1 ensures Fits(TableOf(ds, i), ds[i].name) {}
    }
    if AllFit(ds, n + 1) {
      forall i | 0 <= i < n ensures Fits(TableOf(decls, i), decls[i].name) {
        assert Fits(TableOf(ds, i), ds[i].name);
      }
      assert Fits(TableOf(ds, n), ds[n].name);
    }
  }

  lemma Grown(ds: seq<Declaration>, n: nat)
    requires n < |ds|
    ensures TableOf(ds, n + 1) == Extend(TableOf(ds, n), ds[n].name, Stored(ds[n]))
  {}

  /** The name as it is declared behind others: however its value is chosen, if it is complete and the check accepts
      the declaration, every text is decoded. */
  ghost predicate NameDecodes(decls: seq<Declaration>, name: string) {
    forall literal: string :: Accepted(Declared(decls, name, literal)) && Complete(StoredOf(literal))
                              ==> DecodesAll(TableOf(Declared(decls, name, literal), |decls| + 1))
  }

  ghost predicate Proper(decls: seq<Declaration>) {
    && Accepted(decls) && AllFit(decls, |decls|)
    && forall i :: 0 <= i < |decls| ==> Complete(Stored(decls[i]))
  }

  /** A name with a ';' inside whose reference no earlier entity takes, with the value that brings it back: the value
      is complete, the check accepts it, and there is a text that is never decoded. */
  lemma NameTurns(decls: seq<Declaration>, name: string, literal: string)
    requires Proper(decls) && StoredName(name) && PlainInside(TableOf(decls, |decls|), name)
    requires !Fits(TableOf(decls, |decls|), name) && StoredOf(literal) == "&" + Head(name)
    ensures Complete("&" + Head(name)) && Accepted(Declared(decls, name, literal))
    ensures !Decodes(TableOf(Declared(decls, name, literal), |decls| + 1), Content, "&" + name)
  {
    hide StoredOf, Stored, StoredName, NameOk, Lookup, Complete, CheckPasses, TableOf, Head, PlainInside, RankOk, Chain,
      Run;
    var ent, v, n := TableOf(decls, |decls|), "&" + Head(name), |decls|;
    HeadPlain(name);
    EndsClosed(v);
    DeclaredAcyclic(decls, n);
    DeclaredNames(decls, n);
    var rank := AcyclicRank(ent);
    OneMore(decls, name, literal);
    OneMoreAccepted(decls, name, literal);
    forall path: seq<nat> ensures !Chain(ent, v, path, name) { NotReached(ent, rank, name, path); }
    var grown := Extend(ent, name, v);
    LookupExtend(ent, name, v, name);
    RoundAgain(grown, name);
    forall k: nat ensures Run(grown, Content, "&" + name, k).rest != "" { RoundForEver(grown, "&" + name, k); }
  }

  /** Every such name has such a declaration. */
  lemma InnerSemicolonDiverges(decls: seq<Declaration>, name: string)
    requires Proper(decls) && StoredName(name) && PlainInside(TableOf(decls, |decls|), name)
    requires !Fits(TableOf(decls, |decls|), name)
    ensures var literal := AsLiteral("&" + Head(name));
            && StoredOf(literal) == "&" + Head(name) && Complete("&" + Head(name))
            && Accepted(Declared(decls, name, literal))
            && !Decodes(TableOf(Declared(decls, name, literal), |decls| + 1), Content, "&" + name)
  {
    hide StoredOf, Proper, StoredName, Complete, Accepted, Head, PlainInside, Decodes, Fits, TableOf;
    HeadPlain(name);
    StoredLiteral("&" + Head(name));
    NameTurns(decls, name, AsLiteral("&" + Head(name)));
  }

  lemma HeadPlain(name: string)
    requires StoredName(name)
    ensures var v := "&" + Head(name); name != "" && '\r' !in v && v[|v| - 1] == ';'
  {
    StoredParts(name);
  }

  /** Among declarations that are in order, a name is harmless if and only if it has no ';' inside, starts with '#',
      or an earlier entity takes its references. */
  lemma NameIsExact(decls: seq<Declaration>, name: string)
    requires Proper(decls) && StoredName(name) && PlainInside(TableOf(decls, |decls|), name)
    ensures Fits(TableOf(decls, |decls|), name) <==> NameDecodes(decls, name)
  {
    hide StoredOf, Fits, StoredName, Complete, CheckPasses, TableOf, Decodes, AsLiteral, PlainInside, Run, Head;
    if Fits(TableOf(decls, |decls|), name) {
      forall literal: string | Accepted(Declared(decls, name, literal)) && Complete(StoredOf(literal))
        ensures DecodesAll(TableOf(Declared(decls, name, literal), |decls| + 1))
      {
        var ds := Declared(decls, name, literal);
        OneMoreAccepted(decls, name, literal);
        assert forall i :: 0 <= i < |decls| ==> ds[i] == decls[i];
        assert forall i :: 0 <= i < |ds| ==> Complete(Stored(ds[i]));
        AcceptedDecodes(ds);
      }
    } else {
      InnerSemicolonDiverges(decls, name);
      assert Complete(StoredOf(AsLiteral("&" + Head(name))));
    }
  }

  /** The shortest such declaration: a;b as "&a;" is accepted, and "&a;b;" comes back for ever. */
  lemma InnerSemicolon()
    ensures var d := [Declaration("a;b;", "&a;")];
            && Accepted(d) && Stored(d[0]) == "&a;" && Complete("&a;") && StoredName("a;b;")
            && !Decodes(TableOf(d, 1), Content, "&a;b;")
  {
    hide *;
    AStored();
    AParts();
    NoSuchDefault();
    NameTurns([], "a;b;", "&a;");
  }

  lemma AStored()
    ensures StoredOf("&a;") == "&a;" && Stored(Declaration("a;b;", "&a;")) == "&a;"
  {
    EmptyTableSafe();
    StoredPlain("&a;");
    hide Decode, Newlines;
  }

  lemma AParts()
    ensures "&" + Head("a;b;") == "&a;" && "&" + "a;b;" == "&a;b;"
    ensures StoredName("a;b;") && Declared([], "a;b;", "&a;") == [Declaration("a;b;", "&a;")]
  {
    assert Head("a;b;") == "a;" by { assert "a;b;"[1] == ';'; }
  }

  lemma NoSuchDefault()
    ensures Proper([]) && !Fits(TableOf([], 0), "a;b;") && PlainInside(TableOf([], 0), "a;b;")
  {
    hide Lookup, Stored, CheckPasses, Complete, CSpan;
    NotPlain();
    assert "a;b;"[1] == ';' && forall i :: 0 <= i < 5 ==> |DEFAULTS[i].name| > 1 && DEFAULTS[i].name[1] != ';';
    assert forall i :: 0 <= i < 5 ==> DEFAULTS[i].name[0] != '#';
  }

  lemma NotPlain()
    ensures !NameOk("a;b;")
  {
    assert CSpan("a;b;", REFERENCE_END) <= 1;
  }

  // ---- where the check is too strict ----

  function Strict(): Table {
    Extend(Extend(DEFAULTS, "a;b;", "x"), "a;", "&a;b;")
  }

  /** a;b as "x", then a as "&a;b;": the reference is to the first, but the check takes it for one to the second. */
  lemma CheckIsStrict()
    ensures var d := [Declaration("a;b;", "x"), Declaration("a;", "&a;b;")];
            CheckPasses(d, 0) && !CheckPasses(d, 1) && TableOf(d, 2) == Strict() && Ranked(Strict())
  {
    hide StoredOf, Lookup, Below;
    StrictTables();
    var ent := Extend(DEFAULTS, "a;b;", "x");
    NotInDefaults("a;b;");
    NotInside("x", "a;b;");
    forall path: seq<nat> ensures !Chain(DEFAULTS, "x", path, "a;b;") { Unmentioned(DEFAULTS, "x", path, "a;b;"); }
    assert RefersTo("&a;b;", 0, "a;");
    assert Chain(ent, "&a;b;", [], "a;");
    StrictRanked();
  }

  lemma StrictTables()
    ensures var d := [Declaration("a;b;", "x"), Declaration("a;", "&a;b;")];
            && TableOf(d, 0) == DEFAULTS && TableOf(d, 1) == Extend(DEFAULTS, "a;b;", "x") && TableOf(d, 2) == Strict()
            && Stored(d[0]) == "x" && Stored(d[1]) == "&a;b;"
  {
    hide Decode, Newlines;
    EmptyTableSafe();
    StoredPlain("x");
    StoredPlain("&a;b;");
    var d := [Declaration("a;b;", "x"), Declaration("a;", "&a;b;")];
    assert TableOf(d, 1) == Extend(DEFAULTS, "a;b;", "x");
  }

  const STRICT_RANK: seq<nat> := [0, 0, 0, 0, 0, 0, 1]

  lemma StrictRanked()
    ensures Ranked(Strict())
  {
    hide Below, Lookup;
    var grown := Strict();
    forall i | 0 <= i < 7 ensures Below(grown, STRICT_RANK, grown[i].value, STRICT_RANK[i]) {
      var v := grown[i].value;
      if i == 5 {
        NoReferences(grown, STRICT_RANK, v, 0);
      } else {
        StrictLookup(v[1..]);
        OneAmpersand(grown, STRICT_RANK, v, STRICT_RANK[i]);
      }
    }
    assert RankOk(grown, STRICT_RANK);
  }

  lemma OneAmpersand(ent: Table, rank: seq<nat>, v: string, k: nat)
    requires |rank| == |ent| && v != "" && forall p :: 0 < p < |v| ==> v[p] != '&'
    requires Lookup(ent, v[1..]) < |ent| ==> rank[Lookup(ent, v[1..])] < k
    ensures Below(ent, rank, v, k)
  {
    hide Lookup;
    NoReferences(ent, rank, v[1..], k);
  }

  lemma StrictLookup(s: string)
    ensures s != "" && s[0] == '#' ==> Lookup(Strict(), s) == 7
    ensures s == "a;b;" ==> Lookup(Strict(), s) == 5
  {
    hide Lookup;
    var ent := Extend(DEFAULTS, "a;b;", "x");
    LookupExtend(DEFAULTS, "a;b;", "x", s);
    LookupExtend(ent, "a;", "&a;b;", s);
    if s == "a;b;" { NoSuchDefault(); }
    if s != "" && s[0] == '#' { NoDefaultName(s); }
  }
}
