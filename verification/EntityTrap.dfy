/** What the circularity check is worth to the decoder: a value that leaves a reference open can be completed
    by what comes behind it, and then the decoder may turn for ever on a table that the check accepts. */
module EntityTrap {
  import opened CStrings
  import opened CharRefs
  import opened Entities
  import opened EntityTable

  // ---- what the check lets through ----

  lemma {:induction false} StoredPlain(s: string)
    requires Safe([]) && forall k :: 0 <= k < |s| ==> s[k] != '#' && s[k] != '\r'
    ensures Decode([], EntityValue, s) == s && Newlines(s) == s
  {
    hide CharRef;
    if s != "" {
      assert s == [s[0]] + s[1..];
      assert |s| > 1 ==> s[1] != '#';
      StoredPlain(s[1..]);
    }
  }

  lemma {:induction false} RunSplit(ent: Table, t: Mode, s: string, m: nat, n: nat)
    ensures Run(ent, t, s, m + n).rest == Run(ent, t, Run(ent, t, s, m).rest, n).rest
    decreases m
  {
    hide Step;
    if m > 0 && s != "" { RunSplit(ent, t, Step(ent, t, s).rest, m - 1, n); }
  }

  /** The first '&' of a value that is left open. */
  function OpenAt(v: string): (i: nat)
    requires !Complete(v)
    ensures i < |v| && v[i] == '&' && !Closed(v[i + 1..])
    ensures forall j :: 0 <= j < i && v[j] == '&' ==> Closed(v[j + 1..])
  {
    if v[0] == '&' && !Closed(v[1..]) then 0
    else
      var i := OpenAt(v[1..]);
      assert forall j :: 0 < j < |v| ==> v[1..][j..] == v[j + 1..];
      1 + i
  }

  function Repeat(c: char, n: nat): (s: string)
    ensures |s| == n && forall k :: 0 <= k < n ==> s[k] == c
  {
    seq(n, i => c)
  }

  /** The names of the trap for a value v: too long to be in v, and the third goes on where v ends. */
  function First(v: string): string {
    Repeat('x', |v| + 1) + ";"
  }

  function Second(v: string): string {
    Repeat('y', |v| + 1) + ";"
  }

  function Rest(v: string): string {
    Repeat('z', |v| + 1) + ";"
  }

  function Third(v: string): string
    requires !Complete(v)
  {
    v[OpenAt(v) + 1..] + Rest(v)
  }

  /** A literal that is stored as v, a value that ends the reference it leaves open, and a reference back. */
  function Trap(literal: string, v: string): (decls: seq<Declaration>)
    requires !Complete(v)
    ensures |decls| == 3 && decls[0].literal == literal
  {
    [Declaration(First(v), literal), Declaration(Second(v), "&" + First(v) + Rest(v)),
     Declaration(Third(v), "&" + Second(v))]
  }

  function TrapTable(v: string): Table
    requires !Complete(v)
  {
    DEFAULTS + [Entity(First(v), v), Entity(Second(v), "&" + First(v) + Rest(v)), Entity(Third(v), "&" + Second(v))]
  }

  lemma TrapTables(literal: string, v: string)
    requires !Complete(v)
    ensures v == StoredOf(literal) ==>
              var decls, ent := Trap(literal, v), TrapTable(v);
              && TableOf(decls, 0) == ent[..5] && TableOf(decls, 1) == ent[..6] && TableOf(decls, 2) == ent[..7]
              && TableOf(decls, 3) == ent && Stored(decls[0]) == v
              && Stored(decls[1]) == "&" + First(v) + Rest(v) && Stored(decls[2]) == "&" + Second(v)
  {
    hide Decode, Newlines, First, Second, Rest, Third, Complete;
    EmptyTableSafe();
    var decls, ent := Trap(literal, v), TrapTable(v);
    Letters(v);
    StoredPlain("&" + First(v) + Rest(v));
    StoredPlain("&" + Second(v));
    if v == StoredOf(literal) {
      assert TableOf(decls, 0) == ent[..5];
      assert TableOf(decls, 1) == ent[..6];
      assert TableOf(decls, 2) == ent[..7];
    }
  }

  lemma Letters(v: string)
    ensures First(v) != "" && First(v)[0] == 'x' && Second(v) != "" && Second(v)[0] == 'y' && Rest(v) != ""
    ensures forall k :: 0 <= k < |First(v)| ==> First(v)[k] in {'x', ';'}
    ensures forall k :: 0 <= k < |Second(v)| ==> Second(v)[k] in {'y', ';'}
    ensures forall k :: 0 <= k < |Rest(v)| ==> Rest(v)[k] in {'z', ';'}
  {}

  /** The names are names, longer than v, and no character reference starts with them. */
  lemma TrapNames(v: string)
    requires !Complete(v)
    ensures NamesOk(TrapTable(v))
    ensures forall i :: 5 <= i < 8 ==> |TrapTable(v)[i].name| > |v| && TrapTable(v)[i].name[0] != '#'
  {
    hide NameOk, Complete, NamesOk, First, Second, Third, Rest;
    DefaultsRanked();
    LetterName('x', |v| + 1);
    LetterName('y', |v| + 1);
    LetterNames(v);
    ThirdName(v);
    NamesAppend(DEFAULTS, First(v), v, Second(v), "&" + First(v) + Rest(v), Third(v), "&" + Second(v));
  }

  lemma LetterName(c: char, n: nat)
    requires n > 0 && c in {'x', 'y', 'z'}
    ensures NameOk(Repeat(c, n) + ";") && (Repeat(c, n) + ";")[0] == c
  {
    NameIsOk(Repeat(c, n));
  }

  lemma LetterNames(v: string)
    ensures First(v) == Repeat('x', |v| + 1) + ";" && Second(v) == Repeat('y', |v| + 1) + ";"
    ensures |First(v)| > |v| && |Second(v)| > |v|
  {}

  lemma ThirdName(v: string)
    requires !Complete(v)
    ensures NameOk(Third(v)) && |Third(v)| > |v| && Third(v)[0] != '#'
  {
    hide Complete, NameOk;
    var p, z := v[OpenAt(v) + 1..], Repeat('z', |v| + 1);
    OpenPiece(p);
    assert (p + z)[0] == if p == "" then 'z' else p[0];
    NameIsOk(p + z);
    assert Third(v) == p + z + ";";
  }

  lemma OpenPiece(p: string)
    requires !Closed(p)
    ensures (forall k :: 0 <= k < |p| ==> p[k] !in REFERENCE_END) && (p != "" ==> p[0] !in {'#', '%'})
  {}

  lemma NamesAppend(ent: Table, a: string, x: string, b: string, y: string, c: string, z: string)
    requires NamesOk(ent) && NameOk(a) && NameOk(b) && NameOk(c)
    ensures NamesOk(ent + [Entity(a, x), Entity(b, y), Entity(c, z)])
  {
    hide NameOk;
  }

  /** No two names are the same: each new one has a letter of its own. */
  lemma TrapDistinct(v: string)
    requires !Complete(v)
    ensures forall i, j :: 0 <= i < j < 8 ==> TrapTable(v)[i].name != TrapTable(v)[j].name
  {
    hide Complete, First, Second, Third, Rest;
    OwnLetters(v);
    DefaultLetters();
    var ent := TrapTable(v);
    assert forall i :: 0 <= i < 5 ==> ent[i] == DEFAULTS[i];
  }

  lemma OwnLetters(v: string)
    requires !Complete(v)
    ensures 'x' in First(v) && 'y' in Second(v) && 'z' in Third(v)
    ensures 'z' !in First(v) && 'z' !in Second(v) && 'y' !in First(v)
  {
    hide Complete;
    Letters(v);
    assert Third(v)[|v| - OpenAt(v) - 1] == 'z';
  }

  lemma DefaultLetters()
    ensures forall i :: 0 <= i < 5 ==> 'x' !in DEFAULTS[i].name && 'y' !in DEFAULTS[i].name && 'z' !in DEFAULTS[i].name
    ensures forall i, j :: 0 <= i < j < 5 ==> DEFAULTS[i].name != DEFAULTS[j].name
  {}

  // ---- the trap is accepted ----

  ghost predicate Mentions(s: string, name: string) {
    exists p: nat :: RefersTo(s, p, name)
  }

  /** A name that no value mentions is not reached. */
  lemma {:induction false} Unmentioned(ent: Table, s: string, path: seq<nat>, name: string)
    requires !Mentions(s, name) && forall i :: 0 <= i < |ent| ==> !Mentions(ent[i].value, name)
    ensures !Chain(ent, s, path, name)
    decreases |path|
  {
    if path != [] && Chain(ent, s, path, name) {
      Unmentioned(ent, ent[path[0]].value, path[1..], name);
    }
  }

  lemma NotInside(v: string, name: string)
    requires |name| > |v|
    ensures !Mentions(v, name)
  {}

  lemma NotInDefaults(name: string)
    requires name != "" && name[0] != '#'
    ensures forall i :: 0 <= i < 5 ==> !Mentions(DEFAULTS[i].value, name)
  {
    forall i, p: nat | 0 <= i < 5 ensures !RefersTo(DEFAULTS[i].value, p, name) {
      assert DEFAULTS[i].value[1] == '#';
    }
  }

  /** A reference to one name alone mentions no other. */
  lemma OneReference(name: string, more: string, other: string)
    requires NameOk(name) && NameOk(other) && name != other
    requires forall k :: 0 <= k < |name + more| ==> (name + more)[k] != '&'
    ensures !Mentions("&" + name + more, other)
  {
    var s := "&" + name + more;
    assert s[1..] == name + more && forall p: nat :: 0 < p < |s| ==> s[p] == s[1..][p - 1];
    forall p: nat ensures !RefersTo(s, p, other) {
      if RefersTo(s, p, other) {
        SameName(name, other, name + more);
      }
    }
  }

  /** No value up to the one that is declared mentions the new name. */
  lemma TrapMentions(v: string, i: nat)
    requires !Complete(v) && i < 3
    ensures var ent := TrapTable(v); forall j :: 0 <= j <= 5 + i ==> !Mentions(ent[j].value, ent[5 + i].name)
  {
    hide Complete, First, Second, Third, Rest, NameOk, Mentions;
    TrapNames(v);
    TrapDistinct(v);
    Letters(v);
    var ent := TrapTable(v);
    var name := ent[5 + i].name;
    assert NameOk(name) && NameOk(ent[5].name) && NameOk(ent[6].name);
    NotInDefaults(name);
    NotInside(v, name);
    if i > 0 {
      OneReference(First(v), Rest(v), name);
    }
    if i > 1 {
      assert Second(v) + "" == Second(v) && "&" + Second(v) + "" == "&" + Second(v);
      OneReference(Second(v), "", name);
    }
  }

  lemma TrapPasses(literal: string, v: string, i: nat)
    requires !Complete(v) && i < 3
    ensures v == StoredOf(literal) ==> CheckPasses(Trap(literal, v), i) && NameOk(Trap(literal, v)[i].name)
  {
    hide Stored, StoredOf, Complete, NameOk, Mentions, First, Second, Third, Rest;
    var decls := Trap(literal, v);
    TrapTables(literal, v);
    TrapMentions(v, i);
    TrapNames(v);
    if v == StoredOf(literal) {
      var ent, s, name := TrapTable(v)[..5 + i], Stored(decls[i]), decls[i].name;
      assert TableOf(decls, i) == ent && s == TrapTable(v)[5 + i].value && name == TrapTable(v)[5 + i].name;
      forall path: seq<nat> ensures !Chain(ent, s, path, name) {
        Unmentioned(ent, s, path, name);
      }
    }
  }

  // ---- the trap does not let go ----

  /** The name that starts a text is the one found, when no earlier name is the same. */
  lemma LookupName(ent: Table, name: string, rest: string, b: nat)
    requires NamesOk(ent) && b < |ent| && ent[b].name == name && forall i :: 0 <= i < b ==> ent[i].name != name
    ensures Lookup(ent, name + rest) == b
  {
    var i := Lookup(ent, name + rest);
    if i < b { SameName(ent[i].name, name, name + rest); }
  }

  lemma NameParts(name: string)
    requires NameOk(name)
    ensures name == name[..|name| - 1] + ";" && ';' !in name[..|name| - 1]
  {}

  /** One reference by name. */
  lemma Expand(ent: Table, name: string, rest: string, b: nat)
    requires NamesOk(ent) && b < |ent| && ent[b].name == name && name[0] != '#'
    requires forall i :: 0 <= i < b ==> ent[i].name != name
    ensures Step(ent, Content, "&" + name + rest) == Move("", ent[b].value + rest)
  {
    hide Lookup, NameOk, CharRef, EmitRef, CSpan;
    LookupName(ent, name, rest, b);
    assert NameOk(ent[b].name);
    NameParts(name);
    var s, stem := "&" + name + rest, name[..|name| - 1];
    assert s[1..] == name + rest && s[|name| + 1..] == rest && s[1] == name[0];
    assert s == ("&" + stem) + (";" + rest);
    CSpanStops("&" + stem, ";" + rest, {';'});
  }

  /** No '&' of h refers to one of the three names of the trap. */
  predicate Harmless(ent: Table, h: string, w: string) {
    h == "" || ((h[0] == '&' ==> var b := Lookup(ent, h[1..] + w); b >= |ent| || b < 5) && Harmless(ent, h[1..], w))
  }

  lemma {:induction false} HarmlessFrom(ent: Table, h: string, w: string, n: nat)
    requires Harmless(ent, h, w) && n <= |h|
    ensures Harmless(ent, h[n..], w)
  {
    if n > 0 {
      assert h[1..][n - 1..] == h[n..];
      HarmlessFrom(ent, h[1..], w, n - 1);
    }
  }

  /** The head of the value is passed, whatever references to the defaults it holds. */
  lemma {:induction false} PassHead(ent: Table, h: string, w: string) returns (m: nat)
    requires NamesOk(ent) && |ent| >= 5 && ent[..5] == DEFAULTS && w != "" && w[0] == '&' && Harmless(ent, h, w)
    ensures Run(ent, Content, h + w, m).rest == w
    decreases |h|
  {
    hide Run, Step, Harmless, NamesOk;
    if h == "" {
      assert h + w == w;
      Ran(ent, w, w);
      m := 0;
    } else {
      var g, k := HeadStep(ent, h, w);
      HarmlessFrom(ent, h, w, |h| - |g|);
      var n := PassHead(ent, g, w);
      RunSplit(ent, Content, h + w, k, n);
      m := k + n;
    }
  }

  lemma Ran(ent: Table, s: string, r: string)
    requires s != ""
    ensures Run(ent, Content, s, 0).rest == s
    ensures Run(ent, Content, s, 1).rest == Step(ent, Content, s).rest
  {
    hide Step;
  }

  /** One or two passes leave a smaller head. */
  lemma HeadStep(ent: Table, h: string, w: string) returns (g: string, k: nat)
    requires NamesOk(ent) && |ent| >= 5 && ent[..5] == DEFAULTS && w != "" && w[0] == '&' && Harmless(ent, h, w)
             && h != ""
    ensures |g| < |h| && g == h[|h| - |g|..] && Run(ent, Content, h + w, k).rest == g + w
  {
    var s := h + w;
    assert s[0] == h[0] && s[1..] == h[1..] + w && s[1] == if |h| == 1 then w[0] else h[1];
    var b := Lookup(ent, s[1..]);
    if "&#" <= s {
      CharRefInside(h, w);
      g, k := RefStep(ent, h, w);
    } else if s[0] == '&' && b < |ent| {
      g, k := DefaultStep(ent, h, w, b);
    } else {
      hide Lookup, CharRef;
      g, k := h[1..], 1;
      Ran(ent, s, g + w);
    }
  }

  lemma RefStep(ent: Table, h: string, w: string) returns (g: string, k: nat)
    requires "&#" <= h && (CharRef(h + w).Some? ==> CharRef(h + w).value.1 < |h|)
    ensures |g| < |h| && g == h[|h| - |g|..] && Run(ent, Content, h + w, k).rest == g + w
  {
    hide CharRef, Lookup;
    var s := h + w;
    assert "&#" <= s && s[1..] == h[1..] + w;
    Ran(ent, s, s);
    k := 1;
    if CharRef(s).Some? {
      var e := CharRef(s).value.1;
      g := h[e + 1..];
      assert s[e + 1..] == g + w;
    } else {
      g := h[1..];
    }
  }

  /** The name of a default entity does not reach past the next '&'. */
  lemma DefaultInside(h: string, w: string, b: nat)
    requires w != "" && w[0] == '&' && b < 5 && DEFAULTS[b].name <= h + w
    ensures DEFAULTS[b].name <= h
  {
    var name := DEFAULTS[b].name;
    assert forall k :: 0 <= k < |name| ==> name[k] != '&';
    assert (h + w)[|h|] == '&';
    assert |name| <= |h|;
    assert name == (h + w)[..|name|] == h[..|name|];
  }

  /** A default entity, and the character reference it stands for. */
  lemma DefaultStep(ent: Table, h: string, w: string, b: nat) returns (g: string, k: nat)
    requires NamesOk(ent) && |ent| >= 5 && ent[..5] == DEFAULTS && w != "" && w[0] == '&' && h != "" && h[0] == '&'
    requires b == Lookup(ent, h[1..] + w) < 5
    ensures |g| < |h| && g == h[|h| - |g|..] && Run(ent, Content, h + w, k).rest == g + w
  {
    hide Lookup, Run, Step, NamesOk;
    var name := DEFAULTS[b].name;
    assert forall i :: 0 <= i < 5 ==> ent[i] == ent[..5][i] == DEFAULTS[i];
    DefaultInside(h[1..], w, b);
    g, k := h[1 + |name|..], 2;
    assert h + w == "&" + name + (g + w);
    DefaultNames(b);
    Expand(ent, name, g + w, b);
    DefaultEmits(ent, b, g + w);
    RunSplit(ent, Content, h + w, 1, 1);
    Ran(ent, h + w, h + w);
    Ran(ent, DEFAULTS[b].value + (g + w), g + w);
  }

  lemma DefaultNames(b: nat)
    requires b < 5
    ensures DEFAULTS[b].name != "" && DEFAULTS[b].name[0] != '#'
    ensures forall i :: 0 <= i < b ==> DEFAULTS[i].name != DEFAULTS[b].name
  {}

  lemma DefaultEmits(ent: Table, b: nat, rest: string)
    requires b < 5
    ensures Step(ent, Content, DEFAULTS[b].value + rest).rest == rest
  {
    var v := DEFAULTS[b].value;
    assert v == ['&', '#', v[2], v[3], ';'];
    DecimalRef(v[2], v[3], rest);
    assert (v + rest)[5..] == rest && "&#" <= v + rest;
    hide CharRef, EmitRef, Lookup;
  }

  /** In v, none of the names is met before the '&' that is left open. */
  lemma HeadHarmless(v: string, y: string)
    requires !Complete(v)
    ensures Harmless(TrapTable(v), v[..OpenAt(v)], "&" + Third(v) + y)
  {
    hide Complete;
    HarmlessTail(v, y, 0);
    assert v[0..OpenAt(v)] == v[..OpenAt(v)];
  }

  lemma {:induction false} HarmlessTail(v: string, y: string, j: nat)
    requires !Complete(v) && j <= OpenAt(v)
    ensures Harmless(TrapTable(v), v[j..OpenAt(v)], "&" + Third(v) + y)
    decreases OpenAt(v) - j
  {
    hide Complete, OpenAt, Closed, Lookup, First, Second, Rest;
    var i, w := OpenAt(v), "&" + Third(v) + y;
    if j < i {
      var h := v[j..i];
      assert h[1..] == v[j + 1..i];
      HarmlessTail(v, y, j + 1);
      if h[0] == '&' {
        assert h[1..] + w == v[j + 1..] + (Rest(v) + y) by {
          assert v[j + 1..] == v[j + 1..i] + "&" + v[i + 1..];
        }
        TooLong(v, v[j + 1..], Rest(v) + y);
      }
    }
  }

  /** A closed piece of v does not become one of the names by what comes behind it. */
  lemma TooLong(v: string, s: string, w: string)
    requires !Complete(v) && |s| <= |v| && Closed(s)
    ensures var b := Lookup(TrapTable(v), s + w); b >= 8 || b < 5
  {
    hide Complete, First, Second, Third, Rest, Closed, NameOk;
    TrapNames(v);
    var ent := TrapTable(v);
    var b := Lookup(ent, s + w);
    hide Lookup, TrapTable;
    if 5 <= b < 8 {
      var name := ent[b].name;
      assert NameOk(name) && name <= s + w;
      assert s == "" || s[0] == (s + w)[0];
      NotCompleted(name, s, w);
    }
  }

  lemma NotCompleted(name: string, s: string, w: string)
    requires NameOk(name) && Closed(s) && |name| > |s| && name[0] != '#'
    ensures !(name <= s + w)
  {
    assert (s + w)[0] == s[0];
    if s[0] != '#' { NamePrefix(name, s, w); }
  }

  /** The text comes back to itself. */
  lemma Turn(v: string, y: string) returns (m: nat)
    requires !Complete(v)
    ensures m > 0 && Run(TrapTable(v), Content, "&" + Second(v) + y, m).rest == "&" + Second(v) + y
  {
    hide *;
    var ent := TrapTable(v);
    var i := OpenAt(v);
    var head, w, s := v[..i], "&" + Third(v) + y, "&" + Second(v) + y;
    TrapParts(v, y);
    HeadHarmless(v, y);
    var k := PassHead(ent, head, w);
    Ran(ent, s, s);
    Ran(ent, "&" + First(v) + (Rest(v) + y), s);
    Ran(ent, w, s);
    RunSplit(ent, Content, s, 1, 1);
    RunSplit(ent, Content, s, 2, k);
    RunSplit(ent, Content, s, 2 + k, 1);
    m := 3 + k;
  }

  /** The three references of a turn. */
  lemma TrapParts(v: string, y: string)
    requires !Complete(v)
    ensures var ent, w := TrapTable(v), "&" + Third(v) + y;
            && NamesOk(ent) && |ent| == 8 && ent[..5] == DEFAULTS && w[0] == '&'
            && Step(ent, Content, "&" + Second(v) + y) == Move("", "&" + First(v) + (Rest(v) + y))
            && Step(ent, Content, "&" + First(v) + (Rest(v) + y)) == Move("", v[..OpenAt(v)] + w)
            && Step(ent, Content, w) == Move("", "&" + Second(v) + y)
  {
    hide Complete, Step, First, Second, Third, Rest, NamesOk, Closed;
    TrapNames(v);
    TrapDistinct(v);
    TrapPieces(v, y);
    var ent := TrapTable(v);
    assert ent[5].name == First(v) && ent[6].name == Second(v) && ent[7].name == Third(v);
    Expand(ent, Second(v), y, 6);
    Expand(ent, First(v), Rest(v) + y, 5);
    Expand(ent, Third(v), y, 7);
  }

  lemma TrapPieces(v: string, y: string)
    requires !Complete(v)
    ensures v + (Rest(v) + y) == v[..OpenAt(v)] + ("&" + Third(v) + y)
    ensures "&" + First(v) + Rest(v) + y == "&" + First(v) + (Rest(v) + y)
  {
    hide Complete, First, Rest, Closed;
    var i := OpenAt(v);
    assert v == v[..i] + "&" + v[i + 1..];
    Regroup(v[..i], v[i + 1..], Rest(v), y);
    Assoc("&" + First(v), Rest(v), y);
  }

  lemma Regroup(h: string, p: string, r: string, y: string)
    ensures h + "&" + p + (r + y) == h + ("&" + (p + r) + y)
  {}

  lemma {:induction false} TurnsForEver(v: string, n: nat)
    requires !Complete(v)
    ensures Run(TrapTable(v), Content, "&" + Second(v), n).rest != ""
    decreases n
  {
    hide *;
    var ent, s := TrapTable(v), "&" + Second(v);
    assert s + "" == s;
    var m := Turn(v, "");
    if n >= m {
      RunSplit(ent, Content, s, m, n - m);
      TurnsForEver(v, n - m);
    } else {
      RunSplit(ent, Content, s, n, m - n);
      NothingLeft(ent, m - n);
    }
  }

  lemma NothingLeft(ent: Table, n: nat)
    ensures Run(ent, Content, "", n).rest == ""
  {}

  // ---- how far the check goes ----

  /** Declarations that all pass the check. */
  ghost predicate Accepted(decls: seq<Declaration>) {
    forall i :: 0 <= i < |decls| ==> CheckPasses(decls, i)
  }

  ghost predicate Decodes(ent: Table, t: Mode, text: string) {
    exists n: nat :: Run(ent, t, text, n).rest == ""
  }

  ghost predicate DecodesAll(ent: Table) {
    forall t: Mode, text: string :: Decodes(ent, t, text)
  }

  /** However this literal is declared, among others whose values are complete, with names that fit: if the check
      accepts the declarations, every text is decoded. */
  ghost predicate AlwaysDecodes(literal: string) {
    forall decls: seq<Declaration> ::
      Accepted(decls) && AllFit(decls, |decls|)
      && (forall i :: 0 <= i < |decls| ==> decls[i].literal == literal || Complete(Stored(decls[i])))
      ==> DecodesAll(TableOf(decls, |decls|))
  }

  lemma TrapRest(literal: string, v: string)
    requires !Complete(v)
    ensures v == StoredOf(literal) ==> forall i :: 1 <= i < 3 ==> Complete(Stored(Trap(literal, v)[i]))
  {
    hide Stored, StoredOf, Decode, Newlines;
    TrapTables(literal, v);
    Letters(v);
    ClosedReference(First(v) + Rest(v));
    ClosedReference(Second(v));
    assert "&" + First(v) + Rest(v) == "&" + (First(v) + Rest(v));
  }

  lemma ClosedReference(s: string)
    requires ';' in s && '&' !in s
    ensures Complete("&" + s)
  {
    assert ("&" + s)[1..] == s;
    var k :| 0 <= k < |s| && s[k] == ';';
    assert CSpan(s, REFERENCE_END) <= k;
    NoReferencesIn(s);
  }

  lemma {:induction false} NoReferencesIn(s: string)
    requires '&' !in s
    ensures Complete(s)
  {
    if s != "" {
      assert s[0] != '&' && '&' !in s[1..];
      NoReferencesIn(s[1..]);
    }
  }

  /** A value that leaves a reference open: declarations that the check accepts, with no other such
      value, and a text that is never decoded. */
  lemma AcceptedTableCanDiverge(literal: string)
    ensures var v := StoredOf(literal);
            !Complete(v) ==>
              var decls := Trap(literal, v);
              && |decls| == 3 && decls[0].literal == literal && Accepted(decls)
              && (forall i :: 0 <= i < 3 ==> NameOk(decls[i].name))
              && Complete(Stored(decls[1])) && Complete(Stored(decls[2]))
              && !Decodes(TableOf(decls, 3), Content, "&" + Second(v))
  {
    hide CheckPasses, TableOf, Run, Stored, StoredOf, Complete, NameOk, TrapTable, First, Second, Third, Rest;
    var v := StoredOf(literal);
    if !Complete(v) {
      forall i | 0 <= i < 3 ensures CheckPasses(Trap(literal, v), i) && NameOk(Trap(literal, v)[i].name) {
        TrapPasses(literal, v, i);
      }
      TrapTables(literal, v);
      TrapRest(literal, v);
      forall n: nat ensures Run(TrapTable(v), Content, "&" + Second(v), n).rest != "" { TurnsForEver(v, n); }
    }
  }

  /** Completeness is exactly what the decoder needs of a value beyond the check. */
  lemma CompleteIsExact(literal: string)
    ensures Complete(StoredOf(literal)) <==> AlwaysDecodes(literal)
  {
    hide CheckPasses, TableOf, Run, StoredOf, Complete, Fits, Trap, Decodes;
    if Complete(StoredOf(literal)) {
      forall decls: seq<Declaration>
        | Accepted(decls) && AllFit(decls, |decls|)
          && (forall i :: 0 <= i < |decls| ==> decls[i].literal == literal || Complete(Stored(decls[i])))
        ensures DecodesAll(TableOf(decls, |decls|))
      {
        AcceptedDecodes(decls);
      }
    } else {
      AcceptedTableCanDiverge(literal);
      NamesAllFit(Trap(literal, StoredOf(literal)));
    }
  }

  lemma NamesAllFit(decls: seq<Declaration>)
    requires forall i :: 0 <= i < |decls| ==> NameOk(decls[i].name)
    ensures AllFit(decls, |decls|)
  {
    hide NameOk, TableOf;
  }

  lemma AcceptedDecodes(decls: seq<Declaration>)
    requires Accepted(decls) && AllFit(decls, |decls|) && forall i :: 0 <= i < |decls| ==> Complete(Stored(decls[i]))
    ensures DecodesAll(TableOf(decls, |decls|))
  {
    hide CheckPasses, TableOf, Run, Stored, Complete, Fits;
    forall t: Mode, text: string ensures Decodes(TableOf(decls, |decls|), t, text) {
      var n := DeclaredTableDecodes(decls, |decls|, t, text);
      IsDecoded(TableOf(decls, |decls|), t, text, n);
    }
  }

  lemma IsDecoded(ent: Table, t: Mode, text: string, n: nat)
    requires Run(ent, t, text, n).rest == ""
    ensures Decodes(ent, t, text)
  {}

  /** The shortest such value. */
  lemma LoneAmpersand()
    ensures StoredOf("&") == "&" && !Complete("&")
  {
    EmptyTableSafe();
    StoredPlain("&");
  }
}
