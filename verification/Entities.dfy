/** ezxml_decode and the entity table it reads.

    The decoder rewrites its text in place and scans replacement text again, so a
    text is described by the part already passed and the rest, and one pass of the
    decoding loop is Step. Whether the loop ends depends on the table. */
module Entities {
  import opened CStrings
  import opened CharRefs

  /** the decode modes '&', ' ', 'c' and '%' */
  datatype Mode = Content | Attribute | CData | EntityValue

  /** name includes the ';' that closes a reference */
  datatype Entity = Entity(name: string, value: string)

  type Table = seq<Entity>

  const DEFAULTS: Table := [
    Entity("lt;", "&#60;"), Entity("gt;", "&#62;"), Entity("quot;", "&#34;"),
    Entity("apos;", "&#39;"), Entity("amp;", "&#38;")]

  /** Index of the first entity whose name starts s; |ent| when there is none. */
  function Lookup(ent: Table, s: string): (b: nat)
    ensures b <= |ent|
    ensures b < |ent| ==> ent[b].name <= s
    ensures forall i :: 0 <= i < b ==> !(ent[i].name <= s)
  {
    if ent == [] then 0
    else if ent[0].name <= s then 0
    else 1 + Lookup(ent[1..], s)
  }

  // ---- the decoding loop ----

  datatype Move = Move(emit: string, rest: string)

  function Drop(s: string, n: nat): string {
    if n <= |s| then s[n..] else ""
  }

  /** One pass of the loop at the front of a non-empty rest. */
  function Step(ent: Table, t: Mode, s: string): Move
    requires s != ""
  {
    if t != CData && "&#" <= s then
      match CharRef(s)
      case Some((c, e)) => Move(EmitRef(c), s[e + 1..])
      case None => Move(s[..1], s[1..])
    else if s[0] == '&' && t in {Content, Attribute} && Lookup(ent, s[1..]) < |ent| then
      Move("", ent[Lookup(ent, s[1..])].value + Drop(s, CSpan(s, {';'}) + 1))
    else if t == Attribute && IsSpace(s[0]) then Move(" ", s[1..])
    else Move(s[..1], s[1..])
  }

  /** n passes, or fewer when the text is used up */
  function Run(ent: Table, t: Mode, s: string, n: nat): Move
    decreases n
  {
    if n == 0 || s == "" then Move("", s)
    else
      var m := Step(ent, t, s);
      var r := Run(ent, t, m.rest, n - 1);
      Move(m.emit + r.emit, r.rest)
  }

  /** Line endings are normalised before anything else. */
  function Newlines(s: string): (r: string)
    ensures |r| <= |s|
  {
    if s == "" then ""
    else if s[0] == '\r' then "\n" + Newlines(if |s| > 1 && s[1] == '\n' then s[2..] else s[1..])
    else [s[0]] + Newlines(s[1..])
  }

  // ---- tables on which the loop ends ----

  /** As a declaration stores them: no blank, no leading '%', and the only ';' is the last character. */
  predicate NameOk(name: string) {
    name != "" && name[0] != '%' && CSpan(name, REFERENCE_END) == |name| - 1 && name[|name| - 1] == ';'
  }

  const REFERENCE_END: set<char> := XML_WS + {';'}

  predicate NamesOk(ent: Table) {
    forall i :: 0 <= i < |ent| ==> NameOk(ent[i].name)
  }

  /** The decoder never looks up a name with a ';' inside: a reference to it is a character reference, or an
      earlier entity takes it. */
  predicate Fits(ent: Table, name: string) {
    NameOk(name) || (name != "" && name[0] == '#') || Lookup(ent, name) < |ent|
  }

  predicate NamesFit(ent: Table) {
    forall i :: 0 <= i < |ent| ==> Fits(ent[..i], ent[i].name)
  }

  /** What follows an '&' settles which entity it refers to: the name ends here, or it is no name. */
  predicate Closed(p: string) {
    CSpan(p, REFERENCE_END) < |p| || (p != "" && p[0] in {'#', '%'})
  }

  /** No '&' of a value can become a reference by what comes behind the value. */
  predicate Complete(s: string) {
    s == "" || ((s[0] == '&' ==> Closed(s[1..])) && Complete(s[1..]))
  }

  /** Every known entity that s refers to has a rank below k. */
  predicate Below(ent: Table, rank: seq<nat>, s: string, k: nat)
    requires |rank| == |ent|
  {
    s == "" ||
    ((s[0] == '&' && Lookup(ent, s[1..]) < |ent| ==> rank[Lookup(ent, s[1..])] < k) && Below(ent, rank, s[1..], k))
  }

  /** The reference graph is acyclic: a value refers only to entities of lower rank. */
  predicate RankOk(ent: Table, rank: seq<nat>) {
    |rank| == |ent| && forall i :: 0 <= i < |ent| ==> Below(ent, rank, ent[i].value, rank[i])
  }

  ghost predicate Ranked(ent: Table) {
    exists rank :: RankOk(ent, rank)
  }

  /** What the decoder needs of a table to end on every text. */
  predicate Sound(ent: Table, rank: seq<nat>) {
    RankOk(ent, rank) && NamesFit(ent) && forall i :: 0 <= i < |ent| ==> Complete(ent[i].value)
  }

  ghost predicate Safe(ent: Table) {
    exists rank :: Sound(ent, rank)
  }

  ghost function RankOf(ent: Table): (rank: seq<nat>)
    requires Safe(ent)
    ensures Sound(ent, rank) && |rank| == |ent|
  {
    var rank :| Sound(ent, rank); rank
  }

  /** One more than every rank. */
  function Top(rank: seq<nat>): (k: nat)
    ensures forall i :: 0 <= i < |rank| ==> rank[i] < k
  {
    if rank == [] then 0
    else var k := Top(rank[1..]); if rank[0] < k then k else rank[0] + 1
  }

  /** Characters that the full expansion of s passes through. */
  ghost function Cost(ent: Table, rank: seq<nat>, s: string, k: nat): nat
    requires |rank| == |ent|
    decreases k, |s|
  {
    if s == "" then 0
    else
      var b := Lookup(ent, s[1..]);
      (if s[0] == '&' && !("&#" <= s) && b < |ent| && rank[b] < k then 2 + Cost(ent, rank, ent[b].value, rank[b])
       else 1)
      + Cost(ent, rank, s[1..], k)
  }

  lemma {:induction false} CostAbove(ent: Table, rank: seq<nat>, s: string, k: nat, k': nat)
    requires |rank| == |ent| && Below(ent, rank, s, k) && k <= k'
    ensures Cost(ent, rank, s, k) == Cost(ent, rank, s, k')
  {
    if s != "" { CostAbove(ent, rank, s[1..], k, k'); }
  }

  lemma {:induction false} CostSuffix(ent: Table, rank: seq<nat>, s: string, n: nat, k: nat)
    requires |rank| == |ent| && n <= |s|
    ensures Cost(ent, rank, s[n..], k) + n <= Cost(ent, rank, s, k)
  {
    if n > 0 {
      assert s[1..][n - 1..] == s[n..];
      CostSuffix(ent, rank, s[1..], n - 1, k);
    }
  }

  /** The name that is found for a text has no ';' inside, or starts with '#'. */
  lemma FoundName(ent: Table, s: string)
    requires NamesFit(ent)
    ensures var b := Lookup(ent, s);
            b < |ent| ==> NameOk(ent[b].name) || (ent[b].name != "" && ent[b].name[0] == '#')
  {
    hide NameOk, Lookup;
    var b := Lookup(ent, s);
    if b < |ent| {
      assert Fits(ent[..b], ent[b].name);
    }
  }

  /** What comes behind a closed reference does not change the entity it refers to. */
  lemma LookupExtends(ent: Table, s: string, w: string)
    requires NamesFit(ent) && Closed(s) && s[0] != '#'
    ensures Lookup(ent, s + w) == Lookup(ent, s)
  {
    hide NameOk, Lookup;
    var a, b := Lookup(ent, s), Lookup(ent, s + w);
    assert (s + w)[0] == s[0];
    assert a < |ent| ==> ent[a].name <= s <= s + w;
    FoundName(ent, s + w);
    if b < |ent| { NamePrefix(ent[b].name, s, w); }
  }

  lemma NamePrefix(name: string, s: string, w: string)
    requires Closed(s) && s[0] != '#'
    ensures NameOk(name) && name <= s + w ==> name <= s
  {
    var j := CSpan(s, REFERENCE_END);
    assert (s + w)[0] == s[0];
    assert j < |s| ==> (s + w)[j] == s[j];
    if NameOk(name) && name <= s + w {
      assert name[0] == s[0];
      assert j < |name| ==> name[j] == s[j];
      assert name == (s + w)[..|name|] == s[..|name|];
    }
  }

  lemma {:induction false} CostConcat(ent: Table, rank: seq<nat>, v: string, w: string, k: nat)
    requires |rank| == |ent| && NamesFit(ent) && Complete(v)
    ensures Cost(ent, rank, v + w, k) == Cost(ent, rank, v, k) + Cost(ent, rank, w, k)
  {
    if v == "" {
      assert v + w == w;
    } else {
      assert (v + w)[1..] == v[1..] + w;
      assert "&#" <= v + w <==> "&#" <= v;
      if v[0] == '&' && !("&#" <= v) { LookupExtends(ent, v[1..], w); }
      CostConcat(ent, rank, v[1..], w, k);
    }
  }

  lemma SoundValue(ent: Table, rank: seq<nat>, b: nat)
    requires Sound(ent, rank) && b < |ent|
    ensures |rank| == |ent| && NamesFit(ent) && Complete(ent[b].value) && Below(ent, rank, ent[b].value, rank[b])
  {
    hide NamesFit, Complete, Below;
  }

  lemma CostReference(ent: Table, rank: seq<nat>, s: string, k: nat)
    requires |rank| == |ent| && s != "" && s[0] == '&' && !("&#" <= s) && Lookup(ent, s[1..]) < |ent|
    requires rank[Lookup(ent, s[1..])] < k
    ensures var b := Lookup(ent, s[1..]);
            Cost(ent, rank, s, k) == 2 + Cost(ent, rank, ent[b].value, rank[b]) + Cost(ent, rank, s[1..], k)
  {}

  lemma ReplacementDescends(ent: Table, rank: seq<nat>, s: string)
    requires Sound(ent, rank) && s != "" && s[0] == '&' && !("&#" <= s) && Lookup(ent, s[1..]) < |ent|
    ensures Cost(ent, rank, ent[Lookup(ent, s[1..])].value + Drop(s, CSpan(s, {';'}) + 1), Top(rank))
          < Cost(ent, rank, s, Top(rank))
  {
    hide *;
    var k, b := Top(rank), Lookup(ent, s[1..]);
    var v, w := ent[b].value, Drop(s, CSpan(s, {';'}) + 1);
    var n := Dropped(s, CSpan(s, {';'}));
    SoundValue(ent, rank, b);
    CostConcat(ent, rank, v, w, k);
    CostAbove(ent, rank, v, rank[b], k);
    CostReference(ent, rank, s, k);
    CostSuffix(ent, rank, s[1..], n, k);
  }

  lemma Dropped(s: string, n: nat) returns (m: nat)
    requires s != "" && n <= |s|
    ensures m < |s| && Drop(s, n + 1) == s[1..][m..]
  {
    m := if n < |s| then n else |s| - 1;
  }

  /** Every pass lowers the cost of what is left. */
  lemma StepDescends(ent: Table, rank: seq<nat>, t: Mode, s: string)
    requires Sound(ent, rank) && s != ""
    ensures Cost(ent, rank, Step(ent, t, s).rest, Top(rank)) < Cost(ent, rank, s, Top(rank))
  {
    hide CharRef, EmitRef, Cost;
    assert |rank| == |ent|;
    hide Sound;
    if !(t != CData && "&#" <= s) && s[0] == '&' && t in {Content, Attribute} && Lookup(ent, s[1..]) < |ent| {
      ReplacementDescends(ent, rank, s);
    } else {
      var r := Step(ent, t, s).rest;
      assert |r| < |s| && r == s[|s| - |r|..];
      CostSuffix(ent, rank, s, |s| - |r|, Top(rank));
    }
  }

  ghost function Passes(ent: Table, s: string): nat
    requires Safe(ent)
  {
    Cost(ent, RankOf(ent), s, Top(RankOf(ent)))
  }

  /** The text the loop leaves behind, on a table where it ends. */
  function Decode(ent: Table, t: Mode, s: string): string
    requires Safe(ent)
    decreases Passes(ent, s)
  {
    if s == "" then ""
    else
      var m := Step(ent, t, s);
      StepDescends(ent, RankOf(ent), t, s);
      m.emit + Decode(ent, t, m.rest)
  }

  /** The decoder ends on every text, within a number of passes known before it starts. */
  lemma {:induction false} DecodeHalts(ent: Table, t: Mode, s: string)
    requires Safe(ent)
    ensures Run(ent, t, s, Passes(ent, s)) == Move(Decode(ent, t, s), "")
    decreases Passes(ent, s)
  {
    hide Step, Cost, Sound, Top, Safe;
    if s != "" {
      var m := Step(ent, t, s);
      StepDescends(ent, RankOf(ent), t, s);
      var n, n' := Passes(ent, m.rest), Passes(ent, s);
      hide RankOf, Passes;
      DecodeHalts(ent, t, m.rest);
      RunLonger(ent, t, m.rest, n, n' - 1);
    }
  }

  lemma {:induction false} RunLonger(ent: Table, t: Mode, s: string, n: nat, n': nat)
    requires n <= n' && Run(ent, t, s, n).rest == ""
    ensures Run(ent, t, s, n') == Run(ent, t, s, n)
    decreases n
  {
    hide Step;
    if n > 0 && s != "" { RunLonger(ent, t, Step(ent, t, s).rest, n - 1, n' - 1); }
  }

  /** ezxml_decode: s is the text buffer r from position at on. The '*' mode, which also
      squeezes blanks, only serves declared default attributes. */
  method DecodeInPlace(text: string, ent: Table, t: Mode) returns (r: string)
    requires Safe(ent)
    ensures r == Decoded(ent, t, text)
  {
    hide Step, Safe, Newlines;
    r := NormalizeNewlines(text);
    var s := 0;
    while s < |r|
      invariant 0 <= s <= |r|
      invariant r[..s] + Decode(ent, t, r[s..]) == Decoded(ent, t, text)
      decreases Passes(ent, r[s..])
    {
      StepDescends(ent, RankOf(ent), t, r[s..]);
      var m := Step(ent, t, r[s..]);
      var done := r[..s] + m.emit;
      assert done + Decode(ent, t, m.rest) == r[..s] + (m.emit + Decode(ent, t, m.rest));
      r := done + m.rest;
      s := |done|;
      assert r[s..] == m.rest && r[..s] == done;
    }
    assert r[..s] + Decode(ent, t, r[s..]) == r;
  }

  function Decoded(ent: Table, t: Mode, text: string): string
    requires Safe(ent)
  {
    Decode(ent, t, Newlines(text))
  }

  /** The first loop of ezxml_decode. Past a '\r' at the very end of the text the C loop
      reads beyond the terminator; here it stops. */
  method NormalizeNewlines(text: string) returns (r: string)
    ensures r == Newlines(text)
  {
    r := text;
    var s := 0;
    while s < |r|
      invariant 0 <= s <= |r|
      invariant r[..s] + Newlines(r[s..]) == Newlines(text)
      decreases |r| - s
    {
      var done, rest := r[..s], r[s..];
      if rest[0] == '\r' {
        done := done + "\n";
        rest := if |rest| > 1 && rest[1] == '\n' then rest[2..] else rest[1..];
      } else {
        done := done + [rest[0]];
        rest := rest[1..];
      }
      NewlinesMove(r[..s], r[s..], done, rest);
      r := done + rest;
      s := |done|;
      assert r[..s] == done && r[s..] == rest;
    }
    assert r[..s] + Newlines(r[s..]) == r;
  }

  lemma NewlinesMove(done: string, rest: string, done': string, rest': string)
    requires rest != ""
    requires if rest[0] == '\r' then
               done' == done + "\n" && rest' == (if |rest| > 1 && rest[1] == '\n' then rest[2..] else rest[1..])
             else done' == done + [rest[0]] && rest' == rest[1..]
    ensures done + Newlines(rest) == done' + Newlines(rest') && |rest'| < |rest|
  {
    var c := if rest[0] == '\r' then '\n' else rest[0];
    assert Newlines(rest) == [c] + Newlines(rest');
    assert done' == done + [c];
    hide Newlines;
    Assoc(done, [c], Newlines(rest'));
  }
}
