/** Documents as they may be written, and what they mean: tags that close themselves, either kind of quote, blanks,
    comments, processing instructions, CDATA sections, and any text with its references. The parser reads each of
    them. */
module XmlForms {
  import opened CStrings
  import opened Entities
  import opened AmpCodec
  import opened XmlDocument
  import StableOrder
  import Utf8

  // ---- how documents are written ----

  /** raw stands for the characters between the quotes, references and all. */
  datatype AttrForm =
    | Quoted(gap: string, name: string, eq: string, quote: char, raw: string)
    | Bare(gap: string, name: string)

  /** after: the text behind the markup, up to the next '<'; lead: the text in front of the first node inside a tag */
  datatype Node =
    | Element(name: string, attrs: seq<AttrForm>, blanks: string, short: bool, lead: string, nodes: seq<Node>,
              gap: string, after: string)
    | Comment(text: string, after: string)
    | Section(text: string, after: string)
    | Instruction(text: string, after: string)

  predicate NoneOf(s: string, stop: set<char>) {
    forall i :: 0 <= i < |s| ==> s[i] !in stop
  }

  predicate AllOf(s: string, of: set<char>) {
    forall i :: 0 <= i < |s| ==> s[i] in of
  }

  predicate Contains(s: string, w: string) {
    exists i :: 0 <= i <= |s| && w <= s[i..]
  }

  const BLANK: set<char> := {' ', '\t', '\n', '\r'}

  /** a letter, '_', ':', or a byte that is no ASCII character */
  predicate NameStart(c: char) {
    'a' <= c <= 'z' || 'A' <= c <= 'Z' || c in {'_', ':'} || c as int >= 0x80
  }

  predicate TagName(s: string) {
    s != "" && NameStart(s[0]) && NoneOf(s, BLANK + {'/', '>', NUL})
  }

  predicate AttrName(s: string) {
    s != "" && NoneOf(s, BLANK + {'=', '/', '>', NUL, VT, FF})
  }

  /** text up to the next markup */
  predicate Raw(s: string) {
    NoneOf(s, {'<', NUL})
  }

  predicate AttrOk(a: AttrForm) {
    && a.gap != "" && AllOf(a.gap, BLANK) && AttrName(a.name)
    && (a.Quoted? ==>
          && a.eq != "" && AllOf(a.eq, BLANK + {'='})
          && a.quote in {'"', '\''} && NoneOf(a.raw, {a.quote, NUL}))
  }

  /** Behind a name without a value, no name starts with a quote: it would be read as the value. */
  predicate AttrsOk(attrs: seq<AttrForm>) {
    attrs == [] ||
    (AttrOk(attrs[0]) && AttrsOk(attrs[1..]) && (attrs[0].Bare? && |attrs| > 1 ==> NotQuote(attrs[1])))
  }

  predicate NotQuote(a: AttrForm) {
    a.name != "" && a.name[0] !in {'"', '\''}
  }

  predicate NodeOk(n: Node)
    decreases n, 1
  {
    && Raw(n.after)
    && match n
       case Element(name, attrs, blanks, short, lead, nodes, gap, _) =>
         && TagName(name) && AttrsOk(attrs) && AllOf(blanks, BLANK)
         && (if short then lead == "" && nodes == [] && gap == "" else Raw(lead) && NodesOk(nodes) && AllOf(gap, BLANK))
       case Comment(text, _) => NoneOf(text, {NUL}) && !Contains(text + "-", "--")
       case Section(text, _) => NoneOf(text, {NUL}) && !Contains(text, "]]>")
       case Instruction(text, _) => NoneOf(text, {NUL}) && !Contains("?" + text, "?>")
  }

  predicate NodesOk(nodes: seq<Node>)
    decreases nodes, 0
  {
    nodes == [] || (NodeOk(nodes[0]) && NodesOk(nodes[1..]))
  }

  function WriteAttr(a: AttrForm): string {
    a.gap + a.name + if a.Quoted? then a.eq + [a.quote] + a.raw + [a.quote] else ""
  }

  function WriteAttrs(attrs: seq<AttrForm>): string {
    if attrs == [] then "" else WriteAttr(attrs[0]) + WriteAttrs(attrs[1..])
  }

  /** A markup between its first '<' and its last '>'. */
  function Core(n: Node): string
    decreases n, 1
  {
    match n
    case Element(name, attrs, blanks, short, lead, nodes, gap, _) =>
      name + WriteAttrs(attrs) + blanks
      + if short then "/" else ">" + lead + WriteNodes(nodes) + "</" + name + gap
    case Comment(text, _) => "!--" + text + "--"
    case Section(text, _) => "![CDATA[" + text + "]]"
    case Instruction(text, _) => "?" + text + "?"
  }

  function WriteNodes(nodes: seq<Node>): string
    decreases nodes, 0
  {
    if nodes == [] then "" else "<" + Core(nodes[0]) + ">" + nodes[0].after + WriteNodes(nodes[1..])
  }

  // ---- what they mean ----

  function AttrMeans(a: AttrForm): Attr {
    Attr(a.name, if a.Quoted? then DecodeText(Attribute, a.raw) else "")
  }

  function AttrsMean(attrs: seq<AttrForm>): seq<Attr> {
    if attrs == [] then [] else [AttrMeans(attrs[0])] + AttrsMean(attrs[1..])
  }

  /** The tag of an element that stands behind off characters of its parent's text. */
  function Meaning(n: Node, off: nat): Tag
    requires n.Element?
    decreases n, 1
  {
    Filled(Tag(n.name, AttrsMean(n.attrs), off, DecodeText(Content, n.lead), []), n.nodes)
  }

  /** A tag after more of its content: text is added at its end, elements become its last children, a CDATA section is
      text without references, and comments and processing instructions leave no trace. */
  function Filled(t: Tag, nodes: seq<Node>): Tag
    decreases nodes, 0
  {
    if nodes == [] then t
    else
      var u := Added(t, nodes[0]);
      Filled(u.(txt := u.txt + DecodeText(Content, nodes[0].after)), nodes[1..])
  }

  function Added(t: Tag, n: Node): Tag
    decreases n, 2
  {
    match n
    case Element(_, _, _, _, _, _, _, _) => t.(kids := t.kids + [Meaning(n, |t.txt|)])
    case Section(text, _) => t.(txt := t.txt + DecodeText(CData, text))
    case _ => t
  }

  // ---- attributes ----

  lemma {:induction false} SpaceSkipped(gap: string, s: string)
    requires AllOf(gap, BLANK) && (s == "" || !IsSpace(s[0]))
    ensures SkipSpace(gap + s) == s
  {
    if gap == "" {
      assert gap + s == s;
    } else {
      assert (gap + s)[1..] == gap[1..] + s && (gap + s)[0] == gap[0];
      SpaceSkipped(gap[1..], s);
    }
  }

  lemma {:induction false} AnySkipped(gap: string, s: string, skip: set<char>)
    requires AllOf(gap, skip) && (s == "" || s[0] !in skip)
    ensures SkipAny(gap + s, skip) == s
  {
    if gap == "" {
      assert gap + s == s;
    } else {
      assert (gap + s)[1..] == gap[1..] + s && (gap + s)[0] == gap[0];
      AnySkipped(gap[1..], s, skip);
    }
  }

  lemma Sets()
    ensures BLANK == XML_WS && BLANK + {'='} == XML_WS + {'='} && BLANK + {'>'} == XML_WS + {'>'}
    ensures NAME_END == BLANK + {'/', '>'} && ATTR_END == BLANK + {'=', '/', '>'}
  {}

  lemma NameEnds(name: string, s: string, stop: set<char>)
    requires NoneOf(name, stop) && (s == "" || s[0] in stop)
    ensures CSpan(name + s, stop) == |name| && (name + s)[..|name|] == name && (name + s)[|name|..] == s
  {
    CSpanStops(name, s, stop);
  }

  /** One attribute with a value, and what follows it. */
  lemma ReadQuoted(a: AttrForm, s: string)
    requires AttrOk(a) && a.Quoted?
    ensures var t := a.name + (a.eq + ([a.quote] + (a.raw + ([a.quote] + s))));
            t[0] !in {'/', '>'} && OneAttr(t) == AttrStep(AttrMeans(a), SkipSpace(s))
  {
    hide DecodeText, SkipSpace, CSpan, SkipAny;
    Sets();
    var v := a.raw + ([a.quote] + s);
    var q := [a.quote] + v;
    var r1 := a.eq + q;
    assert r1[0] == a.eq[0];
    NameEnds(a.name, r1, ATTR_END);
    AnySkipped(a.eq[1..], q, BLANK + {'='});
    assert r1[1..] == a.eq[1..] + q && q[1..] == v;
    NameEnds(a.raw, [a.quote] + s, {a.quote});
    assert v[|a.raw| + 1..] == s;
    assert (a.name + r1)[0] == a.name[0];
  }

  /** One attribute without a value; behind it come blanks, or the end of the tag. */
  lemma ReadBare(a: AttrForm, gap: string, s: string)
    requires AttrOk(a) && a.Bare? && AllOf(gap, BLANK)
    requires s == "" || (!IsSpace(s[0]) && s[0] !in {'"', '\'', '='} && (gap == "" ==> s[0] in {'/', '>'}))
    ensures var t := a.name + (gap + s); t[0] !in {'/', '>'} && OneAttr(t) == AttrStep(AttrMeans(a), s)
  {
    hide DecodeText, SkipSpace, CSpan, SkipAny;
    Sets();
    var r1 := gap + s;
    assert r1 != "" ==> r1[0] == if gap == "" then s[0] else gap[0];
    NameEnds(a.name, r1, ATTR_END);
    assert (a.name + r1)[0] == a.name[0];
    SpaceSkipped("", s);
    assert "" + s == s;
    if gap == "" {
      assert r1 == s;
    } else {
      AnySkipped(gap[1..], s, BLANK + {'='});
      assert r1[1..] == gap[1..] + s;
    }
  }

  /** All attributes of a tag, up to the '/' or '>' that ends it, or the end of the text. */
  lemma {:induction false} ReadAttrs(attrs: seq<AttrForm>, blanks: string, end: string)
    requires AttrsOk(attrs) && AllOf(blanks, BLANK)
    requires end == "" || end[0] in {'/', '>'}
    ensures ParseAttrs(SkipSpace(WriteAttrs(attrs) + blanks + end)) == Attrs(AttrsMean(attrs), end)
    decreases |attrs|
  {
    hide OneAttr, DecodeText, SkipSpace;
    if attrs == [] {
      assert "" + blanks + end == blanks + end;
      SpaceSkipped(blanks, end);
    } else {
      var a, more := attrs[0], WriteAttrs(attrs[1..]) + blanks + end;
      ReadAttrs(attrs[1..], blanks, end);
      var t := ReadFirst(a, attrs[1..], blanks, end);
      assert WriteAttrs(attrs) + blanks + end == a.gap + t;
      SpaceSkipped(a.gap, t);
    }
  }

  /** The first of several attributes. */
  lemma ReadFirst(a: AttrForm, attrs: seq<AttrForm>, blanks: string, end: string) returns (t: string)
    requires AttrOk(a) && AttrsOk(attrs) && AllOf(blanks, BLANK) && (a.Bare? && attrs != [] ==> NotQuote(attrs[0]))
    requires end == "" || end[0] in {'/', '>'}
    ensures WriteAttr(a) + WriteAttrs(attrs) + blanks + end == a.gap + t
    ensures t != "" && !IsSpace(t[0]) && t[0] !in {'/', '>'}
    ensures OneAttr(t) == AttrStep(AttrMeans(a), SkipSpace(WriteAttrs(attrs) + blanks + end))
  {
    hide *;
    var more := WriteAttrs(attrs) + blanks + end;
    NameFirst(a);
    Assoc(WriteAttr(a), WriteAttrs(attrs) + blanks, end);
    Assoc(WriteAttr(a), WriteAttrs(attrs), blanks);
    if a.Quoted? {
      t := a.name + (a.eq + ([a.quote] + (a.raw + ([a.quote] + more))));
      ReadQuoted(a, more);
      AttrParts(a, more);
    } else {
      var gap, s := NextGap(attrs, blanks, end);
      t := a.name + (gap + s);
      ReadBare(a, gap, s);
      SpaceSkipped(gap, s);
      BareParts(a, more);
    }
  }

  lemma NameFirst(a: AttrForm)
    requires AttrOk(a)
    ensures a.name != "" && !IsSpace(a.name[0]) && a.name[0] !in {'/', '>'}
  {}

  lemma BareParts(a: AttrForm, more: string)
    requires a.Bare?
    ensures WriteAttr(a) + more == a.gap + (a.name + more)
  {
    assert WriteAttr(a) == a.gap + a.name;
  }

  lemma AttrParts(a: AttrForm, more: string)
    requires a.Quoted?
    ensures WriteAttr(a) + more == a.gap + (a.name + (a.eq + ([a.quote] + (a.raw + ([a.quote] + more)))))
  {}

  /** The blanks behind an attribute, and what comes then. */
  lemma NextGap(attrs: seq<AttrForm>, blanks: string, end: string) returns (gap: string, s: string)
    requires AttrsOk(attrs) && AllOf(blanks, BLANK) && (attrs != [] ==> NotQuote(attrs[0]))
    requires end == "" || end[0] in {'/', '>'}
    ensures WriteAttrs(attrs) + blanks + end == gap + s && AllOf(gap, BLANK)
    ensures s == "" || (!IsSpace(s[0]) && s[0] !in {'"', '\'', '='} && (gap == "" ==> s[0] in {'/', '>'}))
  {
    if attrs == [] {
      gap, s := blanks, end;
    } else {
      var a, more := attrs[0], WriteAttrs(attrs[1..]) + blanks + end;
      gap := a.gap;
      s := a.name + (if a.Quoted? then a.eq + [a.quote] + a.raw + [a.quote] else "") + more;
      FirstParts(attrs, blanks, end);
      assert AttrOk(a) && s[0] == a.name[0];
    }
  }

  lemma FirstParts(attrs: seq<AttrForm>, blanks: string, end: string)
    requires attrs != []
    ensures var a, more := attrs[0], WriteAttrs(attrs[1..]) + blanks + end;
            WriteAttrs(attrs) + blanks + end
            == a.gap + (a.name + (if a.Quoted? then a.eq + [a.quote] + a.raw + [a.quote] else "") + more)
  {}

  // ---- markup other than tags ----

  /** What comes behind a markup: its '>', in the text or as the last character of the document. */
  predicate Closes(rest: string, e: char) {
    if rest == "" then e == '>' else rest[0] == '>'
  }

  lemma {:induction false} FindFirst(s: string, w: string, k: nat)
    requires k <= |s| && w <= s[k..] && forall i :: 0 <= i < k ==> !(w <= s[i..])
    ensures Find(s, w) == Some(k)
  {
    assert s[0..] == s;
    if k > 0 {
      assert forall i :: 0 <= i < |s| ==> s[1..][i..] == s[i + 1..];
      FindFirst(s[1..], w, k - 1);
    }
  }

  lemma DashesInside(text: string, rest: string, i: nat)
    requires i < |text| && "--" <= (text + "--" + rest)[i..]
    ensures Contains(text + "-", "--")
  {
    var t := text + "--" + rest;
    assert t[i..][0] == t[i] == (text + "-")[i] && t[i..][1] == t[i + 1] == (text + "-")[i + 1];
    assert "--" <= (text + "-")[i..];
  }

  lemma CommentFound(text: string, rest: string)
    requires !Contains(text + "-", "--")
    ensures var s := "!--" + text + "--" + rest;
            s[0] == '!' && s[1] == '-' && Find(s[3..], "--") == Some(|text|) && s[|text| + 5..] == rest
  {
    hide Find;
    var s, t := "!--" + text + "--" + rest, text + "--" + rest;
    assert s[3..] == t;
    forall i | 0 <= i < |text| ensures !("--" <= t[i..]) {
      if "--" <= t[i..] { DashesInside(text, rest, i); }
    }
    assert t[|text|..] == "--" + rest;
    FindFirst(t, "--", |text|);
    assert s[|text| + 5..] == rest;
  }

  lemma CommentRead(text: string, rest: string, e: char, ctx: Ctx)
    requires ctx.Valid() && !Contains(text + "-", "--") && Closes(rest, e)
    ensures OneMarkup("!--" + text + "--" + rest, e, ctx) == Next(rest, ctx)
  {
    hide Find;
    CommentFound(text, rest);
  }

  lemma EndInside(text: string, rest: string, i: nat)
    requires i < |text| + 8 && "]]>" <= ("![CDATA[" + text + "]]" + rest)[i..]
    ensures Contains(text, "]]>")
  {
    var s, k := "![CDATA[" + text + "]]" + rest, |text| + 8;
    assert s[i..][0] == s[i] && s[i..][1] == s[i + 1] && s[i..][2] == s[i + 2];
    assert forall j :: 0 <= j < 8 ==> s[j] != ']';
    assert i + 2 < k by { assert s[k] == s[k + 1] == ']'; }
    assert text[i - 8..][0] == s[i] && text[i - 8..][1] == s[i + 1] && text[i - 8..][2] == s[i + 2];
    assert "]]>" <= text[i - 8..];
  }

  lemma SectionRead(text: string, rest: string, e: char, ctx: Ctx)
    requires ctx.Valid() && !Contains(text, "]]>") && rest != "" && rest[0] == '>'
    ensures OneMarkup("![CDATA[" + text + "]]" + rest, e, ctx) == Next(rest, CharContent(ctx, text, CData))
  {
    hide Find, CharContent;
    var s, k := "![CDATA[" + text + "]]" + rest, |text| + 8;
    forall i | 0 <= i < k ensures !("]]>" <= s[i..]) {
      if "]]>" <= s[i..] { EndInside(text, rest, i); }
    }
    assert s[k..] == "]]" + rest && (rest == [rest[0]] + rest[1..]);
    FindFirst(s, "]]>", k);
    assert s[k + 2..] == rest && s[8..k] == text;
    assert s[0] == '!' && s[1] == '[';
  }

  lemma TailContains(u: string, k: nat, w: string)
    requires k <= |u| && Contains(u[k..], w)
    ensures Contains(u, w)
  {
    var i :| 0 <= i <= |u[k..]| && w <= u[k..][i..];
    assert u[k..][i..] == u[k + i..];
  }

  lemma ContainsPair(u: string, i: nat)
    requires i + 1 < |u| && u[i] == '?' && u[i + 1] == '>'
    ensures Contains(u, "?>")
  {
    assert "?>" <= u[i..];
  }

  lemma {:induction false} InstructionEnds(u: string, rest: string)
    requires !Contains(u, "?>") && (rest == "" || rest[0] == '>')
    ensures PiEnd(u + "?" + rest) == Some(rest)
    decreases |u|
  {
    var s := u + "?" + rest;
    var n := CSpan(s, {'?'});
    assert n <= |u| by { assert s[|u|] == '?'; }
    if n == |u| {
      assert s[n + 1..] == rest;
    } else {
      assert s[n] == u[n] == '?' && s[n + 1] == if n + 1 < |u| then u[n + 1] else '?';
      if n + 1 < |u| && u[n + 1] == '>' { ContainsPair(u, n); }
      assert s[n + 1..] == u[n + 1..] + "?" + rest;
      if Contains(u[n + 1..], "?>") { TailContains(u, n + 1, "?>"); }
      InstructionEnds(u[n + 1..], rest);
    }
  }

  lemma InstructionRead(text: string, rest: string, e: char, ctx: Ctx)
    requires ctx.Valid() && !Contains("?" + text, "?>") && Closes(rest, e)
    ensures OneMarkup("?" + text + "?" + rest, e, ctx) == Next(rest, ctx)
  {
    hide PiEnd;
    var s := "?" + text + "?" + rest;
    InstructionEnds("?" + text, rest);
    assert s[0] == '?';
  }

  // ---- tags ----

  lemma OpenRead(n: Node, end: string, e: char, ctx: Ctx)
    requires n.Element? && NodeOk(n) && (end == "" || end[0] in {'/', '>'}) && !ctx.Closed? && ctx.Valid()
    ensures OneMarkup(n.name + WriteAttrs(n.attrs) + n.blanks + end, e, ctx)
         == if end == "" && e != '>' then Stop(MissingGt)
            else if end == "" || end[0] == '>' then Next(end, OpenTag(ctx, n.name, AttrsMean(n.attrs)))
            else if Closes(end[1..], e) then Next(end[1..], CloseTag(OpenTag(ctx, n.name, AttrsMean(n.attrs))))
            else Stop(MissingGt)
  {
    hide ParseAttrs, OpenTag, CloseTag;
    var more := WriteAttrs(n.attrs) + n.blanks + end;
    var s := n.name + WriteAttrs(n.attrs) + n.blanks + end;
    assert s == n.name + more;
    FirstBlank(n, end);
    NameEnds(n.name, more, NAME_END);
    assert s[0] == n.name[0];
    ReadAttrs(n.attrs, n.blanks, end);
  }

  lemma FirstBlank(n: Node, end: string)
    requires n.Element? && NodeOk(n) && (end == "" || end[0] in {'/', '>'})
    ensures var more := WriteAttrs(n.attrs) + n.blanks + end; more == "" || more[0] in NAME_END
  {
    var more := WriteAttrs(n.attrs) + n.blanks + end;
    if n.attrs != [] {
      assert AttrOk(n.attrs[0]) && more[0] == n.attrs[0].gap[0];
    } else if more != "" {
      assert more[0] == if n.blanks != "" then n.blanks[0] else end[0];
    }
  }

  /** Behind the name of an end tag: its '>', or blanks and then anything at all. */
  predicate Ends(gap: string, rest: string, e: char) {
    AllOf(gap, BLANK) && (gap == "" ==> Closes(rest, e)) && (rest == "" || rest[0] !in BLANK)
  }

  lemma EndsHere(gap: string, rest: string, e: char)
    requires AllOf(gap, BLANK) && Closes(rest, e)
    ensures Ends(gap, rest, e)
  {}

  lemma CloseRead(name: string, gap: string, rest: string, e: char, path: seq<Tag>)
    requires TagName(name) && path != [] && Last(path).name == name && Ends(gap, rest, e)
    ensures OneMarkup("/" + name + gap + rest, e, Within(path)) == Next(rest, CloseTag(Within(path)))
  {
    hide CloseTag, CSpan, SkipAny;
    var s := "/" + name + gap + rest;
    EndName(name, gap, rest, e);
    assert s[1..] == name + (gap + rest) && s[0] == '/';
  }

  /** The name in an end tag. */
  lemma EndName(name: string, gap: string, rest: string, e: char)
    requires NoneOf(name, BLANK + {'>'}) && Ends(gap, rest, e)
    ensures var t, n := name + (gap + rest), CSpan(name + (gap + rest), XML_WS + {'>'});
            && n == |name| && t[..n] == name && t[n..] == gap + rest && SkipAny(t[n..], XML_WS) == rest
            && (n == |t| ==> e == '>')
  {
    Sets();
    var t := name + (gap + rest);
    assert gap + rest != "" ==> (gap + rest)[0] == if gap != "" then gap[0] else rest[0];
    CSpanStops(name, gap + rest, XML_WS + {'>'});
    assert t[..|name|] == name && t[|name|..] == gap + rest;
    AnySkipped(gap, rest, XML_WS);
  }

  // ---- text ----

  /** Text up to the next '<'. */
  lemma TextRead(raw: string, m: string, e: char, ctx: Ctx)
    requires ctx.Valid() && Raw(raw)
    ensures After(">" + raw + "<" + m, e, ctx) == Parse(m, e, CharContent(ctx, raw, Content))
  {
    hide Parse, CharContent;
    var s := ">" + raw + "<" + m;
    assert s[1..] == raw + ("<" + m);
    CSpanStops(raw, "<" + m, {'<'});
    assert s[1..|raw| + 1] == raw && s[|raw| + 2..] == m;
  }

  lemma ContentAdded(path: seq<Tag>, s: string, t: Mode)
    requires path != []
    ensures CharContent(Within(path), s, t) == Within(SetLast(path, AddText(Last(path), DecodeText(t, s))))
  {
    if s == "" {
      NothingDecoded(t);
      assert Last(path).txt + "" == Last(path).txt;
    }
    hide DecodeText;
    if s == "" {
      assert AddText(Last(path), "") == Last(path) && SetLast(path, Last(path)) == path;
    }
  }

  lemma NothingDecoded(t: Mode)
    ensures DecodeText(t, "") == ""
  {
    DecEmpty(t);
  }

  // ---- a node and what follows it ----

  /** What a markup does to the open tags. */
  function Done(n: Node, ctx: Ctx): Ctx
    requires ctx.Valid()
  {
    match n
    case Element(_, _, _, _, _, _, _, _) =>
      if ctx.Within? then Within(SetLast(ctx.path, Added(Last(ctx.path), n)))
      else Closed(Meaning(n, 0))
    case Section(text, _) => CharContent(ctx, text, CData)
    case _ => ctx
  }

  predicate KidsInside(t: Tag) {
    forall i :: 0 <= i < |t.kids| ==> t.kids[i].off <= |t.txt|
  }

  lemma ParseNext(s: string, e: char, ctx: Ctx, rest: string, c: Ctx)
    requires ctx.Valid() && OneMarkup(s, e, ctx) == Next(rest, c)
    ensures Parse(s, e, ctx) == After(rest, e, c)
  {
    hide OneMarkup;
  }

  /** A tag is read whole, with all that is in it. */
  lemma {:induction false} ReadNode(n: Node, rest: string, e: char, ctx: Ctx)
    requires NodeOk(n) && Closes(rest, e) && ctx.Valid() && (n.Section? ==> rest != "") && (n.Element? ==> !ctx.Closed?)
    requires ctx.Within? ==> KidsInside(Last(ctx.path))
    ensures Done(n, ctx).Valid() && Parse(Core(n) + rest, e, ctx) == After(rest, e, Done(n, ctx))
    decreases n, 1
  {
    hide OneMarkup, CharContent, Parse, After;
    match n
    case Comment(text, _) =>
      CommentRead(text, rest, e, ctx);
      ParseNext(Core(n) + rest, e, ctx, rest, ctx);
    case Section(text, _) =>
      SectionRead(text, rest, e, ctx);
      ParseNext(Core(n) + rest, e, ctx, rest, Done(n, ctx));
    case Instruction(text, _) =>
      InstructionRead(text, rest, e, ctx);
      ParseNext(Core(n) + rest, e, ctx, rest, ctx);
    case Element(_, _, _, short, _, _, _, _) =>
      if short { ReadShort(n, rest, e, ctx); } else { ReadLong(n, rest, e, ctx); }
  }

  lemma ReadShort(n: Node, rest: string, e: char, ctx: Ctx)
    requires n.Element? && n.short && NodeOk(n) && Closes(rest, e) && ctx.Valid() && !ctx.Closed?
    requires ctx.Within? ==> KidsInside(Last(ctx.path))
    ensures Parse(Core(n) + rest, e, ctx) == After(rest, e, Done(n, ctx))
  {
    hide OneMarkup, Parse, After, DecodeText, CloseTag;
    OpenRead(n, "/" + rest, e, ctx);
    assert Core(n) + rest == n.name + WriteAttrs(n.attrs) + n.blanks + ("/" + rest);
    assert ("/" + rest)[1..] == rest;
    NothingDecoded(Content);
    TagDone(n, ctx, Tag(n.name, AttrsMean(n.attrs), Here(ctx), "", []));
    ParseNext(Core(n) + rest, e, ctx, rest, Done(n, ctx));
  }

  function Here(ctx: Ctx): nat
    requires ctx.Valid()
  {
    if ctx.Within? then |Last(ctx.path).txt| else 0
  }

  /** Opening a tag, filling it and closing it. */
  lemma TagDone(n: Node, ctx: Ctx, open: Tag)
    requires n.Element? && ctx.Valid() && !ctx.Closed? && (ctx.Within? ==> KidsInside(Last(ctx.path)))
    requires open == Tag(n.name, AttrsMean(n.attrs), Here(ctx), "", [])
    ensures var path := if ctx.Within? then ctx.path else [];
            OpenTag(ctx, n.name, AttrsMean(n.attrs)) == Within(path + [open])
            && CloseTag(Within(path + [Meaning(n, Here(ctx))])) == Done(n, ctx)
  {
    hide Meaning;
    if ctx.Within? {
      MeaningOff(n, Here(ctx));
      KidClosed(ctx.path, Meaning(n, Here(ctx)));
    } else {
      assert [] + [open] == [open];
    }
  }

  lemma MeaningOff(n: Node, off: nat)
    requires n.Element?
    ensures Meaning(n, off).off == off && Meaning(n, off).name == n.name
  {
    hide DecodeText;
    FilledOff(Tag(n.name, AttrsMean(n.attrs), off, DecodeText(Content, n.lead), []), n.nodes);
  }

  lemma {:induction false} FilledOff(t: Tag, nodes: seq<Node>)
    ensures Filled(t, nodes).off == t.off && Filled(t, nodes).name == t.name
    decreases |nodes|
  {
    hide DecodeText, Meaning;
    if nodes != [] {
      var n := nodes[0];
      var u := Added(t, n);
      FilledOff(u.(txt := u.txt + DecodeText(Content, n.after)), nodes[1..]);
    }
  }

  lemma KidClosed(path: seq<Tag>, k: Tag)
    requires path != [] && KidsInside(Last(path)) && k.off == |Last(path).txt|
    ensures CloseTag(Within(path + [k])) == Within(SetLast(path, Last(path).(kids := Last(path).kids + [k])))
  {
    StableOrder.InsertAtEnd(OffAfter, Last(path).kids, k);
    var p := path + [k];
    assert p[..|p| - 2] == path[..|path| - 1] && p[|p| - 2] == Last(path);
  }

  lemma ElementParts(n: Node)
    requires n.Element? && !n.short && NodeOk(n)
    ensures TagName(n.name) && Raw(n.lead) && NodesOk(n.nodes) && AllOf(n.gap, BLANK)
    ensures Core(n)
         == n.name + WriteAttrs(n.attrs) + n.blanks + (">" + n.lead + WriteNodes(n.nodes) + "</" + n.name + n.gap)
  {}

  lemma {:induction false} ReadLong(n: Node, rest: string, e: char, ctx: Ctx)
    requires n.Element? && !n.short && NodeOk(n) && Closes(rest, e) && ctx.Valid() && !ctx.Closed?
    requires ctx.Within? ==> KidsInside(Last(ctx.path))
    ensures Parse(Core(n) + rest, e, ctx) == After(rest, e, Done(n, ctx))
    decreases n, 0
  {
    hide *;
    ElementParts(n);
    var m := "/" + n.name + n.gap + rest;
    var end := ">" + n.lead + WriteNodes(n.nodes) + "<" + m;
    var path := if ctx.Within? then ctx.path else [];
    var open := Tag(n.name, AttrsMean(n.attrs), Here(ctx), "", []);
    Ending(n, rest, m, end);
    TagDone(n, ctx, open);
    OpenRead(n, end, e, ctx);
    ParseNext(Core(n) + rest, e, ctx, end, Within(path + [open]));
    OpenIsEmpty(path, open);
    ReadNodes(n.nodes, n.lead, m, e, path + [open]);
    MeaningOff(n, Here(ctx));
    FilledLast(n, path, open);
    var full := path + [Meaning(n, Here(ctx))];
    LastOf(path, Meaning(n, Here(ctx)));
    PathValid(full);
    EndsHere(n.gap, rest, e);
    CloseRead(n.name, n.gap, rest, e, full);
    ParseNext(m, e, Within(full), rest, CloseTag(Within(full)));
  }

  lemma Ending(n: Node, rest: string, m: string, end: string)
    requires n.Element? && m == "/" + n.name + n.gap + rest && end == ">" + n.lead + WriteNodes(n.nodes) + "<" + m
    ensures n.name + WriteAttrs(n.attrs) + n.blanks
            + (">" + n.lead + WriteNodes(n.nodes) + "</" + n.name + n.gap) + rest
         == n.name + WriteAttrs(n.attrs) + n.blanks + end
    ensures end != "" && end[0] == '>'
  {
    hide WriteAttrs, WriteNodes;
    var a := ">" + n.lead + WriteNodes(n.nodes);
    assert (a + "</" + n.name + n.gap) + rest == a + "<" + ("/" + n.name + n.gap + rest);
    Assoc(n.name + WriteAttrs(n.attrs) + n.blanks, a + "</" + n.name + n.gap, rest);
  }

  lemma OpenIsEmpty(path: seq<Tag>, open: Tag)
    requires open.kids == []
    ensures Last(path + [open]) == open && KidsInside(open) && path + [open] != []
  {}

  lemma PathValid(path: seq<Tag>)
    requires path != []
    ensures Within(path).Valid()
  {}

  lemma LastOf(path: seq<Tag>, t: Tag)
    ensures Last(path + [t]) == t && path + [t] != [] && SetLast(path + [t], t) == path + [t]
  {}

  lemma FilledLast(n: Node, path: seq<Tag>, open: Tag)
    requires n.Element? && open.txt == "" && open.kids == []
    requires open == Tag(n.name, AttrsMean(n.attrs), open.off, "", [])
    ensures SetLast(path + [open], Filled(open.(txt := open.txt + DecodeText(Content, n.lead)), n.nodes))
         == path + [Meaning(n, open.off)]
  {
    hide Filled, DecodeText;
    assert "" + DecodeText(Content, n.lead) == DecodeText(Content, n.lead);
  }

  /** Text, nodes and the text behind them, up to a '<' that is no part of them. */
  lemma {:induction false} ReadNodes(nodes: seq<Node>, raw: string, m: string, e: char, path: seq<Tag>)
    requires NodesOk(nodes) && Raw(raw) && path != [] && KidsInside(Last(path))
    ensures After(">" + raw + WriteNodes(nodes) + "<" + m, e, Within(path))
         == (var t := Last(path).(txt := Last(path).txt + DecodeText(Content, raw));
             Parse(m, e, Within(SetLast(path, Filled(t, nodes)))))
    decreases nodes, 0
  {
    hide Parse, After, DecodeText, CharContent, Core, Meaning;
    var t := Last(path).(txt := Last(path).txt + DecodeText(Content, raw));
    ContentAdded(path, raw, Content);
    if nodes == [] {
      assert raw + "" == raw && ">" + raw + "" + "<" + m == ">" + raw + "<" + m;
      TextRead(raw, m, e, Within(path));
    } else {
      var n := nodes[0];
      var next := ">" + n.after + WriteNodes(nodes[1..]) + "<" + m;
      NodeSplit(raw, n, nodes[1..], m);
      TextRead(raw, Core(n) + next, e, Within(path));
      var path1 := SetLast(path, t);
      LastSet(path, t);
      ReadNode(n, next, e, Within(path1));
      var u := Added(t, n);
      NodeDone(n, path1, t);
      LastSet(path1, u);
      ReadNodes(nodes[1..], n.after, m, e, SetLast(path1, u));
      LastSet(path, u);
      SetTwice(path, t, u);
      SetTwice(path, u, Filled(u.(txt := u.txt + DecodeText(Content, n.after)), nodes[1..]));
    }
  }

  lemma LastSet(path: seq<Tag>, t: Tag)
    requires path != []
    ensures SetLast(path, t) != [] && Last(SetLast(path, t)) == t
  {}

  lemma SetTwice(path: seq<Tag>, t: Tag, u: Tag)
    requires path != []
    ensures SetLast(path, t) != [] && SetLast(SetLast(path, t), u) == SetLast(path, u)
  {}

  lemma NodeSplit(raw: string, n: Node, nodes: seq<Node>, m: string)
    ensures ">" + raw + WriteNodes([n] + nodes) + "<" + m
         == ">" + raw + "<" + (Core(n) + (">" + n.after + WriteNodes(nodes) + "<" + m))
  {
    hide Core;
    var c, w := Core(n), WriteNodes(nodes);
    assert ([n] + nodes)[1..] == nodes;
    assert WriteNodes([n] + nodes) == "<" + c + ">" + n.after + w;
    assert "<" + c + ">" + n.after + w + "<" + m == "<" + (c + (">" + n.after + w + "<" + m));
    Assoc(">" + raw, "<" + c + ">" + n.after + w, "<" + m);
  }

  lemma NodeDone(n: Node, path: seq<Tag>, t: Tag)
    requires path != [] && Last(path) == t && KidsInside(t)
    ensures var u := Added(t, n);
            Done(n, Within(path)) == Within(SetLast(path, u)) && KidsInside(u)
            && KidsInside(u.(txt := u.txt + DecodeText(Content, n.after)))
  {
    hide DecodeText, Meaning;
    match n
    case Element(_, _, _, _, _, _, _, _) => MeaningOff(n, |t.txt|);
    case Section(text, _) => ContentAdded(path, text, CData);
    case _ => assert SetLast(path, t) == path;
  }

  // ---- documents ----

  /** A root element, with text, comments and the like around it. A CDATA section cannot be the last of them. */
  datatype Doc = Doc(start: string, before: seq<Node>, root: Node, behind: seq<Node>)

  predicate DocOk(d: Doc) {
    && Raw(d.start) && (d.start != "" ==> d.start[0] as int !in {0xFE, 0xFF})
    && NodesOk(d.before) && (forall i :: 0 <= i < |d.before| ==> !d.before[i].Element?)
    && d.root.Element? && NodeOk(d.root)
    && NodesOk(d.behind) && forall i :: 0 <= i < |d.behind| ==> d.behind[i].Comment? || d.behind[i].Instruction?
  }

  function WriteDoc(d: Doc): string {
    d.start + WriteNodes(d.before) + WriteNodes([d.root] + d.behind)
  }

  lemma OutsideText(ctx: Ctx, raw: string, t: Mode)
    requires !ctx.Within?
    ensures CharContent(ctx, raw, t) == ctx
  {}

  /** What comes behind the root changes nothing, up to the last character of the document. */
  lemma {:induction false} ReadBehind(nodes: seq<Node>, raw: string, rest: string, e: char, ctx: Ctx)
    requires NodesOk(nodes) && (forall i :: 0 <= i < |nodes| ==> nodes[i].Comment? || nodes[i].Instruction?)
    requires Raw(raw) && ctx.Closed? && rest + [e] == ">" + raw + WriteNodes(nodes)
    ensures After(rest, e, ctx) == Parsed(ctx.root)
    decreases |nodes|
  {
    hide Parse, CharContent, Core, WriteNodes;
    if nodes == [] {
      assert WriteNodes([]) == "" by { NoNodes(); }
      assert ">" + raw + "" == ">" + raw;
      NoMarkup(raw, rest, e);
    } else {
      var n := nodes[0];
      assert [n] + nodes[1..] == nodes;
      var rest' := Outside(n, nodes[1..], raw, rest, e);
      hide After;
      TextRead(raw, Core(n) + rest', e, ctx);
      OutsideText(ctx, raw, Content);
      ReadNode(n, rest', e, ctx);
      ReadBehind(nodes[1..], n.after, rest', e, ctx);
    }
  }

  lemma NoNodes()
    ensures WriteNodes([]) == ""
  {}

  lemma NoMarkup(raw: string, rest: string, e: char)
    requires Raw(raw) && rest + [e] == ">" + raw
    ensures |rest| < 2 || CSpan(rest[1..], {'<'}) == |rest| - 1
  {
    if |rest| >= 2 {
      assert forall i :: 0 <= i < |rest| ==> rest[i] == (rest + [e])[i] == (">" + raw)[i];
      assert forall i :: 0 <= i < |rest[1..]| ==> rest[1..][i] == raw[i];
      CSpanStops(rest[1..], "", {'<'});
      assert rest[1..] + "" == rest[1..];
    }
  }

  /** A text that ends with a document, from the '>' in front of a node. */
  lemma Outside(n: Node, nodes: seq<Node>, raw: string, rest: string, e: char) returns (rest': string)
    requires rest + [e] == ">" + raw + WriteNodes([n] + nodes)
    ensures rest == ">" + raw + "<" + (Core(n) + rest') && rest' + [e] == ">" + n.after + WriteNodes(nodes)
    ensures Closes(rest', e)
  {
    hide Core;
    var c, end := Core(n), ">" + n.after + WriteNodes(nodes);
    assert ([n] + nodes)[1..] == nodes;
    assert WriteNodes([n] + nodes) == "<" + c + ">" + n.after + WriteNodes(nodes);
    var head := ">" + raw + "<" + c;
    assert rest + [e] == head + end;
    rest' := end[..|end| - 1];
    CutLast(rest, e, head, end);
    assert head + rest' == ">" + raw + "<" + (c + rest');
    assert rest' != "" ==> rest'[0] == end[0];
  }

  lemma CutLast(rest: string, e: char, head: string, end: string)
    requires rest + [e] == head + end && end != ""
    ensures e == end[|end| - 1] && rest == head + end[..|end| - 1] && end == end[..|end| - 1] + [e]
  {
    assert (rest + [e])[|rest|] == e && (rest + [e])[..|rest|] == rest;
    assert (head + end)[..|rest|] == head + end[..|end| - 1];
  }

  /** The nodes in front of the root, and the root. */
  lemma {:induction false} ReadBefore(nodes: seq<Node>, raw: string, root: Node, behind: seq<Node>, rest: string,
                                      e: char)
    requires NodesOk(nodes) && (forall i :: 0 <= i < |nodes| ==> !nodes[i].Element?) && Raw(raw)
    requires root.Element? && NodeOk(root) && NodesOk(behind)
    requires forall i :: 0 <= i < |behind| ==> behind[i].Comment? || behind[i].Instruction?
    requires rest + [e] == ">" + raw + WriteNodes(nodes + ([root] + behind))
    ensures After(rest, e, Fresh) == Parsed(Meaning(root, 0))
    decreases |nodes|
  {
    hide Parse, After, CharContent, Core, WriteNodes, Meaning;
    OutsideText(Fresh, raw, Content);
    if nodes == [] {
      assert nodes + ([root] + behind) == [root] + behind;
      var rest' := Outside(root, behind, raw, rest, e);
      TextRead(raw, Core(root) + rest', e, Fresh);
      ReadNode(root, rest', e, Fresh);
      assert Raw(root.after);
      ReadBehind(behind, root.after, rest', e, Closed(Meaning(root, 0)));
    } else {
      var n, more := nodes[0], nodes[1..] + ([root] + behind);
      assert nodes + ([root] + behind) == [n] + more;
      var rest' := Outside(n, more, raw, rest, e);
      NodeFirst(n, more);
      TextRead(raw, Core(n) + rest', e, Fresh);
      assert rest' != "" by { assert (rest' + [e])[|rest' + [e]| - 1] == e; }
      ReadNode(n, rest', e, Fresh);
      if n.Section? { OutsideText(Fresh, n.text, CData); }
      ReadBefore(nodes[1..], n.after, root, behind, rest', e);
    }
  }

  lemma NodeFirst(n: Node, more: seq<Node>)
    ensures more != [] ==> |WriteNodes(more)| > 0
  {}

  lemma {:induction false} NoNulBoth(a: string, b: string)
    requires NoneOf(a, {NUL}) && NoneOf(b, {NUL})
    ensures NoneOf(a + b, {NUL})
  {}

  lemma {:induction false} AttrsNoNul(attrs: seq<AttrForm>)
    requires AttrsOk(attrs)
    ensures NoneOf(WriteAttrs(attrs), {NUL})
  {
    if attrs != [] {
      assert AttrOk(attrs[0]);
      AttrsNoNul(attrs[1..]);
    }
  }

  lemma {:induction false} CoreNoNul(n: Node)
    requires NodeOk(n)
    ensures NoneOf(Core(n), {NUL})
    decreases n, 1
  {
    match n
    case Element(name, attrs, blanks, short, lead, nodes, gap, _) =>
      AttrsNoNul(attrs);
      if !short { NodesNoNul(nodes); }
      hide WriteAttrs, WriteNodes;
    case Comment(text, _) =>
    case Section(text, _) =>
    case Instruction(text, _) =>
  }

  lemma {:induction false} NodesNoNul(nodes: seq<Node>)
    requires NodesOk(nodes)
    ensures NoneOf(WriteNodes(nodes), {NUL})
    decreases nodes, 0
  {
    hide Core;
    if nodes != [] {
      CoreNoNul(nodes[0]);
      assert Raw(nodes[0].after);
      NodesNoNul(nodes[1..]);
    }
  }

  /** The text of a document as the parser's loop sees it: as if a '>' were in front. */
  lemma DocumentLoop(doc: string, k: nat)
    requires NoneOf(doc, {NUL}) && k + 1 < |doc| && doc[k] == '<' && doc[0] as int !in {0xFE, 0xFF}
    ensures var n := |doc| - 1; ParseDocument(doc) == After(">" + doc[..n], doc[n], Fresh)
  {
    hide Parse, CharContent;
    var n := |doc| - 1;
    var text := doc[..n];
    CSpanStops(text, "", {NUL});
    assert text + "" == text && doc[..|text|] == text;
    assert Bytes(doc) == doc;
    var m := CSpan(text, {'<'});
    assert m <= k by { assert text[k] == '<'; }
    var s := ">" + text;
    assert s[1..] == text && s[m + 2..] == text[m + 1..];
    OutsideText(Fresh, s[1..m + 1], Content);
  }

  /** Every document that is written like this is read, and means the tree of its root. */
  lemma DocumentIsRead(d: Doc)
    requires DocOk(d)
    ensures ParseDocument(WriteDoc(d)) == Parsed(Meaning(d.root, 0))
  {
    hide Parse, After, Core, WriteNodes, Meaning, NodeOk, NodesOk;
    var all, doc := d.before + ([d.root] + d.behind), WriteDoc(d);
    WriteConcat(d.before, [d.root] + d.behind);
    assert doc == d.start + WriteNodes(all);
    NodesOkBoth(d.before, [d.root] + d.behind, d.root, d.behind);
    NodesNoNul(all);
    NoNulBoth(d.start, WriteNodes(all));
    StartsMarkup(all);
    assert doc[|d.start|] == '<' && |doc| > |d.start| + 1;
    assert doc[0] == if d.start == "" then '<' else d.start[0];
    DocumentLoop(doc, |d.start|);
    var n := |doc| - 1;
    assert (">" + doc[..n]) + [doc[n]] == ">" + d.start + WriteNodes(all);
    ReadBefore(d.before, d.start, d.root, d.behind, ">" + doc[..n], doc[n]);
  }

  /** So is its UTF-16 form, in either byte order. */
  lemma Utf16IsRead(d: Doc, cs: seq<Utf8.Scalar>, be: bool)
    requires DocOk(d) && Utf8.Utf8Bytes(cs) == WriteDoc(d)
    ensures ParseDocument(Utf8.ByteOrderMark(be) + Utf8.Utf16(cs, be)) == Parsed(Meaning(d.root, 0))
  {
    hide *;
    var input := Utf8.ByteOrderMark(be) + Utf8.Utf16(cs, be);
    Utf8.Utf16ToUtf8(cs, be);
    Utf8Marked(cs, be);
    OwnBytes(d);
    DocumentIsRead(d);
    SameBytes(input, WriteDoc(d));
  }

  lemma Utf8Marked(cs: seq<Utf8.Scalar>, be: bool)
    requires Utf8.Utf8Of(Utf8.ByteOrderMark(be) + Utf8.Utf16(cs, be)) == Some(Utf8.Utf8Bytes(cs))
    ensures Bytes(Utf8.ByteOrderMark(be) + Utf8.Utf16(cs, be)) == Utf8.Utf8Bytes(cs)
  {
    hide Utf8.Utf16, Utf8.Utf8Bytes, Utf8.Utf8Of;
  }

  lemma OwnBytes(d: Doc)
    requires DocOk(d)
    ensures Bytes(WriteDoc(d)) == WriteDoc(d)
  {
    hide WriteNodes, NodeOk, NodesOk;
    WriteConcat(d.before, [d.root] + d.behind);
    StartsMarkup(d.before + ([d.root] + d.behind));
    assert WriteDoc(d) == d.start + WriteNodes(d.before + ([d.root] + d.behind));
    assert WriteDoc(d)[0] == if d.start == "" then '<' else d.start[0];
  }

  lemma SameBytes(a: string, b: string)
    requires Bytes(a) == Bytes(b)
    ensures ParseDocument(a) == ParseDocument(b)
  {
    hide Bytes, Parse, CSpan;
  }

  lemma {:induction false} WriteConcat(a: seq<Node>, b: seq<Node>)
    ensures WriteNodes(a + b) == WriteNodes(a) + WriteNodes(b)
  {
    hide Core;
    if a == [] {
      assert a + b == b;
    } else {
      assert (a + b)[1..] == a[1..] + b;
      WriteConcat(a[1..], b);
    }
  }

  lemma {:induction false} NodesOkBoth(a: seq<Node>, b: seq<Node>, root: Node, behind: seq<Node>)
    requires NodesOk(a) && b == [root] + behind && NodeOk(root) && NodesOk(behind)
    ensures NodesOk(a + b)
    decreases |a|
  {
    hide NodeOk;
    if a == [] {
      assert a + b == b && b[1..] == behind;
    } else {
      assert (a + b)[1..] == a[1..] + b;
      NodesOkBoth(a[1..], b, root, behind);
    }
  }

  lemma StartsMarkup(nodes: seq<Node>)
    requires nodes != []
    ensures |WriteNodes(nodes)| > 1 && WriteNodes(nodes)[0] == '<'
  {
    hide Core;
  }

  // ---- what is refused ----

  /** An end tag must name the tag that is open. */
  lemma WrongEnd(name: string, gap: string, rest: string, e: char, ctx: Ctx)
    requires ctx.Valid() && NoneOf(name, BLANK + {'>'}) && Ends(gap, rest, e)
    requires ctx.Within? ==> Last(ctx.path).name != name
    ensures Parse("/" + name + gap + rest, e, ctx) == Failed(UnexpectedClose)
  {
    hide CloseTag, CSpan, SkipAny;
    var s := "/" + name + gap + rest;
    EndName(name, gap, rest, e);
    assert s[1..] == name + (gap + rest) && s[0] == '/';
  }

  /** Only one root: no tag behind its end. */
  lemma SecondRoot(s: string, e: char, root: Tag)
    requires s != "" && NameStart(s[0])
    ensures Parse(s, e, Closed(root)) == Failed(OutsideRoot)
  {}

  /** A value without its second quote. */
  lemma QuoteMissing(n: Node, a: AttrForm, e: char, ctx: Ctx)
    requires n.Element? && NodeOk(n) && AttrOk(a) && a.Quoted? && ctx.Valid() && !ctx.Closed?
    requires AttrsOk(n.attrs) && (n.attrs != [] && n.attrs[|n.attrs| - 1].Bare? ==> NotQuote(a))
    ensures Parse(n.name + WriteAttrs(n.attrs) + (a.gap + a.name + a.eq + [a.quote] + a.raw), e, ctx)
         == Failed(MissingQuote)
  {
    hide ParseAttrs, OpenTag, CloseTag;
    var tail := a.gap + a.name + a.eq + [a.quote] + a.raw;
    var more := WriteAttrs(n.attrs) + tail;
    var s := n.name + WriteAttrs(n.attrs) + tail;
    assert s == n.name + more;
    assert more[0] == if n.attrs == [] then a.gap[0] else n.attrs[0].gap[0] by {
      if n.attrs != [] { assert AttrOk(n.attrs[0]) && WriteAttrs(n.attrs)[0] == n.attrs[0].gap[0]; }
    }
    assert more[0] in BLANK by { if n.attrs != [] { assert AttrOk(n.attrs[0]); } }
    NameEnds(n.name, more, NAME_END);
    assert s[0] == n.name[0];
    AttrsUnquoted(n.attrs, a);
  }

  lemma {:induction false} AttrsUnquoted(attrs: seq<AttrForm>, a: AttrForm)
    requires AttrsOk(attrs) && AttrOk(a) && a.Quoted?
    requires attrs != [] && attrs[|attrs| - 1].Bare? ==> NotQuote(a)
    ensures ParseAttrs(SkipSpace(WriteAttrs(attrs) + (a.gap + a.name + a.eq + [a.quote] + a.raw))) == Unquoted
    decreases |attrs|
  {
    hide OneAttr, DecodeText, SkipSpace;
    var tail := a.gap + a.name + a.eq + [a.quote] + a.raw;
    if attrs == [] {
      var t := a.name + (a.eq + ([a.quote] + a.raw));
      assert "" + tail == a.gap + t;
      assert t[0] == a.name[0];
      SpaceSkipped(a.gap, t);
      OneUnquoted(a);
    } else {
      var b, more := attrs[0], WriteAttrs(attrs[1..]) + tail;
      AttrsUnquoted(attrs[1..], a);
      var t := FirstThen(b, attrs[1..], a);
      assert WriteAttrs(attrs) + tail == WriteAttr(b) + WriteAttrs(attrs[1..]) + tail == b.gap + t;
      SpaceSkipped(b.gap, t);
    }
  }

  lemma OneUnquoted(a: AttrForm)
    requires AttrOk(a) && a.Quoted?
    ensures var t := a.name + (a.eq + ([a.quote] + a.raw)); t[0] !in {'/', '>'} && OneAttr(t) == NoQuote
  {
    hide DecodeText, SkipSpace, CSpan, SkipAny;
    Sets();
    var q := [a.quote] + a.raw;
    var r1 := a.eq + q;
    assert r1[0] == a.eq[0];
    NameEnds(a.name, r1, ATTR_END);
    AnySkipped(a.eq[1..], q, BLANK + {'='});
    assert r1[1..] == a.eq[1..] + q && q[1..] == a.raw;
    CSpanStops(a.raw, "", {a.quote});
    assert a.raw + "" == a.raw;
    assert (a.name + r1)[0] == a.name[0];
  }

  /** One of several attributes, with an unfinished one at the end. */
  lemma FirstThen(b: AttrForm, attrs: seq<AttrForm>, a: AttrForm) returns (t: string)
    requires AttrOk(b) && AttrsOk(attrs) && AttrOk(a) && a.Quoted?
    requires b.Bare? ==> NotQuote(if attrs == [] then a else attrs[0])
    ensures var tail := a.gap + a.name + a.eq + [a.quote] + a.raw;
            && WriteAttr(b) + WriteAttrs(attrs) + tail == b.gap + t && t != "" && !IsSpace(t[0]) && t[0] !in {'/', '>'}
            && OneAttr(t) == AttrStep(AttrMeans(b), SkipSpace(WriteAttrs(attrs) + tail))
  {
    hide OneAttr, DecodeText, SkipSpace;
    var tail := a.gap + a.name + a.eq + [a.quote] + a.raw;
    var more := WriteAttrs(attrs) + tail;
    assert WriteAttr(b) + WriteAttrs(attrs) + tail == WriteAttr(b) + more;
    if b.Quoted? {
      t := b.name + (b.eq + ([b.quote] + (b.raw + ([b.quote] + more))));
      ReadQuoted(b, more);
      AttrParts(b, more);
    } else {
      var next := if attrs == [] then a else attrs[0];
      assert AttrOk(next);
      var s := more[|next.gap|..];
      NextStarts(attrs, a);
      t := b.name + (next.gap + s);
      ReadBare(b, next.gap, s);
      SpaceSkipped(next.gap, s);
      assert WriteAttr(b) + more == b.gap + (b.name + more);
    }
    assert t[0] == b.name[0];
  }

  lemma NextStarts(attrs: seq<AttrForm>, a: AttrForm)
    requires AttrsOk(attrs) && AttrOk(a) && a.Quoted?
    ensures var more := WriteAttrs(attrs) + (a.gap + a.name + a.eq + [a.quote] + a.raw);
            var next := if attrs == [] then a else attrs[0];
            && |more| > |next.gap| && more == next.gap + more[|next.gap|..]
            && next.name != "" && more[|next.gap|] == next.name[0]
  {
    var next := if attrs == [] then a else attrs[0];
    assert AttrOk(next);
    if attrs != [] {
      assert WriteAttrs(attrs) == next.gap + (next.name + ((if next.Quoted? then next.eq + [next.quote] + next.raw
                                                                                 + [next.quote] else "")
                                                           + WriteAttrs(attrs[1..])));
    }
  }

  /** A '/' in a tag with something else than a '>' behind it. */
  lemma SlashAlone(n: Node, rest: string, e: char, ctx: Ctx)
    requires n.Element? && NodeOk(n) && ctx.Valid() && !ctx.Closed? && !Closes(rest, e)
    ensures Parse(n.name + WriteAttrs(n.attrs) + n.blanks + ("/" + rest), e, ctx) == Failed(MissingGt)
  {
    hide OneMarkup;
    OpenRead(n, "/" + rest, e, ctx);
    assert ("/" + rest)[1..] == rest;
  }

  /** A text that ends inside a tag. */
  lemma TagCut(n: Node, e: char, ctx: Ctx)
    requires n.Element? && NodeOk(n) && ctx.Valid() && !ctx.Closed?
    ensures Parse(n.name + WriteAttrs(n.attrs) + n.blanks, e, ctx)
         == Failed(if e == '>' then UnclosedTag else MissingGt)
  {
    hide OneMarkup;
    OpenRead(n, "", e, ctx);
    assert n.name + WriteAttrs(n.attrs) + n.blanks + "" == n.name + WriteAttrs(n.attrs) + n.blanks;
  }

  lemma {:induction false} NotFound(s: string, w: string)
    requires !Contains(s, w) && w != ""
    ensures Find(s, w) == None
  {
    assert s[0..] == s;
    if s != "" {
      if Contains(s[1..], w) { TailContains(s, 1, w); }
      NotFound(s[1..], w);
    }
  }

  /** Markup that does not end. */
  lemma Unended(s: string, e: char, ctx: Ctx)
    requires ctx.Valid()
    ensures !Contains(s, "--") ==> Parse("!--" + s, e, ctx) == Failed(UnclosedComment)
    ensures !Contains(s, "]]>") ==> Parse("![CDATA[" + s, e, ctx) == Failed(UnclosedCData)
  {
    var c, d := "!--" + s, "![CDATA[" + s;
    assert c[3..] == s && c[0] == '!' && c[1] == '-' && "!--" <= c;
    if !Contains(s, "--") { NotFound(s, "--"); }
    assert d[0] == '!' && d[1] == '[' && "![CDATA[" <= d;
    if !Contains(s, "]]>") {
      if Contains(d, "]]>") { SectionEnd(s); }
      NotFound(d, "]]>");
    }
    hide Find;
  }

  lemma SectionEnd(s: string)
    requires Contains("![CDATA[" + s, "]]>")
    ensures Contains(s, "]]>")
  {
    var d := "![CDATA[" + s;
    var i :| 0 <= i <= |d| && "]]>" <= d[i..];
    assert d[i..][0] == d[i] == ']' && forall j :: 0 <= j < 8 ==> d[j] != ']';
    assert s[i - 8..] == d[i..];
  }

  /** A document that ends inside a tag, or without one. */
  lemma Unfinished(path: seq<Tag>)
    requires path != []
    ensures Final(Within(path)) == Failed(UnclosedTag) && Final(Fresh) == Failed(RootMissing)
  {}

  lemma {:induction false} NoInstructionEnd(s: string)
    requires !Contains(s, "?>")
    ensures PiEnd(s) == if s != "" && s[|s| - 1] == '?' then Some("") else None
    decreases |s|
  {
    var n := CSpan(s, {'?'});
    if n < |s| && n + 1 < |s| {
      if s[n + 1] == '>' { ContainsPair(s, n); }
      if Contains(s[n + 1..], "?>") { TailContains(s, n + 1, "?>"); }
      NoInstructionEnd(s[n + 1..]);
    }
  }

  /** A processing instruction without its end. */
  lemma InstructionUnended(s: string, e: char, ctx: Ctx)
    requires ctx.Valid() && !Contains("?" + s, "?>") && (e != '>' || (s != "" && s[|s| - 1] != '?'))
    ensures Parse("?" + s, e, ctx) == Failed(UnclosedPi)
  {
    NoInstructionEnd("?" + s);
    hide PiEnd, Find;
  }

  /** Two dashes inside a comment. */
  lemma CommentRefused(text: string, rest: string, e: char, ctx: Ctx)
    requires ctx.Valid() && !Contains(text + "-", "--") && !Closes(rest, e)
    ensures Parse("!--" + text + "--" + rest, e, ctx) == Failed(UnclosedComment)
  {
    hide Find;
    CommentFound(text, rest);
  }

  /** A '<' with nothing known behind it. */
  lemma UnknownMarkup(s: string, e: char, ctx: Ctx)
    requires ctx.Valid() && (s == "" || (!NameStart(s[0]) && s[0] !in {'/', '!', '?'}))
    ensures Parse(s, e, ctx) == Failed(UnexpectedLt)
  {}
}
