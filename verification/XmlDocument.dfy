/** The ezxml parser and printer, and the tag tree between them. A text being parsed is the
    part still ahead; the buffer the C code cuts up in place is never read behind it. */
module XmlDocument {
  import opened CStrings
  import opened Entities
  import opened AmpCodec
  import StableOrder
  import Utf8

  datatype Attr = Attr(name: string, value: string)

  /** off: position in the parent's text at which the tag stands; kids in document order */
  datatype Tag = Tag(name: string, attrs: seq<Attr>, off: nat, txt: string, kids: seq<Tag>)

  // ---- ezxml_toxml_r ----

  /** An attribute hidden by an earlier one of the same name is not written. */
  function PrintAttrs(attrs: seq<Attr>, seen: set<string>): string {
    if attrs == [] then ""
    else
      var a := attrs[0];
      (if a.name in seen then "" else " " + a.name + "=\"" + AmpEncode(a.value, true) + "\"")
      + PrintAttrs(attrs[1..], seen + {a.name})
  }

  function Clip(off: nat, txt: string): (k: nat)
    ensures k <= |txt|
  {
    if off <= |txt| then off else |txt|
  }

  /** txt + start written for off - start characters: a count that wraps below zero
      means up to the end of the text. */
  function Segment(txt: string, start: nat, off: nat): string
    requires start <= |txt|
  {
    if off < start then txt[start..] else txt[start..Clip(off, txt)]
  }

  function Print(t: Tag): string
    decreases t, 1
  {
    "<" + t.name + PrintAttrs(t.attrs, {}) + ">" + PrintKids(t.txt, 0, t.kids) + "</" + t.name + ">"
  }

  function PrintKids(txt: string, start: nat, kids: seq<Tag>): string
    requires start <= |txt|
    decreases kids, 0
  {
    if kids == [] then AmpEncode(txt[start..], false)
    else
      AmpEncode(Segment(txt, start, kids[0].off), false) + Print(kids[0])
      + PrintKids(txt, Clip(kids[0].off, txt), kids[1..])
  }

  // ---- ezxml_parse_str: tags and text ----

  /** root->cur: before the root tag, inside the tags of path (root first), or after the root. */
  datatype Ctx = Fresh | Within(path: seq<Tag>) | Closed(root: Tag)
  {
    predicate Valid() { Within? ==> path != [] }
  }

  datatype Error = RootMissing | OutsideRoot | MissingQuote | MissingGt | UnexpectedClose | UnclosedTag
                 | UnclosedComment | UnclosedCData | UnclosedPi | UnexpectedLt | DocTypeNotModelled

  datatype Result = Parsed(root: Tag) | Failed(error: Error)

  function OpenTag(ctx: Ctx, name: string, attrs: seq<Attr>): (r: Ctx)
    requires !ctx.Closed? && ctx.Valid()
    ensures r.Valid()
  {
    if ctx.Fresh? then Within([Tag(name, attrs, 0, "", [])])
    else Within(ctx.path + [Tag(name, attrs, |Last(ctx.path).txt|, "", [])])
  }

  predicate OffAfter(c: Tag, x: Tag) {
    c.off > x.off
  }

  /** ezxml_insert. The parent's text and children do not change while the child is open,
      so the child is put in place when it closes. */
  function Attach(parent: Tag, child: Tag): Tag {
    parent.(kids := StableOrder.Insert(OffAfter, parent.kids, child))
  }

  function CloseTag(ctx: Ctx): (r: Ctx)
    requires ctx.Within? && ctx.Valid()
    ensures r.Valid()
  {
    var n := |ctx.path|;
    if n == 1 then Closed(ctx.path[0])
    else Within(ctx.path[..n - 2] + [Attach(ctx.path[n - 2], ctx.path[n - 1])])
  }

  function AddText(t: Tag, s: string): Tag {
    t.(txt := t.txt + s)
  }

  function Last(path: seq<Tag>): Tag
    requires path != []
  {
    path[|path| - 1]
  }

  function SetLast(path: seq<Tag>, t: Tag): seq<Tag>
    requires path != []
  {
    path[..|path| - 1] + [t]
  }

  /** ezxml_char_content; the entity table is the default one */
  function CharContent(ctx: Ctx, s: string, t: Mode): (r: Ctx)
    requires ctx.Valid()
    ensures r.Valid() && (r.Closed? <==> ctx.Closed?)
  {
    if !ctx.Within? || s == "" then ctx
    else Within(SetLast(ctx.path, AddText(Last(ctx.path), DecodeText(t, s))))
  }

  // ---- ezxml_parse_str: markup ----

  predicate IsNameStart(c: char) {
    'a' <= c <= 'z' || 'A' <= c <= 'Z' || c == '_' || c == ':' || c as int >= 0x80
  }

  datatype AttrStep = AttrStep(attr: Attr, rest: string) | NoQuote

  const NAME_END: set<char> := XML_WS + {'/', '>'}
  const ATTR_END: set<char> := XML_WS + {'=', '/', '>'}

  /** One attribute at the front of s, and the space after it. */
  function OneAttr(s: string): (r: AttrStep)
    requires s != "" && s[0] !in {'/', '>'}
    ensures r.AttrStep? ==> |r.rest| < |s|
  {
    var n := CSpan(s, ATTR_END);
    var name, r1 := s[..n], s[n..];
    if r1 != "" && (r1[0] == '=' || IsSpace(r1[0])) then
      var r2 := SkipAny(r1[1..], XML_WS + {'='});
      if r2 != "" && r2[0] in {'"', '\''} then
        var v := r2[1..];
        var k := CSpan(v, {r2[0]});
        if k == |v| then NoQuote
        else
          AttrStep(Attr(name, DecodeText(Attribute, v[..k])), SkipSpace(v[k + 1..]))
      else AttrStep(Attr(name, ""), SkipSpace(r2))
    else AttrStep(Attr(name, ""), SkipSpace(r1))
  }

  datatype Attrs = Attrs(attrs: seq<Attr>, rest: string) | Unquoted

  /** Attributes up to a '/', a '>' or the end. */
  function ParseAttrs(s: string): (r: Attrs)
    ensures r.Attrs? ==> |r.rest| <= |s| && (r.rest == "" || r.rest[0] in {'/', '>'})
    decreases |s|
  {
    if s == "" || s[0] in {'/', '>'} then Attrs([], s)
    else
      match OneAttr(s)
      case NoQuote => Unquoted
      case AttrStep(a, rest) =>
        match ParseAttrs(rest)
        case Unquoted => Unquoted
        case Attrs(more, end) => Attrs([a] + more, end)
  }

  /** behind the first '?' that ends the text or is followed by a '>' */
  function PiEnd(s: string): (r: Option<string>)
    ensures r.Some? ==> |r.value| <= |s|
  {
    var n := CSpan(s, {'?'});
    if n == |s| then None
    else if n + 1 == |s| || s[n + 1] == '>' then Some(s[n + 1..])
    else PiEnd(s[n + 1..])
  }

  /** One markup: where it leaves the cursor (on its closing '>') and the tag stack. */
  datatype Markup = Next(rest: string, ctx: Ctx) | Stop(error: Error)

  /** The branches of the parser after a '<'. e is the last character of the document, which
      the parser replaces by the terminator of the text. */
  function OneMarkup(s: string, e: char, ctx: Ctx): (r: Markup)
    requires ctx.Valid()
    ensures r.Next? ==> |r.rest| <= |s| && r.ctx.Valid()
  {
    if s != "" && IsNameStart(s[0]) then StartTag(s, e, ctx)
    else if s != "" && s[0] == '/' then EndTag(s[1..], e, ctx)
    else if "!--" <= s then
      match Find(s[3..], "--")
      case None => Stop(UnclosedComment)
      case Some(k) =>
        var r := s[k + 5..];
        if (r != "" && r[0] != '>') || (r == "" && e != '>') then Stop(UnclosedComment) else Next(r, ctx)
    else if "![CDATA[" <= s then
      match Find(s, "]]>")
      case None => Stop(UnclosedCData)
      case Some(k) => Next(s[k + 2..], CharContent(ctx, if k > 8 then s[8..k] else "", CData))
    else if "!DOCTYPE" <= s then Stop(DocTypeNotModelled)
    else if s != "" && s[0] == '?' then
      match PiEnd(s)
      case None => Stop(UnclosedPi)
      case Some(r) => if r == "" && e != '>' then Stop(UnclosedPi) else Next(r, ctx)
    else Stop(UnexpectedLt)
  }

  function StartTag(s: string, e: char, ctx: Ctx): (r: Markup)
    requires ctx.Valid()
    ensures r.Next? ==> |r.rest| <= |s| && r.ctx.Valid()
  {
    if ctx.Closed? then Stop(OutsideRoot)
    else
      var n := CSpan(s, NAME_END);
      match ParseAttrs(SkipSpace(s[n..]))
      case Unquoted => Stop(MissingQuote)
      case Attrs(attrs, r) =>
        var open := OpenTag(ctx, s[..n], attrs);
        if r != "" && r[0] == '/' then
          if (|r| > 1 && r[1] != '>') || (|r| == 1 && e != '>') then Stop(MissingGt)
          else Next(r[1..], CloseTag(open))
        else if r == "" && e != '>' then Stop(MissingGt)
        else Next(r, open)
  }

  function EndTag(s: string, e: char, ctx: Ctx): (r: Markup)
    requires ctx.Valid()
    ensures r.Next? ==> |r.rest| <= |s| && r.ctx.Valid()
  {
    var n := CSpan(s, XML_WS + {'>'});
    if n == |s| && e != '>' then Stop(MissingGt)
    else if !ctx.Within? || Last(ctx.path).name != s[..n] then Stop(UnexpectedClose)
    else Next(SkipAny(s[n..], XML_WS), CloseTag(ctx))
  }

  /** The parser's loop, from a '<' on. */
  function Parse(s: string, e: char, ctx: Ctx): Result
    requires ctx.Valid()
    decreases |s|, 1
  {
    match OneMarkup(s, e, ctx)
    case Stop(error) => Failed(error)
    case Next(rest, c) => After(rest, e, c)
  }

  /** From the end of a markup to the next '<'. */
  function After(s: string, e: char, ctx: Ctx): Result
    requires ctx.Valid()
    decreases |s|, 0
  {
    var n := if |s| < 2 then 0 else CSpan(s[1..], {'<'});
    if |s| < 2 || n == |s| - 1 then Final(ctx)
    else Parse(s[n + 2..], e, CharContent(ctx, s[1..n + 1], Content))
  }

  function Final(ctx: Ctx): Result {
    match ctx
    case Closed(root) => Parsed(root)
    case Fresh => Failed(RootMissing)
    case Within(_) => Failed(UnclosedTag)
  }

  /** The bytes after a conversion from UTF-16, if one is needed. */
  function Bytes(input: string): string {
    if input == "" then "" else match Utf8.Utf8Of(input) case Some(u) => u case None => input
  }

  function ParseDocument(input: string): Result {
    var doc := Bytes(input);
    if doc == "" then Failed(RootMissing)
    else
      var text := doc[..CSpan(doc[..|doc| - 1], {NUL})];
      var n := CSpan(text, {'<'});
      if n == |text| then Failed(RootMissing) else Parse(text[n + 1..], doc[|doc| - 1], Fresh)
  }
}
