/** The parser and the printer as they run: root->cur moves while the text is consumed, and
    the printer appends to one growing string. */
module XmlParser {
  import opened CStrings
  import opened Entities
  import opened AmpCodec
  import opened XmlDocument
  import Utf8

  /** The document so far: the open tags of a path, each inside the one before it. */
  function Tree(path: seq<Tag>): Tag
    requires path != []
    decreases |path|
  {
    var n := |path|;
    if n == 1 then path[0] else Tree(path[..n - 2] + [Attach(path[n - 2], path[n - 1])])
  }

  /** An open tag is already a child of the tag around it. */
  lemma OpenedTree(path: seq<Tag>, t: Tag)
    requires path != []
    ensures Tree(path + [t]) == Tree(SetLast(path, Attach(Last(path), t)))
  {
    assert (path + [t])[..|path| - 1] == path[..|path| - 1];
    hide Attach;
  }

  function Document(ctx: Ctx): Option<Tag>
    requires ctx.Valid()
  {
    match ctx
    case Fresh => None
    case Within(path) => Some(Tree(path))
    case Closed(root) => Some(root)
  }

  class Parser {
    /** root->cur with the tags above it */
    var cur: Ctx

    constructor ()
      ensures cur == Fresh
    {
      cur := Fresh;
    }

    /** ezxml_open_tag: the new tag is the current one, behind the text so far, and at once in the document
        as a child of the tag that was current; the tags above are as they were */
    method Open(name: string, attrs: seq<Attr>)
      requires cur.Valid() && !cur.Closed?
      modifies this
      ensures cur == OpenTag(old(cur), name, attrs)
      ensures old(cur).Within? ==>
                var path, t := old(cur).path, Tag(name, attrs, |Last(old(cur).path).txt|, "", []);
                && cur.path[..|path|] == path && |cur.path| == |path| + 1 && Last(cur.path) == t
                && Document(cur) == Some(Tree(SetLast(path, Attach(Last(path), t))))
      ensures old(cur).Fresh? ==> Document(cur) == Some(Tag(name, attrs, 0, "", []))
    {
      hide Attach;
      if cur.Within? { OpenedTree(cur.path, Tag(name, attrs, |Last(cur.path).txt|, "", [])); }
      match cur
      case Fresh => cur := Within([Tag(name, attrs, 0, "", [])]);
      case Within(path) => cur := Within(path + [Tag(name, attrs, |Last(path).txt|, "", [])]);
    }

    /** ezxml_char_content */
    method AddContent(s: string, t: Mode)
      requires cur.Valid()
      modifies this
      ensures cur == CharContent(old(cur), s, t)
    {
      if cur.Within? && s != "" {
        var text := DecodeTextInPlace(t, s);
        cur := Within(SetLast(cur.path, AddText(Last(cur.path), text)));
      }
    }

    /** ezxml_close_tag: refused when the name is not that of the current tag. Closing changes nothing in the
        document; the parent is the current tag, and the tags above it are as they were. */
    method Close(name: string) returns (ok: bool)
      requires cur.Valid()
      modifies this
      ensures ok <==> old(cur).Within? && Last(old(cur).path).name == name
      ensures cur == if ok then CloseTag(old(cur)) else old(cur)
      ensures Document(cur) == Document(old(cur))
      ensures ok ==> var n := |old(cur).path|;
                     if n == 1 then cur.Closed? else cur.path[..n - 2] == old(cur).path[..n - 2] && |cur.path| == n - 1
    {
      hide Attach;
      ok := cur.Within? && Last(cur.path).name == name;
      if ok {
        var n := |cur.path|;
        if n == 1 {
          cur := Closed(cur.path[0]);
        } else {
          cur := Within(cur.path[..n - 2] + [Attach(cur.path[n - 2], cur.path[n - 1])]);
        }
      }
    }

    /** the attribute loop of a start tag */
    method ReadAttributes(text: string) returns (r: Attrs)
      ensures r == ParseAttrs(text)
    {
      var s, attrs := text, [];
      while s != "" && s[0] !in {'/', '>'}
        invariant ParseAttrs(text) == match ParseAttrs(s)
                                      case Unquoted => Unquoted
                                      case Attrs(more, end) => Attrs(attrs + more, end)
        decreases |s|
      {
        var a := OneAttr(s);
        if a.NoQuote? {
          return Unquoted;
        }
        ghost var tail := ParseAttrs(a.rest);
        assert tail.Attrs? ==> attrs + ([a.attr] + tail.attrs) == attrs + [a.attr] + tail.attrs;
        attrs := attrs + [a.attr];
        s := a.rest;
      }
      assert attrs + [] == attrs;
      r := Attrs(attrs, s);
    }

    /** The branches after a '<'; rest is where the cursor stands after them. */
    method ReadMarkup(s: string, e: char) returns (rest: string, error: Option<Error>)
      requires cur.Valid()
      modifies this
      ensures match OneMarkup(s, e, old(cur))
              case Stop(err) => error == Some(err)
              case Next(r, c) => error == None && rest == r && cur == c
    {
      hide ParseAttrs, DecodeText, Attach;
      rest, error := "", None;
      if s != "" && IsNameStart(s[0]) {
        if cur.Closed? { return "", Some(OutsideRoot); }
        var n := CSpan(s, NAME_END);
        var a := ReadAttributes(SkipSpace(s[n..]));
        if a.Unquoted? { return "", Some(MissingQuote); }
        var r := a.rest;
        if r != "" && r[0] == '/' {
          if (|r| > 1 && r[1] != '>') || (|r| == 1 && e != '>') { return "", Some(MissingGt); }
          Open(s[..n], a.attrs);
          var closed := Close(s[..n]);
          rest := r[1..];
        } else if r == "" && e != '>' {
          error := Some(MissingGt);
        } else {
          Open(s[..n], a.attrs);
          rest := r;
        }
      } else if s != "" && s[0] == '/' {
        var t := s[1..];
        var n := CSpan(t, XML_WS + {'>'});
        if n == |t| && e != '>' { return "", Some(MissingGt); }
        var ok := Close(t[..n]);
        if !ok { return "", Some(UnexpectedClose); }
        rest := SkipAny(t[n..], XML_WS);
      } else if "![CDATA[" <= s {
        assert s[1] == '[';
        var k := Find(s, "]]>");
        if k.None? { return "", Some(UnclosedCData); }
        AddContent(if k.value > 8 then s[8..k.value] else "", CData);
        rest := s[k.value + 2..];
      } else if "!--" <= s {
        var k := Find(s[3..], "--");
        if k.None? { return "", Some(UnclosedComment); }
        rest := s[k.value + 5..];
        if (rest != "" && rest[0] != '>') || (rest == "" && e != '>') { return "", Some(UnclosedComment); }
      } else if "!DOCTYPE" <= s {
        error := Some(DocTypeNotModelled);
      } else if s != "" && s[0] == '?' {
        var r := SkipPi(s);
        if r.None? || (r.value == "" && e != '>') { return "", Some(UnclosedPi); }
        rest := r.value;
      } else {
        error := Some(UnexpectedLt);
      }
    }
  }

  /** the loop over the question marks of a processing instruction */
  method SkipPi(text: string) returns (r: Option<string>)
    ensures r == PiEnd(text)
  {
    var s := text;
    while true
      invariant PiEnd(s) == PiEnd(text)
      decreases |s|
    {
      var n := CSpan(s, {'?'});
      if n == |s| { return None; }
      s := s[n + 1..];
      if s == "" || s[0] == '>' { return Some(s); }
    }
  }

  /** ezxml_parse_str */
  method ParseStr(input: string) returns (result: Result)
    ensures result == ParseDocument(input)
  {
    hide OneMarkup, CharContent, CSpan, DecodeText;
    var doc := input;
    if input != "" {
      var u := Utf8.Str2Utf8(input);
      if u.Some? { doc := u.value; }
    }
    if doc == "" { return Failed(RootMissing); }
    var e := doc[|doc| - 1];
    var text := doc[..CSpan(doc[..|doc| - 1], {NUL})];
    var start := CSpan(text, {'<'});
    if start == |text| { return Failed(RootMissing); }
    var s := text[start + 1..];
    var p := new Parser();
    while true
      invariant p.cur.Valid()
      invariant Parse(s, e, p.cur) == ParseDocument(input)
      decreases |s|
    {
      ghost var before := OneMarkup(s, e, p.cur);
      var rest, error := p.ReadMarkup(s, e);
      if error.Some? { return Failed(error.value); }
      var n := if |rest| < 2 then 0 else CSpan(rest[1..], {'<'});
      if |rest| < 2 || n == |rest| - 1 { return Final(p.cur); }
      p.AddContent(rest[1..n + 1], Content);
      s := rest[n + 2..];
    }
  }

  /** ezxml_toxml_r on the children of a tag, first to last */
  method WriteKids(txt: string, start: nat, kids: seq<Tag>, dst: string) returns (out: string)
    requires start <= |txt|
    ensures out == dst + PrintKids(txt, start, kids)
    decreases kids, 0
  {
    hide AmpEncode, Print;
    if kids == [] {
      out := AmpEncodeTo(txt[start..], dst, false);
    } else {
      out := AmpEncodeTo(Segment(txt, start, kids[0].off), dst, false);
      out := WriteTag(kids[0], out);
      out := WriteKids(txt, Clip(kids[0].off, txt), kids[1..], out);
    }
  }

  method WriteTag(t: Tag, dst: string) returns (out: string)
    ensures out == dst + Print(t)
    decreases t, 1
  {
    hide AmpEncode, PrintKids, PrintAttrs;
    out := WriteAttrs(t.attrs, dst + "<" + t.name);
    out := out + ">";
    out := WriteKids(t.txt, 0, t.kids, out);
    out := out + "</" + t.name + ">";
    ghost var attrs, kids := PrintAttrs(t.attrs, {}), PrintKids(t.txt, 0, t.kids);
    assert out == dst + "<" + t.name + attrs + ">" + kids + "</" + t.name + ">";
    assert Print(t) == "<" + t.name + attrs + ">" + kids + "</" + t.name + ">";
    hide Print;
    assert out == dst + ("<" + t.name + attrs + ">" + kids + "</" + t.name + ">");
  }

  /** the attribute loop of ezxml_toxml_r */
  method WriteAttrs(attrs: seq<Attr>, dst: string) returns (out: string)
    ensures out == dst + PrintAttrs(attrs, {})
  {
    hide AmpEncode;
    out := dst;
    var i, seen := 0, {};
    while i < |attrs|
      invariant 0 <= i <= |attrs|
      invariant out + PrintAttrs(attrs[i..], seen) == dst + PrintAttrs(attrs, {})
    {
      var a := attrs[i];
      ghost var before, more := out, PrintAttrs(attrs[i + 1..], seen + {a.name});
      assert attrs[i..][1..] == attrs[i + 1..];
      var piece := "";
      if a.name !in seen {
        piece := AmpEncodeTo(a.value, " " + a.name + "=\"", true);
        piece := piece + "\"";
      }
      assert PrintAttrs(attrs[i..], seen) == piece + more;
      Assoc(out, piece, more);
      out := out + piece;
      seen := seen + {a.name};
      i := i + 1;
    }
    assert out + "" == out;
  }
}
