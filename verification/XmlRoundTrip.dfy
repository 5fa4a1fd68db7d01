/** Parsing what the printer wrote gives the printed tree back. */
module XmlRoundTrip {
  import opened CStrings
  import opened Entities
  import opened AmpCodec
  import opened XmlDocument
  import opened XmlForms
  import Utf8

  // ---- the trees that can be printed and read back ----

  predicate NamesOk(attrs: seq<Attr>, seen: set<string>) {
    attrs == [] ||
    (AttrName(attrs[0].name) && attrs[0].name !in seen && NoneOf(attrs[0].value, {NUL, VT, FF})
     && NamesOk(attrs[1..], seen + {attrs[0].name}))
  }

  predicate TagOk(t: Tag)
    decreases t, 1
  {
    TagName(t.name) && NamesOk(t.attrs, {}) && NoneOf(t.txt, {NUL}) && KidsOk(t.txt, 0, t.kids)
  }

  /** Offsets do not decrease and stay within the parent's text. */
  predicate KidsOk(txt: string, start: nat, kids: seq<Tag>)
    decreases kids, 0
  {
    start <= |txt| &&
    (kids == [] || (start <= kids[0].off <= |txt| && TagOk(kids[0]) && KidsOk(txt, kids[0].off, kids[1..])))
  }

  // ---- the form that is printed ----

  /** One blank, '=' and double quotes. */
  function AttrForms(attrs: seq<Attr>): seq<AttrForm> {
    if attrs == [] then []
    else [Quoted(" ", attrs[0].name, "=", '"', AmpEncode(attrs[0].value, true))] + AttrForms(attrs[1..])
  }

  /** The text from start on, up to the first of these children. */
  function LeadOf(txt: string, start: nat, kids: seq<Tag>): string
    requires KidsOk(txt, start, kids)
  {
    AmpEncode(if kids == [] then txt[start..] else txt[start..kids[0].off], false)
  }

  /** A tag is never written as one that closes itself. */
  function FormOf(t: Tag, after: string): Node
    requires TagOk(t)
    decreases t, 1
  {
    Element(t.name, AttrForms(t.attrs), "", false, LeadOf(t.txt, 0, t.kids), FormsOf(t.txt, 0, t.kids), "", after)
  }

  function FormsOf(txt: string, start: nat, kids: seq<Tag>): seq<Node>
    requires KidsOk(txt, start, kids)
    decreases kids, 0
  {
    if kids == [] then []
    else [FormOf(kids[0], LeadOf(txt, kids[0].off, kids[1..]))] + FormsOf(txt, kids[0].off, kids[1..])
  }

  lemma {:induction false} AttrsPrinted(attrs: seq<Attr>, seen: set<string>)
    requires NamesOk(attrs, seen)
    ensures PrintAttrs(attrs, seen) == WriteAttrs(AttrForms(attrs))
    decreases |attrs|
  {
    hide AmpEncode;
    if attrs != [] {
      var a := attrs[0];
      AttrsPrinted(attrs[1..], seen + {a.name});
      var f := Quoted(" ", a.name, "=", '"', AmpEncode(a.value, true));
      assert AttrForms(attrs) == [f] + AttrForms(attrs[1..]);
      assert WriteAttr(f) == " " + a.name + "=\"" + AmpEncode(a.value, true) + "\"";
    }
  }

  function Written(a: Attr): string {
    " " + a.name + "=\"" + AmpEncode(a.value, true) + "\""
  }

  predicate Named(attrs: seq<Attr>, name: string) {
    exists i :: 0 <= i < |attrs| && attrs[i].name == name
  }

  /** Of attributes with the same name, the first one is written. */
  lemma {:induction false} AttrBehind(attrs: seq<Attr>, b: Attr, seen: set<string>)
    ensures PrintAttrs(attrs + [b], seen)
         == PrintAttrs(attrs, seen) + if b.name in seen || Named(attrs, b.name) then "" else Written(b)
    decreases |attrs|
  {
    hide *;
    AttrsNext(attrs + [b], seen);
    AttrsNext(attrs, seen);
    if attrs == [] {
      AttrsNext([], seen + {b.name});
      assert attrs + [b] == [b] && [b][1..] == [];
      NoneNamed(b.name);
    } else {
      var a := attrs[0];
      assert (attrs + [b])[0] == a && (attrs + [b])[1..] == attrs[1..] + [b];
      AttrBehind(attrs[1..], b, seen + {a.name});
      NamedNext(attrs, b.name);
    }
  }

  lemma AttrsNext(attrs: seq<Attr>, seen: set<string>)
    ensures PrintAttrs(attrs, seen)
         == if attrs == [] then ""
            else (if attrs[0].name in seen then "" else Written(attrs[0]))
                 + PrintAttrs(attrs[1..], seen + {attrs[0].name})
  {
    hide AmpEncode;
  }

  lemma NoneNamed(name: string)
    ensures !Named([], name)
  {}

  lemma NamedNext(attrs: seq<Attr>, name: string)
    requires attrs != []
    ensures Named(attrs, name) <==> attrs[0].name == name || Named(attrs[1..], name)
  {
    if i :| 0 < i < |attrs| && attrs[i].name == name { assert attrs[1..][i - 1].name == name; }
  }

  /** A child whose offset is behind the text is written at its end. One whose offset is in front of the child before
      it comes behind the rest of the text, which then goes on from the smaller offset. */
  lemma KidsPrinted(txt: string, a: Tag, b: Tag)
    ensures var p, q := if a.off < |txt| then a.off else |txt|, if b.off < |txt| then b.off else |txt|;
            PrintKids(txt, 0, [a, b])
            == AmpEncode(txt[..p], false) + Print(a)
            + (AmpEncode(if b.off < p then txt[p..] else txt[p..q], false) + Print(b) + AmpEncode(txt[q..], false))
  {
    hide *;
    Clips(a.off, txt);
    Clips(b.off, txt);
    KidsNext(txt, 0, [a, b]);
    KidsNext(txt, Clip(a.off, txt), [b]);
    KidsNext(txt, Clip(b.off, txt), []);
    assert [a, b][1..] == [b] && [b][1..] == [];
    assert txt[0..Clip(a.off, txt)] == txt[..Clip(a.off, txt)];
  }

  lemma Clips(off: nat, txt: string)
    ensures Clip(off, txt) == if off < |txt| then off else |txt|
  {}

  lemma KidsNext(txt: string, start: nat, kids: seq<Tag>)
    requires start <= |txt|
    ensures PrintKids(txt, start, kids)
         == if kids == [] then AmpEncode(txt[start..], false)
            else AmpEncode(if kids[0].off < start then txt[start..] else txt[start..Clip(kids[0].off, txt)], false)
                 + Print(kids[0]) + PrintKids(txt, Clip(kids[0].off, txt), kids[1..])
  {
    hide AmpEncode, Print;
  }

  /** The printer writes this form: each tag with a start and an end tag, with attributes in double quotes, and the text
      in between with its special characters as references. */
  lemma {:induction false} PrintIsForm(t: Tag, after: string)
    requires TagOk(t)
    ensures Print(t) == "<" + Core(FormOf(t, after)) + ">"
    decreases t, 1
  {
    hide AmpEncode, PrintKids, WriteNodes, PrintAttrs, WriteAttrs, FormsOf, LeadOf;
    AttrsPrinted(t.attrs, {});
    KidsAreForms(t.txt, 0, t.kids);
    var a, k, w := WriteAttrs(AttrForms(t.attrs)), LeadOf(t.txt, 0, t.kids), WriteNodes(FormsOf(t.txt, 0, t.kids));
    assert Core(FormOf(t, after)) == t.name + a + "" + (">" + k + w + "</" + t.name + "");
    PrintPieces(t.name, a, k, w);
  }

  lemma PrintPieces(name: string, a: string, k: string, w: string)
    ensures "<" + name + a + ">" + (k + w) + "</" + name + ">"
         == "<" + (name + a + "" + (">" + k + w + "</" + name + "")) + ">"
  {
    assert name + a + "" == name + a && ">" + k + w + "</" + name + "" == ">" + k + w + "</" + name;
  }

  lemma {:induction false} KidsAreForms(txt: string, start: nat, kids: seq<Tag>)
    requires KidsOk(txt, start, kids)
    ensures PrintKids(txt, start, kids) == LeadOf(txt, start, kids) + WriteNodes(FormsOf(txt, start, kids))
    decreases kids, 0
  {
    hide AmpEncode, Print, Core, FormOf, TagOk;
    if kids == [] {
      NoNodes();
      assert LeadOf(txt, start, kids) + "" == AmpEncode(txt[start..], false);
    } else {
      var k, after := kids[0], LeadOf(txt, kids[0].off, kids[1..]);
      PrintIsForm(k, after);
      KidsAreForms(txt, k.off, kids[1..]);
      var more := FormsOf(txt, k.off, kids[1..]);
      assert FormsOf(txt, start, kids) == [FormOf(k, after)] + more;
      FormAfter(k, after);
      assert WriteNodes([FormOf(k, after)] + more) == "<" + Core(FormOf(k, after)) + ">" + after + WriteNodes(more) by {
        assert ([FormOf(k, after)] + more)[1..] == more;
      }
      Assoc(LeadOf(txt, start, kids), Print(k), after + WriteNodes(more));
      Assoc(LeadOf(txt, start, kids), "<" + Core(FormOf(k, after)) + ">" + after, WriteNodes(more));
      assert Print(k) + (after + WriteNodes(more)) == "<" + Core(FormOf(k, after)) + ">" + after + WriteNodes(more);
    }
  }

  lemma FormAfter(t: Tag, after: string)
    requires TagOk(t)
    ensures FormOf(t, after).after == after && FormOf(t, after).Element?
  {}

  // ---- the form is one that can be read ----

  lemma {:induction false} EncodingNoNul(s: string, attr: bool)
    requires NoneOf(s, {NUL})
    ensures NoneOf(AmpEncode(s, attr), {NUL})
  {
    if s != "" {
      assert s[0] != NUL && NoneOf(s[1..], {NUL});
      EncodingNoNul(s[1..], attr);
    }
  }

  lemma EncodingIsRaw(s: string, attr: bool)
    requires NoneOf(s, {NUL})
    ensures NoneOf(AmpEncode(s, attr), if attr then {'"', NUL} else {'<', NUL})
  {
    hide AmpEncode;
    EncodingNoNul(s, attr);
    AmpEncodeChars(s, attr);
    var v := AmpEncode(s, attr);
    assert forall i :: 0 <= i < |v| ==> v[i] in v;
  }

  lemma {:induction false} AttrFormsOk(attrs: seq<Attr>, seen: set<string>)
    requires NamesOk(attrs, seen)
    ensures AttrsOk(AttrForms(attrs)) && AttrsMean(AttrForms(attrs)) == attrs
    decreases |attrs|
  {
    hide AmpEncode, DecodeText, AttrName;
    if attrs != [] {
      var a := attrs[0];
      AttrFormsOk(attrs[1..], seen + {a.name});
      EncodingIsRaw(a.value, true);
      AttributeRoundTrip(a.value);
      assert VT !in a.value && FF !in a.value;
      var f := Quoted(" ", a.name, "=", '"', AmpEncode(a.value, true));
      assert AttrForms(attrs) == [f] + AttrForms(attrs[1..]) && AttrForms(attrs)[1..] == AttrForms(attrs[1..]);
      assert AttrMeans(f) == a && attrs == [a] + attrs[1..];
    }
  }

  lemma LeadIsRaw(txt: string, start: nat, kids: seq<Tag>)
    requires KidsOk(txt, start, kids) && NoneOf(txt, {NUL})
    ensures Raw(LeadOf(txt, start, kids))
    ensures DecodeText(Content, LeadOf(txt, start, kids))
         == if kids == [] then txt[start..] else txt[start..kids[0].off]
  {
    hide AmpEncode, DecodeText;
    var seg := if kids == [] then txt[start..] else txt[start..kids[0].off];
    EncodingIsRaw(seg, false);
    ContentRoundTrip(seg);
  }

  lemma {:induction false} FormIsOk(t: Tag, after: string)
    requires TagOk(t) && Raw(after)
    ensures NodeOk(FormOf(t, after)) && Meaning(FormOf(t, after), t.off) == t
    decreases t, 1
  {
    hide DecodeText, AmpEncode, LeadOf, FormsOf, NodesOk, TagName, NamesOk, AttrsOk, AttrForms, AttrsMean, Filled;
    AttrFormsOk(t.attrs, {});
    LeadIsRaw(t.txt, 0, t.kids);
    var lead := DecodeText(Content, LeadOf(t.txt, 0, t.kids));
    var open := Tag(t.name, t.attrs, t.off, lead, []);
    FormsAreOk(t.txt, 0, t.kids, open);
    assert [] + t.kids == t.kids;
    assert open.(txt := t.txt, kids := t.kids) == t;
  }

  /** The children and the text between them, from the point where the text up to the first child is there. */
  lemma {:induction false} FormsAreOk(txt: string, start: nat, kids: seq<Tag>, t: Tag)
    requires KidsOk(txt, start, kids) && NoneOf(txt, {NUL})
    requires t.txt == if kids == [] then txt else txt[..kids[0].off]
    ensures NodesOk(FormsOf(txt, start, kids))
    ensures Filled(t, FormsOf(txt, start, kids)) == t.(txt := txt, kids := t.kids + kids)
    decreases kids, 0
  {
    hide DecodeText, LeadOf, FormOf, NodeOk, Meaning, TagOk;
    if kids == [] {
      assert t.kids + kids == t.kids;
    } else {
      var k, after := kids[0], LeadOf(txt, kids[0].off, kids[1..]);
      LeadIsRaw(txt, k.off, kids[1..]);
      FormIsOk(k, after);
      FormAfter(k, after);
      var n, more := FormOf(k, after), FormsOf(txt, k.off, kids[1..]);
      assert FormsOf(txt, start, kids) == [n] + more && ([n] + more)[1..] == more;
      var u := t.(kids := t.kids + [k]);
      assert Added(t, n) == u;
      var v := u.(txt := u.txt + DecodeText(Content, after));
      assert v.txt == if kids[1..] == [] then txt else txt[..kids[1..][0].off];
      FormsAreOk(txt, k.off, kids[1..], v);
      assert (t.kids + [k]) + kids[1..] == t.kids + kids;
    }
  }

  // ---- whole documents ----

  /** The printed form of any tree, parsed, is the tree. */
  lemma ParsePrint(t: Tag)
    requires TagOk(t) && t.off == 0
    ensures ParseDocument(Print(t)) == Parsed(t)
  {
    hide *;
    PrintedDoc(t);
    DocumentIsRead(Doc("", [], FormOf(t, ""), []));
  }

  lemma PrintedDoc(t: Tag)
    requires TagOk(t) && t.off == 0
    ensures var d := Doc("", [], FormOf(t, ""), []);
            DocOk(d) && WriteDoc(d) == Print(t) && Meaning(d.root, 0) == t
  {
    hide NodeOk, Meaning, FormOf, Core, Print, TagOk;
    FormIsOk(t, "");
    FormAfter(t, "");
    PrintIsForm(t, "");
    var n := FormOf(t, "");
    assert [n] + [] == [n] && [n][1..] == [];
    assert WriteNodes([n]) == "<" + Core(n) + ">" + "" + WriteNodes([]);
  }

  /** So does a UTF-16 form of the document, in either byte order. */
  lemma ParseUtf16(t: Tag, cs: seq<Utf8.Scalar>, be: bool)
    requires TagOk(t) && t.off == 0 && Utf8.Utf8Bytes(cs) == Print(t)
    ensures ParseDocument(Utf8.ByteOrderMark(be) + Utf8.Utf16(cs, be)) == Parsed(t)
  {
    hide *;
    PrintedDoc(t);
    Utf16IsRead(Doc("", [], FormOf(t, ""), []), cs, be);
  }
}
