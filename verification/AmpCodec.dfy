/** The two writers of XML text, ezxml_ampencode and string_escape_xml, read back by
    ezxml_decode with the five default entities. */
module AmpCodec {
  import opened CStrings
  import opened CharRefs
  import opened Entities
  import EntityTable

  /** One character of ezxml_ampencode; attr: attribute encoding. */
  function Amp(c: char, attr: bool): string {
    if c == '&' then "&amp;"
    else if c == '<' then "&lt;"
    else if c == '>' then "&gt;"
    else if c == '"' && attr then "&quot;"
    else if c == '\n' && attr then "&#xA;"
    else if c == '\t' && attr then "&#x9;"
    else if c == '\r' then "&#xD;"
    else [c]
  }

  function AmpEncode(s: string, attr: bool): string {
    if s == "" then "" else Amp(s[0], attr) + AmpEncode(s[1..], attr)
  }

  /** ezxml_ampencode: appends the encoding of s to dst. */
  method AmpEncodeTo(s: string, dst: string, attr: bool) returns (out: string)
    ensures out == dst + AmpEncode(s, attr)
  {
    hide Amp;
    out := dst;
    var i := 0;
    while i < |s|
      invariant 0 <= i <= |s|
      invariant out + AmpEncode(s[i..], attr) == dst + AmpEncode(s, attr)
    {
      ghost var more := AmpEncode(s[i + 1..], attr);
      assert s[i..][1..] == s[i + 1..];
      assert out + (Amp(s[i], attr) + more) == out + Amp(s[i], attr) + more;
      out := out + Amp(s[i], attr);
      i := i + 1;
    }
  }

  /** Each character is encoded on its own. */
  lemma {:induction false} AmpConcat(a: string, b: string, attr: bool)
    ensures AmpEncode(a + b, attr) == AmpEncode(a, attr) + AmpEncode(b, attr)
  {
    hide Amp;
    if a == "" {
      assert a + b == b;
    } else {
      assert (a + b)[1..] == a[1..] + b;
      AmpConcat(a[1..], b, attr);
    }
  }

  /** What is written for one character, in text and in attribute values. */
  lemma AmpWritten(c: char)
    ensures AmpEncode("&", false) == AmpEncode("&", true) == "&amp;"
    ensures AmpEncode("<", false) == AmpEncode("<", true) == "&lt;"
    ensures AmpEncode(">", false) == AmpEncode(">", true) == "&gt;"
    ensures AmpEncode("\r", false) == AmpEncode("\r", true) == "&#xD;"
    ensures AmpEncode("\"", true) == "&quot;" && AmpEncode("\n", true) == "&#xA;" && AmpEncode("\t", true) == "&#x9;"
    ensures c !in {'&', '<', '>', '\r'} ==> AmpEncode([c], false) == [c]
    ensures c !in {'&', '<', '>', '\r', '"', '\n', '\t'} ==> AmpEncode([c], true) == [c]
  {
    assert forall d: char, attr :: AmpEncode([d], attr) == Amp(d, attr) by {
      forall d: char, attr ensures AmpEncode([d], attr) == Amp(d, attr) { OneAmp(d, attr); }
    }
    hide AmpEncode;
    assert "&" == ['&'] && "<" == ['<'] && ">" == ['>'] && "\r" == ['\r'];
    assert "\"" == ['"'] && "\n" == ['\n'] && "\t" == ['\t'];
  }

  lemma OneAmp(c: char, attr: bool)
    ensures AmpEncode([c], attr) == Amp(c, attr)
  {
    assert [c][1..] == "" && Amp(c, attr) + "" == Amp(c, attr);
  }

  lemma DefaultsSafe()
    ensures Safe(DEFAULTS)
  {
    EntityTable.DefaultsRanked();
    assert Sound(DEFAULTS, [0, 0, 0, 0, 0]);
  }

  /** The decoder with the default entities, after line endings are normalised. */
  function Dec(t: Mode, s: string): string {
    DefaultsSafe();
    Decode(DEFAULTS, t, s)
  }

  /** ezxml_decode with the default entities */
  function DecodeText(t: Mode, s: string): string {
    Dec(t, Newlines(s))
  }

  /** The in-place decoder computes it. */
  method DecodeTextInPlace(t: Mode, s: string) returns (r: string)
    ensures r == DecodeText(t, s)
  {
    DefaultsSafe();
    r := DecodeInPlace(s, DEFAULTS, t);
  }

  // ---- single references ----

  lemma HexRef(a: char, rest: string)
    requires 0 < DigitValue(a) < 16
    ensures CharRef(['&', '#', 'x', a, ';'] + rest) == Some((DigitValue(a), 4))
  {
    hide Strtol;
    var s := ['&', '#', 'x', a, ';'] + rest;
    var u := s[3..];
    assert u[0] == a && u[1] == ';';
    assert Digits(u[1..], 16, DigitValue(a)).1 == 0;
    assert Digits(u, 16, 0) == (DigitValue(a), 1);
    StrtolDigits(u, 16);
  }

  lemma DecRef(t: Mode, s: string, c: int, e: nat)
    requires t != CData && "&#" <= s && CharRef(s) == Some((c, e)) && 0 < c < 0x80
    ensures Dec(t, s) == [c as char] + Dec(t, s[e + 1..])
  {
    hide Step;
    DefaultsSafe();
    StepRef(t, s, c, e);
  }

  lemma StepRef(t: Mode, s: string, c: int, e: nat)
    requires t != CData && "&#" <= s && CharRef(s) == Some((c, e)) && 0 < c < 0x80
    ensures Step(DEFAULTS, t, s) == Move([c as char], s[e + 1..])
  {
    hide CharRef, Lookup;
  }

  lemma DecEntity(t: Mode, name: string, b: nat, rest: string)
    requires t in {Content, Attribute} && b < 5 && name == DEFAULTS[b].name
    ensures Dec(t, "&" + name + rest) == Dec(t, DEFAULTS[b].value + rest)
  {
    hide Step;
    DefaultsSafe();
    StepEntity(t, name, b, rest);
  }

  lemma StepEntity(t: Mode, name: string, b: nat, rest: string)
    requires t in {Content, Attribute} && b < 5 && name == DEFAULTS[b].name
    ensures Step(DEFAULTS, t, "&" + name + rest) == Move("", DEFAULTS[b].value + rest)
  {
    hide CharRef, EmitRef, Lookup;
    var s := "&" + name + rest;
    assert s[1..] == name + rest;
    LookupName(name, rest, b);
    assert s == ("&" + name[..|name| - 1]) + (";" + rest);
    CSpanStops("&" + name[..|name| - 1], ";" + rest, {';'});
    assert s[|name| + 1..] == rest;
    assert s[1] == name[0] != '#';
  }

  lemma LookupName(name: string, rest: string, b: nat)
    requires b < 5 && name == DEFAULTS[b].name
    ensures Lookup(DEFAULTS, name + rest) == b
  {
    var s := name + rest;
    assert s[..|name|] == name;
    assert s[0] == name[0] && s[1] == name[1];
    assert forall i :: 0 <= i < b ==> DEFAULTS[i].name[0] != s[0] || DEFAULTS[i].name[1] != s[1];
  }

  lemma DecPlain(t: Mode, c: char, rest: string)
    requires c != '&'
    ensures Dec(t, [c] + rest) == (if t == Attribute && IsSpace(c) then " " else [c]) + Dec(t, rest)
  {
    hide CharRef, EmitRef, Lookup;
    DefaultsSafe();
    var s := [c] + rest;
    assert s[1..] == rest && s[..1] == [c] && s[0] == c;
    assert Step(DEFAULTS, t, s) == Move(if t == Attribute && IsSpace(c) then " " else [c], rest);
  }

  /** "&name;" of a default entity, or "&#nn;" itself: one character, and no further decoding of it. */
  lemma DecNamed(t: Mode, name: string, b: nat, rest: string)
    requires t in {Content, Attribute} && b < 5 && name == DEFAULTS[b].name
    ensures Dec(t, "&" + name + rest) == ['<', '>', '"', '\'', '&'][b..b + 1] + Dec(t, rest)
  {
    hide CharRef, Dec;
    DecEntity(t, name, b, rest);
    var v := DEFAULTS[b].value;
    assert v == ['&', '#', v[2], v[3], ';'];
    DecimalRef(v[2], v[3], rest);
    assert (v + rest)[5..] == rest;
    DecRef(t, v + rest, DigitValue(v[2]) * 10 + DigitValue(v[3]), 4);
    assert DigitValue(v[2]) * 10 + DigitValue(v[3]) == ['<', '>', '"', '\'', '&'][b] as int;
  }

  lemma DecHex(t: Mode, a: char, rest: string)
    requires t != CData && 0 < DigitValue(a) < 16
    ensures Dec(t, ['&', '#', 'x', a, ';'] + rest) == [DigitValue(a) as char] + Dec(t, rest)
  {
    hide CharRef, Dec;
    var s := ['&', '#', 'x', a, ';'] + rest;
    HexRef(a, rest);
    assert s[5..] == rest && "&#" <= s;
    DecRef(t, s, DigitValue(a), 4);
  }

  function ModeOf(attr: bool): Mode {
    if attr then Attribute else Content
  }

  /** What comes back: the attribute decoder turns a vertical tab or form feed into a blank. */
  function Kept(c: char, attr: bool): char {
    if attr && c in {VT, FF} then ' ' else c
  }

  lemma DecAmp(c: char, attr: bool, rest: string)
    ensures Dec(ModeOf(attr), Amp(c, attr) + rest) == [Kept(c, attr)] + Dec(ModeOf(attr), rest)
  {
    hide Dec;
    var t := ModeOf(attr);
    if c == '&' {
      DecNamed(t, "amp;", 4, rest);
      assert "&amp;" + rest == "&" + "amp;" + rest;
    } else if c == '<' {
      DecNamed(t, "lt;", 0, rest);
      assert "&lt;" + rest == "&" + "lt;" + rest;
    } else if c == '>' {
      DecNamed(t, "gt;", 1, rest);
      assert "&gt;" + rest == "&" + "gt;" + rest;
    } else if c == '"' && attr {
      DecNamed(t, "quot;", 2, rest);
      assert "&quot;" + rest == "&" + "quot;" + rest;
    } else if c == '\n' && attr {
      DecHex(t, 'A', rest);
    } else if c == '\t' && attr {
      DecHex(t, '9', rest);
    } else if c == '\r' {
      DecHex(t, 'D', rest);
    } else {
      DecPlain(t, c, rest);
    }
  }

  function KeptAll(s: string, attr: bool): string {
    seq(|s|, i requires 0 <= i < |s| => Kept(s[i], attr))
  }

  lemma {:induction false} DecAmpEncode(s: string, attr: bool)
    ensures Dec(ModeOf(attr), AmpEncode(s, attr)) == KeptAll(s, attr)
  {
    hide Dec;
    if s == "" {
      assert Dec(ModeOf(attr), "") == "" by { DecEmpty(ModeOf(attr)); }
    } else {
      DecAmp(s[0], attr, AmpEncode(s[1..], attr));
      DecAmpEncode(s[1..], attr);
      assert KeptAll(s, attr) == [Kept(s[0], attr)] + KeptAll(s[1..], attr);
    }
  }

  lemma DecEmpty(t: Mode)
    ensures Dec(t, "") == ""
  {
    DefaultsSafe();
  }

  lemma {:induction false} NewlinesKept(s: string)
    requires '\r' !in s
    ensures Newlines(s) == s
  {
    if s != "" {
      assert s[0] in s && forall c :: c in s[1..] ==> c in s;
      NewlinesKept(s[1..]);
      assert s == [s[0]] + s[1..];
    }
  }

  lemma AmpChars(c: char, attr: bool)
    ensures forall d :: d in Amp(c, attr) ==> d != '\r' && d != '<' && (attr ==> d != '"')
  {
    forall d | d in Amp(c, attr) ensures d != '\r' && d != '<' && (attr ==> d != '"') {
      var i :| 0 <= i < |Amp(c, attr)| && Amp(c, attr)[i] == d;
      if Amp(c, attr) == [c] { assert d == c; }
    }
  }

  lemma {:induction false} AmpEncodeChars(s: string, attr: bool)
    ensures '\r' !in AmpEncode(s, attr) && '<' !in AmpEncode(s, attr)
    ensures attr ==> '"' !in AmpEncode(s, attr)
  {
    hide Amp;
    if s != "" {
      AmpChars(s[0], attr);
      AmpEncodeChars(s[1..], attr);
    }
  }

  /** Encoded text decodes to itself, character by character, in content for every text. */
  lemma ContentRoundTrip(s: string)
    ensures DecodeText(Content, AmpEncode(s, false)) == s
  {
    hide Dec;
    AmpEncodeChars(s, false);
    NewlinesKept(AmpEncode(s, false));
    DecAmpEncode(s, false);
    assert KeptAll(s, false) == s;
  }

  /** As an attribute value exactly the texts without vertical tab and form feed survive. */
  lemma AttributeRoundTrip(s: string)
    ensures DecodeText(Attribute, AmpEncode(s, true)) == s <==> VT !in s && FF !in s
  {
    hide Dec;
    AmpEncodeChars(s, true);
    NewlinesKept(AmpEncode(s, true));
    DecAmpEncode(s, true);
    var k := KeptAll(s, true);
    if VT !in s && FF !in s {
      assert k == s;
    } else {
      var i :| 0 <= i < |s| && s[i] in {VT, FF};
      assert k[i] != s[i];
    }
  }

  // ---- string_escape_xml ----

  function HexDigit(d: nat): char
    requires d < 16
  {
    if d < 10 then ('0' as int + d) as char else ('a' as int + d - 10) as char
  }

  /** a character of a C string */
  predicate IsByte(c: char) {
    1 <= c as int <= 255
  }

  /** The characters written for one character: an entity, a number in hexadecimal, 127 or itself. A byte above
      127 is negative as a char: five characters of its number stay, the others are written over. */
  function Escape(c: char): string
    requires IsByte(c)
  {
    if c == '"' then "&quot;"
    else if c == '\'' then "&apos;"
    else if c == '<' then "&lt;"
    else if c == '>' then "&gt;"
    else if c == '&' then "&amp;"
    else if c as int < 32 then ['&', '#', HexDigit(c as int / 16), HexDigit(c as int % 16), ';']
    else if c as int == 127 then "&#127;"
    else if c as int > 127 then "&#fff"
    else [c]
  }

  function EscapeAll(s: string): string
    requires forall i :: 0 <= i < |s| ==> IsByte(s[i])
  {
    if s == "" then "" else Escape(s[0]) + EscapeAll(s[1..])
  }

  lemma EscapeNext(s: string)
    requires forall i :: 0 <= i < |s| ==> IsByte(s[i])
    ensures s == "" ==> EscapeAll(s) == ""
    ensures s != "" ==> IsByte(s[0]) && EscapeAll(s) == Escape(s[0]) + EscapeAll(s[1..])
  {
    hide Escape;
  }

  lemma {:induction false} EscapeConcat(a: string, b: string)
    requires forall i :: 0 <= i < |a + b| ==> IsByte((a + b)[i])
    ensures (forall i :: 0 <= i < |a| ==> IsByte(a[i])) && forall i :: 0 <= i < |b| ==> IsByte(b[i])
    ensures EscapeAll(a + b) == EscapeAll(a) + EscapeAll(b)
  {
    hide *;
    assert forall i :: 0 <= i < |a| ==> a[i] == (a + b)[i];
    assert forall i :: 0 <= i < |b| ==> b[i] == (a + b)[|a| + i];
    EscapeNext(a + b);
    EscapeNext(a);
    if a == "" {
      assert a + b == b;
    } else {
      assert (a + b)[1..] == a[1..] + b;
      EscapeConcat(a[1..], b);
    }
  }

  /** What is written for one character: two hexadecimal digits for those below 32. */
  lemma EscapeWritten(c: char)
    requires IsByte(c)
    ensures var e := EscapeAll([c]);
            && (c == '"' ==> e == "&quot;") && (c == '\'' ==> e == "&apos;") && (c == '<' ==> e == "&lt;")
            && (c == '>' ==> e == "&gt;") && (c == '&' ==> e == "&amp;")
            && (c as int < 32 ==>
                  e == "&#" + ["0123456789abcdef"[c as int / 16], "0123456789abcdef"[c as int % 16]] + ";")
            && (c as int == 127 ==> e == "&#127;") && (c as int > 127 ==> e == "&#fff")
            && (32 <= c as int < 127 && c !in {'"', '\'', '<', '>', '&'} ==> e == [c])
  {
    assert [c][1..] == "" && Escape(c) + "" == Escape(c);
    if c as int < 32 {
      assert HexDigit(c as int / 16) == "0123456789abcdef"[c as int / 16];
      assert HexDigit(c as int % 16) == "0123456789abcdef"[c as int % 16];
    }
  }

  /** What fits into outLen characters when some are used already: an escape only with one character to spare, an
      ordinary character always; and all of them behind the end, where the unsigned difference wraps. */
  function EscapeInto(s: string, outLen: nat, used: nat): (out: string)
    requires forall i :: 0 <= i < |s| ==> IsByte(s[i])
    ensures |out| <= |EscapeAll(s)|
  {
    if s == "" then ""
    else
      var e := Escape(s[0]);
      if |e| == 1 || used > outLen || used + |e| < outLen then e + EscapeInto(s[1..], outLen, used + |e|)
      else EscapeInto(s[1..], outLen, used)
  }

  lemma {:induction false} AllFits(s: string, outLen: nat, used: nat)
    requires (forall i :: 0 <= i < |s| ==> IsByte(s[i])) && used + |EscapeAll(s)| < outLen
    ensures EscapeInto(s, outLen, used) == EscapeAll(s)
  {
    hide Escape;
    if s != "" { AllFits(s[1..], outLen, used + |Escape(s[0])|); }
  }

  /** The last character is written if it needs no escape; its escape only with one character to spare, or behind the
      end of the buffer. */
  lemma {:induction false} EscapeBehind(a: string, c: char, outLen: nat, used: nat)
    requires IsByte(c) && forall i :: 0 <= i < |a| ==> IsByte(a[i])
    ensures var o, e := EscapeInto(a, outLen, used), EscapeAll([c]);
            var at := used + |o|;
            EscapeInto(a + [c], outLen, used)
            == o + if (32 <= c as int < 127 && c !in {'"', '\'', '<', '>', '&'}) || at > outLen || at + |e| < outLen
                   then e else ""
    decreases |a|
  {
    hide *;
    assert forall i :: 0 <= i < |a| ==> a[i] == (a + [c])[i];
    if a == "" {
      assert a + [c] == [c];
      IntoOne(c, outLen, used);
      assert "" + EscapeInto([c], outLen, used) == EscapeInto([c], outLen, used);
    } else {
      assert (a + [c])[0] == a[0] && (a + [c])[1..] == a[1..] + [c];
      var e := IntoNext(a, outLen, used);
      var e' := IntoNext(a + [c], outLen, used);
      EscapeBehind(a[1..], c, outLen, used + |e|);
      Assoc(e, EscapeInto(a[1..], outLen, used + |e|), EscapeAll([c]));
    }
  }

  /** What is written for the first character. */
  lemma IntoNext(s: string, outLen: nat, used: nat) returns (e: string)
    requires s != "" && forall i :: 0 <= i < |s| ==> IsByte(s[i])
    ensures IsByte(s[0]) && e == Fitted(s[0], outLen, used)
    ensures forall i :: 0 <= i < |s| - 1 ==> IsByte(s[1..][i])
    ensures EscapeInto(s, outLen, used) == e + EscapeInto(s[1..], outLen, used + |e|)
  {
    hide Escape, IsByte;
    e := Fitted(s[0], outLen, used);
    assert "" + EscapeInto(s[1..], outLen, used) == EscapeInto(s[1..], outLen, used);
  }

  function Fitted(c: char, outLen: nat, used: nat): string
    requires IsByte(c)
  {
    var e := Escape(c);
    if |e| == 1 || used > outLen || used + |e| < outLen then e else ""
  }

  lemma IntoOne(c: char, outLen: nat, used: nat)
    requires IsByte(c)
    ensures EscapeInto("", outLen, used) == ""
    ensures EscapeInto([c], outLen, used)
         == if (32 <= c as int < 127 && c !in {'"', '\'', '<', '>', '&'})
               || used > outLen || used + |EscapeAll([c])| < outLen then EscapeAll([c]) else ""
  {
    assert [c][1..] == "" && Escape(c) + "" == Escape(c) && "" + EscapeAll([c]) == EscapeAll([c]) == Escape(c);
    EscapeWritten(c);
  }

  /** string_escape_xml: an escape that does not fit is dropped, an ordinary character is
      copied without looking at the room left, also behind the end of the buffer. */
  method EscapeXml(text: string, outLen: nat) returns (out: string)
    requires forall i :: 0 <= i < |text| ==> IsByte(text[i])
    ensures out == EscapeInto(text, outLen, 0)
    ensures |EscapeAll(text)| < outLen ==> out == EscapeAll(text)
    ensures |out| <= |EscapeAll(text)|
  {
    hide Escape, IsByte;
    out := "";
    var i := 0;
    while i < |text|
      invariant 0 <= i <= |text|
      invariant out + EscapeInto(text[i..], outLen, |out|) == EscapeInto(text, outLen, 0)
    {
      var e := Escape(text[i]);
      assert text[i..][1..] == text[i + 1..];
      Assoc(out, e, EscapeInto(text[i + 1..], outLen, |out| + |e|));
      if |e| == 1 || |out| > outLen || outLen - |out| > |e| {
        out := out + e;
      }
      i := i + 1;
    }
    assert out + EscapeInto(text[i..], outLen, |out|) == out;
    if |EscapeAll(text)| < outLen { AllFits(text, outLen, 0); }
  }

  /** written in hexadecimal, read back in decimal; or written as a negative number */
  predicate Garbled(c: char) {
    10 <= c as int < 32 || c as int > 127
  }

  lemma DecEscape(c: char, rest: string)
    requires IsByte(c) && !Garbled(c)
    ensures Dec(Attribute, Escape(c) + rest) == [c] + Dec(Attribute, rest)
  {
    hide Dec, CharRef;
    if c == '"' {
      DecNamed(Attribute, "quot;", 2, rest);
      assert "&quot;" + rest == "&" + "quot;" + rest;
    } else if c == '\'' {
      DecNamed(Attribute, "apos;", 3, rest);
      assert "&apos;" + rest == "&" + "apos;" + rest;
    } else if c == '<' {
      DecNamed(Attribute, "lt;", 0, rest);
      assert "&lt;" + rest == "&" + "lt;" + rest;
    } else if c == '>' {
      DecNamed(Attribute, "gt;", 1, rest);
      assert "&gt;" + rest == "&" + "gt;" + rest;
    } else if c == '&' {
      DecNamed(Attribute, "amp;", 4, rest);
      assert "&amp;" + rest == "&" + "amp;" + rest;
    } else if c as int < 32 {
      var s := Escape(c) + rest;
      assert s == ['&', '#', '0', HexDigit(c as int), ';'] + rest;
      DecimalRef('0', HexDigit(c as int), rest);
      assert s[5..] == rest && "&#" <= s;
      DecRef(Attribute, s, c as int, 4);
    } else if c as int == 127 {
      var s := "&#127;" + rest;
      Ref127(rest);
      assert s[6..] == rest && "&#" <= s;
      DecRef(Attribute, s, 127, 5);
    } else {
      DecPlain(Attribute, c, rest);
    }
  }

  lemma Ref127(rest: string)
    ensures CharRef("&#127;" + rest) == Some((127, 5))
  {
    hide Strtol;
    var s := "&#127;" + rest;
    var u := s[2..];
    assert u[0] == '1' && u[1] == '2' && u[2] == '7' && u[3] == ';';
    assert Digits(u[1..][1..][1..], 10, 127).1 == 0;
    assert Digits(u[1..][1..], 10, 12) == (127, 1);
    assert Digits(u[1..], 10, 1) == (127, 2);
    assert Digits(u, 10, 0) == (127, 3);
    StrtolDigits(u, 10);
  }

  /** The reference of a garbled character is not read, or read as another character. */
  lemma DecGarbled(c: char, rest: string)
    requires IsByte(c) && Garbled(c)
    ensures var d := Dec(Attribute, Escape(c) + rest); d != "" && d[0] != c
  {
    hide Dec, CharRef;
    if c as int > 127 {
      NegativeRef(rest);
      DecNotRef("&#fff" + rest);
    } else {
      DecControl(c, rest);
    }
  }

  lemma DecControl(c: char, rest: string)
    requires 10 <= c as int < 32
    ensures var d := Dec(Attribute, Escape(c) + rest); d != "" && d[0] != c
  {
    hide Dec, CharRef;
    var a, b := HexDigit(c as int / 16), HexDigit(c as int % 16);
    var s := ['&', '#', a, b, ';'] + rest;
    assert s == Escape(c) + rest && "&#" <= s;
    if IsDigit(b) {
      DecimalRef(a, b, rest);
      DecRef(Attribute, s, DigitValue(a) * 10 + DigitValue(b), 4);
    } else {
      NotARef(a, b, rest);
      DecNotRef(s);
    }
  }

  lemma NegativeRef(rest: string)
    ensures "&#" <= "&#fff" + rest && CharRef("&#fff" + rest) == None
  {
    var s := "&#fff" + rest;
    assert s[2] == 'f' && s[2..][0] == 'f';
  }

  lemma NotARef(a: char, b: char, rest: string)
    requires IsDigit(a) && 'a' <= b <= 'f'
    ensures CharRef(['&', '#', a, b, ';'] + rest) == None
  {
    hide Strtol;
    var s := ['&', '#', a, b, ';'] + rest;
    var u := s[2..];
    assert u[0] == a && u[1] == b;
    assert Digits(u[1..], 10, DigitValue(a)).1 == 0;
    assert Digits(u, 10, 0) == (DigitValue(a), 1);
    StrtolDigits(u, 10);
  }

  lemma DecNotRef(s: string)
    requires "&#" <= s && CharRef(s) == None
    ensures Dec(Attribute, s) != "" && Dec(Attribute, s)[0] == '&'
  {
    hide CharRef;
    DefaultsSafe();
    assert Step(DEFAULTS, Attribute, s) == Move("&", s[1..]);
  }

  lemma {:induction false} DecEscapeAll(s: string)
    requires forall i :: 0 <= i < |s| ==> IsByte(s[i])
    ensures Dec(Attribute, EscapeAll(s)) == s <==> forall i :: 0 <= i < |s| ==> !Garbled(s[i])
  {
    hide Dec, Escape;
    if s == "" {
      DecEmpty(Attribute);
    } else {
      var r := EscapeAll(s[1..]);
      DecEscapeAll(s[1..]);
      assert s == [s[0]] + s[1..];
      if Garbled(s[0]) {
        DecGarbled(s[0], r);
      } else {
        DecEscape(s[0], r);
        assert forall i :: 1 <= i < |s| ==> s[i] == s[1..][i - 1];
        assert (Dec(Attribute, EscapeAll(s)))[1..] == Dec(Attribute, r);
      }
    }
  }

  lemma EscapeChars(c: char)
    requires IsByte(c)
    ensures forall d :: d in Escape(c) ==> d != '\r' && d != '<' && d != '"'
  {
    forall d | d in Escape(c) ensures d != '\r' && d != '<' && d != '"' {
      var i :| 0 <= i < |Escape(c)| && Escape(c)[i] == d;
      if Escape(c) == [c] { assert d == c; }
    }
  }

  lemma {:induction false} EscapeAllChars(s: string)
    requires forall i :: 0 <= i < |s| ==> IsByte(s[i])
    ensures '\r' !in EscapeAll(s) && '"' !in EscapeAll(s) && '<' !in EscapeAll(s)
  {
    hide Escape;
    if s != "" {
      EscapeChars(s[0]);
      EscapeAllChars(s[1..]);
    }
  }

  /** The logger's attribute text comes back through the host's decoder exactly when it has no character
      from 10 to 31 and none above 127. */
  lemma EscapeRoundTrip(s: string)
    requires forall i :: 0 <= i < |s| ==> IsByte(s[i])
    ensures DecodeText(Attribute, EscapeAll(s)) == s <==> forall i :: 0 <= i < |s| ==> !Garbled(s[i])
  {
    hide Dec;
    EscapeAllChars(s);
    NewlinesKept(EscapeAll(s));
    DecEscapeAll(s);
  }
}
