/** What the decoder makes of a text, piece by piece, with the numbers and characters written out: numeric references
    of every code point, references by name, and everything that is no reference. */
module References {
  import opened CStrings
  import opened CharRefs
  import opened Entities
  import opened AmpCodec
  import Utf8

  // ---- numbers ----

  function DigitChar(d: nat, upper: bool): char
    requires d < 16
  {
    if d < 10 then ('0' as int + d) as char
    else if upper then ('A' as int + (d - 10)) as char else ('a' as int + (d - 10)) as char
  }

  /** n in a base, most significant digit first, by division and remainder */
  function Numeral(n: nat, base: nat, upper: bool): (s: string)
    requires 2 <= base <= 16
    ensures s != ""
  {
    if n < base then [DigitChar(n, upper)] else Numeral(n / base, base, upper) + [DigitChar(n % base, upper)]
  }

  function Zeros(k: nat): (s: string)
    ensures |s| == k && forall i :: 0 <= i < k ==> s[i] == '0'
  {
    seq(k, i => '0')
  }

  predicate AllDigits(s: string, base: nat) {
    forall i :: 0 <= i < |s| ==> DigitValue(s[i]) < base
  }

  lemma {:induction false} DigitsSplit(x: string, y: string, base: nat, acc: nat)
    requires AllDigits(x, base)
    ensures var (v, n) := Digits(x, base, acc); n == |x| && Digits(x + y, base, acc) == (Digits(y, base, v).0,
                                                                                         |x| + Digits(y, base, v).1)
    decreases |x|
  {
    if x == "" {
      assert x + y == y;
    } else {
      assert (x + y)[1..] == x[1..] + y && (x + y)[0] == x[0];
      DigitsSplit(x[1..], y, base, acc * base + DigitValue(x[0]));
    }
  }

  lemma {:induction false} NumeralIsRead(n: nat, base: nat, upper: bool)
    requires 2 <= base <= 16
    ensures AllDigits(Numeral(n, base, upper), base)
    ensures Digits(Numeral(n, base, upper), base, 0) == (n, |Numeral(n, base, upper)|)
    decreases n
  {
    hide *;
    var d := DigitChar(n % base, upper);
    DigitOf(n % base, upper);
    NumeralStep(n, base, upper);
    if n < base {
      OneDigit(d, base, 0);
    } else {
      NumeralIsRead(n / base, base, upper);
      OneDigit(d, base, n / base);
      DigitsSplit(Numeral(n / base, base, upper), [d], base, 0);
      DigitsEnd(Numeral(n / base, base, upper), d, base);
    }
  }

  lemma NumeralStep(n: nat, base: nat, upper: bool)
    requires 2 <= base <= 16
    ensures Numeral(n, base, upper)
         == (if n < base then "" else Numeral(n / base, base, upper)) + [DigitChar(n % base, upper)]
    ensures n < base ==> Numeral(n, base, upper) == [DigitChar(n % base, upper)] && n % base == n
                         && AllDigits([DigitChar(n % base, upper)], base)
    ensures n / base * base + n % base == n
  {
    DigitOf(n % base, upper);
    Divided(n, base);
    hide DigitValue, DigitChar;
  }

  lemma Divided(n: nat, base: nat)
    requires base > 0
    ensures n / base * base + n % base == n && (n < base ==> n % base == n)
  {}

  lemma DigitsEnd(s: string, d: char, base: nat)
    requires AllDigits(s, base) && DigitValue(d) < base
    ensures AllDigits(s + [d], base)
  {
    hide DigitValue;
  }

  lemma DigitOf(d: nat, upper: bool)
    requires d < 16
    ensures DigitValue(DigitChar(d, upper)) == d
  {}

  lemma OneDigit(d: char, base: nat, acc: nat)
    requires DigitValue(d) < base
    ensures Digits([d], base, acc) == (acc * base + DigitValue(d), 1)
  {
    assert [d][1..] == "";
  }

  lemma {:induction false} ZerosAreRead(k: nat, base: nat)
    requires base > 0
    ensures AllDigits(Zeros(k), base) && Digits(Zeros(k), base, 0) == (0, k)
  {
    if k > 0 {
      assert Zeros(k)[1..] == Zeros(k - 1);
      ZerosAreRead(k - 1, base);
    }
  }

  /** A number with leading zeros, and what follows it. */
  lemma NumberIsRead(k: nat, n: nat, base: nat, upper: bool, rest: string)
    requires 2 <= base <= 16 && (rest == "" || DigitValue(rest[0]) >= base)
    ensures var s := Zeros(k) + Numeral(n, base, upper);
            AllDigits(s, base) && Digits(s + rest, base, 0) == (n, |s|)
  {
    hide Numeral;
    var z, m := Zeros(k), Numeral(n, base, upper);
    ZerosAreRead(k, base);
    NumeralIsRead(n, base, upper);
    DigitsSplit(z, m + rest, base, 0);
    DigitsSplit(m, rest, base, 0);
    assert z + m + rest == z + (m + rest);
  }

  // ---- numeric references ----

  /** Blanks, a sign and a prefix, as strtol() allows them in front of the digits. */
  datatype Lead = Lead(blanks: string, sign: string, prefix: string)
  {
    predicate Ok(hex: bool) {
      && (forall i :: 0 <= i < |blanks| ==> blanks[i] in {' ', '\t', '\n', 11 as char, 12 as char, '\r'})
      && sign in {"", "+", "-"} && (if hex then prefix in {"", "0x", "0X"} else prefix == "")
    }

    function Text(): string {
      blanks + sign + prefix
    }
  }

  /** The digits of c, with k zeros in front. */
  function Number(c: nat, hex: bool, k: nat, upper: bool): (s: string)
    ensures s != ""
  {
    Zeros(k) + Numeral(c, if hex then 16 else 10, upper)
  }

  function Reference(c: nat, hex: bool, lead: Lead, k: nat, upper: bool): string {
    (if hex then "&#x" else "&#") + lead.Text() + Number(c, hex, k, upper) + ";"
  }

  lemma {:induction false} BlanksSkipped(b: string, s: string)
    requires forall i :: 0 <= i < |b| ==> b[i] in {' ', '\t', '\n', 11 as char, 12 as char, '\r'}
    requires s != "" && !IsSpace(s[0])
    ensures SkipSpace(b + s) == s
  {
    if b == "" {
      assert b + s == s;
    } else {
      assert (b + s)[1..] == b[1..] + s && (b + s)[0] == b[0];
      BlanksSkipped(b[1..], s);
    }
  }

  /** strtol(), step by step. */
  lemma StrtolParts(s: string, t: string, u: string, w: string, base: nat)
    requires SkipSpace(s) == t && u == (if t != "" && t[0] in {'-', '+'} then t[1..] else t)
    requires w == if base == 16 && |u| > 2 && u[0] == '0' && u[1] in {'x', 'X'} && DigitValue(u[2]) < 16 then u[2..]
                  else u
    requires Digits(w, base, 0).1 > 0 && Digits(w, base, 0).0 <= LONG_MAX
    ensures var (v, n) := Digits(w, base, 0);
            Strtol(s, base) == (if t != "" && t[0] == '-' then 0 - v else v, |s| - |w| + n)
  {
    hide Digits, SkipSpace, DigitValue;
  }

  /** strtol() on such a number, and how far it reads. */
  lemma StrtolReads(lead: Lead, c: nat, hex: bool, k: nat, upper: bool, rest: string)
    requires lead.Ok(hex) && c <= LONG_MAX
    requires rest == "" || (DigitValue(rest[0]) >= (if hex then 16 else 10) && rest[0] !in {'x', 'X'})
    ensures var text, base := lead.Text() + Number(c, hex, k, upper), if hex then 16 else 10;
            Strtol(text + rest, base) == (if lead.sign == "-" then 0 - c else c, |text|)
  {
    hide *;
    var base, num := if hex then 16 else 10, Number(c, hex, k, upper);
    LeadParts(lead, c, hex, k, upper, rest);
    NumberIsRead(k, c, base, upper, rest);
    SignSplit(lead.sign, lead.prefix + num + rest);
    BlanksSkipped(lead.blanks, lead.sign + (lead.prefix + num + rest));
    PrefixSkipped(lead.prefix, num, rest, hex);
    StrtolParts(lead.Text() + num + rest, lead.sign + (lead.prefix + num + rest), lead.prefix + num + rest, num + rest,
                base);
  }

  lemma LeadParts(lead: Lead, c: nat, hex: bool, k: nat, upper: bool, rest: string)
    requires lead.Ok(hex)
    ensures var num, base := Number(c, hex, k, upper), if hex then 16 else 10;
            && num == Zeros(k) + Numeral(c, base, upper) && AllDigits(num, base)
            && lead.sign in {"", "+", "-"} && (if hex then lead.prefix in {"", "0x", "0X"} else lead.prefix == "")
            && lead.Text() + num + rest == lead.blanks + (lead.sign + (lead.prefix + num + rest))
            && lead.prefix + num + rest != "" && !IsSpace((lead.prefix + num + rest)[0])
            && (lead.prefix + num + rest)[0] !in {'-', '+'}
            && |lead.Text() + num + rest| - |num + rest| + |num| == |lead.Text() + num|
            && forall i :: 0 <= i < |lead.blanks| ==> lead.blanks[i] in {' ', '\t', '\n', 11 as char, 12 as char, '\r'}
  {
    hide Numeral;
    var base, num := if hex then 16 else 10, Number(c, hex, k, upper);
    NumberIsRead(k, c, base, upper, "");
    DigitIsPlain(num[0], base);
    assert (lead.prefix + num + rest)[0] == if lead.prefix == "" then num[0] else '0';
  }

  lemma SignSplit(sign: string, u: string)
    requires sign in {"", "+", "-"} && u != "" && !IsSpace(u[0]) && u[0] !in {'-', '+'}
    ensures var t := sign + u;
            t != "" && !IsSpace(t[0]) && u == (if t[0] in {'-', '+'} then t[1..] else t)
            && (t[0] == '-' <==> sign == "-")
  {
    var t := sign + u;
    if sign == "" { assert t == u; } else { assert t[0] == sign[0] && t[1..] == u; }
  }

  lemma DigitIsPlain(c: char, base: nat)
    requires DigitValue(c) < base <= 16
    ensures !IsSpace(c) && c !in {'-', '+', 'x', 'X', ';'}
  {}

  lemma PrefixSkipped(prefix: string, num: string, rest: string, hex: bool)
    requires num != "" && AllDigits(num, if hex then 16 else 10) && (rest == "" || rest[0] !in {'x', 'X'})
    requires if hex then prefix in {"", "0x", "0X"} else prefix == ""
    ensures var u := prefix + num + rest;
            var base := if hex then 16 else 10;
            num + rest
            == if base == 16 && |u| > 2 && u[0] == '0' && u[1] in {'x', 'X'} && DigitValue(u[2]) < 16 then u[2..] else u
  {
    var u := prefix + num + rest;
    if prefix == "" {
      assert u == num + rest && (|u| > 1 ==> u[1] == if |num| > 1 then num[1] else rest[0]);
      if |num| > 1 { DigitIsPlain(num[1], if hex then 16 else 10); }
    } else {
      assert u[2] == num[0] && u[2..] == num + rest;
    }
  }

  /** The reference is read as a whole, and as its number. */
  lemma ReferenceIsRead(c: nat, hex: bool, lead: Lead, k: nat, upper: bool, rest: string)
    requires 0 < c <= 0x10FFFF && lead.Ok(hex)
    ensures var r := Reference(c, hex, lead, k, upper);
            "&#" <= r + rest
            && CharRef(r + rest) == Some((if lead.sign == "-" then 0 - c else c, |r| - 1))
  {
    hide Strtol, Numeral;
    var r, text := Reference(c, hex, lead, k, upper), lead.Text() + Number(c, hex, k, upper);
    var s, from := r + rest, if hex then 3 else 2;
    assert s[from..] == text + (";" + rest);
    StrtolReads(lead, c, hex, k, upper, ";" + rest);
    NotX(lead, c, hex, k, upper);
    assert s[2] == if hex then 'x' else text[0];
    assert s[from + |text|] == ';';
  }

  lemma NotX(lead: Lead, c: nat, hex: bool, k: nat, upper: bool)
    requires lead.Ok(hex)
    ensures (lead.Text() + Number(c, hex, k, upper))[0] != 'x' || hex
  {
    hide Numeral;
    var base, num := if hex then 16 else 10, Number(c, hex, k, upper);
    NumberIsRead(k, c, base, upper, "");
    DigitIsPlain(num[0], base);
    var text := lead.Text() + num;
    if !hex {
      assert text[0] == if lead.blanks != "" then lead.blanks[0] else if lead.sign != "" then lead.sign[0] else num[0];
    }
  }

  /** Every code point, in decimal or hexadecimal digits of either case: the text becomes its UTF-8 form as the table of
      section 3 of RFC 3629 has it, and the rest is decoded as it would be alone. A minus sign makes a single char of
      the number. */
  lemma ReferenceDecodes(ent: Table, t: Mode, c: nat, hex: bool, lead: Lead, k: nat, upper: bool, rest: string)
    requires Safe(ent) && t != CData && 0 < c <= 0x10FFFF && lead.Ok(hex)
    ensures Decode(ent, t, Reference(c, hex, lead, k, upper) + rest)
         == (if lead.sign == "-" then [((0 - c) % 0x100) as char] else Utf8.Rfc3629(c)) + Decode(ent, t, rest)
  {
    hide CharRef, Lookup, Utf8.Emit, Utf8.Rfc3629, Reference;
    var r := Reference(c, hex, lead, k, upper);
    var s := r + rest;
    ReferenceIsRead(c, hex, lead, k, upper, rest);
    Utf8.EmitIsRfc3629(c);
    SmallCode(c);
    assert s[|r|..] == rest;
  }

  lemma SmallCode(c: nat)
    ensures c < 0x80 ==> Utf8.Rfc3629(c) == [(c % 0x100) as char]
  {}

  // ---- what is no numeric reference ----

  lemma DecodeStep(ent: Table, t: Mode, s: string, emit: string, rest: string)
    requires Safe(ent) && s != "" && Step(ent, t, s) == Move(emit, rest)
    ensures Decode(ent, t, s) == emit + Decode(ent, t, rest)
  {
    hide Step;
  }

  lemma NoReference(ent: Table, t: Mode, s: string)
    requires Safe(ent) && "&#" <= s && CharRef(s) == None
    ensures Decode(ent, t, s) == "&" + Decode(ent, t, s[1..])
  {
    hide CharRef, Lookup, Decode;
    assert Step(ent, t, s) == Move("&", s[1..]);
    hide Step;
    DecodeStep(ent, t, s, "&", s[1..]);
  }

  /** The number is 0, or something else than a ';' comes behind it. */
  lemma UnfinishedStays(ent: Table, t: Mode, c: nat, hex: bool, lead: Lead, k: nat, upper: bool, rest: string)
    requires Safe(ent) && t != CData && c <= LONG_MAX && lead.Ok(hex)
    requires rest == "" || (DigitValue(rest[0]) >= (if hex then 16 else 10) && rest[0] !in {'x', 'X'})
    requires c == 0 || rest == "" || rest[0] != ';'
    ensures var s := (if hex then "&#x" else "&#") + lead.Text() + Number(c, hex, k, upper) + rest;
            Decode(ent, t, s) == "&" + Decode(ent, t, s[1..])
  {
    hide Strtol, Numeral, Step, Decode;
    var text := lead.Text() + Number(c, hex, k, upper);
    var s, from := (if hex then "&#x" else "&#") + lead.Text() + Number(c, hex, k, upper) + rest, if hex then 3 else 2;
    assert s[from..] == text + rest;
    StrtolReads(lead, c, hex, k, upper, rest);
    NotX(lead, c, hex, k, upper);
    assert s[2] == if hex then 'x' else text[0];
    assert |s| == from + |text| + |rest|;
    assert CharRef(s) == None;
    NoReference(ent, t, s);
  }

  /** No digit, blank or sign where the number should be. */
  lemma NoDigitStays(ent: Table, t: Mode, hex: bool, rest: string)
    requires Safe(ent) && t != CData
    requires rest == "" || (DigitValue(rest[0]) >= (if hex then 16 else 10) && !IsSpace(rest[0])
                            && rest[0] !in {'-', '+', 'x'})
    ensures var s := (if hex then "&#x" else "&#") + rest; Decode(ent, t, s) == "&" + Decode(ent, t, s[1..])
  {
    hide Step, Decode;
    var s, from := (if hex then "&#x" else "&#") + rest, if hex then 3 else 2;
    assert s[from..] == rest;
    assert rest != "" ==> s[from] == rest[0];
    assert Strtol(rest, if hex then 16 else 10) == (0, 0);
    assert CharRef(s) == None;
    NoReference(ent, t, s);
  }

  // ---- names ----

  /** A reference by name: the first entity whose name the text goes on with, scanned again with what comes behind the
      first ';'. */
  lemma EntityDecodes(ent: Table, t: Mode, stem: string, rest: string, b: nat)
    requires Safe(ent) && t in {Content, Attribute} && ';' !in stem && (stem == "" || stem[0] != '#') && b < |ent|
    requires ent[b].name <= stem + ";" + rest && forall i :: 0 <= i < b ==> !(ent[i].name <= stem + ";" + rest)
    ensures Decode(ent, t, "&" + stem + ";" + rest) == Decode(ent, t, ent[b].value + rest)
  {
    hide *;
    var s := "&" + stem + ";" + rest;
    StemParts(stem, rest);
    LookedUp(ent, s[1..], b);
    EntityStep(ent, t, s, b);
    DecodeStep(ent, t, s, "", ent[b].value + rest);
    assert "" + Decode(ent, t, ent[b].value + rest) == Decode(ent, t, ent[b].value + rest);
  }

  lemma StemParts(stem: string, rest: string)
    requires ';' !in stem && (stem == "" || stem[0] != '#')
    ensures var s := "&" + stem + ";" + rest;
            && s[1..] == stem + ";" + rest && s[0] == '&' && !("&#" <= s)
            && Drop(s, CSpan(s, {';'}) + 1) == rest
  {
    var s := "&" + stem + ";" + rest;
    assert s == ("&" + stem) + (";" + rest);
    assert forall i :: 0 <= i < |stem| ==> stem[i] in stem;
    CSpanStops("&" + stem, ";" + rest, {';'});
    assert s[|stem| + 2..] == rest;
    assert s[1] == if stem == "" then ';' else stem[0];
  }

  lemma LookedUp(ent: Table, s: string, b: nat)
    requires b < |ent| && ent[b].name <= s && forall i :: 0 <= i < b ==> !(ent[i].name <= s)
    ensures Lookup(ent, s) == b
  {
    var c := Lookup(ent, s);
    hide Lookup;
  }

  lemma EntityStep(ent: Table, t: Mode, s: string, b: nat)
    requires t in {Content, Attribute} && s != "" && s[0] == '&' && !("&#" <= s) && Lookup(ent, s[1..]) == b < |ent|
    ensures Step(ent, t, s) == Move("", ent[b].value + Drop(s, CSpan(s, {';'}) + 1))
  {
    hide CharRef, Lookup, CSpan, Drop;
  }

  /** An '&' that no entity's name follows, and every '&' that is not looked up. */
  lemma AmpersandStays(ent: Table, t: Mode, rest: string)
    requires Safe(ent) && (rest == "" || rest[0] != '#')
    requires t in {Content, Attribute} ==> forall i :: 0 <= i < |ent| ==> !(ent[i].name <= rest)
    ensures Decode(ent, t, "&" + rest) == "&" + Decode(ent, t, rest)
  {
    hide CharRef, Lookup;
    var s := "&" + rest;
    assert s[1..] == rest && s[..1] == "&";
    assert rest != "" ==> s[1] == rest[0];
    assert t in {Content, Attribute} ==> Lookup(ent, rest) == |ent|;
    assert Step(ent, t, s) == Move("&", rest);
  }

  // ---- other characters ----

  /** In an attribute value a blank of any kind becomes a space; nothing else changes. */
  lemma PlainDecodes(ent: Table, t: Mode, c: char, rest: string)
    requires Safe(ent) && c != '&'
    ensures Decode(ent, t, [c] + rest)
         == [if t == Attribute && c in {' ', '\t', '\n', 11 as char, 12 as char, '\r'} then ' ' else c]
            + Decode(ent, t, rest)
  {
    hide CharRef, Lookup;
    var s := [c] + rest;
    assert s[1..] == rest && s[..1] == [c] && s[0] == c;
    assert IsSpace(c) <==> c in {' ', '\t', '\n', 11 as char, 12 as char, '\r'};
    assert Step(ent, t, s) == Move(if t == Attribute && IsSpace(c) then " " else [c], rest);
    hide Step;
  }

  /** A CDATA section is not decoded. */
  lemma {:induction false} CDataStays(ent: Table, s: string)
    requires Safe(ent)
    ensures Decode(ent, CData, s) == s
  {
    hide CharRef, Lookup;
    if s != "" {
      assert Step(ent, CData, s) == Move([s[0]], s[1..]);
      CDataStays(ent, s[1..]);
    }
  }

  // ---- line ends ----

  lemma {:induction false} NoReturns(s: string)
    ensures '\r' !in Newlines(s)
    decreases |s|
  {
    if s != "" { NoReturns(if s[0] == '\r' && |s| > 1 && s[1] == '\n' then s[2..] else s[1..]); }
  }

  lemma {:induction false} NewlinesAfter(a: string, b: string)
    requires '\r' !in a
    ensures Newlines(a + b) == a + Newlines(b)
  {
    if a == "" {
      assert a + b == b;
    } else {
      assert (a + b)[1..] == a[1..] + b && (a + b)[0] == a[0];
      NewlinesAfter(a[1..], b);
    }
  }

  /** What the first line end or character takes up. */
  function Ends(s: string): nat
    requires s != ""
  {
    if s[0] == '\r' && |s| > 1 && s[1] == '\n' then 2 else 1
  }

  lemma NewlinesStep(s: string)
    requires s != ""
    ensures Ends(s) <= |s| && Newlines(s) == [if s[0] == '\r' then '\n' else s[0]] + Newlines(s[Ends(s)..])
  {}

  /** A carriage return with a line feed is one line feed, wherever it is; so is one alone. */
  lemma {:induction false} LineEnd(a: string, end: string, b: string)
    requires end == "\r\n" || (end == "\r" && (b == "" || b[0] != '\n'))
    ensures Newlines(a + end + b) == Newlines(a) + "\n" + Newlines(b)
    decreases |a|
  {
    hide *;
    if a == "" {
      EndFirst(end, b);
      assert a + end + b == end + b;
      NoLines();
    } else {
      var k := LineStep(a, end, b);
      LineEnd(a[k..], end, b);
      var c := [if a[0] == '\r' then '\n' else a[0]];
      Assoc(c, Newlines(a[k..]) + "\n", Newlines(b));
      Assoc(c, Newlines(a[k..]), "\n");
    }
  }

  /** The first line end or character of a, with and without what comes behind a. */
  lemma LineStep(a: string, end: string, b: string) returns (k: nat)
    requires a != "" && end != "" && end[0] == '\r'
    ensures 0 < k <= |a|
    ensures var c := [if a[0] == '\r' then '\n' else a[0]];
            Newlines(a) == c + Newlines(a[k..]) && Newlines(a + end + b) == c + Newlines(a[k..] + end + b)
  {
    hide Newlines;
    k := Ends(a);
    var s := a + end + b;
    NewlinesStep(a);
    NewlinesStep(s);
    assert s[0] == a[0] && s[1] == (if |a| > 1 then a[1] else '\r') && s[k..] == a[k..] + end + b;
  }

  lemma NoLines()
    ensures Newlines("") == ""
  {}

  lemma EndFirst(end: string, b: string)
    requires end == "\r\n" || (end == "\r" && (b == "" || b[0] != '\n'))
    ensures Newlines(end + b) == "\n" + Newlines(b)
  {
    var s := end + b;
    NewlinesStep(s);
    hide Newlines;
    assert s[0] == '\r' && (|s| > 1 ==> s[1] == if |end| > 1 then '\n' else b[0]);
    assert s[|end|..] == b;
  }

  // ---- with the default entities ----

  /** What DecodeTextInPlace makes of a numeric reference. */
  lemma TextReference(t: Mode, c: nat, hex: bool, lead: Lead, k: nat, upper: bool, rest: string)
    requires t != CData && 0 < c <= 0x10FFFF && lead.Ok(hex) && '\r' !in lead.blanks
    ensures DecodeText(t, Reference(c, hex, lead, k, upper) + rest)
         == (if lead.sign == "-" then [((0 - c) % 0x100) as char] else Utf8.Rfc3629(c)) + DecodeText(t, rest)
  {
    hide Decode, Reference, Utf8.Rfc3629;
    DefaultsSafe();
    NoReturnInside(c, hex, lead, k, upper);
    NewlinesAfter(Reference(c, hex, lead, k, upper), rest);
    ReferenceDecodes(DEFAULTS, t, c, hex, lead, k, upper, Newlines(rest));
  }

  lemma NoReturnInside(c: nat, hex: bool, lead: Lead, k: nat, upper: bool)
    requires lead.Ok(hex) && '\r' !in lead.blanks
    ensures '\r' !in Reference(c, hex, lead, k, upper)
  {
    hide Numeral;
    NumberIsRead(k, c, if hex then 16 else 10, upper, "");
    var n := Number(c, hex, k, upper);
    assert forall i :: 0 <= i < |n| ==> n[i] != '\r';
  }

  /** The five predefined entities. */
  lemma TextNamed(t: Mode, rest: string)
    requires t in {Content, Attribute}
    ensures DecodeText(t, "&lt;" + rest) == "<" + DecodeText(t, rest)
    ensures DecodeText(t, "&gt;" + rest) == ">" + DecodeText(t, rest)
    ensures DecodeText(t, "&quot;" + rest) == "\"" + DecodeText(t, rest)
    ensures DecodeText(t, "&apos;" + rest) == "'" + DecodeText(t, rest)
    ensures DecodeText(t, "&amp;" + rest) == "&" + DecodeText(t, rest)
  {
    hide Dec;
    NamedOne(t, "&lt;", "lt;", 0, rest);
    NamedOne(t, "&gt;", "gt;", 1, rest);
    NamedOne(t, "&quot;", "quot;", 2, rest);
    NamedOne(t, "&apos;", "apos;", 3, rest);
    NamedOne(t, "&amp;", "amp;", 4, rest);
  }

  lemma NamedOne(t: Mode, ref: string, name: string, b: nat, rest: string)
    requires t in {Content, Attribute} && b < 5 && name == DEFAULTS[b].name && ref == "&" + name && '\r' !in ref
    ensures DecodeText(t, ref + rest) == ['<', '>', '"', '\'', '&'][b..b + 1] + DecodeText(t, rest)
  {
    hide Dec, Newlines;
    NewlinesAfter(ref, rest);
    DecNamed(t, name, b, Newlines(rest));
  }

  lemma TextCData(s: string)
    ensures DecodeText(CData, s) == Newlines(s)
  {
    hide Decode;
    DefaultsSafe();
    CDataStays(DEFAULTS, Newlines(s));
  }
}
