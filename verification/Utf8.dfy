/** Character encoding: the shift-and-mask UTF-8 writer that ezxml_decode and
    ezxml_str2utf8 share, and the UTF-16 reader. The references are section 3 of
    RFC 3629 (UTF-8) and section 2.1 of RFC 2781 (UTF-16). */
module Utf8 {
  import opened CStrings

  function Pow2(n: nat): (p: nat)
    ensures p > 0
  {
    if n == 0 then 1 else 2 * Pow2(n - 1)
  }

  /** a | b on non-negative integers */
  function BitOr(a: nat, b: nat): nat {
    if a == 0 && b == 0 then 0
    else 2 * BitOr(a / 2, b / 2) + (if a % 2 == 1 || b % 2 == 1 then 1 else 0)
  }

  /** the number of bits of c, counted by halving */
  function BitLength(c: nat): nat {
    if c == 0 then 0 else 1 + BitLength(c / 2)
  }

  /** the low eight bits, as a char store keeps them */
  function Byte(n: nat): char {
    (n % 0x100) as char
  }

  /** c >> n and c << n */
  function Shr(c: nat, n: nat): nat
    decreases n
  {
    if n == 0 then c else Shr(c / 2, n - 1)
  }

  function Shl(c: nat, n: nat): nat
    decreases n
  {
    if n == 0 then c else 2 * Shl(c, n - 1)
  }

  /** b payload bytes of six bits each, most significant first */
  function Payload(c: nat, b: nat): string {
    if b == 0 then ""
    else [Byte(BitOr(0x80, Shr(c, 6 * (b - 1)) % 0x40))] + Payload(c, b - 1)
  }

  /** (0xFF << (7 - b)) | (c >> (6 * b)) */
  function HeadByte(c: nat, b: nat): char {
    Byte(BitOr(Shl(0xFF, if b <= 7 then 7 - b else 0), Shr(c, 6 * b)))
  }

  /** The bytes written for the character number c. */
  function Emit(c: nat): string {
    if c < 0x80 then [c as char]
    else
      var n := BitLength(c);
      var b := if n < 2 then 0 else (n - 2) / 5;
      [HeadByte(c, b)] + Payload(c, b)
  }

  /** Table of section 3 of RFC 3629: the bits of a scalar value spread over one to four bytes. */
  function Rfc3629(c: nat): string
    requires c <= 0x10FFFF
  {
    if c <= 0x7F then [c as char]
    else if c <= 0x7FF then [(0xC0 + c / 0x40) as char, Tail(c)]
    else if c <= 0xFFFF then [(0xE0 + c / 0x1000) as char, Tail(c / 0x40), Tail(c)]
    else [(0xF0 + c / 0x40000) as char, Tail(c / 0x1000), Tail(c / 0x40), Tail(c)]
  }

  function Tail(c: nat): char {
    (0x80 + c % 0x40) as char
  }

  /** Bits shifted above another number's bits: or is plus. */
  lemma {:induction false} OrIsPlus(a: nat, k: nat, b: nat)
    requires b < Pow2(k)
    ensures BitOr(Shl(a, k), b) == Shl(a, k) + b
    decreases k
  {
    if k == 0 {
      OrZero(a);
    } else {
      OrIsPlus(a, k - 1, b / 2);
    }
  }

  lemma {:induction false} OrZero(a: nat)
    ensures BitOr(a, 0) == a
  {
    if a != 0 { OrZero(a / 2); }
  }

  lemma {:induction false} BitLengthBounds(c: nat)
    requires c > 0
    ensures BitLength(c) > 0 && Pow2(BitLength(c) - 1) <= c < Pow2(BitLength(c))
  {
    if c > 1 { BitLengthBounds(c / 2); }
  }

  lemma {:induction false} Pow2Mono(m: nat, n: nat)
    requires m <= n
    ensures Pow2(m) <= Pow2(n)
  {
    if m < n { Pow2Mono(m, n - 1); }
  }

  lemma SmallPowers()
    ensures Pow2(6) == 0x40 && Pow2(7) == 0x80 && Pow2(8) == 0x100 && Pow2(10) == 0x400
    ensures Pow2(4) == 0x10 && Pow2(5) == 0x20 && Pow2(11) == 0x800 && Pow2(12) == 0x1000
    ensures Pow2(16) == 0x10000 && Pow2(18) == 0x40000 && Pow2(21) == 0x200000
  {
    assert Pow2(4) == 0x10;
    assert Pow2(8) == 0x100;
    assert Pow2(12) == 0x1000;
    assert Pow2(16) == 0x10000;
    assert Pow2(20) == 0x100000;
  }

  /** (bits - 2) / 5 is the payload count of RFC 3629. */
  lemma PayloadCount(c: nat)
    requires 0x80 <= c <= 0x10FFFF
    ensures BitLength(c) >= 2
    ensures (BitLength(c) - 2) / 5 == if c <= 0x7FF then 1 else if c <= 0xFFFF then 2 else 3
  {
    SmallPowers();
    var n := BitLength(c);
    BitLengthBounds(c);
    if n <= 7 { Pow2Mono(n, 7); }
    if n >= 22 { Pow2Mono(21, n - 1); }
    if 12 <= n { Pow2Mono(11, n - 1); } else { Pow2Mono(n, 11); }
    if 17 <= n { Pow2Mono(16, n - 1); } else { Pow2Mono(n, 16); }
  }

  lemma ShiftSix(c: nat)
    ensures Shr(c, 6) == c / 0x40
  {
    assert Shr(c / 2 / 2 / 2, 3) == c / 2 / 2 / 2 / 2 / 2 / 2;
    assert Shr(c, 3) == c / 2 / 2 / 2;
    assert Shr(c, 6) == Shr(c / 2 / 2 / 2, 3);
  }

  lemma {:induction false} ShiftMore(c: nat, m: nat, n: nat)
    ensures Shr(c, m + n) == Shr(Shr(c, m), n)
    decreases m
  {
    if m > 0 { ShiftMore(c / 2, m - 1, n); }
  }

  lemma ShlOnes()
    ensures Shl(0xFF, 6) == 0x3FC0 && Shl(0xFF, 5) == 0x1FE0 && Shl(0xFF, 4) == 0xFF0
  {
    assert Shl(0xFF, 3) == 0x7F8;
  }

  lemma Shifts(c: nat)
    ensures Shr(c, 0) == c && Shr(c, 6) == c / 0x40 && Shr(c, 12) == c / 0x1000 && Shr(c, 18) == c / 0x40000
    ensures Shl(0xFF, 6) == 0x3FC0 && Shl(0xFF, 5) == 0x1FE0 && Shl(0xFF, 4) == 0xFF0
  {
    ShiftSix(c);
    ShiftSix(c / 0x40);
    ShiftSix(c / 0x1000);
    ShiftMore(c, 6, 6);
    ShiftMore(c, 12, 6);
    ShlOnes();
    hide Shr, Shl;
  }

  lemma HeadOf(c: nat, b: nat)
    requires 1 <= b <= 3 && c < (if b == 1 then 0x800 else if b == 2 then 0x10000 else 0x200000)
    ensures HeadByte(c, b)
         == if b == 1 then (0xC0 + c / 0x40) as char
            else if b == 2 then (0xE0 + c / 0x1000) as char
            else (0xF0 + c / 0x40000) as char
  {
    var ones, y := Shl(0xFF, 7 - b), Shr(c, 6 * b);
    Shifts(c);
    assert HeadByte(c, b) == Byte(BitOr(ones, y));
    HeadBits(b, y);
  }

  lemma HeadBits(b: nat, y: nat)
    requires 1 <= b <= 3 && y < (if b == 1 then 0x20 else if b == 2 then 0x10 else 0x8)
    ensures Byte(BitOr(Shl(0xFF, 7 - b), y)) as int == (if b == 1 then 0xC0 else if b == 2 then 0xE0 else 0xF0) + y
  {
    OrHead(b, y);
  }

  lemma OrHead(b: nat, y: nat)
    requires 1 <= b <= 3 && y < (if b == 1 then 0x20 else if b == 2 then 0x10 else 0x8)
    ensures BitOr(Shl(0xFF, 7 - b), y) == (if b == 1 then 0x3FC0 else if b == 2 then 0x1FE0 else 0xFF0) + y
  {
    assert y < Pow2(7 - b) by { SmallPowers(); }
    OrIsPlus(0xFF, 7 - b, y);
    Shifts(y);
  }

  /** Every scalar value is written as RFC 3629 lays it out. */
  lemma EmitIsRfc3629(c: nat)
    requires c <= 0x10FFFF
    ensures Emit(c) == Rfc3629(c)
  {
    if c >= 0x80 {
      PayloadCount(c);
      var b := (BitLength(c) - 2) / 5;
      HeadOf(c, b);
      PayloadIs(c);
    }
  }

  lemma PayloadIs(c: nat)
    ensures Payload(c, 1) == [Tail(c)]
    ensures Payload(c, 2) == [Tail(c / 0x40), Tail(c)]
    ensures Payload(c, 3) == [Tail(c / 0x1000), Tail(c / 0x40), Tail(c)]
  {
    PayloadStep(c, 1);
    PayloadStep(c, 2);
    PayloadStep(c, 3);
    PayloadEnd(c);
    Pieces(Payload(c, 0), Payload(c, 1), Payload(c, 2), Payload(c, 3), Tail(c), Tail(c / 0x40), Tail(c / 0x1000));
    hide *;
  }

  lemma Pieces(p0: string, p1: string, p2: string, p3: string, a: char, b: char, c: char)
    requires p0 == "" && p1 == [a] + p0 && p2 == [b] + p1 && p3 == [c] + p2
    ensures p1 == [a] && p2 == [b, a] && p3 == [c, b, a]
  {}

  lemma PayloadEnd(c: nat)
    ensures Payload(c, 0) == ""
  {}

  lemma PayloadStep(c: nat, b: nat)
    requires 1 <= b <= 3
    ensures Payload(c, b) == [Tail(if b == 1 then c else if b == 2 then c / 0x40 else c / 0x1000)] + Payload(c, b - 1)
  {
    var x := Shr(c, 6 * (b - 1));
    assert x == if b == 1 then c else if b == 2 then c / 0x40 else c / 0x1000 by { Shifts(c); }
    PayloadByte(x);
  }

  lemma PayloadByte(c: nat)
    ensures Byte(BitOr(0x80, c % 0x40)) == Tail(c)
  {
    var x := c % 0x40;
    OrTop(x);
    ByteIs(0x80 + x);
    hide BitOr, Byte;
  }

  lemma ByteIs(n: nat)
    requires n < 0x100
    ensures Byte(n) == n as char
  {}

  lemma OrTop(x: nat)
    requires x < 0x40
    ensures BitOr(0x80, x) == 0x80 + x
  {
    hide BitOr;
    assert Pow2(6) == 0x40 by { SmallPowers(); }
    OrIsPlus(2, 6, x);
    ShlSix();
  }

  lemma ShlSix()
    ensures Shl(2, 6) == 0x80
  {
    assert Shl(2, 3) == 0x10;
  }

  // ---- UTF-16 ----

  /** a Unicode scalar value */
  type Scalar = c: nat | c < 0xD800 || 0xE000 <= c <= 0x10FFFF

  /** The 16-bit unit at the front of s; be: most significant byte first. */
  function Unit(s: string, be: bool): nat
    requires |s| >= 2
  {
    var hi, lo := s[if be then 0 else 1] as int % 0x100, s[if be then 1 else 0] as int % 0x100;
    BitOr(Shl(hi, 8), lo)
  }

  /** (((c & 0x3FF) << 10) | (d & 0x3FF)) + 0x10000 */
  function Pair(c: nat, d: nat): nat {
    BitOr(Shl(c % 0x400, 10), d % 0x400) + 0x10000
  }

  /** The body of the conversion loop for the input left at sl: bytes written and bytes read. */
  function ConvertOne(s: string, be: bool): (r: (string, nat))
    requires |s| >= 2
    ensures 2 <= r.1 <= |s|
  {
    var c := Unit(s, be);
    if 0xD800 <= c <= 0xDFFF then
      if |s| >= 4 then (Emit(Pair(c, Unit(s[2..], be))), 4)
      else (Emit(c), |s|)
    else (Emit(c), 2)
  }

  function Convert(s: string, be: bool): string {
    if |s| < 2 then ""
    else var (out, n) := ConvertOne(s, be); out + Convert(s[n..], be)
  }

  /** ezxml_str2utf8: None when no byte order mark is seen, else the converted bytes. */
  method Str2Utf8(s: string) returns (u: Option<string>)
    requires s != ""
    ensures u == Utf8Of(s)
  {
    hide ConvertOne;
    var be;
    if s[0] as int == 0xFE { be := true; }
    else if s[0] as int == 0xFF { be := false; }
    else { return None; }
    if |s| < 2 { return Some(""); }
    var l, sl := "", 2;
    while sl + 1 < |s|
      invariant 2 <= sl <= |s|
      invariant l + Convert(s[sl..], be) == Convert(s[2..], be)
    {
      var (out, n) := ConvertOne(s[sl..], be);
      assert s[sl..][n..] == s[sl + n..];
      l := l + out;
      sl := sl + n;
    }
    assert l + Convert(s[sl..], be) == l;
    u := Some(l);
  }

  function Utf8Of(s: string): Option<string>
    requires s != ""
  {
    if s[0] as int in {0xFE, 0xFF} then Some(if |s| < 2 then "" else Convert(s[2..], s[0] as int == 0xFE))
    else None
  }

  /** Section 2.1 of RFC 2781: the units of a scalar value, and their bytes in either order. */
  function Utf16Units(c: Scalar): (u: seq<nat>)
    ensures |u| == if c < 0x10000 then 1 else 2
    ensures u[0] < 0x10000 && (|u| == 2 ==> u[1] < 0x10000)
    ensures (0xD800 <= u[0] <= 0xDFFF) == (|u| == 2)
  {
    if c < 0x10000 then [c]
    else [0xD800 + (c - 0x10000) / 0x400, 0xDC00 + (c - 0x10000) % 0x400]
  }

  function UnitBytes(u: nat, be: bool): string
    requires u < 0x10000
  {
    if be then [(u / 0x100) as char, (u % 0x100) as char] else [(u % 0x100) as char, (u / 0x100) as char]
  }

  function Utf16(cs: seq<Scalar>, be: bool): string
  {
    if cs == [] then ""
    else
      var u := Utf16Units(cs[0]);
      UnitBytes(u[0], be) + (if |u| == 2 then UnitBytes(u[1], be) else "") + Utf16(cs[1..], be)
  }

  function ByteOrderMark(be: bool): string {
    if be then [0xFE as char, 0xFF as char] else [0xFF as char, 0xFE as char]
  }

  function Utf8Bytes(cs: seq<Scalar>): string
  {
    if cs == [] then "" else Rfc3629(cs[0]) + Utf8Bytes(cs[1..])
  }

  lemma ShlIs(c: nat, n: nat)
    requires n in {8, 10}
    ensures Shl(c, n) == if n == 8 then 0x100 * c else 0x400 * c
  {
    assert Shl(c, 4) == 0x10 * c;
    assert Shl(c, 8) == 0x100 * c;
    assert Shl(c, 10) == 0x400 * c;
  }

  lemma OrBytes(hi: nat, lo: nat)
    requires lo < 0x100
    ensures BitOr(Shl(hi, 8), lo) == 0x100 * hi + lo
  {
    hide BitOr;
    assert Pow2(8) == 0x100 by { SmallPowers(); }
    OrIsPlus(hi, 8, lo);
    ShlIs(hi, 8);
  }

  lemma UnitOfBytes(u: nat, be: bool, rest: string)
    requires u < 0x10000
    ensures Unit(UnitBytes(u, be) + rest, be) == u
  {
    hide BitOr, Shl;
    OrBytes(u / 0x100, u % 0x100);
  }

  lemma PairValue(c: Scalar)
    requires 0x10000 <= c
    ensures Pair(Utf16Units(c)[0], Utf16Units(c)[1]) == c
  {
    var hi, lo := (c - 0x10000) / 0x400, (c - 0x10000) % 0x400;
    assert (0xD800 + hi) % 0x400 == hi;
    assert (0xDC00 + lo) % 0x400 == lo;
    assert Pow2(10) == 0x400 by { SmallPowers(); }
    OrIsPlus(hi, 10, lo);
    ShlIs(hi, 10);
  }

  lemma ConvertOneUnits(c: Scalar, be: bool, rest: string)
    ensures var u := Utf16Units(c);
            var s := UnitBytes(u[0], be) + (if |u| == 2 then UnitBytes(u[1], be) else "") + rest;
            ConvertOne(s, be) == (Emit(c), 2 * |u|) && s[2 * |u|..] == rest
  {
    var u := Utf16Units(c);
    var tail := (if |u| == 2 then UnitBytes(u[1], be) else "") + rest;
    var s := UnitBytes(u[0], be) + (if |u| == 2 then UnitBytes(u[1], be) else "") + rest;
    assert s == UnitBytes(u[0], be) + tail && s[2..] == tail;
    UnitOfBytes(u[0], be, tail);
    if |u| == 2 {
      UnitOfBytes(u[1], be, rest);
      PairValue(c);
    }
  }

  /** Any two units, the first from 0xD800 to 0xDFFF. */
  lemma PairIs(c: nat, d: nat)
    ensures Pair(c, d) == 0x400 * (c % 0x400) + d % 0x400 + 0x1_0000
  {
    assert Pow2(10) == 0x400 by { SmallPowers(); }
    OrIsPlus(c % 0x400, 10, d % 0x400);
    ShlIs(c % 0x400, 10);
  }

  /** The end of an odd or unpaired input: a single byte is dropped, a lone surrogate is written as it is, with whatever
      byte is behind it. */
  lemma RaggedEnd(u: nat, be: bool, rest: string)
    requires u < 0x10000 && |rest| < 2
    ensures Convert(rest, be) == "" && Convert(UnitBytes(u, be) + rest, be) == Rfc3629(u)
  {
    hide BitOr, Shl, Emit, Rfc3629;
    var s := UnitBytes(u, be) + rest;
    UnitOfBytes(u, be, rest);
    EmitIsRfc3629(u);
    assert s[2..] == rest && s[|s|..] == "";
  }

  /** Byte by byte: 0xFE at the front says that the high byte of a unit comes first, 0xFF that it comes last; whatever
      the second byte is, and nothing else is UTF-16. Of a pair, the first unit has the upper bits. */
  lemma MarkDecides(m: char, x: nat, y: nat, z: nat, w: nat)
    requires x < 0x100 && y < 0x100 && z < 0x100 && w < 0x100
    ensures Utf8Of([0xFE as char, m, x as char, y as char]) == Some(Rfc3629(0x100 * x + y))
    ensures Utf8Of([0xFF as char, m, y as char, x as char]) == Some(Rfc3629(0x100 * x + y))
    ensures var c := 0x400 * ((0x100 * x + y) % 0x400) + (0x100 * z + w) % 0x400 + 0x1_0000;
            0xD8 <= x <= 0xDF ==>
              && Utf8Of([0xFE as char, m, x as char, y as char, z as char, w as char]) == Some(Rfc3629(c))
              && Utf8Of([0xFF as char, m, y as char, x as char, w as char, z as char]) == Some(Rfc3629(c))
  {
    var c := 0x400 * ((0x100 * x + y) % 0x400) + (0x100 * z + w) % 0x400 + 0x1_0000;
    OneOrPair(true, x, y, z, w);
    OneOrPair(false, x, y, z, w);
    hide Convert;
    var big, little := [0xFE as char, m, x as char, y as char], [0xFF as char, m, y as char, x as char];
    assert big[2..] == [x as char, y as char] && little[2..] == [y as char, x as char];
    assert (big + [z as char, w as char])[2..] == [x as char, y as char, z as char, w as char];
    assert (little + [w as char, z as char])[2..] == [y as char, x as char, w as char, z as char];
    assert big + [z as char, w as char] == [0xFE as char, m, x as char, y as char, z as char, w as char];
    assert little + [w as char, z as char] == [0xFF as char, m, y as char, x as char, w as char, z as char];
  }

  lemma OneOrPair(be: bool, x: nat, y: nat, z: nat, w: nat)
    requires x < 0x100 && y < 0x100 && z < 0x100 && w < 0x100
    ensures Convert(if be then [x as char, y as char] else [y as char, x as char], be) == Rfc3629(0x100 * x + y)
    ensures 0xD8 <= x <= 0xDF ==>
              Convert(if be then [x as char, y as char, z as char, w as char]
                      else [y as char, x as char, w as char, z as char], be)
              == Rfc3629(0x400 * ((0x100 * x + y) % 0x400) + (0x100 * z + w) % 0x400 + 0x1_0000)
  {
    hide BitOr, Shl, Emit, Rfc3629;
    var s := if be then [x as char, y as char] else [y as char, x as char];
    var t := if be then [z as char, w as char] else [w as char, z as char];
    OrBytes(x, y);
    OrBytes(z, w);
    var u, v := 0x100 * x + y, 0x100 * z + w;
    assert Unit(s, be) == u && Unit(t, be) == v;
    assert s[|s|..] == "";
    EmitIsRfc3629(u);
    PairIs(u, v);
    EmitIsRfc3629(Pair(u, v));
    var st := s + t;
    assert st[2..] == t && Unit(st, be) == u && st[|st|..] == "";
    assert st == if be then [x as char, y as char, z as char, w as char]
                 else [y as char, x as char, w as char, z as char];
  }

  lemma {:induction false} ConvertUnits(cs: seq<Scalar>, be: bool)
    ensures Convert(Utf16(cs, be), be) == Utf8Bytes(cs)
  {
    if cs != [] {
      ConvertOneUnits(cs[0], be, Utf16(cs[1..], be));
      EmitIsRfc3629(cs[0]);
      ConvertUnits(cs[1..], be);
    }
  }

  /** Any scalar values, either byte order: the output is their RFC 3629 encoding. */
  lemma Utf16ToUtf8(cs: seq<Scalar>, be: bool)
    ensures Utf8Of(ByteOrderMark(be) + Utf16(cs, be)) == Some(Utf8Bytes(cs))
  {
    var s := ByteOrderMark(be) + Utf16(cs, be);
    assert s[2..] == Utf16(cs, be);
    ConvertUnits(cs, be);
  }
}
