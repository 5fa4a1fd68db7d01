/** Character references: strtol() and the number between "&#" and ';'. */
module CharRefs {
  import opened CStrings
  import Utf8

  function DigitValue(c: char): nat {
    if '0' <= c <= '9' then c as int - '0' as int
    else if 'a' <= c <= 'z' then c as int - 'a' as int + 10
    else if 'A' <= c <= 'Z' then c as int - 'A' as int + 10
    else 36
  }

  /** value and length of the digits that start s, after a value acc already read */
  function Digits(s: string, base: nat, acc: nat): (r: (nat, nat))
    ensures r.1 <= |s|
  {
    if s == "" || DigitValue(s[0]) >= base then (acc, 0)
    else var (v, n) := Digits(s[1..], base, acc * base + DigitValue(s[0])); (v, n + 1)
  }

  const LONG_MAX := 0x7FFF_FFFF_FFFF_FFFF

  /** strtol(): the value, and how many characters it took (0: no number) */
  function Strtol(s: string, base: nat): (r: (int, nat))
    ensures r.1 <= |s|
  {
    var t := SkipSpace(s);
    var minus := t != "" && t[0] == '-';
    var u := if t != "" && t[0] in {'-', '+'} then t[1..] else t;
    var w := if base == 16 && |u| > 2 && u[0] == '0' && u[1] in {'x', 'X'} && DigitValue(u[2]) < 16 then u[2..] else u;
    var (v, n) := Digits(w, base, 0);
    var x: int := if minus then 0 - v else v;
    if n == 0 then (0, 0)
    else (if x > LONG_MAX then LONG_MAX else if x < -LONG_MAX - 1 then -LONG_MAX - 1 else x, |s| - |w| + n)
  }

  /** "&#" starts s: the code and the position of the ';', if this is a reference. */
  function CharRef(s: string): (r: Option<(int, nat)>)
    requires "&#" <= s
    ensures r.Some? ==> 2 <= r.value.1 < |s|
  {
    var k := if |s| > 2 && s[2] == 'x' then 3 else 2;
    var (c, n) := Strtol(s[k..], if k == 3 then 16 else 10);
    if c == 0 || k + n >= |s| || s[k + n] != ';' then None else Some((c, k + n))
  }

  lemma StrtolDigits(s: string, base: nat)
    requires s != "" && DigitValue(s[0]) < base <= 16
    requires base == 16 && |s| > 1 ==> s[1] !in {'x', 'X'}
    requires Digits(s, base, 0).0 <= LONG_MAX
    ensures Strtol(s, base) == Digits(s, base, 0)
  {
    assert !IsSpace(s[0]) && s[0] !in {'-', '+'};
  }

  lemma DecimalRef(a: char, b: char, rest: string)
    requires IsDigit(a) && IsDigit(b) && !(a == '0' && b == '0')
    ensures CharRef(['&', '#', a, b, ';'] + rest) == Some((DigitValue(a) * 10 + DigitValue(b), 4))
  {
    hide Strtol;
    var s := ['&', '#', a, b, ';'] + rest;
    var u := s[2..];
    assert u[0] == a && u[1] == b && u[2] == ';';
    assert Digits(u[1..][1..], 10, DigitValue(a) * 10 + DigitValue(b)).1 == 0;
    assert Digits(u[1..], 10, DigitValue(a)).1 == 1;
    assert Digits(u, 10, 0) == (DigitValue(a) * 10 + DigitValue(b), 2);
    StrtolDigits(u, 10);
  }

  /** A number holds no '&'. */
  lemma {:induction false} DigitsChars(s: string, base: nat, acc: nat)
    requires base <= 16
    ensures forall k :: 0 <= k < Digits(s, base, acc).1 ==> s[k] != '&'
  {
    if s != "" && DigitValue(s[0]) < base {
      DigitsChars(s[1..], base, acc * base + DigitValue(s[0]));
    }
  }

  lemma {:induction false} SpaceChars(s: string)
    ensures SkipSpace(s) == s[|s| - |SkipSpace(s)|..]
    ensures forall k :: 0 <= k < |s| - |SkipSpace(s)| ==> s[k] != '&'
  {
    if s != "" && IsSpace(s[0]) {
      SpaceChars(s[1..]);
      assert s[1..][|s| - 1 - |SkipSpace(s)|..] == s[|s| - |SkipSpace(s)|..];
    }
  }

  lemma StrtolChars(s: string, base: nat)
    requires base <= 16
    ensures forall k :: 0 <= k < Strtol(s, base).1 ==> s[k] != '&'
  {
    SpaceChars(s);
    var t := SkipSpace(s);
    var u := if t != "" && t[0] in {'-', '+'} then t[1..] else t;
    var w := if base == 16 && |u| > 2 && u[0] == '0' && u[1] in {'x', 'X'} && DigitValue(u[2]) < 16 then u[2..] else u;
    DigitsChars(w, base, 0);
    hide Digits, SkipSpace, DigitValue;
    assert w == s[|s| - |w|..];
    assert forall k :: 0 <= k < |s| - |w| ==> s[k] != '&';
  }

  /** A character reference ends before the next '&'. */
  lemma CharRefInside(h: string, w: string)
    requires "&#" <= h && w != "" && w[0] == '&'
    ensures CharRef(h + w).Some? ==> CharRef(h + w).value.1 < |h|
  {
    var s := h + w;
    var k := if |s| > 2 && s[2] == 'x' then 3 else 2;
    var base := if k == 3 then 16 else 10;
    StrtolChars(s[k..], base);
    hide Strtol;
    var n := Strtol(s[k..], base).1;
    assert s[|h|] == '&';
    assert forall i :: k <= i < k + n ==> s[i] == s[k..][i - k];
  }

  function EmitRef(c: int): string {
    if c < 0x80 then [(c % 0x100) as char] else Utf8.Emit(c)
  }
}
