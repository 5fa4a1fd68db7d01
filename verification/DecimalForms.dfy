/** The decimal reader without its states, for every string; and the shape of what the printer writes. */
module DecimalForms {
  import opened CStrings
  import opened Decimal

  // ---- the reader ----

  /** A sign, digits, a point and digits, an exponent: the base without its point, and the exponent. Of more than 128
      characters, or where something else stands, nothing is read; a sign where none may be stops the loop. */
  function Reading(s: string): Read {
    var k := if s != "" && s[0] in {'-', '+'} then 1 else 0;
    var n := DigitRun(s[k..]);
    if k + n > 128 then Rejected else Behind(s[..k + n], s[k + n..])
  }

  /** What comes behind the digits of the whole part. */
  function Behind(whole: string, r: string): Read {
    if r == "" then (if whole == "" then Rejected else Parsed(whole, 0))
    else if r[0] in {'-', '+'} then Stuck
    else if r[0] != '.' then Rejected
    else
      var m := DigitRun(r[1..]);
      var base, rest := whole + r[1..][..m], r[1..][m..];
      if |whole| + m > 128 then Rejected
      else if rest == "" then Parsed(base, 0 - m)
      else if rest[0] in {'-', '+'} then Stuck
      else if rest[0] !in {'e', 'E'} || !ExponentOk(rest[1..]) then Rejected
      else match ScanInt(rest[1..]) case None => Rejected case Some(v) => Parsed(base, v - m)
  }

  /** Signs and digits only, and no digit beyond the reader's buffer. */
  predicate ExponentOk(ex: string) {
    forall i :: 0 <= i < |ex| ==> ex[i] in {'-', '+'} || (IsDigit(ex[i]) && i < 128)
  }

  lemma NoDigit(s: string)
    ensures var n := DigitRun(s); n <= |s| && AllDigits(s[..n]) && (s[n..] != "" ==> !IsDigit(s[n..][0]))
  {}

  /** A run of digits. */
  lemma {:induction false} Collect(state: State, tmp: string, base: string, places: nat, s: string)
    requires |tmp| <= 128
    ensures var n := DigitRun(s);
            Scan(state, tmp, base, places, s)
            == if |tmp| + n > 128 then Rejected
            else Scan(if state.Start? && n > 0 then Base else state, tmp + s[..n], base,
                      if state.Frac? then places + n else places, s[n..])
    decreases |s|
  {
    var n := DigitRun(s);
    if n == 0 {
      assert tmp + s[..0] == tmp && s[0..] == s;
    } else {
      assert n == 1 + DigitRun(s[1..]) && IsDigit(s[0]);
      if |tmp| < 128 {
        Collect(if state.Start? then Base else state, tmp + [s[0]], base, if state.Frac? then places + 1 else places,
                s[1..]);
        assert tmp + [s[0]] + s[1..][..n - 1] == tmp + s[..n] && s[1..][n - 1..] == s[n..];
      }
    }
  }

  lemma {:induction false} ExponentRead(tmp: string, base: string, places: nat, s: string)
    ensures Scan(Exp, tmp, base, places, s)
         == if forall i :: 0 <= i < |s| ==> s[i] in {'-', '+'} || (IsDigit(s[i]) && |tmp| + i < 128) then
              match ScanInt(tmp + s) case None => Rejected case Some(v) => Parsed(base, v - places)
            else Rejected
    decreases |s|
  {
    hide ScanInt;
    if s == "" {
      assert tmp + s == tmp;
    } else {
      ExponentRead(tmp + [s[0]], base, places, s[1..]);
      assert tmp + [s[0]] + s[1..] == tmp + s;
      assert forall i :: 0 <= i < |s| - 1 ==> s[1..][i] == s[i + 1];
      if s[0] in {'-', '+'} || (IsDigit(s[0]) && |tmp| < 128) {
        var t := s[1..];
        assert (forall i :: 0 <= i < |s| ==> s[i] in {'-', '+'} || (IsDigit(s[i]) && |tmp| + i < 128))
          <==> forall i :: 0 <= i < |t| ==> t[i] in {'-', '+'} || (IsDigit(t[i]) && |tmp| + 1 + i < 128) by {
          assert forall i :: 0 < i < |s| ==> s[i] == t[i - 1];
        }
      }
    }
  }

  /** Behind the point. */
  lemma FractionRead(whole: string, s: string)
    requires |whole| <= 128
    ensures var m := DigitRun(s);
            var base, rest := whole + s[..m], s[m..];
            Scan(Frac, whole, "", 0, s)
            == if |whole| + m > 128 then Rejected
            else if rest == "" then Parsed(base, 0 - m)
            else if rest[0] in {'-', '+'} then Stuck
            else if rest[0] !in {'e', 'E'} || !ExponentOk(rest[1..]) then Rejected
            else match ScanInt(rest[1..]) case None => Rejected case Some(v) => Parsed(base, v - m)
  {
    hide ScanInt;
    var m := DigitRun(s);
    Collect(Frac, whole, "", 0, s);
    NoDigit(s);
    var base, rest := whole + s[..m], s[m..];
    if rest != "" && rest[0] in {'e', 'E'} {
      ExponentRead("", base, m, rest[1..]);
      assert "" + rest[1..] == rest[1..];
    }
  }

  /** Behind the digits of the whole part. */
  lemma WholeRead(state: State, whole: string, r: string)
    requires state in {Start, Base} && (state.Start? <==> whole == "") && (r != "" ==> !IsDigit(r[0])) && |whole| <= 128
    requires state.Start? && r != "" ==> r[0] !in {'-', '+'}
    ensures Scan(state, whole, "", 0, r) == Behind(whole, r)
  {
    hide ScanInt, ExponentOk;
    if r != "" && r[0] == '.' { FractionRead(whole, r[1..]); }
  }

  /** The sign in front. */
  lemma SignRead(s: string)
    ensures var k := if s != "" && s[0] in {'-', '+'} then 1 else 0;
            Decompose(s) == Scan(if k == 0 then Start else Base, s[..k], "", 0, s[k..])
  {
    if s != "" && s[0] in {'-', '+'} {
      assert "" + [s[0]] == s[..1];
    } else {
      assert s[0..] == s;
    }
  }

  /** On every string the state machine reads what this reader does. */
  lemma DecomposeIsReading(s: string)
    ensures Decompose(s) == Reading(s)
  {
    hide ScanInt, ExponentOk, Scan, Decompose, Behind, DigitRun;
    var k := if s != "" && s[0] in {'-', '+'} then 1 else 0;
    var n := DigitRun(s[k..]);
    SignRead(s);
    Collect(if k == 0 then Start else Base, s[..k], "", 0, s[k..]);
    NoDigit(s[k..]);
    WholeSplit(s, k, n);
    if k + n <= 128 { WholeRead(if k + n == 0 then Start else Base, s[..k + n], s[k + n..]); }
  }

  lemma WholeSplit(s: string, k: nat, n: nat)
    requires k <= |s| && n <= |s[k..]|
    ensures s[..k] + s[k..][..n] == s[..k + n] && s[k..][n..] == s[k + n..]
    ensures k + n == 0 ==> s[k + n..] == s
  {}

  // ---- numbers ----

  /** A sign, digits, and something that is no digit. */
  lemma IntegerRead(sign: string, d: string, rest: string)
    requires sign in {"", "+", "-"} && AllDigits(d) && (rest == "" || !IsDigit(rest[0])) && (sign == "" ==> d != "")
    ensures ScanInt(sign + d + rest) == if d == "" then None else Some(if sign == "-" then 0 - NatOf(d) else NatOf(d))
  {
    hide NatOf;
    var s := sign + d + rest;
    assert sign == "" ==> s == d + rest && s[0] == d[0];
    assert sign != "" ==> s[0] == sign[0] && s[1..] == d + rest;
    RunEnds(d, rest);
    assert (d + rest)[..|d|] == d;
  }

  lemma {:induction false} RunEnds(d: string, rest: string)
    requires AllDigits(d) && (rest == "" || !IsDigit(rest[0]))
    ensures DigitRun(d + rest) == |d|
  {
    if d == "" {
      assert d + rest == rest;
    } else {
      assert (d + rest)[1..] == d[1..] + rest && (d + rest)[0] == d[0];
      RunEnds(d[1..], rest);
    }
  }

  /** One digit more is ten times as much. */
  lemma NextDigit(s: string, c: char)
    requires AllDigits(s) && IsDigit(c)
    ensures AllDigits(s + [c]) && NatOf(s + [c]) == 10 * NatOf(s) + (c as int - '0' as int) && NatOf("") == 0
  {
    assert (s + [c])[..|s|] == s;
  }

  /** No zero in front. */
  lemma {:induction false} FirstDigit(n: nat)
    requires n > 0
    ensures Digits(n)[0] != '0' && NatOf(Digits(n)) == n
    decreases n
  {
    DigitsValue(n);
    if n >= 10 { FirstDigit(n / 10); }
  }

  // ---- the printer ----

  /** Fixed notation with the point in it: -e digits behind it, and in front of it no zero but a single one. */
  lemma PointShape(x: int, e: int) returns (left: string, right: string)
    requires x != 0 && e < 0
    ensures Fixed(Show(x), e) == (if x < 0 then "-" else "") + left + "." + right
    ensures AllDigits(left) && AllDigits(right) && |right| == -e && (left == "0" || (left != "" && left[0] != '0'))
  {
    hide Show, Digits, Fixed;
    var base := Show(x);
    ShowParts(x);
    FirstDigit(if x < 0 then -x else x);
    FixedParts(base, e);
    var d, w := Magnitude(base), Whole(base, e);
    left, right := if w > 0 then d[..w] else "0", Zeros(w - |d| - e) + d[w..];
    Assoc((if x < 0 then "-" else "") + left + ".", Zeros(w - |d| - e), d[w..]);
  }

  /** Fixed notation without a point: zeros behind the number. */
  lemma ZeroShape(x: int, e: int)
    requires x != 0 && e >= 0
    ensures var t, n := Fixed(Show(x), e), |Show(x)|;
            |t| == n + e && t[..n] == Show(x) && forall i :: n <= i < n + e ==> t[i] == '0'
  {
    hide Show;
  }

  /** Scientific notation: the point behind the first character of the number, then the exponent, as far as it fits. */
  lemma PowerShape(x: int, e: int, len: nat)
    ensures var base, n := Show(x), |Show(x)|;
            var ex := Show(e + n - 1);
            var room := if len == n + 2 then 0xFFFF_FFFF_FFFF_FFFF else len - n - 3;
            var r := Scientific(base, e, len);
            && (r == Refused <==> len < n + 2 || (e + n != 1 && |ex| > room))
            && (r.Wrote? ==> |r.text| > n && r.text[0] == base[0] && r.text[1] == '.' && r.text[2..n + 1] == base[1..])
            && (r.Wrote? && e + n == 1 ==> |r.text| == n + 1 == r.ret)
            && (r.Wrote? && e + n != 1 ==>
                  && |r.text| > n + 1 && r.text[n + 1] == 'e' && r.ret == n + 2 + |ex|
                  && r.text[n + 2..] == if |ex| < room then ex else if room == 0 then "" else ex[..room - 1])
  {
    hide Show;
    var base := Show(x);
    var head := [base[0]] + "." + base[1..];
    var r := Scientific(base, e, len);
    if r.Wrote? {
      assert r.text[..|head|] == head;
    }
  }

  /** Which notation is chosen, and what is returned. */
  lemma NotationChosen(x: int, e: int, maxdigits: int, len: nat)
    ensures var r, n := Format(x, e, maxdigits, len), |Show(x)|;
            && (x == 0 ==> r == Wrote(if len == 0 then "" else "0", 0))
            && (x != 0 && n > len ==> r == Refused)
            && (x != 0 && n <= len && e == 0 ==> r == Wrote(Show(x), 0))
            && (x != 0 && n <= len && e != 0 ==>
                  if n > maxdigits || n + (if e < 0 then -e else e) > maxdigits + 2
                  then r == Scientific(Show(x), e, len)
                  else r == Wrote(Fixed(Show(x), e), |Fixed(Show(x), e)|))
  {
    hide Show, Fixed, Scientific;
  }

  lemma Numerals()
    ensures Show(5) == "5" && Show(-5) == "-5" && Show(12) == "12" && Show(123) == "123" && Show(1234) == "1234"
    ensures Show(24) == "24" && Show(-1234) == "-1234"
  {
    assert Digits(1) == "1" && Digits(2) == "2" && Digits(5) == "5";
    assert Digits(12) == "12" && Digits(24) == "24";
    assert Digits(123) == "123";
    assert Digits(1234) == "1234";
  }

  /** Some numbers as they are printed, with five digits at most. */
  lemma Printed()
    ensures Format(1234, -2, 5, 64) == Wrote("12.34", 5) && Format(-5, -3, 5, 64) == Wrote("-0.005", 6)
    ensures Format(12, 3, 5, 64) == Wrote("12000", 5) && Format(-1234, 0, 5, 64) == Wrote("-1234", 0)
    ensures Format(1234, 4, 5, 64) == Wrote("1.234e7", 7) && Format(0, 7, 5, 64) == Wrote("0", 0)
    ensures Format(-1234, -3, 5, 64) == Wrote("-.1234e1", 8)
  {
    Numerals();
    hide Show;
    assert Zeros(3) == "000" && Zeros(2) == "00";
    assert "1234"[..2] == "12" && "1234"[2..] == "34" && "-5"[1..] == "5" && "1234"[1..] == "234";
    assert "-1234"[1..] == "1234";
    assert Show(7) == "7" && Show(1) == "1" by { SmallShow(); }
  }

  lemma SmallShow()
    ensures Show(7) == "7" && Show(1) == "1"
  {}
}
