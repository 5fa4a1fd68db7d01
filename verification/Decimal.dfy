/** Scaled decimal numbers: an integer times a power of ten, printed by moving digits and read
    back by a state machine. No arithmetic is done on the number itself. */
module Decimal {
  import opened CStrings

  const BUFFER_SIZE: nat := 128

  // ---- numbers and digits ----

  function Pow10(k: nat): (p: nat)
    ensures p > 0
  {
    if k == 0 then 1 else 10 * Pow10(k - 1)
  }

  function Digit(d: nat): (c: char)
    requires d < 10
    ensures IsDigit(c) && c as int - '0' as int == d
  {
    ('0' as int + d) as char
  }

  predicate AllDigits(s: string) {
    forall i :: 0 <= i < |s| ==> IsDigit(s[i])
  }

  /** the digits that "%d" prints for n */
  function Digits(n: nat): (s: string)
    ensures s != "" && AllDigits(s)
  {
    if n < 10 then [Digit(n)] else Digits(n / 10) + [Digit(n % 10)]
  }

  /** "%d" */
  function Show(x: int): (s: string)
    ensures s != "" && (x < 0 ==> s[0] == '-' && s[1..] == Digits(-x) && |s| > 1) && (x >= 0 ==> s == Digits(x))
  {
    if x < 0 then "-" + Digits(-x) else Digits(x)
  }

  function NatOf(s: string): nat
    requires AllDigits(s)
  {
    if s == "" then 0 else NatOf(s[..|s| - 1]) * 10 + (s[|s| - 1] as int - '0' as int)
  }

  predicate IsSign(c: char) {
    c == '-' || c == '+'
  }

  /** an integer without a decimal point, with an optional sign */
  predicate IsInteger(s: string) {
    s != "" && (if IsSign(s[0]) then s[1..] != "" && AllDigits(s[1..]) else AllDigits(s))
  }

  function IntOf(s: string): int
    requires IsInteger(s)
  {
    if s[0] == '-' then 0 - NatOf(s[1..]) else if s[0] == '+' then NatOf(s[1..]) else NatOf(s)
  }

  /** m * 10^e == m' * 10^e', without fractions */
  predicate SameValue(m: int, e: int, m': int, e': int) {
    if e >= e' then m * Pow10(e - e') == m' else m == m' * Pow10(e' - e)
  }

  function Zeros(k: nat): (s: string)
    ensures |s| == k && AllDigits(s) && forall i :: 0 <= i < k ==> s[i] == '0'
  {
    if k == 0 then "" else Zeros(k - 1) + "0"
  }

  lemma {:induction false} DigitsValue(n: nat)
    ensures NatOf(Digits(n)) == n
  {
    if n >= 10 {
      DigitsValue(n / 10);
      assert Digits(n)[..|Digits(n)| - 1] == Digits(n / 10);
    }
  }

  lemma ShowValue(x: int)
    ensures IsInteger(Show(x)) && IntOf(Show(x)) == x
  {
    DigitsValue(if x < 0 then -x else x);
    hide NatOf;
  }

  lemma {:induction false} LeadingZeros(k: nat, s: string)
    requires AllDigits(s)
    ensures AllDigits(Zeros(k) + s) && NatOf(Zeros(k) + s) == NatOf(s)
  {
    if s != "" {
      LeadingZeros(k, s[..|s| - 1]);
      assert (Zeros(k) + s)[..|Zeros(k) + s| - 1] == Zeros(k) + s[..|s| - 1];
    } else if k > 0 {
      LeadingZeros(k - 1, "");
      assert Zeros(k) + "" == Zeros(k) && Zeros(k - 1) + "" == Zeros(k - 1);
      assert Zeros(k)[..k - 1] == Zeros(k - 1);
    }
  }

  lemma {:induction false} TrailingZeros(s: string, k: nat)
    requires AllDigits(s)
    ensures AllDigits(s + Zeros(k)) && NatOf(s + Zeros(k)) == NatOf(s) * Pow10(k)
  {
    if k == 0 {
      assert s + Zeros(0) == s;
    } else {
      TrailingZeros(s, k - 1);
      assert (s + Zeros(k))[..|s| + k - 1] == s + Zeros(k - 1);
    }
  }

  // ---- printing ----

  /** What a printing routine leaves in buf, and what it returns; or an error return of -1. */
  datatype Outcome = Wrote(text: string, ret: int) | Refused

  /** The size that the scientific form hands to snprintf: len - numlen - 3, as a size_t. */
  function ExponentRoom(numlen: nat, len: nat): nat
    requires numlen + 2 <= len
  {
    if len == numlen + 2 then 0xFFFF_FFFF_FFFF_FFFF else len - numlen - 3
  }

  /** snprintf() keeps one character of its room for the terminator. */
  function Fitting(s: string, room: nat): string {
    if |s| < room then s else if room == 0 then "" else s[..room - 1]
  }

  /** d.ddd, and an exponent unless it is 0 */
  function Scientific(base: string, e: int, len: nat): Outcome
    requires base != ""
  {
    var n := |base|;
    var head := [base[0]] + "." + base[1..];
    var e' := e + n - 1;
    if n + 2 > len then Refused
    else if e' == 0 then Wrote(head, n + 1)
    else
      var room := ExponentRoom(n, len);
      if |Show(e')| > room then Refused
      else Wrote(head + "e" + Fitting(Show(e'), room), n + 2 + |Show(e')|)
  }

  predicate Negative(base: string) {
    base != "" && base[0] == '-'
  }

  /** The sign, and the digits behind it. */
  function SignOf(base: string): (s: string)
    ensures |s| <= 1
  {
    if Negative(base) then "-" else ""
  }

  function Magnitude(base: string): (s: string)
    ensures SignOf(base) + s == base
  {
    if Negative(base) then base[1..] else base
  }

  /** The digits with the point moved -e places to the left, or e zeros behind them. */
  function Fixed(base: string, e: int): string {
    var d := Magnitude(base);
    if e >= 0 then base + Zeros(e)
    else if -e < |d| then SignOf(base) + d[..|d| + e] + "." + d[|d| + e..]
    else SignOf(base) + "0." + Zeros(-e - |d|) + d
  }

  predicate TooLong(n: nat, e: int, maxdigits: int) {
    n > maxdigits || n + (if e < 0 then -e else e) > maxdigits + 2
  }

  /** _suns_snprintf_int_sf */
  function FormatBase(base: string, e: int, maxdigits: int, len: nat): Outcome
    requires base != ""
  {
    if |base| > len then Refused
    else if e == 0 then Wrote(base, 0)
    else if TooLong(|base|, e, maxdigits) then Scientific(base, e, len)
    else Wrote(Fixed(base, e), |Fixed(base, e)|)
  }

  /** suns_snprintf_int_sf, suns_snprintf_uint_sf */
  function Format(x: int, e: int, maxdigits: int, len: nat): Outcome {
    if x == 0 then Wrote(if len == 0 then "" else "0", 0) else FormatBase(Show(x), e, maxdigits, len)
  }

  /** _suns_snprintf_int_sf_e. buf holds the characters written so far. */
  method SnprintfE(base: string, e: int, len: nat) returns (buf: string, ret: int)
    requires base != ""
    ensures match Scientific(base, e, len)
            case Refused => ret == -1
            case Wrote(text, r) => buf == text && ret == r
  {
    buf := "";
    if |base| + 2 > len {
      return buf, -1;
    }
    var e := e + |base| - 1;
    buf := buf + [base[0]];
    buf := buf + ['.'];
    for i := 1 to |base|
      invariant buf == [base[0]] + "." + base[1..i]
    {
      buf := buf + [base[i]];
    }
    var bufChar := |buf|;
    if e != 0 {
      buf := buf + ['e'];
      var room := ExponentRoom(|base|, len);
      var offset := |Show(e)|;
      buf := buf + Fitting(Show(e), room);
      if offset > room {
        return buf, -1;
      }
      bufChar := bufChar + 1 + offset;
    }
    ret := bufChar;
  }

  /** The number of digits left of the point. */
  function Whole(base: string, e: int): (w: nat)
    requires e < 0
    ensures w <= |Magnitude(base)|
  {
    if e + |Magnitude(base)| > 0 then e + |Magnitude(base)| else 0
  }

  lemma FixedParts(base: string, e: int)
    requires e < 0
    ensures var d, w := Magnitude(base), Whole(base, e);
            Fixed(base, e) == SignOf(base) + (if w > 0 then d[..w] else "0") + "." + Zeros(w - |d| - e) + d[w..]
  {
    var d, w := Magnitude(base), Whole(base, e);
    var s := SignOf(base);
    if w > 0 {
      assert s + d[..w] + "." + "" + d[w..] == s + d[..w] + "." + d[w..];
    } else {
      assert s + "0" + "." == s + "0.";
      assert d[0..] == d;
    }
  }

  /** the digits to the left of the decimal point */
  method WholePart(base: string, e: int) returns (buf: string, baseChar: nat, numlen1: nat)
    requires base != "" && e < 0
    ensures numlen1 == |Magnitude(base)| && baseChar == |SignOf(base)| + Whole(base, e)
    ensures buf == SignOf(base) + if Whole(base, e) > 0 then Magnitude(base)[..Whole(base, e)] else "0"
  {
    numlen1, baseChar, buf := |base|, 0, "";
    if base[0] == '-' {
      buf := buf + ['-'];
      baseChar := baseChar + 1;
      numlen1 := numlen1 - 1;
    }
    if e + numlen1 > 0 {
      ghost var sign, d := SignOf(base), Magnitude(base);
      for i := 0 to e + numlen1
        invariant baseChar == |sign| + i && buf == sign + d[..i]
      {
        assert base[baseChar] == d[i];
        buf := buf + [base[baseChar]];
        baseChar := baseChar + 1;
      }
    } else {
      buf := buf + ['0'];
    }
  }

  /** the zeros to the left of the digits, if there are any */
  method PadZeros(left: string, shift: int) returns (buf: string)
    ensures buf == left + Zeros(if shift < 0 then -shift else 0)
  {
    buf := left;
    var i := 0;
    while i > shift
      invariant i <= 0 && (i >= shift || i == 0) && buf == left + Zeros(-i)
      decreases i - shift
    {
      buf := buf + ['0'];
      i := i - 1;
    }
  }

  /** the actual digits */
  method AppendDigits(left: string, base: string, from: nat) returns (buf: string)
    requires from <= |base|
    ensures buf == left + base[from..]
  {
    buf := left;
    var baseChar := from;
    while baseChar < |base|
      invariant from <= baseChar <= |base| && buf == left + base[from..baseChar]
    {
      buf := buf + [base[baseChar]];
      baseChar := baseChar + 1;
    }
  }

  /** the branch of _suns_snprintf_int_sf that moves the point */
  method Fraction(base: string, e: int) returns (buf: string)
    requires base != "" && e < 0
    ensures buf == Fixed(base, e)
  {
    hide Fixed, SignOf, Negative, Zeros;
    var baseChar, numlen1;
    buf, baseChar, numlen1 := WholePart(base, e);
    buf := PadZeros(buf + ".", e + numlen1);
    assert base[baseChar..] == Magnitude(base)[Whole(base, e)..];
    buf := AppendDigits(buf, base, baseChar);
    FixedParts(base, e);
  }

  /** _suns_snprintf_int_sf */
  method SnprintfBase(base: string, e: int, maxdigits: int, len: nat) returns (buf: string, ret: int)
    requires base != ""
    ensures match FormatBase(base, e, maxdigits, len)
            case Refused => ret == -1
            case Wrote(text, r) => buf == text && ret == r
  {
    var numlen := |base|;
    if numlen > len {
      return "", -1;
    }
    if e == 0 {
      return base, 0;
    }
    if numlen > maxdigits || numlen + (if e < 0 then -e else e) > maxdigits + 2 {
      buf, ret := SnprintfE(base, e, len);
      return;
    }
    if e < 0 {
      buf := Fraction(base, e);
    } else {
      buf := "";
      for i := 0 to numlen
        invariant buf == base[..i]
      {
        buf := buf + [base[i]];
      }
      for i := 0 to e
        invariant buf == base + Zeros(i)
      {
        buf := buf + ['0'];
      }
    }
    ret := |buf|;
  }

  /** suns_snprintf_int_sf, suns_snprintf_uint_sf */
  method SnprintfSf(x: int, e: int, maxdigits: int, len: nat) returns (buf: string, ret: int)
    ensures match Format(x, e, maxdigits, len)
            case Refused => ret == -1
            case Wrote(text, r) => buf == text && ret == r
  {
    if x == 0 {
      return if len == 0 then "" else "0", 0;
    }
    buf, ret := SnprintfBase(Show(x), e, maxdigits, len);
  }

  /** Fixed notation is short. */
  lemma FixedLength(x: int, e: int, maxdigits: int)
    requires x != 0 && e != 0 && !TooLong(|Show(x)|, e, maxdigits)
    ensures |Fixed(Show(x), e)| <= maxdigits + 3
  {}

  // ---- reading ----

  datatype State = Start | Base | Frac | Exp

  /** Stuck: the loop never advances again. */
  datatype Read = Parsed(base: string, e: int) | Rejected | Stuck

  function DigitRun(s: string): (n: nat)
    ensures n <= |s| && AllDigits(s[..n])
    ensures n < |s| ==> !IsDigit(s[n])
  {
    if s == "" || !IsDigit(s[0]) then 0 else 1 + DigitRun(s[1..])
  }

  /** sscanf("%d") on a string without white space */
  function ScanInt(s: string): Option<int> {
    var body := if s != "" && IsSign(s[0]) then s[1..] else s;
    var n := DigitRun(body);
    if n == 0 then None
    else Some(if s[0] == '-' then 0 - NatOf(body[..n]) else NatOf(body[..n]))
  }

  /** The state machine of string_decompose_decimal from one character on. */
  function Scan(state: State, tmp: string, base: string, places: nat, s: string): Read
    decreases |s|
  {
    if s == "" then
      match state {
        case Start => Rejected
        case Base => Parsed(tmp, 0 - places)
        case Frac => Parsed(tmp, 0 - places)
        case Exp => match ScanInt(tmp) case None => Rejected case Some(v) => Parsed(base, v - places)
      }
    else if IsSign(s[0]) then
      match state {
        case Start => Scan(Base, tmp + [s[0]], base, places, s[1..])
        case Exp => Scan(Exp, tmp + [s[0]], base, places, s[1..])
        case _ => Stuck
      }
    else if IsDigit(s[0]) then
      if |tmp| >= BUFFER_SIZE then Rejected
      else Scan(if state.Start? then Base else state, tmp + [s[0]], base,
                if state.Frac? then places + 1 else places, s[1..])
    else if s[0] == '.' then
      if state.Start? || state.Base? then Scan(Frac, tmp, base, places, s[1..]) else Rejected
    else if s[0] == 'e' || s[0] == 'E' then
      if state.Frac? then Scan(Exp, "", tmp, places, s[1..]) else Rejected
    else Rejected
  }

  function Decompose(s: string): Read {
    Scan(Start, "", "", 0, s)
  }

  /** strncpy() */
  function Clip(s: string, n: nat): string {
    if |s| > n then s[..n] else s
  }

  /** string_decompose_decimal: the loop ends on every string that does not get it stuck, and the base is cut to
      the caller's buffer. */
  method DecomposeDecimal(buf: string, baseLen: nat) returns (base: string, e: int, ret: int)
    requires !Decompose(buf).Stuck?
    ensures match Decompose(buf)
            case Parsed(b, x) => ret == 0 && e == x && base == Clip(b, baseLen)
            case _ => ret == -1
  {
    var state, tmp, i, places := Start, "", 0, 0;
    base, e := "", 0;
    ghost var whole := base;
    while i < |buf|
      invariant 0 <= i <= |buf| && places >= 0
      invariant Scan(state, tmp, whole, places, buf[i..]) == Decompose(buf)
      invariant base == Clip(whole, baseLen)
    {
      var c := buf[i];
      assert buf[i..][1..] == buf[i + 1..];
      if IsSign(c) {
        tmp := tmp + [c];
        if state == Start {
          state := Base;
        }
      } else if IsDigit(c) {
        if |tmp| >= BUFFER_SIZE {
          return base, e, -1;
        }
        tmp := tmp + [c];
        if state == Start {
          state := Base;
        } else if state == Frac {
          places := places + 1;
        }
      } else if c == '.' {
        if state != Start && state != Base {
          return base, e, -1;
        }
        state := Frac;
      } else if c == 'e' || c == 'E' {
        if state != Frac {
          return base, e, -1;
        }
        whole := tmp;
        base, tmp, state := Clip(tmp, baseLen), "", Exp;
      } else {
        return base, e, -1;
      }
      i := i + 1;
    }
    if state == Start {
      return base, e, -1;
    } else if state == Exp {
      var v := ScanInt(tmp);
      if v == None {
        return base, e, -1;
      }
      e := v.value;
    } else {
      base := Clip(tmp, baseLen);
    }
    e := e - places;
    ret := 0;
  }

  // ---- reading back what was printed ----

  lemma {:induction false} ScanDigits(state: State, tmp: string, base: string, places: nat, d: string, rest: string)
    requires AllDigits(d) && |tmp| + |d| <= BUFFER_SIZE
    ensures Scan(state, tmp, base, places, d + rest)
         == Scan(if state.Start? && d != "" then Base else state, tmp + d, base,
                 if state.Frac? then places + |d| else places, rest)
    decreases |d|
  {
    if d == "" {
      assert d + rest == rest && tmp + d == tmp;
    } else {
      var s := d + rest;
      assert s[0] == d[0] && s[1..] == d[1..] + rest;
      assert tmp + d == (tmp + [d[0]]) + d[1..];
      ScanDigits(if state.Start? then Base else state, tmp + [d[0]], base,
                 if state.Frac? then places + 1 else places, d[1..], rest);
    }
  }

  lemma ScanSign(sign: string, rest: string)
    requires sign == "" || sign == "-"
    ensures Decompose(sign + rest) == Scan(if sign == "" then Start else Base, sign, "", 0, rest)
  {
    if sign == "" {
      assert sign + rest == rest;
    } else {
      assert (sign + rest)[0] == '-' && (sign + rest)[1..] == rest && "" + ['-'] == sign;
    }
  }

  /** A number without a point. */
  lemma ReadWhole(sign: string, d: string)
    requires (sign == "" || sign == "-") && d != "" && AllDigits(d) && |sign + d| <= BUFFER_SIZE
    ensures Decompose(sign + d) == Parsed(sign + d, 0)
  {
    ScanSign(sign, d);
    assert d + "" == d;
    ScanDigits(if sign == "" then Start else Base, sign, "", 0, d, "");
  }

  /** A number with a point, as far as the end of its digits. */
  lemma ReadPoint(sign: string, left: string, right: string, rest: string)
    requires (sign == "" || sign == "-") && AllDigits(left) && AllDigits(right) && |sign + left + right| <= BUFFER_SIZE
    ensures Decompose(sign + left + "." + right + rest) == Scan(Frac, sign + left + right, "", |right|, rest)
  {
    hide Decompose, Scan;
    var tail := right + rest;
    assert sign + left + "." + right + rest == sign + (left + ("." + tail));
    ScanSign(sign, left + ("." + tail));
    var state := if sign == "" then Start else Base;
    ScanDigits(state, sign, "", 0, left, "." + tail);
    ScanDot(if state.Start? && left != "" then Base else state, sign + left, tail);
    ScanDigits(Frac, sign + left, "", 0, right, rest);
  }

  lemma ScanDot(state: State, tmp: string, rest: string)
    requires state.Start? || state.Base?
    ensures Scan(state, tmp, "", 0, "." + rest) == Scan(Frac, tmp, "", 0, rest)
  {
    assert ("." + rest)[0] == '.' && ("." + rest)[1..] == rest;
  }

  lemma {:induction false} ScanExponent(tmp: string, base: string, places: nat, ex: string)
    requires |tmp| + |ex| <= BUFFER_SIZE && forall i :: 0 <= i < |ex| ==> IsSign(ex[i]) || IsDigit(ex[i])
    ensures Scan(Exp, tmp, base, places, ex)
         == match ScanInt(tmp + ex) case None => Rejected case Some(v) => Parsed(base, v - places)
    decreases |ex|
  {
    hide ScanInt;
    if ex == "" {
      assert tmp + ex == tmp;
    } else {
      ScanExponent(tmp + [ex[0]], base, places, ex[1..]);
      assert (tmp + [ex[0]]) + ex[1..] == tmp + ex;
    }
  }

  lemma ReadExponent(tmp: string, places: nat, ex: string)
    requires |ex| <= BUFFER_SIZE && forall i :: 0 <= i < |ex| ==> IsSign(ex[i]) || IsDigit(ex[i])
    ensures Scan(Frac, tmp, "", places, "e" + ex)
         == match ScanInt(ex) case None => Rejected case Some(v) => Parsed(tmp, v - places)
  {
    hide ScanInt;
    assert ("e" + ex)[0] == 'e' && ("e" + ex)[1..] == ex && "" + ex == ex;
    ScanExponent("", tmp, places, ex);
  }

  lemma {:induction false} DigitRunAll(s: string)
    requires AllDigits(s)
    ensures DigitRun(s) == |s| && s[..|s|] == s
  {
    if s != "" { DigitRunAll(s[1..]); }
  }

  lemma ScanShown(v: int)
    ensures ScanInt(Show(v)) == Some(v)
  {
    var d := Digits(if v < 0 then -v else v);
    DigitRunAll(d);
    DigitsValue(if v < 0 then -v else v);
    hide DigitRun, Digits, NatOf;
  }

  /** An exponent that has lost its last digit is another number, or none. */
  lemma ScanCut(v: int)
    requires v != 0
    ensures var s := Show(v); ScanInt(s[..|s| - 1]) != Some(v)
  {
    var n := if v < 0 then -v else v;
    var d := Digits(n);
    var s := Show(v);
    var cut := d[..|d| - 1];
    assert s[..|s| - 1] == if v < 0 then "-" + cut else cut;
    DigitRunAll(cut);
    if n >= 10 {
      assert cut == Digits(n / 10);
      DigitsValue(n / 10);
      assert n / 10 < n;
    }
    hide DigitRun, NatOf;
  }

  /** Fixed notation with zeros behind the number. */
  lemma ReadGrown(x: int, e: int)
    requires x != 0 && e > 0 && |Fixed(Show(x), e)| < BUFFER_SIZE
    ensures var r := Decompose(Fixed(Show(x), e));
            r.Parsed? && IsInteger(r.base) && SameValue(IntOf(r.base), r.e, x, e)
  {
    hide Decompose, Scan, Show, Digits, NatOf, SignOf, Magnitude, IsInteger, IntOf;
    var sign, d := SignOf(Show(x)), Magnitude(Show(x));
    ShowParts(x);
    assert Show(x) + Zeros(e) == sign + (d + Zeros(e));
    TrailingZeros(d, e);
    SignIs(Show(x));
    ReadWhole(sign, d + Zeros(e));
    SignedValue(x, d + Zeros(e));
    Scaled(x, NatOf(d), Pow10(e));
  }

  lemma SignIs(base: string)
    ensures SignOf(base) == "" || SignOf(base) == "-"
  {}

  /** Fixed notation with a point. */
  lemma ReadShifted(x: int, e: int)
    requires x != 0 && e < 0 && |Fixed(Show(x), e)| < BUFFER_SIZE
    ensures var r := Decompose(Fixed(Show(x), e));
            r.Parsed? && IsInteger(r.base) && SameValue(IntOf(r.base), r.e, x, e)
  {
    hide Decompose, Scan, Show, Fixed, Digits, NatOf, SignOf, Magnitude, IsInteger, IntOf;
    var base := Show(x);
    var sign, d, w := SignOf(base), Magnitude(base), Whole(base, e);
    var left, zeros := if w > 0 then d[..w] else "0", Zeros(w - |d| - e);
    var right := zeros + d[w..];
    ShowParts(x);
    FixedParts(base, e);
    Assoc(sign + left + ".", zeros, d[w..]);
    assert sign + left + "." + right + "" == sign + left + "." + right;
    SignIs(base);
    SameDigits(d, e, w, left, right);
    ReadPoint(sign, left, right, "");
    ScanEnd(sign + left + right, |right|);
    Assoc(sign, left, right);
    SignedValue(x, left + right);
  }

  lemma ScanEnd(tmp: string, places: nat)
    ensures Scan(Frac, tmp, "", places, "") == Parsed(tmp, 0 - places)
  {}

  lemma ShowParts(x: int)
    ensures SignOf(Show(x)) == (if x < 0 then "-" else "")
    ensures Magnitude(Show(x)) == Digits(if x < 0 then -x else x)
    ensures NatOf(Magnitude(Show(x))) == (if x < 0 then -x else x)
  {
    DigitsValue(if x < 0 then -x else x);
    hide Digits, NatOf;
  }

  lemma SignedValue(x: int, d: string)
    requires d != "" && AllDigits(d)
    ensures var b := SignOf(Show(x)) + d; IsInteger(b) && IntOf(b) == if x < 0 then 0 - NatOf(d) else NatOf(d)
  {
    ShowParts(x);
    hide NatOf, Show, Digits;
    var b := SignOf(Show(x)) + d;
    if x < 0 { assert b[0] == '-' && b[1..] == d; } else { assert b == d; }
  }

  lemma Scaled(x: int, n: nat, p: nat)
    requires n == if x < 0 then -x else x
    ensures (if x < 0 then -(n * p) else n * p) == x * p
  {}

  /** The digits around the point are those of the number, with zeros in front. */
  lemma SameDigits(d: string, e: int, w: nat, left: string, right: string)
    requires d != "" && AllDigits(d) && e < 0 && w == (if e + |d| > 0 then e + |d| else 0)
    requires left == (if w > 0 then d[..w] else "0") && right == Zeros(w - |d| - e) + d[w..]
    ensures |right| == -e && AllDigits(left + right) && NatOf(left + right) == NatOf(d)
  {
    hide NatOf;
    if w > 0 {
      assert left + right == d;
    } else {
      var k := -e - |d|;
      assert "0" + Zeros(k) == Zeros(k + 1);
      assert left + right == Zeros(k + 1) + d;
      LeadingZeros(k + 1, d);
    }
  }

  /** The scientific form up to the exponent: base[0] '.' base[1..] */
  lemma ReadHead(x: int, rest: string)
    requires |Show(x)| < BUFFER_SIZE
    ensures var base := Show(x); Decompose([base[0]] + "." + base[1..] + rest) == Scan(Frac, base, "", |base| - 1, rest)
  {
    hide Decompose, Scan, Show, Digits, NatOf;
    var base := Show(x);
    ShowParts(x);
    if x < 0 {
      ReadPoint("-", "", base[1..], rest);
      Heads("-", base[1..], rest);
      assert "-" + base[1..] == base;
    } else {
      ReadPoint("", [base[0]], base[1..], rest);
      Heads([base[0]], base[1..], rest);
      assert [base[0]] + base[1..] == base;
    }
  }

  lemma Heads(c: string, d: string, rest: string)
    requires |c| == 1
    ensures "" + c + "." + d + rest == [c[0]] + "." + d + rest && "" + c + d == c + d
    ensures c + "" + "." + d + rest == [c[0]] + "." + d + rest && c + "" + d == c + d
  {
    assert "" + c == c == c + "" == [c[0]];
  }

  /** The scientific form loses the last digit of its exponent when the exponent just fills the room. */
  predicate Cut(base: string, e: int, len: nat) {
    |base| + 2 <= len && e + |base| - 1 != 0 && |Show(e + |base| - 1)| == ExponentRoom(|base|, len)
  }

  lemma ReadScientific(x: int, e: int, len: nat)
    requires x != 0 && Scientific(Show(x), e, len).Wrote? && |Scientific(Show(x), e, len).text| < BUFFER_SIZE
    ensures var r := Decompose(Scientific(Show(x), e, len).text);
            !Cut(Show(x), e, len) <==> r.Parsed? && IsInteger(r.base) && SameValue(IntOf(r.base), r.e, x, e)
  {
    hide Decompose, Scan, ScanInt, Show;
    var base := Show(x);
    var head := [base[0]] + "." + base[1..];
    var e' := e + |base| - 1;
    ShowValue(x);
    if e' == 0 {
      ReadHead(x, "");
      assert head + "" == head;
      ScanEnd(base, |base| - 1);
    } else {
      var room := ExponentRoom(|base|, len);
      var ex := Fitting(Show(e'), room);
      assert head + "e" + ex == head + ("e" + ex);
      ReadHead(x, "e" + ex);
      ShownChars(e');
      ReadExponent(base, |base| - 1, ex);
      ScanShown(e');
      ScanCut(e');
      Cancels(x, e);
    }
  }

  lemma ShownChars(v: int)
    ensures forall i :: 0 <= i < |Show(v)| ==> IsSign(Show(v)[i]) || IsDigit(Show(v)[i])
  {}

  lemma Cancels(x: int, e: int)
    requires x != 0
    ensures forall e' :: SameValue(x, e', x, e) <==> e' == e
  {
    forall e' | e' != e ensures !SameValue(x, e', x, e) {
      PowersDiffer(x, if e' >= e then e' - e else e - e');
    }
  }

  lemma PowersDiffer(x: int, k: nat)
    requires x != 0 && k > 0
    ensures x * Pow10(k) != x
  {
    assert Pow10(k) >= 10;
  }

  /** The characters of a printed number, read back, give the number exactly: for every integer,
      exponent, digit limit and buffer size, in both notations. The one exception is a buffer
      in which the exponent fits but its terminator does not. */
  lemma ReadBack(x: int, e: int, maxdigits: int, len: nat)
    requires len > 0 && Format(x, e, maxdigits, len).Wrote? && |Format(x, e, maxdigits, len).text| < BUFFER_SIZE
    ensures var r := Decompose(Format(x, e, maxdigits, len).text);
            !(x != 0 && e != 0 && TooLong(|Show(x)|, e, maxdigits) && Cut(Show(x), e, len))
            <==> r.Parsed? && IsInteger(r.base) && SameValue(IntOf(r.base), r.e, x, e)
  {
    hide Decompose, Cut, Scientific, Fixed, Show;
    if x == 0 {
      ReadZero(e);
    } else if e == 0 {
      ReadPlain(x);
    } else if TooLong(|Show(x)|, e, maxdigits) {
      ReadScientific(x, e, len);
    } else {
      if e > 0 { ReadGrown(x, e); } else { ReadShifted(x, e); }
    }
  }

  lemma ReadZero(e: int)
    ensures Decompose("0") == Parsed("0", 0) && IsInteger("0") && IntOf("0") == 0 && SameValue(0, 0, 0, e)
  {
    ReadWhole("", "0");
    assert "" + "0" == "0";
  }

  lemma ReadPlain(x: int)
    requires |Show(x)| < BUFFER_SIZE
    ensures var r := Decompose(Show(x)); r.Parsed? && IsInteger(r.base) && SameValue(IntOf(r.base), r.e, x, 0)
  {
    hide Decompose;
    ShowParts(x);
    ShowValue(x);
    ReadWhole(SignOf(Show(x)), Magnitude(Show(x)));
  }

  /** A buffer with room for the terminator never cuts the exponent. */
  lemma RoomyBuffer(base: string, e: int, len: nat)
    requires base != "" && len > |base| + 3 + |Show(e + |base| - 1)|
    ensures Scientific(base, e, len).Wrote? && !Cut(base, e, len)
  {}

  lemma CutText()
    ensures Format(1, 20, 16, 6) == Wrote("1.e2", 5)
  {
    assert Show(1) == "1" && Show(20) == "20" && "1"[1..] == "";
    assert Scientific("1", 20, 6) == Wrote("1." + "e" + "20"[..1], 5);
    assert "1." + "e" + "20"[..1] == "1.e2";
  }

  /** 10^20 printed into 6 characters comes back as 10^2, and no error is returned. */
  lemma CutExample()
    ensures Format(1, 20, 16, 6) == Wrote("1.e2", 5) && Decompose("1.e2") == Parsed("1", 2)
  {
    hide Format, Decompose, Scan, ScanInt;
    CutText();
    assert Show(1) == "1" && [Show(1)[0]] + "." + Show(1)[1..] + "e2" == "1.e2";
    assert Show(2) == "2" && "e" + "2" == "e2";
    ReadHead(1, "e2");
    ReadExponent("1", 0, "2");
    ScanShown(2);
  }
}
