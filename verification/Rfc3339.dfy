/** The RFC 3339 parser: a state machine driven by single characters. */
module Rfc3339 {
  import opened CStrings
  import Decimal

  const BUFFER_SIZE: nat := 128

  datatype Phase = Year | Mon | MDay | Hour | Min | Sec | SubSec | ZoneHour | ZoneMin | End

  /** struct tm, as far as it is set */
  datatype Tm = Tm(year: int, mon: int, mday: int, hour: int, min: int, sec: int, gmtoff: int)

  const NO_TIME := Tm(0, 0, 0, 0, 0, 0, 0)

  /** field_length; the phases from SubSec on have no limit of their own */
  function FieldLength(p: Phase): nat {
    if p == Year then 4 else 2
  }

  predicate Limited(p: Phase) {
    p in {Year, Mon, MDay, Hour, Min, Sec}
  }

  /** The variables of the parser. frac holds the digits of the fraction. */
  datatype St = St(phase: Phase, tmp: string, tm: Tm, sign: int, zoneHour: int, zoneMin: int, frac: Option<string>)

  const START := St(Year, "", NO_TIME, 1, 0, 0, None)

  /** The number in tmpbuf, which has just been completed. */
  function Number(st: St): Option<int> {
    Decimal.ScanInt(st.tmp)
  }

  function Dash(st: St): Option<St> {
    match Number(st)
    case None => None
    case Some(v) =>
      match st.phase
      case Year => Some(st.(tm := st.tm.(year := v - 1900), phase := Mon, tmp := ""))
      case Mon => Some(st.(tm := st.tm.(mon := v - 1), phase := MDay, tmp := ""))
      case Sec => Some(st.(tm := st.tm.(sec := v), sign := -1, phase := ZoneHour, tmp := ""))
      case _ => None
  }

  function Tee(st: St): Option<St> {
    if st.phase != MDay || Number(st) == None then None
    else Some(st.(tm := st.tm.(mday := Number(st).value), phase := Hour, tmp := ""))
  }

  function Colon(st: St): Option<St> {
    match Number(st)
    case None => None
    case Some(v) =>
      match st.phase
      case Hour => Some(st.(tm := st.tm.(hour := v), phase := Min, tmp := ""))
      case Min => Some(st.(tm := st.tm.(min := v), phase := Sec, tmp := ""))
      case ZoneHour => Some(st.(zoneHour := v, phase := ZoneMin, tmp := ""))
      case _ => None
  }

  function Plus(st: St): Option<St> {
    match st.phase
    case Sec =>
      if Number(st) == None then None
      else Some(st.(tm := st.tm.(sec := Number(st).value), phase := ZoneHour, tmp := "", sign := 1))
    case SubSec => Some(st.(frac := Some(Fraction(st.tmp)), phase := ZoneHour, tmp := "", sign := 1))
    case _ => None
  }

  /** what follows "0." */
  function Fraction(tmp: string): string {
    if |tmp| >= 2 then tmp[2..] else ""
  }

  function Point(st: St): Option<St> {
    if st.phase != Sec || Number(st) == None then None
    else Some(st.(tm := st.tm.(sec := Number(st).value), phase := SubSec, tmp := "0."))
  }

  function Zulu(st: St): Option<St> {
    match st.phase
    case SubSec => Some(st.(frac := Some(Fraction(st.tmp)), phase := End, tmp := "", zoneHour := 0, zoneMin := 0))
    case Sec =>
      if Number(st) == None then None
      else Some(st.(tm := st.tm.(sec := Number(st).value), phase := End, tmp := "", zoneHour := 0, zoneMin := 0))
    case _ => None
  }

  /** the end of the string */
  function Stop(st: St): Option<St> {
    match Number(st)
    case None => None
    case Some(v) =>
      match st.phase
      case ZoneMin => Some(st.(zoneMin := v, phase := End, tmp := ""))
      case ZoneHour => Some(st.(zoneHour := v, phase := End, tmp := ""))
      case MDay => Some(st.(tm := st.tm.(mday := v), phase := End, tmp := ""))
      case Sec => Some(st.(tm := st.tm.(sec := v), phase := End, tmp := ""))
      case _ => None
  }

  function Digit(st: St, c: char): Option<St> {
    if |st.tmp| >= BUFFER_SIZE - 2 || (Limited(st.phase) && |st.tmp| > FieldLength(st.phase)) then None
    else Some(st.(tmp := st.tmp + [c]))
  }

  function Step(st: St, c: char): Option<St> {
    if c == '-' then Dash(st)
    else if c == 'T' || c == 't' then Tee(st)
    else if c == ':' then Colon(st)
    else if c == '+' then Plus(st)
    else if c == '.' then Point(st)
    else if c == 'Z' || c == 'z' then Zulu(st)
    else if IsDigit(c) then Digit(st, c)
    else None
  }

  function Run(st: St, s: string): Option<St>
    decreases |s|
  {
    if st.phase == End then Some(st)
    else if s == "" then Stop(st)
    else match Step(st, s[0]) case None => None case Some(st') => Run(st', s[1..])
  }

  datatype Time = Time(tm: Tm, frac: Option<string>)

  function Finish(st: St): Time {
    Time(st.tm.(gmtoff := (st.zoneHour * 3600 + st.zoneMin * 60) * st.sign), st.frac)
  }

  function Parse(s: string): Option<Time> {
    match Run(START, s) case None => None case Some(st) => Some(Finish(st))
  }

  /** date_parse_rfc3339_tm */
  method ParseTm(buf: string) returns (tm: Tm, frac: Option<string>, ret: int)
    ensures ret == if Parse(buf).Some? then 0 else -1
    ensures Parse(buf).Some? ==> Parse(buf).value == Time(tm, frac)
  {
    var i, tmp, state, zoneSign, zoneHour, zoneMin := 0, "", Year, 1, 0, 0;
    tm, frac := NO_TIME, None;
    while state != End
      invariant 0 <= i <= |buf| + 1 && (i > |buf| ==> state == End)
      invariant i <= |buf| ==> Run(St(state, tmp, tm, zoneSign, zoneHour, zoneMin, frac), buf[i..]) == Run(START, buf)
      invariant state == End ==> Run(START, buf) == Some(St(state, tmp, tm, zoneSign, zoneHour, zoneMin, frac))
      decreases |buf| + 1 - i
    {
      var v := Decimal.ScanInt(tmp);
      if i == |buf| {
        if v == None {
          return tm, frac, -1;
        }
        match state {
          case ZoneMin => zoneMin := v.value;
          case ZoneHour => zoneHour := v.value;
          case MDay => tm := tm.(mday := v.value);
          case Sec => tm := tm.(sec := v.value);
          case _ => return tm, frac, -1;
        }
        state, tmp := End, "";
      } else {
        var c := buf[i];
        assert buf[i..][0] == c && buf[i..][1..] == buf[i + 1..];
        if c == '-' {
          if v == None {
            return tm, frac, -1;
          }
          match state {
            case Year => tm, state := tm.(year := v.value - 1900), Mon;
            case Mon => tm, state := tm.(mon := v.value - 1), MDay;
            case Sec => tm, zoneSign, state := tm.(sec := v.value), -1, ZoneHour;
            case _ => return tm, frac, -1;
          }
          tmp := "";
        } else if c == 'T' || c == 't' {
          if state != MDay || v == None {
            return tm, frac, -1;
          }
          tm, state, tmp := tm.(mday := v.value), Hour, "";
        } else if c == ':' {
          if v == None {
            return tm, frac, -1;
          }
          match state {
            case Hour => tm, state := tm.(hour := v.value), Min;
            case Min => tm, state := tm.(min := v.value), Sec;
            case ZoneHour => zoneHour, state := v.value, ZoneMin;
            case _ => return tm, frac, -1;
          }
          tmp := "";
        } else if c == '+' {
          if state == Sec && v != None {
            tm := tm.(sec := v.value);
          } else if state == SubSec {
            frac := Some(Fraction(tmp));
          } else {
            return tm, frac, -1;
          }
          zoneSign, state, tmp := 1, ZoneHour, "";
        } else if c == '.' {
          if state != Sec || v == None {
            return tm, frac, -1;
          }
          tm, state, tmp := tm.(sec := v.value), SubSec, "0.";
        } else if c == 'Z' || c == 'z' {
          if state == SubSec {
            frac := Some(Fraction(tmp));
          } else if state == Sec && v != None {
            tm := tm.(sec := v.value);
          } else {
            return tm, frac, -1;
          }
          state, tmp, zoneHour, zoneMin := End, "", 0, 0;
        } else if IsDigit(c) {
          if |tmp| >= BUFFER_SIZE - 2 || (Limited(state) && |tmp| > FieldLength(state)) {
            return tm, frac, -1;
          }
          tmp := tmp + [c];
        } else {
          return tm, frac, -1;
        }
      }
      i := i + 1;
    }
    tm := tm.(gmtoff := (zoneHour * 3600 + zoneMin * 60) * zoneSign);
    ret := 0;
  }

  // ---- date-time of section 5.6 of RFC 3339 ----

  datatype Zone = Utc | Offset(negative: bool, hour: nat, minute: nat)

  /** secfrac is "" when there is no fraction; t and z are the letters written for T and Z. */
  datatype DateTime = DateTime(year: nat, month: nat, day: nat, hour: nat, minute: nat, second: nat,
                               secfrac: string, zone: Zone, t: char, z: char)

  function DaysIn(year: nat, month: nat): nat {
    if month == 2 then (if year % 4 == 0 && (year % 100 != 0 || year % 400 == 0) then 29 else 28)
    else if month in {4, 6, 9, 11} then 30 else 31
  }

  predicate Valid(d: DateTime) {
    && d.year <= 9999 && 1 <= d.month <= 12 && 1 <= d.day <= DaysIn(d.year, d.month)
    && d.hour <= 23 && d.minute <= 59 && d.second <= 60
    && Decimal.AllDigits(d.secfrac) && (d.zone.Offset? ==> d.zone.hour <= 23 && d.zone.minute <= 59)
    && (d.t == 'T' || d.t == 't') && (d.z == 'Z' || d.z == 'z')
  }

  function Two(n: nat): (s: string)
    requires n < 100
    ensures |s| == 2 && Decimal.AllDigits(s)
  {
    [Decimal.Digit(n / 10), Decimal.Digit(n % 10)]
  }

  function Four(n: nat): (s: string)
    requires n < 10000
    ensures |s| == 4 && Decimal.AllDigits(s)
  {
    [Decimal.Digit(n / 1000), Decimal.Digit(n / 100 % 10), Decimal.Digit(n / 10 % 10), Decimal.Digit(n % 10)]
  }

  function ZoneText(d: DateTime): string
    requires Valid(d)
  {
    match d.zone
    case Utc => [d.z]
    case Offset(negative, h, m) => (if negative then "-" else "+") + (Two(h) + (":" + Two(m)))
  }

  function SecondText(d: DateTime): string
    requires Valid(d)
  {
    Two(d.second) + ((if d.secfrac == "" then "" else "." + d.secfrac) + ZoneText(d))
  }

  /** date-time = full-date "T" full-time */
  function Text(d: DateTime): string
    requires Valid(d)
  {
    var time := Two(d.hour) + (":" + (Two(d.minute) + (":" + SecondText(d))));
    Four(d.year) + ("-" + (Two(d.month) + ("-" + (Two(d.day) + ([d.t] + time)))))
  }

  /** The offset from UTC in seconds. */
  function Seconds(z: Zone): int {
    match z
    case Utc => 0
    case Offset(negative, h, m) => if negative then -(h * 3600 + m * 60) else h * 3600 + m * 60
  }

  /** What the fields have to be: years from 1900, months from 0. */
  function Meaning(d: DateTime): Time {
    Time(Tm(d.year - 1900, d.month - 1, d.day, d.hour, d.minute, d.second, Seconds(d.zone)),
         if d.secfrac == "" then None else Some(d.secfrac))
  }

  /** The room for a fraction in the parser's buffer, behind "0." */
  const MAX_FRACTION := 124

  /** What the parser can read: there is no transition for '-' in a fraction. */
  predicate Readable(d: DateTime) {
    d.secfrac != "" ==> |d.secfrac| <= MAX_FRACTION && !(d.zone.Offset? && d.zone.negative)
  }

  // ---- numbers ----

  lemma {:induction false} RunOfDigits(s: string)
    requires Decimal.AllDigits(s)
    ensures Decimal.DigitRun(s) == |s|
  {
    if s != "" { RunOfDigits(s[1..]); }
  }

  lemma ScanDigits(s: string)
    requires s != "" && Decimal.AllDigits(s)
    ensures Decimal.ScanInt(s) == Some(Decimal.NatOf(s))
  {
    RunOfDigits(s);
    assert s[..|s|] == s;
    hide Decimal.NatOf, Decimal.DigitRun;
  }

  lemma NextDigit(s: string, d: nat)
    requires Decimal.AllDigits(s) && d < 10
    ensures Decimal.AllDigits(s + [Decimal.Digit(d)])
    ensures Decimal.NatOf(s + [Decimal.Digit(d)]) == Decimal.NatOf(s) * 10 + d
  {
    assert (s + [Decimal.Digit(d)])[..|s|] == s;
  }

  lemma TwoValue(n: nat)
    requires n < 100
    ensures Decimal.ScanInt(Two(n)) == Some(n)
  {
    hide Decimal.ScanInt, Decimal.Digit;
    ScanDigits(Two(n));
    NextDigit("", n / 10);
    NextDigit("" + [Decimal.Digit(n / 10)], n % 10);
    assert Two(n) == "" + [Decimal.Digit(n / 10)] + [Decimal.Digit(n % 10)];
  }

  lemma FourNat(a: nat, b: nat, c: nat, d: nat)
    requires a < 10 && b < 10 && c < 10 && d < 10
    ensures Decimal.NatOf([Decimal.Digit(a), Decimal.Digit(b), Decimal.Digit(c), Decimal.Digit(d)])
         == a * 1000 + b * 100 + c * 10 + d
  {
    hide Decimal.Digit, Decimal.NatOf;
    var s1 := [Decimal.Digit(a)];
    var s2 := s1 + [Decimal.Digit(b)];
    var s3 := s2 + [Decimal.Digit(c)];
    NextDigit("", a);
    NextDigit(s1, b);
    NextDigit(s2, c);
    NextDigit(s3, d);
    assert "" + s1 == s1 && Decimal.NatOf("") == 0 by { NoDigits(); }
    assert [Decimal.Digit(a), Decimal.Digit(b), Decimal.Digit(c), Decimal.Digit(d)] == s3 + [Decimal.Digit(d)];
  }

  lemma NoDigits()
    ensures Decimal.NatOf("") == 0
  {}

  lemma Places(n: nat)
    requires n < 10000
    ensures n == n / 1000 * 1000 + n / 100 % 10 * 100 + n / 10 % 10 * 10 + n % 10
  {
    var a, b := n / 10, n / 100;
    assert n == a * 10 + n % 10 && a == b * 10 + a % 10;
    assert n / 100 == a / 10 && n / 1000 == b / 10;
  }

  lemma FourValue(n: nat)
    requires n < 10000
    ensures Decimal.ScanInt(Four(n)) == Some(n)
  {
    hide Decimal.ScanInt, Decimal.Digit, Decimal.NatOf;
    ScanDigits(Four(n));
    FourNat(n / 1000, n / 100 % 10, n / 10 % 10, n % 10);
    Places(n);
  }

  // ---- the run ----

  /** Digits are collected as long as there is room. */
  lemma {:induction false} Collect(st: St, d: string, rest: string)
    requires Decimal.AllDigits(d) && st.phase != End && |st.tmp| + |d| <= BUFFER_SIZE - 2
    requires Limited(st.phase) ==> |st.tmp| + |d| <= FieldLength(st.phase)
    ensures Run(st, d + rest) == Run(st.(tmp := st.tmp + d), rest)
    decreases |d|
  {
    if d == "" {
      assert d + rest == rest && st.tmp + d == st.tmp;
    } else {
      assert (d + rest)[0] == d[0] && (d + rest)[1..] == d[1..] + rest;
      assert st.tmp + [d[0]] + d[1..] == st.tmp + d;
      Collect(st.(tmp := st.tmp + [d[0]]), d[1..], rest);
    }
  }

  lemma Take(st: St, c: char, rest: string)
    requires st.phase != End
    ensures Run(st, [c] + rest) == match Step(st, c) case None => None case Some(st') => Run(st', rest)
  {
    assert ([c] + rest)[0] == c && ([c] + rest)[1..] == rest;
  }

  /** The fields up to the seconds. */
  function AtSeconds(d: DateTime): St {
    St(Sec, "", Tm(d.year - 1900, d.month - 1, d.day, d.hour, d.minute, 0, 0), 1, 0, 0, None)
  }

  lemma UpToDay(d: DateTime, rest: string)
    requires Valid(d)
    ensures Run(START, Four(d.year) + ("-" + (Two(d.month) + ("-" + (Two(d.day) + ([d.t] + rest))))))
         == Run(St(Hour, "", NO_TIME.(year := d.year - 1900, mon := d.month - 1, mday := d.day), 1, 0, 0, None), rest)
  {
    hide Run, Two, Four, Decimal.ScanInt;
    Days(d);
    FourValue(d.year);
    TwoValue(d.month);
    TwoValue(d.day);
    var tm := NO_TIME.(year := d.year - 1900);
    var s3 := Two(d.day) + ([d.t] + rest);
    var s2 := Two(d.month) + ("-" + s3);
    Collect(START, Four(d.year), "-" + s2);
    assert "" + Four(d.year) == Four(d.year) && "" + Two(d.month) == Two(d.month) && "" + Two(d.day) == Two(d.day);
    Take(START.(tmp := Four(d.year)), '-', s2);
    var st2 := St(Mon, "", tm, 1, 0, 0, None);
    Collect(st2, Two(d.month), "-" + s3);
    Take(st2.(tmp := Two(d.month)), '-', s3);
    var st3 := St(MDay, "", tm.(mon := d.month - 1), 1, 0, 0, None);
    Collect(st3, Two(d.day), [d.t] + rest);
    Take(st3.(tmp := Two(d.day)), d.t, rest);
  }

  lemma Days(d: DateTime)
    requires Valid(d)
    ensures d.day < 100
  {}

  lemma UpToSeconds(d: DateTime, rest: string)
    requires Valid(d)
    ensures Run(St(Hour, "", NO_TIME.(year := d.year - 1900, mon := d.month - 1, mday := d.day), 1, 0, 0, None),
                Two(d.hour) + (":" + (Two(d.minute) + (":" + rest))))
         == Run(AtSeconds(d), rest)
  {
    hide Run, Two, Decimal.ScanInt;
    TwoValue(d.hour);
    TwoValue(d.minute);
    var tm := NO_TIME.(year := d.year - 1900, mon := d.month - 1, mday := d.day);
    var s2 := Two(d.minute) + (":" + rest);
    var st1, st2 := St(Hour, "", tm, 1, 0, 0, None), St(Min, "", tm.(hour := d.hour), 1, 0, 0, None);
    assert "" + Two(d.hour) == Two(d.hour) && "" + Two(d.minute) == Two(d.minute);
    Collect(st1, Two(d.hour), ":" + s2);
    Take(st1.(tmp := Two(d.hour)), ':', s2);
    Collect(st2, Two(d.minute), ":" + rest);
    Take(st2.(tmp := Two(d.minute)), ':', rest);
  }

  /** The offset behind its sign. */
  lemma ReadOffset(st: St, h: nat, m: nat)
    requires st.phase == ZoneHour && st.tmp == "" && h < 100 && m < 100
    ensures Run(st, Two(h) + (":" + Two(m))) == Some(st.(zoneHour := h, zoneMin := m, phase := End, tmp := ""))
  {
    hide Two, Decimal.ScanInt;
    TwoValue(h);
    TwoValue(m);
    assert "" + Two(h) == Two(h) && "" + Two(m) == Two(m) && Two(m) + "" == Two(m);
    Collect(st, Two(h), ":" + Two(m));
    Take(st.(tmp := Two(h)), ':', Two(m));
    Collect(st.(zoneHour := h, phase := ZoneMin), Two(m), "");
  }

  /** The seconds without a fraction, and the zone. */
  lemma ReadPlain(d: DateTime)
    requires Valid(d) && d.secfrac == ""
    ensures Run(AtSeconds(d), SecondText(d)).Some?
    ensures Finish(Run(AtSeconds(d), SecondText(d)).value) == Meaning(d)
  {
    hide Run, Two, Decimal.ScanInt;
    TwoValue(d.second);
    var st := AtSeconds(d);
    assert "" + Two(d.second) == Two(d.second) && "" + ZoneText(d) == ZoneText(d);
    Collect(st, Two(d.second), ZoneText(d));
    var st' := st.(tmp := Two(d.second));
    if d.zone.Utc? {
      Take(st', d.z, "");
      assert [d.z] + "" == [d.z];
      Ended(st'.(tm := st'.tm.(sec := d.second), phase := End, tmp := ""));
    } else {
      Take(st', if d.zone.negative then '-' else '+', Two(d.zone.hour) + (":" + Two(d.zone.minute)));
      ReadOffset(st'.(tm := st'.tm.(sec := d.second), phase := ZoneHour, tmp := "",
                 sign := if d.zone.negative then -1 else 1),
                 d.zone.hour, d.zone.minute);
    }
  }

  lemma Ended(st: St)
    requires st.phase == End
    ensures Run(st, "") == Some(st)
  {}

  /** The seconds and the point in front of a fraction. */
  lemma ReadPointOf(d: DateTime)
    requires Valid(d) && d.secfrac != ""
    ensures Run(AtSeconds(d), SecondText(d))
         == Run(AtSeconds(d).(tm := AtSeconds(d).tm.(sec := d.second), phase := SubSec, tmp := "0."),
                d.secfrac + ZoneText(d))
  {
    hide Run, Two, Decimal.ScanInt, ZoneText;
    TwoValue(d.second);
    var st, tail := AtSeconds(d), d.secfrac + ZoneText(d);
    assert "" + Two(d.second) == Two(d.second);
    assert ("." + d.secfrac) + ZoneText(d) == "." + tail;
    Collect(st, Two(d.second), "." + tail);
    Take(st.(tmp := Two(d.second)), '.', tail);
  }

  lemma ReadFraction(d: DateTime)
    requires Valid(d) && d.secfrac != "" && |d.secfrac| <= MAX_FRACTION
    ensures Run(AtSeconds(d), SecondText(d)).Some? <==> !(d.zone.Offset? && d.zone.negative)
    ensures Run(AtSeconds(d), SecondText(d)).Some? ==> Finish(Run(AtSeconds(d), SecondText(d)).value) == Meaning(d)
  {
    hide Run, Two, Decimal.ScanInt;
    ReadPointOf(d);
    var st := AtSeconds(d).(tm := AtSeconds(d).tm.(sec := d.second), phase := SubSec, tmp := "0.");
    Collect(st, d.secfrac, ZoneText(d));
    var st' := st.(tmp := "0." + d.secfrac);
    assert st'.tmp[2..] == d.secfrac;
    if d.zone.Utc? {
      Take(st', d.z, "");
      assert [d.z] + "" == [d.z];
      Ended(st'.(frac := Some(d.secfrac), phase := End, tmp := ""));
    } else {
      Take(st', if d.zone.negative then '-' else '+', Two(d.zone.hour) + (":" + Two(d.zone.minute)));
      ReadOffset(st'.(frac := Some(d.secfrac), phase := ZoneHour, tmp := "", sign := 1), d.zone.hour, d.zone.minute);
    }
  }

  /** A fraction that overruns the buffer is refused. */
  lemma RefuseLong(d: DateTime)
    requires Valid(d) && |d.secfrac| > MAX_FRACTION
    ensures Run(AtSeconds(d), SecondText(d)) == None
  {
    hide Run, Two, ZoneText;
    ReadPointOf(d);
    var st := AtSeconds(d).(tm := AtSeconds(d).tm.(sec := d.second), phase := SubSec, tmp := "0.");
    var head, c, tail := d.secfrac[..MAX_FRACTION], d.secfrac[MAX_FRACTION], d.secfrac[MAX_FRACTION + 1..];
    assert d.secfrac + ZoneText(d) == head + ([c] + (tail + ZoneText(d)));
    Collect(st, head, [c] + (tail + ZoneText(d)));
    Take(st.(tmp := "0." + head), c, tail + ZoneText(d));
  }

  /** Every date-time of RFC 3339 is parsed to its exact fields, if and only if it is Readable. */
  lemma ParseText(d: DateTime)
    requires Valid(d)
    ensures Parse(Text(d)) == if Readable(d) then Some(Meaning(d)) else None
  {
    hide Run, Two, Four, SecondText, Meaning;
    Days(d);
    UpToDay(d, Two(d.hour) + (":" + (Two(d.minute) + (":" + SecondText(d)))));
    UpToSeconds(d, SecondText(d));
    if d.secfrac == "" {
      ReadPlain(d);
    } else if |d.secfrac| <= MAX_FRACTION {
      ReadFraction(d);
    } else {
      RefuseLong(d);
    }
  }
}
