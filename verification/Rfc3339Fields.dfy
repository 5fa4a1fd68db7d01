/** Everything the RFC 3339 parser accepts, field by field and without its states: fields one digit too long,
    dates without a time, times without a zone, offsets without minutes, and anything behind a Z. */
module Rfc3339Fields {
  import opened CStrings
  import opened Rfc3339
  import Decimal

  /** A number of at least one and at most `most` digits, and what follows its digits. */
  datatype Field = Field(value: nat, rest: string) | NoField

  function ReadField(s: string, most: nat): (f: Field)
    ensures f.Field? ==> |f.rest| < |s|
  {
    var n := Decimal.DigitRun(s);
    if 1 <= n <= most then Field(Decimal.NatOf(s[..n]), s[n..]) else NoField
  }

  function Next(s: string, c: set<char>): bool {
    s != "" && s[0] in c
  }

  /** Years, months and days, and the time if there is one. */
  function ReadDate(s: string): Option<Time> {
    var y := ReadField(s, 5);
    if y.NoField? || !Next(y.rest, {'-'}) then None
    else
      var m := ReadField(y.rest[1..], 3);
      if m.NoField? || !Next(m.rest, {'-'}) then None
      else
        var d := ReadField(m.rest[1..], 3);
        var tm := Tm(y.value - 1900, m.value - 1, if d.Field? then d.value else 0, 0, 0, 0, 0);
        if d.NoField? then None
        else if d.rest == "" then Some(Time(tm, None))
        else if d.rest[0] in {'T', 't'} then ReadTime(d.rest[1..], tm) else None
  }

  function ReadTime(s: string, tm: Tm): Option<Time> {
    var h := ReadField(s, 3);
    if h.NoField? || !Next(h.rest, {':'}) then None
    else
      var m := ReadField(h.rest[1..], 3);
      if m.NoField? || !Next(m.rest, {':'}) then None
      else
        var sec := ReadField(m.rest[1..], 3);
        if sec.NoField? then None
        else
          var t := tm.(hour := h.value, min := m.value, sec := sec.value);
          if sec.rest == "" || sec.rest[0] in {'Z', 'z'} then Some(Time(t, None))
          else if sec.rest[0] == '+' then ReadZone(sec.rest[1..], 1, t, None)
          else if sec.rest[0] == '-' then ReadZone(sec.rest[1..], -1, t, None)
          else if sec.rest[0] == '.' then ReadFractionEnd(sec.rest[1..], t)
          else None
  }

  /** Behind the point: up to 124 digits, and a Z or a '+'. */
  function ReadFractionEnd(s: string, t: Tm): Option<Time> {
    var n := Decimal.DigitRun(s);
    if n > 124 || n == |s| then None
    else if s[n] in {'Z', 'z'} then Some(Time(t, Some(s[..n])))
    else if s[n] == '+' then ReadZone(s[n + 1..], 1, t, Some(s[..n]))
    else None
  }

  function ReadZone(s: string, sign: int, t: Tm, frac: Option<string>): Option<Time> {
    var h := ReadField(s, 126);
    if h.NoField? then None
    else if h.rest == "" then Some(Time(t.(gmtoff := h.value * 3600 * sign), frac))
    else if h.rest[0] != ':' then None
    else
      var m := ReadField(h.rest[1..], 126);
      if m.NoField? || m.rest != "" then None
      else Some(Time(t.(gmtoff := (h.value * 3600 + m.value * 60) * sign), frac))
  }

  // ---- the state machine does the same ----

  /** How many characters a phase takes before it refuses another digit. */
  function Most(p: Phase): nat {
    if p == Year then 5 else if p in {Mon, MDay, Hour, Min, Sec} then 3 else 126
  }

  /** A run of digits is collected, or refused as too long. */
  lemma {:induction false} Collect(st: St, s: string)
    requires st.phase != End && |st.tmp| <= Most(st.phase)
    ensures var n := Decimal.DigitRun(s);
            Run(st, s) == if |st.tmp| + n > Most(st.phase) then None else Run(st.(tmp := st.tmp + s[..n]), s[n..])
    decreases |s|
  {
    hide Dash, Tee, Colon, Plus, Point, Zulu, Stop;
    var n := Decimal.DigitRun(s);
    if n == 0 {
      assert st.tmp + s[..0] == st.tmp && s[0..] == s;
    } else {
      assert n == 1 + Decimal.DigitRun(s[1..]);
      if |st.tmp| < Most(st.phase) {
        var st' := st.(tmp := st.tmp + [s[0]]);
        assert Step(st, s[0]) == Some(st');
        Collect(st', s[1..]);
        assert st'.tmp + s[1..][..n - 1] == st.tmp + s[..n] && s[1..][n - 1..] == s[n..];
      }
    }
  }

  lemma NoDigit(s: string)
    ensures var n := Decimal.DigitRun(s); n <= |s| && (s[n..] != "" ==> !IsDigit(s[n..][0]))
  {}

  /** A field from its first digit on. */
  lemma Fielded(st: St, s: string)
    requires st.phase != End && st.tmp == ""
    ensures var n := Decimal.DigitRun(s);
            && (n > Most(st.phase) ==> Run(st, s) == None)
            && (n <= Most(st.phase) ==> Run(st, s) == Run(st.(tmp := s[..n]), s[n..]))
            && (1 <= n ==> Number(st.(tmp := s[..n])) == Some(Decimal.NatOf(s[..n])))
            && (n == 0 ==> Number(st.(tmp := s[..n])) == None)
  {
    var n := Decimal.DigitRun(s);
    Collect(st, s);
    assert st.tmp + s[..n] == s[..n];
    if n > 0 { ScanDigits(s[..n]); }
  }

  /** The next character, which is no digit, or the end. */
  lemma Moves(st: St, s: string)
    requires st.phase != End
    ensures s == "" ==> Run(st, s) == Stop(st)
    ensures s != "" ==> Run(st, s) == match Step(st, s[0]) case None => None case Some(st') => Run(st', s[1..])
  {}

  lemma Ended(st: St, s: string)
    requires st.phase == End
    ensures Run(st, s) == Some(st)
  {}

  function Finished(r: Option<St>): Option<Time> {
    match r case None => None case Some(st) => Some(Finish(st))
  }

  lemma ZoneRead(st: St, s: string)
    requires st.phase == ZoneHour && st.tmp == "" && st.zoneHour == st.zoneMin == 0 && st.sign in {1, -1}
    ensures ReadZone(s, st.sign, st.tm, st.frac) == Finished(Run(st, s))
  {
    hide Run, Decimal.NatOf;
    var n := Decimal.DigitRun(s);
    Fielded(st, s);
    NoDigit(s);
    var st1, r1 := st.(tmp := s[..n]), s[n..];
    if 1 <= n <= 126 {
      Moves(st1, r1);
      var st2 := st1.(zoneHour := Decimal.NatOf(s[..n]), tmp := "");
      if r1 == "" {
        Ended(st2.(phase := End), r1);
      } else if r1[0] == ':' {
        assert Step(st1, ':') == Some(st2.(phase := ZoneMin));
        MinutesRead(st2.(phase := ZoneMin), r1[1..]);
      }
    } else if n == 0 {
      Moves(st1, r1);
    }
  }

  lemma MinutesRead(st: St, s: string)
    requires st.phase == ZoneMin && st.tmp == ""
    ensures var f := ReadField(s, 126);
            Run(st, s) == if f.NoField? || f.rest != "" then None
            else Some(st.(zoneMin := f.value, phase := End))
  {
    hide Run, Decimal.NatOf;
    var n := Decimal.DigitRun(s);
    Fielded(st, s);
    NoDigit(s);
    var st1, r1 := st.(tmp := s[..n]), s[n..];
    if n <= 126 { Moves(st1, r1); }
  }

  lemma FractionRead(st: St, s: string)
    requires st.phase == SubSec && st.tmp == "0." && st.zoneHour == st.zoneMin == 0 && st.tm.gmtoff == 0
    ensures ReadFractionEnd(s, st.tm) == Finished(Run(st, s))
  {
    hide Run, Decimal.NatOf;
    var n := Decimal.DigitRun(s);
    Collect(st, s);
    NoDigit(s);
    var st1, r1 := st.(tmp := "0." + s[..n]), s[n..];
    if n <= 124 {
      Moves(st1, r1);
      assert Fraction(st1.tmp) == s[..n];
      if r1 != "" && r1[0] in {'Z', 'z'} {
        Ended(st1.(frac := Some(s[..n]), phase := End, tmp := ""), r1[1..]);
      } else if r1 != "" && r1[0] == '+' {
        ZoneRead(st1.(frac := Some(s[..n]), phase := ZoneHour, tmp := "", sign := 1), r1[1..]);
      }
    }
  }

  lemma SecondsRead(st: St, s: string)
    requires st.phase == Sec && st.tmp == "" && st.zoneHour == st.zoneMin == 0 && st.tm.gmtoff == 0 && st.frac == None
    ensures var sec := ReadField(s, 3);
            var t := st.tm.(sec := if sec.Field? then sec.value else 0);
            Finished(Run(st, s))
            == if sec.NoField? then None
            else if sec.rest == "" || sec.rest[0] in {'Z', 'z'} then Some(Time(t, None))
            else if sec.rest[0] == '+' then ReadZone(sec.rest[1..], 1, t, None)
            else if sec.rest[0] == '-' then ReadZone(sec.rest[1..], -1, t, None)
            else if sec.rest[0] == '.' then ReadFractionEnd(sec.rest[1..], t)
            else None
  {
    hide Run, Decimal.NatOf, ReadZone, ReadFractionEnd;
    var n := Decimal.DigitRun(s);
    Fielded(st, s);
    NoDigit(s);
    var st1, r1 := st.(tmp := s[..n]), s[n..];
    if 1 <= n <= 3 {
      Moves(st1, r1);
      var st2 := st.(tm := st.tm.(sec := Decimal.NatOf(s[..n])), tmp := "");
      if r1 == "" || r1[0] in {'Z', 'z'} {
        Ended(st2.(phase := End), if r1 == "" then "" else r1[1..]);
      } else if r1[0] in {'+', '-'} {
        ZoneRead(st2.(phase := ZoneHour, sign := if r1[0] == '+' then 1 else -1), r1[1..]);
      } else if r1[0] == '.' {
        FractionRead(st2.(phase := SubSec, tmp := "0."), r1[1..]);
      }
    } else if n == 0 {
      Moves(st1, r1);
    }
  }

  lemma TimeRead(st: St, s: string)
    requires st.phase == Hour && st.tmp == "" && st.zoneHour == st.zoneMin == 0 && st.tm.gmtoff == 0 && st.frac == None
    ensures ReadTime(s, st.tm) == Finished(Run(st, s))
  {
    hide Run, Decimal.NatOf, ReadZone, ReadFractionEnd;
    var n := Decimal.DigitRun(s);
    Fielded(st, s);
    NoDigit(s);
    var st1, r1 := st.(tmp := s[..n]), s[n..];
    if n <= 3 { Moves(st1, r1); }
    if 1 <= n <= 3 && Next(r1, {':'}) {
      var st2 := st.(tm := st.tm.(hour := Decimal.NatOf(s[..n])), phase := Min);
      MinuteRead(st2, r1[1..]);
    }
  }

  lemma MinuteRead(st: St, s: string)
    requires st.phase == Min && st.tmp == "" && st.zoneHour == st.zoneMin == 0 && st.tm.gmtoff == 0 && st.frac == None
    ensures var m := ReadField(s, 3);
            Finished(Run(st, s))
            == if m.NoField? || !Next(m.rest, {':'}) then None
            else Finished(Run(st.(tm := st.tm.(min := m.value), phase := Sec), m.rest[1..]))
    ensures var m := ReadField(s, 3);
            m.Field? && Next(m.rest, {':'}) ==>
              var sec := ReadField(m.rest[1..], 3);
              var t := st.tm.(min := m.value).(sec := if sec.Field? then sec.value else 0);
              Finished(Run(st, s))
              == if sec.NoField? then None
              else if sec.rest == "" || sec.rest[0] in {'Z', 'z'} then Some(Time(t, None))
              else if sec.rest[0] == '+' then ReadZone(sec.rest[1..], 1, t, None)
              else if sec.rest[0] == '-' then ReadZone(sec.rest[1..], -1, t, None)
              else if sec.rest[0] == '.' then ReadFractionEnd(sec.rest[1..], t)
              else None
  {
    hide Run, Decimal.NatOf, ReadZone, ReadFractionEnd;
    var n := Decimal.DigitRun(s);
    Fielded(st, s);
    NoDigit(s);
    var st1, r1 := st.(tmp := s[..n]), s[n..];
    if n <= 3 { Moves(st1, r1); }
    if 1 <= n <= 3 && Next(r1, {':'}) {
      SecondsRead(st.(tm := st.tm.(min := Decimal.NatOf(s[..n])), phase := Sec), r1[1..]);
    }
  }

  lemma DayRead(st: St, s: string)
    requires st.phase == MDay && st.tmp == "" && st.zoneHour == st.zoneMin == 0 && st.tm.gmtoff == 0 && st.frac == None
    ensures var d := ReadField(s, 3);
            var tm := st.tm.(mday := if d.Field? then d.value else 0);
            Finished(Run(st, s))
            == if d.NoField? then None
            else if d.rest == "" then Some(Time(tm, None))
            else if d.rest[0] in {'T', 't'} then ReadTime(d.rest[1..], tm) else None
  {
    hide Run, Decimal.NatOf, ReadTime;
    var n := Decimal.DigitRun(s);
    Fielded(st, s);
    NoDigit(s);
    var st1, r1 := st.(tmp := s[..n]), s[n..];
    if n <= 3 { Moves(st1, r1); }
    if 1 <= n <= 3 {
      var st2 := st.(tm := st.tm.(mday := Decimal.NatOf(s[..n])));
      if r1 == "" {
        Ended(st2.(phase := End), "");
      } else if r1[0] in {'T', 't'} {
        TimeRead(st2.(phase := Hour), r1[1..]);
      }
    }
  }

  lemma MonthRead(st: St, s: string)
    requires st.phase == Mon && st.tmp == ""
    ensures var m := ReadField(s, 3);
            Run(st, s) == if m.NoField? || !Next(m.rest, {'-'}) then None
            else Run(st.(tm := st.tm.(mon := m.value - 1), phase := MDay), m.rest[1..])
  {
    hide Run, Decimal.NatOf;
    var n := Decimal.DigitRun(s);
    Fielded(st, s);
    NoDigit(s);
    if n <= 3 { Moves(st.(tmp := s[..n]), s[n..]); }
  }

  lemma YearRead(s: string)
    ensures var y := ReadField(s, 5);
            Run(START, s) == if y.NoField? || !Next(y.rest, {'-'}) then None
            else Run(START.(tm := NO_TIME.(year := y.value - 1900), phase := Mon), y.rest[1..])
  {
    hide Run, Decimal.NatOf;
    var n := Decimal.DigitRun(s);
    Fielded(START, s);
    NoDigit(s);
    if n <= 5 { Moves(START.(tmp := s[..n]), s[n..]); }
  }

  /** On every string the parser accepts, refuses and sets the fields just as this reader does. */
  lemma ParseIsReadDate(s: string)
    ensures Parse(s) == ReadDate(s)
  {
    hide Run, Decimal.NatOf, ReadTime, ReadField;
    YearRead(s);
    var y := ReadField(s, 5);
    if y.Field? && Next(y.rest, {'-'}) {
      var st := START.(tm := NO_TIME.(year := y.value - 1900), phase := Mon);
      MonthRead(st, y.rest[1..]);
      var m := ReadField(y.rest[1..], 3);
      if m.Field? && Next(m.rest, {'-'}) {
        DayRead(st.(tm := st.tm.(mon := m.value - 1), phase := MDay), m.rest[1..]);
      }
    }
  }
}
