/** `formatTime(seconds)`: elapsed seconds shown as hours, minutes and
    seconds with the Japanese unit markers 時間, 分 and 秒, the hours part
    only when there is at least one hour. */
module TimeFormat {
  import opened Decimal
  import opened Wrappers

  const HourMark: string := "時間"
  const MinuteMark: string := "分"
  const SecondMark: string := "秒"

  /** JavaScript's `%` for a positive divisor: the remainder takes the sign
      of the dividend. */
  function JsRem(a: int, b: int): (r: int)
    requires b > 0
    ensures a >= 0 ==> 0 <= r < b
    ensures a < 0 ==> -b < r <= 0
    ensures a == (if a >= 0 then a / b else -((-a) / b)) * b + r
  {
    if a >= 0 then a % b
    else
      assert -a == ((-a) / b) * b + (-a) % b;
      -((-a) % b)
  }

  datatype Clock = Clock(hours: int, minutes: int, secs: int)

  /** The three numbers `formatTime` computes: the whole hours, the whole
      minutes left over, and the seconds left over, each with JavaScript's
      `%` for the remainders. */
  function Split(seconds: int): (c: Clock)
    ensures seconds >= 0 ==>
      && c.hours * 3600 + c.minutes * 60 + c.secs == seconds
      && c.hours >= 0 && 0 <= c.minutes < 60 && 0 <= c.secs < 60
    ensures c.hours > 0 <==> seconds >= 3600
  {
    Clock(seconds / 3600, JsRem(seconds, 3600) / 60, JsRem(seconds, 60))
  }

  /** Any split with minutes and seconds below 60 is the one `Split` makes:
      the decomposition is unique. */
  lemma SplitUnique(seconds: nat, h: nat, m: nat, s: nat)
    requires m < 60 && s < 60 && h * 3600 + m * 60 + s == seconds
    ensures Split(seconds) == Clock(h, m, s)
  {
    var c := Split(seconds);
    assert (h - c.hours) * 3600 == (c.minutes - m) * 60 + (c.secs - s);
    assert h == c.hours;
    assert (m - c.minutes) * 60 == c.secs - s;
  }

  /** The displayed text. */
  function FormatTime(seconds: int): string {
    var c := Split(seconds);
    var minutesPart := IntToString(c.minutes) + (MinuteMark + (IntToString(c.secs) + SecondMark));
    if c.hours > 0 then IntToString(c.hours) + (HourMark + minutesPart) else minutesPart
  }

  /** The display of given hours, minutes and seconds. */
  function Show(h: nat, m: nat, sec: nat): string {
    if h > 0 then ShowHours(NatToString(h), ShowMinutes(NatToString(m), NatToString(sec)))
    else ShowMinutes(NatToString(m), NatToString(sec))
  }

  function ShowHours(h: string, minutesPart: string): string {
    h + (HourMark + minutesPart)
  }

  function ShowMinutes(m: string, sec: string): string {
    m + (MinuteMark + (sec + SecondMark))
  }

  /** Reads the hours, minutes and seconds back from a display: digits,
      `時間`, digits, `分`, digits, `秒`, with the hours part optional (an
      absent hours part reads as zero hours). */
  function ReadClock(t: string): Option<Clock> {
    ReadClockAt(t, DigitRun(t, 10))
  }

  /** `k` is the length of the leading digit run of `t`. */
  function ReadClockAt(t: string, k: nat): Option<Clock>
    requires k <= |t|
  {
    if 0 < k && k + |HourMark| <= |t| && t[k..k + |HourMark|] == HourMark then
      match ReadMinutes(t[k + |HourMark|..])
      case Some(c) => Some(HoursOf(t[..k], c))
      case None => None
    else ReadMinutes(t)
  }

  function ReadMinutes(t: string): Option<Clock> {
    ReadMinutesAt(t, DigitRun(t, 10))
  }

  function ReadMinutesAt(t: string, k: nat): Option<Clock>
    requires k <= |t|
  {
    if 0 < k && k + |MinuteMark| <= |t| && t[k..k + |MinuteMark|] == MinuteMark then
      ReadSeconds(t[..k], t[k + |MinuteMark|..])
    else None
  }

  /** The seconds digits and `秒` closing the text, after minutes `m`. */
  function ReadSeconds(m: string, rest: string): Option<Clock> {
    var j := DigitRun(rest, 10);
    if 0 < j && rest[j..] == SecondMark then Some(MinutesOf(m, rest[..j])) else None
  }

  function HoursOf(h: string, c: Clock): Clock {
    c.(hours := ValueIn(h, 10))
  }

  function MinutesOf(m: string, sec: string): Clock {
    Clock(0, ValueIn(m, 10), ValueIn(sec, 10))
  }

  /** The number of seconds a display stands for. */
  function ReadTime(t: string): Option<int> {
    match ReadClock(t)
    case Some(c) => Some(c.hours * 3600 + c.minutes * 60 + c.secs)
    case None => None
  }

  /** The display reads back as the clock `Split` makes of the elapsed
      seconds: the numbers shown are its hours, minutes and seconds, and
      together they stand for the elapsed seconds. */
  lemma FormatReadsBack(seconds: nat)
    ensures ReadClock(FormatTime(seconds)) == Some(Split(seconds))
    ensures ReadTime(FormatTime(seconds)) == Some(seconds)
  {
    var c := Split(seconds);
    assert ReadClock(FormatTime(seconds)) == Some(c) by {
      FormatIsShow(seconds);
      ReadShow(c.hours, c.minutes, c.secs);
    }
    ReadTimeOfClock(FormatTime(seconds), c);
  }

  lemma ReadShow(h: nat, m: nat, sec: nat)
    ensures ReadClock(Show(h, m, sec)) == Some(Clock(h, m, sec))
  {
    if h > 0 {
      ReadShowHours(h, m, sec);
    } else {
      ReadShowMinutes(m, sec);
    }
  }

  lemma ReadTimeOfClock(t: string, c: Clock)
    requires ReadClock(t) == Some(c)
    ensures ReadTime(t) == Some(c.hours * 3600 + c.minutes * 60 + c.secs)
  {
  }

  lemma ReadShowHours(h: nat, m: nat, sec: nat)
    requires h > 0
    ensures ReadClock(Show(h, m, sec)) == Some(Clock(h, m, sec))
  {
    var ht, mt, st := NatToString(h), NatToString(m), NatToString(sec);
    assert Show(h, m, sec) == ShowHours(ht, ShowMinutes(mt, st));
    assert ReadClock(ShowHours(ht, ShowMinutes(mt, st))) == Some(HoursOf(ht, MinutesOf(mt, st))) by {
      ReadHours(ht, mt, st);
    }
    assert HoursOf(ht, MinutesOf(mt, st)) == Clock(h, m, sec) by {
      MinutesOfNat(m, sec);
      HoursOfNat(h, Clock(0, m, sec));
    }
  }

  lemma ReadShowMinutes(m: nat, sec: nat)
    ensures ReadClock(Show(0, m, sec)) == Some(Clock(0, m, sec))
  {
    var mt, st := NatToString(m), NatToString(sec);
    assert Show(0, m, sec) == ShowMinutes(mt, st);
    assert ReadClock(ShowMinutes(mt, st)) == Some(MinutesOf(mt, st)) by {
      ReadNoHours(mt, st);
    }
    assert MinutesOf(mt, st) == Clock(0, m, sec) by {
      MinutesOfNat(m, sec);
    }
  }

  lemma HoursOfNat(h: nat, c: Clock)
    ensures HoursOf(NatToString(h), c) == c.(hours := h)
  {
    ValueOfNatToString(h);
  }

  lemma MinutesOfNat(m: nat, sec: nat)
    ensures MinutesOf(NatToString(m), NatToString(sec)) == Clock(0, m, sec)
  {
    ValueOfNatToString(m);
    ValueOfNatToString(sec);
  }

  lemma ReadHours(ht: string, mt: string, st: string)
    requires AllDigits(ht) && AllDigits(mt) && AllDigits(st)
    requires |ht| > 0 && |mt| > 0 && |st| > 0
    ensures ReadClock(ShowHours(ht, ShowMinutes(mt, st))) == Some(HoursOf(ht, MinutesOf(mt, st)))
  {
    var ms := ShowMinutes(mt, st);
    DigitRunStops(ht, HourMark + ms);
    ShowHoursParts(ht, ms);
    ReadMinutesOf(mt, st);
  }

  lemma ShowHoursParts(ht: string, ms: string)
    ensures var t := ShowHours(ht, ms);
      && t[..|ht|] == ht
      && t[|ht|..|ht| + |HourMark|] == HourMark
      && t[|ht| + |HourMark|..] == ms
  {
  }

  lemma ReadNoHours(mt: string, st: string)
    requires AllDigits(mt) && AllDigits(st) && |mt| > 0 && |st| > 0
    ensures ReadClock(ShowMinutes(mt, st)) == Some(MinutesOf(mt, st))
  {
    DigitRunStops(mt, MinuteMark + (st + SecondMark));
    NoHourMarkAfter(mt, st);
    ReadMinutesOf(mt, st);
  }

  /** After the first number of a display without hours comes `分`, not `時間`. */
  lemma NoHourMarkAfter(mt: string, st: string)
    ensures var t := ShowMinutes(mt, st);
      !(|mt| + |HourMark| <= |t| && t[|mt|..|mt| + |HourMark|] == HourMark)
  {
    var t := ShowMinutes(mt, st);
    assert t[|mt|] == '分';
  }

  lemma ReadMinutesOf(mt: string, st: string)
    requires AllDigits(mt) && AllDigits(st) && |mt| > 0 && |st| > 0
    ensures ReadMinutes(ShowMinutes(mt, st)) == Some(MinutesOf(mt, st))
  {
    DigitRunStops(mt, MinuteMark + (st + SecondMark));
    ShowMinutesParts(mt, st);
    ReadSecondsOf(mt, st);
  }

  lemma ShowMinutesParts(mt: string, st: string)
    ensures var t := ShowMinutes(mt, st);
      && t[..|mt|] == mt
      && t[|mt|..|mt| + |MinuteMark|] == MinuteMark
      && t[|mt| + |MinuteMark|..] == st + SecondMark
  {
  }

  lemma ReadSecondsOf(m: string, st: string)
    requires AllDigits(st) && |st| > 0
    ensures ReadSeconds(m, st + SecondMark) == Some(MinutesOf(m, st))
  {
    var rest := st + SecondMark;
    assert DigitRun(rest, 10) == |st| by {
      DigitRunStops(st, SecondMark);
    }
    assert rest[..|st|] == st && rest[|st|..] == SecondMark;
  }

  lemma FormatIsShow(seconds: nat)
    ensures var c := Split(seconds);
      FormatTime(seconds) == Show(c.hours, c.minutes, c.secs)
  {
  }

  /** The hours part is shown exactly when the time reaches one hour. */
  lemma HoursShownIffHour(seconds: nat)
    ensures '時' in FormatTime(seconds) <==> seconds >= 3600
  {
    var c := Split(seconds);
    FormatIsShow(seconds);
    var m, sec := NatToString(c.minutes), NatToString(c.secs);
    if seconds >= 3600 {
      var h := NatToString(c.hours);
      assert ShowHours(h, ShowMinutes(m, sec))[|h|] == '時';
    } else {
      NoHourMark(m, sec);
    }
  }

  lemma NoHourMark(m: string, sec: string)
    requires AllDigits(m) && AllDigits(sec)
    ensures '時' !in ShowMinutes(m, sec)
  {
    var t := ShowMinutes(m, sec);
    forall i | 0 <= i < |t| ensures t[i] != '時' {
      if i < |m| {
        assert t[i] == m[i];
      } else if i > |m| && i < |m| + 1 + |sec| {
        assert t[i] == sec[i - |m| - 1];
      }
    }
  }
}
