/** The parsing half of build-data.js: traditional-to-simplified names, the
    lunar month carried from day to day, the months assembled from the day
    lines of one year, and the start month handed from year to year. */
module BuildData {
  import opened Base
  import opened CalendarTypes
  import CalendarUtils

  /** `T2CReplacements`: solar terms and zodiac animals. */
  const Replacements: map<string, string> := map[
    "驚蟄" := "惊蛰", "穀雨" := "谷雨", "小滿" := "小满", "芒種" := "芒种", "處暑" := "处暑",
    "龍" := "龙", "馬" := "马", "雞" := "鸡", "犬" := "狗", "豬" := "猪"]

  const LeapTc: char := '閏'
  const LeapSc: char := '闰'
  const MonthSuffix: string := "月"
  const FirstDay: string := "初一"

  /** `TC2SC`: the simplified form of a listed name; any other text unchanged. */
  function Tc2Sc(s: string): (r: string)
    ensures s !in Replacements ==> r == s
    ensures s in Replacements ==> r == Replacements[s] && r !in Replacements
  {
    if s in Replacements then Replacements[s] else s
  }

  /** `s.replace(from, to)` with a one-character pattern: only the first
      occurrence is replaced. */
  function ReplaceFirst(s: string, from: char, to: char): (r: string)
    ensures |r| == |s|
  {
    if |s| == 0 then s
    else if s[0] == from then [to] + s[1..]
    else [s[0]] + ReplaceFirst(s[1..], from, to)
  }

  /** The year a `CalendarData` is built for and the lunar month of the last
      day read so far. */
  datatype CalendarData = CalendarData(year: int, lunarMonth: string)

  /** `startMonthOfYear` before any year is parsed. */
  const InitialStarts: map<int, string> := map[1901 := "十一月"]

  function YearText(year: int): string
  {
    if year < 0 then "-" + DecimalString(-year) else DecimalString(year)
  }

  function StartMissing(year: int): Error
  {
    Error(TypeError, "Start month of " + YearText(year) + " not found")
  }

  /** The constructor: a year can be built only once its start month is known. */
  function NewCalendarData(year: int, starts: map<int, string>): (r: Result<CalendarData>)
    ensures r.Success? <==> year in starts
    ensures r.Success? ==> r.value == CalendarData(year, starts[year])
    ensures r.Failure? ==> r.error == StartMissing(year)
  {
    if year !in starts then Failure(StartMissing(year))
    else Success(CalendarData(year, starts[year]))
  }

  const LunarMissing: Error := Error(TypeError, "Lunar month not found")

  /** `lunarTransform`: a token ending in `月` opens a lunar month (its
      first `閏` simplified) whose first day is `初一`; any other token is a
      day of the current month.  `None` is a token that is not a string.
      The first component is the new current month. */
  function LunarTransform(current: string, lunar: Option<string>, jieqi: Option<string>)
    : (r: Result<(string, LunarDateInfo)>)
    ensures r.Failure? <==> lunar.None?
    ensures r.Failure? ==> r.error == LunarMissing
    ensures r.Success? ==> r.value.1.lunarMonth == r.value.0 && r.value.1.jieqi == jieqi
    ensures r.Success? && !EndsWith(lunar.value, MonthSuffix) ==>
      r.value.0 == current && r.value.1.lunarDate == lunar.value
    ensures r.Success? && EndsWith(lunar.value, MonthSuffix) ==>
      r.value.1.lunarDate == FirstDay && r.value.0 == ReplaceFirst(lunar.value, LeapTc, LeapSc)
  {
    match lunar
    case None => Failure(LunarMissing)
    case Some(token) => Success(LunarOf(current, token, jieqi))
  }

  /** `lunarTransform` on a string token. */
  function LunarOf(current: string, token: string, jieqi: Option<string>): (string, LunarDateInfo)
  {
    if EndsWith(token, MonthSuffix) then
      var month := ReplaceFirst(token, LeapTc, LeapSc);
      (month, LunarDateInfo(month, FirstDay, jieqi))
    else (current, LunarDateInfo(current, token, jieqi))
  }

  /** The named groups of one matched day line; `parseInt` has already
      been applied to the month and the day, `None` standing for `NaN`. */
  datatype DayLine = DayLine(mm: Option<int>, dd: Option<int>, lunar: string, w: string, jieqi: Option<string>)

  /** What `parseMonths` builds up: the months, an array indexed by `M - 1`
      that may have holes, and the current lunar month. */
  datatype Builder = Builder(cal: CalendarData, months: map<int, MonthData>)

  const MonthDateInvalid: Error := Error(TypeError, "Month or Date is not valid")

  /** `months[M - 1].days` on a hole. */
  const MonthMissing: Error := Error(TypeError, "Cannot " + "read properties of undefined (reading 'days')")

  /** The errors reading the day lines can raise. */
  predicate ParseError(e: Error)
  {
    e == CalendarUtils.WeekdayError || e == MonthDateInvalid || e == MonthMissing || e == LunarMissing
  }

  /** The day `line` describes, in month `M` of `year`, after the lunar
      transform. */
  function DayOf(year: int, M: int, D: int, W: int, info: LunarDateInfo): DateInfo
  {
    DateInfo(year, M, D, W, info.lunarMonth, info.lunarDate, info.jieqi, NoName, None)
  }

  /** One iteration of `parseMonths`: the weekday is read first (and may
      throw), then the integers are checked, a day 1 opens its month, and
      the day is appended to its month. */
  function Step(b: Builder, line: DayLine): (r: Result<Builder>)
    ensures r.Failure? ==> ParseError(r.error)
    ensures CalendarUtils.WeekdayToNum(line.w).Failure? ==> r == Failure(CalendarUtils.WeekdayError)
    ensures CalendarUtils.WeekdayToNum(line.w).Success? && (line.mm.None? || line.dd.None?) ==>
      r == Failure(MonthDateInvalid)
    ensures r.Success? ==> line.mm.Some? && line.dd.Some? && r.value.cal.year == b.cal.year
  {
    var W :- CalendarUtils.WeekdayToNum(line.w);
    if line.mm.None? || line.dd.None? then Failure(MonthDateInvalid)
    else
      var M := line.mm.value;
      var D := line.dd.value;
      var jieqi := if line.jieqi.Some? then Some(Tc2Sc(line.jieqi.value)) else None;
      var months := if D == 1 then b.months[M - 1 := MonthData(b.cal.year, M, W, [])] else b.months;
      if M - 1 !in months then Failure(MonthMissing)
      else
        var (current, info) := LunarOf(b.cal.lunarMonth, line.lunar, jieqi);
        var month := months[M - 1];
        var day := DayOf(b.cal.year, M, D, W, info);
        Success(Builder(b.cal.(lunarMonth := current), months[M - 1 := month.(days := month.days + [day])]))
  }

  /** The `forEach` over the day lines; the first error ends it. */
  function ParseLines(b: Builder, lines: seq<DayLine>): (r: Result<Builder>)
    ensures r.Failure? ==> ParseError(r.error)
    decreases |lines|
  {
    if |lines| == 0 then Success(b)
    else
      var next :- Step(b, lines[0]);
      ParseLines(next, lines[1..])
  }

  /** One year: construct, parse its lines, and record the lunar month the
      year ends in as the start month of the next year.  The result is the
      months and the updated start-month table. */
  function ParseYear(year: int, starts: map<int, string>, lines: seq<DayLine>)
    : (r: Result<(map<int, MonthData>, map<int, string>)>)
    ensures year !in starts ==> r == Failure(StartMissing(year))
    ensures r.Failure? && year in starts ==> ParseError(r.error)
    ensures r.Success? ==> r.value.1.Keys == starts.Keys + {year + 1}
    ensures r.Success? ==> forall y | y in starts && y != year + 1 :: r.value.1[y] == starts[y]
  {
    var cal :- NewCalendarData(year, starts);
    var b :- ParseLines(Builder(cal, map[]), lines);
    Success((b.months, starts[year + 1 := b.cal.lunarMonth]))
  }

  /** The years `buildAll` runs over. */
  const FirstYear: int := 1901
  const LastYear: int := 2100

  /** `buildAll`: the years from `year` to `last` in order; `text(y)` is the
      day lines read from the file of year `y`. */
  function BuildYears(year: int, last: int, starts: map<int, string>, text: int -> seq<DayLine>)
    : (r: Result<map<int, map<int, MonthData>>>)
    decreases last - year
  {
    if year > last then Success(map[])
    else
      var (months, starts') :- ParseYear(year, starts, text(year));
      var rest :- BuildYears(year + 1, last, starts', text);
      Success(rest[year := months])
  }

  // ---------------------------------------------------------------------
  // Properties

  /** No simplified name is itself replaced, so `TC2SC` is idempotent. */
  lemma Tc2ScIdempotent(s: string)
    ensures Tc2Sc(Tc2Sc(s)) == Tc2Sc(s)
  {
  }

  /** `replace` changes exactly the first occurrence and nothing else. */
  lemma {:induction false} ReplaceFirstAt(s: string, from: char, to: char, i: int)
    requires 0 <= i < |s| && s[i] == from && from !in s[..i]
    ensures ReplaceFirst(s, from, to) == s[..i] + [to] + s[i + 1..]
  {
    if i > 0 {
      assert s[0] != from by { assert s[..i][0] == s[0]; }
      assert s[1..][..i - 1] == s[..i][1..];
      ReplaceFirstAt(s[1..], from, to, i - 1);
      assert s[1..][i..] == s[i + 1..];
    }
  }

  /** Without an occurrence the text is unchanged. */
  lemma {:induction false} ReplaceFirstAbsent(s: string, from: char, to: char)
    requires from !in s
    ensures ReplaceFirst(s, from, to) == s
  {
    if |s| > 0 {
      assert s[0] in s;
      assert forall c :: c in s[1..] ==> c in s;
      ReplaceFirstAbsent(s[1..], from, to);
    }
  }

  /** Every month present is month `k + 1` of the year at key `k`; its days
      belong to it, in the year; and its first day is the day 1 that opened
      it and carries its start weekday. */
  ghost predicate WellFormed(b: Builder)
  {
    forall k | k in b.months ::
      var m := b.months[k];
      && m.Y == b.cal.year && m.M == k + 1
      && |m.days| > 0 && m.days[0].D == 1 && m.days[0].W == m.startWeekday
      && (forall j | 0 <= j < |m.days| :: m.days[j].Y == b.cal.year && m.days[j].M == k + 1)
  }

  /** A step changes only month `M - 1`, opening it afresh on day 1 and
      otherwise extending it, and leaves its new day last, dated in the
      current lunar month. */
  lemma StepAppends(b: Builder, line: DayLine)
    requires Step(b, line).Success?
    ensures var b' := Step(b, line).value;
      var k := line.mm.value - 1;
      && b'.months.Keys == b.months.Keys + {k}
      && (forall j | j in b.months && j != k :: b'.months[j] == b.months[j])
      && |b'.months[k].days| > 0
      && b'.months[k].days[|b'.months[k].days| - 1].D == line.dd.value
      && b'.months[k].days[|b'.months[k].days| - 1].lunarMonth == b'.cal.lunarMonth
      && (line.dd.value == 1 ==> |b'.months[k].days| == 1)
      && (line.dd.value != 1 ==> b'.months[k].days[..|b'.months[k].days| - 1] == b.months[k].days)
  {
    var b' := Step(b, line).value;
    var k := line.mm.value - 1;
    var m := b'.months[k];
    if line.dd.value != 1 {
      assert k in b.months;
      assert m.days[..|m.days| - 1] == b.months[k].days;
    }
  }

  /** The day a step appends: its year, month, day and weekday from the
      line, its solar term simplified, its lunar date from
      `lunarTransform`; a day 1 opens the month with that weekday. */
  lemma StepDay(b: Builder, line: DayLine)
    requires Step(b, line).Success?
    ensures var b' := Step(b, line).value;
      var k := line.mm.value - 1;
      var W := CalendarUtils.WeekdayToNum(line.w).value;
      var jieqi := if line.jieqi.Some? then Some(Tc2Sc(line.jieqi.value)) else None;
      var (current, info) := LunarOf(b.cal.lunarMonth, line.lunar, jieqi);
      && k in b'.months && |b'.months[k].days| > 0
      && b'.months[k].days[|b'.months[k].days| - 1] == DayOf(b.cal.year, line.mm.value, line.dd.value, W, info)
      && b'.cal.lunarMonth == current
      && (line.dd.value == 1 ==> b'.months[k].startWeekday == W)
  {
  }

  /** A day other than the first, in a month no day 1 has opened, fails
      with the read of `days` on `undefined`. */
  lemma StepUnopenedMonth(b: Builder, line: DayLine)
    requires CalendarUtils.WeekdayToNum(line.w).Success? && line.mm.Some? && line.dd.Some?
    requires line.dd.value != 1 && line.mm.value - 1 !in b.months
    ensures Step(b, line) == Failure(MonthMissing)
  {
  }

  /** A step keeps the months well formed. */
  lemma StepPreserves(b: Builder, line: DayLine)
    requires WellFormed(b) && Step(b, line).Success?
    ensures WellFormed(Step(b, line).value)
  {
    var b' := Step(b, line).value;
    var k := line.mm.value - 1;
    StepAppends(b, line);
    var m := b'.months[k];
    if line.dd.value != 1 {
      assert m.days[0] == m.days[..|m.days| - 1][0];
    }
  }

  /** Parsing keeps the months well formed. */
  lemma {:induction false} ParseLinesPreserves(b: Builder, lines: seq<DayLine>)
    requires WellFormed(b) && ParseLines(b, lines).Success?
    ensures WellFormed(ParseLines(b, lines).value)
    ensures ParseLines(b, lines).value.cal.year == b.cal.year
    decreases |lines|
  {
    if |lines| > 0 {
      StepPreserves(b, lines[0]);
      ParseLinesPreserves(Step(b, lines[0]).value, lines[1..]);
    }
  }

  /** The last day of month `k` is dated in the current lunar month. */
  ghost predicate LastDayCarries(b: Builder, k: int)
  {
    k in b.months && |b.months[k].days| > 0
    && b.months[k].days[|b.months[k].days| - 1].lunarMonth == b.cal.lunarMonth
  }

  /** A successful parse took its first step and went on from there. */
  lemma ParseLinesCons(b: Builder, lines: seq<DayLine>)
    requires |lines| > 0 && ParseLines(b, lines).Success?
    ensures Step(b, lines[0]).Success?
    ensures ParseLines(b, lines) == ParseLines(Step(b, lines[0]).value, lines[1..])
  {
  }

  /** After at least one line, the lunar month carried forward is that of
      the last day read, which is the last day of its month. */
  lemma {:induction false} ParseLinesLast(b: Builder, lines: seq<DayLine>)
    requires |lines| > 0 && ParseLines(b, lines).Success?
    ensures lines[|lines| - 1].mm.Some?
    ensures LastDayCarries(ParseLines(b, lines).value, lines[|lines| - 1].mm.value - 1)
    decreases |lines|
  {
    ParseLinesCons(b, lines);
    var next := Step(b, lines[0]).value;
    StepAppends(b, lines[0]);
    if |lines| == 1 {
      assert ParseLines(next, lines[1..]) == Success(next);
    } else {
      ParseLinesLast(next, lines[1..]);
      assert lines[1..][|lines[1..]| - 1] == lines[|lines| - 1];
    }
  }

  /** A year's months are well formed, and the start month it hands to the
      next year is the lunar month of its last day. */
  lemma ParseYearHandsOn(year: int, starts: map<int, string>, lines: seq<DayLine>)
    requires |lines| > 0 && ParseYear(year, starts, lines).Success?
    ensures lines[|lines| - 1].mm.Some?
    ensures var (months, starts') := ParseYear(year, starts, lines).value;
      var k := lines[|lines| - 1].mm.value - 1;
      && WellFormed(Builder(CalendarData(year, starts[year]), months))
      && k in months && |months[k].days| > 0
      && months[k].days[|months[k].days| - 1].lunarMonth == starts'[year + 1]
  {
    var b := Builder(CalendarData(year, starts[year]), map[]);
    ParseLinesPreserves(b, lines);
    ParseLinesLast(b, lines);
    var r := ParseLines(b, lines).value;
    assert ParseYear(year, starts, lines).value == (r.months, starts[year + 1 := r.cal.lunarMonth]);
  }

  /** Every year that is reached has its start month: when the first year's
      start month is known, the building stops, if at all, on an error from
      the day lines, never on the constructor. */
  lemma {:induction false} BuildYearsStarts(year: int, last: int, starts: map<int, string>, text: int -> seq<DayLine>)
    requires year in starts
    ensures BuildYears(year, last, starts, text).Failure? ==> ParseError(BuildYears(year, last, starts, text).error)
    decreases last - year
  {
    if year <= last {
      var p := ParseYear(year, starts, text(year));
      if p.Success? {
        BuildYearsStarts(year + 1, last, p.value.1, text);
      }
    }
  }

  /** The constructor's error is not one the day lines raise. */
  lemma StartMissingIsNotParseError(year: int)
    ensures !ParseError(StartMissing(year))
  {
    var m := StartMissing(year).message;
    assert m[0] == 'S';
    assert CalendarUtils.WeekdayError.kind == RangeError;
    assert m != MonthDateInvalid.message by { assert MonthDateInvalid.message[0] == 'M'; }
    assert m != MonthMissing.message by { assert MonthMissing.message[0] == 'C'; }
    assert m != LunarMissing.message by { assert LunarMissing.message[0] == 'L'; }
  }

  /** A completed run holds exactly the years from `year` to `last`. */
  lemma {:induction false} BuildYearsDomain(year: int, last: int, starts: map<int, string>, text: int -> seq<DayLine>)
    ensures BuildYears(year, last, starts, text).Success? ==>
      forall y :: y in BuildYears(year, last, starts, text).value <==> year <= y <= last
    decreases last - year
  {
    if year <= last {
      var p := ParseYear(year, starts, text(year));
      if p.Success? {
        BuildYearsDomain(year + 1, last, p.value.1, text);
      }
    }
  }

  /** `buildAll` builds exactly the years `checkYearRange` accepts, so every
      year the calendar functions let through has its data. */
  lemma BuiltYearsInRange(text: int -> seq<DayLine>)
    ensures var r := BuildYears(FirstYear, LastYear, InitialStarts, text);
      r.Success? ==>
        forall y: int :: y in r.value <==> CalendarUtils.CheckYearRange(CalendarUtils.Finite(y as real)).Success?
  {
    BuildYearsDomain(FirstYear, LastYear, InitialStarts, text);
  }

  /** With only the 1901 entry, the run must start at 1901: any later year
      is refused by the constructor. */
  lemma BuildStartsAt1901(year: int, last: int, text: int -> seq<DayLine>)
    requires year != 1901 && year <= last
    ensures BuildYears(year, last, InitialStarts, text) == Failure(StartMissing(year))
  {
  }

  /** A month token opens a month on `初一`, and the day tokens that follow
      are dated in it. */
  lemma LunarMonthCarried(current: string, token: string, day: string, jieqi: Option<string>)
    requires EndsWith(token, MonthSuffix) && !EndsWith(day, MonthSuffix)
    ensures var first := LunarTransform(current, Some(token), jieqi).value;
      var second := LunarTransform(first.0, Some(day), None).value;
      first.1.lunarDate == FirstDay && second.1.lunarMonth == first.1.lunarMonth && second.1.lunarDate == day
  {
  }
}
