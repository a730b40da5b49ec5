/** `applyHoliday` of festival.js: festival names attached to the days of a
    year by a table of rules, then statutory holiday data merged in. */
module Festival {
  import opened Base
  import opened CalendarTypes

  /** The parts of `YearData` the festival pass reads and writes;
      `hasHolidayData` is `None` until the pass sets it. */
  datatype YearData = YearData(Y: int, months: seq<MonthData>, hasHolidayData: Option<bool>)

  /** A day by its place: `months[month].days[day]`. */
  datatype Pos = Pos(month: nat, day: nat)

  predicate Valid(year: YearData, p: Pos)
  {
    p.month < |year.months| && p.day < |year.months[p.month].days|
  }

  function DayAt(year: YearData, p: Pos): DateInfo
    requires Valid(year, p)
  {
    year.months[p.month].days[p.day]
  }

  // ---------------------------------------------------------------------
  // The rule table

  /** The first element of a definition entry: a solar month number, a
      lunar month name, or a value of neither type. */
  datatype MonthKey = SolarMonth(n: int) | LunarMonth(name: string) | OtherMonth

  /** The second element: a day number, a lunar day name, the callback
      `month => offset - month.startWeekday`, the callback that takes the
      first of `names` the lunar month has (`m.has(a) ? m.get(a) :
      m.get(b)`), the `n`-th given weekday of the month, or a value of
      none of these types. */
  datatype DayKey =
    | DayNumber(d: int)
    | DayName(name: string)
    | FromStartWeekday(offset: int)
    | FirstPresent(names: seq<string>)
    | NthWeekday(weekday: int, n: int)
    | OtherDay

  datatype Def = Def(month: MonthKey, day: DayKey)

  /** `HOLIDAYS`, in key order. */
  const Holidays: seq<(string, Def)> := [
    ("元旦", Def(SolarMonth(1), DayNumber(1))),
    ("情人节", Def(SolarMonth(2), DayNumber(14))),
    ("妇女节", Def(SolarMonth(3), DayNumber(8))),
    ("植树节", Def(SolarMonth(3), DayNumber(12))),
    ("劳动节", Def(SolarMonth(5), DayNumber(1))),
    ("青年节", Def(SolarMonth(5), DayNumber(4))),
    ("母亲节", Def(SolarMonth(5), FromStartWeekday(MothersDayOffset))),
    ("儿童节", Def(SolarMonth(6), DayNumber(1))),
    ("父亲节", Def(SolarMonth(6), FromStartWeekday(FathersDayOffset))),
    ("建党节", Def(SolarMonth(7), DayNumber(1))),
    ("建军节", Def(SolarMonth(8), DayNumber(1))),
    ("教师节", Def(SolarMonth(9), DayNumber(10))),
    ("国庆", Def(SolarMonth(10), DayNumber(1))),
    ("感恩节", ThanksgivingAsWrittenDef),
    ("圣诞", Def(SolarMonth(12), DayNumber(25))),
    ("除夕", Def(LunarMonth("十二月"), FirstPresent(["三十", "廿九"]))),
    ("春节", Def(LunarMonth("正月"), DayName("初一"))),
    ("元宵", Def(LunarMonth("正月"), DayName("十五"))),
    ("龙抬头", Def(LunarMonth("二月"), DayName("初二"))),
    ("端午", Def(LunarMonth("五月"), DayName("初五"))),
    ("七夕", Def(LunarMonth("七月"), DayName("初七"))),
    ("中元节", Def(LunarMonth("七月"), DayName("十五"))),
    ("中秋", Def(LunarMonth("八月"), DayName("十五"))),
    ("重阳", Def(LunarMonth("九月"), DayName("初九")))]

  const MothersDayOffset: int := 15
  const FathersDayOffset: int := 22
  const ThanksgivingOffset: int := 26

  /** Thanksgiving as written: `26 - startWeekday` in November. */
  const ThanksgivingAsWrittenDef: Def := Def(SolarMonth(11), FromStartWeekday(ThanksgivingOffset))

  /** Thanksgiving as the fourth Thursday of November. */
  const ThanksgivingDef: Def := Def(SolarMonth(11), NthWeekday(Thursday, 4))

  /** The table with the Thanksgiving rule corrected. */
  const HolidaysCorrected: seq<(string, Def)> := Holidays[13 := ("感恩节", ThanksgivingDef)]

  // ---------------------------------------------------------------------
  // Weekdays

  const Thursday: int := 4
  const Sunday: int := 7

  /** The weekday (Monday 1 to Sunday 7) of day `d` of a month whose first
      day has weekday `start`. */
  function WeekdayOf(start: int, d: int): (w: int)
    requires 1 <= start <= 7
    ensures 1 <= w <= 7
  {
    (start - 1 + d - 1) % 7 + 1
  }

  /** Day `d` is the `n`-th day of weekday `w` in its month: it has that
      weekday and lies in the `n`-th run of seven days counted from day 1. */
  predicate IsNth(start: int, d: int, w: int, n: int)
    requires 1 <= start <= 7
  {
    WeekdayOf(start, d) == w && 7 * (n - 1) < d <= 7 * n
  }

  /** The day the corrected rule names: the first day of weekday `w`, plus
      `n - 1` weeks. */
  function NthDay(start: int, w: int, n: int): (d: int)
    requires 1 <= start <= 7 && 1 <= w <= 7
    ensures IsNth(start, d, w, n)
  {
    var first := (w - start) % 7 + 1;
    assert WeekdayOf(start, first) == w;
    var d := first + 7 * (n - 1);
    WeekdayShift(start, first, n - 1);
    d
  }

  lemma WeekdayShift(start: int, d: int, k: int)
    requires 1 <= start <= 7
    ensures WeekdayOf(start, d + 7 * k) == WeekdayOf(start, d)
  {
    var a := start - 1 + d - 1;
    assert a + 7 * k == 7 * k + a;
    assert (7 * k + a) % 7 == a % 7 by {
      var q := a / 7;
      assert a == 7 * q + a % 7;
      assert 7 * k + a == 7 * (k + q) + a % 7;
    }
  }

  // ---------------------------------------------------------------------
  // The lunar index

  /** One day as the lunar index sees it. */
  datatype Entry = Entry(lunarMonth: string, lunarDate: string, pos: Pos)

  /** The days of month `m`, in order. */
  function DayEntries(m: nat, days: seq<DateInfo>): (es: seq<Entry>)
    ensures |es| == |days|
  {
    if |days| == 0 then []
    else
      var k := |days| - 1;
      DayEntries(m, days[..k]) + [Entry(days[k].lunarMonth, days[k].lunarDate, Pos(m, k))]
  }

  /** The days of the year in the order of the two `forEach` loops. */
  function Entries(months: seq<MonthData>): seq<Entry>
  {
    if |months| == 0 then []
    else
      var n := |months| - 1;
      Entries(months[..n]) + DayEntries(n, months[n].days)
  }

  type Index = map<string, map<string, Pos>>

  /** `lunarDateMap` after one more day: a later day with the same lunar
      month and date replaces the earlier. */
  function Add(idx: Index, e: Entry): Index
  {
    var inner := if e.lunarMonth in idx then idx[e.lunarMonth] else map[];
    idx[e.lunarMonth := inner[e.lunarDate := e.pos]]
  }

  /** `lunarDateMap`. */
  function IndexOf(es: seq<Entry>): Index
  {
    if |es| == 0 then map[] else Add(IndexOf(es[..|es| - 1]), es[|es| - 1])
  }

  function Lookup(idx: Index, lm: string, ld: string): Option<Pos>
  {
    if lm in idx && ld in idx[lm] then Some(idx[lm][ld]) else None
  }

  /** The reference: the last day in order with the given lunar date. */
  function Latest(es: seq<Entry>, lm: string, ld: string): Option<Pos>
  {
    if |es| == 0 then None
    else
      var e := es[|es| - 1];
      if e.lunarMonth == lm && e.lunarDate == ld then Some(e.pos) else Latest(es[..|es| - 1], lm, ld)
  }

  /** Some day has lunar month `lm`. */
  predicate HasMonth(es: seq<Entry>, lm: string)
  {
    exists k :: 0 <= k < |es| && es[k].lunarMonth == lm
  }

  // ---------------------------------------------------------------------
  // Resolving one rule

  /** What evaluating one definition gives: an error thrown, `undefined`, or
      a day. */
  datatype Resolved = Throws(e: Error) | Missing | At(p: Pos)

  /** Reading a property of `undefined`, or calling what is not a function. */
  const ReadUndefined: Error := Error(TypeError, "Cannot read properties of undefined")
  const NotAFunction: Error := Error(TypeError, "m.has is not a function")
  /** Assigning `holidayName` on the number a weekday callback returns for a
      lunar month. */
  const NotAnObject: Error := Error(TypeError, "Cannot create property 'holidayName'")

  function NotLunarDefinition(name: string): Error
  {
    Error(TypeError, "Date defination of " + name + " is neither LunarDate or callback")
  }

  /** `month.days[d - 1]` of the solar month at index `i`. */
  function SolarDay(year: YearData, i: int, d: int): (r: Resolved)
    requires 0 <= i < |year.months|
    ensures r.At? ==> Valid(year, r.p) && r.p.month == i && r.p.day == d - 1
    ensures r.Throws? == false
  {
    if 1 <= d <= |year.months[i].days| then At(Pos(i, d - 1)) else Missing
  }

  /** The first of `names` the lunar month has; `undefined` when it has
      none. */
  function FirstOf(month: map<string, Pos>, names: seq<string>): (r: Option<Pos>)
    ensures r.Some? <==> exists k :: 0 <= k < |names| && names[k] in month
    ensures r.Some? ==> exists k :: (0 <= k < |names| && names[k] in month && r.value == month[names[k]]
      && forall j :: 0 <= j < k ==> names[j] !in month)
  {
    if |names| == 0 then None
    else if names[0] in month then Some(month[names[0]])
    else
      var r := FirstOf(month, names[1..]);
      assert forall k :: 1 <= k < |names| ==> names[k] == names[1..][k - 1];
      r
  }

  /** One iteration of the rule loop up to the `undefined` check. */
  function Resolve(year: YearData, idx: Index, name: string, def: Def): (r: Resolved)
  {
    match def.month
    case LunarMonth(lm) =>
      (match def.day
       case DayName(d) =>
         if lm !in idx then Throws(ReadUndefined)
         else if d in idx[lm] then At(idx[lm][d]) else Missing
       case FirstPresent(names) =>
         if lm !in idx then Throws(ReadUndefined)
         else (match FirstOf(idx[lm], names) case Some(p) => At(p) case None => Missing)
       case FromStartWeekday(_) => Throws(if lm !in idx then ReadUndefined else NotAnObject)
       case NthWeekday(_, _) => Throws(if lm !in idx then ReadUndefined else NotAnObject)
       case _ => Throws(NotLunarDefinition(name)))
    case SolarMonth(n) =>
      var i := n - 1;
      var present := 0 <= i < |year.months|;
      (match def.day
       case DayNumber(d) => if present then SolarDay(year, i, d) else Throws(ReadUndefined)
       case FromStartWeekday(offset) =>
         if present then SolarDay(year, i, offset - year.months[i].startWeekday) else Throws(ReadUndefined)
       case NthWeekday(w, k) =>
         if !present then Throws(ReadUndefined)
         else
           var start := year.months[i].startWeekday;
           if 1 <= start <= 7 && 1 <= w <= 7 then SolarDay(year, i, NthDay(start, w, k)) else Missing
       case FirstPresent(_) => Throws(if present then NotAFunction else ReadUndefined)
       case _ => Missing)
    case OtherMonth => Missing
  }

  // ---------------------------------------------------------------------
  // Attaching names

  /** `holidayName` as a list of names. */
  function NameList(n: Names): seq<string>
  {
    match n
    case NoName => []
    case One(s) => [s]
    case Many(ns) => ns
  }

  /** The three branches that attach a name to a day. */
  function Attach(n: Names, name: string): (r: Names)
    ensures NameList(r) == NameList(n) + [name]
    ensures n.NoName? ==> r == One(name)
  {
    match n
    case NoName => One(name)
    case One(s) => Many([s, name])
    case Many(ns) => Many(ns + [name])
  }

  /** Only the day at `p` changes. */
  function UpdateDay(year: YearData, p: Pos, day: DateInfo): (r: YearData)
    requires Valid(year, p)
    ensures |r.months| == |year.months| && r.Y == year.Y && r.hasHolidayData == year.hasHolidayData
    ensures forall i | 0 <= i < |r.months| ::
      (|r.months[i].days| == |year.months[i].days| && r.months[i].startWeekday == year.months[i].startWeekday)
    ensures DayAt(r, p) == day
    ensures forall q | Valid(year, q) && q != p :: DayAt(r, q) == DayAt(year, q)
  {
    var m := year.months[p.month];
    year.(months := year.months[p.month := m.(days := m.days[p.day := day])])
  }

  function Name(year: YearData, p: Pos, name: string): YearData
    requires Valid(year, p)
  {
    var d := DayAt(year, p);
    UpdateDay(year, p, d.(holidayName := Attach(d.holidayName, name)))
  }

  /** Same number of months and days, and the same start weekdays: all a
      rule reads of the year. */
  predicate SameLayout(a: YearData, b: YearData)
  {
    && |a.months| == |b.months|
    && forall i | 0 <= i < |a.months| ::
         |a.months[i].days| == |b.months[i].days| && a.months[i].startWeekday == b.months[i].startWeekday
  }

  /** Every day the index names is a day of the year. */
  predicate IndexFits(idx: Index, year: YearData)
  {
    forall lm, ld | lm in idx && ld in idx[lm] :: Valid(year, idx[lm][ld])
  }

  /** How the rule loop ended: every rule done, an `undefined` day (logged,
      and the function returns), or a thrown error. */
  datatype Ending = Completed | NotFound(name: string) | Threw(e: Error)

  datatype Applied = Applied(year: YearData, ending: Ending)

  /** The `for … of Object.keys(holidayDefs)` loop. */
  function ApplyRules(year: YearData, idx: Index, defs: seq<(string, Def)>): (r: Applied)
    requires IndexFits(idx, year)
    ensures SameLayout(year, r.year) && r.year.hasHolidayData == year.hasHolidayData && r.year.Y == year.Y
    decreases |defs|
  {
    if |defs| == 0 then Applied(year, Completed)
    else
      var (name, def) := defs[0];
      match Resolve(year, idx, name, def)
      case Throws(e) => Applied(year, Threw(e))
      case Missing => Applied(year, NotFound(name))
      case At(p) =>
        var next := Name(year, p, name);
        ApplyRules(next, idx, defs[1..])
  }

  // ---------------------------------------------------------------------
  // Statutory holiday data

  /** One `"MM-DD"` key of the holiday file after `parseInt`, `None` for
      `NaN`, with its record. */
  datatype Override = Override(M: Option<int>, D: Option<int>, holiday: Holiday)

  /** The day an override names, when the year has it. */
  function Target(year: YearData, o: Override): (r: Option<Pos>)
    ensures r.Some? ==> Valid(year, r.value)
  {
    if o.M.Some? && o.D.Some? && 1 <= o.M.value <= |year.months|
       && 1 <= o.D.value <= |year.months[o.M.value - 1].days|
    then Some(Pos(o.M.value - 1, o.D.value - 1))
    else None
  }

  /** The merge loop: the first override naming no day throws, and the
      assignments made before it stay.  The flag is whether every one was
      applied. */
  function Merge(year: YearData, os: seq<Override>): (r: (YearData, bool))
    ensures SameLayout(year, r.0) && r.0.hasHolidayData == year.hasHolidayData && r.0.Y == year.Y
    decreases |os|
  {
    if |os| == 0 then (year, true)
    else match Target(year, os[0])
      case None => (year, false)
      case Some(p) =>
        var d := DayAt(year, p);
        Merge(UpdateDay(year, p, d.(holiday := Some(os[0].holiday))), os[1..])
  }

  /** `applyHoliday(holidayDefs)` on a year; `loaded` is what
      `loadHolidayData(Y)` resolves to, `None` when it rejects. */
  function ApplyHoliday(year: YearData, defs: seq<(string, Def)>, loaded: Option<seq<Override>>): (r: Applied)
    ensures SameLayout(year, r.year) && r.year.Y == year.Y
    ensures r.ending != Completed ==> r.year.hasHolidayData == year.hasHolidayData
    ensures r.ending == Completed ==> r.year.hasHolidayData.Some?
  {
    var idx := IndexOf(Entries(year.months));
    IndexFitsYear(year);
    var applied := ApplyRules(year, idx, defs);
    if applied.ending != Completed then applied
    else match loaded
      case None => Applied(applied.year.(hasHolidayData := Some(false)), Completed)
      case Some(os) =>
        var (merged, ok) := Merge(applied.year.(hasHolidayData := Some(true)), os);
        Applied(merged.(hasHolidayData := Some(ok)), Completed)
  }

  // ---------------------------------------------------------------------
  // Properties: weekdays

  /** `15 - startWeekday` is the second Sunday, `22 - startWeekday` the
      third. */
  lemma MothersAndFathersDay(start: int)
    requires 1 <= start <= 7
    ensures IsNth(start, MothersDayOffset - start, Sunday, 2)
    ensures IsNth(start, FathersDayOffset - start, Sunday, 3)
  {
    assert start - 1 + 15 - start - 1 == 13;
    assert start - 1 + 22 - start - 1 == 20;
  }

  /** `26 - startWeekday` is always a Thursday, but the fourth only when
      the month starts on Monday to Thursday; otherwise it is the third. */
  lemma ThanksgivingAsWritten(start: int)
    requires 1 <= start <= 7
    ensures WeekdayOf(start, ThanksgivingOffset - start) == Thursday
    ensures IsNth(start, ThanksgivingOffset - start, Thursday, 4) <==> start <= 4
    ensures start > 4 ==> IsNth(start, ThanksgivingOffset - start, Thursday, 3)
  {
    assert start - 1 + 26 - start - 1 == 24;
  }

  /** November 2024 starts on a Friday: the rule names the 21st, the third
      Thursday, where the fourth is the 28th. */
  lemma ThanksgivingNovember2024()
    ensures ThanksgivingOffset - 5 == 21 && IsNth(5, 21, Thursday, 3)
    ensures NthDay(5, Thursday, 4) == 28
  {
  }

  /** The corrected rule names the fourth Thursday whatever the start. */
  lemma ThanksgivingCorrected(year: YearData, idx: Index, name: string)
    requires 11 <= |year.months| && 1 <= year.months[10].startWeekday <= 7
    requires |year.months[10].days| >= 28
    ensures var r := Resolve(year, idx, name, ThanksgivingDef);
      r.At? && r.p.month == 10 && IsNth(year.months[10].startWeekday, r.p.day + 1, Thursday, 4)
  {
  }

  /** The same rule as written resolves to the `26 - startWeekday`-th day,
      which is the third Thursday when November starts on Friday to
      Sunday. */
  lemma ThanksgivingAsWrittenResolves(year: YearData, idx: Index, name: string)
    requires 11 <= |year.months| && 5 <= year.months[10].startWeekday <= 7
    requires |year.months[10].days| >= 28
    ensures var r := Resolve(year, idx, name, ThanksgivingAsWrittenDef);
      r.At? && r.p.month == 10 && IsNth(year.months[10].startWeekday, r.p.day + 1, Thursday, 3)
  {
    ThanksgivingAsWritten(year.months[10].startWeekday);
  }

  // ---------------------------------------------------------------------
  // Properties: the lunar index

  /** The index holds, for each lunar date, the last day with it; and it
      has a lunar month exactly when some day is in that month. */
  lemma {:induction false} IndexIsLatest(es: seq<Entry>, lm: string, ld: string)
    ensures Lookup(IndexOf(es), lm, ld) == Latest(es, lm, ld)
    ensures lm in IndexOf(es) <==> HasMonth(es, lm)
  {
    if |es| > 0 {
      var init := es[..|es| - 1];
      IndexIsLatest(init, lm, ld);
      var e := es[|es| - 1];
      if HasMonth(init, lm) {
        var k :| 0 <= k < |init| && init[k].lunarMonth == lm;
        assert es[k] == init[k];
      }
      if HasMonth(es, lm) && e.lunarMonth != lm {
        var k :| 0 <= k < |es| && es[k].lunarMonth == lm;
        assert init[k] == es[k];
      }
    }
  }

  /** `Latest` is the last match: it matches and no later day does. */
  lemma {:induction false} LatestIsLast(es: seq<Entry>, lm: string, ld: string)
    ensures Latest(es, lm, ld).None? <==>
      forall k :: 0 <= k < |es| ==> !(es[k].lunarMonth == lm && es[k].lunarDate == ld)
    ensures Latest(es, lm, ld).Some? ==> exists k :: (0 <= k < |es| && es[k] == Entry(lm, ld, Latest(es, lm, ld).value)
      && forall j :: k < j < |es| ==> !(es[j].lunarMonth == lm && es[j].lunarDate == ld))
  {
    if |es| > 0 {
      var init := es[..|es| - 1];
      LatestIsLast(init, lm, ld);
      assert forall k :: 0 <= k < |init| ==> es[k] == init[k];
    }
  }

  /** Every entry is a day of the year with that lunar date. */
  lemma {:induction false} DayEntriesValid(m: nat, days: seq<DateInfo>)
    ensures forall k :: 0 <= k < |days| ==>
      (DayEntries(m, days)[k] == Entry(days[k].lunarMonth, days[k].lunarDate, Pos(m, k)))
  {
    if |days| > 0 {
      DayEntriesValid(m, days[..|days| - 1]);
    }
  }

  lemma {:induction false} EntriesValid(months: seq<MonthData>)
    ensures forall k :: 0 <= k < |Entries(months)| ==>
      var e := Entries(months)[k];
      e.pos.month < |months| && e.pos.day < |months[e.pos.month].days|
      && months[e.pos.month].days[e.pos.day].lunarMonth == e.lunarMonth
      && months[e.pos.month].days[e.pos.day].lunarDate == e.lunarDate
  {
    if |months| > 0 {
      var n := |months| - 1;
      var init := months[..n];
      EntriesValid(init);
      DayEntriesValid(n, months[n].days);
      var es := Entries(months);
      var a := Entries(init);
      forall k | 0 <= k < |es|
        ensures var e := es[k];
          e.pos.month < |months| && e.pos.day < |months[e.pos.month].days|
          && months[e.pos.month].days[e.pos.day].lunarMonth == e.lunarMonth
          && months[e.pos.month].days[e.pos.day].lunarDate == e.lunarDate
      {
        if k < |a| {
          assert es[k] == a[k];
          assert init[a[k].pos.month] == months[a[k].pos.month];
        } else {
          assert es[k] == DayEntries(n, months[n].days)[k - |a|];
        }
      }
    }
  }

  /** The index built from a year names only days of that year. */
  lemma IndexFitsYear(year: YearData)
    ensures IndexFits(IndexOf(Entries(year.months)), year)
  {
    var es := Entries(year.months);
    var idx := IndexOf(es);
    EntriesValid(year.months);
    forall lm, ld | lm in idx && ld in idx[lm]
      ensures Valid(year, idx[lm][ld])
    {
      IndexIsLatest(es, lm, ld);
      LatestIsLast(es, lm, ld);
    }
  }

  /** A lunar-day rule finds the last day of the year with that lunar
      month and date, and throws when no day is in that lunar month. */
  lemma LunarRuleFindsLatest(year: YearData, name: string, lm: string, ld: string)
    ensures var r := Resolve(year, IndexOf(Entries(year.months)), name, Def(LunarMonth(lm), DayName(ld)));
      && (r.Throws? <==> !HasMonth(Entries(year.months), lm))
      && (r.At? <==> Latest(Entries(year.months), lm, ld).Some?)
      && (r.At? ==> r.p == Latest(Entries(year.months), lm, ld).value)
  {
    IndexIsLatest(Entries(year.months), lm, ld);
  }

  /** A solar rule reads `months[M - 1].days[D - 1]`, the day computed by a
      weekday callback alike; a missing month throws. */
  lemma SolarRules(year: YearData, idx: Index, name: string, m: int, d: int)
    ensures var r := Resolve(year, idx, name, Def(SolarMonth(m), DayNumber(d)));
      && (r.Throws? <==> !(1 <= m <= |year.months|))
      && (r.At? <==> 1 <= m <= |year.months| && 1 <= d <= |year.months[m - 1].days|)
      && (r.At? ==> r.p == Pos(m - 1, d - 1))
    ensures 1 <= m <= |year.months| ==>
      Resolve(year, idx, name, Def(SolarMonth(m), FromStartWeekday(d)))
      == Resolve(year, idx, name, Def(SolarMonth(m), DayNumber(d - year.months[m - 1].startWeekday)))
  {
  }

  /** New Year's Eve: the thirtieth of the twelfth lunar month when the
      year has one, otherwise its twenty-ninth. */
  lemma FirstPresentRule(year: YearData, name: string, lm: string, a: string, b: string)
    ensures var es := Entries(year.months);
      var r := Resolve(year, IndexOf(es), name, Def(LunarMonth(lm), FirstPresent([a, b])));
      && (r.Throws? <==> !HasMonth(es, lm))
      && (HasMonth(es, lm) && Latest(es, lm, a).Some? ==> r == At(Latest(es, lm, a).value))
      && (HasMonth(es, lm) && Latest(es, lm, a).None? ==>
            r == (match Latest(es, lm, b) case Some(p) => At(p) case None => Missing))
  {
    var es := Entries(year.months);
    IndexIsLatest(es, lm, a);
    IndexIsLatest(es, lm, b);
    if HasMonth(es, lm) {
      var month := IndexOf(es)[lm];
      assert [a, b][1..] == [b] && [b][1..] == [];
      assert FirstOf(month, [a, b]) == if a in month then Some(month[a]) else FirstOf(month, [b]);
      assert FirstOf(month, [b]) == if b in month then Some(month[b]) else None;
    }
  }

  /** The rules before `i` ran to completion; the loop then goes on from
      the year they left. */
  lemma {:induction false} ApplyRulesSplit(year: YearData, idx: Index, defs: seq<(string, Def)>, i: nat)
    requires IndexFits(idx, year) && i <= |defs|
    requires ApplyRules(year, idx, defs[..i]).ending == Completed
    ensures IndexFits(idx, ApplyRules(year, idx, defs[..i]).year)
    ensures ApplyRules(year, idx, defs) == ApplyRules(ApplyRules(year, idx, defs[..i]).year, idx, defs[i..])
    decreases i
  {
    if i > 0 {
      var q := ApplyRulesHead(year, idx, defs[..i]);
      assert defs[..i][0] == defs[0] && defs[..i][1..] == defs[1..][..i - 1];
      var next := Name(year, q, defs[0].0);
      IndexFitsLayout(idx, year, next);
      ApplyRulesSplit(next, idx, defs[1..], i - 1);
      assert defs[1..][i - 1..] == defs[i..];
      IndexFitsLayout(idx, year, ApplyRules(year, idx, defs[..i]).year);
    } else {
      assert defs[..0] == [] && defs[0..] == defs;
    }
  }

  /** The first rule that finds no day ends the pass: the rules after it
      are skipped and `hasHolidayData` keeps its value. */
  lemma StopsAtMissingDay(year: YearData, defs: seq<(string, Def)>, loaded: Option<seq<Override>>, i: nat)
    requires i < |defs|
    requires var idx := IndexOf(Entries(year.months));
      IndexFits(idx, year) && ApplyRules(year, idx, defs[..i]).ending == Completed
      && Resolve(ApplyRules(year, idx, defs[..i]).year, idx, defs[i].0, defs[i].1) == Missing
    ensures var idx := IndexOf(Entries(year.months));
      ApplyHoliday(year, defs, loaded) == Applied(ApplyRules(year, idx, defs[..i]).year, NotFound(defs[i].0))
    ensures ApplyHoliday(year, defs, loaded).year.hasHolidayData == year.hasHolidayData
  {
    var idx := IndexOf(Entries(year.months));
    ApplyRulesSplit(year, idx, defs, i);
  }

  // ---------------------------------------------------------------------
  // Properties: names

  /** The rules that resolve to day `p`, in table order. */
  function RuleNames(year: YearData, idx: Index, defs: seq<(string, Def)>, p: Pos): seq<string>
  {
    if |defs| == 0 then []
    else
      var r := Resolve(year, idx, defs[0].0, defs[0].1);
      (if r == At(p) then [defs[0].0] else []) + RuleNames(year, idx, defs[1..], p)
  }

  lemma ResolveLayout(a: YearData, b: YearData, idx: Index, name: string, def: Def)
    requires SameLayout(a, b)
    ensures Resolve(a, idx, name, def) == Resolve(b, idx, name, def)
  {
  }

  lemma {:induction false} RuleNamesLayout(a: YearData, b: YearData, idx: Index, defs: seq<(string, Def)>, p: Pos)
    requires SameLayout(a, b)
    ensures RuleNames(a, idx, defs, p) == RuleNames(b, idx, defs, p)
  {
    if |defs| > 0 {
      ResolveLayout(a, b, idx, defs[0].0, defs[0].1);
      RuleNamesLayout(a, b, idx, defs[1..], p);
    }
  }

  /** A loop that completes resolved its first rule to a day, then ran on. */
  lemma ApplyRulesHead(year: YearData, idx: Index, defs: seq<(string, Def)>) returns (q: Pos)
    requires IndexFits(idx, year) && |defs| > 0
    requires ApplyRules(year, idx, defs).ending == Completed
    ensures Resolve(year, idx, defs[0].0, defs[0].1) == At(q) && Valid(year, q)
    ensures ApplyRules(year, idx, defs) == ApplyRules(Name(year, q, defs[0].0), idx, defs[1..])
  {
    q := Resolve(year, idx, defs[0].0, defs[0].1).p;
  }

  lemma RuleNamesCons(year: YearData, idx: Index, defs: seq<(string, Def)>, p: Pos)
    requires |defs| > 0
    ensures RuleNames(year, idx, defs, p)
      == (if Resolve(year, idx, defs[0].0, defs[0].1) == At(p) then [defs[0].0] else [])
         + RuleNames(year, idx, defs[1..], p)
  {
  }

  /** Naming day `q` adds the name to `q` only. */
  lemma NameStep(year: YearData, q: Pos, name: string, p: Pos)
    requires Valid(year, q) && Valid(year, p)
    ensures var next := Name(year, q, name);
      && SameLayout(year, next)
      && Valid(next, p)
      && NameList(DayAt(next, p).holidayName) == NameList(DayAt(year, p).holidayName) + (if q == p then [name] else [])
      && DayAt(next, p).(holidayName := NoName) == DayAt(year, p).(holidayName := NoName)
  {
  }

  lemma IndexFitsLayout(idx: Index, a: YearData, b: YearData)
    requires IndexFits(idx, a) && SameLayout(a, b)
    ensures IndexFits(idx, b)
  {
  }

  /** The names a day collects: the first rule's, then the rest's. */
  lemma NamedThenRest(year: YearData, idx: Index, defs: seq<(string, Def)>, p: Pos, q: Pos)
    requires IndexFits(idx, year) && Valid(year, p) && Valid(year, q) && |defs| > 0
    requires Resolve(year, idx, defs[0].0, defs[0].1) == At(q)
    ensures var next := Name(year, q, defs[0].0);
      && IndexFits(idx, next) && Valid(next, p)
      && NameList(DayAt(next, p).holidayName) + RuleNames(next, idx, defs[1..], p)
         == NameList(DayAt(year, p).holidayName) + RuleNames(year, idx, defs, p)
      && DayAt(next, p).(holidayName := NoName) == DayAt(year, p).(holidayName := NoName)
  {
    var name := defs[0].0;
    var next := Name(year, q, name);
    var before := NameList(DayAt(year, p).holidayName);
    var extra := if q == p then [name] else [];
    var rest := RuleNames(year, idx, defs[1..], p);
    NameStep(year, q, name, p);
    IndexFitsLayout(idx, year, next);
    RuleNamesLayout(next, year, idx, defs[1..], p);
    RuleNamesHead(year, idx, defs, p, q);
    AppendAssoc(before, extra, rest);
  }

  lemma AppendAssoc<T>(a: seq<T>, b: seq<T>, c: seq<T>)
    ensures (a + b) + c == a + (b + c)
  {
  }

  /** The names of a rule list whose first rule resolves to `q`. */
  lemma RuleNamesHead(year: YearData, idx: Index, defs: seq<(string, Def)>, p: Pos, q: Pos)
    requires |defs| > 0 && Resolve(year, idx, defs[0].0, defs[0].1) == At(q)
    ensures RuleNames(year, idx, defs, p)
         == (if q == p then [defs[0].0] else []) + RuleNames(year, idx, defs[1..], p)
  {
    RuleNamesCons(year, idx, defs, p);
  }

  /** When every rule resolves, each day ends with the names it had followed
      by the names of the rules that chose it, in table order; nothing else
      of the day changes. */
  lemma {:induction false} ApplyRulesNames(year: YearData, idx: Index, defs: seq<(string, Def)>, p: Pos)
    requires IndexFits(idx, year) && Valid(year, p)
    requires ApplyRules(year, idx, defs).ending == Completed
    ensures var after := ApplyRules(year, idx, defs).year;
      Valid(after, p)
      && NameList(DayAt(after, p).holidayName) == NameList(DayAt(year, p).holidayName) + RuleNames(year, idx, defs, p)
      && DayAt(after, p).(holidayName := NoName) == DayAt(year, p).(holidayName := NoName)
    decreases |defs|
  {
    if |defs| > 0 {
      var q := ApplyRulesHead(year, idx, defs);
      NamedThenRest(year, idx, defs, p, q);
      ApplyRulesNames(Name(year, q, defs[0].0), idx, defs[1..], p);
    }
  }

  // ---------------------------------------------------------------------
  // Properties: holiday data

  /** The reference: the last override naming day `p`. */
  function LastOverride(year: YearData, os: seq<Override>, p: Pos): Option<Holiday>
  {
    if |os| == 0 then None
    else
      var o := os[|os| - 1];
      if Target(year, o) == Some(p) then Some(o.holiday) else LastOverride(year, os[..|os| - 1], p)
  }

  predicate AllFit(year: YearData, os: seq<Override>)
  {
    forall k :: 0 <= k < |os| ==> Target(year, os[k]).Some?
  }

  lemma TargetLayout(a: YearData, b: YearData, o: Override)
    requires SameLayout(a, b)
    ensures Target(a, o) == Target(b, o)
  {
  }

  lemma {:induction false} LastOverrideLayout(a: YearData, b: YearData, os: seq<Override>, p: Pos)
    requires SameLayout(a, b)
    ensures LastOverride(a, os, p) == LastOverride(b, os, p)
  {
    if |os| > 0 {
      TargetLayout(a, b, os[|os| - 1]);
      LastOverrideLayout(a, b, os[..|os| - 1], p);
    }
  }

  lemma LastOverrideCons(year: YearData, os: seq<Override>, p: Pos)
    requires |os| > 0
    ensures LastOverride(year, os, p) ==
      (match LastOverride(year, os[1..], p)
       case Some(h) => Some(h)
       case None => if Target(year, os[0]) == Some(p) then Some(os[0].holiday) else None)
    decreases |os|
  {
    if |os| > 1 {
      var init := os[..|os| - 1];
      assert os[1..][..|os[1..]| - 1] == init[1..];
      assert os[1..][|os[1..]| - 1] == os[|os| - 1];
      assert init[0] == os[0];
      LastOverrideCons(year, init, p);
    } else {
      assert os[..0] == [];
    }
  }

  /** When every key names a day of the year, each day's holiday ends as the
      last record naming it, or as it was. */
  lemma {:induction false} MergeSets(year: YearData, os: seq<Override>, p: Pos)
    requires Valid(year, p) && Merge(year, os).1
    ensures Valid(Merge(year, os).0, p)
    ensures DayAt(Merge(year, os).0, p).holiday ==
      (match LastOverride(year, os, p) case Some(h) => Some(h) case None => DayAt(year, p).holiday)
    decreases |os|
  {
    if |os| > 0 {
      var q := Target(year, os[0]).value;
      var next := UpdateDay(year, q, DayAt(year, q).(holiday := Some(os[0].holiday)));
      assert Merge(year, os) == Merge(next, os[1..]);
      MergeSets(next, os[1..], p);
      LastOverrideLayout(next, year, os[1..], p);
      LastOverrideCons(year, os, p);
    }
  }

  /** An override naming no day stops the merge there: the ones before it
      stay applied and the flag is false. */
  lemma {:induction false} MergeStops(year: YearData, os: seq<Override>, i: nat)
    requires i < |os| && Merge(year, os[..i]).1
    requires Target(Merge(year, os[..i]).0, os[i]).None?
    ensures Merge(year, os) == (Merge(year, os[..i]).0, false)
    decreases i
  {
    if i == 0 {
      assert os[..0] == [];
    } else {
      var p := Target(year, os[0]).value;
      var next := UpdateDay(year, p, DayAt(year, p).(holiday := Some(os[0].holiday)));
      assert os[..i][0] == os[0] && os[..i][1..] == os[1..][..i - 1];
      assert os[1..][i - 1] == os[i];
      MergeStops(next, os[1..], i - 1);
    }
  }

  /** `hasHolidayData` ends `true` exactly when every rule resolved, the
      holiday file loaded and every key in it named a day. */
  lemma HasHolidayData(year: YearData, defs: seq<(string, Def)>, loaded: Option<seq<Override>>)
    ensures var r := ApplyHoliday(year, defs, loaded);
      r.year.hasHolidayData == Some(true) <==>
        (r.ending == Completed && loaded.Some? && AllFit(year, loaded.value))
        || (r.ending != Completed && year.hasHolidayData == Some(true))
  {
    var r := ApplyHoliday(year, defs, loaded);
    IndexFitsYear(year);
    var applied := ApplyRules(year, IndexOf(Entries(year.months)), defs);
    if applied.ending == Completed && loaded.Some? {
      var y := applied.year.(hasHolidayData := Some(true));
      MergeFlag(y, loaded.value);
      forall k | 0 <= k < |loaded.value| ensures Target(y, loaded.value[k]) == Target(year, loaded.value[k]) {
        TargetLayout(y, year, loaded.value[k]);
      }
    }
  }

  /** The merge succeeds exactly when every key names a day of the year. */
  lemma {:induction false} MergeFlag(year: YearData, os: seq<Override>)
    ensures Merge(year, os).1 <==> AllFit(year, os)
    decreases |os|
  {
    if |os| > 0 {
      assert forall k :: 1 <= k < |os| ==> os[1..][k - 1] == os[k];
      match Target(year, os[0])
      case None =>
      case Some(q) =>
        var d := DayAt(year, q);
        var next := UpdateDay(year, q, d.(holiday := Some(os[0].holiday)));
        MergeFlag(next, os[1..]);
        forall k | 0 <= k < |os[1..]| ensures Target(next, os[1..][k]) == Target(year, os[1..][k]) {
          TargetLayout(next, year, os[1..][k]);
        }
    }
  }
}
