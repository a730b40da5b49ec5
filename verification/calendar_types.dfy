/** The calendar records of global.d.ts: a year, its months and its days. */
module CalendarTypes {
  import opened Base

  /** `holidayName`: absent, one name, or several in the order they were
      attached. */
  datatype Names = NoName | One(name: string) | Many(names: seq<string>)

  /** A statutory day off or a working day in lieu (`Holiday`). */
  datatype Holiday = Holiday(isHoliday: bool, name: string, wage: int, after: Option<bool>, target: Option<string>)

  /** `DateInfo`: one day, with its lunar date and optional solar term. */
  datatype DateInfo = DateInfo(
    Y: int, M: int, D: int, W: int,
    lunarMonth: string, lunarDate: string, jieqi: Option<string>,
    holidayName: Names, holiday: Option<Holiday>)

  /** `MonthData`: the weekday of the first day and the days in order. */
  datatype MonthData = MonthData(Y: int, M: int, startWeekday: int, days: seq<DateInfo>)

  /** `LunarDateInfo`: the lunar part of a `DateInfo`. */
  datatype LunarDateInfo = LunarDateInfo(lunarMonth: string, lunarDate: string, jieqi: Option<string>)
}
