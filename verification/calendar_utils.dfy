/** The calendar helpers of lib/utils.js: weekday and month names, the
    sexagenary year name and zodiac animal, and the year checks. */
module CalendarUtils {
  import opened Base

  /** A JavaScript number. */
  datatype Num = Finite(r: real) | NaN | PosInf | NegInf

  /** `Number.isInteger`. */
  predicate IsInteger(x: Num)
  {
    x.Finite? && x.r.Floor as real == x.r
  }

  const MaxSafeInteger: int := 0x1F_FFFF_FFFF_FFFF

  /** `Number.isSafeInteger`. */
  predicate IsSafeInteger(x: Num)
  {
    IsInteger(x) && -MaxSafeInteger <= x.r.Floor <= MaxSafeInteger
  }

  /** `a % b` for a positive divisor: the remainder takes the sign of `a`. */
  function JsRem(a: int, b: int): (r: int)
    requires b > 0
    ensures a >= 0 ==> r == a % b
    ensures -b < r < b && (r == 0 || (r < 0 <==> a < 0))
  {
    if a >= 0 then a % b else -((-a) % b)
  }

  /** `table[i]` inside a template literal: `undefined` spells itself. */
  function Spelled(table: seq<string>, i: int): string
  {
    if 0 <= i < |table| then table[i] else "undefined"
  }

  const WeekdayNames: seq<string> := ["一", "二", "三", "四", "五", "六", "日"]
  const MonthNames: seq<string> :=
    ["一月", "二月", "三月", "四月", "五月", "六月", "七月", "八月", "九月", "十月", "十一月", "十二月"]
  const Dizhi: seq<string> := ["子", "丑", "寅", "卯", "辰", "巳", "午", "未", "申", "酉", "戌", "亥"]
  const Shengxiao: seq<string> := ["鼠", "牛", "虎", "兔", "龙", "蛇", "马", "羊", "猴", "鸡", "狗", "猪"]

  /** The heavenly stems as written: the fifth is `午`, a branch. */
  const TianganAsWritten: seq<string> := ["甲", "乙", "丙", "丁", "午", "己", "庚", "辛", "壬", "癸"]

  /** The ten heavenly stems; the fifth is `戊`. */
  const Tiangan: seq<string> := ["甲", "乙", "丙", "丁", "戊", "己", "庚", "辛", "壬", "癸"]

  const WeekdayError: Error := Error(RangeError, "weekday char unrecognized")

  /** `weekdayToNum`: the number of a weekday character, Monday 1 to
      Sunday 7, by the own properties of `weekDayMap`. */
  function WeekdayToNum(w: string): (r: Result<int>)
    ensures r.Success? <==> w in WeekdayNames
    ensures r.Success? ==> 1 <= r.value <= 7 && WeekdayNames[r.value - 1] == w
    ensures r.Failure? ==> r.error == WeekdayError
  {
    if w == "一" then Success(1)
    else if w == "二" then Success(2)
    else if w == "三" then Success(3)
    else if w == "四" then Success(4)
    else if w == "五" then Success(5)
    else if w == "六" then Success(6)
    else if w == "日" then Success(7)
    else Failure(WeekdayError)
  }

  const WeekdayRangeError: Error := Error(RangeError, "weekday range: 1-7")

  /** The range half of `numToWeekday`'s guard as written,
      `weekday < 1 || weekday >= 7`, on a number other than `NaN`. */
  predicate OutOfRangeAsWritten(x: Num)
  {
    (x.Finite? && (x.r < 1.0 || x.r >= 7.0)) || x.NegInf? || x.PosInf?
  }

  /** `numToWeekday` as written: it throws for every integer, and for any
      other number that passes reads `WEEKDAYS` at a non-index, which is
      `undefined` (`None`). */
  function NumToWeekdayAsWritten(x: Num): (r: Result<Option<string>>)
    ensures IsInteger(x) ==> r == Failure(WeekdayRangeError)
    ensures r.Success? ==> r.value.None?
  {
    if IsInteger(x) || OutOfRangeAsWritten(x) then Failure(WeekdayRangeError)
    else Success(None)
  }

  /** The guard as evidently intended: any integer from 1 to 7 is named.
      Both defects of the written guard are corrected: the integer test is
      no longer inverted, and the upper bound is `> 7`, since the written
      `>= 7` refuses 7, the number `weekdayToNum` gives 日. */
  function NumToWeekday(x: Num): (r: Result<string>)
    ensures r.Success? <==> IsInteger(x) && 1.0 <= x.r <= 7.0
    ensures r.Success? ==> WeekdayToNum(r.value) == Success(x.r.Floor)
  {
    if !IsInteger(x) || x.r < 1.0 || x.r > 7.0 then Failure(WeekdayRangeError)
    else Success(WeekdayNames[x.r.Floor - 1])
  }

  /** `numToMonthName`: a lookup in a table whose slot 0 is `undefined`. */
  function NumToMonthName(x: Num): (r: Option<string>)
    ensures r.Some? <==> IsInteger(x) && 1.0 <= x.r <= 12.0
    ensures r.Some? ==> r.value == MonthNames[x.r.Floor - 1]
  {
    if IsInteger(x) && 1 <= x.r.Floor <= 12 then Some(MonthNames[x.r.Floor - 1]) else None
  }

  /** `yearToGanzhi` over a stem table. */
  function GanzhiWith(stems: seq<string>, year: int): string
  {
    var r := JsRem(year - 4, 60);
    Spelled(stems, JsRem(r, 10)) + Spelled(Dizhi, JsRem(r, 12))
  }

  /** `yearToGanzhi` as written. */
  function YearToGanzhiAsWritten(year: int): (r: string)
    ensures year >= 4 ==> r == TianganAsWritten[(year - 4) % 10] + Dizhi[(year - 4) % 12]
  {
    ModOfMod(year - 4);
    GanzhiWith(TianganAsWritten, year)
  }

  /** `yearToGanzhi` with the stems corrected. */
  function YearToGanzhi(year: int): (r: string)
    ensures year >= 4 ==> r == Tiangan[(year - 4) % 10] + Dizhi[(year - 4) % 12]
  {
    ModOfMod(year - 4);
    GanzhiWith(Tiangan, year)
  }

  /** `yearToShengxiao`: `undefined` (`None`) before year 4, except where
      the remainder is `-0`, which reads slot 0. */
  function YearToShengxiao(year: int): (r: Option<string>)
    ensures r.Some? <==> year >= 4 || (year - 4) % 12 == 0
    ensures r.Some? ==> r.value == Shengxiao[(year - 4) % 12]
  {
    var i := JsRem(year - 4, 12);
    if 0 <= i then Some(Shengxiao[i]) else None
  }

  const LeapYearError: Error := Error(RangeError, "year must be a positive int")

  /** `isLeapYear` as written.  A finite non-integer leaves a non-zero
      remainder modulo 400 and modulo 4, so the answer is `false`; `NaN` and
      `Infinity` leave `NaN`, which is falsy, so the answer is `!NaN`,
      `true`. */
  function IsLeapYearAsWritten(x: Num): (r: Result<bool>)
    ensures IsInteger(x) ==> r == Failure(LeapYearError)
    ensures r.Success? ==> !IsInteger(x)
  {
    match x
    case Finite(v) => if IsInteger(x) || v <= 0.0 then Failure(LeapYearError) else Success(false)
    case NaN => Success(true)
    case PosInf => Success(true)
    case NegInf => Failure(LeapYearError)
  }

  /** The formula on its own: `(y % 400) ? !(y % 4) : !(y % 400)`. */
  function LeapFormulaAsWritten(y: int): (r: bool)
    requires y > 0
  {
    if y % 400 != 0 then y % 4 == 0 else true
  }

  /** The Gregorian rule the function is named for. */
  function IsLeapYear(y: int): (r: Result<bool>)
    ensures r.Success? <==> y > 0
    ensures r.Success? ==> (r.value <==> y % 4 == 0 && (y % 100 != 0 || y % 400 == 0))
  {
    if y <= 0 then Failure(LeapYearError)
    else Success(y % 4 == 0 && (y % 100 != 0 || y % 400 == 0))
  }

  const YearRangeError: Error := Error(RangeError, "Year range: 1900-2100")

  /** `checkYearRange`: accepts exactly the integers 1901 to 2100. */
  function CheckYearRange(x: Num): (r: Result<()>)
    ensures r.Success? <==> IsInteger(x) && 1901 <= x.r.Floor <= 2100
    ensures r.Failure? ==> r.error == YearRangeError
  {
    if !IsSafeInteger(x) || x.NaN? || x.r <= 1900.0 || x.r > 2100.0 then Failure(YearRangeError)
    else Success(())
  }

  // ---------------------------------------------------------------------
  // Properties

  /** Reducing modulo 60 first keeps the remainders modulo 10 and 12. */
  lemma ModOfMod(a: int)
    ensures a >= 0 ==> (a % 60) % 10 == a % 10 && (a % 60) % 12 == a % 12
  {
    var q := a / 60;
    var r := a % 60;
    assert a == 60 * q + r;
    RemOfSum(a, 6 * q, r, 10);
    RemOfSum(a, 5 * q, r, 12);
  }

  lemma RemOfSum(a: int, k: int, r: int, m: int)
    requires m == 10 || m == 12
    requires a == m * k + r
    ensures a % m == r % m
  {
    var s := r % m;
    assert r == m * (r / m) + s;
    assert a == m * (k + r / m) + s;
  }

  /** `weekdayToNum` and the corrected `numToWeekday` are inverse. */
  /** The second defect: even with the integer test un-inverted, the
      written bound `>= 7` refuses 7, the number of 日, which the corrected
      guard names. */
  lemma SundayRefusedByBound()
    ensures WeekdayToNum("日") == Success(7)
    ensures IsInteger(Finite(7.0)) && OutOfRangeAsWritten(Finite(7.0))
    ensures forall k :: 0 <= k < 6 ==> !OutOfRangeAsWritten(Finite(WeekdayToNum(WeekdayNames[k]).value as real))
    ensures NumToWeekday(Finite(7.0)) == Success("日")
  {
    assert (7.0).Floor == 7;
  }

  lemma WeekdayRoundTrip(w: string, n: int)
    ensures WeekdayToNum(w).Success? ==> NumToWeekday(Finite(WeekdayToNum(w).value as real)) == Success(w)
    ensures 1 <= n <= 7 ==>
      (NumToWeekday(Finite(n as real)).Success? && WeekdayToNum(NumToWeekday(Finite(n as real)).value) == Success(n))
  {
  }

  /** The month names are distinct, so the month is recovered from its name. */
  lemma MonthNamesDistinct(a: int, b: int)
    requires 1 <= a <= 12 && 1 <= b <= 12 && a != b
    ensures NumToMonthName(Finite(a as real)) != NumToMonthName(Finite(b as real))
  {
  }

  /** The year name repeats every sixty years. */
  lemma GanzhiPeriod(year: int)
    requires year >= 4
    ensures YearToGanzhi(year + 60) == YearToGanzhi(year)
    ensures YearToGanzhiAsWritten(year + 60) == YearToGanzhiAsWritten(year)
  {
    assert (year + 60 - 4) % 10 == (year - 4) % 10;
    assert (year + 60 - 4) % 12 == (year - 4) % 12;
  }

  /** The animal repeats every twelve years and follows the branch of the
      year name. */
  lemma ShengxiaoFollowsBranch(year: int)
    requires year >= 4
    ensures YearToShengxiao(year + 12) == YearToShengxiao(year)
    ensures var k := (year - 4) % 12;
      YearToGanzhi(year)[1..] == Dizhi[k] && YearToShengxiao(year) == Some(Shengxiao[k])
  {
    assert (year + 12 - 4) % 12 == (year - 4) % 12;
    var k := (year - 4) % 12;
    var s := Tiangan[(year - 4) % 10];
    assert |s| == 1;
    assert (s + Dizhi[k])[1..] == Dizhi[k];
  }

  /** As written, the year 1978 is named `午午`: the stem and the branch
      are the same character. */
  lemma GanzhiAsWrittenRepeats()
    ensures YearToGanzhiAsWritten(1978) == "午午"
  {
    assert (1978 - 4) % 10 == 4 && (1978 - 4) % 12 == 6;
  }

  /** With the stems corrected no stem is also a branch, so the two halves
      of a year name never coincide; 1978 is `戊午`. */
  lemma GanzhiStemsAreNotBranches()
    ensures forall i, j :: 0 <= i < |Tiangan| && 0 <= j < |Dizhi| ==> Tiangan[i] != Dizhi[j]
    ensures YearToGanzhi(1978) == "戊午"
  {
    assert (1978 - 4) % 10 == 4 && (1978 - 4) % 12 == 6;
  }

  /** The formula, once reached, calls every multiple of 4 a leap year: it
      differs from the Gregorian rule exactly on the centuries not divisible
      by 400, such as 1900. */
  lemma LeapFormulaMissesCenturies(y: int)
    requires y > 0
    ensures LeapFormulaAsWritten(y) <==> y % 4 == 0
    ensures LeapFormulaAsWritten(y) != IsLeapYear(y).value <==> y % 100 == 0 && y % 400 != 0
    ensures LeapFormulaAsWritten(1900) && !IsLeapYear(1900).value
  {
  }

  /** The Gregorian rule repeats every 400 years. */
  lemma LeapPeriod(y: int)
    requires y > 0
    ensures IsLeapYear(y + 400) == IsLeapYear(y)
  {
    assert (y + 400) % 4 == y % 4;
    assert (y + 400) % 100 == y % 100;
    assert (y + 400) % 400 == y % 400;
  }
}
