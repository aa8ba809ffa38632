/**
 * DashService: the dashboard's period boundaries (today, this Monday-to-Sunday week, this
 * month), the four-period status summary assembled from the mapper's rows, and the guards that
 * answer a blank farm code or table name with an empty list. The mapper's queries are
 * parameters: what the database returns for a given argument.
 */
module DashService {
  import opened Wrappers
  import JavaText
  import Calendar

  // ---------------------------------------------------------------------------
  // Period parameters
  // ---------------------------------------------------------------------------

  const FromDate := "fromDate"
  const ToDate := "toDate"

  /** The parameter map handed to the mapper: both bounds, or nothing for "all". */
  type PeriodParam = map<string, Calendar.Date>

  /** Whether `p` holds both bounds and `today` lies between them. */
  predicate Brackets(p: PeriodParam, today: Calendar.Date)
    requires Calendar.IsValid(today)
  {
    p.Keys == {FromDate, ToDate}
    && Calendar.IsValid(p[FromDate]) && Calendar.IsValid(p[ToDate])
    && Calendar.DayNumber(p[FromDate]) <= Calendar.DayNumber(today) <= Calendar.DayNumber(p[ToDate])
  }

  /** buildPeriodParam(code), with `today` for LocalDate.now(): "1d" is today alone, "1w" this
      week's Monday to Sunday, "1m" the first to the last day of this month, anything else the
      empty map. */
  function BuildPeriodParam(code: string, today: Calendar.Date): (p: PeriodParam)
    requires Calendar.IsValid(today)
    ensures code == "1d" ==> p == map[FromDate := today, ToDate := today]
    ensures code == "1w" ==> Brackets(p, today)
                             && Calendar.DayOfWeek(p[FromDate]) == Calendar.Monday
                             && Calendar.DayOfWeek(p[ToDate]) == Calendar.Sunday
                             && Calendar.DayNumber(p[ToDate]) - Calendar.DayNumber(p[FromDate]) == 6
    ensures code == "1m" ==> Brackets(p, today)
                             && p[FromDate] == Calendar.Date(today.year, today.month, 1)
                             && p[ToDate].year == today.year && p[ToDate].month == today.month
                             && Calendar.NextDay(p[ToDate]).day == 1
    ensures code != "1d" && code != "1w" && code != "1m" ==> p == map[]
  {
    match code
    case "1d" => map[FromDate := today, ToDate := today]
    case "1w" => WeekParam(today)
    case "1m" => MonthParam(today)
    case _ => map[]
  }

  /** The "1w" period: the Monday on or before `today` to the Sunday on or after it. */
  function WeekParam(today: Calendar.Date): (p: PeriodParam)
    requires Calendar.IsValid(today)
    ensures Brackets(p, today)
    ensures Calendar.DayOfWeek(p[FromDate]) == Calendar.Monday
    ensures Calendar.DayOfWeek(p[ToDate]) == Calendar.Sunday
    ensures Calendar.DayNumber(p[ToDate]) - Calendar.DayNumber(p[FromDate]) == 6
  {
    var monday := Calendar.PreviousOrSame(today, Calendar.Monday);
    var sunday := Calendar.NextOrSame(today, Calendar.Sunday);
    WeekSpan(today);
    map[FromDate := monday, ToDate := sunday]
  }

  /** The "1m" period: the first to the last day of the month of `today`. */
  function MonthParam(today: Calendar.Date): (p: PeriodParam)
    requires Calendar.IsValid(today)
    ensures Brackets(p, today)
    ensures p[FromDate] == Calendar.Date(today.year, today.month, 1)
    ensures p[ToDate].year == today.year && p[ToDate].month == today.month
    ensures Calendar.NextDay(p[ToDate]).day == 1
  {
    Calendar.MonthBrackets(today);
    map[FromDate := Calendar.FirstDayOfMonth(today), ToDate := Calendar.LastDayOfMonth(today)]
  }

  /** The Monday on or before a day and the Sunday on or after it are six days apart. */
  lemma WeekSpan(today: Calendar.Date)
    requires Calendar.IsValid(today)
    ensures Calendar.DayNumber(Calendar.NextOrSame(today, Calendar.Sunday))
            - Calendar.DayNumber(Calendar.PreviousOrSame(today, Calendar.Monday)) == 6
  {
    MondayToSunday(Calendar.PreviousOrSame(today, Calendar.Monday), Calendar.NextOrSame(today, Calendar.Sunday));
  }

  /** A Monday and a Sunday at most twelve days later are six days apart. */
  lemma MondayToSunday(monday: Calendar.Date, sunday: Calendar.Date)
    requires Calendar.IsValid(monday) && Calendar.IsValid(sunday)
    requires Calendar.DayOfWeek(monday) == Calendar.Monday && Calendar.DayOfWeek(sunday) == Calendar.Sunday
    requires 0 <= Calendar.DayNumber(sunday) - Calendar.DayNumber(monday) <= 12
    ensures Calendar.DayNumber(sunday) - Calendar.DayNumber(monday) == 6
  {
    SpanOfResidues(Calendar.DayNumber(monday) - 1, Calendar.DayNumber(sunday) - 1);
  }

  /** Two numbers at most twelve apart, the first a multiple of seven and the second one short
      of one, are six apart. */
  lemma SpanOfResidues(x: int, y: int)
    requires x % 7 == 0 && y % 7 == 6 && 0 <= y - x <= 12
    ensures y - x == 6
  {
    var q, r := x / 7, y / 7;
    assert x == 7 * q && y == 7 * r + 6;
    assert r == q;
  }

  /** Every bounded period contains the day it was computed on, and today's period lies inside
      this week's and this month's. */
  lemma PeriodsNest(today: Calendar.Date)
    requires Calendar.IsValid(today)
    ensures Brackets(BuildPeriodParam("1d", today), today)
    ensures Brackets(BuildPeriodParam("1w", today), today)
    ensures Brackets(BuildPeriodParam("1m", today), today)
    ensures var d := BuildPeriodParam("1d", today);
            var w := BuildPeriodParam("1w", today);
            var m := BuildPeriodParam("1m", today);
            Calendar.DayNumber(w[FromDate]) <= Calendar.DayNumber(d[FromDate])
            && Calendar.DayNumber(d[ToDate]) <= Calendar.DayNumber(w[ToDate])
            && Calendar.DayNumber(m[FromDate]) <= Calendar.DayNumber(d[FromDate])
            && Calendar.DayNumber(d[ToDate]) <= Calendar.DayNumber(m[ToDate])
  {
    var d := BuildPeriodParam("1d", today);
    assert d[FromDate] == today && d[ToDate] == today;
  }

  // ---------------------------------------------------------------------------
  // Summary
  // ---------------------------------------------------------------------------

  /** A row of selectStatusCountByPeriod. */
  datatype SummaryRow = SummaryRow(statusLabel: Option<string>, cnt: int)

  /** DashSummaryDto. */
  datatype SummaryDto = SummaryDto(period: string, statusLabel: Option<string>, count: int)

  /** The period labels 전체, 이번달, 이번주 and 오늘. */
  const AllTime := "\U{C804}\U{CCB4}"
  const ThisMonth := "\U{C774}\U{BC88}\U{B2EC}"
  const ThisWeek := "\U{C774}\U{BC88}\U{C8FC}"
  const Today := "\U{C624}\U{B298}"

  /** The mapper's rows for a period parameter, null when it returns null. */
  type StatusQuery = PeriodParam -> Option<seq<SummaryRow>>

  /** The rows of one period as summary entries under its name; nothing for null rows. */
  function Labelled(name: string, rows: Option<seq<SummaryRow>>): (r: seq<SummaryDto>)
    ensures rows.None? ==> r == []
    ensures rows.Some? ==> |r| == |rows.value|
    ensures rows.Some? ==> forall i :: 0 <= i < |r| ==>
              r[i].period == name && r[i].statusLabel == rows.value[i].statusLabel && r[i].count == rows.value[i].cnt
  {
    if rows.None? then []
    else seq(|rows.value|, i requires 0 <= i < |rows.value| => SummaryDto(name, rows.value[i].statusLabel, rows.value[i].cnt))
  }

  /** collectSummary: one entry per row, in row order. */
  method CollectSummary(name: string, rows: Option<seq<SummaryRow>>) returns (out: seq<SummaryDto>)
    ensures out == Labelled(name, rows)
  {
    out := [];
    if rows.None? {
      return;
    }
    var rs := rows.value;
    var i := 0;
    while i < |rs|
      invariant 0 <= i <= |rs|
      invariant |out| == i
      invariant forall k :: 0 <= k < i ==> out[k] == SummaryDto(name, rs[k].statusLabel, rs[k].cnt)
    {
      out := out + [SummaryDto(name, rs[i].statusLabel, rs[i].cnt)];
      i := i + 1;
    }
  }

  /** The whole summary: all time, this month, this week, today, in that order. */
  function Summary(today: Calendar.Date, query: StatusQuery): seq<SummaryDto>
    requires Calendar.IsValid(today)
  {
    Labelled(AllTime, query(map[]))
    + Labelled(ThisMonth, query(BuildPeriodParam("1m", today)))
    + Labelled(ThisWeek, query(BuildPeriodParam("1w", today)))
    + Labelled(Today, query(BuildPeriodParam("1d", today)))
  }

  /** getSummary. */
  method GetSummary(today: Calendar.Date, query: StatusQuery) returns (out: seq<SummaryDto>)
    requires Calendar.IsValid(today)
    ensures out == Summary(today, query)
  {
    var month, week, day := BuildPeriodParam("1m", today), BuildPeriodParam("1w", today), BuildPeriodParam("1d", today);
    out := [];
    var part := CollectSummary(AllTime, query(map[]));
    out := out + part;
    assert out == part;
    part := CollectSummary(ThisMonth, query(month));
    out := out + part;
    part := CollectSummary(ThisWeek, query(week));
    out := out + part;
    part := CollectSummary(Today, query(day));
    out := out + part;
  }

  /** The position of a period name in the summary's order. */
  function PeriodRank(name: string): nat {
    if name == AllTime then 0
    else if name == ThisMonth then 1
    else if name == ThisWeek then 2
    else 3
  }

  /** Entries in non-decreasing period order. */
  predicate InPeriodOrder(s: seq<SummaryDto>) {
    forall i, j :: 0 <= i < j < |s| ==> PeriodRank(s[i].period) <= PeriodRank(s[j].period)
  }

  /** Appending a block of one period, ranked no lower than anything before it, keeps the order. */
  lemma AppendBlock(s: seq<SummaryDto>, b: seq<SummaryDto>, name: string)
    requires InPeriodOrder(s)
    requires forall i :: 0 <= i < |s| ==> PeriodRank(s[i].period) <= PeriodRank(name)
    requires forall i :: 0 <= i < |b| ==> b[i].period == name
    ensures InPeriodOrder(s + b)
    ensures forall i :: 0 <= i < |s + b| ==> PeriodRank((s + b)[i].period) <= PeriodRank(name)
  {
    var t := s + b;
    forall i, j | 0 <= i < j < |t|
      ensures PeriodRank(t[i].period) <= PeriodRank(t[j].period)
    {
      if j >= |s| {
        assert t[j] == b[j - |s|];
        if i >= |s| {
          assert t[i] == b[i - |s|];
        }
      }
    }
  }

  /** Four labelled blocks, all time first and today last, are in period order. */
  lemma BlocksInPeriodOrder(r0: Option<seq<SummaryRow>>, r1: Option<seq<SummaryRow>>,
                            r2: Option<seq<SummaryRow>>, r3: Option<seq<SummaryRow>>)
    ensures var s := Labelled(AllTime, r0) + Labelled(ThisMonth, r1) + Labelled(ThisWeek, r2) + Labelled(Today, r3);
            InPeriodOrder(s) && forall i :: 0 <= i < |s| ==> s[i].period in {AllTime, ThisMonth, ThisWeek, Today}
  {
    FourBlocks(Labelled(AllTime, r0), Labelled(ThisMonth, r1), Labelled(ThisWeek, r2), Labelled(Today, r3));
  }

  /** Blocks of all time, this month, this week and today, concatenated in that order, are in
      period order and name no other period. */
  lemma {:induction false} FourBlocks(a: seq<SummaryDto>, m: seq<SummaryDto>, w: seq<SummaryDto>, d: seq<SummaryDto>)
    requires forall i :: 0 <= i < |a| ==> a[i].period == AllTime
    requires forall i :: 0 <= i < |m| ==> m[i].period == ThisMonth
    requires forall i :: 0 <= i < |w| ==> w[i].period == ThisWeek
    requires forall i :: 0 <= i < |d| ==> d[i].period == Today
    ensures InPeriodOrder(a + m + w + d)
    ensures forall i :: 0 <= i < |a + m + w + d| ==> (a + m + w + d)[i].period in {AllTime, ThisMonth, ThisWeek, Today}
  {
    AppendBlock([], a, AllTime);
    assert [] + a == a;
    AppendBlock(a, m, ThisMonth);
    AppendBlock(a + m, w, ThisWeek);
    AppendBlock(a + m + w, d, Today);
    KnownPeriodsAppend(a, m);
    KnownPeriodsAppend(a + m, w);
    KnownPeriodsAppend(a + m + w, d);
  }

  lemma KnownPeriodsAppend(x: seq<SummaryDto>, y: seq<SummaryDto>)
    requires forall i :: 0 <= i < |x| ==> x[i].period in {AllTime, ThisMonth, ThisWeek, Today}
    requires forall i :: 0 <= i < |y| ==> y[i].period in {AllTime, ThisMonth, ThisWeek, Today}
    ensures forall i :: 0 <= i < |x + y| ==> (x + y)[i].period in {AllTime, ThisMonth, ThisWeek, Today}
  {
    forall i | 0 <= i < |x + y|
      ensures (x + y)[i].period in {AllTime, ThisMonth, ThisWeek, Today}
    {
      if i >= |x| {
        assert (x + y)[i] == y[i - |x|];
      }
    }
  }

  /** The summary lists the four periods as consecutive blocks in their fixed order. */
  lemma SummaryInPeriodOrder(today: Calendar.Date, query: StatusQuery)
    requires Calendar.IsValid(today)
    ensures InPeriodOrder(Summary(today, query))
    ensures forall i :: 0 <= i < |Summary(today, query)| ==>
              Summary(today, query)[i].period in {AllTime, ThisMonth, ThisWeek, Today}
  {
    BlocksInPeriodOrder(query(map[]), query(BuildPeriodParam("1m", today)),
                        query(BuildPeriodParam("1w", today)), query(BuildPeriodParam("1d", today)));
  }

  // ---------------------------------------------------------------------------
  // Blank-argument guards
  // ---------------------------------------------------------------------------

  /** A code and name pair of the filter lists. */
  datatype CodeName = CodeName(code: Option<string>, name: Option<string>)

  /** getEquipmentListByFarm: no query for a null or blank farm code. */
  function EquipmentListByFarm(farmCode: Option<string>, select: string -> seq<CodeName>): (r: seq<CodeName>)
    ensures JavaText.IsNullOrBlank(farmCode) ==> r == []
    ensures !JavaText.IsNullOrBlank(farmCode) ==> r == select(farmCode.value)
  {
    if JavaText.IsNullOrBlank(farmCode) then [] else select(farmCode.value)
  }

  /** getFarmListByEquipment: no query for a null or blank table name. */
  function FarmListByEquipment(tableName: Option<string>, select: string -> seq<CodeName>): (r: seq<CodeName>)
    ensures JavaText.IsNullOrBlank(tableName) ==> r == []
    ensures !JavaText.IsNullOrBlank(tableName) ==> r == select(tableName.value)
  {
    if JavaText.IsNullOrBlank(tableName) then [] else select(tableName.value)
  }

  /** A blank argument makes the answer independent of the database; a non-blank one is passed to
      the query untrimmed. */
  lemma GuardsIgnoreDatabase(arg: Option<string>, select1: string -> seq<CodeName>, select2: string -> seq<CodeName>)
    ensures JavaText.IsNullOrBlank(arg) ==>
              EquipmentListByFarm(arg, select1) == EquipmentListByFarm(arg, select2) == []
              && FarmListByEquipment(arg, select1) == FarmListByEquipment(arg, select2) == []
    ensures (forall s :: select1(s) == select2(s)) ==>
              EquipmentListByFarm(arg, select1) == EquipmentListByFarm(arg, select2)
              && FarmListByEquipment(arg, select1) == FarmListByEquipment(arg, select2)
  {
  }
}
