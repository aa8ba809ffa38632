/**
 * AsController: the request parameters of the ticket list, the schedule list and the schedule
 * export turned into the query the mapper receives (CSV filters, legacy parameters, sort
 * defaults, paging arithmetic in Java `int`), the export column selection, and the calendar
 * page's visible week and farm colour map. The mapper queries, the view model and the
 * spreadsheet writing are not modelled.
 */
module AsController {
  import opened Wrappers
  import JavaText
  import Seqs
  import Calendar

  /** The "other" equipment type (기타) and the "on hold" status (보류). */
  const Etc := "\U{AE30}\U{D0C0}"
  const Hold := "\U{BCF4}\U{B958}"

  // ---------------------------------------------------------------------------
  // CSV filters
  // ---------------------------------------------------------------------------

  /** `map(String::trim)`. */
  function TrimAll(xs: seq<string>): (r: seq<string>)
    ensures |r| == |xs| && forall i :: 0 <= i < |xs| ==> r[i] == JavaText.Trim(xs[i])
  {
    seq(|xs|, i requires 0 <= i < |xs| => JavaText.Trim(xs[i]))
  }

  /** The trimmed fields of `s.split(",")`. */
  function CsvFields(s: string): seq<string> {
    TrimAll(JavaText.SplitComma(s))
  }

  predicate NonEmpty(v: string) {
    v != ""
  }

  /** csvToList and csvToList2: null or blank gives the empty list; otherwise the trimmed
      comma fields, without empty ones, each once. */
  function CsvToList(s: Option<string>): (r: seq<string>)
    ensures JavaText.IsNullOrBlank(s) ==> r == []
    ensures !JavaText.IsNullOrBlank(s) ==> forall v :: v in r <==> v in CsvFields(s.value) && v != ""
    ensures Seqs.NoDuplicates(r)
  {
    if JavaText.IsNullOrBlank(s) then []
    else Seqs.Distinct(Seqs.Filter(CsvFields(s.value), NonEmpty))
  }

  /** The values come out in the order in which they first appear in the text. */
  lemma CsvToListOrder(s: string, i: nat, j: nat)
    requires !JavaText.IsBlank(s)
    requires i < j < |CsvToList(Some(s))|
    ensures var r := CsvToList(Some(s));
            Seqs.FirstIndex(CsvFields(s), r[i]) < Seqs.FirstIndex(CsvFields(s), r[j])
  {
    var kept := Seqs.Filter(CsvFields(s), NonEmpty);
    var r := Seqs.Distinct(kept);
    Seqs.DistinctKeepsFirstOccurrenceOrder(kept);
    Seqs.FilterKeepsFirstOccurrenceOrder(CsvFields(s), NonEmpty, r[i], r[j]);
  }

  /** A value that survives a comma-separated round trip: not empty, no comma, and nothing that
      `trim` would cut at either end. */
  predicate IsPlainField(v: string) {
    v != [] && ',' !in v && !JavaText.IsTrimmable(v[0]) && !JavaText.IsTrimmable(v[|v| - 1])
  }

  /** A list of distinct plain values, one of which has text, is read back from its comma-joined
      form unchanged. */
  lemma CsvToListOfJoined(values: seq<string>)
    requires |values| >= 1 && Seqs.NoDuplicates(values)
    requires forall k :: 0 <= k < |values| ==> IsPlainField(values[k])
    requires exists k :: 0 <= k < |values| && !JavaText.IsBlank(values[k])
    ensures CsvToList(Some(JavaText.JoinWith(values, ','))) == values
  {
    var s := JavaText.JoinWith(values, ',');
    JavaText.SplitJoin(values, ',');
    assert JavaText.SplitComma(s) == values;
    TrimAllPlain(values);
    assert CsvFields(s) == values;
    Seqs.FilterKeepsAll(values, NonEmpty);
    Seqs.DistinctOfNoDuplicates(values);
    JoinedNotBlank(values);
    assert !JavaText.IsNullOrBlank(Some(s));
    assert Seqs.Filter(CsvFields(s), NonEmpty) == values;
  }

  lemma TrimAllPlain(values: seq<string>)
    requires forall k :: 0 <= k < |values| ==> IsPlainField(values[k])
    ensures TrimAll(values) == values
  {
    forall k | 0 <= k < |values| ensures JavaText.Trim(values[k]) == values[k] {
      assert JavaText.TrimStart(values[k]) == values[k];
      assert JavaText.TrimEnd(values[k]) == values[k];
    }
  }

  lemma JoinedNotBlank(values: seq<string>)
    requires forall k :: 0 <= k < |values| ==> IsPlainField(values[k])
    requires exists k :: 0 <= k < |values| && !JavaText.IsBlank(values[k])
    ensures !JavaText.IsBlank(JavaText.JoinWith(values, ','))
  {
    var k :| 0 <= k < |values| && !JavaText.IsBlank(values[k]);
    var i :| 0 <= i < |values[k]| && !JavaText.IsWhitespace(values[k][i]);
    var c := values[k][i];
    assert c != ',';
    JavaText.JoinWithChars(values, ',', c);
  }

  predicate NotEtc(t: string) {
    t != Etc
  }

  /** The equipment types without "기타". */
  function WithoutEtc(types: seq<string>): (r: seq<string>)
    ensures forall t :: t in r <==> t in types && t != Etc
  {
    Seqs.Filter(types, NotEtc)
  }

  /** Taking "기타" out of a parsed type list removes just that entry and keeps the order. */
  lemma WithoutEtcKeepsOrder(types: Option<string>)
    requires Etc in CsvToList(types)
    ensures var ts := CsvToList(types);
            WithoutEtc(ts) == ts[..Seqs.FirstIndex(ts, Etc)] + ts[Seqs.FirstIndex(ts, Etc) + 1..]
  {
    Seqs.FilterOutOne(CsvToList(types), Etc, NotEtc);
  }

  /** Without "기타" among the types, the forwarded list is the parsed list. */
  lemma WithoutEtcUnchanged(types: seq<string>)
    requires Etc !in types
    ensures WithoutEtc(types) == types
  {
    Seqs.FilterKeepsAll(types, NotEtc);
  }

  // ---------------------------------------------------------------------------
  // Java int arithmetic for paging
  // ---------------------------------------------------------------------------

  const MinInt := -0x8000_0000
  const MaxInt := 0x7FFF_FFFF

  predicate IsInt32(x: int) {
    MinInt <= x <= MaxInt
  }

  /** Two's-complement wrap-around of an `int` result. */
  function Wrap32(x: int): (r: int)
    ensures IsInt32(r) && (r - x) % 0x1_0000_0000 == 0
    ensures IsInt32(x) ==> r == x
  {
    (x - MinInt) % 0x1_0000_0000 + MinInt
  }

  /** `(page - 1) * size` in `int`. */
  function Offset(page: int, size: int): (offset: int)
    requires IsInt32(page) && IsInt32(size)
    ensures IsInt32(offset)
    ensures IsInt32((page - 1) * size) ==> offset == (page - 1) * size
  {
    Wrap32((page - 1) * size)
  }

  /** A page far enough out makes the offset wrap to a negative number. */
  lemma LargePageWrapsNegative()
    ensures Offset(214748366, 10) == -2147483646
  {
  }

  /** The ceiling of a / b, for b other than zero. */
  function CeilDiv(a: int, b: int): (q: int)
    requires b != 0
    ensures b > 0 ==> (q - 1) * b < a <= q * b
  {
    if b > 0 then
      var q := (a + b - 1) / b;
      assert a + b - 1 == q * b + (a + b - 1) % b;
      q
    else (-a + -b - 1) / -b
  }

  /** `(int) Math.ceil((double) total / size)`: a division by zero gives an infinity or NaN,
      which the cast turns into the largest or smallest int or 0; a quotient out of range is
      clamped the same way. */
  function TotalPages(total: int, size: int): (pages: int)
    requires IsInt32(total) && IsInt32(size)
    ensures IsInt32(pages)
    ensures size > 0 ==> (pages - 1) * size < total <= pages * size
    ensures size == 0 ==> pages == (if total > 0 then MaxInt else if total < 0 then MinInt else 0)
  {
    if size == 0 then
      (if total > 0 then MaxInt else if total < 0 then MinInt else 0)
    else
      var q := CeilDiv(total, size);
      if q > MaxInt then MaxInt else if q < MinInt then MinInt else q
  }

  /** With a positive size, a page starts inside the result set exactly when its number is at
      most the page count. */
  lemma PageInRange(page: int, size: int, total: int)
    requires IsInt32(page) && IsInt32(size) && IsInt32(total)
    requires 1 <= page && 0 < size && 0 <= total && IsInt32((page - 1) * size)
    ensures Offset(page, size) < total <==> page <= TotalPages(total, size)
  {
    var pages := TotalPages(total, size);
    assert Offset(page, size) == (page - 1) * size;
    PageBound(page, size, total, pages);
  }

  /** Against a ceiling quotient `pages` of total by size, a page starts below the total exactly
      when its number is at most `pages`. */
  lemma PageBound(page: int, size: int, total: int, pages: int)
    requires 0 < size && (pages - 1) * size < total <= pages * size
    ensures (page - 1) * size < total <==> page <= pages
  {
    if page <= pages {
      MulMonotone(page - 1, pages - 1, size);
    } else {
      MulMonotone(pages, page - 1, size);
    }
  }

  lemma MulMonotone(a: int, b: int, s: int)
    requires a <= b && 0 < s
    ensures a * s <= b * s
  {
    assert b * s - a * s == (b - a) * s;
  }

  // ---------------------------------------------------------------------------
  // The list page
  // ---------------------------------------------------------------------------

  datatype ListPageRequest = ListPageRequest(
    keyword: Option<string>,
    asStatus: Option<string>,
    startDate: Option<Calendar.DateTime>,
    endDate: Option<Calendar.DateTime>,
    sortField: Option<string>,
    sortDir: Option<string>,
    page: int,
    size: int,
    farms: Option<string>,
    types: Option<string>,
    statuses: Option<string>,
    tables: Option<string>,
    equipName: Option<string>,
    period: Option<string>,
    q: Option<string>,
    dateBy: string)

  /** The parameters handed to selectAsListFiltered and countAsListFiltered. */
  datatype ListQuery = ListQuery(
    farms: seq<string>,
    types: seq<string>,
    includeEtc: bool,
    statuses: seq<string>,
    includeHold: bool,
    tables: seq<string>,
    equipName: Option<string>,
    period: Option<string>,
    q: Option<string>,
    dateBy: string,
    startDate: Option<Calendar.DateTime>,
    endDate: Option<Calendar.DateTime>,
    size: int,
    offset: int,
    sortField: string,
    sortDir: string)

  /** The free-text search as passed on: trimmed, or null when blank. */
  function SearchText(q: Option<string>): (r: Option<string>)
    ensures r.None? <==> JavaText.IsNullOrBlank(q)
    ensures r.Some? ==> r.value == JavaText.Trim(q.value)
  {
    if q.Some? && !JavaText.IsBlank(q.value) then Some(JavaText.Trim(q.value)) else None
  }

  /** A parameter with a default for null or blank values. */
  function OrDefault(v: Option<string>, default: string): (r: string)
    ensures JavaText.IsNullOrBlank(v) ==> r == default
    ensures !JavaText.IsNullOrBlank(v) ==> r == v.value
  {
    if JavaText.IsNullOrBlank(v) then default else v.value
  }

  /** "reg" exactly when the parameter is "reg" in any case, "plan" for anything else. */
  function DateByNorm(dateBy: string): (r: string)
    ensures r == "reg" <==> JavaText.EqualsIgnoreCase(dateBy, "reg")
    ensures r == "plan" <==> !JavaText.EqualsIgnoreCase(dateBy, "reg")
  {
    if JavaText.EqualsIgnoreCase(dateBy, "reg") then "reg" else "plan"
  }

  /** The search text of the list page: `q`, or when that is blank the legacy `keyword`,
      trimmed; None when neither has text after trimming. */
  function QueryText(q: Option<string>, keyword: Option<string>): (r: Option<string>)
    ensures !JavaText.IsNullOrBlank(q) ==> r == Some(JavaText.Trim(q.value))
    ensures JavaText.IsNullOrBlank(q) && keyword.Some? && !JavaText.IsBlank(JavaText.Trim(keyword.value)) ==>
              r == Some(JavaText.Trim(keyword.value))
    ensures JavaText.IsNullOrBlank(q) && (keyword.None? || JavaText.IsBlank(JavaText.Trim(keyword.value))) ==>
              r.None?
  {
    if !JavaText.IsNullOrBlank(q) then SearchText(q)
    else if JavaText.IsNullOrBlank(keyword) then
      (if keyword.Some? then TrimmedTextHasText(keyword.value); None else None)
    else
      JavaText.TrimIdempotent(keyword.value);
      SearchText(Some(JavaText.Trim(keyword.value)))
  }

  /** showListPage: the legacy `keyword` fills `q` and `asStatus` fills `statuses` only when the
      new parameter is blank; sort defaults to asId, descending. */
  function ListQueryOf(req: ListPageRequest): (r: ListQuery)
    requires IsInt32(req.page) && IsInt32(req.size)
    ensures r.q == QueryText(req.q, req.keyword)
    ensures r.statuses == CsvToList(if JavaText.IsNullOrBlank(req.statuses) && !JavaText.IsNullOrBlank(req.asStatus)
                                    then req.asStatus else req.statuses)
    ensures r.includeHold <==> Hold in r.statuses
    ensures r.includeEtc <==> Etc in CsvToList(req.types)
    ensures forall t :: t in r.types <==> t in CsvToList(req.types) && t != Etc
    ensures r.types == WithoutEtc(CsvToList(req.types))
    ensures r.farms == CsvToList(req.farms) && r.tables == CsvToList(req.tables)
    ensures r.equipName == req.equipName && r.period == req.period
    ensures r.startDate == req.startDate && r.endDate == req.endDate
    ensures r.sortField == OrDefault(req.sortField, "asId") && r.sortDir == OrDefault(req.sortDir, "desc")
    ensures r.dateBy == DateByNorm(req.dateBy)
    ensures r.offset == Offset(req.page, req.size) && r.size == req.size
  {
    var statuses := if JavaText.IsNullOrBlank(req.statuses) && !JavaText.IsNullOrBlank(req.asStatus)
                    then req.asStatus else req.statuses;
    var typeList := CsvToList(req.types);
    var statusList := CsvToList(statuses);
    ListQuery(
      CsvToList(req.farms), WithoutEtc(typeList), Etc in typeList, statusList, Hold in statusList,
      CsvToList(req.tables), req.equipName, req.period, QueryText(req.q, req.keyword), DateByNorm(req.dateBy),
      req.startDate, req.endDate, req.size, Offset(req.page, req.size),
      OrDefault(req.sortField, "asId"), OrDefault(req.sortDir, "desc"))
  }

  /** A string whose trimmed form has text has text itself. */
  lemma TrimmedTextHasText(s: string)
    ensures !JavaText.IsBlank(JavaText.Trim(s)) ==> !JavaText.IsBlank(s)
  {
    var t := JavaText.Trim(s);
    if !JavaText.IsBlank(t) {
      var k :| 0 <= k < |t| && !JavaText.IsWhitespace(t[k]);
      var u := JavaText.TrimStart(s);
      assert t == JavaText.TrimEnd(u);
      assert u[k] == t[k];
      assert s[|s| - |u| + k] == u[k];
    }
  }

  // ---------------------------------------------------------------------------
  // The schedule list and its export
  // ---------------------------------------------------------------------------

  datatype ScheduleRequest = ScheduleRequest(
    q: Option<string>,
    farms: Option<string>,
    types: Option<string>,
    tables: Option<string>,
    equipName: Option<string>,
    completion: Option<string>,
    period: Option<string>,
    startDate: Option<Calendar.DateTime>,
    endDate: Option<Calendar.DateTime>,
    sortField: Option<string>,
    sortDir: Option<string>)

  /** The filter parameters the schedule list and the export both build. */
  datatype ScheduleFilter = ScheduleFilter(
    q: Option<string>,
    farms: seq<string>,
    types: seq<string>,
    includeEtc: bool,
    tables: seq<string>,
    equipName: Option<string>,
    completion: Option<string>,
    period: Option<string>,
    startDate: Option<Calendar.DateTime>,
    endDate: Option<Calendar.DateTime>,
    sortField: string,
    sortDir: string)

  /** The schedule filter: sort defaults to planDate, ascending. */
  function ScheduleFilterOf(req: ScheduleRequest): (r: ScheduleFilter)
    ensures r.q == SearchText(req.q)
    ensures r.includeEtc <==> Etc in CsvToList(req.types)
    ensures forall t :: t in r.types <==> t in CsvToList(req.types) && t != Etc
    ensures r.types == WithoutEtc(CsvToList(req.types))
    ensures r.farms == CsvToList(req.farms) && r.tables == CsvToList(req.tables)
    ensures r.sortField == OrDefault(req.sortField, "planDate") && r.sortDir == OrDefault(req.sortDir, "asc")
    ensures r.equipName == req.equipName && r.completion == req.completion && r.period == req.period
    ensures r.startDate == req.startDate && r.endDate == req.endDate
  {
    var typeList := CsvToList(req.types);
    ScheduleFilter(
      SearchText(req.q), CsvToList(req.farms), WithoutEtc(typeList), Etc in typeList,
      CsvToList(req.tables), req.equipName, req.completion, req.period, req.startDate, req.endDate,
      OrDefault(req.sortField, "planDate"), OrDefault(req.sortDir, "asc"))
  }

  /** The schedule list sends the filter with the paging window. */
  datatype SchedulePage = SchedulePage(filter: ScheduleFilter, offset: int, size: int)

  function SchedulePageOf(req: ScheduleRequest, page: int, size: int): (r: SchedulePage)
    requires IsInt32(page) && IsInt32(size)
    ensures r.filter == ScheduleFilterOf(req)
    ensures r.offset == Offset(page, size) && r.size == size
  {
    SchedulePage(ScheduleFilterOf(req), Offset(page, size), size)
  }

  /** The list page and the schedule pages differ in their sort defaults only when the sort
      parameters are blank. */
  lemma SortDefaultsDiffer(list: ListPageRequest, schedule: ScheduleRequest)
    requires IsInt32(list.page) && IsInt32(list.size)
    requires JavaText.IsNullOrBlank(list.sortField) && JavaText.IsNullOrBlank(schedule.sortField)
    requires JavaText.IsNullOrBlank(list.sortDir) && JavaText.IsNullOrBlank(schedule.sortDir)
    ensures ListQueryOf(list).sortField == "asId" && ListQueryOf(list).sortDir == "desc"
    ensures ScheduleFilterOf(schedule).sortField == "planDate" && ScheduleFilterOf(schedule).sortDir == "asc"
  {
  }

  const DefaultColumns := ["asId", "farmName", "farmCode", "regionName", "projectName",
                           "asType", "reqDate", "planDate", "completeDate", "completedMark"]

  predicate IsAllowedColumn(c: string) {
    c in DefaultColumns
  }

  lemma DefaultColumnsDistinct()
    ensures Seqs.NoDuplicates(DefaultColumns)
  {
  }

  /** The requested fields that are known column names, in request order. */
  function AllowedFields(cols: string): (r: seq<string>)
    ensures forall c :: c in r <==> c in CsvFields(cols) && c in DefaultColumns
  {
    Seqs.Filter(CsvFields(cols), IsAllowedColumn)
  }

  /** The exported columns: all ten in fixed order for a blank `cols`; otherwise the allowed
      trimmed names in request order, each once, falling back to all ten if none is left. */
  function ExportColumns(cols: Option<string>): (r: seq<string>)
    ensures r != [] && Seqs.NoDuplicates(r)
    ensures forall c :: c in r ==> c in DefaultColumns
    ensures JavaText.IsNullOrBlank(cols) ==> r == DefaultColumns
    ensures !JavaText.IsNullOrBlank(cols) && (forall c :: c in CsvFields(cols.value) ==> c !in DefaultColumns) ==>
              r == DefaultColumns
    ensures !JavaText.IsNullOrBlank(cols) && (exists c :: c in CsvFields(cols.value) && c in DefaultColumns) ==>
              forall c :: c in r <==> c in CsvFields(cols.value) && c in DefaultColumns
  {
    DefaultColumnsDistinct();
    if JavaText.IsNullOrBlank(cols) then DefaultColumns
    else
      var picked := Seqs.Distinct(AllowedFields(cols.value));
      assert picked == [] <==> AllowedFields(cols.value) == [] by {
        if AllowedFields(cols.value) != [] {
          assert AllowedFields(cols.value)[0] in picked;
        }
      }
      if picked == [] then DefaultColumns else picked
  }

  /** Chosen columns keep the order in which the request names them. */
  lemma ExportColumnsOrder(cols: string, i: nat, j: nat)
    requires !JavaText.IsBlank(cols) && exists c :: c in CsvFields(cols) && c in DefaultColumns
    requires i < j < |ExportColumns(Some(cols))|
    ensures var r := ExportColumns(Some(cols));
            Seqs.FirstIndex(CsvFields(cols), r[i]) < Seqs.FirstIndex(CsvFields(cols), r[j])
  {
    var kept := AllowedFields(cols);
    var c :| c in CsvFields(cols) && c in DefaultColumns;
    assert c in kept;
    var r := Seqs.Distinct(kept);
    assert c in r;
    Seqs.DistinctKeepsFirstOccurrenceOrder(kept);
    Seqs.FilterKeepsFirstOccurrenceOrder(CsvFields(cols), IsAllowedColumn, r[i], r[j]);
  }

  // ---------------------------------------------------------------------------
  // The calendar page
  // ---------------------------------------------------------------------------

  lemma WeekDay(monday: Calendar.Date, i: int)
    requires Calendar.IsValid(monday) && Calendar.DayOfWeek(monday) == Calendar.Monday && 0 <= i < 7
    ensures Calendar.DayOfWeek(Calendar.PlusDays(monday, i)) == i + 1
  {
    Calendar.DayOfWeekPlusDays(monday, i);
    Calendar.SmallModSeven(i);
  }

  /** Monday to Sunday of the week holding `today`. */
  function FullWeek(today: Calendar.Date): (w: seq<Calendar.Date>)
    requires Calendar.IsValid(today)
    ensures |w| == 7
    ensures forall i :: 0 <= i < 7 ==> Calendar.IsValid(w[i]) && Calendar.DayOfWeek(w[i]) == i + 1
    ensures forall i :: 0 <= i < 7 ==>
              Calendar.DayNumber(w[i]) == Calendar.DayNumber(today) - Calendar.DayOfWeek(today) + 1 + i
  {
    var monday := Calendar.WithDayOfWeek(today, Calendar.Monday);
    var w := seq(7, i requires 0 <= i < 7 => Calendar.PlusDays(monday, i));
    assert forall i :: 0 <= i < 7 ==> Calendar.DayOfWeek(w[i]) == i + 1 by {
      forall i | 0 <= i < 7 ensures Calendar.DayOfWeek(w[i]) == i + 1 {
        WeekDay(monday, i);
      }
    }
    w
  }

  /** Whether some schedule's plan date falls on `day`. */
  predicate PlannedOn(plans: seq<Option<Calendar.DateTime>>, day: Calendar.Date) {
    exists i :: 0 <= i < |plans| && plans[i].Some? && plans[i].value.date == day
  }

  /** anyMatch over the schedules' plan dates: None when it reaches a schedule without a plan
      date before finding a match (the NullPointerException). */
  function AnyPlanOn(plans: seq<Option<Calendar.DateTime>>, day: Calendar.Date): (r: Option<bool>)
    ensures r == Some(true) ==> PlannedOn(plans, day)
    ensures (forall i :: 0 <= i < |plans| ==> plans[i].Some?) ==> r == Some(PlannedOn(plans, day))
  {
    if plans == [] then Some(false)
    else if plans[0].None? then None
    else if plans[0].value.date == day then Some(true)
    else
      var r := AnyPlanOn(plans[1..], day);
      assert forall i :: 1 <= i < |plans| ==> plans[i] == plans[1..][i - 1];
      r
  }

  /** The calendar's day filter: a weekday is always shown, a weekend day when some schedule is
      planned on it; None when that search throws. (Every date here is a calendar date; the
      validity test only keeps the function total.) */
  function KeepDay(plans: seq<Option<Calendar.DateTime>>, d: Calendar.Date): Option<bool> {
    if Calendar.IsValid(d) && Calendar.DayOfWeek(d) < Calendar.Saturday then Some(true) else AnyPlanOn(plans, d)
  }

  /** A weekday is shown without looking at the schedules. */
  lemma WeekdayKept(plans: seq<Option<Calendar.DateTime>>, d: Calendar.Date)
    requires Calendar.IsValid(d) && Calendar.DayOfWeek(d) < Calendar.Saturday
    ensures KeepDay(plans, d) == Some(true)
  {
  }

  /** A weekend day is shown exactly when a schedule is planned on it, once every plan date is
      present. */
  lemma WeekendDayKept(plans: seq<Option<Calendar.DateTime>>, d: Calendar.Date)
    requires Calendar.IsValid(d) && Calendar.DayOfWeek(d) >= Calendar.Saturday
    requires forall i :: 0 <= i < |plans| ==> plans[i].Some?
    ensures KeepDay(plans, d) == Some(PlannedOn(plans, d))
  {
  }

  /** visibleWeekList for `today`, or None when a schedule without a plan date makes the filter
      throw. */
  function VisibleWeek(today: Calendar.Date, plans: seq<Option<Calendar.DateTime>>): Option<seq<Calendar.Date>>
    requires Calendar.IsValid(today)
  {
    Seqs.FilterOrThrow(FullWeek(today), DayFilter(plans))
  }

  /** KeepDay as the filter's predicate. */
  function DayFilter(plans: seq<Option<Calendar.DateTime>>): Calendar.Date -> Option<bool> {
    d => KeepDay(plans, d)
  }

  /** With every plan date present, the visible week is Monday to Friday, then Saturday if a
      schedule is planned on it, then Sunday if one is. */
  lemma VisibleWeekShape(today: Calendar.Date, plans: seq<Option<Calendar.DateTime>>)
    requires Calendar.IsValid(today)
    requires forall i :: 0 <= i < |plans| ==> plans[i].Some?
    ensures var w := FullWeek(today);
            VisibleWeek(today, plans) ==
              Some(w[..5] + (if PlannedOn(plans, w[5]) then [w[5]] else [])
                          + (if PlannedOn(plans, w[6]) then [w[6]] else []))
  {
    WeekShape(FullWeek(today), plans);
  }

  /** The filter over a Monday-to-Sunday week keeps the weekdays and the planned weekend days. */
  lemma WeekShape(w: seq<Calendar.Date>, plans: seq<Option<Calendar.DateTime>>)
    requires |w| == 7 && forall i :: 0 <= i < 7 ==> Calendar.IsValid(w[i]) && Calendar.DayOfWeek(w[i]) == i + 1
    requires forall i :: 0 <= i < |plans| ==> plans[i].Some?
    ensures Seqs.FilterOrThrow(w, DayFilter(plans)) ==
              Some(w[..5] + (if PlannedOn(plans, w[5]) then [w[5]] else [])
                          + (if PlannedOn(plans, w[6]) then [w[6]] else []))
  {
    var keep := DayFilter(plans);
    forall i | 0 <= i < 5 ensures keep(w[i]) == Some(true) {
      WeekdayKept(plans, w[i]);
    }
    Seqs.FilterOrThrowKeepsPrefix(w, 5, keep);
    WeekendDayKept(plans, w[5]);
    WeekendDayKept(plans, w[6]);
    var sat, sun := PlannedOn(plans, w[5]), PlannedOn(plans, w[6]);
    Seqs.FilterOrThrowPair(w[5..], keep, sat, sun);
    var weekend := (if sat then [w[5]] else []) + (if sun then [w[6]] else []);
    assert Seqs.FilterOrThrow(w[5..], keep) == Some(weekend);
    assert w[..5] + weekend == w[..5] + (if sat then [w[5]] else []) + (if sun then [w[6]] else []);
  }

  /** A first schedule without a plan date makes the calendar page fail, whatever the week. */
  lemma MissingPlanDateFails(today: Calendar.Date, plans: seq<Option<Calendar.DateTime>>)
    requires Calendar.IsValid(today)
    requires |plans| >= 1 && plans[0].None?
    ensures VisibleWeek(today, plans).None?
  {
    var w := FullWeek(today);
    var keep := DayFilter(plans);
    forall i | 0 <= i < 5 ensures keep(w[i]) == Some(true) {
      WeekdayKept(plans, w[i]);
    }
    Seqs.FilterOrThrowKeepsPrefix(w, 5, keep);
    assert keep(w[5..][0]) == None;
  }

  // ---------------------------------------------------------------------------
  // Farm colours
  // ---------------------------------------------------------------------------

  const PaletteSize := 20

  /** The values that are not null. */
  function Present(xs: seq<Option<string>>): (r: seq<string>)
    ensures forall v :: v in r <==> Some(v) in xs
  {
    if xs == [] then []
    else
      assert forall v :: Some(v) in xs <==> xs[0] == Some(v) || Some(v) in xs[1..];
      (if xs[0].Some? then [xs[0].value] else []) + Present(xs[1..])
  }

  /** The non-null values of a concatenation are those of each part in turn. */
  lemma {:induction false} PresentAppend(a: seq<Option<string>>, b: seq<Option<string>>)
    ensures Present(a + b) == Present(a) + Present(b)
    decreases |a|
  {
    if a == [] {
      assert a + b == b;
    } else {
      assert (a + b)[0] == a[0] && (a + b)[1..] == a[1..] + b;
      PresentAppend(a[1..], b);
    }
  }

  /** One entry contributes its value when it has one, and nothing when it is null. */
  lemma PresentSingle(x: Option<string>)
    ensures Present([x]) == if x.Some? then [x.value] else []
  {
    assert [x][1..] == [];
  }

  /** The farm codes that get a colour: present, trimmed, non-empty, each once, in order of
      first appearance. */
  function ColorKeys(farmCodes: seq<Option<string>>): (codes: seq<string>)
    ensures Seqs.NoDuplicates(codes)
    ensures forall c :: c in codes <==> c in TrimAll(Present(farmCodes)) && c != ""
  {
    Seqs.Distinct(Seqs.Filter(TrimAll(Present(farmCodes)), NonEmpty))
  }

  /** Colour keys come in the order their codes first appear among the trimmed non-null codes. */
  lemma ColorKeysOrder(farmCodes: seq<Option<string>>, i: nat, j: nat)
    requires i < j < |ColorKeys(farmCodes)|
    ensures var r := ColorKeys(farmCodes);
            Seqs.FirstIndex(TrimAll(Present(farmCodes)), r[i]) < Seqs.FirstIndex(TrimAll(Present(farmCodes)), r[j])
  {
    var codes := TrimAll(Present(farmCodes));
    var kept := Seqs.Filter(codes, NonEmpty);
    var r := Seqs.Distinct(kept);
    Seqs.DistinctKeepsFirstOccurrenceOrder(kept);
    Seqs.FilterKeepsFirstOccurrenceOrder(codes, NonEmpty, r[i], r[j]);
  }

  /** The calendar's farmColorMap: each code, in order, gets the next index modulo 20. The
      LinkedHashMap is its key order and its mapping. */
  method FarmColorMap(farmCodes: seq<Option<string>>) returns (keys: seq<string>, colors: map<string, int>)
    ensures keys == ColorKeys(farmCodes)
    ensures forall c :: c in colors <==> c in keys
    ensures forall i :: 0 <= i < |keys| ==> keys[i] in colors && colors[keys[i]] == i % PaletteSize
    ensures forall c :: c in colors ==> 0 <= colors[c] < PaletteSize
    ensures |keys| <= PaletteSize ==> forall i, j :: 0 <= i < j < |keys| ==> colors[keys[i]] != colors[keys[j]]
  {
    var codes := ColorKeys(farmCodes);
    keys, colors := AssignColors(codes);
  }

  /** The loop of farmColorMap over distinct codes: the `i`-th code gets colour `i % 20`. */
  method AssignColors(codes: seq<string>) returns (keys: seq<string>, colors: map<string, int>)
    requires Seqs.NoDuplicates(codes)
    ensures keys == codes
    ensures forall c :: c in colors <==> c in keys
    ensures forall i :: 0 <= i < |keys| ==> keys[i] in colors && colors[keys[i]] == i % PaletteSize
    ensures forall c :: c in colors ==> 0 <= colors[c] < PaletteSize
    ensures |keys| <= PaletteSize ==> forall i, j :: 0 <= i < j < |keys| ==> colors[keys[i]] != colors[keys[j]]
  {
    keys := [];
    colors := map[];
    var colorIdx := 0;
    while colorIdx < |codes|
      invariant 0 <= colorIdx <= |codes|
      invariant ColoredPrefix(codes, colorIdx, keys, colors)
    {
      var code := codes[colorIdx];
      assert code !in keys by {
        forall i | 0 <= i < colorIdx ensures keys[i] != code {
          assert keys[i] == codes[i];
        }
      }
      ColoredPrefixStep(codes, colorIdx, keys, colors);
      if code !in colors {
        keys := keys + [code];
      }
      colors := colors[code := colorIdx % PaletteSize];
      colorIdx := colorIdx + 1;
    }
    assert codes[..|codes|] == codes;
    if |keys| <= PaletteSize {
      DistinctColors(keys, colors);
    }
  }

  /** The first `n` codes have their colours: `keys` lists them in order, `colors` maps each to
      its position modulo the palette size, and nothing else. */
  ghost predicate ColoredPrefix(codes: seq<string>, n: nat, keys: seq<string>, colors: map<string, int>)
    requires n <= |codes|
  {
    keys == codes[..n]
    && (forall c :: c in colors <==> c in keys)
    && (forall i :: 0 <= i < n ==> codes[i] in colors && colors[codes[i]] == i % PaletteSize)
    && (forall c :: c in colors ==> 0 <= colors[c] < PaletteSize)
  }

  /** Colouring one more code not coloured yet extends the prefix. */
  lemma ColoredPrefixStep(codes: seq<string>, n: nat, keys: seq<string>, colors: map<string, int>)
    requires n < |codes| && ColoredPrefix(codes, n, keys, colors) && codes[n] !in keys
    ensures codes[n] !in colors
    ensures ColoredPrefix(codes, n + 1, keys + [codes[n]], colors[codes[n] := n % PaletteSize])
  {
    var code := codes[n];
    var keys2, colors2 := keys + [code], colors[code := n % PaletteSize];
    assert codes[..n + 1] == keys2;
    forall i | 0 <= i < n + 1
      ensures codes[i] in colors2 && colors2[codes[i]] == i % PaletteSize
    {
      if i < n {
        assert codes[i] == keys[i];
      }
    }
  }

  /** Below the palette size, different positions get different colours. */
  lemma DistinctColors(keys: seq<string>, colors: map<string, int>)
    requires |keys| <= PaletteSize
    requires forall i :: 0 <= i < |keys| ==> keys[i] in colors && colors[keys[i]] == i % PaletteSize
    ensures forall i, j :: 0 <= i < j < |keys| ==> colors[keys[i]] != colors[keys[j]]
  {
    forall i, j | 0 <= i < j < |keys| ensures colors[keys[i]] != colors[keys[j]] {
      assert i % PaletteSize == i && j % PaletteSize == j;
    }
  }
}
