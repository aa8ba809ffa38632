/**
 * AsRestController: the JSON API that writes service tickets. A ticket (AsDto) arrives with its
 * equipment rows and schedule rows; the controller stamps every child row with the ticket's id
 * and useFlag=true in place and hands the rows to the mapper one by one. Updating a ticket
 * deletes its child rows and inserts the posted ones, and deletes removed attachments from disk
 * only after the transaction commits.
 *
 * The mapper is a class whose `trace` records every call in order together with the row values
 * it was given; what a select returns is a function of its argument.
 */
module AsRestController {
  import opened Wrappers
  import JavaText
  import Seqs
  import Calendar
  import UnixPaths
  import AsController
  import LocalFileStorageService
  import TransactionalFileOps

  // ---------------------------------------------------------------------------
  // Values
  // ---------------------------------------------------------------------------

  /** A LocalDateTime. */
  datatype LocalDateTime = LocalDateTime(date: Calendar.Date, hour: int, minute: int, second: int, nano: int)

  predicate IsValidDateTime(t: LocalDateTime) {
    Calendar.IsValid(t.date) && 0 <= t.hour < 24 && 0 <= t.minute < 60 && 0 <= t.second < 60
    && 0 <= t.nano < 1_000_000_000
  }

  /** The AsEquipDto fields the controller passes through untouched. */
  datatype EquipFields = EquipFields(asEquipId: Option<int>, tableName: Option<string>, eqmntSeq: Option<string>,
                                     subSeq: Option<string>, eqmntKind: Option<string>, eqmntName: Option<string>,
                                     useDate: Option<LocalDateTime>)

  /** The AsScheduleDto fields the controller passes through untouched. */
  datatype ScheduleFields = ScheduleFields(planDate: Option<LocalDateTime>, asContent: Option<string>,
                                           statusLabel: Option<string>, isCompleted: Option<bool>)

  /** The AsDto fields the controller passes through untouched. */
  datatype TicketFields = TicketFields(farmCode: Option<string>, farmName: Option<string>, asType: Option<string>,
                                       reqUser: Option<string>, reqContent: Option<string>, asManager: Option<string>,
                                       asResult: Option<string>, etc: Option<string>, reqDate: Option<LocalDateTime>,
                                       planDate: Option<LocalDateTime>, statusFlag: Option<bool>)

  /** The values of a DTO at the moment it is handed to the mapper. */
  datatype EquipRow = EquipRow(asId: Option<int>, useFlag: Option<bool>, fields: EquipFields)
  datatype ScheduleRow = ScheduleRow(scheduleId: Option<int>, asId: Option<int>, useFlag: Option<bool>,
                                     completeDate: Option<LocalDateTime>, fields: ScheduleFields)
  datatype TicketRow = TicketRow(asId: Option<int>, useFlag: Option<bool>, fields: TicketFields)
  datatype FileRow = FileRow(asId: Option<int>, originalName: Option<string>, uuidName: Option<string>,
                             filePath: Option<string>, fileSize: Option<int>, fileType: Option<string>,
                             useFlag: Option<bool>)

  /** An attachment row as selectFilesByIds returns it. */
  datatype StoredFileRow = StoredFileRow(fileId: Option<int>, filePath: Option<string>, uuidName: Option<string>)

  /** One mapper call with its argument. */
  datatype Call =
    | SelectCategoryList(farmCode: string)
    | SelectEquipmentListByTable(param: map<string, string>)
    | InsertAsHeader(ticket: TicketRow)
    | InsertAsEquip(equip: EquipRow)
    | InsertSchedule(schedule: ScheduleRow)
    | SelectFilesByIds(ids: seq<int>)
    | UpdateAsHeader(ticket: TicketRow)
    | DeleteEquipHardByAsId(asId: Option<int>)
    | DeleteScheduleByAsId(asId: Option<int>)
    | DeleteFilesByIdsHard(ids: seq<int>)
    | DeleteAsEquipByAsId(asId: Option<int>)
    | DeleteAsFilesByAsId(asId: Option<int>)
    | DeleteScheduleByAsIdSoft(asId: Option<int>)
    | DeleteAsHeader(asId: Option<int>)
    | InsertAsFile(file: FileRow)
    | UpdateSchedule(schedule: ScheduleRow)

  /** Why a request ends without its normal reply: a 400 answer or an exception. */
  datatype Failure =
    | BadRequest(message: string)
    | IllegalStateException
    | NullPointerException
    | InvalidPathException
    | Storage(error: LocalFileStorageService.StorageError)

  // ---------------------------------------------------------------------------
  // Mutable DTOs and the mapper
  // ---------------------------------------------------------------------------

  class Equip {
    var asId: Option<int>
    var useFlag: Option<bool>
    const fields: EquipFields

    constructor (asId: Option<int>, useFlag: Option<bool>, fields: EquipFields)
      ensures this.asId == asId && this.useFlag == useFlag && this.fields == fields
    {
      this.asId := asId;
      this.useFlag := useFlag;
      this.fields := fields;
    }

    function Row(): EquipRow
      reads this
    {
      EquipRow(asId, useFlag, fields)
    }
  }

  class Schedule {
    const scheduleId: Option<int>
    var asId: Option<int>
    var useFlag: Option<bool>
    var completeDate: Option<LocalDateTime>
    const fields: ScheduleFields

    constructor (scheduleId: Option<int>, asId: Option<int>, useFlag: Option<bool>,
                 completeDate: Option<LocalDateTime>, fields: ScheduleFields)
      ensures this.scheduleId == scheduleId && this.asId == asId && this.useFlag == useFlag
      ensures this.completeDate == completeDate && this.fields == fields
    {
      this.scheduleId := scheduleId;
      this.asId := asId;
      this.useFlag := useFlag;
      this.completeDate := completeDate;
      this.fields := fields;
    }

    function Row(): ScheduleRow
      reads this
    {
      ScheduleRow(scheduleId, asId, useFlag, completeDate, fields)
    }
  }

  /** AsDto: the ticket with its child lists and the ids of attachments to remove. */
  class Ticket {
    var asId: Option<int>
    var useFlag: Option<bool>
    const fields: TicketFields
    const equipList: Option<seq<Equip>>
    const scheduleList: Option<seq<Schedule>>
    const deletedFileIds: Option<seq<int>>

    constructor (asId: Option<int>, useFlag: Option<bool>, fields: TicketFields, equipList: Option<seq<Equip>>,
                 scheduleList: Option<seq<Schedule>>, deletedFileIds: Option<seq<int>>)
      ensures this.asId == asId && this.useFlag == useFlag && this.fields == fields
      ensures this.equipList == equipList && this.scheduleList == scheduleList
      ensures this.deletedFileIds == deletedFileIds
    {
      this.asId := asId;
      this.useFlag := useFlag;
      this.fields := fields;
      this.equipList := equipList;
      this.scheduleList := scheduleList;
      this.deletedFileIds := deletedFileIds;
    }

    function Row(): TicketRow
      reads this
    {
      TicketRow(asId, useFlag, fields)
    }

    /** The equipment rows; a null list has none. */
    function Equips(): seq<Equip> {
      if equipList.Some? then equipList.value else []
    }

    function Schedules(): seq<Schedule> {
      if scheduleList.Some? then scheduleList.value else []
    }
  }

  /** AsMapper. */
  class AsMapper {
    /** Every call so far, in order. */
    var trace: seq<Call>
    /** What the selects return for an argument. */
    const categoryList: string -> seq<string>
    const equipmentListByTable: map<string, string> -> seq<map<string, string>>
    const filesByIds: seq<int> -> seq<StoredFileRow>

    constructor (categoryList: string -> seq<string>,
                 equipmentListByTable: map<string, string> -> seq<map<string, string>>,
                 filesByIds: seq<int> -> seq<StoredFileRow>)
      ensures trace == []
      ensures this.categoryList == categoryList && this.equipmentListByTable == equipmentListByTable
      ensures this.filesByIds == filesByIds
    {
      trace := [];
      this.categoryList := categoryList;
      this.equipmentListByTable := equipmentListByTable;
      this.filesByIds := filesByIds;
    }

    method Record(c: Call)
      modifies this
      ensures trace == old(trace) + [c]
    {
      trace := trace + [c];
    }

    /** insertAsHeader: the row is inserted as given, then the generated key, when the database
        hands one back, is written into the DTO's asId. */
    method InsertHeader(t: Ticket, generated: Option<int>)
      modifies this, t
      ensures trace == old(trace) + [InsertAsHeader(old(t.Row()))]
      ensures t.asId == (if generated.Some? then generated else old(t.asId))
      ensures t.useFlag == old(t.useFlag)
    {
      trace := trace + [InsertAsHeader(t.Row())];
      if generated.Some? {
        t.asId := generated;
      }
    }
  }

  // ---------------------------------------------------------------------------
  // Lookups for the equipment picker
  // ---------------------------------------------------------------------------

  const FarmCodeRequired := "farmCode is required"
  const UnsupportedTablePrefix := "Unsupported table: "

  /** ALLOWED_EQUIP_TABLES. */
  const AllowedEquipTables: set<string> := {
    "SF_TBL_AIRCON", "SF_TBL_BRUSH", "SF_TBL_COOLER", "SF_TBL_ENVIRON", "SF_TBL_ENVIRON_L",
    "SF_TBL_EQMNT", "SF_TBL_FEEDBIN", "SF_TBL_FEEDBIN_B", "SF_TBL_FEEDBIN_L", "SF_TBL_FOG",
    "SF_TBL_LIGHT", "SF_TBL_METER", "SF_TBL_METER_S", "SF_TBL_ROOF", "SF_TBL_STER", "SF_TBL_STER_Q",
    "SF_TBL_STER_V", "SF_TBL_VEHICLE", "SF_TBL_VEHICLE_A", "SF_TBL_VENTIL", "SF_TBL_VENTIL_C",
    "SF_TBL_VENTIL_D", "SF_TBL_VENTIL_P", "SF_TBL_VENTIL_S", "SF_TBL_WIND", "SF_TBL_WIND_D"
  }

  /** getCategoryList(farmCode): a blank farm code is refused before any query. */
  method GetCategoryList(farmCode: string, mapper: AsMapper) returns (r: Result<seq<string>, Failure>)
    modifies mapper
    ensures JavaText.IsBlank(farmCode) ==> r == Err(BadRequest(FarmCodeRequired)) && mapper.trace == old(mapper.trace)
    ensures !JavaText.IsBlank(farmCode) ==>
              r == Ok(mapper.categoryList(farmCode)) && mapper.trace == old(mapper.trace) + [SelectCategoryList(farmCode)]
  {
    if JavaText.IsBlank(farmCode) {
      return Err(BadRequest(FarmCodeRequired));
    }
    mapper.Record(SelectCategoryList(farmCode));
    r := Ok(mapper.categoryList(farmCode));
  }

  /** getEquipmentList(farmCode, tableName): the farm code must have text and the table must be
      on the whitelist; only then is the query issued, with exactly those two parameters. */
  method GetEquipmentList(farmCode: string, tableName: string, mapper: AsMapper)
    returns (r: Result<seq<map<string, string>>, Failure>)
    modifies mapper
    ensures JavaText.IsBlank(farmCode) ==> r == Err(BadRequest(FarmCodeRequired))
    ensures !JavaText.IsBlank(farmCode) && tableName !in AllowedEquipTables ==>
              r == Err(BadRequest(UnsupportedTablePrefix + tableName))
    ensures r.Err? ==> mapper.trace == old(mapper.trace)
    ensures r.Ok? <==> !JavaText.IsBlank(farmCode) && tableName in AllowedEquipTables
    ensures r.Ok? ==>
              var param := map["farmCode" := farmCode, "tableName" := tableName];
              param.Keys == {"farmCode", "tableName"}
              && mapper.trace == old(mapper.trace) + [SelectEquipmentListByTable(param)]
              && r.value == mapper.equipmentListByTable(param)
  {
    if JavaText.IsBlank(farmCode) {
      return Err(BadRequest(FarmCodeRequired));
    }
    if tableName !in AllowedEquipTables {
      return Err(BadRequest(UnsupportedTablePrefix + tableName));
    }
    var param := map[];
    param := param["farmCode" := farmCode];
    param := param["tableName" := tableName];
    mapper.Record(SelectEquipmentListByTable(param));
    r := Ok(mapper.equipmentListByTable(param));
  }

  // ---------------------------------------------------------------------------
  // Stamping and inserting child rows
  // ---------------------------------------------------------------------------

  /** The inserts for a list of equipment rows once each carries `id` and useFlag=true. */
  function EquipInserts(id: Option<int>, list: seq<Equip>): (calls: seq<Call>)
    ensures |calls| == |list|
    ensures forall k :: 0 <= k < |list| ==>
              calls[k].InsertAsEquip? && calls[k].equip.asId == id && calls[k].equip.useFlag == Some(true)
              && calls[k].equip.fields == list[k].fields
  {
    if list == [] then []
    else EquipInserts(id, list[..|list| - 1]) + [InsertAsEquip(EquipRow(id, Some(true), list[|list| - 1].fields))]
  }

  /** The values of a list of schedule DTOs. */
  function ScheduleRows(list: seq<Schedule>): (rows: seq<ScheduleRow>)
    reads set x | x in list
    ensures |rows| == |list|
  {
    if list == [] then [] else ScheduleRows(list[..|list| - 1]) + [list[|list| - 1].Row()]
  }

  lemma {:induction false} ScheduleRowsElements(list: seq<Schedule>)
    ensures forall k :: 0 <= k < |list| ==> ScheduleRows(list)[k] == list[k].Row()
  {
    if list != [] {
      ScheduleRowsElements(list[..|list| - 1]);
    }
  }

  /** The inserts for schedule rows once each carries `id` and useFlag=true, everything else as
      it was. */
  function ScheduleInserts(id: Option<int>, rows: seq<ScheduleRow>): (calls: seq<Call>)
    ensures |calls| == |rows|
    ensures forall k :: 0 <= k < |rows| ==>
              calls[k].InsertSchedule? && calls[k].schedule.asId == id && calls[k].schedule.useFlag == Some(true)
              && calls[k].schedule.scheduleId == rows[k].scheduleId
              && calls[k].schedule.completeDate == rows[k].completeDate
              && calls[k].schedule.fields == rows[k].fields
  {
    if rows == [] then []
    else
      var last := rows[|rows| - 1];
      ScheduleInserts(id, rows[..|rows| - 1]) + [InsertSchedule(last.(asId := id, useFlag := Some(true)))]
  }

  /** The loop over the equipment list: set asId and useFlag on each row, then insert it. */
  method StampEquips(list: seq<Equip>, id: Option<int>, mapper: AsMapper)
    modifies mapper, set x | x in list
    ensures forall k :: 0 <= k < |list| ==> list[k].asId == id && list[k].useFlag == Some(true)
    ensures mapper.trace == old(mapper.trace) + EquipInserts(id, list)
  {
    var i := 0;
    while i < |list|
      invariant 0 <= i <= |list|
      invariant forall k :: 0 <= k < i ==> list[k].asId == id && list[k].useFlag == Some(true)
      invariant mapper.trace == old(mapper.trace) + EquipInserts(id, list[..i])
    {
      var equip := list[i];
      equip.asId := id;
      equip.useFlag := Some(true);
      mapper.Record(InsertAsEquip(equip.Row()));
      assert list[..i + 1][..i] == list[..i];
      i := i + 1;
    }
    assert list[..i] == list;
  }

  /** The loop over the schedule list. `before` holds the schedules' values when the loop
      starts; each is inserted stamped, keeping its id, completion time and fields. */
  method StampSchedules(list: seq<Schedule>, id: Option<int>, mapper: AsMapper, ghost before: seq<ScheduleRow>)
    requires |before| == |list|
    requires forall k :: 0 <= k < |list| ==>
               before[k].scheduleId == list[k].scheduleId && before[k].completeDate == list[k].completeDate
               && before[k].fields == list[k].fields
    modifies mapper, set x | x in list
    ensures forall k :: 0 <= k < |list| ==>
              list[k].asId == id && list[k].useFlag == Some(true) && list[k].completeDate == old(list[k].completeDate)
    ensures mapper.trace == old(mapper.trace) + ScheduleInserts(id, before)
  {
    ghost var n := |mapper.trace|;
    ghost var calls := ScheduleInserts(id, before);
    var i := 0;
    while i < |list|
      invariant 0 <= i <= |list|
      invariant |mapper.trace| == n + i && mapper.trace[..n] == old(mapper.trace)
      invariant forall k :: 0 <= k < |list| ==> list[k].completeDate == old(list[k].completeDate)
      invariant forall k :: 0 <= k < i ==> list[k].asId == id && list[k].useFlag == Some(true)
      invariant forall k :: 0 <= k < i ==> mapper.trace[n..][k] == calls[k]
    {
      var schedule := list[i];
      schedule.asId := id;
      schedule.useFlag := Some(true);
      mapper.Record(InsertSchedule(schedule.Row()));
      i := i + 1;
    }
    assert mapper.trace[n..] == calls;
    assert mapper.trace == mapper.trace[..n] + mapper.trace[n..];
  }

  // ---------------------------------------------------------------------------
  // insertAs
  // ---------------------------------------------------------------------------

  /** insertAs(dto): mark the ticket in use, insert it, give up with IllegalStateException when
      no id came back, otherwise stamp and insert every equipment row and then every schedule
      row, and answer with the id. `generated` is the key the database generates. */
  method InsertAs(t: Ticket, mapper: AsMapper, generated: Option<int>) returns (r: Result<int, Failure>)
    modifies t, mapper, set e | e in t.Equips(), set x | x in t.Schedules()
    ensures t.useFlag == Some(true)
    ensures t.asId == (if generated.Some? then generated else old(t.asId))
    ensures r.Err? <==> t.asId.None?
    ensures r.Err? ==> r.error == IllegalStateException
                       && mapper.trace == old(mapper.trace) + [InsertAsHeader(TicketRow(old(t.asId), Some(true), t.fields))]
    ensures r.Ok? ==>
              Some(r.value) == t.asId
              && mapper.trace == old(mapper.trace) + [InsertAsHeader(TicketRow(old(t.asId), Some(true), t.fields))]
                                 + EquipInserts(t.asId, t.Equips()) + ScheduleInserts(t.asId, old(ScheduleRows(t.Schedules())))
              && (forall k :: 0 <= k < |t.Equips()| ==> t.Equips()[k].asId == t.asId && t.Equips()[k].useFlag == Some(true))
              && (forall k :: 0 <= k < |t.Schedules()| ==>
                    t.Schedules()[k].asId == t.asId && t.Schedules()[k].useFlag == Some(true))
  {
    ghost var before := ScheduleRows(t.Schedules());
    ScheduleRowsElements(t.Schedules());
    t.useFlag := Some(true);
    mapper.InsertHeader(t, generated);
    if t.asId.None? {
      return Err(IllegalStateException);
    }
    var id := t.asId;
    ghost var header := mapper.trace;
    StampEquips(t.Equips(), id, mapper);
    ghost var equipsDone := mapper.trace;
    assert equipsDone == header + EquipInserts(id, t.Equips());
    StampSchedules(t.Schedules(), id, mapper, before);
    assert mapper.trace == equipsDone + ScheduleInserts(id, before);
    assert forall k :: 0 <= k < |t.Equips()| ==> t.Equips()[k].asId == id && t.Equips()[k].useFlag == Some(true);
    r := Ok(id.value);
  }

  // ---------------------------------------------------------------------------
  // updateAs
  // ---------------------------------------------------------------------------

  /** Whether the ticket asks for attachments to be removed: a non-null, non-empty id list. */
  predicate HasIds(ids: Option<seq<int>>) {
    ids.Some? && ids.value != []
  }

  /** The absolute file of one attachment row: its public directory mapped to the disk, then the
      stored name resolved in it and normalized. */
  function TargetOf(props: LocalFileStorageService.FileStorageProps, f: StoredFileRow): Result<UnixPaths.Path, Failure>
    requires LocalFileStorageService.IsValidProps(props)
  {
    match LocalFileStorageService.ToAbsoluteDirFromPublic(props, f.filePath)
    case Err(e) => Err(Storage(e))
    case Ok(dir) =>
      if f.uuidName.None? then Err(NullPointerException)
      else
        match UnixPaths.Parse(f.uuidName.value)
        case Err(_) => Err(InvalidPathException)
        case Ok(p) => Ok(UnixPaths.Normalize(UnixPaths.Resolve(dir, p)))
  }

  /** The files to delete after commit, one per row in row order, or the failure of the first row
      that cannot be mapped. */
  function DeletionTargets(props: LocalFileStorageService.FileStorageProps, files: seq<StoredFileRow>)
    : Result<seq<UnixPaths.Path>, Failure>
    requires LocalFileStorageService.IsValidProps(props)
  {
    Seqs.MapOrFail(files, f => TargetOf(props, f))
  }

  /** The files an update deletes: none without ids, otherwise those of the selected rows. */
  function SelectedTargets(props: LocalFileStorageService.FileStorageProps, ids: Option<seq<int>>,
                           filesByIds: seq<int> -> seq<StoredFileRow>): Result<seq<UnixPaths.Path>, Failure>
    requires LocalFileStorageService.IsValidProps(props)
  {
    if HasIds(ids) then DeletionTargets(props, filesByIds(ids.value)) else Ok([])
  }

  /** The loop that collects toDeleteAfterCommit; each step is one TargetOf. */
  method CollectTargets(props: LocalFileStorageService.FileStorageProps, files: seq<StoredFileRow>)
    returns (r: Result<seq<UnixPaths.Path>, Failure>)
    requires LocalFileStorageService.IsValidProps(props)
    ensures r == DeletionTargets(props, files)
  {
    ghost var step := f => TargetOf(props, f);
    var toDelete: seq<UnixPaths.Path> := [];
    var i := 0;
    while i < |files|
      invariant 0 <= i <= |files| && |toDelete| == i
      invariant forall k :: 0 <= k < i ==> step(files[k]) == Ok(toDelete[k])
    {
      var target := TargetOf(props, files[i]);
      assert target == step(files[i]);
      if target.Err? {
        Seqs.MapOrFailStops(files, step, i);
        return Err(target.error);
      }
      Seqs.MapOrFailStep(files, step, toDelete, i);
      toDelete := toDelete + [target.value];
      i := i + 1;
    }
    Seqs.MapOrFailAllOk(files, step, toDelete);
    r := Ok(toDelete);
  }

  /** A stored name the deletion cannot take outside its directory: relative, and without a `.`
      or `..` element. It may still have several elements. */
  predicate IsPlainStoredName(name: string) {
    (name == [] || name[0] != '/')
    && forall i :: 0 <= i < |UnixPaths.Names(name)| ==> !UnixPaths.IsDotName(UnixPaths.Names(name)[i])
  }

  /** Every name saveAll gives a file is plain. */
  lemma StoredNamesArePlain(uuid: string, original: Option<string>)
    requires LocalFileStorageService.IsUuidText(uuid)
    ensures IsPlainStoredName(LocalFileStorageService.StoredName(uuid, original))
  {
    LocalFileStorageService.StoredNameHasNoDotNames(uuid, original);
    assert LocalFileStorageService.StoredName(uuid, original)[0] == uuid[0];
  }

  /** The extension is everything from the last `.`, a `/` included, so an original name such as
      "a.b/c" gives a stored name of two path elements. */
  lemma StoredNameCanHaveSeveralElements(uuid: string)
    requires LocalFileStorageService.IsUuidText(uuid)
    ensures LocalFileStorageService.StoredName(uuid, Some("a.b/c")) == uuid + ".b/c"
    ensures '/' in LocalFileStorageService.StoredName(uuid, Some("a.b/c"))
  {
    var name := "a.b/c";
    assert name[0] == 'a' && name[1] == '.' && name[2] == 'b' && name[3] == '/' && name[4] == 'c';
    assert LocalFileStorageService.LastIndexOf(name, '.') == 1;
    assert name[1..] == ".b/c";
    assert (uuid + ".b/c")[|uuid| + 2] == '/';
  }

  /** When every row's stored name is plain, every file scheduled for deletion lies under the
      upload root. A name with a `..` element is not checked and can reach outside it. */
  lemma TargetsStayUnderRoot(props: LocalFileStorageService.FileStorageProps, files: seq<StoredFileRow>)
    requires LocalFileStorageService.IsValidProps(props)
    requires forall k :: 0 <= k < |files| ==> files[k].uuidName.None? || IsPlainStoredName(files[k].uuidName.value)
    ensures DeletionTargets(props, files).Ok? ==>
              forall k :: 0 <= k < |files| ==>
                LocalFileStorageService.Root(props).Ok?
                && UnixPaths.StartsWith(DeletionTargets(props, files).value[k], LocalFileStorageService.Root(props).value)
  {
    var r := DeletionTargets(props, files);
    if r.Ok? {
      forall k | 0 <= k < |files|
        ensures LocalFileStorageService.Root(props).Ok?
        ensures UnixPaths.StartsWith(r.value[k], LocalFileStorageService.Root(props).value)
      {
        TargetStaysUnderRoot(props, files[k]);
      }
    }
  }

  lemma TargetStaysUnderRoot(props: LocalFileStorageService.FileStorageProps, f: StoredFileRow)
    requires LocalFileStorageService.IsValidProps(props)
    requires f.uuidName.None? || IsPlainStoredName(f.uuidName.value)
    ensures TargetOf(props, f).Ok? ==>
              LocalFileStorageService.Root(props).Ok?
              && UnixPaths.StartsWith(TargetOf(props, f).value, LocalFileStorageService.Root(props).value)
  {
    if TargetOf(props, f).Ok? {
      var root := LocalFileStorageService.Root(props).value;
      var dir := LocalFileStorageService.ToAbsoluteDirFromPublic(props, f.filePath).value;
      LocalFileStorageService.ToAbsoluteDirContained(props, f.filePath);
      var p := UnixPaths.Parse(f.uuidName.value).value;
      assert dir.absolute && UnixPaths.IsNormal(dir);
      UnixPaths.ResolveWithoutParentStaysUnder(dir, p);
    }
  }

  /** The header update and the replacement of the child rows: the equipment rows deleted then
      reinserted, then the schedules deleted then reinserted. */
  function RowCalls(ticket: TicketRow, equips: seq<Equip>, schedules: seq<ScheduleRow>): seq<Call>
  {
    [UpdateAsHeader(ticket), DeleteEquipHardByAsId(ticket.asId)]
    + EquipInserts(ticket.asId, equips)
    + [DeleteScheduleByAsId(ticket.asId)]
    + ScheduleInserts(ticket.asId, schedules)
  }

  /** The mapper calls of updateAs once the paths are known: the rows, then the attachment rows
      deleted when there are ids. */
  function UpdateCalls(ticket: TicketRow, equips: seq<Equip>, schedules: seq<ScheduleRow>, ids: Option<seq<int>>): seq<Call>
  {
    RowCalls(ticket, equips, schedules) + (if HasIds(ids) then [DeleteFilesByIdsHard(ids.value)] else [])
  }

  /** In an update the ticket's equipment rows are deleted before any equipment row is inserted,
      its schedules are deleted after the last equipment insert and before any schedule insert,
      every inserted row carries the ticket's id, and the attachment rows are deleted, last,
      exactly when ids were given. */
  lemma {:induction false} UpdateReplacesChildren(ticket: TicketRow, equips: seq<Equip>, schedules: seq<ScheduleRow>,
                                                  ids: Option<seq<int>>)
    ensures var calls := UpdateCalls(ticket, equips, schedules, ids);
            var d := 2 + |equips|;
            calls[0] == UpdateAsHeader(ticket)
            && calls[1] == DeleteEquipHardByAsId(ticket.asId)
            && calls[d] == DeleteScheduleByAsId(ticket.asId)
            && (forall i :: 0 <= i < |calls| && calls[i].InsertAsEquip? ==> 1 < i < d && calls[i].equip.asId == ticket.asId)
            && (forall i :: 0 <= i < |calls| && calls[i].InsertSchedule? ==> d < i && calls[i].schedule.asId == ticket.asId)
            && ((exists i :: 0 <= i < |calls| && calls[i].DeleteFilesByIdsHard?) <==> HasIds(ids))
            && (HasIds(ids) ==> calls[|calls| - 1] == DeleteFilesByIdsHard(ids.value))
  {
    var e := EquipInserts(ticket.asId, equips);
    var s := ScheduleInserts(ticket.asId, schedules);
    var tail: seq<Call> := if HasIds(ids) then [DeleteFilesByIdsHard(ids.value)] else [];
    var calls := UpdateCalls(ticket, equips, schedules, ids);
    var d := 2 + |equips|;
    assert calls == [UpdateAsHeader(ticket), DeleteEquipHardByAsId(ticket.asId)] + e + [DeleteScheduleByAsId(ticket.asId)] + s + tail;
    assert |calls| == d + 1 + |s| + |tail|;
    forall i | 0 <= i < |calls|
      ensures calls[i] == if i == 0 then UpdateAsHeader(ticket)
                          else if i == 1 then DeleteEquipHardByAsId(ticket.asId)
                          else if i < d then e[i - 2]
                          else if i == d then DeleteScheduleByAsId(ticket.asId)
                          else if i < d + 1 + |s| then s[i - d - 1]
                          else tail[i - d - 1 - |s|]
    {
    }
    if HasIds(ids) {
      assert calls[|calls| - 1] == DeleteFilesByIdsHard(ids.value);
    }
  }

  /** updateAs(dto). With attachment ids, their rows are selected and every file path computed
      before anything is written, so a row that cannot be mapped stops the update after the
      select alone. Then the header is updated, the child rows replaced, and with ids the
      attachment rows deleted and their files registered for deletion after commit. */
  method UpdateAs(props: LocalFileStorageService.FileStorageProps, t: Ticket, mapper: AsMapper,
                  txOps: TransactionalFileOps.TransactionalFileOps)
    returns (r: Result<(), Failure>)
    requires LocalFileStorageService.IsValidProps(props)
    modifies mapper, txOps, set e | e in t.Equips(), set x | x in t.Schedules()
    ensures var selects := if HasIds(t.deletedFileIds) then [SelectFilesByIds(t.deletedFileIds.value)] else [];
            var targets := SelectedTargets(props, t.deletedFileIds, mapper.filesByIds);
            (targets.Err? ==>
               r == Err(targets.error) && mapper.trace == old(mapper.trace) + selects
               && txOps.registered == old(txOps.registered))
            && (targets.Ok? ==>
                  r == Ok(())
                  && mapper.trace == old(mapper.trace) + selects
                                     + UpdateCalls(t.Row(), t.Equips(), old(ScheduleRows(t.Schedules())), t.deletedFileIds)
                  && (targets.value == [] ==> txOps.registered == old(txOps.registered))
                  && (targets.value != [] ==>
                        TransactionalFileOps.AddsDeletion(old(txOps.registered), txOps.registered, targets.value)))
    ensures r.Ok? ==>
              (forall k :: 0 <= k < |t.Equips()| ==> t.Equips()[k].asId == t.asId && t.Equips()[k].useFlag == Some(true))
              && (forall k :: 0 <= k < |t.Schedules()| ==>
                    t.Schedules()[k].asId == t.asId && t.Schedules()[k].useFlag == Some(true))
  {
    ghost var before := ScheduleRows(t.Schedules());
    ScheduleRowsElements(t.Schedules());
    var toDelete: seq<UnixPaths.Path> := [];
    if HasIds(t.deletedFileIds) {
      mapper.Record(SelectFilesByIds(t.deletedFileIds.value));
      var files := mapper.filesByIds(t.deletedFileIds.value);
      var targets := CollectTargets(props, files);
      if targets.Err? {
        return Err(targets.error);
      }
      toDelete := targets.value;
    }
    ApplyUpdate(t, mapper, txOps, toDelete, before);
    r := Ok(());
  }

  /** The writing half of updateAs, once the files to delete are known: the header and child rows,
      then with ids the attachment rows deleted and the files registered for after the commit. */
  method ApplyUpdate(t: Ticket, mapper: AsMapper, txOps: TransactionalFileOps.TransactionalFileOps,
                     toDelete: seq<UnixPaths.Path>, ghost before: seq<ScheduleRow>)
    requires |before| == |t.Schedules()|
    requires forall k :: 0 <= k < |t.Schedules()| ==>
               before[k].scheduleId == t.Schedules()[k].scheduleId && before[k].completeDate == t.Schedules()[k].completeDate
               && before[k].fields == t.Schedules()[k].fields
    modifies mapper, txOps, set e | e in t.Equips(), set x | x in t.Schedules()
    ensures mapper.trace == old(mapper.trace) + UpdateCalls(t.Row(), t.Equips(), before, t.deletedFileIds)
    ensures !HasIds(t.deletedFileIds) || toDelete == [] ==> txOps.registered == old(txOps.registered)
    ensures HasIds(t.deletedFileIds) && toDelete != [] ==>
              TransactionalFileOps.AddsDeletion(old(txOps.registered), txOps.registered, toDelete)
    ensures forall k :: 0 <= k < |t.Equips()| ==> t.Equips()[k].asId == t.asId && t.Equips()[k].useFlag == Some(true)
    ensures forall k :: 0 <= k < |t.Schedules()| ==> t.Schedules()[k].asId == t.asId && t.Schedules()[k].useFlag == Some(true)
  {
    ghost var start := mapper.trace;
    ReplaceRows(t, mapper, before);
    ghost var rows := RowCalls(t.Row(), t.Equips(), before);
    assert mapper.trace == start + rows;
    RemoveAttachments(t.deletedFileIds, mapper, txOps, toDelete);
    ghost var files := if HasIds(t.deletedFileIds) then [DeleteFilesByIdsHard(t.deletedFileIds.value)] else [];
    assert start + rows + files == start + (rows + files);
  }

  /** The end of updateAs: with ids, the attachment rows are deleted and their files registered
      for deletion after the commit. */
  method RemoveAttachments(ids: Option<seq<int>>, mapper: AsMapper, txOps: TransactionalFileOps.TransactionalFileOps,
                           toDelete: seq<UnixPaths.Path>)
    modifies mapper, txOps
    ensures mapper.trace == old(mapper.trace) + if HasIds(ids) then [DeleteFilesByIdsHard(ids.value)] else []
    ensures !HasIds(ids) || toDelete == [] ==> txOps.registered == old(txOps.registered)
    ensures HasIds(ids) && toDelete != [] ==>
              TransactionalFileOps.AddsDeletion(old(txOps.registered), txOps.registered, toDelete)
  {
    if HasIds(ids) {
      mapper.Record(DeleteFilesByIdsHard(ids.value));
      LocalFileStorageService.DeleteAfterCommit(txOps, Some(toDelete));
    }
  }

  /** The middle of updateAs: update the header, then replace the equipment rows and the
      schedules, stamping each new row with the ticket's id. */
  method ReplaceRows(t: Ticket, mapper: AsMapper, ghost before: seq<ScheduleRow>)
    requires |before| == |t.Schedules()|
    requires forall k :: 0 <= k < |t.Schedules()| ==>
               before[k].scheduleId == t.Schedules()[k].scheduleId && before[k].completeDate == t.Schedules()[k].completeDate
               && before[k].fields == t.Schedules()[k].fields
    modifies mapper, set e | e in t.Equips(), set x | x in t.Schedules()
    ensures mapper.trace == old(mapper.trace) + RowCalls(t.Row(), t.Equips(), before)
    ensures forall k :: 0 <= k < |t.Equips()| ==> t.Equips()[k].asId == t.asId && t.Equips()[k].useFlag == Some(true)
    ensures forall k :: 0 <= k < |t.Schedules()| ==> t.Schedules()[k].asId == t.asId && t.Schedules()[k].useFlag == Some(true)
  {
    ghost var start := mapper.trace;
    ghost var head := [UpdateAsHeader(t.Row()), DeleteEquipHardByAsId(t.asId)];
    mapper.Record(UpdateAsHeader(t.Row()));
    mapper.Record(DeleteEquipHardByAsId(t.asId));
    assert mapper.trace == start + head;

    ghost var deleted := mapper.trace;
    StampEquips(t.Equips(), t.asId, mapper);
    ghost var equips := EquipInserts(t.asId, t.Equips());
    assert mapper.trace == deleted + equips;

    mapper.Record(DeleteScheduleByAsId(t.asId));
    ghost var equipsDone := mapper.trace;
    StampSchedules(t.Schedules(), t.asId, mapper, before);
    ghost var schedules := ScheduleInserts(t.asId, before);
    assert mapper.trace == equipsDone + schedules;
    assert forall k :: 0 <= k < |t.Equips()| ==> t.Equips()[k].asId == t.asId && t.Equips()[k].useFlag == Some(true);
    TraceOfSteps(start, head, equips, [DeleteScheduleByAsId(t.asId)], schedules);
  }

  /** Regrouping the four stretches a method appends to a trace one after the other. Stated over
      abstract stretches, it keeps the regrouping out of the heap reasoning of ReplaceRows. */
  lemma TraceOfSteps(start: seq<Call>, a: seq<Call>, b: seq<Call>, c: seq<Call>, d: seq<Call>)
    ensures start + a + b + c + d == start + (a + b + c + d)
  {
  }

  // ---------------------------------------------------------------------------
  // deleteAs
  // ---------------------------------------------------------------------------

  /** deleteAs(asId): the four soft deletes, children first and the ticket last; files on disk are
      left alone. */
  method DeleteAs(asId: int, mapper: AsMapper)
    modifies mapper
    ensures mapper.trace == old(mapper.trace) + [DeleteAsEquipByAsId(Some(asId)), DeleteAsFilesByAsId(Some(asId)),
                                                 DeleteScheduleByAsIdSoft(Some(asId)), DeleteAsHeader(Some(asId))]
  {
    mapper.Record(DeleteAsEquipByAsId(Some(asId)));
    mapper.Record(DeleteAsFilesByAsId(Some(asId)));
    mapper.Record(DeleteScheduleByAsIdSoft(Some(asId)));
    mapper.Record(DeleteAsHeader(Some(asId)));
  }

  // ---------------------------------------------------------------------------
  // uploadAsFiles
  // ---------------------------------------------------------------------------

  /** "파일 또는 AS ID 누락" and "파일 업로드 완료". */
  const MissingFileOrId := "\U{D30C}\U{C77C} \U{B610}\U{B294} AS ID \U{B204}\U{B77D}"
  const UploadDone := "\U{D30C}\U{C77C} \U{C5C5}\U{B85C}\U{B4DC} \U{C644}\U{B8CC}"

  const UploadSubDir := "as"

  /** `(int) Math.min(size, Integer.MAX_VALUE)`: a size too large for an int becomes the largest
      int; a size below the smallest int (never a real upload) wraps. */
  function FileSizeColumn(size: int): (r: int)
    ensures AsController.IsInt32(r)
    ensures 0 <= size ==> r == if size < AsController.MaxInt then size else AsController.MaxInt
    ensures AsController.IsInt32(size) ==> r == size
  {
    AsController.Wrap32(if size < AsController.MaxInt then size else AsController.MaxInt)
  }

  /** What saveAll stores for a non-empty upload: the saved files, or the failure that stopped
      it. */
  function Uploaded(props: LocalFileStorageService.FileStorageProps, entries: seq<Option<LocalFileStorageService.MultipartFile>>,
                    today: Calendar.Date, uuids: seq<string>): Result<seq<LocalFileStorageService.SavedFile>, LocalFileStorageService.StorageError>
    requires LocalFileStorageService.IsValidProps(props) && Calendar.IsValid(today) && |uuids| >= |entries|
  {
    var parts := LocalFileStorageService.DayParts([UploadSubDir], today);
    match LocalFileStorageService.EnsureDir(props, parts)
    case Err(e) => Err(e)
    case Ok(absDir) =>
      var saved := LocalFileStorageService.SaveEach(LocalFileStorageService.Kept(entries), uuids,
                                                    LocalFileStorageService.BuildPublicDir(props, parts), absDir);
      if saved.1 then Err(LocalFileStorageService.InvalidPath) else Ok(saved.0)
  }

  /** The paths saveAll writes for a non-empty upload, including those written before a failure. */
  function Written(props: LocalFileStorageService.FileStorageProps, entries: seq<Option<LocalFileStorageService.MultipartFile>>,
                   today: Calendar.Date, uuids: seq<string>): set<UnixPaths.Path>
    requires LocalFileStorageService.IsValidProps(props) && Calendar.IsValid(today) && |uuids| >= |entries|
  {
    var parts := LocalFileStorageService.DayParts([UploadSubDir], today);
    match LocalFileStorageService.EnsureDir(props, parts)
    case Err(_) => {}
    case Ok(absDir) =>
      LocalFileStorageService.PathsOf(LocalFileStorageService.SaveEach(LocalFileStorageService.Kept(entries), uuids,
                                                                       LocalFileStorageService.BuildPublicDir(props, parts), absDir).0)
  }

  /** The attachment row of one saved file. */
  function FileRowOf(asId: int, sf: LocalFileStorageService.SavedFile): FileRow {
    FileRow(Some(asId), sf.originalName, Some(sf.uuidName), Some(sf.publicDir), Some(FileSizeColumn(sf.size)),
            sf.contentType, Some(true))
  }

  /** One attachment insert per saved file, in order. */
  function FileInserts(asId: int, saved: seq<LocalFileStorageService.SavedFile>): (calls: seq<Call>)
    ensures |calls| == |saved|
    ensures forall k :: 0 <= k < |saved| ==>
              calls[k].InsertAsFile? && calls[k].file.asId == Some(asId) && calls[k].file.useFlag == Some(true)
              && calls[k].file.uuidName == Some(saved[k].uuidName) && calls[k].file.filePath == Some(saved[k].publicDir)
              && calls[k].file.fileSize == Some(FileSizeColumn(saved[k].size))
  {
    if saved == [] then []
    else FileInserts(asId, saved[..|saved| - 1]) + [InsertAsFile(FileRowOf(asId, saved[|saved| - 1]))]
  }

  /** uploadAsFiles(files, asId): a missing list, an empty list or a missing id is answered with
      400 before anything is stored; otherwise the files are saved under "as/<today>" and one
      attachment row per saved file is inserted. */
  method UploadAsFiles(props: LocalFileStorageService.FileStorageProps, txOps: TransactionalFileOps.TransactionalFileOps,
                       disk: TransactionalFileOps.FileSystem, mapper: AsMapper,
                       files: Option<seq<Option<LocalFileStorageService.MultipartFile>>>, asId: Option<int>,
                       today: Calendar.Date, uuids: seq<string>)
    returns (r: Result<string, Failure>)
    requires LocalFileStorageService.IsValidProps(props) && Calendar.IsValid(today)
    requires files.Some? ==> |uuids| >= |files.value|
    modifies txOps, disk, mapper
    ensures txOps.registered == old(txOps.registered)
    ensures files.None? || files.value == [] || asId.None? ==>
              r == Err(BadRequest(MissingFileOrId)) && mapper.trace == old(mapper.trace) && disk.files == old(disk.files)
    ensures files.Some? && files.value != [] && asId.Some? ==>
              disk.files == old(disk.files) + Written(props, files.value, today, uuids)
              && match Uploaded(props, files.value, today, uuids)
                 case Err(e) => r == Err(Storage(e)) && mapper.trace == old(mapper.trace)
                 case Ok(saved) => r == Ok(UploadDone) && mapper.trace == old(mapper.trace) + FileInserts(asId.value, saved)
  {
    if files.None? || files.value == [] || asId.None? {
      return Err(BadRequest(MissingFileOrId));
    }
    var saved := LocalFileStorageService.SaveAll(props, txOps, disk, files, [UploadSubDir], today, uuids);
    if saved.Err? {
      return Err(Storage(saved.error));
    }
    InsertFileRows(asId.value, saved.value, mapper);
    r := Ok(UploadDone);
  }

  /** The loop of uploadAsFiles: one attachment row per saved file, in order. */
  method InsertFileRows(asId: int, saved: seq<LocalFileStorageService.SavedFile>, mapper: AsMapper)
    modifies mapper
    ensures mapper.trace == old(mapper.trace) + FileInserts(asId, saved)
  {
    var i := 0;
    while i < |saved|
      invariant 0 <= i <= |saved|
      invariant mapper.trace == old(mapper.trace) + FileInserts(asId, saved[..i])
    {
      mapper.Record(InsertAsFile(FileRowOf(asId, saved[i])));
      assert saved[..i + 1][..i] == saved[..i];
      i := i + 1;
    }
    assert saved[..i] == saved;
  }

  /** An upload whose `k`-th stored file has a name that cannot be a path fails with
      InvalidPathException, yet the `k` files before it stay written: saveAll's rollback cleanup
      was registered while still empty, so the rollback of the failed request removes none of
      them. */
  lemma {:induction false} FailedUploadKeepsEarlierFiles(props: LocalFileStorageService.FileStorageProps,
                                                         entries: seq<Option<LocalFileStorageService.MultipartFile>>,
                                                         today: Calendar.Date, uuids: seq<string>, k: nat)
    requires LocalFileStorageService.IsValidProps(props) && Calendar.IsValid(today) && |uuids| >= |entries|
    requires LocalFileStorageService.EnsureDir(props, LocalFileStorageService.DayParts([UploadSubDir], today)).Ok?
    requires var parts := LocalFileStorageService.DayParts([UploadSubDir], today);
             var kept := LocalFileStorageService.Kept(entries);
             k < |kept|
             && LocalFileStorageService.SavedFor(kept[k], uuids[k], LocalFileStorageService.BuildPublicDir(props, parts),
                                                 LocalFileStorageService.EnsureDir(props, parts).value).Err?
             && forall j :: 0 <= j < k ==>
                  LocalFileStorageService.SavedFor(kept[j], uuids[j], LocalFileStorageService.BuildPublicDir(props, parts),
                                                   LocalFileStorageService.EnsureDir(props, parts).value).Ok?
    ensures Uploaded(props, entries, today, uuids) == Err(LocalFileStorageService.InvalidPath)
    ensures var parts := LocalFileStorageService.DayParts([UploadSubDir], today);
            var kept := LocalFileStorageService.Kept(entries);
            Written(props, entries, today, uuids)
            == set j | 0 <= j < k :: LocalFileStorageService.SavedFor(kept[j], uuids[j], LocalFileStorageService.BuildPublicDir(props, parts),
                                                                     LocalFileStorageService.EnsureDir(props, parts).value).value.absolutePath
  {
    var parts := LocalFileStorageService.DayParts([UploadSubDir], today);
    var kept := LocalFileStorageService.Kept(entries);
    LocalFileStorageService.SaveEachStopsAtFirstFailure(kept, uuids, LocalFileStorageService.BuildPublicDir(props, parts),
                                                        LocalFileStorageService.EnsureDir(props, parts).value, k);
  }

  // ---------------------------------------------------------------------------
  // completeFromClientPayload
  // ---------------------------------------------------------------------------

  /** "scheduleId 불일치". */
  const ScheduleIdMismatch := "scheduleId \U{BD88}\U{C77C}\U{CE58}"

  /** The year as pattern letter 'y' prints it: the year of the era. */
  function YearOfEra(year: int): nat {
    if year >= 1 then year else 1 - year
  }

  /** `DateTimeFormatter.ofPattern("yyyy-MM-dd HH:mm")`: four digits of the year of the era, or a
      '+' and all of them above 9999, then month, day, hour and minute as two digits. */
  function CompletionText(t: LocalDateTime): string
    requires IsValidDateTime(t)
  {
    var y := YearOfEra(t.date.year);
    var year := if y > 9999 then "+" + LocalFileStorageService.Decimal(y) else LocalFileStorageService.ZeroPad(y, 4);
    year + "-" + LocalFileStorageService.ZeroPad(t.date.month, 2) + "-" + LocalFileStorageService.ZeroPad(t.date.day, 2)
    + " " + LocalFileStorageService.ZeroPad(t.hour, 2) + ":" + LocalFileStorageService.ZeroPad(t.minute, 2)
  }

  lemma {:induction false} DecimalLength(n: nat)
    ensures n < 10 ==> |LocalFileStorageService.Decimal(n)| == 1
    ensures n < 100 ==> |LocalFileStorageService.Decimal(n)| <= 2
    ensures n < 1000 ==> |LocalFileStorageService.Decimal(n)| <= 3
    ensures n < 10000 ==> |LocalFileStorageService.Decimal(n)| <= 4
  {
    if n >= 10 {
      assert LocalFileStorageService.Decimal(n)
             == LocalFileStorageService.Decimal(n / 10) + [LocalFileStorageService.DigitChar(n % 10)];
      DecimalLength(n / 10);
    }
  }

  lemma ZeroPadExact(n: nat, width: nat)
    requires (width == 2 && n < 100) || (width == 4 && n < 10000)
    ensures |LocalFileStorageService.ZeroPad(n, width)| == width
  {
    DecimalLength(n);
  }

  /** For a year from 1 to 9999 the completion text is sixteen characters, the date and the time
      separated by one space, and it does not depend on the seconds. */
  lemma CompletionTextLayout(t: LocalDateTime, seconds: int, nanos: int)
    requires IsValidDateTime(t) && 1 <= t.date.year <= 9999
    requires 0 <= seconds < 60 && 0 <= nanos < 1_000_000_000
    ensures var s := CompletionText(t);
            |s| == 16 && s[4] == '-' && s[7] == '-' && s[10] == ' ' && s[13] == ':'
            && (forall i :: 0 <= i < 16 && i != 4 && i != 7 && i != 10 && i != 13 ==> '0' <= s[i] <= '9')
    ensures CompletionText(LocalDateTime(t.date, t.hour, t.minute, seconds, nanos)) == CompletionText(t)
  {
    ZeroPadExact(t.date.year, 4);
    ZeroPadExact(t.date.month, 2);
    ZeroPadExact(t.date.day, 2);
    ZeroPadExact(t.hour, 2);
    ZeroPadExact(t.minute, 2);
  }

  /** completeFromClientPayload(scheduleId, payload): a payload for another schedule is refused
      with 400 and nothing written; otherwise completeDate is overwritten with the server's
      `now`, the schedule updated, and the time returned as "yyyy-MM-dd HH:mm". */
  method CompleteFromClientPayload(scheduleId: int, payload: Schedule, now: LocalDateTime, mapper: AsMapper)
    returns (r: Result<map<string, string>, Failure>)
    requires IsValidDateTime(now)
    modifies payload, mapper
    ensures payload.asId == old(payload.asId) && payload.useFlag == old(payload.useFlag)
    ensures payload.scheduleId != Some(scheduleId) ==>
              r == Err(BadRequest(ScheduleIdMismatch)) && mapper.trace == old(mapper.trace)
              && payload.completeDate == old(payload.completeDate)
    ensures payload.scheduleId == Some(scheduleId) ==>
              payload.completeDate == Some(now)
              && mapper.trace == old(mapper.trace) + [UpdateSchedule(payload.Row())]
              && r == Ok(map["completeDate" := CompletionText(now)])
  {
    if payload.scheduleId != Some(scheduleId) {
      return Err(BadRequest(ScheduleIdMismatch));
    }
    payload.completeDate := Some(now);
    mapper.Record(UpdateSchedule(payload.Row()));
    r := Ok(map["completeDate" := CompletionText(now)]);
  }
}
