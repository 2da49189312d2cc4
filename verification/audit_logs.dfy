/** The audit-log service over an in-memory table: version numbering,
    creation against the action-type catalog, the role-based access filter,
    the filtered and paginated listing, lookups, history, deletion,
    statistics and search. The database becomes a `Store` value; `now` is a
    parameter. */
module AuditLogs {
  import opened Results
  import opened Text
  import opened Json
  import Seqs
  import opened Records

  const DayMs: int := 24 * 60 * 60 * 1000
  /** `dateTo + 'T23:59:59.999Z'`: the last millisecond of the given day. */
  const EndOfDayMs: int := DayMs - 1
  const DefaultPage: int := 1
  const DefaultLimit: int := 10

  /** The two tables, and the next value of the auto-incremented id. */
  datatype Store = Store(catalog: seq<ActionType>, logs: seq<AuditLog>, nextId: int)

  /** Ids are unique and below the next id to hand out. */
  ghost predicate IdsFresh(s: Store) {
    && (forall i, j :: 0 <= i < j < |s.logs| ==> s.logs[i].id != s.logs[j].id)
    && (forall i :: 0 <= i < |s.logs| ==> s.logs[i].id < s.nextId)
  }

  predicate SamePair(row: AuditLog, entityType: string, entityId: string) {
    row.entityType == entityType && row.entityId == entityId
  }

  /** The rows of one (entity_type, entity_id) pair, in table order. */
  function PairRows(logs: seq<AuditLog>, entityType: string, entityId: string): seq<AuditLog> {
    Seqs.Filter(logs, InPair(entityType, entityId))
  }

  function InPair(entityType: string, entityId: string): AuditLog -> bool {
    (row: AuditLog) => SamePair(row, entityType, entityId)
  }

  // ---------------------------------------------------------------------
  // Versions
  // ---------------------------------------------------------------------

  /** The highest version stored for the pair, if any row has it. */
  function MaxVersion(logs: seq<AuditLog>, entityType: string, entityId: string): (r: Option<int>)
    ensures r.None? <==> forall i :: 0 <= i < |logs| ==> !SamePair(logs[i], entityType, entityId)
    ensures r.Some? ==> forall i :: 0 <= i < |logs| && SamePair(logs[i], entityType, entityId) ==>
      logs[i].version <= r.value
    ensures r.Some? ==> exists i :: 0 <= i < |logs| && SamePair(logs[i], entityType, entityId) && logs[i].version == r.value
  {
    if |logs| == 0 then None
    else
      var rest := MaxVersion(logs[1..], entityType, entityId);
      var here := logs[0];
      if !SamePair(here, entityType, entityId) then
        assert forall i :: 1 <= i < |logs| ==> logs[i] == logs[1..][i - 1];
        rest
      else if rest.None? || rest.value < here.version then
        assert forall i :: 1 <= i < |logs| ==> logs[i] == logs[1..][i - 1];
        Some(here.version)
      else
        assert forall i :: 1 <= i < |logs| ==> logs[i] == logs[1..][i - 1];
        var k :| 0 <= k < |logs[1..]| && SamePair(logs[1..][k], entityType, entityId)
          && logs[1..][k].version == rest.value;
        assert logs[k + 1] == logs[1..][k];
        rest
  }

  /** `getNextVersion`: one more than the highest version of the pair, or 1
      for a pair never seen. */
  function NextVersion(logs: seq<AuditLog>, entityType: string, entityId: string): (r: int)
    ensures (forall i :: 0 <= i < |logs| ==> !SamePair(logs[i], entityType, entityId)) ==> r == 1
    ensures forall i :: 0 <= i < |logs| && SamePair(logs[i], entityType, entityId) ==>
      logs[i].version < r
    ensures (exists i :: 0 <= i < |logs| && SamePair(logs[i], entityType, entityId)) ==>
      exists i :: 0 <= i < |logs| && SamePair(logs[i], entityType, entityId) && logs[i].version == r - 1
  {
    match MaxVersion(logs, entityType, entityId)
    case None => 1
    case Some(v) => v + 1
  }

  // ---------------------------------------------------------------------
  // Catalog and creation
  // ---------------------------------------------------------------------

  /** `action_type.findUnique({ where: { code: code.toUpperCase() } })`. */
  function FindActionType(catalog: seq<ActionType>, code: string): (r: Option<ActionType>)
    ensures r.Some? <==> exists i :: 0 <= i < |catalog| && catalog[i].code == ToUpper(code)
    ensures r.Some? ==> r.value in catalog && r.value.code == ToUpper(code)
  {
    var upper := ToUpper(code);
    if |catalog| == 0 then None
    else if catalog[0].code == upper then Some(catalog[0])
    else
      assert forall i :: 1 <= i < |catalog| ==> catalog[i] == catalog[1..][i - 1];
      FindActionType(catalog[1..], code)
  }

  /** What a caller hands to `createAuditLog`; `None` is an omitted field. */
  datatype CreateInput = CreateInput(
    entityType: string,
    entityId: string,
    actionTypeCode: string,
    actionBy: Option<string>,
    previousData: Option<Json>,
    newData: Option<Json>)

  /** JavaScript truthiness of a payload. */
  predicate Truthy(v: Json) {
    match v
    case JNull => false
    case JBool(b) => b
    case JNum(n) => n != 0
    case JStr(s) => s != ""
    case _ => true
  }

  /** `value || undefined`, stored: a falsy or omitted payload becomes the
      column's NULL. */
  function StoredPayload(v: Option<Json>): (r: Json)
    ensures r == JNull || (Truthy(r) && v == Some(r))
    ensures v.Some? && (v.value.JObj? || v.value.JArr?) ==> r == v.value
    ensures v.Some? && Truthy(v.value) ==> r == v.value
    ensures v.None? || !Truthy(v.value) ==> r == JNull
  {
    if v.Some? && Truthy(v.value) then v.value else JNull
  }

  /** `action_by || null`. */
  function StoredActor(actionBy: Option<string>): Option<string> {
    if actionBy.Some? && actionBy.value != "" then actionBy else None
  }

  /** `createAuditLog`: resolves the code, numbers the entry after the last
      one of its pair and appends it. The row's `action_at` and `created_at`
      are the database's `now()`, and no IP address is stored. */
  function CreateAuditLog(store: Store, input: CreateInput, now: int): (r: Result<(Store, AuditLog), string>)
    ensures r.Failure? <==> FindActionType(store.catalog, input.actionTypeCode).None?
    ensures r.Failure? ==> r.error == "Invalid action type code: " + input.actionTypeCode
    ensures r.Success? ==>
      var (after, row) := r.value;
      && after.catalog == store.catalog
      && after.logs == store.logs + [row]
      && after.nextId == store.nextId + 1
      && row.id == store.nextId
      && row.actionType in store.catalog
      && row.actionType.code == ToUpper(input.actionTypeCode)
      && row.entityType == input.entityType && row.entityId == input.entityId
      && row.version == NextVersion(store.logs, input.entityType, input.entityId)
      && row.actionAt == now && row.createdAt == now
      && row.ipAddress.None?
      && (row.actionBy.Some? <==> input.actionBy.Some? && input.actionBy.value != "")
      && (row.actionBy.Some? ==> row.actionBy == input.actionBy)
      && row.previousData == StoredPayload(input.previousData)
      && row.newData == StoredPayload(input.newData)
  {
    match FindActionType(store.catalog, input.actionTypeCode)
    case None => Failure("Invalid action type code: " + input.actionTypeCode)
    case Some(actionType) =>
      var row := AuditLog(
        store.nextId, input.entityType, input.entityId, actionType,
        StoredActor(input.actionBy), now,
        StoredPayload(input.previousData), StoredPayload(input.newData),
        NextVersion(store.logs, input.entityType, input.entityId), None, now);
      Success((Store(store.catalog, store.logs + [row], store.nextId + 1), row))
  }

  /** The rows of the pair carry versions 1, 2, 3, ... in table order. */
  ghost predicate VersionsSequential(logs: seq<AuditLog>, entityType: string, entityId: string) {
    var pair := PairRows(logs, entityType, entityId);
    forall i :: 0 <= i < |pair| ==> pair[i].version == i + 1
  }

  /** Creation keeps the numbering of every pair sequential: the new entry
      of its pair gets the number after the last, and other pairs are not
      touched. It also keeps ids unique. */
  lemma CreateKeepsVersionsSequential(store: Store, input: CreateInput, now: int, entityType: string, entityId: string)
    requires VersionsSequential(store.logs, entityType, entityId)
    requires CreateAuditLog(store, input, now).Success?
    ensures VersionsSequential(CreateAuditLog(store, input, now).value.0.logs, entityType, entityId)
  {
    var row := CreateAuditLog(store, input, now).value.1;
    AppendNextKeepsSequential(store.logs, row, entityType, entityId);
  }

  /** Appending a row numbered by `NextVersion` keeps every pair's
      numbering sequential. */
  lemma AppendNextKeepsSequential(logs: seq<AuditLog>, row: AuditLog, entityType: string, entityId: string)
    requires VersionsSequential(logs, entityType, entityId)
    requires row.version == NextVersion(logs, row.entityType, row.entityId)
    ensures VersionsSequential(logs + [row], entityType, entityId)
  {
    var pair := PairRows(logs, entityType, entityId);
    Seqs.FilterAppend(logs, row, InPair(entityType, entityId));
    if SamePair(row, entityType, entityId) {
      assert PairRows(logs + [row], entityType, entityId) == pair + [row];
      if |pair| == 0 {
        forall i | 0 <= i < |logs|
          ensures !SamePair(logs[i], entityType, entityId)
        {
          assert logs[i] in logs;
        }
      } else {
        NextAfterLast(logs, entityType, entityId);
      }
    }
  }

  lemma NextAfterLast(logs: seq<AuditLog>, entityType: string, entityId: string)
    requires VersionsSequential(logs, entityType, entityId)
    requires |PairRows(logs, entityType, entityId)| > 0
    ensures NextVersion(logs, entityType, entityId) == |PairRows(logs, entityType, entityId)| + 1
  {
    var pair := PairRows(logs, entityType, entityId);
    var next := NextVersion(logs, entityType, entityId);
    var last := pair[|pair| - 1];
    assert last in logs;
    var k :| 0 <= k < |logs| && logs[k] == last;
    assert |pair| < next;
    var j :| 0 <= j < |logs| && SamePair(logs[j], entityType, entityId) && logs[j].version == next - 1;
    assert logs[j] in logs;
    assert logs[j] in pair;
    var m := Seqs.IndexOf(pair, logs[j]);
    assert next - 1 == m + 1;
  }

  lemma CreateKeepsIdsFresh(store: Store, input: CreateInput, now: int)
    requires IdsFresh(store)
    requires CreateAuditLog(store, input, now).Success?
    ensures IdsFresh(CreateAuditLog(store, input, now).value.0)
  {
  }

  // ---------------------------------------------------------------------
  // Access filter
  // ---------------------------------------------------------------------

  /** The authenticated caller. */
  datatype Caller = Caller(id: string, role: string)

  /** The constraint a where-clause puts on `action_by`. */
  datatype ActorConstraint =
    | AnyActor
    | ActorStartsWith(prefix: string)
    | ActorEquals(actor: string)

  /** The department table of `buildAccessFilter`. */
  function DepartmentCode(department: string): Option<string> {
    if department == "finance" then Some("FIN")
    else if department == "hr" then Some("HR")
    else if department == "inventory" then Some("INV")
    else if department == "operations" then Some("OPS")
    else None
  }

  /** The department a role names: its first word, lower-cased. */
  function Department(role: string): string {
    ToLower(FirstWord(role))
  }

  /** A role that contains `Admin` and whose first word is a known
      department. */
  predicate DepartmentAdmin(role: string) {
    Contains(role, "Admin") && DepartmentCode(Department(role)).Some?
  }

  /** `buildAccessFilter`: no constraint only for SuperAdmin, a department
      prefix only for a department admin, and otherwise the caller's own id. */
  function BuildAccessFilter(caller: Caller): (r: ActorConstraint)
    ensures r.AnyActor? <==> caller.role == "SuperAdmin"
    ensures r.ActorStartsWith? <==> caller.role != "SuperAdmin" && DepartmentAdmin(caller.role)
    ensures r.ActorStartsWith? ==> r.prefix in ["FIN", "HR", "INV", "OPS"]
    ensures r.ActorEquals? ==> r.actor == caller.id
  {
    if caller.role == "SuperAdmin" then AnyActor
    else if DepartmentAdmin(caller.role) then ActorStartsWith(DepartmentCode(Department(caller.role)).value)
    else ActorEquals(caller.id)
  }

  /** A row satisfies an actor constraint; a missing `action_by` satisfies
      only the absent one. */
  predicate Admits(c: ActorConstraint, actionBy: Option<string>) {
    match c
    case AnyActor => true
    case ActorStartsWith(p) => actionBy.Some? && StartsWith(actionBy.value, p)
    case ActorEquals(a) => actionBy == Some(a)
  }

  predicate Visible(caller: Caller, row: AuditLog) {
    Admits(BuildAccessFilter(caller), row.actionBy)
  }

  /** The three kinds of caller: a SuperAdmin sees every row, a department
      admin sees the rows whose actor starts with the department code, and
      everyone else sees only the rows they performed. */
  lemma AccessFilterCases(caller: Caller, row: AuditLog)
    ensures caller.role == "SuperAdmin" ==> Visible(caller, row)
    ensures caller.role != "SuperAdmin" && Contains(caller.role, "Admin") ==>
      var dept := Department(caller.role);
      (dept == "finance" ==> (Visible(caller, row) <==> row.actionBy.Some? && StartsWith(row.actionBy.value, "FIN")))
      && (dept == "hr" ==> (Visible(caller, row) <==> row.actionBy.Some? && StartsWith(row.actionBy.value, "HR")))
      && (dept == "inventory" ==> (Visible(caller, row) <==> row.actionBy.Some? && StartsWith(row.actionBy.value, "INV")))
      && (dept == "operations" ==> (Visible(caller, row) <==> row.actionBy.Some? && StartsWith(row.actionBy.value, "OPS")))
    ensures caller.role != "SuperAdmin" && !DepartmentAdmin(caller.role) ==>
      (Visible(caller, row) <==> row.actionBy == Some(caller.id))
    ensures caller.role != "SuperAdmin" && row.actionBy.None? ==> !Visible(caller, row)
  {
  }

  /** "Finance Admin" and "finance admin" are not the same role: `Admin` is
      looked for case-sensitively, so the second one only sees its own rows. */
  lemma AdminMarkerIsCaseSensitive(id: string, row: AuditLog)
    ensures Visible(Caller(id, "finance admin"), row) <==> row.actionBy == Some(id)
  {
    LowerCaseRoleSeesOwnRows(Caller(id, "finance admin"), row);
  }

  /** A role without a capital `A` is neither `SuperAdmin` nor an admin
      role: whatever department it names, it sees only its own rows. */
  lemma LowerCaseRoleSeesOwnRows(caller: Caller, row: AuditLog)
    requires 'A' !in caller.role
    ensures Visible(caller, row) <==> row.actionBy == Some(caller.id)
  {
    assert "SuperAdmin"[5] == 'A';
    MissingCharNotContained(caller.role, "Admin");
  }

  /** A text without the first character of `part` does not contain it. */
  lemma {:induction false} MissingCharNotContained(s: string, part: string)
    requires |part| > 0 && part[0] !in s
    ensures !Contains(s, part)
  {
    if |s| > 0 {
      MissingCharNotContained(s[1..], part);
    }
  }

  // ---------------------------------------------------------------------
  // Listing with filters
  // ---------------------------------------------------------------------

  /** The query of `getAuditLogs`. Dates are the day starts (UTC midnight,
      in ms) that `new Date('YYYY-MM-DD')` yields; `None` is an omitted
      field. */
  datatype LogFilters = LogFilters(
    entityType: Option<string>,
    entityId: Option<string>,
    actionTypeCode: Option<string>,
    actionBy: Option<string>,
    dateFrom: Option<int>,
    dateTo: Option<int>,
    page: Option<int>,
    limit: Option<int>)

  /** A string filter that JavaScript's `&&` lets through: present and
      non-empty. */
  predicate Given(o: Option<string>) {
    o.Some? && o.value != ""
  }

  /** The composed where-clause. */
  datatype Where = Where(
    actor: ActorConstraint,
    entityType: Option<string>,
    entityId: Option<string>,
    actionTypeId: Option<int>,
    from: Option<int>,
    to: Option<int>)

  /** The object spread of `getAuditLogs`: later keys replace earlier ones,
      so an `action_by` filter replaces the caller's access constraint. */
  function BuildWhere(filters: LogFilters, caller: Caller, actionTypeId: Option<int>): (w: Where)
    ensures Given(filters.actionBy) ==> w.actor == ActorEquals(filters.actionBy.value)
    ensures !Given(filters.actionBy) ==> w.actor == BuildAccessFilter(caller)
    ensures w.entityType == (if Given(filters.entityType) then filters.entityType else None)
    ensures w.entityId == (if Given(filters.entityId) then filters.entityId else None)
    ensures w.actionTypeId == actionTypeId
    ensures w.from == filters.dateFrom
    ensures w.to == (if filters.dateTo.Some? then Some(filters.dateTo.value + EndOfDayMs) else None)
  {
    Where(
      if Given(filters.actionBy) then ActorEquals(filters.actionBy.value) else BuildAccessFilter(caller),
      if Given(filters.entityType) then filters.entityType else None,
      if Given(filters.entityId) then filters.entityId else None,
      actionTypeId,
      filters.dateFrom,
      if filters.dateTo.Some? then Some(filters.dateTo.value + EndOfDayMs) else None)
  }

  predicate Matches(w: Where, row: AuditLog) {
    && Admits(w.actor, row.actionBy)
    && (w.entityType.Some? ==> row.entityType == w.entityType.value)
    && (w.entityId.Some? ==> row.entityId == w.entityId.value)
    && (w.actionTypeId.Some? ==> row.actionType.id == w.actionTypeId.value)
    && (w.from.Some? ==> w.from.value <= row.actionAt)
    && (w.to.Some? ==> row.actionAt <= w.to.value)
  }

  /** The rows a where-clause selects, in table order. */
  function MatchingRows(logs: seq<AuditLog>, w: Where): seq<AuditLog> {
    Seqs.Filter(logs, (row: AuditLog) => Matches(w, row))
  }

  /** Newest first: the default `orderBy: { action_at: 'desc' }`. */
  function NewestFirst(rows: seq<AuditLog>): (r: seq<AuditLog>)
    ensures |r| == |rows|
    ensures multiset(r) == multiset(rows)
    ensures forall i, j :: 0 <= i < j < |r| ==> r[i].actionAt >= r[j].actionAt
  {
    var sorted := Seqs.SortBy(rows, (row: AuditLog) => -row.actionAt);
    assert forall i, j :: 0 <= i < j < |sorted| ==> -sorted[i].actionAt <= -sorted[j].actionAt;
    sorted
  }

  /** The `skip`/`take` window of the rows, newest first. */
  function NewestPage(rows: seq<AuditLog>, skip: nat, take: nat): (r: seq<AuditLog>)
    ensures |r| <= take
    ensures skip <= |rows| ==> |r| == Min(take, |rows| - skip)
    ensures forall i :: 0 <= i < |r| ==> r[i] in rows
    ensures forall i, j :: 0 <= i < j < |r| ==> r[i].actionAt >= r[j].actionAt
    ensures |r| > 0 ==> skip + |r| <= |rows|
    ensures forall i :: 0 <= i < |r| ==> r[i] == NewestFirst(rows)[skip + i]
  {
    var sorted := NewestFirst(rows);
    var r := Seqs.Window(sorted, skip, take);
    forall i | 0 <= i < |r|
      ensures r[i] in rows
    {
      assert r[i] == sorted[skip + i];
      assert r[i] in multiset(sorted);
    }
    r
  }

  /** What a negative `take` of `-n` selects: the database counts it from
      the far end of the order, so these are the (at most) `n` rows of the
      newest-first order that end `skip` rows before its end, still newest
      first. */
  function NewestTail(rows: seq<AuditLog>, skip: nat, n: nat): (r: seq<AuditLog>)
    ensures |r| <= n
    ensures skip <= |rows| ==> |r| == Min(n, |rows| - skip)
    ensures forall i :: 0 <= i < |r| ==> r[i] in rows
    ensures forall i, j :: 0 <= i < j < |r| ==> r[i].actionAt >= r[j].actionAt
    ensures |r| > 0 ==> skip + |r| <= |rows|
    ensures forall i :: 0 <= i < |r| ==> r[i] == NewestFirst(rows)[|rows| - skip - |r| + i]
  {
    if skip >= |rows| then []
    else
      var end := |rows| - skip;
      var start := if n <= end then end - n else 0;
      NewestPage(rows, start, end - start)
  }

  /** Counting back from the end meets counting forward: the last `n` rows
      are the page that skips all the others. */
  lemma TailMeetsPage(rows: seq<AuditLog>, n: nat)
    requires n <= |rows|
    ensures NewestTail(rows, 0, n) == NewestPage(rows, |rows| - n, n)
  {
    var a := NewestTail(rows, 0, n);
    var b := NewestPage(rows, |rows| - n, n);
    assert |a| == |b|;
    forall i | 0 <= i < |a|
      ensures a[i] == b[i]
    {
    }
  }

  /** The window of a `skip`/`take` pair over the newest-first order: a
      non-negative take counts forward from `skip`, a negative one counts
      back from `skip` rows before the end. */
  function ListingWindow(rows: seq<AuditLog>, skip: nat, take: int): (r: seq<AuditLog>)
    ensures |r| <= if take >= 0 then take else -take
    ensures forall i :: 0 <= i < |r| ==> r[i] in rows
    ensures forall i, j :: 0 <= i < j < |r| ==> r[i].actionAt >= r[j].actionAt
  {
    if take >= 0 then NewestPage(rows, skip, take) else NewestTail(rows, skip, -take)
  }

  /** The rows a page skips: `(page - 1) * limit`. */
  function Skip(page: int, limit: int): int {
    (page - 1) * limit
  }

  /** The database refuses a negative `skip`; a negative `take` is legal. */
  predicate WindowOk(page: int, limit: int) {
    Skip(page, limit) >= 0
  }

  function Min(a: int, b: int): int {
    if a <= b then a else b
  }

  datatype LogPage = LogPage(logs: seq<AuditLog>, total: nat, page: int, limit: int)

  /** The `action_type_id` condition: `Some(None)` when no code is given,
      `Some(Some(id))` for a known code, `None` for an unknown one. */
  function TypeCondition(catalog: seq<ActionType>, code: Option<string>): (r: Option<Option<int>>)
    ensures r == Some(None) <==> !Given(code)
    ensures r.None? <==> Given(code) && FindActionType(catalog, code.value).None?
    ensures r.Some? && r.value.Some? ==>
      exists i :: 0 <= i < |catalog| && catalog[i].code == ToUpper(code.value) && catalog[i].id == r.value.value
  {
    if !Given(code) then Some(None)
    else match FindActionType(catalog, code.value)
      case Some(t) => Some(Some(t.id))
      case None => None
  }

  /** `getAuditLogs` with the default ordering. An unknown action-type code
      answers an empty page; otherwise `total` counts every matching row and
      the page holds the `(page - 1) * limit` window of them, newest first.
      A negative skip is refused; a negative limit counts back from the end
      of the order. */
  function GetAuditLogs(store: Store, filters: LogFilters, caller: Caller): (r: Result<LogPage, string>)
    ensures var page := filters.page.GetOr(DefaultPage);
      var limit := filters.limit.GetOr(DefaultLimit);
      var cond := TypeCondition(store.catalog, filters.actionTypeCode);
      && (cond.None? ==> r == Success(LogPage([], 0, page, limit)))
      && (r.Failure? <==> cond.Some? && !WindowOk(page, limit))
      && (r.Success? && cond.Some? ==>
            var w := BuildWhere(filters, caller, cond.value);
            && r.value.total == |MatchingRows(store.logs, w)|
            && r.value.page == page && r.value.limit == limit
            && r.value.logs == ListingWindow(MatchingRows(store.logs, w), Skip(page, limit), limit)
            && forall i :: 0 <= i < |r.value.logs| ==>
                 r.value.logs[i] in store.logs && Matches(w, r.value.logs[i]))
  {
    var page := filters.page.GetOr(DefaultPage);
    var limit := filters.limit.GetOr(DefaultLimit);
    var cond := TypeCondition(store.catalog, filters.actionTypeCode);
    if cond.None? then Success(LogPage([], 0, page, limit))
    else if !WindowOk(page, limit) then Failure("skip must not be negative")
    else
      var w := BuildWhere(filters, caller, cond.value);
      var matching := MatchingRows(store.logs, w);
      Success(LogPage(ListingWindow(matching, Skip(page, limit), limit), |matching|, page, limit))
  }

  /** Without an `action_by` filter every listed row is one the caller may
      see; with one, the access filter is bypassed. */
  lemma ListingRespectsAccess(store: Store, filters: LogFilters, caller: Caller, typeId: Option<int>, row: AuditLog)
    ensures !Given(filters.actionBy) && Matches(BuildWhere(filters, caller, typeId), row) ==> Visible(caller, row)
    ensures Given(filters.actionBy) ==>
      (Admits(BuildWhere(filters, caller, typeId).actor, row.actionBy) <==> row.actionBy == filters.actionBy)
  {
  }

  /** Both date bounds are inclusive: a row stamped exactly at `dateFrom`'s
      midnight or at the last millisecond of `dateTo` is kept, one a
      millisecond outside is not. */
  lemma DateBoundsInclusive(filters: LogFilters, caller: Caller, typeId: Option<int>, row: AuditLog)
    requires filters.dateFrom.Some? && filters.dateTo.Some?
    requires Matches(BuildWhere(filters, caller, typeId), row.(actionAt := filters.dateFrom.value))
    ensures filters.dateFrom.value <= filters.dateTo.value + EndOfDayMs ==>
      Matches(BuildWhere(filters, caller, typeId), row.(actionAt := filters.dateTo.value + EndOfDayMs))
    ensures !Matches(BuildWhere(filters, caller, typeId), row.(actionAt := filters.dateFrom.value - 1))
    ensures !Matches(BuildWhere(filters, caller, typeId), row.(actionAt := filters.dateTo.value + DayMs))
  {
  }

  // ---------------------------------------------------------------------
  // Single rows, history, deletion
  // ---------------------------------------------------------------------

  /** `getAuditLogById`: the row with that id if the caller may see it. */
  function GetAuditLogById(store: Store, id: int, caller: Caller): (r: Option<AuditLog>)
    ensures r.Some? <==> exists i :: 0 <= i < |store.logs| && store.logs[i].id == id && Visible(caller, store.logs[i])
    ensures r.Some? ==> r.value in store.logs && r.value.id == id && Visible(caller, r.value)
  {
    var hits := Seqs.Filter(store.logs, (row: AuditLog) => row.id == id && Visible(caller, row));
    if |hits| == 0 then
      assert forall i :: 0 <= i < |store.logs| ==> store.logs[i] in store.logs;
      None
    else
      assert hits[0] in hits;
      Some(hits[0])
  }

  /** An id that exists but is out of the caller's reach reads exactly like
      an id that does not exist. */
  lemma HiddenLooksAbsent(store: Store, id: int, caller: Caller)
    requires IdsFresh(store)
    requires exists i :: 0 <= i < |store.logs| && store.logs[i].id == id && !Visible(caller, store.logs[i])
    ensures GetAuditLogById(store, id, caller).None?
  {
  }

  /** The rows of the pair that the caller may see, in table order. */
  function VisiblePairRows(logs: seq<AuditLog>, entityType: string, entityId: string, caller: Caller): seq<AuditLog> {
    Seqs.Filter(logs, (row: AuditLog) => SamePair(row, entityType, entityId) && Visible(caller, row))
  }

  /** A created row reads back unchanged: by id and in its pair's history,
      for every caller allowed to see it. Its payloads are the caller's own
      when truthy and NULL when falsy or omitted. */
  lemma CreateThenGet(store: Store, input: CreateInput, now: int, caller: Caller)
    requires IdsFresh(store)
    requires CreateAuditLog(store, input, now).Success?
    requires Visible(caller, CreateAuditLog(store, input, now).value.1)
    ensures var (after, row) := CreateAuditLog(store, input, now).value;
      && GetAuditLogById(after, row.id, caller) == Some(row)
      && row in GetEntityHistory(after, input.entityType, input.entityId, caller)
      && (input.newData.Some? && Truthy(input.newData.value) ==> row.newData == input.newData.value)
      && (input.previousData.Some? && Truthy(input.previousData.value) ==> row.previousData == input.previousData.value)
      && (input.newData.None? || !Truthy(input.newData.value) ==> row.newData == JNull)
  {
    var (after, row) := CreateAuditLog(store, input, now).value;
    CreateKeepsIdsFresh(store, input, now);
    assert after.logs[|store.logs|] == row;
    var found := GetAuditLogById(after, row.id, caller);
    assert found.Some?;
    assert found.value == row by {
      var i :| 0 <= i < |after.logs| && after.logs[i] == found.value;
      assert after.logs[i].id == after.logs[|store.logs|].id;
    }
  }

  /** `getEntityHistory`: the visible rows of the pair, oldest version
      first. */
  function GetEntityHistory(store: Store, entityType: string, entityId: string, caller: Caller): (r: seq<AuditLog>)
    ensures forall row :: row in r <==>
      row in store.logs && SamePair(row, entityType, entityId) && Visible(caller, row)
    ensures multiset(r) == multiset(VisiblePairRows(store.logs, entityType, entityId, caller))
    ensures forall i, j :: 0 <= i < j < |r| ==> r[i].version <= r[j].version
  {
    var rows := VisiblePairRows(store.logs, entityType, entityId, caller);
    var sorted := Seqs.SortBy(rows, (row: AuditLog) => row.version);
    assert forall row :: row in sorted <==> row in multiset(rows);
    sorted
  }

  /** The rows whose id is not `id`, in table order. */
  function Others(logs: seq<AuditLog>, id: int): seq<AuditLog> {
    Seqs.Filter(logs, NotId(id))
  }

  function NotId(id: int): AuditLog -> bool {
    (row: AuditLog) => row.id != id
  }

  /** `deleteAuditLog`: removes the row with that id; an absent id is the
      database's "record to delete does not exist" error. */
  function DeleteAuditLog(store: Store, id: int): (r: Result<Store, string>)
    ensures r.Failure? <==> forall i :: 0 <= i < |store.logs| ==> store.logs[i].id != id
    ensures r.Success? ==>
      && r.value.catalog == store.catalog
      && r.value.nextId == store.nextId
      && (forall row :: row in r.value.logs <==> row in store.logs && row.id != id)
  {
    if forall i :: 0 <= i < |store.logs| ==> store.logs[i].id != id then
      Failure("Record to delete does not exist.")
    else
      Success(store.(logs := Others(store.logs, id)))
  }

  /** Deletion keeps ids unique and below the next id, so a deleted id is
      never handed out again. */
  lemma DeleteKeepsIdsFresh(store: Store, id: int)
    requires IdsFresh(store)
    requires DeleteAuditLog(store, id).Success?
    ensures IdsFresh(DeleteAuditLog(store, id).value)
  {
    var after := DeleteAuditLog(store, id).value;
    assert after == store.(logs := Others(store.logs, id));
    OthersKeepsIdsFresh(store, id);
  }

  predicate IdsDiffer(a: AuditLog, b: AuditLog) {
    a.id != b.id
  }

  lemma OthersKeepsIdsFresh(store: Store, id: int)
    requires IdsFresh(store)
    ensures IdsFresh(store.(logs := Others(store.logs, id)))
  {
    var rest := Others(store.logs, id);
    assert forall i, j :: 0 <= i < j < |store.logs| ==> IdsDiffer(store.logs[i], store.logs[j]);
    Seqs.FilterPairwise(store.logs, NotId(id), IdsDiffer);
    assert rest == Seqs.Filter(store.logs, NotId(id));
    assert forall i, j :: 0 <= i < j < |rest| ==> IdsDiffer(rest[i], rest[j]);
    forall i | 0 <= i < |rest|
      ensures rest[i].id < store.nextId
    {
      assert rest[i] in store.logs;
    }
  }

  // ---------------------------------------------------------------------
  // Statistics and search
  // ---------------------------------------------------------------------

  datatype Stats = Stats(
    totalLogs: nat,
    recentActivity: nat,
    actionBreakdown: seq<(Option<ActionType>, nat)>,
    entityBreakdown: seq<(string, nat)>)

  /** `actionTypeMap.get(id)`. */
  function ActionTypeById(catalog: seq<ActionType>, id: int): (r: Option<ActionType>)
    ensures r.Some? <==> exists i :: 0 <= i < |catalog| && catalog[i].id == id
    ensures r.Some? ==> r.value in catalog && r.value.id == id
  {
    if |catalog| == 0 then None
    else if catalog[0].id == id then Some(catalog[0])
    else
      assert forall i :: 1 <= i < |catalog| ==> catalog[i] == catalog[1..][i - 1];
      ActionTypeById(catalog[1..], id)
  }

  function TypeIds(rows: seq<AuditLog>): (r: seq<int>)
    ensures |r| == |rows| && forall i :: 0 <= i < |rows| ==> r[i] == rows[i].actionType.id
  {
    seq(|rows|, i requires 0 <= i < |rows| => rows[i].actionType.id)
  }

  function EntityTypes(rows: seq<AuditLog>): (r: seq<string>)
    ensures |r| == |rows| && forall i :: 0 <= i < |rows| ==> r[i] == rows[i].entityType
  {
    seq(|rows|, i requires 0 <= i < |rows| => rows[i].entityType)
  }

  /** Entity groups, largest first. */
  function ByCountDescending(groups: seq<(string, nat)>): (r: seq<(string, nat)>)
    ensures multiset(r) == multiset(groups)
    ensures forall i, j :: 0 <= i < j < |r| ==> r[i].1 >= r[j].1
  {
    var sorted := Seqs.SortBy(groups, (g: (string, nat)) => -(g.1 as int));
    assert forall i, j :: 0 <= i < j < |sorted| ==> -(sorted[i].1 as int) <= -(sorted[j].1 as int);
    sorted
  }

  /** The rows the caller may see, in table order. */
  function VisibleRows(logs: seq<AuditLog>, caller: Caller): seq<AuditLog> {
    Seqs.Filter(logs, (row: AuditLog) => Visible(caller, row))
  }

  /** The rows stamped at or after `since`. */
  function RowsSince(rows: seq<AuditLog>, since: int): seq<AuditLog> {
    Seqs.Filter(rows, (row: AuditLog) => row.actionAt >= since)
  }

  /** `groupBy(['entity_type'])` ordered by count, largest first: one group
      per entity type present, counting its rows. */
  function EntityBreakdown(rows: seq<AuditLog>): (r: seq<(string, nat)>)
    ensures forall i, j :: 0 <= i < j < |r| ==> r[i].1 >= r[j].1
    ensures forall t :: t in EntityTypes(rows) <==> exists i :: 0 <= i < |r| && r[i].0 == t
    ensures forall i :: 0 <= i < |r| ==> r[i].1 == multiset(EntityTypes(rows))[r[i].0] && r[i].1 > 0
    ensures forall i, j :: 0 <= i < j < |r| ==> r[i].0 != r[j].0
  {
    var r := ByCountDescending(Seqs.Tally(EntityTypes(rows)));
    ReorderedTally(EntityTypes(rows), r);
    r
  }

  /** Any reordering of a tally still counts every element exactly. */
  lemma ReorderedTally(types: seq<string>, r: seq<(string, nat)>)
    requires multiset(r) == multiset(Seqs.Tally(types))
    ensures forall t :: t in types <==> exists i :: 0 <= i < |r| && r[i].0 == t
    ensures forall i :: 0 <= i < |r| ==> r[i].1 == multiset(types)[r[i].0] && r[i].1 > 0
    ensures forall i, j :: 0 <= i < j < |r| ==> r[i].0 != r[j].0
  {
    var groups := Seqs.Tally(types);
    Seqs.SameMembers(r, groups);
    forall i, j | 0 <= i < j < |r|
      ensures r[i].0 != r[j].0
    {
      if r[i].0 == r[j].0 {
        assert r[i] in groups && r[j] in groups;
        assert r[i] == r[j];
        Seqs.RepeatCountsTwice(r, i, j);
        Seqs.DistinctCountsOnce(groups, r[i]);
        assert false;
      }
    }
    forall i | 0 <= i < |r|
      ensures r[i].1 == multiset(types)[r[i].0] && r[i].1 > 0 && r[i].0 in types
    {
      assert r[i] in groups;
    }
    forall t | t in types
      ensures exists i :: 0 <= i < |r| && r[i].0 == t
    {
      var j :| 0 <= j < |groups| && groups[j].0 == t;
      assert groups[j] in r;
    }
  }

  /** Each id group with its id resolved against the catalog
      (`actionTypeMap.get`). */
  function Resolve(catalog: seq<ActionType>, groups: seq<(int, nat)>): (r: seq<(Option<ActionType>, nat)>)
    ensures |r| == |groups|
    ensures forall i :: 0 <= i < |r| ==> r[i] == (ActionTypeById(catalog, groups[i].0), groups[i].1)
  {
    seq(|groups|, i requires 0 <= i < |groups| => (ActionTypeById(catalog, groups[i].0), groups[i].1))
  }

  /** `groupBy(['action_type_id'])` with each id resolved against the
      catalog: one group per action type present, counting its rows. */
  function ActionBreakdown(catalog: seq<ActionType>, rows: seq<AuditLog>): (r: seq<(Option<ActionType>, nat)>)
    ensures |r| == |Seqs.Dedup(TypeIds(rows))|
    ensures var ids := TypeIds(rows);
      && (forall id :: id in ids ==> exists i :: 0 <= i < |r| && r[i].0 == ActionTypeById(catalog, id))
      && (forall i :: 0 <= i < |r| ==> exists id :: (id in ids && r[i].0 == ActionTypeById(catalog, id)
            && r[i].1 == multiset(ids)[id] && r[i].1 > 0))
  {
    var byType := Seqs.Tally(TypeIds(rows));
    var r := Resolve(catalog, byType);
    forall id | id in TypeIds(rows)
      ensures exists i :: 0 <= i < |r| && r[i].0 == ActionTypeById(catalog, id)
    {
      var i :| 0 <= i < |byType| && byType[i].0 == id;
      assert r[i].0 == ActionTypeById(catalog, id);
    }
    r
  }

  /** `getAuditLogStats` at time `now`: the visible total, the visible rows
      of the last 24 hours, and the two breakdowns over the visible rows. */
  function GetAuditLogStats(store: Store, caller: Caller, now: int): (r: Stats)
    ensures var visible := VisibleRows(store.logs, caller);
      && r.totalLogs == |visible|
      && r.recentActivity == |RowsSince(visible, now - DayMs)|
      && r.recentActivity <= r.totalLogs
      && r.actionBreakdown == ActionBreakdown(store.catalog, visible)
      && r.entityBreakdown == EntityBreakdown(visible)
  {
    var visible := VisibleRows(store.logs, caller);
    Stats(|visible|, |RowsSince(visible, now - DayMs)|, ActionBreakdown(store.catalog, visible), EntityBreakdown(visible))
  }

  /** Case-insensitive substring test (`contains` with `mode: 'insensitive'`). */
  predicate ContainsInsensitive(s: string, term: string) {
    Contains(ToLower(s), ToLower(term))
  }

  predicate SearchHit(caller: Caller, term: string, row: AuditLog) {
    && Visible(caller, row)
    && (|| ContainsInsensitive(row.entityType, term)
        || ContainsInsensitive(row.entityId, term)
        || (row.actionBy.Some? && ContainsInsensitive(row.actionBy.value, term)))
  }

  /** The rows `searchAuditLogs` selects, in table order. */
  function SearchHits(logs: seq<AuditLog>, caller: Caller, term: string): seq<AuditLog> {
    Seqs.Filter(logs, (row: AuditLog) => SearchHit(caller, term, row))
  }

  datatype SearchPage = SearchPage(logs: seq<AuditLog>, total: nat)

  /** `searchAuditLogs`, newest first, paginated as `getAuditLogs` is. */
  function SearchAuditLogs(store: Store, term: string, caller: Caller, page: Option<int>, limit: Option<int>): (r: Result<SearchPage, string>)
    ensures var p := page.GetOr(DefaultPage);
      var l := limit.GetOr(DefaultLimit);
      && (r.Failure? <==> !WindowOk(p, l))
      && (r.Success? ==>
            && r.value.total == |SearchHits(store.logs, caller, term)|
            && r.value.logs == ListingWindow(SearchHits(store.logs, caller, term), Skip(p, l), l)
            && (forall i :: 0 <= i < |r.value.logs| ==>
                  r.value.logs[i] in store.logs && SearchHit(caller, term, r.value.logs[i])))
  {
    var p := page.GetOr(DefaultPage);
    var l := limit.GetOr(DefaultLimit);
    if !WindowOk(p, l) then Failure("skip must not be negative")
    else
      var hits := SearchHits(store.logs, caller, term);
      Success(SearchPage(ListingWindow(hits, Skip(p, l), l), |hits|))
  }

  /** Letter case of the term does not matter, and a row matches when the
      term occurs in any of the three searched columns. */
  lemma SearchIgnoresCase(caller: Caller, term: string, row: AuditLog)
    ensures SearchHit(caller, term, row) <==> SearchHit(caller, ToUpper(term), row)
  {
    LowerOfUpper(term);
  }

  lemma LowerOfUpper(s: string)
    ensures ToLower(ToUpper(s)) == ToLower(s)
  {
  }
}
