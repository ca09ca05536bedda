/** Saved schedules: named snapshots of a schedule (class ids, total
    credits, class count), kept per user in the `schedule_snapshots` table
    behind a REST interface.  The table is modelled in memory by
    `SnapshotTable`; each service operation issues one request against it
    and maps the reply the way the client does. */
module ScheduleSnapshotService {
  import opened Wrappers
  import opened Text

  /** The `schedule_data` column. */
  datatype ScheduleData = ScheduleData(classIds: seq<string>, totalCredits: real, classCount: int)

  /** A row of `schedule_snapshots`, as the service hands it back. */
  datatype SnapshotRow = SnapshotRow(id: string, userId: string, name: string, data: ScheduleData)

  /** A reply of the REST interface: status code, body text and the rows
      the body decodes to (`[]` for an empty or null body). */
  datatype Response = Response(status: int, text: string, rows: seq<SnapshotRow>)

  /** The exceptions the service raises. */
  datatype SnapshotFailure =
    | UserNotFound(email: string)
    | EmptyName
    | DuplicateName(name: string)
    | SaveFailed(text: string)
    | NoDataReturned
  {
    function Message(): string {
      match this
      case UserNotFound(email) => "User not found for email: " + email
      case EmptyName => "Snapshot name cannot be empty"
      case DuplicateName(name) => "A snapshot named '" + name + "' already exists"
      case SaveFailed(text) => "Failed to save snapshot: " + text
      case NoDataReturned => "No data returned from insert"
    }
  }

  // ---------------------------------------------------------------------------
  // Reading replies
  // ---------------------------------------------------------------------------

  /** A conflict reply: 409, or 400 whose body mentions "duplicate" in any case. */
  predicate IsDuplicateReply(resp: Response) {
    resp.status == 409 || (resp.status == 400 && Contains(Lower(resp.text), "duplicate"))
  }

  /** How `save_snapshot` reads the insert reply. */
  function SaveReply(name: string, resp: Response): Result<SnapshotRow, SnapshotFailure> {
    if IsDuplicateReply(resp) then Err(DuplicateName(name))
    else if resp.status != 200 && resp.status != 201 then Err(SaveFailed(resp.text))
    else if resp.rows == [] then Err(NoDataReturned)
    else Ok(resp.rows[0])
  }

  /** How `list_snapshots` reads the select reply. */
  function ListReply(resp: Response): seq<SnapshotRow> {
    if resp.status != 200 then [] else resp.rows
  }

  /** How `get_snapshot` and `get_snapshot_by_name` read the select reply. */
  function GetReply(resp: Response): Option<SnapshotRow> {
    if resp.status != 200 || resp.rows == [] then None else Some(resp.rows[0])
  }

  /** How `delete_snapshot` reads the delete reply: no row count is looked at. */
  function DeleteReply(resp: Response): bool {
    resp.status == 200 || resp.status == 204
  }

  /** How `update_snapshot` reads the patch reply; `name` is the new name,
      if one was given, for the conflict message. */
  function UpdateReply(name: Option<string>, resp: Response): Result<Option<SnapshotRow>, SnapshotFailure> {
    if IsDuplicateReply(resp) then Err(DuplicateName(name.GetOr("None")))
    else if resp.status != 200 && resp.status != 204 then Ok(None)
    else if resp.rows == [] then Ok(None)
    else Ok(Some(resp.rows[0]))
  }

  /** The save reply: a conflict is a duplicate name whatever else the reply
      says; otherwise success needs a 200/201 status and a row, and gives
      the first row. */
  lemma SaveReplySpec(name: string, resp: Response)
    ensures SaveReply(name, resp) == Err(DuplicateName(name)) <==> IsDuplicateReply(resp)
    ensures SaveReply(name, resp).Ok? <==>
      !IsDuplicateReply(resp) && (resp.status == 200 || resp.status == 201) && resp.rows != []
    ensures SaveReply(name, resp).Ok? ==> SaveReply(name, resp).value == resp.rows[0]
    ensures SaveReply(name, resp) == Err(NoDataReturned) <==>
      !IsDuplicateReply(resp) && (resp.status == 200 || resp.status == 201) && resp.rows == []
  {
  }

  /** The conflict replies of the client's tests, and the case-insensitive
      "duplicate" test on a 400. */
  lemma DuplicateReplyExamples()
    ensures SaveReply("Existing Name", Response(409, "duplicate key", [])) == Err(DuplicateName("Existing Name"))
    ensures SaveReply("A", Response(400, "Duplicate key", [])) == Err(DuplicateName("A"))
  {
    assert Lower("Duplicate key")[..9] == "duplicate";
    assert OccursAt(Lower("Duplicate key"), "duplicate", 0);
  }

  /** A 400 without "duplicate" is a plain failure; a success needs a row. */
  lemma FailedReplyExamples(row: SnapshotRow)
    ensures SaveReply("A", Response(400, "bad request", [])) == Err(SaveFailed("bad request"))
    ensures SaveReply("A", Response(201, "", [])) == Err(NoDataReturned)
    ensures SaveReply("A", Response(201, "", [row])) == Ok(row)
  {
    assert !Contains(Lower("bad request"), "duplicate") by {
      var t := Lower("bad request");
      assert |t| == 11;
      forall k | 0 <= k <= 2 ensures !OccursAt(t, "duplicate", k) {
        assert t[k] != 'd' || t[k + 1] != 'u';
      }
    }
  }

  /** A list is empty unless the select succeeded, and then it is the
      reply's rows in reply order. */
  lemma ListReplySpec(resp: Response)
    ensures resp.status != 200 ==> ListReply(resp) == []
    ensures resp.status == 200 ==>
      |ListReply(resp)| == |resp.rows| && forall i :: 0 <= i < |resp.rows| ==> ListReply(resp)[i] == resp.rows[i]
  {
  }

  /** A lookup finds something exactly when the select succeeded with a row. */
  lemma GetReplySpec(resp: Response)
    ensures GetReply(resp).Some? <==> resp.status == 200 && resp.rows != []
    ensures GetReply(resp).Some? ==> GetReply(resp).value in resp.rows
  {
  }

  /** An update conflict is a duplicate name; other failures give nothing. */
  lemma UpdateReplySpec(name: Option<string>, resp: Response)
    ensures UpdateReply(name, resp).Err? <==> IsDuplicateReply(resp)
    ensures UpdateReply(name, resp).Ok? && UpdateReply(name, resp).value.Some? <==>
      !IsDuplicateReply(resp) && (resp.status == 200 || resp.status == 204) && resp.rows != []
  {
  }

  // ---------------------------------------------------------------------------
  // Building requests
  // ---------------------------------------------------------------------------

  /** The `schedule_data` of a new snapshot. */
  function NewScheduleData(classIds: seq<string>, totalCredits: real): (d: ScheduleData)
    ensures d.classIds == classIds && d.totalCredits == totalCredits && d.classCount == |classIds|
  {
    ScheduleData(classIds, totalCredits, |classIds|)
  }

  /** The merged `schedule_data` of an update: a field left out keeps its
      value, and the count follows the class ids only when they are given. */
  function MergedScheduleData(existing: ScheduleData, classIds: Option<seq<string>>, totalCredits: Option<real>): ScheduleData {
    ScheduleData(
      classIds.GetOr(existing.classIds),
      totalCredits.GetOr(existing.totalCredits),
      if classIds.Some? then |classIds.value| else existing.classCount)
  }

  lemma MergedScheduleDataSpec(existing: ScheduleData, classIds: Option<seq<string>>, totalCredits: Option<real>)
    ensures var d := MergedScheduleData(existing, classIds, totalCredits);
      && (classIds.Some? ==> d.classIds == classIds.value && d.classCount == |classIds.value|)
      && (classIds.None? ==> d.classIds == existing.classIds && d.classCount == existing.classCount)
      && (totalCredits.Some? ==> d.totalCredits == totalCredits.value)
      && (totalCredits.None? ==> d.totalCredits == existing.totalCredits)
  {
  }

  /** The fields a PATCH sets. */
  datatype Patch = Patch(name: Option<string>, data: Option<ScheduleData>)

  /** The update payload, or the `ValueError` for a blank new name. */
  function UpdatePayload(existing: SnapshotRow, name: Option<string>, classIds: Option<seq<string>>,
                         totalCredits: Option<real>): Result<Patch, SnapshotFailure> {
    if name.Some? && Strip(name.value) == "" then Err(EmptyName)
    else Ok(Patch(
      if name.Some? then Some(Strip(name.value)) else None,
      if classIds.Some? || totalCredits.Some? then Some(MergedScheduleData(existing.data, classIds, totalCredits)) else None))
  }

  /** A blank name is refused; otherwise the payload is empty exactly when
      no field was given. */
  lemma UpdatePayloadSpec(existing: SnapshotRow, name: Option<string>, classIds: Option<seq<string>>, totalCredits: Option<real>)
    ensures UpdatePayload(existing, name, classIds, totalCredits).Err? <==>
      name.Some? && forall i :: 0 <= i < |name.value| ==> IsSpace(name.value[i])
    ensures UpdatePayload(existing, name, classIds, totalCredits).Ok? ==>
      var p := UpdatePayload(existing, name, classIds, totalCredits).value;
      (p == Patch(None, None) <==> name.None? && classIds.None? && totalCredits.None?)
  {
    if name.Some? {
      StripBlank(name.value);
    }
  }

  function ApplyPatch(r: SnapshotRow, p: Patch): SnapshotRow {
    SnapshotRow(r.id, r.userId, p.name.GetOr(r.name), p.data.GetOr(r.data))
  }

  // ---------------------------------------------------------------------------
  // The table
  // ---------------------------------------------------------------------------

  /** The user id `app_users` holds for an email; a blank id counts as none. */
  function UserIdOf(users: map<string, string>, email: string): Option<string> {
    if email in users && users[email] != "" then Some(users[email]) else None
  }

  /** The rows of one user, newest first. */
  function NewestFirst(rows: seq<SnapshotRow>, userId: string): seq<SnapshotRow> {
    if rows == [] then []
    else
      var last := rows[|rows| - 1];
      (if last.userId == userId then [last] else []) + NewestFirst(rows[..|rows| - 1], userId)
  }

  /** The rows with this id owned by this user. */
  function WithId(rows: seq<SnapshotRow>, id: string, userId: string): seq<SnapshotRow> {
    Keep(rows, (r: SnapshotRow) => r.id == id && r.userId == userId)
  }

  /** The rows a delete filtered on id and owner leaves. */
  function Remaining(rows: seq<SnapshotRow>, id: string, userId: string): seq<SnapshotRow> {
    Keep(rows, (r: SnapshotRow) => !(r.id == id && r.userId == userId))
  }

  /** The rows of this user with exactly this name. */
  function WithName(rows: seq<SnapshotRow>, userId: string, name: string): seq<SnapshotRow> {
    Keep(rows, (r: SnapshotRow) => r.userId == userId && r.name == name)
  }

  /** A new row breaks the table's keys: its id is taken, or its owner
      already has a snapshot of that name. */
  predicate InsertClashes(rows: seq<SnapshotRow>, row: SnapshotRow) {
    exists i :: 0 <= i < |rows| && (rows[i].id == row.id || (rows[i].userId == row.userId && rows[i].name == row.name))
  }

  /** Renaming snapshot `id` of `userId` to `name` would repeat a name of
      another snapshot of the same user. */
  predicate RenameClashes(rows: seq<SnapshotRow>, id: string, userId: string, name: string) {
    exists i :: 0 <= i < |rows| && rows[i].userId == userId && rows[i].name == name && rows[i].id != id
  }

  function PatchRows(rows: seq<SnapshotRow>, id: string, userId: string, p: Patch): (r: seq<SnapshotRow>)
    ensures |r| == |rows|
  {
    seq(|rows|, i requires 0 <= i < |rows| =>
      if rows[i].id == id && rows[i].userId == userId then ApplyPatch(rows[i], p) else rows[i])
  }

  /** Ids are unique, and so is each user's snapshot name. */
  ghost predicate TableKeys(rows: seq<SnapshotRow>) {
    && (forall i, j :: 0 <= i < j < |rows| ==> rows[i].id != rows[j].id)
    && (forall i, j :: 0 <= i < j < |rows| && rows[i].userId == rows[j].userId ==> rows[i].name != rows[j].name)
  }

  /** The remote database: `app_users` by email and `schedule_snapshots`
      in creation order. */
  class SnapshotTable {
    var users: map<string, string>
    var rows: seq<SnapshotRow>

    ghost predicate Valid()
      reads this
    {
      TableKeys(rows)
    }

    constructor (users: map<string, string>)
      ensures Valid() && this.users == users && rows == []
    {
      this.users := users;
      rows := [];
    }

    /** POST with `return=representation`: the new row, or 409 when a key clashes. */
    method Insert(row: SnapshotRow) returns (resp: Response)
      requires Valid()
      modifies this
      ensures Valid() && users == old(users)
      ensures InsertClashes(old(rows), row) ==>
        resp == Response(409, "duplicate key value violates unique constraint", []) && rows == old(rows)
      ensures !InsertClashes(old(rows), row) ==> resp == Response(201, "", [row]) && rows == old(rows) + [row]
    {
      if InsertClashes(rows, row) {
        return Response(409, "duplicate key value violates unique constraint", []);
      }
      rows := rows + [row];
      resp := Response(201, "", [row]);
    }

    /** DELETE filtered on id and owner: 204 whether or not a row matched. */
    method DeleteWhere(id: string, userId: string) returns (resp: Response)
      requires Valid()
      modifies this
      ensures Valid() && users == old(users)
      ensures resp == Response(204, "", [])
      ensures rows == Remaining(old(rows), id, userId)
    {
      var kept := Keep(rows, (r: SnapshotRow) => !(r.id == id && r.userId == userId));
      var _ := KeepOrdered(rows, (r: SnapshotRow) => !(r.id == id && r.userId == userId));
      KeepPreservesKeys(rows, (r: SnapshotRow) => !(r.id == id && r.userId == userId));
      rows := kept;
      resp := Response(204, "", []);
    }

    /** PATCH filtered on id and owner with `return=representation`: 409 when
        the new name repeats one of the owner's other snapshots, otherwise the
        patched rows. */
    method PatchWhere(id: string, userId: string, p: Patch) returns (resp: Response)
      requires Valid()
      modifies this
      ensures Valid() && users == old(users)
      ensures p.name.Some? && RenameClashes(old(rows), id, userId, p.name.value) ==>
        resp == Response(409, "duplicate key value violates unique constraint", []) && rows == old(rows)
      ensures !(p.name.Some? && RenameClashes(old(rows), id, userId, p.name.value)) ==>
        rows == PatchRows(old(rows), id, userId, p) && resp == Response(200, "", WithId(rows, id, userId))
    {
      if p.name.Some? && RenameClashes(rows, id, userId, p.name.value) {
        return Response(409, "duplicate key value violates unique constraint", []);
      }
      PatchPreservesKeys(rows, id, userId, p);
      rows := PatchRows(rows, id, userId, p);
      resp := Response(200, "", WithId(rows, id, userId));
    }
  }

  lemma KeepPreservesKeys(rows: seq<SnapshotRow>, keep: SnapshotRow -> bool)
    requires TableKeys(rows)
    ensures TableKeys(Keep(rows, keep))
  {
    var idx := KeepOrdered(rows, keep);
    var kept := Keep(rows, keep);
    forall i, j | 0 <= i < j < |kept| ensures kept[i].id != kept[j].id {
      assert idx[i] < idx[j];
    }
    forall i, j | 0 <= i < j < |kept| && kept[i].userId == kept[j].userId ensures kept[i].name != kept[j].name {
      assert idx[i] < idx[j];
    }
  }

  lemma PatchPreservesKeys(rows: seq<SnapshotRow>, id: string, userId: string, p: Patch)
    requires TableKeys(rows)
    requires !(p.name.Some? && RenameClashes(rows, id, userId, p.name.value))
    ensures TableKeys(PatchRows(rows, id, userId, p))
  {
    var r := PatchRows(rows, id, userId, p);
    forall i, j | 0 <= i < j < |r| && r[i].userId == r[j].userId ensures r[i].name != r[j].name {
      assert rows[i].id != rows[j].id;
    }
  }

  /** Each row of the user appears, newest first, and nothing else. */
  lemma {:induction false} NewestFirstSpec(rows: seq<SnapshotRow>, userId: string)
    ensures forall r :: r in NewestFirst(rows, userId) <==> r in rows && r.userId == userId
    ensures |NewestFirst(rows, userId)| <= |rows|
  {
    if rows != [] {
      NewestFirstSpec(rows[..|rows| - 1], userId);
      assert rows == rows[..|rows| - 1] + [rows[|rows| - 1]];
    }
  }

  /** Ids being unique, a lookup by id matches at most one row. */
  lemma WithIdAtMostOne(rows: seq<SnapshotRow>, id: string, userId: string)
    requires TableKeys(rows)
    ensures |WithId(rows, id, userId)| <= 1
  {
    var keep := (r: SnapshotRow) => r.id == id && r.userId == userId;
    var idx := KeepOrdered(rows, keep);
    var found := WithId(rows, id, userId);
    if |found| > 1 {
      assert found[0] in found && found[1] in found;
      KeepMembers(rows, keep, found[0]);
      KeepMembers(rows, keep, found[1]);
    }
  }

  // ---------------------------------------------------------------------------
  // The service
  // ---------------------------------------------------------------------------

  /** `save_snapshot`; `freshId` is the id the database assigns. */
  method SaveSnapshot(db: SnapshotTable, email: string, name: string, classIds: seq<string>,
                      totalCredits: real, freshId: string) returns (r: Result<SnapshotRow, SnapshotFailure>)
    requires db.Valid()
    modifies db
    ensures db.Valid() && db.users == old(db.users)
    ensures UserIdOf(old(db.users), email).None? ==> r == Err(UserNotFound(email)) && db.rows == old(db.rows)
    ensures UserIdOf(old(db.users), email).Some? && Strip(name) == "" ==> r == Err(EmptyName) && db.rows == old(db.rows)
    ensures UserIdOf(old(db.users), email).Some? && Strip(name) != "" ==>
      var row := SnapshotRow(freshId, UserIdOf(old(db.users), email).value, Strip(name), NewScheduleData(classIds, totalCredits));
      if InsertClashes(old(db.rows), row) then r == Err(DuplicateName(Strip(name))) && db.rows == old(db.rows)
      else r == Ok(row) && db.rows == old(db.rows) + [row]
  {
    var userId := UserIdOf(db.users, email);
    if userId.None? {
      return Err(UserNotFound(email));
    }
    var trimmed := Strip(name);
    if trimmed == "" {
      return Err(EmptyName);
    }
    var row := SnapshotRow(freshId, userId.value, trimmed, NewScheduleData(classIds, totalCredits));
    var resp := db.Insert(row);
    r := SaveReply(trimmed, resp);
  }

  /** `list_snapshots` */
  method ListSnapshots(db: SnapshotTable, email: string) returns (list: seq<SnapshotRow>)
    ensures UserIdOf(db.users, email).None? ==> list == []
    ensures UserIdOf(db.users, email).Some? ==> list == NewestFirst(db.rows, UserIdOf(db.users, email).value)
  {
    var userId := UserIdOf(db.users, email);
    if userId.None? {
      return [];
    }
    var resp := Response(200, "", NewestFirst(db.rows, userId.value));
    list := ListReply(resp);
  }

  /** `get_snapshot`: the id and the owner are filtered in the same query. */
  method GetSnapshot(db: SnapshotTable, email: string, id: string) returns (found: Option<SnapshotRow>)
    ensures UserIdOf(db.users, email).None? ==> found == None
    ensures UserIdOf(db.users, email).Some? ==> found == FirstRow(WithId(db.rows, id, UserIdOf(db.users, email).value))
  {
    var userId := UserIdOf(db.users, email);
    if userId.None? {
      return None;
    }
    var resp := Response(200, "", WithId(db.rows, id, userId.value));
    found := GetReply(resp);
  }

  /** `get_snapshot_by_name`: exact name, owner in the same query. */
  method GetSnapshotByName(db: SnapshotTable, email: string, name: string) returns (found: Option<SnapshotRow>)
    ensures UserIdOf(db.users, email).None? ==> found == None
    ensures UserIdOf(db.users, email).Some? ==> found == FirstRow(WithName(db.rows, UserIdOf(db.users, email).value, name))
  {
    var userId := UserIdOf(db.users, email);
    if userId.None? {
      return None;
    }
    var resp := Response(200, "", WithName(db.rows, userId.value, name));
    found := GetReply(resp);
  }

  function FirstRow(rows: seq<SnapshotRow>): Option<SnapshotRow> {
    if rows == [] then None else Some(rows[0])
  }

  /** A found row is the caller's and carries the asked-for key. */
  lemma FoundRowOwned(rows: seq<SnapshotRow>, id: string, userId: string, name: string)
    ensures FirstRow(WithId(rows, id, userId)).Some? ==>
      var r := FirstRow(WithId(rows, id, userId)).value; r in rows && r.id == id && r.userId == userId
    ensures FirstRow(WithName(rows, userId, name)).Some? ==>
      var r := FirstRow(WithName(rows, userId, name)).value; r in rows && r.name == name && r.userId == userId
    ensures FirstRow(WithId(rows, id, userId)).None? <==> forall i :: 0 <= i < |rows| ==> !(rows[i].id == id && rows[i].userId == userId)
  {
    var byId := (r: SnapshotRow) => r.id == id && r.userId == userId;
    var byName := (r: SnapshotRow) => r.userId == userId && r.name == name;
    if WithId(rows, id, userId) != [] {
      KeepMembers(rows, byId, WithId(rows, id, userId)[0]);
    }
    if WithName(rows, userId, name) != [] {
      KeepMembers(rows, byName, WithName(rows, userId, name)[0]);
    }
    forall i | 0 <= i < |rows| && byId(rows[i]) ensures WithId(rows, id, userId) != [] {
      KeepMembers(rows, byId, rows[i]);
    }
  }

  /** `delete_snapshot`: true for a known user whether or not the snapshot
      existed; only that user's row with that id goes. */
  method DeleteSnapshot(db: SnapshotTable, email: string, id: string) returns (deleted: bool)
    requires db.Valid()
    modifies db
    ensures db.Valid() && db.users == old(db.users)
    ensures deleted <==> UserIdOf(old(db.users), email).Some?
    ensures UserIdOf(old(db.users), email).None? ==> db.rows == old(db.rows)
    ensures UserIdOf(old(db.users), email).Some? ==>
      db.rows == Remaining(old(db.rows), id, UserIdOf(old(db.users), email).value)
  {
    var userId := UserIdOf(db.users, email);
    if userId.None? {
      return false;
    }
    var resp := db.DeleteWhere(id, userId.value);
    deleted := DeleteReply(resp);
  }

  /** `update_snapshot` */
  method UpdateSnapshot(db: SnapshotTable, email: string, id: string, name: Option<string>,
                        classIds: Option<seq<string>>, totalCredits: Option<real>)
    returns (r: Result<Option<SnapshotRow>, SnapshotFailure>)
    requires db.Valid()
    modifies db
    ensures db.Valid() && db.users == old(db.users)
    ensures UpdateOutcome(old(db.users), old(db.rows), email, id, name, classIds, totalCredits) == (r, db.rows)
  {
    var userId := UserIdOf(db.users, email);
    if userId.None? {
      return Ok(None);
    }
    var existing := GetSnapshot(db, email, id);
    if existing.None? {
      return Ok(None);
    }
    var payload := UpdatePayload(existing.value, name, classIds, totalCredits);
    if payload.Err? {
      return Err(payload.error);
    }
    if payload.value == Patch(None, None) {
      return Ok(existing);
    }
    var resp := db.PatchWhere(id, userId.value, payload.value);
    r := UpdateReply(payload.value.name, resp);
  }

  /** What `update_snapshot` returns and leaves in the table. */
  function UpdateOutcome(users: map<string, string>, rows: seq<SnapshotRow>, email: string, id: string,
                         name: Option<string>, classIds: Option<seq<string>>, totalCredits: Option<real>)
    : (Result<Option<SnapshotRow>, SnapshotFailure>, seq<SnapshotRow>)
  {
    var userId := UserIdOf(users, email);
    if userId.None? then (Ok(None), rows)
    else
      var existing := FirstRow(WithId(rows, id, userId.value));
      if existing.None? then (Ok(None), rows)
      else
        var payload := UpdatePayload(existing.value, name, classIds, totalCredits);
        if payload.Err? then (Err(payload.error), rows)
        else if payload.value == Patch(None, None) then (Ok(existing), rows)
        else
          var p := payload.value;
          if p.name.Some? && RenameClashes(rows, id, userId.value, p.name.value) then
            (Err(DuplicateName(p.name.value)), rows)
          else
            var patched := PatchRows(rows, id, userId.value, p);
            (Ok(FirstRow(WithId(patched, id, userId.value))), patched)
  }

  /** Patching the caller's found row keeps it findable, still the caller's,
      and touches no other row. */
  lemma PatchedRowSpec(rows: seq<SnapshotRow>, id: string, uid: string, p: Patch)
    requires FirstRow(WithId(rows, id, uid)).Some?
    ensures var patched := PatchRows(rows, id, uid, p);
      && FirstRow(WithId(patched, id, uid)).Some?
      && FirstRow(WithId(patched, id, uid)).value.id == id
      && FirstRow(WithId(patched, id, uid)).value.userId == uid
      && FirstRow(WithId(patched, id, uid)).value in patched
      && (forall k :: 0 <= k < |rows| ==> patched[k] == rows[k] || (rows[k].id == id && rows[k].userId == uid))
  {
    FoundRowOwned(rows, id, uid, "");
    var patched := PatchRows(rows, id, uid, p);
    var e := FirstRow(WithId(rows, id, uid)).value;
    var k :| 0 <= k < |rows| && rows[k] == e;
    assert patched[k] == ApplyPatch(e, p);
    FoundRowOwned(patched, id, uid, "");
  }

  /** An update of a missing snapshot, a blank name, a clashing name and an
      empty update leave the table alone. */
  lemma UpdateLeavesTable(users: map<string, string>, rows: seq<SnapshotRow>, email: string, id: string,
                          name: Option<string>, classIds: Option<seq<string>>, totalCredits: Option<real>)
    ensures var (r, rows') := UpdateOutcome(users, rows, email, id, name, classIds, totalCredits);
      && (r.Err? || r.value.None? ==> rows' == rows)
      && (name.None? && classIds.None? && totalCredits.None? ==> rows' == rows)
  {
    var userId := UserIdOf(users, email);
    if userId.Some? {
      var existing := FirstRow(WithId(rows, id, userId.value));
      if existing.Some? {
        UpdatePayloadSpec(existing.value, name, classIds, totalCredits);
        var payload := UpdatePayload(existing.value, name, classIds, totalCredits);
        if payload.Ok? && payload.value != Patch(None, None) {
          PatchedRowSpec(rows, id, userId.value, payload.value);
        }
      }
    }
  }

  /** An update that returns a row patched exactly the caller's row and
      returns it from the new table. */
  lemma UpdatedRowSpec(users: map<string, string>, rows: seq<SnapshotRow>, email: string, id: string,
                       name: Option<string>, classIds: Option<seq<string>>, totalCredits: Option<real>)
    ensures var (r, rows') := UpdateOutcome(users, rows, email, id, name, classIds, totalCredits);
      r.Ok? && r.value.Some? ==>
        && UserIdOf(users, email).Some?
        && r.value.value.id == id && r.value.value.userId == UserIdOf(users, email).value
        && r.value.value in rows'
        && (forall k :: 0 <= k < |rows| ==> rows'[k] == rows[k] || (rows[k].id == id && rows[k].userId == r.value.value.userId))
  {
    var userId := UserIdOf(users, email);
    if userId.Some? {
      var uid := userId.value;
      var existing := FirstRow(WithId(rows, id, uid));
      FoundRowOwned(rows, id, uid, "");
      if existing.Some? {
        var payload := UpdatePayload(existing.value, name, classIds, totalCredits);
        if payload.Ok? && payload.value != Patch(None, None) {
          var p := payload.value;
          if !(p.name.Some? && RenameClashes(rows, id, uid, p.name.value)) {
            var patched := PatchRows(rows, id, uid, p);
            PatchedRowSpec(rows, id, uid, p);
            assert UpdateOutcome(users, rows, email, id, name, classIds, totalCredits)
              == (Ok(FirstRow(WithId(patched, id, uid))), patched);
          }
        }
      }
    }
  }

  /** An update of a missing snapshot, a blank name, a clashing name and an
      empty update leave the table alone; any other update patches exactly
      the caller's row and returns it with the omitted fields kept. */
  lemma UpdateOutcomeSpec(users: map<string, string>, rows: seq<SnapshotRow>, email: string, id: string,
                          name: Option<string>, classIds: Option<seq<string>>, totalCredits: Option<real>)
    ensures var (r, rows') := UpdateOutcome(users, rows, email, id, name, classIds, totalCredits);
      && (r.Err? || r.value.None? ==> rows' == rows)
      && (name.None? && classIds.None? && totalCredits.None? ==> rows' == rows)
      && (r.Ok? && r.value.Some? ==>
            && UserIdOf(users, email).Some?
            && r.value.value.id == id && r.value.value.userId == UserIdOf(users, email).value
            && r.value.value in rows'
            && (forall k :: 0 <= k < |rows| ==> rows'[k] == rows[k] || (rows[k].id == id && rows[k].userId == r.value.value.userId)))
  {
    UpdateLeavesTable(users, rows, email, id, name, classIds, totalCredits);
    UpdatedRowSpec(users, rows, email, id, name, classIds, totalCredits);
  }
}
