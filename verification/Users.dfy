/** The users table and the service in front of it, which checks uniqueness before it saves. */
module Users {
  import opened Prelude

  /** A column value in a request: left out, null, or text. */
  datatype Value = Absent | Null | Text(text: JsString)

  datatype Dto = Dto(username: Value, avatar: Value, bio: Value, createdAtBlock: Option<nat>)

  datatype Row = Row(id: nat, accountId: JsString, username: Option<JsString>, avatar: Option<JsString>,
                     bio: Option<JsString>, createdAtBlock: Option<nat>)

  /** The table; nextId stands for the generator of fresh ids. */
  datatype Db = Db(rows: seq<Row>, nextId: nat)

  const EMPTY := Db([], 0)

  datatype ServiceError = Conflict | NotFound

  /** A query for one row: the first match. */
  function Find(rows: seq<Row>, p: Row -> bool): (r: Option<nat>)
    ensures r.Some? ==> r.value < |rows| && p(rows[r.value]) && forall i :: 0 <= i < r.value ==> !p(rows[i])
    ensures r.None? ==> forall i :: 0 <= i < |rows| ==> !p(rows[i])
  {
    if rows == [] then None
    else if p(rows[0]) then Some(0)
    else
      var rest := Find(rows[1..], p);
      if rest.Some? then Some(rest.value + 1) else None
  }

  function FindId(rows: seq<Row>, id: nat): (r: Option<nat>)
    ensures r.Some? ==> r.value < |rows| && rows[r.value].id == id
    ensures r.None? ==> forall i :: 0 <= i < |rows| ==> rows[i].id != id
  {
    Find(rows, (row: Row) => row.id == id)
  }

  function FindAccount(rows: seq<Row>, accountId: JsString): (r: Option<nat>)
    ensures r.Some? ==> r.value < |rows| && rows[r.value].accountId == accountId
    ensures r.None? ==> forall i :: 0 <= i < |rows| ==> rows[i].accountId != accountId
  {
    Find(rows, (row: Row) => row.accountId == accountId)
  }

  function FindUsername(rows: seq<Row>, username: JsString): (r: Option<nat>)
    ensures r.Some? ==> r.value < |rows| && rows[r.value].username == Some(username)
    ensures r.None? ==> forall i :: 0 <= i < |rows| ==> rows[i].username != Some(username)
  {
    Find(rows, (row: Row) => row.username == Some(username))
  }

  // ---------------------------------------------------------------- operations as functions

  /** What a save stores: a field left out keeps its column. */
  function Saved(value: Value, column: Option<JsString>): Option<JsString> {
    match value
    case Absent => column
    case Null => None
    case Text(t) => Some(t)
  }

  function Assign(row: Row, dto: Dto): Row {
    row.(username := Saved(dto.username, row.username), avatar := Saved(dto.avatar, row.avatar),
    bio := Saved(dto.bio, row.bio),
    createdAtBlock := if dto.createdAtBlock.Some? then dto.createdAtBlock else row.createdAtBlock)
  }

  predicate Truthy(value: Value) { value.Text? && value.text != [] }

  predicate UsernameStored(db: Db, value: Value) {
    Truthy(value) && FindUsername(db.rows, value.text).Some?
  }

  function CreateRow(db: Db, accountId: JsString, dto: Dto): Result<Db, ServiceError> {
    if FindAccount(db.rows, accountId).Some? || UsernameStored(db, dto.username) then Err(Conflict)
    else Ok(Db(db.rows + [Assign(Row(db.nextId, accountId, None, None, None, None), dto)], db.nextId + 1))
  }

  function UpdateRowAt(db: Db, i: nat, dto: Dto): Result<Db, ServiceError>
    requires i < |db.rows|
  {
    var row := db.rows[i];
    if UsernameStored(db, dto.username) && row.username != Some(dto.username.text) then Err(Conflict)
    else Ok(db.(rows := db.rows[i := Assign(row, dto)]))
  }

  function UpdateRow(db: Db, id: nat, dto: Dto): Result<Db, ServiceError> {
    var i := FindId(db.rows, id);
    if i.None? then Err(NotFound) else UpdateRowAt(db, i.value, dto)
  }

  function UpdateRowByAccount(db: Db, accountId: JsString, dto: Dto): Result<Db, ServiceError> {
    var i := FindAccount(db.rows, accountId);
    if i.None? then Err(NotFound) else UpdateRow(db, db.rows[i.value].id, dto)
  }

  function RemoveRow(db: Db, id: nat): Result<Db, ServiceError> {
    var i := FindId(db.rows, id);
    if i.None? then Err(NotFound) else Ok(db.(rows := db.rows[..i.value] + db.rows[i.value + 1..]))
  }

  function After(db: Db, r: Result<Db, ServiceError>): Db {
    if r.Ok? then r.value else db
  }

  datatype Operation =
    | CreateOp(accountId: JsString, dto: Dto)
    | UpdateOp(id: nat, dto: Dto)
    | UpdateByAccountOp(accountId: JsString, dto: Dto)
    | RemoveOp(id: nat)

  function Perform(db: Db, op: Operation): Result<Db, ServiceError> {
    match op
    case CreateOp(accountId, dto) => CreateRow(db, accountId, dto)
    case UpdateOp(id, dto) => UpdateRow(db, id, dto)
    case UpdateByAccountOp(accountId, dto) => UpdateRowByAccount(db, accountId, dto)
    case RemoveOp(id) => RemoveRow(db, id)
  }

  // ---------------------------------------------------------------- the service

  class UsersService {
    var rows: seq<Row>
    var nextId: nat

    ghost function Table(): Db
      reads this
    {
      Db(rows, nextId)
    }

    constructor ()
      ensures Table() == EMPTY && rows == []
    {
      rows, nextId := [], 0;
    }

    method FindByAccountId(accountId: JsString) returns (row: Option<Row>)
      ensures row.None? <==> forall i :: 0 <= i < |rows| ==> rows[i].accountId != accountId
      ensures row.Some? ==> row.value in rows && row.value.accountId == accountId
      ensures row == var i := FindAccount(rows, accountId); if i.Some? then Some(rows[i.value]) else None
    {
      var i := FindAccount(rows, accountId);
      row := if i.Some? then Some(rows[i.value]) else None;
    }

    method Create(accountId: JsString, dto: Dto) returns (r: Result<(), ServiceError>)
      modifies this
      ensures r.Ok? ==> CreateRow(old(Table()), accountId, dto) == Ok(Table())
      ensures r.Err? ==> CreateRow(old(Table()), accountId, dto) == Err(r.error) && Table() == old(Table())
    {
      var existingUser := FindAccount(rows, accountId);
      if existingUser.Some? {
        return Err(Conflict);
      }
      if Truthy(dto.username) {
        var existingUsername := FindUsername(rows, dto.username.text);
        if existingUsername.Some? {
          return Err(Conflict);
        }
      }
      rows := rows + [Assign(Row(nextId, accountId, None, None, None, None), dto)];
      nextId := nextId + 1;
      return Ok(());
    }

    method Update(id: nat, dto: Dto) returns (r: Result<(), ServiceError>)
      modifies this
      ensures r.Ok? ==> UpdateRow(old(Table()), id, dto) == Ok(Table())
      ensures r.Err? ==> UpdateRow(old(Table()), id, dto) == Err(r.error) && Table() == old(Table())
    {
      var i := FindId(rows, id);
      if i.None? {
        return Err(NotFound);
      }
      var user := rows[i.value];
      if Truthy(dto.username) && user.username != Some(dto.username.text) {
        var existingUsername := FindUsername(rows, dto.username.text);
        if existingUsername.Some? {
          return Err(Conflict);
        }
      }
      rows := rows[i.value := Assign(user, dto)];
      return Ok(());
    }

    method UpdateByAccountId(accountId: JsString, dto: Dto) returns (r: Result<(), ServiceError>)
      modifies this
      ensures r.Ok? ==> UpdateRowByAccount(old(Table()), accountId, dto) == Ok(Table())
      ensures r.Err? ==> UpdateRowByAccount(old(Table()), accountId, dto) == Err(r.error) && Table() == old(Table())
    {
      var user := FindByAccountId(accountId);
      if user.None? {
        return Err(NotFound);
      }
      r := Update(user.value.id, dto);
    }

    method Remove(id: nat) returns (r: Result<(), ServiceError>)
      modifies this
      ensures r.Ok? ==> RemoveRow(old(Table()), id) == Ok(Table())
      ensures r.Err? ==> RemoveRow(old(Table()), id) == Err(r.error) && Table() == old(Table())
    {
      var i := FindId(rows, id);
      if i.None? {
        return Err(NotFound);
      }
      rows := rows[..i.value] + rows[i.value + 1..];
      return Ok(());
    }
  }

  // ---------------------------------------------------------------- what every operation keeps

  ghost predicate SameName(r: Row, s: Row) {
    r.username.Some? && r.username.value != [] && r.username == s.username
  }

  ghost predicate Distinct(r: Row, s: Row) {
    r.id != s.id && r.accountId != s.accountId && !SameName(r, s)
  }

  ghost predicate TableOk(db: Db) {
    && (forall i :: 0 <= i < |db.rows| ==> db.rows[i].id < db.nextId)
    && (forall i, j :: 0 <= i < |db.rows| && 0 <= j < |db.rows| && i != j ==> Distinct(db.rows[i], db.rows[j]))
  }

  function PerformAll(db: Db, ops: seq<Operation>): Db {
    if ops == [] then db
    else
      var before := PerformAll(db, ops[..|ops| - 1]);
      After(before, Perform(before, ops[|ops| - 1]))
  }

  lemma SameIdSameRow(db: Db, i: nat, j: nat)
    requires TableOk(db) && i < |db.rows| && j < |db.rows| && db.rows[i].id == db.rows[j].id
    ensures i == j
  {
  }

  lemma SameAccountSameRow(db: Db, i: nat, j: nat)
    requires TableOk(db) && i < |db.rows| && j < |db.rows| && db.rows[i].accountId == db.rows[j].accountId
    ensures i == j
  {
  }

  lemma CreateKeepsTable(db: Db, accountId: JsString, dto: Dto)
    requires TableOk(db)
    ensures TableOk(After(db, CreateRow(db, accountId, dto)))
  {
  }

  lemma UpdateKeepsTable(db: Db, i: nat, dto: Dto)
    requires TableOk(db) && i < |db.rows|
    ensures TableOk(After(db, UpdateRowAt(db, i, dto)))
  {
    var r := UpdateRowAt(db, i, dto);
    if r.Ok? {
      var row := r.value.rows[i];
      forall j | 0 <= j < |db.rows| && j != i
        ensures Distinct(row, db.rows[j]) && Distinct(db.rows[j], row)
      {
        assert Distinct(db.rows[i], db.rows[j]);
      }
    }
  }

  lemma RemoveKeepsTable(db: Db, id: nat)
    requires TableOk(db)
    ensures TableOk(After(db, RemoveRow(db, id)))
  {
    var i := FindId(db.rows, id);
    if i.Some? {
      var rows := RemoveRow(db, id).value.rows;
      assert forall j :: 0 <= j < |rows| ==> rows[j] == db.rows[if j < i.value then j else j + 1];
    }
  }

  lemma {:induction false} OperationsKeepTable(ops: seq<Operation>)
    ensures TableOk(PerformAll(EMPTY, ops))
  {
    if ops != [] {
      OperationsKeepTable(ops[..|ops| - 1]);
      var db := PerformAll(EMPTY, ops[..|ops| - 1]);
      PerformKeepsTable(db, ops[|ops| - 1]);
    }
  }

  lemma PerformKeepsTable(db: Db, op: Operation)
    requires TableOk(db)
    ensures TableOk(After(db, Perform(db, op)))
  {
    match op {
      case CreateOp(accountId, dto) => CreateKeepsTable(db, accountId, dto);
      case UpdateOp(id, dto) =>
        var i := FindId(db.rows, id);
        if i.Some? { UpdateKeepsTable(db, i.value, dto); }
      case UpdateByAccountOp(accountId, dto) =>
        var a := FindAccount(db.rows, accountId);
        if a.Some? {
          var i := FindId(db.rows, db.rows[a.value].id);
          if i.Some? { UpdateKeepsTable(db, i.value, dto); }
        }
      case RemoveOp(id) => RemoveKeepsTable(db, id);
    }
  }

  // ---------------------------------------------------------------- when a save is refused

  /** A row other than that of the id holds the name, which is given and not empty. */
  ghost predicate NameTakenByOther(db: Db, id: nat, name: Value) {
    && name.Text? && name.text != []
    && exists i :: 0 <= i < |db.rows| && db.rows[i].id != id && db.rows[i].username == Some(name.text)
  }

  /** A create is refused exactly for an account that has a row or a non-empty name in use. */
  lemma CreateRefusedIff(db: Db, accountId: JsString, dto: Dto)
    ensures CreateRow(db, accountId, dto) == Err(Conflict) <==>
            || (exists i :: 0 <= i < |db.rows| && db.rows[i].accountId == accountId)
            || (dto.username.Text? && dto.username.text != []
                && exists i :: 0 <= i < |db.rows| && db.rows[i].username == Some(dto.username.text))
    ensures CreateRow(db, accountId, dto) != Err(NotFound)
  {
  }

  /** A column after a save: kept when left out, cleared by null, replaced by text. */
  ghost predicate ColumnSaved(value: Value, before: Option<JsString>, after: Option<JsString>) {
    && (value.Absent? ==> after == before)
    && (value.Null? ==> after == None)
    && (value.Text? ==> after == Some(value.text))
  }

  ghost predicate RowSaved(dto: Dto, before: Row, after: Row) {
    && after.id == before.id && after.accountId == before.accountId
    && ColumnSaved(dto.username, before.username, after.username)
    && ColumnSaved(dto.avatar, before.avatar, after.avatar)
    && ColumnSaved(dto.bio, before.bio, after.bio)
    && after.createdAtBlock == (if dto.createdAtBlock.Some? then dto.createdAtBlock else before.createdAtBlock)
  }

  /** A create that is not refused adds one row with a fresh id and the given columns, others null. */
  lemma CreateExactly(db: Db, accountId: JsString, dto: Dto)
    requires TableOk(db) && CreateRow(db, accountId, dto).Ok?
    ensures var rows := CreateRow(db, accountId, dto).value.rows;
            && |rows| == |db.rows| + 1
            && rows[..|db.rows|] == db.rows
            && RowSaved(dto, Row(rows[|db.rows|].id, accountId, None, None, None, None), rows[|db.rows|])
            && forall i :: 0 <= i < |db.rows| ==> db.rows[i].id != rows[|db.rows|].id
  {
  }

  /** An update that is not refused saves the columns of the row with the id and touches no other. */
  lemma UpdateExactly(db: Db, i: nat, dto: Dto)
    requires TableOk(db) && i < |db.rows| && UpdateRow(db, db.rows[i].id, dto).Ok?
    ensures var db' := UpdateRow(db, db.rows[i].id, dto).value;
            && |db'.rows| == |db.rows| && db'.nextId == db.nextId
            && RowSaved(dto, db.rows[i], db'.rows[i])
            && forall j :: 0 <= j < |db.rows| && j != i ==> db'.rows[j] == db.rows[j]
  {
    SameIdSameRow(db, FindId(db.rows, db.rows[i].id).value, i);
  }

  /** The guard on the row's own name makes an update refuse exactly another row's name. */
  lemma UpdateRefusedIff(db: Db, id: nat, dto: Dto)
    requires TableOk(db)
    ensures UpdateRow(db, id, dto) == Err(NotFound) <==> forall i :: 0 <= i < |db.rows| ==> db.rows[i].id != id
    ensures UpdateRow(db, id, dto) == Err(Conflict) <==>
            (exists i :: 0 <= i < |db.rows| && db.rows[i].id == id) && NameTakenByOther(db, id, dto.username)
  {
    var i := FindId(db.rows, id);
    if i.Some? && Truthy(dto.username) {
      var j := FindUsername(db.rows, dto.username.text);
      if j.Some? && j.value != i.value {
        assert Distinct(db.rows[i.value], db.rows[j.value]);
      }
      forall k | 0 <= k < |db.rows| && db.rows[k].id != id && db.rows[k].username == Some(dto.username.text)
        ensures db.rows[i.value].username != Some(dto.username.text)
      {
        assert Distinct(db.rows[i.value], db.rows[k]);
      }
    }
  }

  /** A removal drops the row with the id and no other, and frees nothing else. */
  lemma RemoveExactly(db: Db, id: nat, row: Row)
    requires TableOk(db)
    ensures RemoveRow(db, id) == Err(NotFound) <==> forall i :: 0 <= i < |db.rows| ==> db.rows[i].id != id
    ensures RemoveRow(db, id).Ok? ==>
              (row in RemoveRow(db, id).value.rows <==> row in db.rows && row.id != id)
              && RemoveRow(db, id).value.nextId == db.nextId
  {
    var i := FindId(db.rows, id);
    if i.Some? {
      var k := i.value;
      var rows := RemoveRow(db, id).value.rows;
      assert rows == db.rows[..k] + db.rows[k + 1..];
      assert db.rows == db.rows[..k] + [db.rows[k]] + db.rows[k + 1..];
      assert forall j :: 0 <= j < |rows| ==> rows[j] == db.rows[if j < k then j else j + 1];
      assert forall j :: 0 <= j < |db.rows| && j != k ==> Distinct(db.rows[j], db.rows[k]);
    }
  }

  lemma UnknownAccountNotFound(db: Db, accountId: JsString, dto: Dto)
    requires TableOk(db)
    ensures UpdateRowByAccount(db, accountId, dto) == Err(NotFound) <==>
            forall i :: 0 <= i < |db.rows| ==> db.rows[i].accountId != accountId
  {
    var i := FindAccount(db.rows, accountId);
    if i.Some? {
      ByAccountIsById(db, i.value, dto);
    }
  }

  /** Updating by account changes the row of that account, as updating by its id does. */
  lemma ByAccountIsById(db: Db, i: nat, dto: Dto)
    requires TableOk(db) && i < |db.rows|
    ensures UpdateRowByAccount(db, db.rows[i].accountId, dto) == UpdateRow(db, db.rows[i].id, dto) == UpdateRowAt(db, i, dto)
  {
    SameAccountSameRow(db, FindAccount(db.rows, db.rows[i].accountId).value, i);
    SameIdSameRow(db, FindId(db.rows, db.rows[i].id).value, i);
  }
}
