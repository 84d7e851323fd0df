/** What delivering a log of pallet events does to the users table. */
module Projection {
  import opened Prelude
  import opened Text
  import opened UserProfile
  import opened PalletLog
  import opened Payload
  import opened BlockchainService
  import opened Users
  import opened EventProcessor

  /** The columns that follow the chain. As a change, None leaves a column alone. */
  datatype Columns = Columns(username: Option<JsString>, avatar: Option<JsString>, bio: Option<JsString>)

  const BLANK := Columns(None, None, None)

  /** The table by account, without ids and bookkeeping columns. */
  type Rows = map<JsString, Columns>

  function ColumnsOf(row: Row): Columns { Columns(row.username, row.avatar, row.bio) }

  function Accounts(db: Db): set<JsString> {
    set i | 0 <= i < |db.rows| :: db.rows[i].accountId
  }

  ghost function View(db: Db): Rows {
    map a | a in Accounts(db) :: ColumnsOf(db.rows[FindAccount(db.rows, a).value])
  }

  // ---------------------------------------------------------------- one event, on rows by account

  /** The text the API makes of bytes; none when nothing is left of them. */
  function Visible(b: Bytes): Option<JsString> {
    if DecodeText(b) == [] then None else Some(DecodeText(b))
  }

  function VisibleOption(b: Option<Bytes>): Option<JsString> {
    if b.Some? then Visible(b.value) else None
  }

  function VisiblePatch(p: Patch): Option<JsString> {
    if p.Some? then VisibleOption(p.value) else None
  }

  function ChangeOf(e: Event): Columns {
    match e
    case UsernameSet(_, u) => Columns(Visible(u), None, None)
    case ProfileUpdated(_, u, avatar, bio) => Columns(VisibleOption(u), VisiblePatch(avatar), VisiblePatch(bio))
    case StatsUpdated(_, _) => BLANK
  }

  function Merge(row: Columns, change: Columns): Columns {
    Columns(if change.username.Some? then change.username else row.username,
            if change.avatar.Some? then change.avatar else row.avatar,
            if change.bio.Some? then change.bio else row.bio)
  }

  /** Another account's row holds the name. */
  ghost predicate HeldByOther(v: Rows, a: JsString, name: JsString) {
    exists b :: b in v && b != a && v[b].username == Some(name)
  }

  ghost predicate Clashes(v: Rows, a: JsString, change: Columns) {
    change.username.Some? && HeldByOther(v, a, change.username.value)
  }

  ghost function Put(v: Rows, a: JsString, change: Columns): Rows {
    if Clashes(v, a, change) then v else v[a := Merge(if a in v then v[a] else BLANK, change)]
  }

  ghost function Apply(v: Rows, e: Event): Rows {
    if e.StatsUpdated? then v else Put(v, e.account, ChangeOf(e))
  }

  /** How a handler ends: stats events never get past their number fields. */
  ghost function ExpectedError(v: Rows, e: Event): Option<HandlerError> {
    if e.StatsUpdated? then Some(TypeError)
    else if Clashes(v, e.account, ChangeOf(e)) then Some(Service(Conflict))
    else None
  }

  ghost function Deliver(v: Rows, log: Log): Rows {
    if log == [] then v else Apply(Deliver(v, log[..|log| - 1]), log[|log| - 1].event)
  }

  lemma DeliverSnoc(v: Rows, log: Log, l: Logged)
    ensures Deliver(v, log + [l]) == Apply(Deliver(v, log), l.event)
  {
    assert (log + [l])[..|log|] == log;
  }

  // ---------------------------------------------------------------- the table refines the rows

  lemma ViewAt(db: Db, i: nat)
    requires TableOk(db) && i < |db.rows|
    ensures db.rows[i].accountId in View(db)
    ensures View(db)[db.rows[i].accountId] == ColumnsOf(db.rows[i])
  {
    SameAccountSameRow(db, FindAccount(db.rows, db.rows[i].accountId).value, i);
  }

  /** Rows that agree with the table row by row are its view. */
  lemma ViewIs(db: Db, v: Rows)
    requires TableOk(db)
    requires v.Keys == Accounts(db)
    requires forall i :: 0 <= i < |db.rows| ==> v[db.rows[i].accountId] == ColumnsOf(db.rows[i])
    ensures View(db) == v
  {
    forall a | a in v
      ensures a in View(db) && View(db)[a] == v[a]
    {
      var i := FindAccount(db.rows, a).value;
      assert v[db.rows[i].accountId] == ColumnsOf(db.rows[i]);
    }
  }

  /** The service finds the name of a row that is not the account's own exactly in a clash. */
  lemma ClashInTable(db: Db, a: JsString, change: Columns)
    requires TableOk(db)
    ensures Clashes(View(db), a, change) <==>
            change.username.Some? &&
            exists i :: 0 <= i < |db.rows| && db.rows[i].accountId != a && db.rows[i].username == change.username
  {
    var v := View(db);
    if change.username.Some? {
      forall i | 0 <= i < |db.rows| && db.rows[i].accountId != a && db.rows[i].username == change.username
        ensures HeldByOther(v, a, change.username.value)
      {
        ViewAt(db, i);
      }
      if b :| b in v && b != a && v[b].username == Some(change.username.value) {
        var i := FindAccount(db.rows, b).value;
        assert db.rows[i].accountId == b && db.rows[i].username == change.username;
      }
    }
  }

  function AsValue(text: Option<JsString>): Value {
    if text.Some? then Text(text.value) else Absent
  }

  function AsDto(change: Columns, block: Option<nat>): Dto {
    Dto(AsValue(change.username), AsValue(change.avatar), AsValue(change.bio), block)
  }

  lemma UpdateRefines(db: Db, i: nat, change: Columns, block: Option<nat>)
    requires TableOk(db) && i < |db.rows| && change.username != Some([])
    ensures var a, r := db.rows[i].accountId, UpdateRow(db, db.rows[i].id, AsDto(change, block));
            && TableOk(After(db, r))
            && View(After(db, r)) == Put(View(db), a, change)
            && r.Err? == Clashes(View(db), a, change)
            && (r.Err? ==> r.error == Conflict)
  {
    var a, dto := db.rows[i].accountId, AsDto(change, block);
    var k := FindId(db.rows, db.rows[i].id);
    assert k == Some(i) by {
      SameIdSameRow(db, k.value, i);
    }
    var r := UpdateRowAt(db, i, dto);
    assert UpdateRow(db, db.rows[i].id, dto) == r;
    ClashInTable(db, a, change);
    UpdateKeepsTable(db, i, dto);
    assert r.Err? == Clashes(View(db), a, change) by { UpdateErrorIff(db, i, change, block); }
    if r.Ok? {
      ViewAfterUpdate(db, i, change, block);
    }
  }

  lemma UpdateErrorIff(db: Db, i: nat, change: Columns, block: Option<nat>)
    requires TableOk(db) && i < |db.rows| && change.username != Some([])
    ensures UpdateRowAt(db, i, AsDto(change, block)).Err? <==>
            change.username.Some? &&
            exists j :: 0 <= j < |db.rows| && db.rows[j].accountId != db.rows[i].accountId
                        && db.rows[j].username == change.username
  {
    if change.username.Some? {
      var found := FindUsername(db.rows, change.username.value);
      if found.Some? && found.value != i {
        assert Distinct(db.rows[i], db.rows[found.value]);
      }
      if j :| 0 <= j < |db.rows| && db.rows[j].accountId != db.rows[i].accountId
              && db.rows[j].username == change.username {
        assert Distinct(db.rows[i], db.rows[j]);
      }
    }
  }

  lemma ViewAfterUpdate(db: Db, i: nat, change: Columns, block: Option<nat>)
    requires TableOk(db) && i < |db.rows|
    requires UpdateRowAt(db, i, AsDto(change, block)).Ok?
    ensures var a, db' := db.rows[i].accountId, UpdateRowAt(db, i, AsDto(change, block)).value;
            a in View(db) && View(db') == View(db)[a := Merge(View(db)[a], change)]
  {
    var row := Assign(db.rows[i], AsDto(change, block));
    UpdateKeepsTable(db, i, AsDto(change, block));
    ViewAt(db, i);
    assert ColumnsOf(row) == Merge(ColumnsOf(db.rows[i]), change);
    ViewOfReplacedRow(db, i, row);
  }

  lemma ViewOfReplacedRow(db: Db, i: nat, row: Row)
    requires TableOk(db) && i < |db.rows| && row.accountId == db.rows[i].accountId
    requires TableOk(db.(rows := db.rows[i := row]))
    ensures View(db.(rows := db.rows[i := row])) == View(db)[row.accountId := ColumnsOf(row)]
  {
    var db' := db.(rows := db.rows[i := row]);
    var v := View(db)[row.accountId := ColumnsOf(row)];
    ViewAt(db, i);
    OtherAccounts(db, i);
    SameAccounts(db, db');
    forall j | 0 <= j < |db'.rows|
      ensures v[db'.rows[j].accountId] == ColumnsOf(db'.rows[j])
    {
      ViewAt(db, j);
    }
    ViewIs(db', v);
  }

  lemma OtherAccounts(db: Db, i: nat)
    requires TableOk(db) && i < |db.rows|
    ensures forall j :: 0 <= j < |db.rows| && j != i ==> db.rows[j].accountId != db.rows[i].accountId
  {
    forall j | 0 <= j < |db.rows| && j != i
      ensures db.rows[j].accountId != db.rows[i].accountId
    {
      assert Distinct(db.rows[j], db.rows[i]);
    }
  }

  lemma SameAccounts(db: Db, db': Db)
    requires |db.rows| == |db'.rows|
    requires forall j :: 0 <= j < |db.rows| ==> db'.rows[j].accountId == db.rows[j].accountId
    ensures Accounts(db') == Accounts(db)
  {
    assert forall j :: 0 <= j < |db.rows| ==> db'.rows[j].accountId in Accounts(db);
    assert forall j :: 0 <= j < |db.rows| ==> db.rows[j].accountId in Accounts(db');
  }

  lemma CreateRefines(db: Db, a: JsString, change: Columns)
    requires TableOk(db) && FindAccount(db.rows, a).None? && change.username != Some([])
    ensures var r := CreateRow(db, a, AsDto(change, None));
            && TableOk(After(db, r))
            && View(After(db, r)) == Put(View(db), a, change)
            && r.Err? == Clashes(View(db), a, change)
            && (r.Err? ==> r.error == Conflict)
  {
    var r := CreateRow(db, a, AsDto(change, None));
    CreateErrorIff(db, a, change);
    if r.Ok? {
      CreateKeepsTable(db, a, AsDto(change, None));
      ViewAfterCreate(db, a, change);
    }
  }

  lemma CreateErrorIff(db: Db, a: JsString, change: Columns)
    requires TableOk(db) && FindAccount(db.rows, a).None? && change.username != Some([])
    ensures CreateRow(db, a, AsDto(change, None)).Err? == Clashes(View(db), a, change)
    ensures CreateRow(db, a, AsDto(change, None)).Err? ==> CreateRow(db, a, AsDto(change, None)).error == Conflict
  {
    ClashInTable(db, a, change);
  }

  lemma ViewAfterCreate(db: Db, a: JsString, change: Columns)
    requires TableOk(db) && FindAccount(db.rows, a).None?
    requires CreateRow(db, a, AsDto(change, None)).Ok?
    ensures a !in View(db)
    ensures View(CreateRow(db, a, AsDto(change, None)).value) == View(db)[a := Merge(BLANK, change)]
  {
    var db' := CreateRow(db, a, AsDto(change, None)).value;
    CreateKeepsTable(db, a, AsDto(change, None));
    var row := db'.rows[|db.rows|];
    assert db'.rows == db.rows + [row];
    assert row.accountId == a && ColumnsOf(row) == Merge(BLANK, change);
    var v := View(db)[a := ColumnsOf(row)];
    MoreAccounts(db, db', row);
    forall j | 0 <= j < |db'.rows|
      ensures v[db'.rows[j].accountId] == ColumnsOf(db'.rows[j])
    {
      if j < |db.rows| { ViewAt(db, j); }
    }
    ViewIs(db', v);
  }

  lemma MoreAccounts(db: Db, db': Db, row: Row)
    requires db'.rows == db.rows + [row]
    ensures Accounts(db') == Accounts(db) + {row.accountId}
  {
    assert forall j :: 0 <= j < |db.rows| ==> db'.rows[j] == db.rows[j];
    assert db'.rows[|db.rows|] == row;
    assert forall j :: 0 <= j < |db.rows| ==> db.rows[j].accountId in Accounts(db');
  }

  /** A job that carries an event of the log: by position, or with named or numbered fields. */
  predicate Carries(job: Job, l: Logged) {
    && job.blockNumber == l.block
    && job.name == MethodName(l.event)
    && (job.data == EventJson(l.event) || (!l.event.StatsUpdated? && job.data in {EventObject(l.event), EventIndexed(l.event)}))
  }

  predicate NameBounded(e: Event) {
    match e
    case UsernameSet(_, u) => |u| <= MAX_USERNAME_LENGTH
    case ProfileUpdated(_, u, _, _) => u.Some? ==> |u.value| <= MAX_USERNAME_LENGTH
    case StatsUpdated(_, _) => true
  }

  /** The field itself, or an absent one where it is null. */
  predicate ReadsAs(j: Json, field: Json) {
    j == field || (Nullish(j) && field == Json.Null)
  }

  lemma DecodePatch(j: Json, p: Patch)
    requires ReadsAs(j, PatchJson(p))
    ensures OrAbsent(DecodeBytes(j, None)) == AsValue(VisiblePatch(p))
  {
    if p.Some? && p.value.Some? { DecodeHexJson(p.value.value, None); }
  }

  lemma DecodeName(j: Json, u: Option<Bytes>)
    requires u.Some? ==> |u.value| <= MAX_USERNAME_LENGTH
    requires ReadsAs(j, OptionJson(u))
    ensures OrAbsent(DecodeBytes(j, Some(32))) == AsValue(VisibleOption(u))
  {
    if u.Some? { DecodeHexJson(u.value, Some(32)); }
  }

  lemma ReadUsernameSet(job: Job, l: Logged)
    requires Carries(job, l) && l.event.UsernameSet?
    ensures !Nullish(job.data)
    ensures UsernameSetAccount(job.data) == Str(l.event.account)
    ensures UsernameSetBytes(job.data) == HexJson(l.event.username)
  {
    if job.data == EventObject(l.event) {
      assert Member(job.data, "account") == Str(l.event.account);
      assert Member(job.data, "username") == HexJson(l.event.username);
    } else if job.data == EventIndexed(l.event) {
      assert Item(job.data, 0) == Str(l.event.account);
      assert Item(job.data, 1) == HexJson(l.event.username);
    }
  }

  lemma ReadNamedFields(e: Event)
    requires e.ProfileUpdated?
    ensures var data := EventObject(e);
            && ProfileField(data, "account", 0) == Str(e.account)
            && ReadsAs(ProfileField(data, "username", 1), OptionJson(e.newUsername))
            && ReadsAs(ProfileField(data, "avatar", 2), PatchJson(e.avatar))
            && ReadsAs(ProfileField(data, "bio", 3), PatchJson(e.bio))
  {
    assert Member(EventObject(e), "account") == Str(e.account);
    assert Member(EventObject(e), "username") == OptionJson(e.newUsername);
    assert Member(EventObject(e), "avatar") == PatchJson(e.avatar);
    assert Member(EventObject(e), "bio") == PatchJson(e.bio);
  }

  lemma ReadNumberedFields(e: Event)
    requires e.ProfileUpdated?
    ensures var data := EventIndexed(e);
            && ProfileField(data, "account", 0) == Str(e.account)
            && ProfileField(data, "username", 1) == OptionJson(e.newUsername)
            && ProfileField(data, "avatar", 2) == PatchJson(e.avatar)
            && ProfileField(data, "bio", 3) == PatchJson(e.bio)
  {
    assert Item(EventIndexed(e), 0) == Str(e.account);
    assert Item(EventIndexed(e), 1) == OptionJson(e.newUsername);
    assert Item(EventIndexed(e), 2) == PatchJson(e.avatar);
    assert Item(EventIndexed(e), 3) == PatchJson(e.bio);
  }

  lemma ReadProfileUpdated(job: Job, l: Logged)
    requires Carries(job, l) && l.event.ProfileUpdated?
    ensures !Nullish(job.data)
    ensures ProfileField(job.data, "account", 0) == Str(l.event.account)
    ensures ReadsAs(ProfileField(job.data, "username", 1), OptionJson(l.event.newUsername))
    ensures ReadsAs(ProfileField(job.data, "avatar", 2), PatchJson(l.event.avatar))
    ensures ReadsAs(ProfileField(job.data, "bio", 3), PatchJson(l.event.bio))
  {
    if job.data == EventObject(l.event) {
      ReadNamedFields(l.event);
    } else if job.data == EventIndexed(l.event) {
      ReadNumberedFields(l.event);
    }
  }

  /** The handlers read back from the payload what the event says, in every form. */
  lemma HandlerReadsEvent(db: Db, job: Job, l: Logged)
    requires Carries(job, l) && NameBounded(l.event) && !l.event.StatsUpdated?
    ensures var block := if l.event.UsernameSet? then Some(l.block) else None;
            Handle(db, job) ==
            Upsert(db, Str(l.event.account), AsDto(ChangeOf(l.event), block), AsDto(ChangeOf(l.event), None))
  {
    match l.event {
      case UsernameSet(a, u) =>
        ReadUsernameSet(job, l);
        DecodeName(HexJson(u), Some(u));
      case ProfileUpdated(a, u, avatar, bio) =>
        ReadProfileUpdated(job, l);
        DecodeName(ProfileField(job.data, "username", 1), u);
        DecodePatch(ProfileField(job.data, "avatar", 2), avatar);
        DecodePatch(ProfileField(job.data, "bio", 3), bio);
    }
  }

  lemma UpsertRefines(db: Db, a: AccountId, change: Columns, block: Option<nat>)
    requires TableOk(db) && change.username != Some([])
    ensures var o := Upsert(db, Str(a), AsDto(change, block), AsDto(change, None));
            && TableOk(o.db)
            && View(o.db) == Put(View(db), a, change)
            && o.error == if Clashes(View(db), a, change) then Some(Service(Conflict)) else None
  {
    var i := FindAccount(db.rows, a);
    if i.Some? {
      UpdateRefines(db, i.value, change, block);
    } else {
      CreateRefines(db, a, change);
    }
  }

  /** The block number is stored by a username event for an account that has a row, and only then;
      the row keeps its id. */
  lemma BlockStored(db: Db, job: Job, l: Logged, i: nat)
    requires TableOk(db) && Carries(job, l) && NameBounded(l.event) && !l.event.StatsUpdated?
    requires i < |db.rows| && db.rows[i].accountId == l.event.account && Handle(db, job).error.None?
    ensures var rows := Handle(db, job).db.rows;
            && |rows| == |db.rows| && rows[i].id == db.rows[i].id && rows[i].accountId == l.event.account
            && rows[i].createdAtBlock == if l.event.UsernameSet? then Some(l.block) else db.rows[i].createdAtBlock
  {
    HandlerReadsEvent(db, job, l);
    SameAccountSameRow(db, FindAccount(db.rows, l.event.account).value, i);
    UpdateExactly(db, i, AsDto(ChangeOf(l.event), if l.event.UsernameSet? then Some(l.block) else None));
  }

  lemma BlockNotStoredOnCreate(db: Db, job: Job, l: Logged)
    requires TableOk(db) && Carries(job, l) && NameBounded(l.event) && !l.event.StatsUpdated?
    requires forall i :: 0 <= i < |db.rows| ==> db.rows[i].accountId != l.event.account
    requires Handle(db, job).error.None?
    ensures var rows := Handle(db, job).db.rows;
            && |rows| == |db.rows| + 1
            && rows[|db.rows|].accountId == l.event.account && rows[|db.rows|].createdAtBlock == None
  {
    HandlerReadsEvent(db, job, l);
    CreateExactly(db, l.event.account, AsDto(ChangeOf(l.event), None));
  }

  /** A stats payload with nothing but an account makes sure the account has a row. */
  lemma StatsOfAccountOnly(db: Db, job: Job, a: AccountId)
    requires TableOk(db) && job.name == "StatsUpdated" && job.data == Arr([Str(a)])
    ensures Handle(db, job).error.None?
    ensures View(Handle(db, job).db) == Put(View(db), a, BLANK)
  {
    assert Item(job.data, 0) == Str(a) && Item(job.data, 1) == Undefined && Item(job.data, 2) == Undefined;
    assert Handle(db, job) == Upsert(db, Str(a), AsDto(BLANK, None), AsDto(BLANK, None));
    UpsertRefines(db, a, BLANK, None);
  }

  /** The stats of the chain never reach the table: the first number is a type error. */
  lemma StatsHandlerFails(db: Db, job: Job, l: Logged)
    requires Carries(job, l) && l.event.StatsUpdated?
    ensures Handle(db, job) == Outcome(db, Some(TypeError))
  {
    assert Item(job.data, 1) == Number(l.event.stats.totalRaces);
  }

  lemma HandleRefines(db: Db, job: Job, l: Logged)
    requires TableOk(db) && Carries(job, l) && NameBounded(l.event)
    ensures TableOk(Handle(db, job).db)
    ensures View(Handle(db, job).db) == Apply(View(db), l.event)
    ensures Handle(db, job).error == ExpectedError(View(db), l.event)
  {
    if l.event.StatsUpdated? {
      StatsHandlerFails(db, job, l);
    } else {
      HandlerReadsEvent(db, job, l);
      UpsertRefines(db, l.event.account, ChangeOf(l.event), if l.event.UsernameSet? then Some(l.block) else None);
    }
  }

  function DeliverJobs(db: Db, jobs: seq<Job>): Db {
    if jobs == [] then db else Handle(DeliverJobs(db, jobs[..|jobs| - 1]), jobs[|jobs| - 1]).db
  }

  ghost predicate CarriesAll(jobs: seq<Job>, log: Log) {
    && |jobs| == |log|
    && forall i :: 0 <= i < |log| ==> Carries(jobs[i], log[i]) && NameBounded(log[i].event)
  }

  lemma EmptyView()
    ensures TableOk(EMPTY) && View(EMPTY) == map[]
  {
  }

  lemma CarriesAllLast(jobs: seq<Job>, log: Log)
    requires CarriesAll(jobs, log) && log != []
    ensures CarriesAll(jobs[..|jobs| - 1], log[..|log| - 1])
    ensures Carries(jobs[|jobs| - 1], log[|log| - 1]) && NameBounded(log[|log| - 1].event)
  {
  }

  lemma LastJobRefines(jobs: seq<Job>, log: Log)
    requires jobs != [] && log != []
    requires TableOk(DeliverJobs(EMPTY, jobs[..|jobs| - 1]))
    requires View(DeliverJobs(EMPTY, jobs[..|jobs| - 1])) == Deliver(map[], log[..|log| - 1])
    requires Carries(jobs[|jobs| - 1], log[|log| - 1]) && NameBounded(log[|log| - 1].event)
    ensures TableOk(DeliverJobs(EMPTY, jobs))
    ensures View(DeliverJobs(EMPTY, jobs)) == Deliver(map[], log)
  {
    HandleRefines(DeliverJobs(EMPTY, jobs[..|jobs| - 1]), jobs[|jobs| - 1], log[|log| - 1]);
  }

  lemma {:induction false} DeliverJobsRefines(jobs: seq<Job>, log: Log)
    requires CarriesAll(jobs, log)
    ensures TableOk(DeliverJobs(EMPTY, jobs))
    ensures View(DeliverJobs(EMPTY, jobs)) == Deliver(map[], log)
  {
    if log == [] {
      EmptyView();
    } else {
      CarriesAllLast(jobs, log);
      DeliverJobsRefines(jobs[..|jobs| - 1], log[..|log| - 1]);
      LastJobRefines(jobs, log);
    }
  }
}
