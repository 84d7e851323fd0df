/** The queue worker: reads a job and creates or updates the row of its account. */
module EventProcessor {
  import opened Prelude
  import opened Payload
  import opened BlockchainService
  import opened Users

  datatype HandlerError = TypeError | AccountMissing | AccountNotText | Service(error: ServiceError)

  datatype Outcome = Outcome(db: Db, error: Option<HandlerError>)

  /** An undefined field: no text, or empty text. */
  function OrAbsent(text: Option<JsString>): Value {
    if text.Some? && text.value != [] then Text(text.value) else Absent
  }

  predicate Nullish(j: Json) { j.Undefined? || j.Null? }

  // ---------------------------------------------------------------- the handlers as functions

  function Settle(db: Db, r: Result<Db, ServiceError>): Outcome {
    if r.Ok? then Outcome(r.value, None) else Outcome(db, Some(Service(r.error)))
  }

  /** Update the row of the account, or create one. */
  function Upsert(db: Db, account: Json, onUpdate: Dto, onCreate: Dto): Outcome {
    if !Payload.Truthy(account) then Outcome(db, Some(AccountMissing))
    else if !account.Str? then Outcome(db, Some(AccountNotText))
    else
      var i := FindAccount(db.rows, account.s);
      Settle(db, if i.Some? then UpdateRow(db, db.rows[i.value].id, onUpdate) else CreateRow(db, account.s, onCreate))
  }

  /** Object form first, then the array form. */
  function UsernameSetAccount(data: Json): Json {
    OrElse(Member(data, "account"), Item(data, 0))
  }

  function UsernameSetBytes(data: Json): Json {
    var bytes := if !Payload.Truthy(Member(data, "account")) && data.Arr? then Item(data, 1)
                 else Member(data, "username");
    if !Payload.Truthy(bytes) && Item(data, 1) != Undefined then Item(data, 1) else bytes
  }

  function UsernameSetOutcome(db: Db, data: Json, blockNumber: nat): Outcome {
    if Nullish(data) then Outcome(db, Some(TypeError))
    else
      var dto := Dto(OrAbsent(DecodeBytes(UsernameSetBytes(data), Some(32))), Absent, Absent, None);
      Upsert(db, UsernameSetAccount(data), dto.(createdAtBlock := Some(blockNumber)), dto)
  }

  function ProfileField(data: Json, name: string, i: nat): Json
    requires i < 10
  {
    OrElse(Member(data, name), Item(data, i))
  }

  function ProfileUpdatedOutcome(db: Db, data: Json): Outcome {
    if Nullish(data) then Outcome(db, Some(TypeError))
    else
      var dto := Dto(OrAbsent(DecodeBytes(ProfileField(data, "username", 1), Some(32))),
                     OrAbsent(DecodeBytes(ProfileField(data, "avatar", 2), None)),
                     OrAbsent(DecodeBytes(ProfileField(data, "bio", 3), None)), None);
      Upsert(db, ProfileField(data, "account", 0), dto, dto)
  }

  /** JSON has no toNumber, so any value in a number field is a type error. */
  function StatsUpdatedOutcome(db: Db, data: Json): Outcome {
    if Nullish(data) || !Nullish(Member(data, "totalRaces")) || !Nullish(Item(data, 1))
       || !Nullish(Member(data, "wins")) || !Nullish(Item(data, 2))
    then Outcome(db, Some(TypeError))
    else
      var dto := Dto(Absent, Absent, Absent, None);
      Upsert(db, ProfileField(data, "account", 0), dto, dto)
  }

  function Handle(db: Db, job: Job): Outcome {
    if job.name == "UsernameSet" then UsernameSetOutcome(db, job.data, job.blockNumber)
    else if job.name == "ProfileUpdated" then ProfileUpdatedOutcome(db, job.data)
    else if job.name == "StatsUpdated" then StatsUpdatedOutcome(db, job.data)
    else Outcome(db, None)
  }

  // ---------------------------------------------------------------- payloads that cannot be used

  predicate KnownMethod(name: string) {
    name == "UsernameSet" || name == "ProfileUpdated" || name == "StatsUpdated"
  }

  lemma UnknownMethodIgnored(db: Db, job: Job)
    requires !KnownMethod(job.name)
    ensures Handle(db, job) == Outcome(db, None)
  {
  }

  lemma NoDataFails(db: Db, job: Job)
    requires KnownMethod(job.name) && (job.data == Undefined || job.data == Json.Null)
    ensures Handle(db, job) == Outcome(db, Some(TypeError))
  {
  }

  /** Neither a named nor a first account. */
  lemma NoAccountFails(db: Db, job: Job)
    requires job.name == "UsernameSet" || job.name == "ProfileUpdated"
    requires job.data != Undefined && job.data != Json.Null
    requires Member(job.data, "account") in {Undefined, Json.Null, Str([])}
    requires Item(job.data, 0) in {Undefined, Json.Null, Str([])}
    ensures Handle(db, job) == Outcome(db, Some(AccountMissing))
  {
  }

  /** Both handlers take account and username from the same places, for every payload. */
  lemma HandlersReadAlike(data: Json)
    ensures UsernameSetAccount(data) == ProfileField(data, "account", 0)
    ensures Decoded(UsernameSetBytes(data)) == Decoded(ProfileField(data, "username", 1))
  {
  }

  /** A job that fails leaves the table as it was. */
  lemma FailureKeepsTable(db: Db, job: Job)
    ensures Handle(db, job).error.Some? ==> Handle(db, job).db == db
  {
  }

  /** A number of races or wins, by position or by name, is a type error. */
  lemma StatsNumberFails(db: Db, job: Job, n: int)
    requires job.name == "StatsUpdated"
    requires || Item(job.data, 1) == Number(n) || Item(job.data, 2) == Number(n)
             || Member(job.data, "totalRaces") == Number(n) || Member(job.data, "wins") == Number(n)
    ensures Handle(db, job) == Outcome(db, Some(TypeError))
  {
  }

  /** No username in the table is longer than its column. */
  ghost predicate NamesFit(db: Db) {
    forall i :: 0 <= i < |db.rows| && db.rows[i].username.Some? ==> |db.rows[i].username.value| <= 32
  }

  lemma UpsertKeepsNamesFit(db: Db, account: Json, onUpdate: Dto, onCreate: Dto)
    requires NamesFit(db)
    requires onUpdate.username.Text? ==> |onUpdate.username.text| <= 32
    requires onCreate.username.Text? ==> |onCreate.username.text| <= 32
    ensures NamesFit(Upsert(db, account, onUpdate, onCreate).db)
  {
  }

  /** Whatever the payload, the worker stores no username longer than 32 code units. */
  lemma HandleKeepsNamesFit(db: Db, job: Job)
    requires NamesFit(db)
    ensures NamesFit(Handle(db, job).db)
  {
    var data := job.data;
    if !Nullish(data) {
      var name := OrAbsent(DecodeBytes(UsernameSetBytes(data), Some(32)));
      var dto := Dto(name, Absent, Absent, None);
      UpsertKeepsNamesFit(db, UsernameSetAccount(data), dto.(createdAtBlock := Some(job.blockNumber)), dto);
      var updated := Dto(OrAbsent(DecodeBytes(ProfileField(data, "username", 1), Some(32))),
                         OrAbsent(DecodeBytes(ProfileField(data, "avatar", 2), None)),
                         OrAbsent(DecodeBytes(ProfileField(data, "bio", 3), None)), None);
      UpsertKeepsNamesFit(db, ProfileField(data, "account", 0), updated, updated);
      var blank := Dto(Absent, Absent, Absent, None);
      UpsertKeepsNamesFit(db, ProfileField(data, "account", 0), blank, blank);
    }
  }

  // ---------------------------------------------------------------- the worker

  class Worker {
    const usersService: UsersService

    constructor (usersService: UsersService)
      ensures this.usersService == usersService
    {
      this.usersService := usersService;
    }

    method HandleUserProfileEvent(job: Job) returns (error: Option<HandlerError>)
      modifies usersService
      ensures Outcome(usersService.Table(), error) == Handle(old(usersService.Table()), job)
    {
      error := None;
      if job.name == "UsernameSet" {
        error := HandleUsernameSet(job.data, job.blockNumber);
      } else if job.name == "ProfileUpdated" {
        error := HandleProfileUpdated(job.data);
      } else if job.name == "StatsUpdated" {
        error := HandleStatsUpdated(job.data);
      }
    }

    method HandleUsernameSet(data: Json, blockNumber: nat) returns (error: Option<HandlerError>)
      modifies usersService
      ensures Outcome(usersService.Table(), error) ==
              UsernameSetOutcome(old(usersService.Table()), data, blockNumber)
    {
      if Nullish(data) {
        return Some(TypeError);
      }
      var accountId := Member(data, "account");
      var usernameBytes := Member(data, "username");
      if !Payload.Truthy(accountId) && data.Arr? {
        accountId := Item(data, 0);
        usernameBytes := Item(data, 1);
      }
      if !Payload.Truthy(accountId) {
        accountId := Item(data, 0);
      }
      if !Payload.Truthy(usernameBytes) && Item(data, 1) != Undefined {
        usernameBytes := Item(data, 1);
      }
      var username := OrAbsent(DecodeBytes(usernameBytes, Some(32)));
      error := FindOrCreate(accountId, Dto(username, Absent, Absent, Some(blockNumber)),
                            Dto(username, Absent, Absent, None));
    }

    method HandleProfileUpdated(data: Json) returns (error: Option<HandlerError>)
      modifies usersService
      ensures Outcome(usersService.Table(), error) ==
              ProfileUpdatedOutcome(old(usersService.Table()), data)
    {
      if Nullish(data) {
        return Some(TypeError);
      }
      var accountId := OrElse(Member(data, "account"), Item(data, 0));
      var username := OrAbsent(DecodeBytes(OrElse(Member(data, "username"), Item(data, 1)), Some(32)));
      var avatar := OrAbsent(DecodeBytes(OrElse(Member(data, "avatar"), Item(data, 2)), None));
      var bio := OrAbsent(DecodeBytes(OrElse(Member(data, "bio"), Item(data, 3)), None));
      error := FindOrCreate(accountId, Dto(username, avatar, bio, None), Dto(username, avatar, bio, None));
    }

    method HandleStatsUpdated(data: Json) returns (error: Option<HandlerError>)
      modifies usersService
      ensures Outcome(usersService.Table(), error) ==
              StatsUpdatedOutcome(old(usersService.Table()), data)
    {
      if Nullish(data) || !Nullish(Member(data, "totalRaces")) || !Nullish(Item(data, 1))
         || !Nullish(Member(data, "wins")) || !Nullish(Item(data, 2)) {
        return Some(TypeError);
      }
      var dto := Dto(Absent, Absent, Absent, None);
      error := FindOrCreate(OrElse(Member(data, "account"), Item(data, 0)), dto, dto);
    }

    method FindOrCreate(accountId: Json, onUpdate: Dto, onCreate: Dto) returns (error: Option<HandlerError>)
      modifies usersService
      ensures Outcome(usersService.Table(), error) ==
              Upsert(old(usersService.Table()), accountId, onUpdate, onCreate)
    {
      if !Payload.Truthy(accountId) {
        return Some(AccountMissing);
      }
      if !accountId.Str? {
        return Some(AccountNotText);
      }
      var user := usersService.FindByAccountId(accountId.s);
      var r;
      if user.Some? {
        r := usersService.Update(user.value.id, onUpdate);
      } else {
        r := usersService.Create(accountId.s, onCreate);
      }
      error := if r.Ok? then None else Some(Service(r.error));
    }
  }
}
