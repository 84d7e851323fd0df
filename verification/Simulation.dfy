/** The users table follows the pallet: at every lag, and exactly for which usernames. */
module Simulation {
  import opened Prelude
  import opened Text
  import opened UserProfile
  import opened PalletRuns
  import opened PalletLog
  import opened Payload
  import opened BlockchainService
  import opened Users
  import opened EventProcessor
  import opened Projection
  import opened Delivery

  /** Rows exist for the accounts with a profile and show the text of their usernames. */
  ghost predicate NamesMirrored(profiles: map<AccountId, Profile>, v: Rows) {
    && v.Keys == profiles.Keys
    && forall a :: a in profiles ==> v[a].username == Visible(profiles[a].username)
  }

  /** What the chain holds and text can show, the row shows. */
  predicate OneWay(chain: Option<Bytes>, column: Option<JsString>) {
    VisibleOption(chain).Some? ==> column == VisibleOption(chain)
  }

  ghost predicate DetailsMirrored(s: State, v: Rows) {
    forall a :: a in s.profiles && a in v ==>
                  OneWay(s.profiles[a].avatar, v[a].avatar) && OneWay(s.profiles[a].bio, v[a].bio)
  }

  // ---------------------------------------------------------------- which usernames a run submits

  predicate SubmitsOnly(S: iset<Bytes>, call: Call) {
    match call
    case SetUsername(_, u) => u in S
    case UpdateProfile(_, u, _, _) => u.Some? ==> u.value in S
    case UpdateStats(_, _, _, _, _) => true
  }

  ghost predicate UsernamesFrom(S: iset<Bytes>, steps: seq<Step>) {
    forall i :: 0 <= i < |steps| && steps[i].Dispatch? ==> SubmitsOnly(S, steps[i].call)
  }

  predicate Accepts(S: iset<Bytes>, u: Bytes) { u in S && |u| <= MAX_USERNAME_LENGTH }

  ghost predicate Indistinct(S: iset<Bytes>, u: Bytes, w: Bytes) {
    Accepts(S, u) && Accepts(S, w) && u != w && Visible(u) == Visible(w)
  }

  /** Usernames that fit the chain keep their identity as text: either all of them vanish, or
      none does and no two become the same. */
  ghost predicate NamesOk(S: iset<Bytes>) {
    || (forall u :: Accepts(S, u) ==> Visible(u).None?)
    || ((forall u :: Accepts(S, u) ==> Visible(u).Some?) && forall u, w :: !Indistinct(S, u, w))
  }

  // ---------------------------------------------------------------- the simulation

  ghost predicate StoredNamesFrom(S: iset<Bytes>, s: State) {
    forall a :: a in s.profiles && s.profiles[a].username != [] ==> Accepts(S, s.profiles[a].username)
  }

  ghost predicate Simulates(S: iset<Bytes>, s: State, v: Rows) {
    Inv(s) && StoredNamesFrom(S, s) && NamesMirrored(s.profiles, v) && DetailsMirrored(s, v)
  }

  /** The name a call submits, if it submits one. */
  function SubmittedName(call: Call): Option<Bytes> {
    match call
    case SetUsername(_, u) => Some(u)
    case UpdateProfile(_, u, _, _) => u
    case UpdateStats(_, _, _, _, _) => None
  }

  lemma SameTextSameName(S: iset<Bytes>, u: Bytes, w: Bytes)
    requires NamesOk(S) && Accepts(S, u) && Visible(u).Some?
    ensures Accepts(S, w) && Visible(w) == Visible(u) ==> w == u
  {
    assert Accepts(S, w) && u != w && Visible(w) == Visible(u) ==> Indistinct(S, u, w);
  }

  /** A name the pallet lets through is held by no other row: uniqueness on chain carries over. */
  lemma AcceptedNameIsFree(S: iset<Bytes>, s: State, v: Rows, who: AccountId, u: Bytes)
    requires NamesOk(S) && Simulates(S, s, v) && Accepts(S, u)
    requires UsernameError(s, who, u).None? && Visible(u).Some?
    ensures !HeldByOther(v, who, Visible(u).value)
  {
    assert Visible([]) == None;
    forall b | b in v && b != who
      ensures v[b].username != Visible(u)
    {
      SameTextSameName(S, u, s.profiles[b].username);
    }
  }

  /** The event a call logs when it is accepted. */
  function EventOf(s: State, call: Call): Event {
    Commit(s, call).log[|s.log|].event
  }

  lemma NoClashOnCommit(S: iset<Bytes>, s: State, call: Call, v: Rows)
    requires NamesOk(S) && Simulates(S, s, v) && SubmitsOnly(S, call) && Validate(s, call).None?
    ensures ExpectedError(v, EventOf(s, call)) == if call.UpdateStats? then Some(TypeError) else None
    ensures NameBounded(EventOf(s, call))
  {
    var u := SubmittedName(call);
    if u.Some? && Visible(u.value).Some? {
      AcceptedNameIsFree(S, s, v, call.who, u.value);
    }
  }

  function RowOf(v: Rows, a: AccountId): Columns {
    if a in v then v[a] else BLANK
  }

  lemma RowFollows(S: iset<Bytes>, s: State, call: Call, v: Rows)
    requires NamesOk(S) && Simulates(S, s, v) && SubmitsOnly(S, call) && Validate(s, call).None?
    ensures Apply(v, EventOf(s, call)) ==
            if call.UpdateStats? then v else v[call.who := Merge(RowOf(v, call.who), ChangeOf(EventOf(s, call)))]
  {
    NoClashOnCommit(S, s, call, v);
  }

  lemma OwnNameFollows(S: iset<Bytes>, s: State, call: Call, v: Rows)
    requires NamesOk(S) && StoredNamesFrom(S, s) && NamesMirrored(s.profiles, v)
    requires SubmitsOnly(S, call) && Validate(s, call).None?
    ensures Merge(RowOf(v, call.who), ChangeOf(EventOf(s, call))).username ==
            Visible(Or(SubmittedName(call), ProfileOf(s, call.who).username))
  {
    var prior := ProfileOf(s, call.who).username;
    assert Visible([]) == None;
    assert RowOf(v, call.who).username == Visible(prior);
    if SubmittedName(call).Some? && Visible(SubmittedName(call).value).None? {
      assert Accepts(S, SubmittedName(call).value);
      assert prior == [] || Accepts(S, prior);
      assert Visible(prior).None?;
    }
  }

  lemma NamesFollow(S: iset<Bytes>, s: State, call: Call, v: Rows)
    requires NamesOk(S) && StoredNamesFrom(S, s) && NamesMirrored(s.profiles, v)
    requires SubmitsOnly(S, call) && Validate(s, call).None? && !call.UpdateStats?
    ensures NamesMirrored(Commit(s, call).profiles, v[call.who := Merge(RowOf(v, call.who), ChangeOf(EventOf(s, call)))])
  {
    OwnNameFollows(S, s, call, v);
    CommittedProfile(s, call);
    OneNameShown(s.profiles, v, call.who, Commit(s, call).profiles[call.who],
                 Merge(RowOf(v, call.who), ChangeOf(EventOf(s, call))));
  }

  lemma CommittedProfile(s: State, call: Call)
    requires !call.UpdateStats?
    ensures call.who in Commit(s, call).profiles
    ensures Commit(s, call).profiles == s.profiles[call.who := Commit(s, call).profiles[call.who]]
    ensures Commit(s, call).profiles[call.who].username == Or(SubmittedName(call), ProfileOf(s, call.who).username)
  {
  }

  lemma OneNameShown(profiles: map<AccountId, Profile>, v: Rows, who: AccountId, profile: Profile, row: Columns)
    requires NamesMirrored(profiles, v) && row.username == Visible(profile.username)
    ensures NamesMirrored(profiles[who := profile], v[who := row])
  {
  }

  lemma StoredNamesFollow(S: iset<Bytes>, s: State, call: Call)
    requires StoredNamesFrom(S, s) && SubmitsOnly(S, call) && Validate(s, call).None?
    ensures StoredNamesFrom(S, Commit(s, call))
  {
  }

  lemma DetailsFollow(s: State, call: Call, v: Rows)
    requires NamesMirrored(s.profiles, v) && DetailsMirrored(s, v) && !call.UpdateStats?
    ensures DetailsMirrored(Commit(s, call), v[call.who := Merge(RowOf(v, call.who), ChangeOf(EventOf(s, call)))])
  {
  }

  lemma SimulationStep(S: iset<Bytes>, s: State, call: Call, v: Rows)
    requires NamesOk(S) && Simulates(S, s, v) && SubmitsOnly(S, call) && Validate(s, call).None?
    ensures Simulates(S, Commit(s, call), Apply(v, EventOf(s, call)))
  {
    NextKeepsInv(s, Dispatch(call));
    RowFollows(S, s, call, v);
    StoredNamesFollow(S, s, call);
    if !call.UpdateStats? {
      NamesFollow(S, s, call, v);
      DetailsFollow(s, call, v);
    }
  }

  ghost predicate AllNamesBounded(log: Log) {
    forall i :: 0 <= i < |log| ==> NameBounded(log[i].event)
  }

  /** Chain and rows after the same history. */
  ghost predicate InStep(S: iset<Bytes>, s: State) {
    Simulates(S, s, Deliver(map[], s.log)) && NoClash(s.log) && AllNamesBounded(s.log)
  }

  lemma CommitInStep(S: iset<Bytes>, s: State, call: Call)
    requires NamesOk(S) && InStep(S, s) && SubmitsOnly(S, call) && Validate(s, call).None?
    ensures InStep(S, Commit(s, call))
  {
    var v, l := Deliver(map[], s.log), Commit(s, call).log[|s.log|];
    CommitIsReplayed(s, call);
    NoClashOnCommit(S, s, call, v);
    SimulationStep(S, s, call, v);
    DeliverSnoc(map[], s.log, l);
    NoClashSnoc(s.log, l);
  }

  lemma IdleInStep(S: iset<Bytes>, s: State, t: State)
    requires InStep(S, s) && Inv(t) && t.profiles == s.profiles && t.log == s.log
    ensures InStep(S, t)
  {
  }

  lemma {:induction false} Simulation(S: iset<Bytes>, steps: seq<Step>)
    requires NamesOk(S) && UsernamesFrom(S, steps)
    ensures InStep(S, Run(INITIAL, steps))
  {
    if steps != [] {
      var before, last := steps[..|steps| - 1], steps[|steps| - 1];
      var s := Run(INITIAL, before);
      Simulation(S, before);
      if last.Dispatch? && Validate(s, last.call).None? {
        CommitInStep(S, s, last.call);
      } else {
        NextKeepsInv(s, last);
        IdleInStep(S, s, Run(INITIAL, steps));
      }
    }
  }

  // ---------------------------------------------------------------- exactly these usernames

  /** After every step of a run: no conflict so far, and the rows mirror accounts and names. */
  ghost predicate Faithful(steps: seq<Step>) {
    forall j :: 0 <= j <= |steps| ==> FaithfulAt(Run(INITIAL, steps[..j]))
  }

  ghost predicate FaithfulAt(s: State) {
    NoClash(s.log) && NamesMirrored(s.profiles, Deliver(map[], s.log))
  }

  ghost predicate AlwaysFaithful(S: iset<Bytes>) {
    forall steps :: UsernamesFrom(S, steps) ==> Faithful(steps)
  }

  const ALICE: AccountId := [0x41]
  const BOB: AccountId := [0x42]

  /** Two calls on the empty chain, the second by Alice again or by Bob. */
  lemma TwoNames(who: AccountId, u: Bytes, w: Bytes)
    requires |u| <= MAX_USERNAME_LENGTH && |w| <= MAX_USERNAME_LENGTH && u != w
    ensures var s := Run(INITIAL, [Dispatch(SetUsername(ALICE, u)), Dispatch(SetUsername(who, w))]);
            && s.log == [Logged(1, UsernameSet(ALICE, u)), Logged(1, UsernameSet(who, w))]
            && who in s.profiles && s.profiles[who].username == w
  {
    RunTwo(INITIAL, Dispatch(SetUsername(ALICE, u)), Dispatch(SetUsername(who, w)));
    var s1 := Commit(INITIAL, SetUsername(ALICE, u));
    assert Execute(INITIAL, SetUsername(ALICE, u)) == s1;
    assert s1.index == map[u := ALICE];
    assert Validate(s1, SetUsername(who, w)).None?;
  }

  lemma DeliverTwo(e: Logged, f: Logged)
    ensures Deliver(map[], [e]) == Apply(map[], e.event)
    ensures Deliver(map[], [e, f]) == Apply(Apply(map[], e.event), f.event)
  {
    DeliverSnoc(map[], [], e);
    DeliverSnoc(map[], [e], f);
    assert [] + [e] == [e] && [e] + [f] == [e, f];
  }

  /** Two names that read the same: the second owner's event runs into the first one's row. */
  lemma IndistinctNamesClash(u: Bytes, w: Bytes)
    requires |u| <= MAX_USERNAME_LENGTH && |w| <= MAX_USERNAME_LENGTH && u != w
    requires Visible(u).Some? && Visible(u) == Visible(w)
    ensures var steps := [Dispatch(SetUsername(ALICE, u)), Dispatch(SetUsername(BOB, w))];
            var s := Run(INITIAL, steps);
            && !Faithful(steps)
            && |s.log| == 2
            && ExpectedError(Deliver(map[], s.log[..1]), s.log[1].event) == Some(Service(Conflict))
            && BOB in s.profiles && BOB !in Deliver(map[], s.log)
  {
    var steps := [Dispatch(SetUsername(ALICE, u)), Dispatch(SetUsername(BOB, w))];
    TwoNames(BOB, u, w);
    var log := Run(INITIAL, steps).log;
    DeliverTwo(log[0], log[1]);
    var v := Deliver(map[], log[..1]);
    assert log[..1] == [log[0]];
    assert v == map[ALICE := Columns(Visible(u), None, None)];
    assert HeldByOther(v, BOB, Visible(w).value) by { assert ALICE in v; }
    NoClashSnoc([log[0]], log[1]);
    assert steps[..2] == steps;
  }

  /** A name that vanishes leaves the row on the name before it. */
  lemma VanishingNameStale(u: Bytes, w: Bytes)
    requires |u| <= MAX_USERNAME_LENGTH && |w| <= MAX_USERNAME_LENGTH
    requires Visible(u).Some? && Visible(w).None?
    ensures var steps := [Dispatch(SetUsername(ALICE, u)), Dispatch(SetUsername(ALICE, w))];
            var s := Run(INITIAL, steps);
            && !Faithful(steps)
            && ALICE in s.profiles && s.profiles[ALICE].username == w
            && ALICE in Deliver(map[], s.log) && Deliver(map[], s.log)[ALICE].username == Visible(u)
  {
    var steps := [Dispatch(SetUsername(ALICE, u)), Dispatch(SetUsername(ALICE, w))];
    TwoNames(ALICE, u, w);
    var log := Run(INITIAL, steps).log;
    DeliverTwo(log[0], log[1]);
    assert Apply(map[], log[0].event)[ALICE].username == Visible(u);
    assert steps[..2] == steps;
  }

  /** Such names exist: "a", and "a" followed by NUL. */
  lemma NulNamesClash()
    ensures Visible([0x61]) == Visible([0x61, 0]) == Some([0x61])
    ensures !Faithful([Dispatch(SetUsername(ALICE, [0x61])), Dispatch(SetUsername(BOB, [0x61, 0]))])
    ensures !NamesOk(iset{[0x61], [0x61, 0]})
  {
    AsciiIsItself([0x61]);
    AsciiIsItself([0x61, 0]);
    assert StripNul([0x61, 0]) == [0x61] + StripNul([0]);
    IndistinctNamesClash([0x61], [0x61, 0]);
    var S := iset{[0x61], [0x61, 0]};
    assert Accepts(S, [0x61]) && Accepts(S, [0x61, 0]);
    assert Indistinct(S, [0x61], [0x61, 0]);
  }

  lemma UsernamesFromPrefix(S: iset<Bytes>, steps: seq<Step>, j: nat)
    requires UsernamesFrom(S, steps) && j <= |steps|
    ensures UsernamesFrom(S, steps[..j])
  {
  }

  lemma OkNamesAreFaithful(S: iset<Bytes>)
    requires NamesOk(S)
    ensures AlwaysFaithful(S)
  {
    forall steps, j | UsernamesFrom(S, steps) && 0 <= j <= |steps|
      ensures FaithfulAt(Run(INITIAL, steps[..j]))
    {
      UsernamesFromPrefix(S, steps, j);
      Simulation(S, steps[..j]);
    }
  }

  lemma VanishingNameUnfaithful(S: iset<Bytes>, u: Bytes, w: Bytes)
    requires Accepts(S, u) && Visible(u).Some? && Accepts(S, w) && Visible(w).None?
    ensures !AlwaysFaithful(S)
  {
    var steps := [Dispatch(SetUsername(ALICE, u)), Dispatch(SetUsername(ALICE, w))];
    VanishingNameStale(u, w);
    assert UsernamesFrom(S, steps);
  }

  lemma IndistinctNamesUnfaithful(S: iset<Bytes>, u: Bytes, w: Bytes)
    requires Indistinct(S, u, w) && Visible(u).Some?
    ensures !AlwaysFaithful(S)
  {
    var steps := [Dispatch(SetUsername(ALICE, u)), Dispatch(SetUsername(BOB, w))];
    IndistinctNamesClash(u, w);
    assert UsernamesFrom(S, steps);
  }

  lemma OtherNamesAreNot(S: iset<Bytes>)
    requires !NamesOk(S)
    ensures !AlwaysFaithful(S)
  {
    var u :| Accepts(S, u) && Visible(u).Some?;
    if w :| Accepts(S, w) && Visible(w).None? {
      VanishingNameUnfaithful(S, u, w);
    } else {
      var x, y :| Indistinct(S, x, y);
      IndistinctNamesUnfaithful(S, x, y);
    }
  }

  /** The table follows every run over these usernames if and only if they keep their identity. */
  lemma FaithfulIffNamesOk(S: iset<Bytes>)
    ensures AlwaysFaithful(S) <==> NamesOk(S)
  {
    if NamesOk(S) {
      OkNamesAreFaithful(S);
    } else {
      OtherNamesAreNot(S);
    }
  }

  /** Non-empty valid UTF-8 without NUL qualifies. */
  ghost function CleanNames(): iset<Bytes> {
    iset u | u != [] && CleanText(u)
  }

  lemma CleanNamesAreOk()
    ensures NamesOk(CleanNames())
  {
    var S := CleanNames();
    forall u | Accepts(S, u)
      ensures Visible(u).Some?
    {
      CleanTextNotEmpty(u);
    }
    forall u, w
      ensures !Indistinct(S, u, w)
    {
      if Indistinct(S, u, w) {
        CleanTextInjective(u, w);
      }
    }
  }

  // ---------------------------------------------------------------- from the calls to the table

  /** The pallet's part of the blocks is the log of the run. */
  ghost predicate BlocksHold(blocks: seq<Block>, log: Log) {
    var events := OfPallet(Flatten(blocks));
    && |events| == |log|
    && forall i :: 0 <= i < |log| ==> Carries(JobOf(events[i]), log[i])
  }

  function BlockOf(l: Logged): Block {
    Block(l.block, "", [EventRecord(SECTION, MethodName(l.event), EventJson(l.event))])
  }

  /** Blocks for a log: one for each event, in the array form. */
  function BlocksOf(log: Log): seq<Block> {
    if log == [] then [] else BlocksOf(log[..|log| - 1]) + [BlockOf(log[|log| - 1])]
  }

  lemma OneMoreBlock(blocks: seq<Block>, l: Logged)
    ensures OfPallet(Flatten(blocks + [BlockOf(l)])) ==
            OfPallet(Flatten(blocks)) + [Located(l.block, "", BlockOf(l).records[0])]
  {
    var located := Located(l.block, "", BlockOf(l).records[0]);
    FlattenSnoc(blocks, BlockOf(l));
    assert Locate(l.block, "", BlockOf(l).records) == [located];
    FilterSnoc(Flatten(blocks), located, IsOfPallet);
  }

  /** Every log, so every run, has blocks that hold it. */
  lemma {:induction false} EveryLogHasBlocks(log: Log)
    ensures BlocksHold(BlocksOf(log), log)
  {
    if log != [] {
      EveryLogHasBlocks(log[..|log| - 1]);
      OneMoreBlock(BlocksOf(log[..|log| - 1]), log[|log| - 1]);
    }
  }

  /** Calls, blocks, queue, worker and table together, at any lag k: the table is that of an
      earlier state of the chain, and no profile event has failed. */
  lemma TableFollowsChain(S: iset<Bytes>, steps: seq<Step>, blocks: seq<Block>, k: nat) returns (j: nat)
    requires NamesOk(S) && UsernamesFrom(S, steps)
    requires BlocksHold(blocks, Run(INITIAL, steps).log)
    requires k <= |QueueAfter(blocks)|
    ensures j <= |steps|
    ensures |Run(INITIAL, steps[..j]).log| == k
    ensures var s, db := Run(INITIAL, steps[..j]), DeliverJobs(EMPTY, QueueAfter(blocks)[..k]);
            TableOk(db) && NamesMirrored(s.profiles, View(db)) && DetailsMirrored(s, View(db))
    ensures k < |QueueAfter(blocks)| ==>
              var db, job := DeliverJobs(EMPTY, QueueAfter(blocks)[..k]), QueueAfter(blocks)[k];
              Handle(db, job).error == if job.name == "StatsUpdated" then Some(TypeError) else None
  {
    QueueCarriesLog(S, steps, blocks);
    j := PrefixIsEarlierLog(steps, k);
    TableAtLag(S, steps, QueueAfter(blocks), j, k);
    if k < |QueueAfter(blocks)| {
      NextJobOutcome(S, steps, QueueAfter(blocks), k);
    }
  }

  lemma QueueCarriesLog(S: iset<Bytes>, steps: seq<Step>, blocks: seq<Block>)
    requires NamesOk(S) && UsernamesFrom(S, steps)
    requires BlocksHold(blocks, Run(INITIAL, steps).log)
    ensures CarriesAll(QueueAfter(blocks), Run(INITIAL, steps).log)
  {
    QueueIsFilteredLog(blocks);
    Simulation(S, steps);
  }

  lemma TableAtLag(S: iset<Bytes>, steps: seq<Step>, jobs: seq<Job>, j: nat, k: nat)
    requires NamesOk(S) && UsernamesFrom(S, steps) && CarriesAll(jobs, Run(INITIAL, steps).log)
    requires j <= |steps| && k <= |jobs|
    requires Run(INITIAL, steps[..j]).log == Run(INITIAL, steps).log[..k]
    ensures var s, db := Run(INITIAL, steps[..j]), DeliverJobs(EMPTY, jobs[..k]);
            TableOk(db) && NamesMirrored(s.profiles, View(db)) && DetailsMirrored(s, View(db))
  {
    UsernamesFromPrefix(S, steps, j);
    Simulation(S, steps[..j]);
    DeliverJobsRefines(jobs[..k], Run(INITIAL, steps).log[..k]);
  }

  lemma NextJobOutcome(S: iset<Bytes>, steps: seq<Step>, jobs: seq<Job>, k: nat)
    requires NamesOk(S) && UsernamesFrom(S, steps) && CarriesAll(jobs, Run(INITIAL, steps).log)
    requires k < |jobs|
    ensures Handle(DeliverJobs(EMPTY, jobs[..k]), jobs[k]).error ==
            if jobs[k].name == "StatsUpdated" then Some(TypeError) else None
  {
    var log := Run(INITIAL, steps).log;
    Simulation(S, steps);
    NoClashIff(log);
    assert !ClashesNext(log[..k], log[k]);
    DeliverJobsRefines(jobs[..k], log[..k]);
    HandleRefines(DeliverJobs(EMPTY, jobs[..k]), jobs[k], log[k]);
  }

  // ---------------------------------------------------------------- other delivery orders

  lemma AllNamesBoundedInAnyOrder(other: Log, log: Log)
    requires AllNamesBounded(log) && KeepsOrder(other, log)
    ensures AllNamesBounded(other)
  {
    forall i | 0 <= i < |other|
      ensures NameBounded(other[i].event)
    {
      SameEvents(other, log, other[i]);
    }
  }

  /** Jobs that carry the events of a log, each with its own block. */
  ghost predicate JobsOfLog(jobs: seq<Job>, log: Log) {
    && |jobs| == |log|
    && forall i :: 0 <= i < |log| ==> Carries(jobs[i], log[i])
  }

  /** Jobs delivered in another order and without a conflict still give the chain's rows. */
  lemma ConflictFreeOrderFollowsChain(S: iset<Bytes>, steps: seq<Step>, jobs: seq<Job>, other: Log)
    requires NamesOk(S) && UsernamesFrom(S, steps)
    requires KeepsOrder(other, Run(INITIAL, steps).log) && JobsOfLog(jobs, other) && ConflictFree(jobs)
    ensures var s, db := Run(INITIAL, steps), DeliverJobs(EMPTY, jobs);
            TableOk(db) && NamesMirrored(s.profiles, View(db)) && DetailsMirrored(s, View(db))
  {
    Simulation(S, steps);
    AllNamesBoundedInAnyOrder(other, Run(INITIAL, steps).log);
    ConflictFreeIffNoClash(jobs, other);
    ReorderingConverges(Run(INITIAL, steps).log, other);
    DeliverJobsRefines(jobs, other);
  }

  /** When no two accounts bring the same name, any such order gives the chain's rows and meets
      no conflict. */
  lemma ReorderedDeliveryFollowsChain(S: iset<Bytes>, steps: seq<Step>, jobs: seq<Job>, other: Log)
    requires NamesOk(S) && UsernamesFrom(S, steps)
    requires KeepsOrder(other, Run(INITIAL, steps).log) && JobsOfLog(jobs, other)
    requires !SharesName(Run(INITIAL, steps).log)
    ensures ConflictFree(jobs)
    ensures var s, db := Run(INITIAL, steps), DeliverJobs(EMPTY, jobs);
            TableOk(db) && NamesMirrored(s.profiles, View(db)) && DetailsMirrored(s, View(db))
  {
    var log := Run(INITIAL, steps).log;
    Simulation(S, steps);
    AllNamesBoundedInAnyOrder(other, log);
    UnsharedOrderSafe(other, log);
    ConflictFreeIffNoClash(jobs, other);
    ConflictFreeOrderFollowsChain(S, steps, jobs, other);
  }

  /** Without that, a row can be lost: Bob takes a name Alice gave up, and his event comes first. */
  lemma ReorderingCanLoseRow(u: Bytes, w: Bytes)
    requires Visible(u).Some? && Visible(w).Some? && Visible(u) != Visible(w)
    ensures var a1, a2, b := Logged(1, UsernameSet(ALICE, u)), Logged(1, UsernameSet(ALICE, w)),
                             Logged(1, UsernameSet(BOB, u));
            && NoClash([a1, a2, b]) && !NoClash([a1, b, a2])
            && KeepsOrder([a1, b, a2], [a1, a2, b])
            && BOB in Deliver(map[], [a1, a2, b]) && BOB !in Deliver(map[], [a1, b, a2])
  {
    var a1, a2, b := Logged(1, UsernameSet(ALICE, u)), Logged(1, UsernameSet(ALICE, w)),
                     Logged(1, UsernameSet(BOB, u));
    assert [a1] + [a2] == [a1, a2] && [a1] + [b] == [a1, b];
    assert [a1, a2] + [b] == [a1, a2, b] && [a1, b] + [a2] == [a1, b, a2];
    SwapKeepsOrder([a1], a2, b);
    NameGivenUp(a1, a2, b);
    NameStillHeld(a1, b, a2);
  }

  lemma OneEvent(l: Logged)
    requires l.event.UsernameSet?
    ensures NoClash([l]) && Deliver(map[], [l]) == map[l.event.account := ChangeOf(l.event)]
  {
    assert [] + [l] == [l];
    NoClashSnoc([], l);
    DeliverSnoc(map[], [], l);
  }

  lemma NameGivenUp(a1: Logged, a2: Logged, b: Logged)
    requires a1.event.UsernameSet? && a2.event.UsernameSet? && b.event.UsernameSet?
    requires a1.event.account == a2.event.account != b.event.account
    requires ChangeOf(a1.event).username == ChangeOf(b.event).username != ChangeOf(a2.event).username
    requires ChangeOf(a2.event).username.Some?
    ensures NoClash([a1] + [a2] + [b]) && b.event.account in Deliver(map[], [a1] + [a2] + [b])
  {
    OneEvent(a1);
    NoClashSnoc([a1], a2);
    NoClashSnoc([a1] + [a2], b);
    DeliverSnoc(map[], [a1], a2);
    DeliverSnoc(map[], [a1] + [a2], b);
    assert Deliver(map[], [a1] + [a2]) == map[a1.event.account := ChangeOf(a2.event)];
  }

  lemma NameStillHeld(a1: Logged, b: Logged, a2: Logged)
    requires a1.event.UsernameSet? && a2.event.UsernameSet? && b.event.UsernameSet?
    requires a1.event.account == a2.event.account != b.event.account
    requires ChangeOf(a1.event).username == ChangeOf(b.event).username && ChangeOf(b.event).username.Some?
    ensures !NoClash([a1] + [b] + [a2]) && b.event.account !in Deliver(map[], [a1] + [b] + [a2])
  {
    OneEvent(a1);
    assert a1.event.account in Deliver(map[], [a1]);
    NoClashSnoc([a1], b);
    NoClashSnoc([a1] + [b], a2);
    DeliverSnoc(map[], [a1], b);
    DeliverSnoc(map[], [a1] + [b], a2);
  }
}
