/** What the event log of the pallet tells: it is complete, account by account. */
module PalletLog {
  import opened Prelude
  import opened UserProfile
  import opened PalletRuns

  type Log = seq<Logged>

  predicate IsOf(l: Logged, a: JsString) { l.event.account == a }

  /** The events of one account, in order. */
  function Own(log: Log, a: JsString): Log {
    Filter(log, (l: Logged) => IsOf(l, a))
  }

  lemma OwnSnoc(log: Log, l: Logged, a: JsString)
    ensures Own(log + [l], a) == if IsOf(l, a) then Own(log, a) + [l] else Own(log, a)
  {
    FilterSnoc(log, l, (l: Logged) => IsOf(l, a));
  }

  // ---------------------------------------------------------------- replaying one account

  /** All the chain holds about one account. */
  datatype Record = Record(profile: Option<Profile>, stats: Option<Stats>)

  function RecordOf(s: State, a: AccountId): Record {
    Record(Lookup(s.profiles, a), Lookup(s.stats, a))
  }

  function Replay(r: Record, l: Logged): Record {
    var e := l.event;
    match e
    case UsernameSet(a, u) =>
      if r.profile.Some?
      then r.(profile := Some(Profile(a, u, None, None, r.profile.value.createdAt)))
      else Record(Some(Profile(a, u, None, None, l.block)), Some(NO_STATS))
    case ProfileUpdated(a, u, avatar, bio) =>
      var p := Or(r.profile, Profile(a, [], None, None, l.block));
      Record(Some(Profile(a, Or(u, p.username), Patched(p.avatar, avatar), Patched(p.bio, bio), p.createdAt)),
             Some(Or(r.stats, NO_STATS)))
    case StatsUpdated(a, stats) => r.(stats := Some(stats))
  }

  /** Rebuilds a record from the events of its account alone. */
  function Rebuild(own: Log): Record {
    if own == [] then Record(None, None) else Replay(Rebuild(own[..|own| - 1]), own[|own| - 1])
  }

  lemma RebuildSnoc(own: Log, l: Logged)
    ensures Rebuild(own + [l]) == Replay(Rebuild(own), l)
  {
    assert (own + [l])[..|own|] == own;
  }

  /** The log gains one event, with the arguments of the call as they were given. */
  lemma CommitLogs(s: State, call: Call)
    ensures Commit(s, call).log == s.log + [Logged(s.block,
              match call
              case SetUsername(who, u) => UsernameSet(who, u)
              case UpdateProfile(who, u, avatar, bio) => ProfileUpdated(who, u, avatar, bio)
              case UpdateStats(who, _, _, _, _) => StatsUpdated(who, Commit(s, call).stats[who]))]
  {
  }

  /** An accepted call logs one event, of its caller, and that event alone explains its effect. */
  lemma CommitIsReplayed(s: State, call: Call)
    requires Inv(s) && Validate(s, call).None?
    ensures var t := Commit(s, call);
            && |t.log| == |s.log| + 1
            && t.log == s.log + [t.log[|s.log|]]
            && t.log[|s.log|].event.account == call.who
            && RecordOf(t, call.who) == Replay(RecordOf(s, call.who), t.log[|s.log|])
            && forall a :: a != call.who ==> RecordOf(t, a) == RecordOf(s, a)
  {
  }

  lemma RebuildFollowsCommit(s: State, call: Call, a: AccountId)
    requires Inv(s) && Validate(s, call).None? && Rebuild(Own(s.log, a)) == RecordOf(s, a)
    ensures Rebuild(Own(Commit(s, call).log, a)) == RecordOf(Commit(s, call), a)
  {
    CommitIsReplayed(s, call);
    var l := Commit(s, call).log[|s.log|];
    OwnSnoc(s.log, l, a);
    RebuildSnoc(Own(s.log, a), l);
  }

  lemma {:induction false} LogIsComplete(steps: seq<Step>, a: AccountId)
    ensures var s := Run(INITIAL, steps); Rebuild(Own(s.log, a)) == RecordOf(s, a)
  {
    if steps != [] {
      var s, last := Run(INITIAL, steps[..|steps| - 1]), steps[|steps| - 1];
      LogIsComplete(steps[..|steps| - 1], a);
      Reachable(steps[..|steps| - 1]);
      if last.Dispatch? && Validate(s, last.call).None? {
        RebuildFollowsCommit(s, last.call, a);
      }
    }
  }

  // ---------------------------------------------------------------- the block of creation

  function FirstProfileBlock(log: Log, a: AccountId): Option<nat> {
    if log == [] then None
    else if log[0].event.account == a && !log[0].event.StatsUpdated? then Some(log[0].block)
    else FirstProfileBlock(log[1..], a)
  }

  lemma {:induction false} FirstProfileBlockSnoc(log: Log, l: Logged, a: AccountId)
    ensures FirstProfileBlock(log + [l], a) ==
            if FirstProfileBlock(log, a).None? && l.event.account == a && !l.event.StatsUpdated? then Some(l.block)
            else FirstProfileBlock(log, a)
  {
    if log != [] {
      assert (log + [l])[1..] == log[1..] + [l];
      FirstProfileBlockSnoc(log[1..], l, a);
    }
  }

  lemma {:induction false} CreatedAtFirstProfileEvent(steps: seq<Step>, a: AccountId)
    ensures var s := Run(INITIAL, steps);
            FirstProfileBlock(s.log, a) == if a in s.profiles then Some(s.profiles[a].createdAt) else None
  {
    if steps != [] {
      var s := Run(INITIAL, steps[..|steps| - 1]);
      CreatedAtFirstProfileEvent(steps[..|steps| - 1], a);
      if steps[|steps| - 1].Dispatch? && Validate(s, steps[|steps| - 1].call).None? {
        FirstProfileBlockSnoc(s.log, Run(INITIAL, steps).log[|s.log|], a);
      }
    }
  }

  // ---------------------------------------------------------------- every lag is a state

  /** Each prefix of the log is the whole log of an earlier state of the same run. */
  lemma {:induction false} PrefixIsEarlierLog(steps: seq<Step>, k: nat) returns (j: nat)
    requires k <= |Run(INITIAL, steps).log|
    ensures j <= |steps|
    ensures Run(INITIAL, steps[..j]).log == Run(INITIAL, steps).log[..k]
  {
    if k == |Run(INITIAL, steps).log| {
      j := |steps|;
      assert steps[..j] == steps;
    } else {
      var shorter := steps[..|steps| - 1];
      NextExtends(Run(INITIAL, shorter), steps[|steps| - 1]);
      j := PrefixIsEarlierLog(shorter, k);
      assert shorter[..j] == steps[..j];
      assert Run(INITIAL, shorter).log[..k] == Run(INITIAL, steps).log[..k];
    }
  }

  // ---------------------------------------------------------------- stats, from the calls alone

  datatype Field = Races | Wins | Distance | Rewards

  function Stored(s: Stats, f: Field): nat {
    match f
    case Races => s.totalRaces
    case Wins => s.wins
    case Distance => s.totalDistance
    case Rewards => s.totalRewards
  }

  /** What a call of the account supplies for a field. */
  function Supplied(call: Call, a: AccountId, f: Field): Option<nat> {
    if !call.UpdateStats? || call.who != a then None
    else match f
      case Races => if call.races.Some? then Some(call.races.value) else None
      case Wins => if call.wins.Some? then Some(call.wins.value) else None
      case Distance => if call.distance.Some? then Some(call.distance.value) else None
      case Rewards => if call.rewards.Some? then Some(call.rewards.value) else None
  }

  /** The value supplied last, or 0. */
  function LastSupplied(calls: seq<Call>, a: AccountId, f: Field): nat {
    if calls == [] then 0
    else if Supplied(calls[|calls| - 1], a, f).Some? then Supplied(calls[|calls| - 1], a, f).value
    else LastSupplied(calls[..|calls| - 1], a, f)
  }

  /** The calls of a run that succeed, in order. */
  function AcceptedCalls(steps: seq<Step>): seq<Call> {
    if steps == [] then []
    else
      var before := steps[..|steps| - 1];
      var last := steps[|steps| - 1];
      if last.Dispatch? && Validate(Run(INITIAL, before), last.call).None?
      then AcceptedCalls(before) + [last.call] else AcceptedCalls(before)
  }

  /** The position of the account's first profile call, or the length if there is none. */
  function FirstProfileCall(calls: seq<Call>, a: AccountId): (n: nat)
    ensures n <= |calls|
    ensures forall i :: 0 <= i < n ==> calls[i].who != a || calls[i].UpdateStats?
    ensures n < |calls| ==> calls[n].who == a && !calls[n].UpdateStats?
  {
    if calls == [] || (calls[0].who == a && !calls[0].UpdateStats?) then 0
    else 1 + FirstProfileCall(calls[1..], a)
  }

  /** Stats count from the account's first profile call if that is a set_username, which resets
      them, and otherwise from the start. A later set_username resets nothing. */
  function ResetPoint(calls: seq<Call>, a: AccountId): (n: nat)
    ensures n <= |calls|
  {
    var first := FirstProfileCall(calls, a);
    if first < |calls| && calls[first].SetUsername? then first else 0
  }

  lemma ResetPointSnoc(calls: seq<Call>, c: Call, a: AccountId)
    ensures var first := FirstProfileCall(calls, a);
            ResetPoint(calls + [c], a) ==
            if first == |calls| && c.who == a && c.SetUsername? then |calls| else ResetPoint(calls, a)
    ensures FirstProfileCall(calls + [c], a) ==
            if FirstProfileCall(calls, a) == |calls| && (c.who != a || c.UpdateStats?) then |calls| + 1
            else FirstProfileCall(calls, a)
  {
    var n, m := FirstProfileCall(calls, a), FirstProfileCall(calls + [c], a);
    assert forall i :: 0 <= i < |calls| ==> (calls + [c])[i] == calls[i];
    if n < m {
      assert (calls + [c])[n].who != a || (calls + [c])[n].UpdateStats?;
    }
  }

  lemma LastSuppliedSnoc(calls: seq<Call>, c: Call, a: AccountId, f: Field)
    ensures LastSupplied(calls + [c], a, f) == Or(Supplied(c, a, f), LastSupplied(calls, a, f))
  {
    assert (calls + [c])[..|calls|] == calls;
  }

  /** The stored value of a field, 0 while the account has no stats. */
  function StoredIn(s: State, a: AccountId, f: Field): nat {
    if a in s.stats then Stored(s.stats[a], f) else 0
  }

  lemma CommitStores(s: State, call: Call, a: AccountId, f: Field)
    ensures StoredIn(Commit(s, call), a, f) ==
            if call.who == a && call.SetUsername? && a !in s.profiles then 0
            else Or(Supplied(call, a, f), StoredIn(s, a, f))
    ensures a in Commit(s, call).profiles <==> a in s.profiles || (call.who == a && !call.UpdateStats?)
  {
  }

  /** One more call: a first set_username makes the count start over, any other call adds to it. */
  lemma LastSuppliedSinceReset(calls: seq<Call>, c: Call, a: AccountId, f: Field)
    ensures LastSupplied((calls + [c])[ResetPoint(calls + [c], a)..], a, f) ==
            if c.who == a && c.SetUsername? && FirstProfileCall(calls, a) == |calls| then 0
            else Or(Supplied(c, a, f), LastSupplied(calls[ResetPoint(calls, a)..], a, f))
  {
    ResetPointSnoc(calls, c, a);
    var n := ResetPoint(calls + [c], a);
    assert (calls + [c])[n..] == calls[n..] + [c];
    LastSuppliedSnoc(calls[n..], c, a, f);
  }

  lemma {:induction false} StatsAreLastSupplied(steps: seq<Step>, a: AccountId, f: Field)
    ensures var s, calls := Run(INITIAL, steps), AcceptedCalls(steps);
            && (FirstProfileCall(calls, a) < |calls| <==> a in s.profiles)
            && LastSupplied(calls[ResetPoint(calls, a)..], a, f) == StoredIn(s, a, f)
  {
    if steps != [] {
      var before, last := steps[..|steps| - 1], steps[|steps| - 1];
      var s := Run(INITIAL, before);
      StatsAreLastSupplied(before, a, f);
      if last.Dispatch? && Validate(s, last.call).None? {
        CommitStores(s, last.call, a, f);
        ResetPointSnoc(AcceptedCalls(before), last.call, a);
        LastSuppliedSinceReset(AcceptedCalls(before), last.call, a, f);
      } else {
        assert Run(INITIAL, steps).profiles == s.profiles && Run(INITIAL, steps).stats == s.stats;
      }
    }
  }
}
