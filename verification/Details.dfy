/** Avatar and bio: when the table shows what the chain no longer holds. */
module Details {
  import opened Prelude
  import opened Text
  import opened UserProfile
  import opened PalletRuns
  import opened PalletLog
  import opened BlockchainService
  import opened Users
  import opened Projection
  import opened Delivery
  import opened Simulation

  // ---------------------------------------------------------------- one call

  datatype Detail = Avatar | Bio

  function OnChain(s: State, a: AccountId, d: Detail): Option<JsString> {
    if a !in s.profiles then None
    else VisibleOption(if d.Avatar? then s.profiles[a].avatar else s.profiles[a].bio)
  }

  function InTable(v: Rows, a: AccountId, d: Detail): Option<JsString> {
    if a !in v then None else if d.Avatar? then v[a].avatar else v[a].bio
  }

  /** A call that leaves the chain nothing to show for a detail. */
  predicate Clears(call: Call, d: Detail) {
    match call
    case SetUsername(_, _) => true
    case UpdateProfile(_, _, avatar, bio) =>
      var patch := if d.Avatar? then avatar else bio;
      patch.Some? && VisibleOption(patch.value).None?
    case UpdateStats(_, _, _, _, _) => false
  }

  /** What a call newly gives the table to show for a detail. */
  function Shown(call: Call, d: Detail): Option<JsString> {
    if !call.UpdateProfile? then None else VisiblePatch(if d.Avatar? then call.avatar else call.bio)
  }

  lemma OnChainAfter(s: State, call: Call, d: Detail)
    ensures OnChain(Commit(s, call), call.who, d) ==
            if Clears(call, d) then None
            else if Shown(call, d).Some? then Shown(call, d)
            else OnChain(s, call.who, d)
  {
  }

  lemma InTableAfter(s: State, v: Rows, call: Call, d: Detail)
    ensures InTable(v[call.who := Merge(RowOf(v, call.who), ChangeOf(EventOf(s, call)))], call.who, d) ==
            if Shown(call, d).Some? then Shown(call, d) else InTable(v, call.who, d)
  {
  }

  /** A detail goes stale exactly when its owner clears a value the table shows. */
  lemma DetailGoesStaleIff(S: iset<Bytes>, s: State, call: Call, v: Rows, d: Detail)
    requires NamesOk(S) && Simulates(S, s, v) && SubmitsOnly(S, call) && Validate(s, call).None?
    requires OnChain(s, call.who, d) == InTable(v, call.who, d)
    ensures OnChain(Commit(s, call), call.who, d) != InTable(Apply(v, EventOf(s, call)), call.who, d) <==>
            Clears(call, d) && InTable(v, call.who, d).Some?
  {
    RowFollows(S, s, call, v);
    OnChainAfter(s, call, d);
    InTableAfter(s, v, call, d);
  }

  // ---------------------------------------------------------------- whole runs, from the calls alone

  /** A call of the account that gives the table a value. */
  predicate Gives(call: Call, a: AccountId, d: Detail) {
    call.who == a && Shown(call, d).Some?
  }

  /** A call of the account that leaves the chain nothing to show. */
  predicate Takes(call: Call, a: AccountId, d: Detail) {
    call.who == a && Clears(call, d)
  }

  /** The value given last. */
  function LastGiven(calls: seq<Call>, a: AccountId, d: Detail): Option<JsString> {
    if calls == [] then None
    else
      var last := calls[|calls| - 1];
      if Gives(last, a, d) then Shown(last, d) else LastGiven(calls[..|calls| - 1], a, d)
  }

  /** The value given last, unless it was taken away since. */
  function LastKept(calls: seq<Call>, a: AccountId, d: Detail): Option<JsString> {
    if calls == [] then None
    else
      var last := calls[|calls| - 1];
      if Takes(last, a, d) then None
      else if Gives(last, a, d) then Shown(last, d)
      else LastKept(calls[..|calls| - 1], a, d)
  }

  /** A value was given, then taken away, and none given since. */
  ghost predicate Stale(calls: seq<Call>, a: AccountId, d: Detail) {
    exists i, j :: 0 <= i < j < |calls| && Gives(calls[i], a, d) && TakenForGood(calls, j, a, d)
  }

  ghost predicate TakenForGood(calls: seq<Call>, j: nat, a: AccountId, d: Detail)
    requires j < |calls|
  {
    Takes(calls[j], a, d) && forall k :: j < k < |calls| ==> !Gives(calls[k], a, d)
  }

  lemma {:induction false} GivenIff(calls: seq<Call>, a: AccountId, d: Detail)
    ensures LastGiven(calls, a, d).Some? <==> exists i :: 0 <= i < |calls| && Gives(calls[i], a, d)
  {
    if calls != [] {
      var before, last := calls[..|calls| - 1], calls[|calls| - 1];
      GivenIff(before, a, d);
      assert forall i :: 0 <= i < |before| ==> before[i] == calls[i];
    }
  }

  lemma NotStaleAfterGiving(calls: seq<Call>, c: Call, a: AccountId, d: Detail)
    requires Gives(c, a, d)
    ensures !Stale(calls + [c], a, d)
  {
    assert (calls + [c])[|calls|] == c;
  }

  lemma StaleAfterTaking(calls: seq<Call>, c: Call, a: AccountId, d: Detail)
    requires Takes(c, a, d)
    ensures Stale(calls + [c], a, d) <==> LastGiven(calls, a, d).Some?
  {
    var all := calls + [c];
    assert all[|calls|] == c && forall i :: 0 <= i < |calls| ==> all[i] == calls[i];
    GivenIff(calls, a, d);
    assert TakenForGood(all, |calls|, a, d);
  }

  lemma StaleAfterOther(calls: seq<Call>, c: Call, a: AccountId, d: Detail)
    requires !Takes(c, a, d) && !Gives(c, a, d)
    ensures Stale(calls + [c], a, d) <==> Stale(calls, a, d)
  {
    var all := calls + [c];
    assert all[|calls|] == c && forall i :: 0 <= i < |calls| ==> all[i] == calls[i];
    assert forall j :: 0 <= j < |calls| ==> (TakenForGood(all, j, a, d) <==> TakenForGood(calls, j, a, d));
  }

  /** The last call decides, or nothing changed. */
  lemma StaleSnoc(calls: seq<Call>, c: Call, a: AccountId, d: Detail)
    ensures Stale(calls + [c], a, d) <==>
            if Gives(c, a, d) then false
            else if Takes(c, a, d) then LastGiven(calls, a, d).Some?
            else Stale(calls, a, d)
  {
    if Gives(c, a, d) {
      NotStaleAfterGiving(calls, c, a, d);
    } else if Takes(c, a, d) {
      StaleAfterTaking(calls, c, a, d);
    } else {
      StaleAfterOther(calls, c, a, d);
    }
  }

  lemma GivenSnoc(calls: seq<Call>, c: Call, a: AccountId, d: Detail)
    ensures LastGiven(calls + [c], a, d) == if Gives(c, a, d) then Shown(c, d) else LastGiven(calls, a, d)
    ensures LastKept(calls + [c], a, d) ==
            if Takes(c, a, d) then None else if Gives(c, a, d) then Shown(c, d) else LastKept(calls, a, d)
  {
    assert (calls + [c])[..|calls|] == calls;
  }

  lemma {:induction false} StaleIff(calls: seq<Call>, a: AccountId, d: Detail)
    ensures LastKept(calls, a, d).None? || LastKept(calls, a, d) == LastGiven(calls, a, d)
    ensures LastKept(calls, a, d) != LastGiven(calls, a, d) <==> Stale(calls, a, d)
  {
    if calls != [] {
      var before, last := calls[..|calls| - 1], calls[|calls| - 1];
      StaleIff(before, a, d);
      StaleSnoc(before, last, a, d);
      GivenSnoc(before, last, a, d);
      assert calls == before + [last];
    }
  }

  lemma OtherAccountKept(s: State, call: Call, v: Rows, a: AccountId, d: Detail)
    requires a != call.who
    ensures OnChain(Commit(s, call), a, d) == OnChain(s, a, d)
    ensures InTable(Apply(v, EventOf(s, call)), a, d) == InTable(v, a, d)
  {
  }

  /** The account's own call, on the chain and in the table. */
  lemma OwnCallShows(S: iset<Bytes>, s: State, call: Call, v: Rows, d: Detail)
    requires NamesOk(S) && Simulates(S, s, v) && SubmitsOnly(S, call) && Validate(s, call).None?
    ensures OnChain(Commit(s, call), call.who, d) ==
            if Clears(call, d) then None
            else if Shown(call, d).Some? then Shown(call, d)
            else OnChain(s, call.who, d)
    ensures InTable(Apply(v, EventOf(s, call)), call.who, d) ==
            if Shown(call, d).Some? then Shown(call, d) else InTable(v, call.who, d)
  {
    RowFollows(S, s, call, v);
    OnChainAfter(s, call, d);
    InTableAfter(s, v, call, d);
  }

  /** The table shows the value given last, the chain the same unless it was taken away. */
  lemma {:induction false} DetailsOverRuns(S: iset<Bytes>, steps: seq<Step>, a: AccountId, d: Detail)
    requires NamesOk(S) && UsernamesFrom(S, steps)
    ensures var s, calls := Run(INITIAL, steps), AcceptedCalls(steps);
            && InTable(Deliver(map[], s.log), a, d) == LastGiven(calls, a, d)
            && OnChain(s, a, d) == LastKept(calls, a, d)
  {
    if steps != [] {
      var before, last := steps[..|steps| - 1], steps[|steps| - 1];
      var s, t := Run(INITIAL, before), Run(INITIAL, steps);
      var v := Deliver(map[], s.log);
      DetailsOverRuns(S, before, a, d);
      Simulation.Simulation(S, before);
      if last.Dispatch? && Validate(s, last.call).None? {
        CommitIsReplayed(s, last.call);
        DeliverSnoc(map[], s.log, t.log[|s.log|]);
        GivenSnoc(AcceptedCalls(before), last.call, a, d);
        if last.call.who == a {
          OwnCallShows(S, s, last.call, v, d);
        } else {
          OtherAccountKept(s, last.call, v, a, d);
        }
      } else {
        assert t.profiles == s.profiles && t.log == s.log;
      }
    }
  }

  /** Chain and table disagree on a detail exactly when it was given, then taken away, and not
      given since. */
  lemma DetailStaleIff(S: iset<Bytes>, steps: seq<Step>, jobs: seq<Job>, a: AccountId, d: Detail)
    requires NamesOk(S) && UsernamesFrom(S, steps) && JobsOfLog(jobs, Run(INITIAL, steps).log)
    ensures OnChain(Run(INITIAL, steps), a, d) != InTable(View(DeliverJobs(EMPTY, jobs)), a, d) <==>
            Stale(AcceptedCalls(steps), a, d)
  {
    Simulation.Simulation(S, steps);
    DeliverJobsRefines(jobs, Run(INITIAL, steps).log);
    DetailsOverRuns(S, steps, a, d);
    StaleIff(AcceptedCalls(steps), a, d);
  }

  // ---------------------------------------------------------------- a run that ends stale

  lemma AcceptedTwo(first: Call, second: Call)
    requires Validate(INITIAL, first).None? && Validate(Commit(INITIAL, first), second).None?
    ensures AcceptedCalls([Dispatch(first), Dispatch(second)]) == [first, second]
  {
    var steps := [Dispatch(first), Dispatch(second)];
    assert steps[..1] == [Dispatch(first)] && [Dispatch(first)][..0] == [];
    assert Run(INITIAL, [Dispatch(first)]) == Next(Run(INITIAL, []), Dispatch(first));
    assert AcceptedCalls([Dispatch(first)]) == AcceptedCalls([]) + [first];
  }

  /** An avatar, then set_username with the same name: gone on chain, kept in the table. */
  lemma AvatarEndsStale()
    ensures var s := Run(INITIAL, [Dispatch(UpdateProfile(ALICE, Some([0x61]), Some(Some([0x62])), None)),
                                   Dispatch(SetUsername(ALICE, [0x61]))]);
            OnChain(s, ALICE, Avatar) == None && InTable(Deliver(map[], s.log), ALICE, Avatar) == Some([0x62])
  {
    var first, second := UpdateProfile(ALICE, Some([0x61]), Some(Some([0x62])), None), SetUsername(ALICE, [0x61]);
    var S := iset{[0x61]};
    AsciiIsItself([0x61]);
    AsciiIsItself([0x62]);
    assert Visible([0x61]) == Some([0x61]) && Visible([0x62]) == Some([0x62]);
    assert NamesOk(S);
    AcceptedTwo(first, second);
    DetailsOverRuns(S, [Dispatch(first), Dispatch(second)], ALICE, Avatar);
    GivenSnoc([], first, ALICE, Avatar);
    GivenSnoc([first], second, ALICE, Avatar);
    assert [] + [first] == [first] && [first] + [second] == [first, second];
  }
}
