/** Runs of the pallet: what every reachable state keeps. */
module PalletRuns {
  import opened Prelude
  import opened UserProfile

  datatype Step = NextBlock | Dispatch(call: Call)

  function Next(s: State, step: Step): State {
    match step
    case NextBlock => s.(block := s.block + 1)
    case Dispatch(call) => Execute(s, call)
  }

  function Run(s: State, steps: seq<Step>): State {
    if steps == [] then s else Next(Run(s, steps[..|steps| - 1]), steps[|steps| - 1])
  }

  lemma RunTwo(s: State, first: Step, second: Step)
    ensures Run(s, [first, second]) == Next(Next(s, first), second)
  {
    assert [first, second][..1] == [first];
    assert [first][..0] == [];
    assert Run(s, [first]) == Next(Run(s, []), first);
  }

  // ---------------------------------------------------------------- the invariant

  /** Every entry of the index, that of the empty name too, is the name of its account. */
  ghost predicate IndexSound(s: State) {
    forall u :: u in s.index ==> s.index[u] in s.profiles && s.profiles[s.index[u]].username == u
  }

  /** Every name in use except the empty one is in the index. */
  ghost predicate IndexComplete(s: State) {
    forall a :: a in s.profiles && s.profiles[a].username != [] ==>
                  s.profiles[a].username in s.index && s.index[s.profiles[a].username] == a
  }

  ghost predicate WithinBounds(p: Profile) {
    && |p.username| <= MAX_USERNAME_LENGTH
    && (p.avatar.Some? ==> |p.avatar.value| <= MAX_USERNAME_LENGTH)
    && (p.bio.Some? ==> |p.bio.value| <= MAX_BIO_LENGTH)
  }

  ghost predicate ProfilesOk(s: State) {
    && s.profiles.Keys <= s.stats.Keys
    && forall a :: a in s.profiles ==>
                     && s.profiles[a].account == a
                     && WithinBounds(s.profiles[a])
                     && s.profiles[a].createdAt <= s.block
  }

  ghost predicate Inv(s: State) {
    IndexSound(s) && IndexComplete(s) && ProfilesOk(s)
  }

  lemma CommitKeepsIndex(s: State, call: Call)
    requires Inv(s) && Validate(s, call).None?
    ensures IndexSound(Commit(s, call)) && IndexComplete(Commit(s, call))
  {
    var t := Commit(s, call);
    var who := call.who;
    // The key a call removes belongs to the caller or is the empty name.
    assert forall u :: u in s.index && s.index[u] == who ==> who in s.profiles && s.profiles[who].username == u;
    forall a | a in t.profiles && t.profiles[a].username != []
      ensures t.profiles[a].username in t.index && t.index[t.profiles[a].username] == a
    {
      if a != who {
        assert t.profiles[a] == s.profiles[a];
      }
    }
  }

  lemma CommitKeepsProfiles(s: State, call: Call)
    requires Inv(s) && Validate(s, call).None?
    ensures ProfilesOk(Commit(s, call))
  {
  }

  lemma NextKeepsInv(s: State, step: Step)
    requires Inv(s)
    ensures Inv(Next(s, step))
  {
    if step.Dispatch? && Validate(s, step.call).None? {
      CommitKeepsIndex(s, step.call);
      CommitKeepsProfiles(s, step.call);
    }
  }

  lemma {:induction false} RunKeepsInv(s: State, steps: seq<Step>)
    requires Inv(s)
    ensures Inv(Run(s, steps))
  {
    if steps != [] {
      RunKeepsInv(s, steps[..|steps| - 1]);
      NextKeepsInv(Run(s, steps[..|steps| - 1]), steps[|steps| - 1]);
    }
  }

  lemma Reachable(steps: seq<Step>)
    ensures Inv(Run(INITIAL, steps))
  {
    RunKeepsInv(INITIAL, steps);
  }

  // ---------------------------------------------------------------- the index agrees with a scan

  ghost predicate Owns(s: State, u: Bytes, a: AccountId) {
    u in s.index && s.index[u] == a
  }

  ghost predicate Uses(s: State, u: Bytes, a: AccountId) {
    a in s.profiles && s.profiles[a].username == u
  }

  lemma IndexAgreesWithScan(steps: seq<Step>, u: Bytes, a: AccountId)
    ensures var s := Run(INITIAL, steps);
            if u == [] then Owns(s, u, a) ==> Uses(s, u, a) else Owns(s, u, a) <==> Uses(s, u, a)
  {
    Reachable(steps);
  }

  lemma UsernamesNeverShared(steps: seq<Step>, a: AccountId, b: AccountId)
    requires var s := Run(INITIAL, steps);
             a in s.profiles && b in s.profiles && a != b && s.profiles[a].username != []
    ensures var s := Run(INITIAL, steps);
            s.profiles[a].username != s.profiles[b].username
  {
    Reachable(steps);
  }

  /** Completeness cannot be had for the empty name: another account's rename drops its entry. */
  lemma EmptyNameCanBeLost(a: AccountId, b: AccountId)
    requires a != b
    ensures var s := Run(INITIAL, [Dispatch(SetUsername(a, [])),
                                   Dispatch(UpdateProfile(b, Some([0x62]), None, None))]);
            Uses(s, [], a) && !Owns(s, [], a)
  {
    RunTwo(INITIAL, Dispatch(SetUsername(a, [])), Dispatch(UpdateProfile(b, Some([0x62]), None, None)));
    var s1 := Commit(INITIAL, SetUsername(a, []));
    assert s1.index == map[[] := a];
    assert Execute(INITIAL, SetUsername(a, [])) == s1;
    assert [] !in Commit(s1, UpdateProfile(b, Some([0x62]), None, None)).index;
  }

  // ---------------------------------------------------------------- which error, from the profiles

  /** Another account goes by the name; only for the empty one does the index decide. */
  ghost predicate TakenFrom(s: State, who: AccountId, u: Bytes) {
    exists b :: b != who && Uses(s, u, b) && (u == [] ==> Owns(s, u, b))
  }

  /** What the pallet answers to a name. */
  ghost function NameAnswer(s: State, who: AccountId, u: Bytes): Option<Error> {
    if |u| > 32 then Some(UsernameTooLong) else if TakenFrom(s, who, u) then Some(UsernameTaken) else None
  }

  ghost predicate TooLong(patch: Patch, limit: nat) {
    patch.Some? && patch.value.Some? && |patch.value.value| > limit
  }

  lemma NameAnswered(s: State, who: AccountId, u: Bytes)
    requires Inv(s)
    ensures UsernameError(s, who, u) == NameAnswer(s, who, u)
  {
    if u in s.index && s.index[u] != who {
      assert Uses(s, u, s.index[u]) && Owns(s, u, s.index[u]);
    }
    if b :| b != who && Uses(s, u, b) && (u == [] ==> Owns(s, u, b)) {
      assert Owns(s, u, b);
    }
  }

  /** In every reachable state set_username answers too long before taken, and taken exactly when
      another account goes by the name. */
  lemma SetUsernameAnswer(steps: seq<Step>, who: AccountId, u: Bytes)
    ensures var s := Run(INITIAL, steps); Validate(s, SetUsername(who, u)) == NameAnswer(s, who, u)
  {
    Reachable(steps);
    NameAnswered(Run(INITIAL, steps), who, u);
  }

  /** In every reachable state update_profile answers for the name, then the avatar, then the bio. */
  lemma UpdateProfileAnswer(steps: seq<Step>, who: AccountId, u: Option<Bytes>, avatar: Patch, bio: Patch)
    ensures var s := Run(INITIAL, steps);
            Validate(s, UpdateProfile(who, u, avatar, bio)) ==
            if u.Some? && NameAnswer(s, who, u.value).Some? then NameAnswer(s, who, u.value)
            else if TooLong(avatar, 32) then Some(UsernameTooLong)
            else if TooLong(bio, 256) then Some(BioTooLong)
            else None
  {
    Reachable(steps);
    if u.Some? {
      NameAnswered(Run(INITIAL, steps), who, u.value);
    }
  }

  lemma UpdateStatsAnswer(s: State, call: Call)
    requires call.UpdateStats?
    ensures Validate(s, call) == None
  {
  }

  // ---------------------------------------------------------------- counting

  lemma {:induction false} InjectiveMapSize<K, V>(m: map<K, V>)
    requires forall k, l :: k in m && l in m && m[k] == m[l] ==> k == l
    ensures |m.Keys| == |m.Values|
    decreases |m|
  {
    if m.Keys != {} {
      var k :| k in m;
      var rest := m - {k};
      InjectiveMapSize(rest);
      assert m.Keys == rest.Keys + {k};
      assert m.Values == rest.Values + {m[k]};
    } else {
      assert m.Values == {};
    }
  }

  ghost function NamedAccounts(s: State): set<AccountId> {
    set a | a in s.profiles && s.profiles[a].username != []
  }

  ghost function UsernamesInUse(s: State): set<Bytes> {
    set a | a in NamedAccounts(s) :: s.profiles[a].username
  }

  lemma IndexKeysAreUsernames(s: State)
    requires Inv(s)
    ensures s.index.Keys - {[]} == UsernamesInUse(s)
    ensures |s.index.Keys - {[]}| == |NamedAccounts(s)|
  {
    var named := map a | a in NamedAccounts(s) :: s.profiles[a].username;
    assert named.Keys == NamedAccounts(s);
    forall u | u in s.index && u != []
      ensures u in named.Values
    {
      assert s.index[u] in named && named[s.index[u]] == u;
    }
    assert named.Values == s.index.Keys - {[]};
    assert UsernamesInUse(s) == named.Values;
    InjectiveMapSize(named);
  }

  predicate SubmitsEmptyName(step: Step) {
    && step.Dispatch?
    && (step.call == SetUsername(step.call.who, [])
        || (step.call.UpdateProfile? && step.call.newUsername == Some([])))
  }

  lemma {:induction false} EmptyNameNeedsSubmission(steps: seq<Step>)
    requires forall step :: step in steps ==> !SubmitsEmptyName(step)
    ensures [] !in Run(INITIAL, steps).index
  {
    if steps != [] {
      EmptyNameNeedsSubmission(steps[..|steps| - 1]);
      assert steps[|steps| - 1] in steps;
    }
  }

  lemma IndexCountsNamedProfiles(steps: seq<Step>)
    ensures var s := Run(INITIAL, steps); |s.index.Keys - {[]}| == |NamedAccounts(s)|
    ensures (forall step :: step in steps ==> !SubmitsEmptyName(step)) ==>
              Run(INITIAL, steps).index.Keys == UsernamesInUse(Run(INITIAL, steps))
  {
    Reachable(steps);
    IndexKeysAreUsernames(Run(INITIAL, steps));
    if forall step :: step in steps ==> !SubmitsEmptyName(step) {
      EmptyNameNeedsSubmission(steps);
      assert Run(INITIAL, steps).index.Keys - {[]} == Run(INITIAL, steps).index.Keys;
    }
  }

  // ---------------------------------------------------------------- isolation of accounts

  lemma Isolation(s: State, call: Call, b: AccountId, u: Bytes)
    requires Inv(s) && b != call.who
    ensures var t := Execute(s, call);
            && Lookup(t.profiles, b) == Lookup(s.profiles, b)
            && Lookup(t.stats, b) == Lookup(s.stats, b)
            && (u != [] ==> (Owns(t, u, b) <==> Owns(s, u, b)))
            && (u == [] && Owns(t, u, b) ==> Owns(s, u, b))
  {
  }

  /** A call that renames its caller away from the empty name. */
  predicate LeavesEmptyName(s: State, call: Call) {
    match call
    case SetUsername(who, _) => who in s.profiles && s.profiles[who].username == []
    case UpdateProfile(who, newUsername, _, _) => newUsername.Some? && ProfileOf(s, who).username == []
    case UpdateStats(_, _, _, _, _) => false
  }

  /** Exactly when a call takes the entry of the empty name away from another account. */
  lemma EmptyEntryLostIff(s: State, call: Call, b: AccountId)
    requires Inv(s) && b != call.who && Owns(s, [], b)
    ensures !Owns(Execute(s, call), [], b) <==> Validate(s, call).None? && LeavesEmptyName(s, call)
  {
  }

  // ---------------------------------------------------------------- when the index is complete

  /** Every profile's name is in the index, the empty one too. */
  ghost predicate Full(s: State) {
    forall a :: a in s.profiles ==> Owns(s, s.profiles[a].username, a)
  }

  /** A profile made by update_profile starts from the empty name. Without a new name it is stored
      with no entry; with one, the entry of the empty name is removed whoever owns it. */
  predicate OpensGap(s: State, call: Call) {
    && Validate(s, call).None?
    && call.UpdateProfile?
    && call.who !in s.profiles
    && (call.newUsername.None? || [] in s.index)
  }

  /** Exactly which calls end the completeness of the index. */
  lemma FullLostIff(s: State, call: Call)
    requires Inv(s) && Full(s)
    ensures !Full(Execute(s, call)) <==> OpensGap(s, call)
  {
    var t := Execute(s, call);
    if OpensGap(s, call) {
      var a: AccountId := if call.newUsername.None? then call.who else s.index[[]];
      assert a in t.profiles && !Owns(t, t.profiles[a].username, a);
    } else {
      FullKept(s, call);
    }
  }

  lemma FullKept(s: State, call: Call)
    requires Inv(s) && Full(s) && !OpensGap(s, call)
    ensures Full(Execute(s, call))
  {
    var t := Execute(s, call);
    forall a | a in t.profiles
      ensures Owns(t, t.profiles[a].username, a)
    {
      if a != call.who {
        assert Owns(s, s.profiles[a].username, a);
      }
    }
  }

  ghost predicate FullAt(steps: seq<Step>, j: nat)
    requires j <= |steps|
  {
    Full(Run(INITIAL, steps[..j]))
  }

  predicate GapAt(steps: seq<Step>, j: nat)
    requires j < |steps|
  {
    steps[j].Dispatch? && OpensGap(Run(INITIAL, steps[..j]), steps[j].call)
  }

  lemma FullAtNext(steps: seq<Step>, j: nat)
    requires j < |steps| && FullAt(steps, j)
    ensures FullAt(steps, j + 1) <==> !GapAt(steps, j)
  {
    var s := Run(INITIAL, steps[..j]);
    Reachable(steps[..j]);
    assert steps[..j + 1][..j] == steps[..j];
    assert Run(INITIAL, steps[..j + 1]) == Next(s, steps[j]);
    if steps[j].Dispatch? {
      FullLostIff(s, steps[j].call);
    } else {
      assert Next(s, steps[j]).profiles == s.profiles && Next(s, steps[j]).index == s.index;
    }
  }

  lemma {:induction false} FullUpTo(steps: seq<Step>, n: nat)
    requires n <= |steps|
    ensures (forall j :: 0 <= j <= n ==> FullAt(steps, j)) <==> (forall j :: 0 <= j < n ==> !GapAt(steps, j))
  {
    if n == 0 {
      assert FullAt(steps, 0);
    } else {
      FullUpTo(steps, n - 1);
      if FullAt(steps, n - 1) {
        FullAtNext(steps, n - 1);
      }
    }
  }

  /** The index is complete all along a run if and only if no call of the run opens a gap. */
  lemma FullThroughoutIff(steps: seq<Step>)
    ensures (forall j :: 0 <= j <= |steps| ==> FullAt(steps, j)) <==>
            (forall j :: 0 <= j < |steps| ==> !GapAt(steps, j))
  {
    FullUpTo(steps, |steps|);
  }

  /** One call suffices: nobody loses an entry, the new profile never gets one. */
  lemma DefaultNameNotIndexed(a: AccountId)
    ensures var s := Run(INITIAL, [Dispatch(UpdateProfile(a, None, None, None))]);
            Uses(s, [], a) && !Owns(s, [], a)
  {
    var call := UpdateProfile(a, None, None, None);
    assert [Dispatch(call)][..0] == [];
    assert Run(INITIAL, [Dispatch(call)]) == Next(Run(INITIAL, []), Dispatch(call));
    assert Execute(INITIAL, call) == Commit(INITIAL, call);
  }

  // ---------------------------------------------------------------- why rollback is needed

  /** The state in which a failing update_profile returns keeps the index invariant exactly
      when the call had not yet moved its caller to a name the stored profile does not have. */
  lemma InterruptedBreaksIndexIff(s: State, call: Call)
    requires Inv(s) && call.UpdateProfile? && Validate(s, call).Some?
    ensures !(IndexSound(Interrupted(s, call)) && IndexComplete(Interrupted(s, call))) <==>
            call.newUsername.Some?
            && UsernameError(s, call.who, call.newUsername.value).None?
            && !Uses(s, call.newUsername.value, call.who)
    ensures Execute(s, call) == s
  {
    var t := Interrupted(s, call);
    if call.newUsername.Some? && UsernameError(s, call.who, call.newUsername.value).None? {
      var u := call.newUsername.value;
      assert t.index[u] == call.who;
    } else {
      assert t.index == s.index && t.profiles == s.profiles;
    }
  }

  /** All that a failing update_profile has written: default stats, and the index entries once the
      name was accepted. */
  lemma InterruptedWrites(s: State, call: Call)
    requires call.UpdateProfile?
    ensures var t := Interrupted(s, call);
            && t.profiles == s.profiles && t.log == s.log && t.block == s.block
            && t.stats == (if call.who in s.stats then s.stats else s.stats[call.who := Stats(0, 0, 0, 0)])
            && (call.newUsername.None? || UsernameError(s, call.who, call.newUsername.value).Some? ==>
                  t.index == s.index)
            && (call.newUsername.Some? && UsernameError(s, call.who, call.newUsername.value).None? ==>
                  && Owns(t, call.newUsername.value, call.who)
                  && forall u :: u != call.newUsername.value ==>
                       (u in t.index <==> u in s.index && u != (if call.who in s.profiles
                                                                then s.profiles[call.who].username else []))
                       && (u in t.index ==> t.index[u] == s.index[u]))
  {
  }

  /** A reachable case: a free name, then an avatar that is too long. */
  lemma InterruptedCanBreakIndex(a: AccountId, avatar: Bytes)
    requires |avatar| > MAX_USERNAME_LENGTH
    ensures var call := UpdateProfile(a, Some([0x62]), Some(Some(avatar)), None);
            Validate(INITIAL, call) == Some(UsernameTooLong) && !IndexSound(Interrupted(INITIAL, call))
  {
    var t := Interrupted(INITIAL, UpdateProfile(a, Some([0x62]), Some(Some(avatar)), None));
    assert [0x62] in t.index && t.index[[0x62]] == a;
  }

  // ---------------------------------------------------------------- life cycle

  ghost predicate Extends(s: State, t: State) {
    && s.profiles.Keys <= t.profiles.Keys
    && s.stats.Keys <= t.stats.Keys
    && s.log <= t.log && s.block <= t.block
    && forall a :: a in s.profiles ==> t.profiles[a].createdAt == s.profiles[a].createdAt
  }

  lemma NextExtends(s: State, step: Step)
    ensures Extends(s, Next(s, step))
  {
  }

  /** Profiles and stats are never dropped, the log only grows and created_at never changes. */
  lemma {:induction false} LifeCycle(s: State, steps: seq<Step>)
    ensures Extends(s, Run(s, steps))
  {
    if steps != [] {
      LifeCycle(s, steps[..|steps| - 1]);
      NextExtends(Run(s, steps[..|steps| - 1]), steps[|steps| - 1]);
    }
  }
}
