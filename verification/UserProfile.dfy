/** The user-profile pallet: three storage maps and the event log, changed by signed calls. */
module UserProfile {
  import opened Prelude

  const MAX_USERNAME_LENGTH := 32
  const MAX_BIO_LENGTH := 256

  type u32 = x: int | 0 <= x < 0x1_0000_0000
  type u64 = x: int | 0 <= x < 0x1_0000_0000_0000_0000
  type u128 = x: int | 0 <= x < 0x1_0000_0000_0000_0000_0000_0000_0000_0000

  datatype Profile = Profile(account: AccountId, username: Bytes, avatar: Option<Bytes>, bio: Option<Bytes>,
                             createdAt: nat)

  datatype Stats = Stats(totalRaces: u32, wins: u32, totalDistance: u64, totalRewards: u128)

  const NO_STATS := Stats(0, 0, 0, 0)

  /** An outer None leaves a field alone; Some(None) clears it. */
  type Patch = Option<Option<Bytes>>

  datatype Event =
    | UsernameSet(account: AccountId, username: Bytes)
    | ProfileUpdated(account: AccountId, newUsername: Option<Bytes>, avatar: Patch, bio: Patch)
    | StatsUpdated(account: AccountId, stats: Stats)

  /** An event with the number of the block that holds it. */
  datatype Logged = Logged(block: nat, event: Event)

  datatype Error = UsernameTaken | UsernameTooLong | BioTooLong

  type DispatchResult = Result<(), Error>

  datatype Call =
    | SetUsername(who: AccountId, username: Bytes)
    | UpdateProfile(who: AccountId, newUsername: Option<Bytes>, avatar: Patch, bio: Patch)
    | UpdateStats(who: AccountId, races: Option<u32>, wins: Option<u32>, distance: Option<u64>,
                  rewards: Option<u128>)

  datatype State = State(profiles: map<AccountId, Profile>, stats: map<AccountId, Stats>,
                         index: map<Bytes, AccountId>, log: seq<Logged>, block: nat)

  /** Events are dropped in the genesis block, so calls run from block 1 on. */
  const INITIAL := State(map[], map[], map[], [], 1)

  // ---------------------------------------------------------------- validate, then commit

  function UsernameError(s: State, who: AccountId, username: Bytes): Option<Error> {
    if |username| > MAX_USERNAME_LENGTH then Some(UsernameTooLong)
    else if username in s.index && s.index[username] != who then Some(UsernameTaken)
    else None
  }

  function LengthError(patch: Patch, limit: nat, error: Error): Option<Error> {
    if patch.Some? && patch.value.Some? && |patch.value.value| > limit then Some(error) else None
  }

  /** The error of a call: the first one in the order username, avatar, bio. */
  function Validate(s: State, call: Call): Option<Error> {
    match call
    case SetUsername(who, username) => UsernameError(s, who, username)
    case UpdateProfile(who, newUsername, avatar, bio) =>
      var nameError := if newUsername.Some? then UsernameError(s, who, newUsername.value) else None;
      var avatarError := LengthError(avatar, MAX_USERNAME_LENGTH, UsernameTooLong);
      if nameError.Some? then nameError
      else if avatarError.Some? then avatarError
      else LengthError(bio, MAX_BIO_LENGTH, BioTooLong)
    case UpdateStats(_, _, _, _, _) => None
  }

  /** The profile a call starts from; a fresh one has the empty username. */
  function ProfileOf(s: State, who: AccountId): Profile {
    if who in s.profiles then s.profiles[who] else Profile(who, [], None, None, s.block)
  }

  function Patched(prior: Option<Bytes>, patch: Patch): Option<Bytes> {
    if patch.Some? then patch.value else prior
  }

  function Rename(index: map<Bytes, AccountId>, from: Bytes, to: Bytes, who: AccountId): map<Bytes, AccountId> {
    (index - {from})[to := who]
  }

  function Or<T>(o: Option<T>, default: T): T {
    if o.Some? then o.value else default
  }

  /** The effect of a call that passed validation. */
  function Commit(s: State, call: Call): State {
    match call
    case SetUsername(who, username) =>
      var p := ProfileOf(s, who);
      State(s.profiles[who := Profile(who, username, None, None, p.createdAt)],
            if who in s.profiles then s.stats else s.stats[who := NO_STATS],
            if who in s.profiles then Rename(s.index, p.username, username, who) else s.index[username := who],
            s.log + [Logged(s.block, UsernameSet(who, username))],
            s.block)
    case UpdateProfile(who, newUsername, avatar, bio) =>
      var p := ProfileOf(s, who);
      State(s.profiles[who := Profile(p.account, Or(newUsername, p.username), Patched(p.avatar, avatar),
                                      Patched(p.bio, bio), p.createdAt)],
            if who in s.stats then s.stats else s.stats[who := NO_STATS],
            if newUsername.Some? then Rename(s.index, p.username, newUsername.value, who) else s.index,
            s.log + [Logged(s.block, ProfileUpdated(who, newUsername, avatar, bio))],
            s.block)
    case UpdateStats(who, races, wins, distance, rewards) =>
      var prior := if who in s.stats then s.stats[who] else NO_STATS;
      var stats := Stats(Or(races, prior.totalRaces), Or(wins, prior.wins), Or(distance, prior.totalDistance),
                        Or(rewards, prior.totalRewards));
      s.(stats := s.stats[who := stats], log := s.log + [Logged(s.block, StatsUpdated(who, stats))])
  }

  function Execute(s: State, call: Call): State {
    if Validate(s, call).Some? then s else Commit(s, call)
  }

  /** What an update_profile that fails has already written when it returns. */
  function Interrupted(s: State, call: Call): State
    requires call.UpdateProfile?
  {
    var s' := s.(stats := if call.who in s.stats then s.stats else s.stats[call.who := NO_STATS]);
    if call.newUsername.Some? && UsernameError(s, call.who, call.newUsername.value).None? then
      s'.(index := Rename(s.index, ProfileOf(s, call.who).username, call.newUsername.value, call.who))
    else s'
  }

  // ---------------------------------------------------------------- the pallet as it runs

  /** A bounded vector, or nothing when the bytes are too long. */
  function TryBounded(v: Bytes, limit: nat): Option<Bytes> {
    if |v| <= limit then Some(v) else None
  }

  /** The fallback of the event fields: too long a value is logged as empty. */
  function BoundedOrEmpty(v: Bytes, limit: nat): Bytes {
    Or(TryBounded(v, limit), [])
  }

  /** The new value of a field, or the error when a given value is too long. */
  function BoundedPatch(prior: Option<Bytes>, patch: Patch, limit: nat, error: Error): (r: Result<Option<Bytes>, Error>)
    ensures r.Err? <==> LengthError(patch, limit, error).Some?
    ensures r.Err? ==> r.error == error
    ensures r.Ok? ==> r.value == Patched(prior, patch)
  {
    match patch
    case None => Ok(prior)
    case Some(None) => Ok(None)
    case Some(Some(v)) => if TryBounded(v, limit).Some? then Ok(TryBounded(v, limit)) else Err(error)
  }

  function LoggedPatch(patch: Patch, limit: nat): Patch {
    if patch.Some? && patch.value.Some? then Some(Some(BoundedOrEmpty(patch.value.value, limit))) else patch
  }

  /** A value that passed its check is logged as it is: the fallback is never taken. */
  lemma LoggedAsGiven(patch: Patch, limit: nat, error: Error)
    requires LengthError(patch, limit, error).None?
    ensures LoggedPatch(patch, limit) == patch
  {
  }

  class Pallet {
    var profiles: map<AccountId, Profile>
    var userStatsMap: map<AccountId, Stats>
    var usernameToAccount: map<Bytes, AccountId>
    var log: seq<Logged>
    var blockNumber: nat

    ghost function View(): State
      reads this
    {
      State(profiles, userStatsMap, usernameToAccount, log, blockNumber)
    }

    constructor ()
      ensures View() == INITIAL
      ensures profiles == map[] && userStatsMap == map[] && usernameToAccount == map[] && log == []
    {
      profiles, userStatsMap, usernameToAccount, log, blockNumber := map[], map[], map[], [], 1;
    }

    method NextBlock()
      modifies this
      ensures View() == old(View()).(block := old(blockNumber) + 1)
    {
      blockNumber := blockNumber + 1;
    }

    method DepositEvent(event: Event)
      modifies this`log
      ensures log == old(log) + [Logged(blockNumber, event)]
    {
      log := log + [Logged(blockNumber, event)];
    }

    /** Runs a call in a storage layer: an error restores what the body had written. */
    method Dispatch(call: Call) returns (r: DispatchResult)
      modifies this
      ensures r.Ok? ==> Validate(old(View()), call).None? && View() == Commit(old(View()), call)
      ensures r.Err? ==> Validate(old(View()), call) == Some(r.error) && View() == old(View())
    {
      var oldProfiles, oldStats, oldIndex, oldLog := profiles, userStatsMap, usernameToAccount, log;
      match call {
        case SetUsername(who, username) => r := SetUsername(who, username);
        case UpdateProfile(who, newUsername, avatar, bio) => r := UpdateProfile(who, newUsername, avatar, bio);
        case UpdateStats(who, races, wins, distance, rewards) => r := UpdateStats(who, races, wins, distance, rewards);
      }
      if r.Err? {
        profiles, userStatsMap, usernameToAccount, log := oldProfiles, oldStats, oldIndex, oldLog;
      }
    }

    method SetUsername(who: AccountId, username: Bytes) returns (r: DispatchResult)
      modifies this
      ensures r.Ok? ==> Validate(old(View()), Call.SetUsername(who, username)).None?
      ensures r.Ok? ==> View() == Commit(old(View()), Call.SetUsername(who, username))
      ensures r.Ok? ==> log == old(log) + [Logged(blockNumber, UsernameSet(who, username))]
      ensures r.Err? ==> Validate(old(View()), Call.SetUsername(who, username)) == Some(r.error)
      ensures r.Err? ==> View() == old(View())
    {
      var bounded := TryBounded(username, MAX_USERNAME_LENGTH);
      if bounded.None? {
        return Err(UsernameTooLong);
      }
      if bounded.value in usernameToAccount && usernameToAccount[bounded.value] != who {
        return Err(UsernameTaken);
      }
      var createdAt := blockNumber;
      if who in profiles {
        usernameToAccount := usernameToAccount - {profiles[who].username};
        createdAt := profiles[who].createdAt;
      } else {
        userStatsMap := userStatsMap[who := NO_STATS];
      }
      profiles := profiles[who := Profile(who, bounded.value, None, None, createdAt)];
      usernameToAccount := usernameToAccount[bounded.value := who];
      DepositEvent(UsernameSet(who, bounded.value));
      return Ok(());
    }

    /** Writes as it goes, so a late error leaves the earlier writes behind. */
    method UpdateProfile(who: AccountId, newUsername: Option<Bytes>, avatar: Patch, bio: Patch)
      returns (r: DispatchResult)
      modifies this
      ensures r.Ok? ==> Validate(old(View()), Call.UpdateProfile(who, newUsername, avatar, bio)).None?
      ensures r.Ok? ==> View() == Commit(old(View()), Call.UpdateProfile(who, newUsername, avatar, bio))
      ensures r.Ok? ==> log == old(log) + [Logged(blockNumber, ProfileUpdated(who, newUsername, avatar, bio))]
      ensures r.Err? ==> Validate(old(View()), Call.UpdateProfile(who, newUsername, avatar, bio)) == Some(r.error)
      ensures r.Err? ==> View() == Interrupted(old(View()), Call.UpdateProfile(who, newUsername, avatar, bio))
    {
      var profile := if who in profiles then profiles[who] else Profile(who, [], None, None, blockNumber);
      if who !in userStatsMap {
        userStatsMap := userStatsMap[who := NO_STATS];
      }
      if newUsername.Some? {
        var moved := MoveUsername(who, profile.username, newUsername.value);
        if moved.Err? {
          return moved;
        }
        profile := profile.(username := newUsername.value);
      }
      var newAvatar := BoundedPatch(profile.avatar, avatar, MAX_USERNAME_LENGTH, UsernameTooLong);
      if newAvatar.Err? {
        return Err(newAvatar.error);
      }
      var newBio := BoundedPatch(profile.bio, bio, MAX_BIO_LENGTH, BioTooLong);
      if newBio.Err? {
        return Err(newBio.error);
      }
      profile := profile.(avatar := newAvatar.value, bio := newBio.value);
      LoggedAsGiven(avatar, MAX_USERNAME_LENGTH, UsernameTooLong);
      LoggedAsGiven(bio, MAX_BIO_LENGTH, BioTooLong);
      profiles := profiles[who := profile];
      DepositEvent(ProfileUpdated(who,
                                  if newUsername.Some?
                                  then Some(BoundedOrEmpty(newUsername.value, MAX_USERNAME_LENGTH)) else None,
                                  LoggedPatch(avatar, MAX_USERNAME_LENGTH),
                                  LoggedPatch(bio, MAX_BIO_LENGTH)));
      return Ok(());
    }

    /** The username step of update_profile. */
    method MoveUsername(who: AccountId, from: Bytes, to: Bytes) returns (r: DispatchResult)
      modifies this`usernameToAccount
      ensures r.Ok? ==> UsernameError(old(View()), who, to).None?
      ensures r.Err? ==> UsernameError(old(View()), who, to) == Some(r.error)
      ensures usernameToAccount ==
              if r.Ok? then Rename(old(usernameToAccount), from, to, who) else old(usernameToAccount)
    {
      var bounded := TryBounded(to, MAX_USERNAME_LENGTH);
      if bounded.None? {
        return Err(UsernameTooLong);
      }
      if bounded.value in usernameToAccount && usernameToAccount[bounded.value] != who {
        return Err(UsernameTaken);
      }
      usernameToAccount := usernameToAccount - {from};
      usernameToAccount := usernameToAccount[bounded.value := who];
      return Ok(());
    }

    method UpdateStats(who: AccountId, races: Option<u32>, wins: Option<u32>, distance: Option<u64>,
                       rewards: Option<u128>)
      returns (r: DispatchResult)
      modifies this
      ensures r == Ok(())
      ensures View() == Commit(old(View()), Call.UpdateStats(who, races, wins, distance, rewards))
      ensures who in userStatsMap && log == old(log) + [Logged(blockNumber, StatsUpdated(who, userStatsMap[who]))]
    {
      var stats := if who in userStatsMap then userStatsMap[who] else NO_STATS;
      if races.Some? { stats := stats.(totalRaces := races.value); }
      if wins.Some? { stats := stats.(wins := wins.value); }
      if distance.Some? { stats := stats.(totalDistance := distance.value); }
      if rewards.Some? { stats := stats.(totalRewards := rewards.value); }
      userStatsMap := userStatsMap[who := stats];
      DepositEvent(StatsUpdated(who, stats));
      return Ok(());
    }
  }
}
