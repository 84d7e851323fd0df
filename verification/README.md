# User profiles: the pallet, its index, and the table that follows it

A verification model of the `user-profile` pallet and of the API that mirrors it in a database.

- `Prelude.dfy`: options, results, bytes, UTF-16 text, account names.
- `Text.dfy`: base16, UTF-8 (RFC 3629, sections 3 and 4), UTF-16, removal of NUL.
- `UserProfile.dfy`: the pallet as a class over its three storage maps and event log, the storage layer
  around each call, and the same calls as functions that validate first and then commit.
- `PalletRuns.dfy`: what every reachable state of the pallet keeps.
- `PalletLog.dfy`: what the event log and the accepted calls tell about each account.
- `Payload.dfy`: event data as JSON and how the handlers decode it.
- `BlockchainService.dfy`: the listener that filters block events into the queue.
- `Users.dfy`: the users table and the service that checks uniqueness before it saves.
- `EventProcessor.dfy`: the worker and its handlers.
- `Projection.dfy`: the table refines rows by account.
- `Delivery.dfy`: a row as the fold of its account's events; other delivery orders and redelivery.
- `Simulation.dfy`: the table follows the pallet, and for exactly which usernames it does.
- `Details.dfy`: when avatar and bio in the table differ from the chain.
- `Pipeline.dfy`: the pallet, the listener and the worker run one after the other.

## Main results

1. The username index is complete for non-empty names and sound for every key, in all reachable states,
   although a call removes an entry without looking whose it is. For the empty name completeness fails in two
   ways: a profile made by `update_profile` without a name gets no entry (`DefaultNameNotIndexed`), and one made
   with a name removes another account's entry (`EmptyNameCanBeLost`). `FullLostIff` and `FullThroughoutIff` say
   exactly which calls end completeness, and `EmptyEntryLostIff` which call takes such an entry away.
2. `update_profile` writes while it checks. Run in a storage layer it equals "check everything, then commit".
   `InterruptedBreaksIndexIff` says exactly when the state it returns in would be broken without the layer, and
   `InterruptedCanBreakIndex` gives a call for which it is.
3. The log rebuilds each account's profile and stats from that account's own events.
4. From calls through blocks, queue and worker to the table: at every lag the table is that of an earlier
   chain state and no `ConflictException` is thrown (`TableFollowsChain`). For all runs this holds if and only
   if the usernames keep their identity as text (`FaithfulIffNamesOk`): those that fit 32 bytes either all
   decode to nothing, or none does and no two decode to the same text. Non-empty valid UTF-8 without NUL
   qualifies. The names `a` and `a` followed by NUL do not (`NulNamesClash`): the second owner's event is refused.
   `Pipeline.Mirror` runs pallet, listener and worker to the same end.
5. Avatar and bio follow one way only. For every run, chain and table disagree exactly when a value was given,
   then taken away, and none given since (`DetailStaleIff`): `set_username` and `Some(None)` clear a value on
   chain and leave the row as it was. `AvatarEndsStale` is such a run.
6. Redelivery changes neither rows nor which queues are free of conflicts. Every delivery order that keeps each
   account's own order is free of conflicts if and only if no two accounts bring the same name
   (`EveryOrderSafeIff`); then all orders end with the same table, that of the chain. Otherwise a row can be lost
   (`ReorderingCanLoseRow`).
7. The stats handler fails on every payload the chain produces, since it calls `toNumber` on JSON numbers
   (`StatsHandlerFails`). The intent of the API to mirror stats is not met by the code.

## Assumptions

- Each pallet call runs in a storage layer that restores storage on an error, as FRAME does. FRAME's source is
  not part of this model; the tests of the pallet rely on it.
- Calls run from block 1 on, since events of the genesis block are dropped. The log is the events of all blocks.
- An account is identified with its non-empty SS58 address, so turning it into text loses nothing.
- Byte fields reach the queue as `0x` followed by base16; `None` and `Some(None)` both become `null`. Event data is
  an array by position; for profile events the forms with named and numbered fields are
  covered too.
- Saving an undefined field leaves its column. Ids of new rows are fresh. The table starts empty, and the REST
  routes are idle while it follows the chain. Blocks and jobs are processed one at a time.
- Buffer decoding replaces each maximal ill-formed piece of UTF-8 by U+FFFD.

## Model

| member | source | states |
|---|---|---|
| `UserProfile.Pallet.constructor` | packages/solochain-template/pallets/user-profile/src/lib.rs:60-79 | all storage starts empty |
| `UserProfile.Pallet.Dispatch` | packages/solochain-template/pallets/user-profile/src/tests.rs:54-57 | a dispatched call reports the first failing check and then leaves maps and log as they were; otherwise it commits |
| `UserProfile.Pallet.SetUsername` | packages/solochain-template/pallets/user-profile/src/lib.rs:123-166 | success commits and logs the given name; an error is that of validation and leaves everything as it was, even without a storage layer |
| `UserProfile.Pallet.UpdateProfile` | packages/solochain-template/pallets/user-profile/src/lib.rs:172-246 | success commits and logs the three arguments as given, no name where none was given; an error is that of validation, and what the call leaves behind is its interrupted state |
| `UserProfile.Pallet.MoveUsername` | packages/solochain-template/pallets/user-profile/src/lib.rs:201-218 | the username step: too long before taken, and the index moves only when neither holds |
| `UserProfile.BoundedPatch` | packages/solochain-template/pallets/user-profile/src/lib.rs:220-232 | a patch is refused exactly when it gives too long a value; clearing is never refused |
| `UserProfile.LoggedAsGiven` | packages/solochain-template/pallets/user-profile/src/lib.rs:237-243 | for a value that passed its check the empty fallback of the event field is never taken |
| `UserProfile.Pallet.UpdateStats` | packages/solochain-template/pallets/user-profile/src/lib.rs:252-290 | never fails; given fields replace, others stay, and the event holds the stored stats |
| `UserProfile.Pallet.DepositEvent` | packages/solochain-template/pallets/user-profile/src/lib.rs:82-104 | the log grows by one event of the current block |
| `PalletRuns.SetUsernameAnswer` | packages/solochain-template/pallets/user-profile/src/lib.rs:126-133 | in every reachable state the answer is too long above 32 bytes, taken exactly when another account goes by the name (for the empty name: and owns its entry), and else none |
| `PalletRuns.UpdateProfileAnswer` | packages/solochain-template/pallets/user-profile/src/lib.rs:200-232 | in every reachable state the answer is that to the name, then too long for an avatar above 32 bytes, then bio too long above 256 bytes, then none |
| `PalletRuns.CommitKeepsIndex` | packages/solochain-template/pallets/user-profile/src/lib.rs:131-218 | every accepted call keeps the index sound for all keys and complete for non-empty names |
| `PalletRuns.Reachable` | packages/solochain-template/pallets/user-profile/src/lib.rs:116-291 | every run keeps the index invariant, profiles inside stats, accounts equal to keys, lengths in bounds and created_at at most the current block |
| `PalletRuns.IndexAgreesWithScan` | packages/solochain-template/pallets/user-profile/src/lib.rs:131-235 | in every reachable state a non-empty name maps to an account if and only if its profile has that name; for the empty name one direction |
| `PalletRuns.UsernamesNeverShared` | packages/solochain-template/pallets/user-profile/src/lib.rs:130-133 | two profiles never have the same non-empty username |
| `PalletRuns.EmptyNameCanBeLost` | packages/solochain-template/pallets/user-profile/src/lib.rs:182-213 | a reachable state where the account named empty has no index entry, because another account's call removed it |
| `PalletRuns.DefaultNameNotIndexed` | packages/solochain-template/pallets/user-profile/src/lib.rs:182-188 | one update_profile without a username gives a profile whose empty name has no entry |
| `PalletRuns.FullLostIff` | packages/solochain-template/pallets/user-profile/src/lib.rs:182-217 | from a state where every profile's name is indexed, a call ends that exactly when it succeeds, is an update_profile of an account without a profile, and gives no name or finds the empty name indexed |
| `PalletRuns.FullThroughoutIff` | packages/solochain-template/pallets/user-profile/src/lib.rs:116-291 | every profile's name, the empty one too, is indexed all along a run if and only if no call of the run is of that kind |
| `PalletRuns.IndexKeysAreUsernames` | packages/solochain-template/pallets/user-profile/src/lib.rs:72-79 | the non-empty keys are exactly the usernames in use and as many as the named profiles |
| `PalletRuns.IndexCountsNamedProfiles` | packages/solochain-template/pallets/user-profile/src/lib.rs:135-217 | the counting form for every run, and equality of key set and usernames for runs that never submit the empty name |
| `PalletRuns.Isolation` | packages/solochain-template/pallets/user-profile/src/lib.rs:138-279 | a call changes no other account's profile, stats or non-empty index entry, and never gives another account an entry |
| `PalletRuns.EmptyEntryLostIff` | packages/solochain-template/pallets/user-profile/src/lib.rs:138-213 | another account loses the entry of the empty name exactly when the call succeeds and renames a caller whose name is empty |
| `PalletRuns.InterruptedBreaksIndexIff` | packages/solochain-template/pallets/user-profile/src/lib.rs:191-232 | a failing update_profile returns with a broken index exactly when it had moved the caller to a name its stored profile does not have; dispatch restores the state |
| `PalletRuns.InterruptedWrites` | packages/solochain-template/pallets/user-profile/src/lib.rs:191-218 | a failing update_profile has written default stats for an account without stats and, once its name was accepted, moved its index entry; profiles and log are untouched |
| `PalletRuns.InterruptedCanBreakIndex` | packages/solochain-template/pallets/user-profile/src/lib.rs:191-224 | a first update_profile with a free name and too long an avatar returns with an unsound index |
| `PalletRuns.LifeCycle` | packages/solochain-template/pallets/user-profile/src/lib.rs:135-157 | over any continuation profiles and stats are never dropped, the log only grows and created_at never changes |
| `PalletLog.CommitLogs` | packages/solochain-template/pallets/user-profile/src/lib.rs:160-287 | an accepted call adds one event of the current block with the arguments as given, for stats the stored ones |
| `PalletLog.CommitIsReplayed` | packages/solochain-template/pallets/user-profile/src/lib.rs:160-287 | an accepted call logs one event of its caller, which alone explains the change of the caller's record, and no other record changes |
| `PalletLog.LogIsComplete` | packages/solochain-template/pallets/user-profile/src/lib.rs:136-287 | replaying an account's own events rebuilds its profile, created_at included, and its stats, for every run |
| `PalletLog.CreatedAtFirstProfileEvent` | packages/solochain-template/pallets/user-profile/src/lib.rs:136-187 | a profile exists if and only if the log has a profile event of the account, and created_at is the block of the first one |
| `PalletLog.PrefixIsEarlierLog` | packages/solochain-template/pallets/user-profile/src/lib.rs:160-243 | each prefix of the log is the whole log of an earlier state of the run |
| `PalletLog.ResetPointSnoc` | packages/solochain-template/pallets/user-profile/src/lib.rs:141-145 | the reset point is fixed by the account's first profile call; no later set_username moves it |
| `PalletLog.StatsAreLastSupplied` | packages/solochain-template/pallets/user-profile/src/lib.rs:141-279 | each stats field is the last value supplied since the reset by a first set_username, or 0 |
| `Text.DecodeUtf8` | apps/api/src/blockchain/event-processor.ts:91-106 | any bytes decode to at most as many code units as there are bytes |
| `Text.DecodeText` | apps/api/src/blockchain/event-processor.ts:96-105 | decoded text has no NUL and is no longer than the bytes |
| `Text.StripNulIsFilter` | apps/api/src/blockchain/event-processor.ts:96 | removing NUL keeps every other code unit, in order |
| `Text.NulInTheMiddle` | apps/api/src/blockchain/event-processor.ts:96 | a NUL between ASCII text goes and the text on both sides stays |
| `Text.HexRoundTrip` | apps/api/src/blockchain/event-processor.ts:93-96 | reading base16 undoes writing it, for all bytes |
| `Text.HexAlphabet` | apps/api/src/blockchain/event-processor.ts:93-96 | digits are written in lower case and read in either case, and nothing else is a digit |
| `Text.HexStops` | apps/api/src/blockchain/event-processor.ts:93-96 | reading stops where no pair of digits follows |
| `Text.DecodeUndoesEncode` | apps/api/src/blockchain/event-processor.ts:96 | UTF-8 decoding undoes encoding for all scalar sequences |
| `Text.DecodeCharacter` | apps/api/src/blockchain/event-processor.ts:96 | a whole character in front decodes to itself, whatever follows |
| `Text.DecodeIllFormed` | apps/api/src/blockchain/event-processor.ts:96 | otherwise the longest beginning of a character, or one byte, becomes one U+FFFD and decoding goes on after it |
| `Text.BeginsIff` | apps/api/src/blockchain/event-processor.ts:96 | two or more bytes begin some character exactly when the decoder accepts them as such |
| `Text.Utf8Examples` | apps/api/src/blockchain/event-processor.ts:96 | examples of RFC 3629 with two, three and four bytes, and a surrogate pair |
| `Text.WellFormedIffEncoding` | apps/api/src/blockchain/event-processor.ts:96 | the byte syntax accepts exactly the encodings of scalar sequences |
| `Text.CleanTextInjective` | apps/api/src/blockchain/event-processor.ts:96 | valid UTF-8 without NUL that decodes alike is alike |
| `Text.AsciiIsItself` | apps/api/src/blockchain/event-processor.ts:96 | ASCII bytes decode to themselves |
| `Payload.DecodeBytes` | apps/api/src/blockchain/event-processor.ts:148-175 | the result is the decoded text or, only if that exceeds the maximum, its first code units up to the maximum |
| `Payload.DecodeHexJson` | apps/api/src/blockchain/event-processor.ts:86-114 | bytes within the maximum are never truncated, valid UTF-8 or not |
| `Payload.DecodingLosesNothing` | apps/api/src/blockchain/event-processor.ts:86-114 | an encoding of NUL-free text of at most 32 bytes comes back as that text, in at most 32 code units |
| `Payload.DecodingInjective` | apps/api/src/blockchain/event-processor.ts:86-116 | clean usernames within the bound decode alike if and only if they are equal |
| `Payload.UndecodedIff` | apps/api/src/blockchain/event-processor.ts:86-106 | nothing is decoded exactly from absent, null, number, object and empty text |
| `Payload.PlainText` | apps/api/src/blockchain/event-processor.ts:91-99 | text without the base16 prefix is taken as it is |
| `Payload.ArrayReadsAsHex` | apps/api/src/blockchain/event-processor.ts:100-102 | an array of byte values decodes as the same bytes in base16 do |
| `Payload.NullPatchIff` | packages/solochain-template/pallets/user-profile/src/lib.rs:89-95 | null stands for no change and for clearing, and for nothing else |
| `BlockchainService.Listener.ProcessBlockEvents` | apps/api/src/blockchain/blockchain.service.ts:83-120 | the queue grows by the pallet's events of the block, in order; every new job is of section userProfile and carries the block's number and hash |
| `BlockchainService.OfPalletSnoc` | apps/api/src/blockchain/blockchain.service.ts:103-104 | of one more event, the queue takes it in its place exactly when its section is userProfile |
| `BlockchainService.QueueIsFilteredLog` | apps/api/src/blockchain/blockchain.service.ts:83-120 | over any blocks the queue is the filtered concatenation of their events |
| `BlockchainService.QueueHoldsIff` | apps/api/src/blockchain/blockchain.service.ts:83-120 | a job is queued exactly for a userProfile record of some block, with that block's number and hash and the record's method and data |
| `Users.Find` | apps/api/src/users/users.service.ts:54-60 | the row found is the first match, and nothing is found only when no row matches |
| `Users.UsersService.FindByAccountId` | apps/api/src/users/users.service.ts:54-56 | null exactly when no row has the account |
| `Users.UsersService.Create` | apps/api/src/users/users.service.ts:15-38 | success leaves the table with the new row, an error leaves it as it was |
| `Users.CreateRefusedIff` | apps/api/src/users/users.service.ts:16-34 | a create is refused exactly for an account that has a row or a non-empty name some row holds |
| `Users.CreateExactly` | apps/api/src/users/users.service.ts:36-37 | else one row with a fresh id, the account and the given columns is added, all other columns null |
| `Users.UsersService.Update` | apps/api/src/users/users.service.ts:62-78 | success leaves the table with the changed row, an error leaves it as it was |
| `Users.UpdateExactly` | apps/api/src/users/users.service.ts:76-77 | absent columns keep, null clears, text replaces; id, account and every other row stay |
| `Users.UsersService.UpdateByAccountId` | apps/api/src/users/users.service.ts:80-89 | the update of the account's row, or not found |
| `Users.UsersService.Remove` | apps/api/src/users/users.service.ts:91-94 | drops the one row, or not found |
| `Users.UpdateRefusedIff` | apps/api/src/users/users.service.ts:62-74 | not found exactly when no row has the id; conflict exactly when another row holds the non-empty name |
| `Users.RemoveExactly` | apps/api/src/users/users.service.ts:91-94 | exactly the row with the id is gone, every other row stays, and not found means no row has the id |
| `Users.ByAccountIsById` | apps/api/src/users/users.service.ts:80-89 | updating by account changes the one row of that account, as updating by id does |
| `Users.UnknownAccountNotFound` | apps/api/src/users/users.service.ts:84-87 | updating by account is not found exactly when no row has the account |
| `Users.OperationsKeepTable` | apps/api/src/users/users.service.ts:15-94 | every sequence of operations keeps ids, account ids and non-empty usernames pairwise distinct |
| `EventProcessor.Worker.HandleUserProfileEvent` | apps/api/src/blockchain/event-processor.ts:21-54 | dispatches on the method; table and error are those of the handler, unknown methods change nothing |
| `EventProcessor.Worker.HandleUsernameSet` | apps/api/src/blockchain/event-processor.ts:56-140 | object form, array form and missing account are read as one specification, and the row is updated or created |
| `EventProcessor.Worker.HandleProfileUpdated` | apps/api/src/blockchain/event-processor.ts:142-203 | the same for the profile event with its three fields |
| `EventProcessor.Worker.HandleStatsUpdated` | apps/api/src/blockchain/event-processor.ts:205-237 | a present race or win field is a type error and leaves the table alone; without one the account's row is found or created |
| `EventProcessor.Worker.FindOrCreate` | apps/api/src/blockchain/event-processor.ts:125-139 | finds by account, then updates by id or creates |
| `EventProcessor.UnknownMethodIgnored` | apps/api/src/blockchain/event-processor.ts:44-45 | an unknown method changes nothing and is no error |
| `EventProcessor.NoDataFails` | apps/api/src/blockchain/event-processor.ts:67-69 | absent or null data is a type error in all three handlers |
| `EventProcessor.NoAccountFails` | apps/api/src/blockchain/event-processor.ts:118-120 | without a named or a first account both profile handlers fail and leave the table alone |
| `EventProcessor.HandlersReadAlike` | apps/api/src/blockchain/event-processor.ts:67-83 | both profile handlers take account and username from the same places, for every payload |
| `EventProcessor.FailureKeepsTable` | apps/api/src/blockchain/event-processor.ts:47-53 | a job that fails leaves the table as it was |
| `EventProcessor.StatsNumberFails` | apps/api/src/blockchain/event-processor.ts:207-208 | a number of races or wins, by position or by name, is a type error |
| `EventProcessor.HandleKeepsNamesFit` | apps/api/src/blockchain/event-processor.ts:108-116 | whatever the payload, no username longer than 32 code units is stored |
| `Projection.HandlerReadsEvent` | apps/api/src/blockchain/event-processor.ts:64-201 | from the payload of an event, by position or with named or numbered fields, the handlers recover its account and the text of its fields |
| `Projection.BlockStored` | apps/api/src/blockchain/event-processor.ts:127-132 | a username event stores its block in the row the account has, a profile event leaves that column; id and account stay |
| `Projection.BlockNotStoredOnCreate` | apps/api/src/blockchain/event-processor.ts:133-139 | a row made by an event has no block |
| `Projection.ClashInTable` | apps/api/src/users/users.service.ts:26-34 | a row search for a name succeeds outside the account's own row exactly when another account holds it |
| `Projection.UpdateRefines` | apps/api/src/users/users.service.ts:62-78 | on a table with distinct rows an update puts the change on the account's row, and conflicts exactly with another account's name |
| `Projection.CreateRefines` | apps/api/src/users/users.service.ts:15-38 | the same for a row that does not exist yet |
| `Projection.StatsHandlerFails` | apps/api/src/blockchain/event-processor.ts:205-209 | every stats event of the chain ends in a type error with the table unchanged |
| `Projection.StatsOfAccountOnly` | apps/api/src/blockchain/event-processor.ts:218-235 | a stats payload with only an account makes sure the account has a row, and changes none |
| `Projection.HandleRefines` | apps/api/src/blockchain/event-processor.ts:21-54 | one job moves the rows by account as its event says, keeps rows distinct, and fails exactly on a clash or a stats event |
| `Projection.DeliverJobsRefines` | apps/api/src/blockchain/event-processor.ts:21-54 | a whole queue delivered to the empty table gives the rows of its log |
| `Delivery.ConflictFreeIffNoClash` | apps/api/src/users/users.service.ts:66-74 | no job conflicts if and only if no event of the log meets a name held by another account |
| `Delivery.RowIsFoldOfOwnEvents` | apps/api/src/blockchain/event-processor.ts:124-202 | without clashes a row is the fold of its own account's events |
| `Delivery.TablesConverge` | apps/api/src/blockchain/event-processor.ts:124-202 | two conflict-free delivery orders that keep each account's order end with the same rows |
| `Delivery.HeldNameHasEvent` | apps/api/src/blockchain/event-processor.ts:124-202 | a name in a row was brought by an event of the row's account |
| `Delivery.SharedNameClashes` | apps/api/src/users/users.service.ts:26-74 | two accounts with the same name: some order that keeps each account's own order meets a conflict |
| `Delivery.EveryOrderSafeIff` | apps/api/src/users/users.service.ts:26-74 | every order that keeps each account's own order is free of conflicts if and only if no two accounts bring the same name |
| `Delivery.AnyOrderSameTable` | apps/api/src/blockchain/event-processor.ts:124-202 | when no two accounts bring the same name, any two such orders are free of conflicts and end with the same rows |
| `Delivery.RedeliveryClashes` | apps/api/src/users/users.service.ts:66-76 | a log delivered with repeats clashes if and only if the log does |
| `Delivery.SecondDelivery` | apps/api/src/users/users.service.ts:66-76 | delivering an event again changes nothing and ends as before, with no conflict with oneself |
| `Delivery.RedeliveredTable` | apps/api/src/blockchain/blockchain.service.ts:111-117 | delivering each event one or more times in a row gives the same rows, and a conflict if and only if the single delivery has one |
| `Simulation.AcceptedNameIsFree` | packages/solochain-template/pallets/user-profile/src/lib.rs:130-133 | a name the pallet accepts is held by no other row |
| `Simulation.SimulationStep` | apps/api/src/blockchain/event-processor.ts:124-202 | an accepted call and the delivery of its event keep chain and rows related |
| `Simulation.Simulation` | apps/api/src/blockchain/event-processor.ts:124-202 | for every run over names that keep their identity the rows mirror the chain and no event clashes |
| `Simulation.FaithfulIffNamesOk` | apps/api/src/users/users.service.ts:26-74 | all runs over a set of usernames are mirrored without conflict if and only if the names that fit all vanish as text, or none vanishes and no two read the same |
| `Simulation.IndistinctNamesClash` | apps/api/src/users/users.service.ts:26-34 | two accounts whose names read the same: the second event ends in a conflict, and its account has a profile but no row |
| `Simulation.VanishingNameStale` | apps/api/src/blockchain/event-processor.ts:129-132 | after a name without visible text the chain has the new name and the row still shows the one before it |
| `Simulation.NulNamesClash` | apps/api/src/blockchain/event-processor.ts:96 | `a` and `a` followed by NUL read the same, so a run with both is not mirrored |
| `Simulation.CleanNamesAreOk` | apps/api/src/blockchain/event-processor.ts:116 | non-empty valid UTF-8 without NUL keeps its identity |
| `Simulation.EveryLogHasBlocks` | apps/api/src/blockchain/blockchain.service.ts:83-120 | every log is held by some blocks |
| `Simulation.TableFollowsChain` | apps/api/src/blockchain/event-processor.ts:21-203 | through blocks, queue and worker, at every lag the table mirrors an earlier chain state and the next job fails only if it is a stats job |
| `Details.DetailGoesStaleIff` | packages/solochain-template/pallets/user-profile/src/lib.rs:148-232 | an agreeing avatar or bio stops agreeing exactly when its owner clears a value the row shows |
| `Details.DetailsOverRuns` | packages/solochain-template/pallets/user-profile/src/lib.rs:148-232 | over every run the table shows the value its owner gave last, and the chain the same unless it was taken away since |
| `Details.DetailStaleIff` | apps/api/src/blockchain/event-processor.ts:129-194 | after every run chain and table disagree on a detail exactly when it was given, then taken away, and not given since |
| `Details.AvatarEndsStale` | packages/solochain-template/pallets/user-profile/src/lib.rs:148-154 | an avatar followed by set_username with the same name: none on chain, the old one in the table |
| `Simulation.ConflictFreeOrderFollowsChain` | apps/api/src/blockchain/event-processor.ts:124-202 | jobs delivered in another order without a conflict still give the names and details of the chain |
| `Simulation.ReorderedDeliveryFollowsChain` | apps/api/src/blockchain/event-processor.ts:124-202 | when no two accounts of a run bring the same name, jobs in any order that keeps each account's own order meet no conflict and give the chain's names and details |
| `Simulation.ReorderingCanLoseRow` | apps/api/src/users/users.service.ts:26-34 | an order that keeps each account's own order but conflicts ends without the second account's row |
| `Pipeline.RunCalls` | packages/solochain-template/pallets/user-profile/src/tests.rs:6-16 | dispatching calls one at a time reaches the state of the run |
| `Pipeline.Listen` | apps/api/src/blockchain/blockchain.service.ts:58-80 | blocks handed over one at a time fill the queue of those blocks |
| `Pipeline.DeliverQueue` | apps/api/src/blockchain/event-processor.ts:21-54 | delivering jobs one at a time through the worker gives the table of the queue |
| `Pipeline.Mirror` | apps/api/src/blockchain/event-processor.ts:21-203 | pallet, listener and worker run in turn end with a table that mirrors the pallet, for all calls over names that keep their identity |

## Left out

- EventProcessor.Worker.HandleStatsUpdated: does not store distance and rewards, which the handler writes only when
  a payload lacks races and wins; no payload of the chain does.
- Stats columns of the table: no payload of the chain reaches them.
- `createdAtBlock`: kept in the row but not in the rows by account, since it is absent on create and rewritten on
  every later username event, so it does not mirror `created_at`.
- Overlapping block callbacks, forks, queue back-off, a failing queue, and overlapping check-then-save calls.
- Column limits and the unique constraint of the database, timestamps, and the entity a save returns.
- An account field that is not text: the handlers end in an error of the model, the database library decides in the program.
- Array elements that are not numbers in a byte array: read as 0, where JavaScript would convert numeric strings.
- Booleans in payloads, and the hexadecimal form of numbers above 2^53 in stats events.
- Signature checks, fees, weights, storage key hashing and SS58 encoding.
- Limits of other configurations: the two length bounds are those of the runtime, 32 and 256.
- Width of block numbers: unbounded, so the conversion to 64 bits never saturates.
- The listing and lookup routes that only read, the simple-counter and template pallets, and the web pages.
