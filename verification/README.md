# Mudcroft server: verified model

The server keeps a shared text world alive: it replicates its database with Raft, runs combat and status effects,
checks who may build where, moves values between JSON and Lua, and keeps players' sessions over brief disconnects. This
project models the stateful and the parsing parts of that server and proves what they keep over every run, what they
give back, and exactly when they fail to.

Each component is a module of values and functions, with its laws as lemmas, and, where the server updates fields in
place, a class in a module of its own whose methods are proved to take exactly the specified steps.

| file | component |
|---|---|
| `RaftLogTable.dfy`, `RaftStorage.dfy`, `CombinedStorage.dfy` | the Raft log as a table, applying entries, snapshots, restarts and crashes |
| `CombatGraph.dfy`, `CombatManager.dfy` | who attacks whom, held in two places |
| `ObjectPaths.dfy`, `Permissions.dfy`, `Delegation.dfy`, `PermissionManager.dfy` | paths, coverage, the grant cache and its table, delegation over whole runs |
| `LuaJson.dfy` | the two converters and their normal form |
| `GracePeriod.dfy`, `ConnectionManager.dfy` | sockets, delayed disconnect tasks and the map between them, interleaved |
| `Effects.dfy`, `EffectCodec.dfy`, `EffectRows.dfy`, `StoredEffects.dfy`, `EffectRegistry.dfy` | status effects, their accounting, their stored rows |
| `Classes.dfy`, `ClassRegistry.dfy` | class inheritance |
| `RateLimiter.dfy`, `RateLimiterState.dfy` | the token bucket |
| `Dice.dfy` | dice notation, two parsers, three rollers |
| `Timers.dfy`, `TimerManager.dfy` | one-shot timers and heartbeats |
| `CreateCommand.dfy` | arguments of the create command |
| `Wrappers.dfy`, `Integers.dfy`, `Text.dfy` | optional values, machine integers and their text, strings |

How the world outside enters:

- In the combat graph and in the sessions each section under a lock is one step, and runs interleave them freely. In the
  other components each operation is one step; `FetchRaceIff`, `GrantRaceIff`, `RevokeRace`, `AddHalfKeepsAgreeIff`,
  `SyncRepairsIff`, `AddTickRaceIff` and `OverlapHandsOutTwiceIff` say what becomes of operations that overlap.
- Database writes succeed, as the managers only log a failure.
- SQL from a log entry is a deterministic function on the game tables; the Raft tables are maps.
- Clocks, random rolls, new ids and the choice of the select are arguments or free choices of the run.
- Iteration over a hash map takes the keys in any order; over a `BTreeMap` in ascending order.
- Fixed-width arithmetic is written out where it can show: signed columns for unsigned indices, 32-bit dice totals as a
  release build wraps them.

Where the code does not meet the law one would expect, the law is stated with the exact condition under which it holds:

- Raft: an entry at index i64::MAX or above is stored and never read by the unbounded read (`UnboundedReadSeesIff`); a
  snapshot built by a builder made before further entries were applied, or while an apply call is under way, replays
  right if and only if none of them was a request (`StaleReplayIff`), and its marks tell only of completed calls
  (`StaleBuilderIff`); an install brings the sender's log and vote rows along (`InstallKeepsLogIff`,
  `VoteSurvivesInstallIff`) and closes the connections of earlier readers and builders; entries are executed again after
  a crash (`ExactlyOnceIff`).
- Combat: retargeting, the two locks of `remove_entity`, the check before an initialisation and the write-back of a clone
  leave stale links. `RunSoundIff` and `RunExactIff` give the exact condition over every interleaving.
- Grants: the table replaces where the cache appends (`Permissions.RunAgreesIff`, `RegrantThenRevoke`), a fetch that
  overlaps other operations may cache what was (`FetchRaceIff`, `GrantRaceIff`), and a revocation inside a grant leaves
  it served (`RevokeRace`).
- Effects: every persisted change of hit points replaces the combat row and with it deletes the entity's stored effects,
  until its next tick writes them again (`EffectRows.RunAgreesIff`, `RunAgreesOn`); an addition that overlaps a tick may
  be lost from the rows (`AddTickRaceIff`).
- JSON: `NormalIff` and `SurvivesIff` say which values make the trip; keys that print alike leave the outcome open
  (`ClashGoesEitherWay`).
- Sessions: a disconnect can be handled under a live session after the branch was taken (`HandledUnderSessionIff`), with
  a select that does not prefer the cancel (`TimerUnderSessionIff`), or with overlapping sockets (`OverlapFiresIff`).
- Classes: nothing stops a registration that closes a cycle, on which `get_chain` never returns
  (`RegisterKeepsWellFoundedIff`); the methods that walk a chain therefore ask that the walk ends.
- Dice: `max` and the 32-bit totals wrap (`RollsWithinBoundsIff`); the two parsers differ (`DiceReadsScriptIff`).
- Create: a description with an equals sign becomes a property (`CreateRoundTripIff`).
- `check` of the rate limiter says yes to a new account even if buckets hold nothing (`CheckPredictsIff`).

## Model

| member | source | states |
|---|---|---|
| `RaftLogTable.RowRoundTrip` | mudd/src/raft/storage.rs:120-159 | An entry written as a row and read back keeps index, term and payload for every index and term up to 2^64; only the leader's node id becomes 0 |
| `RaftLogTable.ReadsOnlyWritten` | mudd/src/raft/storage.rs:120-159 | A row that can be read is what its entry is written as, but for the payload of a blank one; every other row is an error |
| `RaftLogTable.AppendRefines` | mudd/src/raft/storage.rs:375-422 | Row-by-row upsert of a hole-free batch turns the table of a log into the table of the appended log: overlapping rows are replaced, later ones stay |
| `RaftLogTable.TruncateRefines` | mudd/src/raft/storage.rs:424-435 | Deleting from a conflict index leaves exactly the log cut at that index |
| `RaftLogTable.PurgeRefines` | mudd/src/raft/storage.rs:437-455 | Deleting up to an index leaves exactly the log that starts just after it |
| `RaftLogTable.SelectAll` | mudd/src/raft/storage.rs:222-257 | Every select between two keys decodes, without error, to exactly the abstract slice in order |
| `RaftLogTable.ReadRefines` | mudd/src/raft/storage.rs:222-257 | For included, excluded and missing bounds, a range read returns exactly the abstract slice, in order, with index, term and payload |
| `RaftLogTable.LastLogIdRefines` | mudd/src/raft/storage.rs:319-341 | The reported last log id is the last entry's, and none when the table is empty, also after a purge |
| `RaftLogTable.UnboundedReadSeesIff` | mudd/src/raft/storage.rs:222-257 | An entry is seen by the unbounded read if and only if its index is below i64::MAX, because of the casts to i64 |
| `RaftLogTable.TruncateKeepsIff` | mudd/src/raft/storage.rs:424-435 | Exactly which entries survive a truncation once indices reach 2^63 and wrap to negative keys |
| `RaftStorage.StepKeepsLog` | mudd/src/raft/storage.rs:375-455 | Each log operation, apply, vote, restart, and install followed by its purge takes a table that represents a log starting after last_purged to one that represents the next log |
| `RaftStorage.RunKeepsLog` | mudd/src/raft/storage.rs:375-455 | Over every run in Raft's calling order, installs of snapshots included, the stored indices are one interval starting just after last_purged |
| `RaftStorage.RunReads` | mudd/src/raft/storage.rs:222-257 | After every such run each range read is the abstract slice and the last log id is the abstract one |
| `RaftStorage.VoteRoundTrip` | mudd/src/raft/storage.rs:343-361 | A vote read back from its signed columns is the vote saved |
| `RaftStorage.OtherVoteRows` | mudd/src/raft/storage.rs:76-95 | A vote row without a node id reads as node 0, and any flag but 0 as committed |
| `RaftStorage.RunKeepsVote` | mudd/src/raft/storage.rs:343-361 | After any run, memory and row hold the last saved vote, restarts included; only an installed file changes the row, to its sender's vote |
| `RaftStorage.ApplyConcat` | mudd/src/raft/storage.rs:467-503 | Applying two lists of entries in turn is applying their concatenation, states and responses |
| `RaftStorage.BatchesFlatten` | mudd/src/raft/storage.rs:467-503 | How entries are split into apply calls changes neither the tables, the membership, last_applied nor the responses |
| `RaftStorage.ResponseOfEach` | mudd/src/raft/storage.rs:467-503 | There is one response per entry, and the i-th is the i-th entry's own answer on the state before it |
| `RaftStorage.GameIsOfRequests` | mudd/src/raft/storage.rs:467-503 | The tables after any entries are what their requests, in order, make of the tables before, whatever stands between |
| `RaftStorage.ResponseIsOfRequest` | mudd/src/raft/storage.rs:467-503 | The i-th response is success with no rows for a blank entry or a membership change, and for a request its answer on the tables that the requests before it leave |
| `RaftStorage.MembershipIsLastChange` | mudd/src/raft/storage.rs:467-503 | The membership after any entries is that of the last change among them, under that entry's log id, and without a change the one before |
| `RaftStorage.SnapshotDescribes` | mudd/src/raft/storage.rs:261-311 | A snapshot names the last entry applied, in its last log id and in its own id, and carries the last change's membership and the tables that the requests made |
| `RaftStorage.SnapshotThenTail` | mudd/src/raft/storage.rs:261-311 | A follower that installs a snapshot and applies the tail reaches the leader's tables, membership and last_applied and gives the same responses, for every batching on either side |
| `RaftStorage.SnapshotEqualsFullReplay` | mudd/src/raft/storage.rs:261-311 | Snapshot at entry i plus entries i+1..n equals entries 1..n in one go: same tables, membership, last_applied and responses |
| `RaftStorage.InstallAgreesIff` | mudd/src/raft/storage.rs:523-580 | An install leaves the follower in the sender's state if and only if both know their file path or the tables were equal anyway |
| `RaftStorage.InstalledIsPassedOn` | mudd/src/raft/storage.rs:523-595 | The snapshot that a follower has installed is the current one it passes on: a third node that installs it reaches the leader's state too |
| `RaftStorage.NewFile` | mudd/src/raft/storage.rs:39-118 | A new file stands for the empty log from index 0 on, with no vote, nothing applied and no members, and its snapshot has the id 0-0 |
| `RaftStorage.StaleBuilderIff` | mudd/src/raft/storage.rs:467-515 | The mark beside a snapshot's file differs from the mark inside it if and only if an apply call was completed between creating the builder and building; entries of a call under way have run and do not show |
| `RaftStorage.StaleBuilderRunsTwice` | mudd/src/raft/storage.rs:505-515 | Such a snapshot makes the follower execute the entry a second time |
| `RaftStorage.StaleReplayWithoutRequests` | mudd/src/raft/storage.rs:467-515 | If no request was applied in between, in a completed call or in one under way, a snapshot from a stale builder plus the entries after its mark equals full replay, for every database, every meaning of the statements and every tail |
| `RaftStorage.StaleReplayCounts` | mudd/src/raft/storage.rs:467-515 | A database that counts its statements shows every stale snapshot with a request in between to replay wrong, even if the request's call was still under way |
| `RaftStorage.StaleReplayIff` | mudd/src/raft/storage.rs:467-515 | On a database of numbers, snapshot plus tail equals full replay for every meaning of the statements if and only if no request was applied between creating the builder and building, in a completed call or in one under way |
| `RaftStorage.InstallThenPurge` | mudd/src/raft/storage.rs:523-580 | The installed file brings the sender's log with it; purging to the snapshot's mark leaves the sender's tail as a sound log |
| `RaftStorage.InstallKeepsLogIff` | mudd/src/raft/storage.rs:523-580 | Right after the install the log invariant holds if and only if both nodes had purged up to the same mark |
| `RaftStorage.VoteSurvivesInstallIff` | mudd/src/raft/storage.rs:523-580 | The follower's own vote survives a restart after the install if and only if no file was restored or the sender had saved the same vote |
| `RaftStorage.ReplayIsSafe` | mudd/src/raft/storage.rs:76-118 | From any starting mark, an empty file or a restored one, and after any number of crashes between executing and persisting: the persisted mark names only executed entries, every entry from the start up to it ran, none before its predecessor, the tables are what the executions make of them, and the surplus executions are exactly what the crashes forgot |
| `RaftStorage.PersistedSurvives` | mudd/src/raft/storage.rs:467-503 | What has been persisted no crash forgets |
| `RaftStorage.ExactlyOnceIff` | mudd/src/raft/storage.rs:76-118 | From any starting mark, every entry runs exactly once, in order, if and only if no crash forgot an executed entry |
| `CombinedStorageClass.CombinedStorage.constructor` | mudd/src/raft/storage.rs:39-118 | Opening a file yields exactly the vote, purge mark and apply mark that the file holds |
| `CombinedStorageClass.CombinedStorage.Copy` | mudd/src/raft/storage.rs:505-515 | The builder and the log reader are copies of the fields that share the file and its connections |
| `CombinedStorageClass.CombinedStorage.SaveVote` | mudd/src/raft/storage.rs:343-361 | Takes the specified step on row and field |
| `CombinedStorageClass.CombinedStorage.AppendToLog` | mudd/src/raft/storage.rs:375-422 | The transaction loop performs exactly the upsert of the whole batch and nothing else |
| `CombinedStorageClass.CombinedStorage.TryGetLogEntries` | mudd/src/raft/storage.rs:222-257 | The decoding loop returns the specified read or the first row's error, and an error when an install has closed the shared connections |
| `CombinedStorageClass.CombinedStorage.GetLogState` | mudd/src/raft/storage.rs:319-341 | The reported id is the greatest stored one, none exactly for an empty table; under the log invariant the purge mark is where the abstract log starts and the id is its last entry's |
| `CombinedStorageClass.CombinedStorage.DeleteConflictLogsSince` | mudd/src/raft/storage.rs:424-435 | Takes the specified truncation step and keeps every other field |
| `CombinedStorageClass.CombinedStorage.PurgeLogsUpTo` | mudd/src/raft/storage.rs:437-455 | Takes the specified purge step on rows, mark row and field |
| `CombinedStorageClass.CombinedStorage.ApplyToStateMachine` | mudd/src/raft/storage.rs:467-503 | The loop over the batch computes the specified state and responses and then persists last_applied |
| `CombinedStorageClass.CombinedStorage.BuildSnapshot` | mudd/src/raft/storage.rs:261-311 | Builds the specified snapshot, which only the builder's own copy remembers, or fails, exactly when it knows its path and an install has closed the shared connections |
| `CombinedStorageClass.CombinedStorage.InstallSnapshot` | mudd/src/raft/storage.rs:523-580 | Installs as specified, closing the connections shared with earlier copies and opening its own when a file is restored, and changes nothing when the bytes do not parse |
| `CombatGraph.InitiateKeepsSound` | mudd/src/combat/state.rs:385-408 | Starting a fight keeps every target tracked and listing its attacker, and the in-combat flag right |
| `CombatGraph.InitiateKeepsExactIff` | mudd/src/combat/state.rs:385-408 | attackers stays the exact inverse of attacking if and only if the attacker does not leave another target |
| `CombatGraph.InitiateLinks` | mudd/src/combat/state.rs:385-408 | After a fight starts the attacker has the defender as its one target, the defender lists one more attacker, both are in combat, and no other link comes or goes |
| `CombatGraph.EndCombatClears` | mudd/src/combat/state.rs:488-518 | After end_combat(e) nobody targets e, e is out of combat, and the graph is sound |
| `CombatGraph.EndCombatFrame` | mudd/src/combat/state.rs:488-518 | Entities without a targeting link to or from e are unchanged |
| `CombatGraph.EndCombatLinks` | mudd/src/combat/state.rs:488-518 | Exactly which links are left: none from e, none to e from those it listed, none of e on the list of its target, nobody on its own |
| `CombatGraph.EndCombatKeepsExact` | mudd/src/combat/state.rs:488-518 | An exact inverse stays exact and nobody lists e any more |
| `CombatGraph.EndCombatInOrder` | mudd/src/combat/state.rs:488-518 | The code's order of updates, loop over attackers first, gives the order-free result |
| `CombatGraph.DropKeepsSoundIff` | mudd/src/combat/state.rs:521-537 | Deleting a state keeps the graph sound if and only if no other entity targets it |
| `CombatGraph.RemoveEntityClears` | mudd/src/combat/state.rs:521-537 | After remove_entity(e) e is gone, nobody targets it, and soundness and exactness hold as before |
| `CombatGraph.InitKeepsSoundIff` | mudd/src/combat/state.rs:263-294 | Initialising replaces the state: sound if and only if nobody else targets the entity, which is always so when it is absent |
| `CombatGraph.InitAbsentKeepsExact` | mudd/src/combat/state.rs:263-294 | Initialising an absent entity keeps the inverse exact |
| `CombatGraph.EndUndoesInitiate` | mudd/src/combat/state.rs:385-518 | Ending a newly started fight restores the very same world |
| `CombatGraph.RetargetStrands` | mudd/src/combat/state.rs:399-405 | After a retarget and end_combat, the first target stays in combat with an attacker that has left |
| `CombatGraph.RemovalRace` | mudd/src/combat/state.rs:521-537 | An attack between the two locked sections of remove_entity always leaves a target that is not tracked |
| `CombatGraph.SaveKeepsSoundIff` | mudd/src/combat/state.rs:361-370 | Putting a saved copy back keeps the graph sound if and only if its flag is right, it lists everyone who targets the entity by now, and its own target lists the entity |
| `CombatGraph.SaveKeepsExactIff` | mudd/src/combat/state.rs:361-370 | It keeps the inverse exact if and only if the copy has exactly the links that the others have with the entity |
| `CombatGraph.UndisturbedWriteBack` | mudd/src/api/websocket.rs:966-969 | With nothing in between, cloning, setting hit points and putting back changes the hit points only |
| `CombatGraph.WriteBackRaceIff` | mudd/src/api/websocket.rs:966-969 | An attack between the clone and the write-back is kept if and only if the clone listed the attacker already |
| `CombatGraph.NeverReleased` | mudd/src/api/websocket.rs:966-969 | Otherwise the attacker goes on targeting the entity after its removal |
| `CombatGraph.GuardRace` | mudd/src/api/websocket.rs:956-964 | An attack between the check for a missing state and the initialisation always leaves an unlisted attacker |
| `CombatGraph.DropKeepsExactIff` | mudd/src/combat/state.rs:521-537 | Deleting a state keeps the inverse exact if and only if it has no link with another entity |
| `CombatGraph.InitKeepsExactIff` | mudd/src/combat/state.rs:263-294 | So does initialising |
| `CombatGraph.StepKeepsSoundIff` | mudd/src/combat/state.rs:263-537 | For each locked section, exactly when it keeps the graph sound |
| `CombatGraph.StepKeepsExactIff` | mudd/src/combat/state.rs:263-537 | For each locked section, exactly when it keeps the inverse exact |
| `CombatGraph.RunSoundIff` | mudd/src/combat/state.rs:263-537 | Over every interleaving of locked sections, write-backs and both halves of removals included, the graph is sound throughout if and only if each section is safe where it runs |
| `CombatGraph.RunExactIff` | mudd/src/combat/state.rs:263-537 | And the inverse is exact throughout if and only if each section keeps it so where it runs |
| `CombatGraph.PointsAreLastSet` | mudd/src/combat/state.rs:263-537 | Over every interleaving an entity is tracked, and has the hit points and maximum, exactly as the sections that concern it last left it: 100 of 100 when a fight brings it in, full when initialised, gone when dropped |
| `CombatGraph.RunKeepsSound` | mudd/src/api/websocket.rs:955-1035 | In every run of attack, stop and removal commands that do not overlap, the graph is sound; if no player attacks while targeting another, it is also exact |
| `CombatGraph.AttackOutcome` | mudd/src/api/websocket.rs:955-1035 | A hit that leaves no hit points removes the target and frees the attacker; any other attack links the two, with the hit points due, and changes nobody else |
| `CombatManagerClass.CombatState.StopAttacking` | mudd/src/combat/state.rs:130-135 | The field updates are the specified transition: in_combat goes only when no attacker is left |
| `CombatManagerClass.CombatState.RemoveAttacker` | mudd/src/combat/state.rs:144-149 | The field updates are the specified transition: in_combat goes only when neither attackers nor a target are left |
| `CombatManagerClass.CombatManager.Ensure` | mudd/src/combat/state.rs:385-398 | A missing entity gets one fresh state object; the others keep theirs |
| `CombatManagerClass.CombatManager.InitEntity` | mudd/src/combat/state.rs:263-294 | Puts a fresh, unshared object in place of the old one |
| `CombatManagerClass.CombatManager.GetState` | mudd/src/combat/state.rs:361-364 | Returns an unshared clone, or nothing exactly when the entity has no state |
| `CombatManagerClass.CombatManager.UpdateState` | mudd/src/combat/state.rs:367-370 | Puts the given object in place of whatever the entity has by now |
| `CombatManagerClass.CombatManager.WriteBackHp` | mudd/src/api/websocket.rs:966-969 | Clone, change and put back, undisturbed, is a change of hit points |
| `CombatManagerClass.CombatManager.Prepare` | mudd/src/api/websocket.rs:955-980 | The start of the attack command, undisturbed, initialises exactly the entities that have no state |
| `CombatManagerClass.CombatManager.Initiate` | mudd/src/combat/state.rs:385-408 | In-place updates of the two objects take the specified step of the whole world |
| `CombatManagerClass.CombatManager.EndCombat` | mudd/src/combat/state.rs:488-518 | The loop over the attackers in any order takes the specified step of the whole world |
| `CombatManagerClass.CombatManager.RemoveEntity` | mudd/src/combat/state.rs:521-537 | Ends combat and deletes, as specified |
| `ObjectPaths.CoversTransitive` | mudd/src/permissions/mod.rs:146-158 | Coverage is transitive on all strings |
| `ObjectPaths.CoversAntisymmetric` | mudd/src/permissions/mod.rs:146-158 | Two prefixes that cover each other are equal |
| `ObjectPaths.RenderSegments` | mudd/src/objects/path.rs:110-121 | Every text that starts with a slash is the rendering of its slash-free segments |
| `ObjectPaths.SplitRender` | mudd/src/objects/path.rs:110-121 | Splitting a rendered list of segments gives the list back |
| `ObjectPaths.ValidateIff` | mudd/src/objects/path.rs:93-144 | A path is accepted if and only if its lower-case form has at most 255 bytes and is a list of well-formed segments; the result is that form |
| `ObjectPaths.AcceptsIff` | mudd/src/objects/path.rs:93-144 | The same spelled out: at most 255 bytes, each slash before a segment that begins with a to z and goes on with a to z, 0 to 9 and hyphens |
| `ObjectPaths.RefusedBecause` | mudd/src/objects/path.rs:93-144 | Which error a refused path gets: the first that applies of empty, no leading slash, too long, empty segment; else that of the first segment that does not fit, by its first letter or by a later character |
| `ObjectPaths.ValidateIdempotent` | mudd/src/objects/path.rs:93-144 | A normalized path is accepted again, unchanged |
| `ObjectPaths.ParentOfValid` | mudd/src/objects/path.rs:155-175 | For a valid path: parent drops the last segment and is valid, name is the last segment, parent + "/" + name is the path |
| `ObjectPaths.CoversIffSegmentPrefix` | mudd/src/permissions/mod.rs:146-158 | On valid paths, covering is being a prefix of the segment list |
| `ObjectPaths.CoversIffAncestor` | mudd/src/permissions/mod.rs:146-158 | On valid paths, covering is being an iterated parent |
| `ObjectPaths.RootPrefixCoversNothing` | mudd/src/permissions/mod.rs:146-158 | The prefix "/" covers no valid path, the empty prefix covers every one |
| `Permissions.FetchIsExact` | mudd/src/permissions/mod.rs:558-592 | While cache and table agree, a fetch lists each row of its key exactly once |
| `Permissions.DelegatesIff` | mudd/src/permissions/mod.rs:246-258 | A context may delegate a path if and only if its level is Wizard, Admin or Owner or one of its grants may be passed on and covers the path |
| `Permissions.GrantIff` | mudd/src/permissions/mod.rs:403-465 | A grant succeeds exactly then, with the row and the cached entry that were asked for, under the caller's account; otherwise nothing changes |
| `Permissions.RevokesIff` | mudd/src/permissions/mod.rs:470-522 | A revocation takes the row, and its grant from every list, exactly when the revoker may delegate the path or made the grant; otherwise nothing changes |
| `Permissions.RevokeStaysInUniverse` | mudd/src/permissions/mod.rs:500-522 | Whatever cache and table hold, a revocation touches no row and no list of another universe |
| `Permissions.GrantKeepsAgree` | mudd/src/permissions/mod.rs:403-465 | A grant on a free slot keeps every cached list equal to its rows |
| `Permissions.GrantKeepsAgreeIff` | mudd/src/db/mod.rs:298-309 | A grant keeps cache and table in agreement if and only if no row holds its universe, grantee and prefix already: the table replaces where the cache appends |
| `Permissions.DropKeepsAgree` | mudd/src/permissions/mod.rs:500-522 | Deleting a row and filtering its grantee's cached list keeps the agreement |
| `Permissions.RevokeKeepsAgree` | mudd/src/permissions/mod.rs:470-556 | Revoking by id, with the lookup that prefers the cache, keeps the agreement |
| `Permissions.RunKeepsAgree` | mudd/src/permissions/mod.rs:558-614 | From a loaded cache, in every run of whole operations without re-grants, get_path_grants returns exactly the table's rows |
| `Permissions.NextAgreesIff` | mudd/src/permissions/mod.rs:403-522 | An operation breaks the agreement if and only if it is a successful grant on a live universe, grantee and prefix |
| `Permissions.RunAgreesIff` | mudd/src/permissions/mod.rs:403-522 | With new ids for new grants, cache and table agree throughout a run of whole operations if and only if no grant in it names a live slot |
| `Permissions.LevelIsLastSet` | mudd/src/permissions/mod.rs:331-400 | Over every run a stored account has the level last set, or the one it started with; any other has the level last set since the last restart, or Player |
| `Permissions.ContextCachesLevel` | mudd/src/permissions/mod.rs:371-400 | A context is made with the level of the moment, which for a stored account is then cached |
| `Permissions.FetchRaceIff` | mudd/src/permissions/mod.rs:558-592 | Storing rows selected before other operations ran keeps the agreement if and only if those left the rows of the key alone |
| `Permissions.GrantIsItsHalves` | mudd/src/permissions/mod.rs:403-465 | grant_path is its insert and then its push |
| `Permissions.GrantRaceIff` | mudd/src/permissions/mod.rs:403-465 | A fetch by the grantee between the two is harmless if and only if the list was cached before; otherwise the grant is cached twice |
| `Permissions.RevokeRace` | mudd/src/permissions/mod.rs:403-522 | A revocation of the new grant between the two always leaves a grant that is cached and has no row |
| `Permissions.RegrantThenRevoke` | mudd/src/permissions/mod.rs:403-522 | Re-granting a live slot and revoking the new grant leaves no row, while the cache goes on serving the old grant |
| `Delegation.RunKeeps` | mudd/src/permissions/mod.rs:403-522 | In every run from no grants, with contexts used however late, every shown grant was made, and every made grant was a Wizard's or delegable from an earlier one |
| `Delegation.ChainTo` | mudd/src/permissions/mod.rs:246-258 | Every grant ends a chain of earlier grants, each delegable when used, that starts at a Wizard's |
| `Delegation.ChainCovers` | mudd/src/permissions/mod.rs:246-258 | The first prefix of such a chain covers the last, in the same universe |
| `Delegation.NeverAmplifies` | mudd/src/permissions/mod.rs:246-258 | Every path opened by a live grant is covered by a prefix that a Wizard or higher granted earlier in the same universe |
| `Delegation.RowIsMade` | mudd/src/permissions/mod.rs:403-465 | Every row was made by the last successful grant under its id and says what that asked for, under the account that asked |
| `Delegation.RevokesOwnIff` | mudd/src/permissions/mod.rs:470-522 | In every run, where cache and table agree, a revocation removes a row if and only if the revoker is Wizard, Admin or Owner, is the account whose grant made the row, or holds a covering grant that may be passed on; otherwise rows and lists stay as they were |
| `Delegation.GrantIgnoresContextUniverse` | mudd/src/permissions/mod.rs:403-418 | grant_path itself does not compare universes: the outcome depends on the context's level and prefixes only |
| `PermissionManagerClass.PermissionManager.constructor` | mudd/src/permissions/mod.rs:594-614 | Loading row by row builds a cache that agrees with the table |
| `PermissionManagerClass.PermissionManager.SetAccessLevel` | mudd/src/permissions/mod.rs:331-368 | Updates the cached level always and the account only if it exists |
| `PermissionManagerClass.PermissionManager.GetAccessLevel` | mudd/src/permissions/mod.rs:371-400 | Cached level, else the account's, else Player; the account's is then cached |
| `PermissionManagerClass.PermissionManager.GrantPath` | mudd/src/permissions/mod.rs:403-465 | Takes the specified step on table and cache, or refuses and changes nothing |
| `PermissionManagerClass.PermissionManager.GetPathGrantById` | mudd/src/permissions/mod.rs:525-556 | Finds a cached match in any order of the lists, else the row, else nothing |
| `PermissionManagerClass.PermissionManager.RevokePath` | mudd/src/permissions/mod.rs:470-522 | Not found, refused or dropped, exactly by the three revocation rules |
| `PermissionManagerClass.PermissionManager.GetPathGrants` | mudd/src/permissions/mod.rs:558-592 | The cached list, else the rows of the key in any order, which are then cached |
| `PermissionManagerClass.PermissionManager.GetUserContext` | mudd/src/permissions/mod.rs:617-628 | A context carries the level and grants of the moment |
| `LuaJson.RoundTrip` | mudd/src/lua/game_api.rs:1812-1916 | For every JSON tree the way to Lua and back succeeds and gives the normal form and nothing else, in whatever order keys are visited |
| `LuaJson.NearestFloatIsNearest` | mudd/src/lua/game_api.rs:1887-1916 | An unsigned number from 2^63 on becomes the nearest multiple of 2048, the even one of two as near |
| `LuaJson.NormalizeIsNormal` | mudd/src/lua/game_api.rs:1812-1916 | The normal form has no null members, no trailing nulls, no empty arrays and no number outside i64 and float |
| `LuaJson.NormalIff` | mudd/src/lua/game_api.rs:1812-1916 | A tree comes back unchanged if and only if it is normal |
| `LuaJson.NormalizeIdempotent` | mudd/src/lua/game_api.rs:1812-1916 | A second trip changes nothing |
| `LuaJson.LuaOfNormal` | mudd/src/lua/game_api.rs:1887-1916 | Lua cannot tell a tree from its normal form |
| `LuaJson.SameInLuaIff` | mudd/src/lua/game_api.rs:1887-1916 | Two trees look the same to Lua if and only if their normal forms are equal |
| `LuaJson.ListSurvivesIff` | mudd/src/lua/game_api.rs:1812-1854 | A list-like table, holes allowed, comes back the same from every outcome if and only if its elements do |
| `LuaJson.RecordSurvivesIff` | mudd/src/lua/game_api.rs:1812-1854 | Any other table does if and only if its keys are all strings and its members do |
| `LuaJson.SurvivesIff` | mudd/src/lua/game_api.rs:1812-1854 | A Lua value comes back the same from everything it may become if and only if it is plain data: every table a list or a record |
| `LuaJson.SomeOutcome` | mudd/src/lua/game_api.rs:1812-1854 | Every value without unreadable keys inside has an outcome |
| `LuaJson.ClashGoesEitherWay` | mudd/src/lua/game_api.rs:1845-1851 | Where two keys print alike, as 1 and "1" do, either value may be the one kept |
| `LuaJson.RecordMembers` | mudd/src/lua/game_api.rs:1845-1851 | A table that is no list becomes an object with a member for each integer key in decimal, each float key as printed and each string key as it is, and no other; each member is an outcome of the value of a key with that reading |
| `LuaJson.LoneKeyMember` | mudd/src/lua/game_api.rs:1845-1851 | Where only one key reads so, the member is an outcome of that key's value |
| `LuaJson.IntegerMeetsItsText` | mudd/src/lua/game_api.rs:1845-1851 | An integer key clashes with the string that prints it |
| `LuaJson.OneMeetsItsText` | mudd/src/lua/game_api.rs:1845-1851 | So 1 and "1" clash, and the value of either may be kept |
| `LuaJson.BecomesNullIff` | mudd/src/lua/game_api.rs:1812-1854 | Nil and what has no JSON form become null, and nothing else does |
| `LuaJson.ConvertToLua` | mudd/src/lua/game_api.rs:1887-1916 | The table-filling loops compute the specified conversion |
| `LuaJson.ConvertToJson` | mudd/src/lua/game_api.rs:1812-1854 | The key scan and the filling loops, in any key order, fail exactly for a key that cannot be read as text and else return one of the outcomes |
| `GracePeriod.StepKeepsPending` | mudd/src/api/websocket.rs:61-99 | Every locked step keeps: an uncancelled waiting task's sender is its player's map entry |
| `GracePeriod.OneLiveTask` | mudd/src/api/websocket.rs:421-454 | In every interleaving a player has at most one uncancelled waiting task, and the map holds its sender |
| `GracePeriod.RunKeepsUnused` | mudd/src/api/websocket.rs:61-99 | In every interleaving the map holds only senders that have neither sent nor been dropped |
| `GracePeriod.RunKeepsQuiet` | mudd/src/api/websocket.rs:291-300 | If sockets of a player do not overlap, no uncancelled task of a player waits beside its joining, joined or closing socket |
| `GracePeriod.NoTimerWhileConnected` | mudd/src/api/websocket.rs:430-454 | Without overlap, and if a ready cancel wins the select, no timer branch is taken while the player has a session |
| `GracePeriod.BriefDisconnectNeverHandled` | mudd/src/api/websocket.rs:34-99 | If a ready cancel wins the select, in every interleaving a reconnect less than 5 seconds after the disconnect keeps its timer branch from ever being taken |
| `GracePeriod.BriefDisconnectNeedsTie` | mudd/src/api/websocket.rs:34-99 | Whatever the select prefers, its timer branch is taken only after the deadline and although its cancel is ready |
| `GracePeriod.TimerOpensIff` | mudd/src/api/websocket.rs:430-454 | The timer branch of a waiting task can be taken if and only if 5 seconds have passed since its disconnect and no cancel that wins the select is ready |
| `GracePeriod.CancelledForAReason` | mudd/src/api/websocket.rs:430-454 | A delayed disconnect is called off only after its player has connected, disconnected again or had a disconnect cleared since it was made |
| `GracePeriod.EachStageOnce` | mudd/src/api/websocket.rs:430-454 | In every run a task's timer branch is taken, its entry cleared and its disconnect handled at most once each, in this order, and never beside its cancel branch |
| `GracePeriod.HandledInOrder` | mudd/src/api/websocket.rs:430-454 | A disconnect is handled only after its timer branch was taken and then its entry cleared |
| `GracePeriod.EntryIff` | mudd/src/api/websocket.rs:61-99 | In every interleaving a player has an entry in the map if and only if a disconnect has been scheduled and neither called off nor cleared since |
| `GracePeriod.SessionIff` | mudd/src/api/websocket.rs:92-100 | In every interleaving a player has a session if and only if it has joined and no socket of it has left since |
| `GracePeriod.HandledUnderSessionIff` | mudd/src/api/websocket.rs:430-454 | Without overlap, and if a ready cancel wins the select, a disconnect is handled under a live session if and only if the player has joined since the timer branch was taken and has not left since |
| `GracePeriod.TimerUnderSessionIff` | mudd/src/api/websocket.rs:430-454 | Without overlap, a waiting task of a player with a session has its cancel ready, so its timer branch can be taken if and only if its time has come and the select does not prefer the cancel |
| `GracePeriod.OverlapFiresIff` | mudd/src/api/websocket.rs:415-454 | With overlap, and if a ready cancel wins the select, a timer branch is taken under a live session if and only if the socket that joined last had passed its cancel before that disconnect task was made |
| `GracePeriod.HandledWhileConnected` | mudd/src/api/websocket.rs:430-454 | A continuation that shows it: once the branch is taken, a player can connect before it has run and be handled under a live session |
| `GracePeriod.TimerMayWin` | mudd/src/api/websocket.rs:430-454 | If the select may prefer the timer when both are ready, it can fire under a live session |
| `GracePeriod.OverlapFires` | mudd/src/api/websocket.rs:415-454 | With two sockets of one player, the older one's leaving starts a timer that the newer session does not stop |
| `ConnectionManagerClass.ConnectionManager.CancelPendingDisconnect` | mudd/src/api/websocket.rs:62-71 | Removes the entry and signals its task, or does nothing |
| `ConnectionManagerClass.ConnectionManager.ScheduleDisconnect` | mudd/src/api/websocket.rs:74-84 | Stores a new channel, dropping the sender it replaces |
| `ConnectionManagerClass.ConnectionManager.ClearPendingDisconnect` | mudd/src/api/websocket.rs:87-89 | Drops whatever sender is stored, whoever put it there |
| `ConnectionManagerClass.ConnectionManager.Register` | mudd/src/api/websocket.rs:92-95 | The last registration wins |
| `ConnectionManagerClass.ConnectionManager.Unregister` | mudd/src/api/websocket.rs:98-100 | Removes by player, not by socket |
| `Effects.DamageOverTime` | mudd/src/combat/effects.rs:251-264 | Over n ticks the damage of each type is the sum over effects of magnitude times ticks lived, where an effect of no duration still ticks once |
| `Effects.AddMerges` | mudd/src/combat/effects.rs:209-221 | The first effect of the same type takes the longer duration and the greater magnitude and keeps its source and damage type; a new type goes last |
| `Effects.LoneEffect` | mudd/src/combat/effects.rs:170-188 | What an effect of duration r and magnitude m > 0 does over its life: m * max(1, r) of its damage type; if it has none and regenerates, minus that as physical damage; otherwise nothing |
| `Effects.CanActIff` | mudd/src/combat/effects.rs:243-264 | The entity can act after n ticks if and only if every stun and every paralysis lasts at most n |
| `Effects.GoneIff` | mudd/src/combat/effects.rs:251-264 | No effect is left after n ticks if and only if there was none, or n > 0 and none lasts longer than n |
| `EffectCodec.KindRoundTrip` | mudd/src/combat/effects.rs:53-119 | Every effect type parses back, in lower case, from its printed name |
| `EffectCodec.ParseKindIff` | mudd/src/combat/effects.rs:53-119 | A text reads as a type if and only if it is, in any letter case, the printed name or the short name of that type |
| `EffectCodec.DamageRoundTrip` | mudd/src/combat/effects.rs:457-500 | Every damage type parses back from its stored name |
| `EffectCodec.ParseDamageIff` | mudd/src/combat/effects.rs:457-500 | A text reads as a damage type if and only if it is the stored name of that type; any other reads as none |
| `EffectCodec.RowRoundTrip` | mudd/src/combat/effects.rs:339-367 | An effect read back from its columns is the effect stored |
| `EffectRows.AddKeepsAgree` | mudd/src/combat/effects.rs:323-337 | Appending a row while memory merges keeps: memory holds, for each type, the maximum over its rows |
| `EffectRows.RemoveKeepsAgree` | mudd/src/combat/effects.rs:369-391 | Removing a type from memory and rows keeps the agreement |
| `EffectRows.TickKeepsAgree` | mudd/src/combat/effects.rs:406-441 | Ticking memory and rewriting its rows keeps the agreement |
| `EffectRows.ClearKeepsAgree` | mudd/src/combat/effects.rs:503-517 | Clearing keeps the agreement |
| `EffectRows.CascadeKeepsAgreeIff` | mudd/src/combat/state.rs:296-319 | Deleting or replacing the entity's combat row, as every persisted change of hit points does, keeps the agreement if and only if the entity has no effects in memory |
| `EffectRows.TickAgreesOn` | mudd/src/combat/effects.rs:406-441 | A tick makes memory and rows agree about its entity again, whatever had become of the rows |
| `EffectRows.StepAgreesIff` | mudd/src/combat/effects.rs:323-517 | A whole operation breaks the agreement if and only if it is such a cascade on an entity with effects in memory |
| `EffectRows.RunAgreesOn` | mudd/src/combat/effects.rs:323-517 | After every run of whole operations, cascades included, memory and rows agree about every entity that was ticked or cleared since a cascade last took its rows |
| `EffectRows.RunAgrees` | mudd/src/combat/effects.rs:323-517 | After a run without cascades, or one after which that holds of every entity, they agree altogether, with each type once in memory |
| `EffectRows.RunAgreesIff` | mudd/src/combat/effects.rs:323-517 | They agree throughout a run if and only if no cascade in it strikes an entity with effects in memory |
| `EffectRows.HalvesMake` | mudd/src/combat/effects.rs:323-441 | An addition is its row and then its merge; a tick is its decrements and then the rewriting of the rows |
| `EffectRows.AddHalfKeepsAgreeIff` | mudd/src/combat/effects.rs:323-337 | Either half of an addition alone keeps the agreement if and only if memory holds the type as long and as strong already |
| `EffectRows.SyncRepairsIff` | mudd/src/combat/effects.rs:427-441 | Whatever became of the rows of an entity, the second half of a tick makes them agree again if and only if nothing that has run out is left in memory |
| `EffectRows.AddTickRaceIff` | mudd/src/combat/effects.rs:323-441 | With a whole tick between the halves of an addition, memory and rows agree afterwards if and only if what the tick left had absorbed the effect |
| `EffectRows.SummaryUnique` | mudd/src/combat/effects.rs:209-221 | The rows of a type determine its ticks and magnitude, whatever their order |
| `EffectRows.LoadSums` | mudd/src/combat/effects.rs:444-500 | Folding add over any rows yields each type once, with the maxima of its rows |
| `EffectRows.RowsRebuildMemory` | mudd/src/combat/effects.rs:444-500 | After every run, folding add over the rows read, in any order, rebuilds what memory says of every type, for every entity ticked or cleared since a cascade last took its rows |
| `StoredEffects.LoadStoredIsLoad` | mudd/src/combat/effects.rs:444-500 | Loading, which skips rows of unknown types, is folding add over the rows that can be read |
| `StoredEffects.DeleteDecodes` | mudd/src/combat/effects.rs:369-391 | On rows the server wrote, deleting by the text of a type deletes exactly the rows read as that type |
| `StoredEffects.StepStoredReads` | mudd/src/combat/effects.rs:323-517 | Each operation on the columns is the same operation on the rows read |
| `StoredEffects.RunStoredReads` | mudd/src/combat/effects.rs:323-517 | So is every run |
| `StoredEffects.StoredRowsRebuildMemory` | mudd/src/combat/effects.rs:444-500 | For such an entity, loading the stored columns in any order, among any rows of unknown types, rebuilds what memory says of every type, each type once |
| `EffectRegistryClass.TickOne` | mudd/src/combat/effects.rs:170-188 | The in-place tick and its result are the specified ones |
| `EffectRegistryClass.EntityEffects.Add` | mudd/src/combat/effects.rs:209-221 | The scan merges into the first effect of the type, else pushes |
| `EffectRegistryClass.EntityEffects.Remove` | mudd/src/combat/effects.rs:224-226 | retain keeps exactly the other types in order |
| `EffectRegistryClass.EntityEffects.TickAll` | mudd/src/combat/effects.rs:251-264 | The tick loop and the retain compute the specified list and hits |
| `EffectRegistryClass.EffectRegistry.constructor` | mudd/src/combat/effects.rs:444-500 | The loading loop decodes the columns, skips unknown types and folds add over the rest |
| `EffectRegistryClass.EffectRegistry.AddEffect` | mudd/src/combat/effects.rs:323-337 | Takes the specified step on memory and columns |
| `EffectRegistryClass.EffectRegistry.RemoveEffect` | mudd/src/combat/effects.rs:369-391 | Takes the specified step on memory and columns |
| `EffectRegistryClass.EffectRegistry.Tick` | mudd/src/combat/effects.rs:406-424 | Takes the specified step and returns the hits of the entity |
| `EffectRegistryClass.EffectRegistry.SyncEffectsToDb` | mudd/src/combat/effects.rs:427-441 | The delete and the insert loop leave exactly the active effects as the rows of the entity |
| `EffectRegistryClass.EffectRegistry.Clear` | mudd/src/combat/effects.rs:503-517 | Takes the specified step on memory and columns |
| `Classes.TerminatesIffNoCycle` | mudd/src/objects/class.rs:192-205 | get_chain returns for every name if and only if no class is its own proper ancestor |
| `Classes.RegisterKeepsWellFoundedIff` | mudd/src/objects/class.rs:177-179 | Registering keeps every chain finite if and only if the walk from the new parent does not look the class up, unregistered names counted |
| `Classes.RegisterUnderRegistered` | mudd/src/objects/class.rs:177-179 | Where every parent is registered, the refused parents are exactly the class and its descendants, and every parent stays registered |
| `Classes.RunKeepsWellFounded` | mudd/src/objects/class.rs:177-179 | Every run of admitted registrations keeps every chain finite and every parent registered |
| `Classes.InOrderIsWellFounded` | mudd/src/objects/class.rs:95-174 | Registering new classes parents first is always safe |
| `Classes.BaseIsWellFounded` | mudd/src/objects/class.rs:95-174 | The registry the server starts from has only finite chains and registered parents |
| `Classes.BaseChains` | mudd/src/objects/class.rs:95-174 | The ten chains of the base classes: rooms and regions are things, weapons, armor and containers items, players and npcs living |
| `Classes.BaseHandlerLists` | mudd/src/objects/class.rs:95-174 | The handlers of the ten base classes, inherited ones included, in order |
| `Classes.BaseDefaultValues` | mudd/src/objects/class.rs:95-174 | The default values of the ten base classes, each over those of its parent |
| `Classes.ChainUnfolds` | mudd/src/objects/class.rs:192-205 | The chain of a class is the class and then its parent's chain; an unregistered name has none |
| `Classes.ChainDistinct` | mudd/src/objects/class.rs:192-205 | A chain holds registered classes only and no class twice |
| `Classes.IsAPartialOrder` | mudd/src/objects/class.rs:208-211 | is_a is reflexive exactly on registered classes, antisymmetric and transitive |
| `Classes.AncestorsInLine` | mudd/src/objects/class.rs:208-211 | Two ancestors of one class are ancestors of each other one way |
| `Classes.InheritedIsNearest` | mudd/src/objects/class.rs:214-228 | A class has a property if and only if it or an ancestor defines it, with the nearest definition's value |
| `Classes.InheritedUnfolds` | mudd/src/objects/class.rs:213-228 | A class has its own properties laid over its parent's |
| `Classes.DistinctIsUnion` | mudd/src/objects/class.rs:231-246 | The result list has the same elements, each once, in order of first occurrence |
| `Classes.HandlersAreUnion` | mudd/src/objects/class.rs:231-246 | A class has a handler if and only if it or an ancestor defines it, and no handler is listed twice |
| `Classes.OwnHandlersFirst` | mudd/src/objects/class.rs:230-246 | A class's own handlers come first; behind them, in order, those its parent has and it has not |
| `Classes.RegisterElsewhere` | mudd/src/objects/class.rs:177-246 | Registering a class that a walk does not look up changes no chain, property or handler of that walk |
| `ClassRegistryClass.ClassRegistry.constructor` | mudd/src/objects/class.rs:73-174 | The new registry holds the ten base classes and is well founded |
| `ClassRegistryClass.ClassRegistry.Register` | mudd/src/objects/class.rs:177-179 | Stores under the class's own name |
| `ClassRegistryClass.ClassRegistry.GetChain` | mudd/src/objects/class.rs:192-205 | The while loop ends whenever the walk does, and returns the chain |
| `ClassRegistryClass.ClassRegistry.IsA` | mudd/src/objects/class.rs:208-211 | Decides the ancestor relation |
| `ClassRegistryClass.ClassRegistry.ResolveProperties` | mudd/src/objects/class.rs:214-228 | The reverse loop, with a class's keys in any order, computes what is inherited |
| `ClassRegistryClass.ClassRegistry.ResolveHandlers` | mudd/src/objects/class.rs:231-246 | The nested loops compute the duplicate-free list |
| `RateLimiter.CheckPredictsIff` | mudd/src/venice/mod.rs:203-236 | check foretells consume at the same instant if and only if the account is known or buckets hold a token |
| `RateLimiter.ConsumePays` | mudd/src/venice/mod.rs:216-236 | A success costs its account a whole token or more, and no account gains |
| `RateLimiter.SuccessesArePaid` | mudd/src/venice/mod.rs:216-236 | In any run of attempts the successes of an account are at most its level at the start plus the inflow |
| `RateLimiter.WindowBound` | mudd/src/venice/mod.rs:216-236 | In every run and every window of it, successes of an account are at most max_tokens + refill_rate * length |
| `RateLimiter.BurstIsFullBucket` | mudd/src/venice/mod.rs:216-236 | The bound is met: at one instant a new account gets exactly min(n, max_tokens) of n calls |
| `RateLimiter.WaitedEnough` | mudd/src/venice/mod.rs:216-236 | Waiting for one token since the last success always suffices, whatever was refused meanwhile |
| `RateLimiter.GrantedIff` | mudd/src/venice/mod.rs:216-236 | An account that its last success left k tokens at one time is granted a call at another, with any refusals and other accounts in between, if and only if min(max_tokens, k + rate * elapsed) is at least 1, and is left the whole tokens of the rest |
| `RateLimiter.FullBucketIsOwed` | mudd/src/venice/mod.rs:216-236 | The lower half of the bound: in every run a call succeeds while its account has had fewer successes than max_tokens |
| `RateLimiter.RefusalsLeaveNoTrace` | mudd/src/venice/mod.rs:216-236 | Dropping all refused attempts from a run leaves the same buckets and the same successes |
| `RateLimiter.AccountsAreIsolated` | mudd/src/venice/mod.rs:216-236 | What an account is granted in a run depends on its own attempts only |
| `RateLimiterClass.RateLimiter.constructor` | mudd/src/venice/mod.rs:194-200 | Sixty tokens, one per second, no buckets |
| `RateLimiterClass.RateLimiter.Check` | mudd/src/venice/mod.rs:203-213 | Answers as specified and changes nothing |
| `RateLimiterClass.RateLimiter.Consume` | mudd/src/venice/mod.rs:216-236 | Takes the specified step: tokens truncated and time moved on success only |
| `Dice.RoundTripIff` | mudd/src/combat/dice.rs:75-149 | Printed dice parse back to themselves if and only if count and sides are at least 1 |
| `Dice.ScriptReadsDiceIff` | mudd/src/lua/game_api.rs:1758-1797 | What the combat parser accepts, the script parser reads the same if and only if count is at most 100 and sides at most 1000 |
| `Dice.DiceReadsScriptIff` | mudd/src/combat/dice.rs:88-149 | What the script parser accepts, the combat parser accepts, with the same reading, if and only if the modifier fits 32 bits and has no second minus sign |
| `Dice.RollDice` | mudd/src/combat/dice.rs:152-161 | The wrapping loop computes the wrapped sum of the dice plus the modifier |
| `Dice.RollDetailed` | mudd/src/combat/dice.rs:35-48 | The detailed roller returns the dice and the same total as the plain one |
| `Dice.RollScript` | mudd/src/lua/game_api.rs:1799-1808 | The script roller computes the 64-bit sum |
| `Dice.EverySumComesUp` | mudd/src/combat/dice.rs:152-161 | Every sum from count to count * sides is the sum of some roll |
| `Dice.RollsWithinBoundsIff` | mudd/src/combat/dice.rs:51-58 | min and max bound every roll if and only if the lowest and highest sum wrap around equally often (or span the whole range); without overflow they do and are the exact bounds |
| `Dice.ScriptTotalIff` | mudd/src/lua/game_api.rs:1799-1808 | On the same dice the two rollers agree if and only if the 32-bit total does not overflow |
| `Timers.RunKeepsValid` | mudd/src/timers/mod.rs:158-317 | Memory equals the stored rows after every operation of every run |
| `Timers.DueExactly` | mudd/src/timers/mod.rs:251-259 | A tick hands out exactly the stored timers whose time has come |
| `Timers.DueAscends` | mudd/src/timers/mod.rs:251-269 | It hands them out by ascending id, none twice |
| `Timers.PendingIff` | mudd/src/timers/mod.rs:158-235 | A timer is pending if and only if some call added it and nothing has fired, removed or replaced it since |
| `Timers.FiresIff` | mudd/src/timers/mod.rs:251-271 | While ticks do not overlap, a timer fires at exactly the first tick at or after its time since it was added, unless removed or replaced before |
| `Timers.CallsAre` | mudd/src/timers/mod.rs:251-289 | A tick hands out one call for each due timer, with its object, universe, callback and arguments, then one for each heartbeat that beats, with its own |
| `Timers.FiresItsCall` | mudd/src/timers/mod.rs:251-271 | In every run the call of a timer that fires carries what the timer was added with |
| `Timers.FiresAtMostOnce` | mudd/src/timers/mod.rs:251-271 | Between two firings of a timer lies another add_timer of it |
| `Timers.OverlapHandsOutTwiceIff` | mudd/src/timers/mod.rs:251-259 | Two ticks that list before either removes hand out the same timer if and only if it is pending and due for both |
| `Timers.RestartsChangeNoTimer` | mudd/src/timers/mod.rs:292-317 | With or without the restarts, the same timers fire in the same order and the same ones are left |
| `Timers.BeatingExactly` | mudd/src/timers/mod.rs:274-287 | A tick beats exactly the heartbeats whose interval has passed |
| `Timers.BeatsIff` | mudd/src/timers/mod.rs:274-287 | Over every run, until it is set, removed or lost again, a heartbeat beats at exactly the ticks that come its interval or more after the last |
| `Timers.HasHeartbeatIff` | mudd/src/timers/mod.rs:238-248 | An object has a heartbeat if and only if some call set it and none has removed it, and no restart came, since |
| `Timers.BeatsAreSpaced` | mudd/src/timers/mod.rs:274-287 | Two beats of a heartbeat are at least its interval apart, whatever happens between |
| `TimerManagerClass.TimerManager.AddTimer` | mudd/src/timers/mod.rs:158-186 | Takes the specified step on memory and rows |
| `TimerManagerClass.TimerManager.RemoveTimer` | mudd/src/timers/mod.rs:189-207 | Takes the specified step and tells whether the timer was in memory |
| `TimerManagerClass.TimerManager.RemoveTimersForObject` | mudd/src/timers/mod.rs:210-235 | The two loops remove exactly the object's timers from memory and rows |
| `TimerManagerClass.TimerManager.SetHeartbeat` | mudd/src/timers/mod.rs:238-243 | Replaces the object's heartbeat |
| `TimerManagerClass.TimerManager.RemoveHeartbeat` | mudd/src/timers/mod.rs:246-248 | Removes it and tells whether it was there |
| `TimerManagerClass.TimerManager.Tick` | mudd/src/timers/mod.rs:251-289 | The loops over due timers and heartbeats hand out the specified calls in order and leave the specified state |
| `TimerManagerClass.TimerManager.LoadFromDb` | mudd/src/timers/mod.rs:292-317 | Every row goes into memory |
| `TimerManagerClass.Restart` | mudd/src/timers/mod.rs:292-317 | A new manager that loads the old rows is in the specified state: heartbeats are lost |
| `CreateCommand.TokenizeLayout` | mudd/src/api/websocket.rs:1315-1366 | The tokenizer reads back every list of strings, each written bare (where it can be) or quoted with backslashes, with any whitespace between |
| `CreateCommand.TokenizeQuoted` | mudd/src/api/websocket.rs:1315-1366 | Quoting each string, joining by spaces and tokenizing returns the list |
| `CreateCommand.QuotedReadsBack` | mudd/src/api/websocket.rs:1335-1353 | Quoted text comes back however many of its characters have a backslash before them, closed, unclosed, or ended by a lone backslash |
| `CreateCommand.RequoteKeepsTokens` | mudd/src/api/websocket.rs:1315-1366 | Any input, however malformed, can be rewritten in quoted form with the same tokens |
| `CreateCommand.PairsHoldLast` | mudd/src/api/websocket.rs:1390-1418 | The pairs read hold, for every key, what its last value means, and the parent apart |
| `CreateCommand.TypedRoundTrip` | mudd/src/api/websocket.rs:1398-1408 | Printed integers and booleans are typed back as what they were |
| `CreateCommand.TypedIff` | mudd/src/api/websocket.rs:1398-1408 | A value is an integer if it reads as one, else a float if it reads as one, else a boolean only as true or false, else the text itself |
| `CreateCommand.FloatTextIff` | mudd/src/api/websocket.rs:1398-1408 | The texts that read as floats: an optional sign, digits with or without a point, an optional exponent with its own sign, in either letter case; and the signed names of infinity and of no number |
| `CreateCommand.CreateRoundTripIff` | mudd/src/api/websocket.rs:1315-1428 | Every request written as quoted tokens parses back: class, path, name, what the last value of every key means, and the description if and only if that holds no equals sign; otherwise it is read as one more pair |
| `CreateCommand.ParseCreateIff` | mudd/src/api/websocket.rs:1315-1428 | What any input comes to: refused with fewer than three tokens; a fourth without an equals sign is the description; the other tokens with one give the last value of each key, those without are passed over |
| `CreateCommand.TokenizeArgs` | mudd/src/api/websocket.rs:1315-1366 | The nested loops end on every input and return the specified tokens |
| `CreateCommand.ReadQuoted` | mudd/src/api/websocket.rs:1335-1353 | The inner loop reads a quoted string, closed or not |
| `CreateCommand.ReadWord` | mudd/src/api/websocket.rs:1355-1364 | The inner loop reads up to the next whitespace |
| `CreateCommand.ParseCreateArgs` | mudd/src/api/websocket.rs:1315-1428 | The whole parser returns the specified request or the usage error |
| `Integers.ParseInt` | mudd/src/combat/dice.rs:88-149 | A printed integer parses back in every width that holds it |
| `Integers.ParseSignedIff` | mudd/src/combat/dice.rs:88-149 | A text reads as a number of a signed type if and only if it is an optional sign and digits that stand for that number, without overflow |

## Left out

Weaker than the code, or stated for less:

- GracePeriod.NoTimerWhileConnected: asks for sockets that do not overlap and a select that prefers a ready cancel; `TimerUnderSessionIff` and `OverlapFiresIff` say exactly what happens without the one or the other.
- GracePeriod.BriefDisconnectNeverHandled: asks for a select that prefers a ready cancel, which the code's does not; `BriefDisconnectNeedsTie` holds without it.
- RaftStorage.SnapshotThenTail: the builder runs before further entries are applied and both nodes know their file path; `StaleReplayIff` and `InstallAgreesIff` are about the other cases.
- RaftStorage.RunKeepsLog: indices below i64::MAX and Raft's calling order are asked for, as OpenRaft promises them.
- RaftStorage.ReplayIsSafe: one process and its file; membership does not survive a restart in the code and is not claimed to.
- RaftLogTable.LastLogIdRefines: after a purge of everything the code reports no last log id, and so does the model; the fallback that OpenRaft describes is not claimed.
- CombatGraph.RunKeepsSound: commands run one after the other; `RunSoundIff` and `RunExactIff` are about those that overlap.
- Permissions.RunKeepsAgree: operations run one after the other; `FetchRaceIff` and `GrantRaceIff` are about a fetch that overlaps others, `RevokeRace` is about a revocation inside a grant, and two overlapping revocations are not modelled.
- EffectRows.RunAgrees: operations run one after the other and a cascade is harmless or repaired; `RunAgreesIff` is about every cascade, the lemmas on halves of operations are about those that overlap.
- StoredEffects.StoredRowsRebuildMemory: operations run one after the other, and the entity has been ticked or cleared since a cascade last took its rows; until then the rows are gone (`EffectRows.CascadeKeepsAgreeIff`).
- LuaJson.RoundTrip: arrays have at most i64::MAX elements; floats are finite reals, of which the rounding of large integers is modelled; Lua strings that are not UTF-8, metatables and tables that contain themselves are not values of the model.
- ObjectPaths.ValidateIff: which error a refused path with non-ASCII characters gets may differ, since of their case only that of the Kelvin sign, the one that becomes ASCII, is modelled.
- Dice.RoundTripIff: the totals are those of a release build, where a debug build would stop on overflow.
- RateLimiter.WindowBound: reals instead of 32-bit floats, so rounding is not modelled.
- Timers.FiresIff: operations run one after the other; `OverlapHandsOutTwiceIff` is about two ticks at once. The rows are in one database throughout.
- CreateCommand.CreateRoundTripIff: a property value that reads as a float is kept as its text.
- EffectRows.RowsRebuildMemory: as for `StoredRowsRebuildMemory`; also, source and damage type of merged effects are not part of what is rebuilt, since they depend on the order of the rows.
- Delegation.NeverAmplifies: callers grant in the universe their context was made for; `GrantIgnoresContextUniverse` shows that `grant_path` does not check it.

Not modelled:

- Election, replication and transport of Raft, `GameStateMachine` and `SnapshotStore`, which repeat the storage code or move files.
- A crash between the two statements of a purge, transactions that fail half way, and membership after a restart.
- JSON text, SQL text, base64 and SHA-256: payloads are kept by what they parse to, and a snapshot id as its pair of numbers.
- Row ids of effects and timestamps of grants, which nothing reads.
- Attack rolls, damage profiles, healing, the player-versus-player policy and the stored combat rows.
- The rule of the effects table that an entity must have a combat row, under which an insert can be refused and only logged.
- Object permissions beyond delegation (`check_permission` and its variants): a table of cases without state.
- Storing classes in and loading them from the database, and code hashes of classes.
- Guests, message delivery, rooms and everything else the socket loop does with a session.
- The average of a dice roll, criticals and fumbles.
- Lua execution, HTTP handlers, AI and image calls, accounts, themes, credits, the message queue and the web client.
