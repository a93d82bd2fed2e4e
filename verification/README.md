# ldapwarden: a verified model

ldapwarden is a web front end for an LDAP directory. This project models the parts of it
that hold algorithms and protocols, in Dafny, and proves what they promise. The directory,
the database and the mail server appear as values, as parameters that say what they answer,
or as the fields of a class that the methods reassign. Instants are integers (nanoseconds
since 1970), so there is no wrap-around to model in them.

- **Netgroups** (`NetgroupTriple`, `NetgroupGraph`, `NetgroupWalk`, `NetgroupResolver`):
  triples and their text, the breadth-first expansion, and the upward walk that is meant to
  answer the same question without expanding everything.
- **References to users** (`UserReferences`, `ReferenceMeaning`, `UserClient`,
  `RenameLimits`, `PrimaryGroup`): what groups, netgroups and sudo roles say about a uid,
  and what a rename or a delete does to that, with any of its writes failing.
- **Capability probe** (`Capabilities`): a transition system over any number of callers
  around one mutex, one cache and one channel per probe.
- **LDIF export** (`ParentFirst`, `ParentNames`, `Base64`, `Ldif`, `ExportText`, `Export`):
  the streaming reorderer, by key and by DN, the printer of RFC 2849, and a reader written
  from that RFC that recovers what was printed.
- **Locks and the dashboard** (`Lockout`, `LockFilter`, `Overview`): the per-entry lock
  state, the filter that counts locks under the three-valued logic of section 4.5.1.7 of
  RFC 4511, and the figures against the list.
- **Expiry migration** (`ExpiryMigration`), **lockout scan** (`LockoutScan`) and
  **reminders** (`Reminders`): directory, table, audit log and mail over whole sequences of
  runs, each step of which can fail.
- **Directory changes** (`DirectoryChanges`, `AccessLog`): parsing the directory's own log
  and telling whose write was whose.
- **Reset tokens** (`ResetTokens`): atomic statements on one table in any interleaving.

The constants, word lists and orders on which these rest are stated once more in their own
terms: `NetgroupTriple.SpacesAre`, `UserReferences.CoversExactly`, `UserClient.RoutesLeftAre`,
`Base64.AlphabetIs`, `Base64.EncodedLength`, `Ldif.WordsAre`, `LockFilter.WholeSecondBounds`,
`Overview.KeptAppend`, `ExpiryMigration.DayStartIs`, `DirectoryChanges.EverythingSelected`,
`AccessLog.ListsAre`, `AccessLog.PasswordIsSecret`, `AccessLog.DirectivesAppend` and
`AccessLog.OldValuesAppend`.

`dafny verify dfyconfig.toml` checks all of it.

## What the code does not keep

Where a promise fails, the code is modelled as it is, one lemma gives an input, and another
the exact condition under which the promise holds.

- The upward walk finds triples whose user is `-` while expansions skip them
  (`NetgroupGraph.DualityExactly`). Two entries of one name break the duality
  (`NetgroupResolver.DuplicateNamesBreakDuality`) exactly when some entry nests a netgroup
  that its name, as looked up, does not reach (`NetgroupResolver.DualityOfListing`).
- A rename keeps meaning only between uids that sudo reads as users, out of a uid other than
  `-`, and into one that is not empty and that a triple can name if it could name the old one
  (`RenameLimits.RenamePreservesExactly`). The application admits uids of `[a-zA-Z0-9._-]+`
  (internal/api/dn.go:19), so there it fails exactly when either uid is `-` or `ALL`
  (`RenameLimits.AdmittedRename`): renaming `-` turns slots that match nobody into the new
  user (`RenameLimits.NoMatchBecomesName`), renaming `ALL` takes from everybody what was
  granted to everybody (`RenameLimits.EveryoneLoses`). Deleting `ALL` takes it too
  (`RenameLimits.EveryoneDeleted`, `RenameLimits.DeleteKeepsRolesExactly`).
- A group named after a renamed user follows, the sudo roles granting to it by its old name
  do not (`PrimaryGroup.RoleLeftBehind`; `PrimaryGroup.FollowingKeepsRoles` says when that
  costs or gives anyone a role).
- The counting filter hides a locked account if the server cannot order its lock value, or
  takes it for lapsed where the program does not (`LockFilter.HiddenExactly`).
- A refresh during a running probe does not force a new one
  (`Capabilities.RefreshDuringProbeIsLost`); it does exactly when none is in flight
  (`Capabilities.RefreshForcesExactly`).
- Two DNs can share a key in the reorderer, and then an export can hide an orphan or write a
  child first (`ParentNames.CommaHidesOrphan`, `ParentNames.Misordered`); it is right in
  every order of arrival exactly when no entry passes for another's parent
  (`ParentNames.OrderExactly`).
- The first comment of an export quotes the base DN asked for; a line feed in it can make
  the file unreadable (`ExportText.BrokenBase`, `ExportText.BaseReadsBackExactly`, and
  `ExportText.ReadsBackExactly` for any comments).
- "Audited once" needs the audit log to take its row: a failed audit write is ignored and
  never repeated (`LockoutScan.AuditedOnce` counts exactly). "Never mailed again" fails
  when another lockout of the same entry and second awaits mail
  (`LockoutScan.SharedSecondMailsAgain`), and only then (`LockoutScan.MailedUntilMarked`).
- A reminder whose every record is lost is sent again (`Reminders.LostRecordRepeats`,
  `Reminders.RemindedInOneRun`).
- The comment on issuing tokens says a user always has at most one; two overlapping requests
  can leave two (`ResetTokens.OverlapLeavesTwo`, `ResetTokens.OneTokenExactly`,
  `ResetTokens.TwoRequests`).
- Two overlapping reset requests can exceed the caps by one (`ResetTokens.CapExceeded`); how
  far requests overlap is exactly how far they can (`ResetTokens.CapHoldsAmong`,
  `ResetTokens.CapReached`).
- The window in which audit rows are fetched spans the first and the last change listed. A
  first one whose time cannot be read leaves the others unmatched
  (`DirectoryChanges.UnreadableNewest`, `DirectoryChanges.WindowSufficesExactly`). A last one
  whose time cannot be read only widens the window, to the year 1; but the query returns the
  oldest rows up to its limit, so once the audit table is longer than that, what fits comes
  after them and is lost (`DirectoryChanges.OldestUnreadableHides`,
  `DirectoryChanges.CapKeepsExactly`).

## Model

| member | source | states |
|---|---|---|
| `NetgroupTriple.ParsedIsStorable` | internal/ldap/netgroup_triple.go:40-59 | every slot the parser yields is trimmed and holds no comma |
| `NetgroupTriple.ParsesExactly` | internal/ldap/netgroup_triple.go:40-59 | a value is a triple if and only if, spaces around it aside, it is in parentheses and has exactly two commas between them |
| `NetgroupTriple.ParsedFields` | internal/ldap/netgroup_triple.go:40-59 | the text of a parsed value is the three fields between its commas, and the slots are those fields trimmed |
| `NetgroupTriple.RoundTrip` | internal/ldap/netgroup_triple.go:40-70 | parsing a formatted triple gives that triple back if and only if every slot is storable |
| `NetgroupTriple.FormatIsShortest` | internal/ldap/netgroup_triple.go:40-70 | no text that reads as a triple is shorter than its canonical form, which uses no other characters |
| `NetgroupTriple.WithUserRoundTrip` | internal/ldap/netgroup_triple.go:104-120 | a rename inside a parsed triple survives being stored if and only if the new uid is storable |
| `NetgroupGraph.AboveIsReach` | internal/ldap/netgroup_expand.go:258-299 | being above a set of netgroups is reaching one of them, cycles and dangling members included |
| `NetgroupGraph.ReachIsLeast` | internal/ldap/netgroup_expand.go:142-194 | what a walk reaches is the least set that holds the root and, with each netgroup, its existing members |
| `NetgroupGraph.Duality` | internal/ldap/netgroup_expand.go:134-299 | for any uid but "-", the upward walk lists exactly the netgroups whose expansion names it |
| `NetgroupGraph.DualityExactly` | internal/ldap/netgroup_expand.go:258-299 | over a whole graph the two walks agree on a uid if and only if it is not "-" or nothing stores "-" as its user |
| `NetgroupGraph.MembershipsAre` | internal/ldap/netgroup_expand.go:258-299 | a netgroup contains a user exactly if it reaches one with a triple whose user is that uid, and is marked direct exactly if it has such a triple itself |
| `NetgroupGraph.SidesAre` | internal/ldap/netgroup_expand.go:163-215 | a netgroup lists the users of its triples on one side and their hosts on the other, empty slots opening it and "-" listing nobody |
| `NetgroupGraph.RankedHasNoCycle` | internal/ldap/netgroup_expand.go:176-185 | nothing below a root is on a cycle once positions increase along every edge below it |
| `NetgroupWalk.CollectTriples` | internal/ldap/netgroup_expand.go:163-166 | one netgroup adds its names under its own attribution, never replaces an earlier one, and opens a slot exactly if a triple leaves it empty |
| `NetgroupWalk.VisitMembers` | internal/ldap/netgroup_expand.go:168-185 | each existing member is queued once or recorded as a re-entry, edge by edge, each missing one as dangling |
| `NetgroupWalk.FirstIsNearest` | internal/ldap/netgroup_expand.go:142-194 | what the first netgroup of the walk naming someone gives as their origin: nothing exactly if the root names them itself, else a netgroup that names them with none nearer |
| `NetgroupWalk.ForwardHasNoCycle` | internal/ldap/netgroup_expand.go:176-185 | a walk that records no re-entry has no cycle below its root |
| `NetgroupWalk.Walk` | internal/ldap/netgroup_expand.go:134-195 | the walk ends; users and hosts are exactly the reachable names, each coming from nowhere but the root exactly if the root names it, else from a reached netgroup naming it with none nearer; open slots are exact; re-entries are all edges out of reached netgroups, as often as written, but one to each netgroup other than the root, from a netgroup with none nearer nesting it; no re-entry means no cycle |
| `NetgroupResolver.Resolver.Index` | internal/ldap/netgroup_expand.go:108-122 | of several entries with one name the last gives the lookup, and the reverse edges are those of all of them |
| `NetgroupResolver.ByNameIsLast` | internal/ldap/netgroup_expand.go:108-122 | the lookup holds exactly the names listed, each with the last entry of that name |
| `NetgroupResolver.Resolver.Load` | internal/ldap/netgroup_expand.go:92-102 | the collection is read at most once; a failed read leaves the resolver unloaded |
| `NetgroupResolver.Resolver.Expand` | internal/ldap/netgroup_expand.go:134-195 | succeeds exactly when the collection could be read and holds the name, and then gives the whole expansion: names with a nearest origin each, open slots, re-entries, dangling members, and no cycle when nothing was re-entered |
| `NetgroupResolver.Resolver.MembershipsForUser` | internal/ldap/netgroup_expand.go:258-299 | equals the graph's memberships, Direct included, in whatever order maps and queue are seeded; nobody for the empty uid |
| `NetgroupResolver.MergedOfUnique` | internal/ldap/netgroup_expand.go:108-122 | with unique names both lookups describe one graph |
| `NetgroupResolver.DuplicateNamesBreakDuality` | internal/ldap/netgroup_expand.go:108-122 | with two entries of one name they need not: a concrete collection where the walks disagree |
| `NetgroupResolver.DualityOfListing` | internal/ldap/netgroup_expand.go:108-122 | over every choice of triples for the listed names and members the walks agree for all uids but "-" if and only if each nesting edge of each entry, overwritten ones included, is one the lookup reaches |
| `NetgroupResolver.HarmfulDuplicate` | internal/ldap/netgroup_expand.go:108-122 | an overwritten edge the lookup does not reach, and the triples with which it makes the walks disagree |
| `UserReferences.EntryToNetgroup` | internal/ldap/netgroups.go:359-379 | one pass sorts stored values into triples and unreadable values, in order |
| `UserReferences.TriplesRead` | internal/ldap/netgroups.go:359-379 | its triples are exactly those some value parses to |
| `UserReferences.UnreadableKept` | internal/ldap/netgroups.go:359-379 | every value that parses to none is kept as often as it is stored, and each value is one or the other |
| `UserReferences.FormattedReadsBack` | internal/ldap/netgroups.go:381-387 | formatted storable triples read back as they were, none dropped and none unreadable |
| `UserReferences.SaveReadsBack` | internal/ldap/netgroups.go:437-443 | a save loses nothing: triples read back as written and unreadable values survive verbatim |
| `UserReferences.StoredNames` | internal/ldap/netgroup_expand.go:134-215 | an expansion lists a user or host exactly if a stored value of a reached netgroup parses to a triple with it in that slot, and it is neither empty nor "-" |
| `UserReferences.MembershipsOfSameEdges` | internal/ldap/netgroup_expand.go:258-299 | same nesting and same naming give the same memberships |
| `ReferenceMeaning.RewrittenReads` | internal/ldap/netgroups.go:437-443 | a rewritten netgroup reads as the new triples and its old unreadable values |
| `ReferenceMeaning.RenamedGroups` | internal/ldap/users.go:441-452 | after a rename each uid is in the groups its origin was in |
| `ReferenceMeaning.RenamedNetgroups` | internal/ldap/users.go:466-488 | after a rename each uid is in the netgroups its origin was in, nesting followed |
| `ReferenceMeaning.RenamedRoles` | internal/ldap/users.go:454-464 | after a rename the sudo roles reaching each uid are those that reached its origin |
| `ReferenceMeaning.RenamePreservesMeaning` | internal/ldap/users.go:421-523 | where a rename carries, groups, nested netgroups and sudo roles of the old uid become the new uid's, everyone else's are unchanged, nothing names the old uid, and every netgroup keeps its hosts and its open slots on both sides |
| `ReferenceMeaning.RenameKeepsHosts` | internal/ldap/users.go:466-488 | whatever the uids, as long as both can be stored: every expansion lists the same hosts and is open where it was |
| `ReferenceMeaning.RenameKeepsSlots` | internal/ldap/netgroup_triple.go:109-120 | the i-th triple read back after a rename has the host and domain of the i-th before, and its user unless that was the old uid |
| `ReferenceMeaning.OldUidGone` | internal/ldap/users.go:421-523 | after a rename no group, role or triple names the old uid |
| `ReferenceMeaning.RenameKeepsMalformed` | internal/ldap/netgroups.go:390-443 | unreadable values pass through a rename verbatim |
| `ReferenceMeaning.OthersAsTheyWere` | internal/ldap/users.go:441-488 | a rename or a delete leaves every group, role and netgroup that does not name the uid exactly as it is stored |
| `ReferenceMeaning.DeleteNeverWidens` | internal/ldap/netgroups.go:411-428 | every expansion loses exactly the uid from its users, opens to nobody new and gains no host |
| `ReferenceMeaning.DeleteTakesExactly` | internal/ldap/users.go:848-911 | a delete takes each triple naming the uid and the uid itself; every other triple, member and value is there as often as before |
| `ReferenceMeaning.DeleteLeavesOthers` | internal/ldap/users.go:848-911 | others keep groups and netgroups and gain no role; they lose exactly the roles that reached them by the deleted uid alone, so none when sudo reads it as a user |
| `ReferenceMeaning.DeleteRemovesUser` | internal/ldap/users.go:848-911 | the uid is named nowhere; only roles for everyone still cover it |
| `RenameLimits.RenamePreservesExactly` | internal/ldap/users.go:421-523 | over all pairs of uids, a rename keeps every uid's groups, roles and expansions, and every netgroup's hosts and open slots, in every directory that does not mention the new one if and only if sudo reads neither as more than a user, the old one is not "-", the new one is not empty, and it can be named if the old one can |
| `RenameLimits.AdmittedRename` | internal/api/dn.go:17-45 | between two uids the application admits, if and only if neither is "-" or "ALL" |
| `RenameLimits.CarriedPreserves` | internal/ldap/users.go:421-523 | under that condition what reaches each uid afterwards is what reached its origin |
| `RenameLimits.RoleMoves` | internal/ldap/users.go:454-464 | a role of the old uid alone is gained or lost by anyone whom one uid covers and the other does not |
| `RenameLimits.EveryoneFails` | internal/ldap/users.go:454-464 | renamed to "ALL", a user's roles are everybody's |
| `RenameLimits.EveryoneLoses` | internal/ldap/users.go:454-464 | a user called "ALL", renamed, takes from everybody the roles granted to everybody |
| `RenameLimits.NotANameFails` | internal/ldap/netgroups.go:398-409 | a new uid no triple can carry as a name loses the netgroup |
| `RenameLimits.NoMatchBecomesName` | internal/ldap/netgroups.go:390-409 | renaming a user called "-" puts the new uid in a netgroup that held no one |
| `RenameLimits.DeleteKeepsRolesExactly` | internal/ldap/users.go:859-882 | deleting a uid costs nobody else a role, whatever the directory, if and only if sudo reads it as a user |
| `RenameLimits.EveryoneDeleted` | internal/ldap/users.go:859-882 | deleting a user called "ALL" takes from everybody the roles granted to everybody |
| `UserClient.ReplaceExact` | internal/ldap/users.go:527-537 | swaps exact values and leaves the rest in place |
| `UserClient.RenameUserInTriples` | internal/ldap/netgroups.go:398-409 | triple by triple: host and domain stay, the user becomes the new uid exactly where it was the old one; says whether any did |
| `UserClient.RemoveUserFromTriples` | internal/ldap/netgroups.go:419-428 | drops exactly the triples naming the uid, whole, keeps every other as often as it was there, and says whether any went |
| `UserClient.SaveTriples` | internal/ldap/netgroups.go:437-443 | writes triples and unreadable values back, or changes nothing when the write fails |
| `UserClient.Client.ListNetgroups` | internal/ldap/netgroups.go:190-201 | lists every stored netgroup once, as read |
| `UserReferences.RolesByRoutes` | internal/ldap/sudo.go:126-142 | a query that lost its group or netgroup look-up finds only roles the user has, and always those naming the uid or ALL |
| `UserReferences.LostLookUp` | internal/ldap/sudo.go:117-142 | without the answer of a look-up, what covers a user is what would in a directory without those entries |
| `UserReferences.CoveringIs` | internal/ldap/sudo.go:196-206 | the listed reasons of a role are exactly its values that cover the user |
| `UserReferences.CoveringAppend` | internal/ldap/sudo.go:196-206 | and they come in the order of the role |
| `UserClient.Client.CoveringValues` | internal/ldap/sudo.go:117-142 | collects exactly the sudoUser values that cover a user by the look-ups that answered: uid, ALL, groups, netgroups at any depth |
| `UserClient.Client.GetUserSudoRoles` | internal/ldap/sudo.go:117-159 | finds exactly the roles with a value covering the user by the look-ups that answered |
| `UserClient.Client.GetUserSudoRoleGrants` | internal/ldap/sudo.go:175-209 | gives each of those roles with its covering values in the order it lists them, repeated look-ups failing or not; never none while the repeats answer what the first ones did |
| `UserClient.Client.RenameInGroups` | internal/ldap/users.go:441-452 | each group is migrated, or as it was and named in a warning; the warnings are exactly those of the groups listing the uid whose write fails |
| `UserClient.Client.RenameInRoles` | internal/ldap/users.go:454-464 | each role has exact values swapped, or is as it was and named in a warning; the warnings are exactly those of the roles found for the old uid whose write fails |
| `UserClient.Client.RenameInNetgroups` | internal/ldap/users.go:466-488 | each netgroup is rewritten, or as it was and named in a warning; the warnings are exactly, of the netgroups naming the uid, the failed writes and the numbers of unreadable values kept |
| `UserClient.Client.RenamePrimaryGroup` | internal/ldap/users.go:514-520 | one group named after the old uid, if the look-up finds any, is named after the new one or reported; no other name and no member list changes |
| `PrimaryGroup.NamedRoles` | internal/ldap/users.go:514-520 | naming a group anew takes from its members the roles that reach them by its old name alone, gives them those listing the new one, and changes nobody else's |
| `PrimaryGroup.RolesAfterRename` | internal/ldap/users.go:421-523 | the roles each user gains and loses when their primary group follows a rename, its sudo roles not being rewritten |
| `PrimaryGroup.FollowingKeepsRoles` | internal/ldap/users.go:454-520 | a user keeps exactly their roles if and only if none reached them by the group's old name alone and none lists its new name |
| `PrimaryGroup.RoleLeftBehind` | internal/ldap/users.go:514-520 | a concrete directory where the renamed user loses the role granted to their own group |
| `UserClient.Client.RenameUser` | internal/ldap/users.go:421-523 | fails before touching a reference, else migrates each or reports it; with no failure the result is the renamed directory, one group named after the old uid renamed with it |
| `UserClient.Client.DeleteFromGroups` | internal/ldap/users.go:848-857 | each group loses the uid, or is as it was and named; the warnings are exactly those of the groups listing the uid whose write fails |
| `UserClient.Client.DeleteFromRoles` | internal/ldap/users.go:859-882 | each role loses the uid, or is as it was and named; the warnings are exactly the roles naming the uid whose write fails and the roles written that named nobody else |
| `UserClient.Client.DeleteFromNetgroups` | internal/ldap/users.go:884-911 | each netgroup loses the triples naming the uid, or is as it was and named; the warnings are exactly, of the netgroups naming the uid, the failed writes, the numbers of unreadable values kept, and the netgroups left empty |
| `UserClient.Client.DeleteUser` | internal/ldap/users.go:824-929 | fails before touching a reference, else strips each or reports it, with exactly the warnings of the three; with no failure the result is the stripped directory |
| `Capabilities.RunInv` | internal/ldap/capabilities.go:101-216 | every state of every interleaving satisfies the mutex, ownership, probe, channel and verdict invariants |
| `Capabilities.NextKeepsInv` | internal/ldap/capabilities.go:101-216 | each atomic step of any call keeps them |
| `Capabilities.SingleFlight` | internal/ldap/capabilities.go:101-150 | at most one call probes, never under the mutex; each channel is closed at most once, exactly once when nobody owns it; every waiter's channel is closed or has exactly one owner |
| `Capabilities.WaitsForClose` | internal/ldap/capabilities.go:111-120 | a waiter goes on only once the channel it waits on is closed |
| `Capabilities.OwnerCloses` | internal/ldap/capabilities.go:122-150 | whoever owns a channel closes it within four of its own steps, and until then it can step or the holder of the mutex can |
| `Capabilities.MutexIsFreed` | internal/ldap/capabilities.go:101-150 | the holder of the mutex can always step, and that step frees it |
| `Capabilities.NoDeadlock` | internal/ldap/capabilities.go:101-150 | while a call is unfinished some call can step |
| `Capabilities.VerdictRetained` | internal/ldap/capabilities.go:130-163 | a call that starts after a verdict is recorded never answers unknown while the stored verdict says something |
| `Capabilities.RecordedIsAnswered` | internal/ldap/capabilities.go:130-163 | once a call recording a verdict has returned, and while every other one to come records the same, that verdict is stored, and whatever is cached or newly answered says it wherever the probe behind it could not tell |
| `Capabilities.CacheServes` | internal/ldap/capabilities.go:101-116 | while something is cached and nobody refreshes or records, no call probes and each new answer is what is cached |
| `Capabilities.OneProbe` | internal/ldap/capabilities.go:101-150 | in a run without a refresh or a recorded verdict the directory is probed at most once, however many calls come, and every answer is from that probe |
| `Capabilities.AnswersAreReadings` | internal/ldap/capabilities.go:101-150 | in every run what is cached and what each call answers is one probe's own reading, but for an enforcement that probe could not tell |
| `Capabilities.ConfigReadWins` | internal/ldap/capabilities.go:130-147 | in every run what is cached and what each call answers was stored by one probe: its own reading where that could tell, and where it could not, with the verdict recorded when it was stored, if any |
| `Capabilities.RefreshForcesExactly` | internal/ldap/capabilities.go:210-216 | a refresh, or a recorded verdict, forces a new reading on every continuation of the run if and only if no probe is in flight when it takes effect |
| `Capabilities.ForcedWhenIdle` | internal/ldap/capabilities.go:210-216 | with none in flight, whatever is cached from then on, and answered by calls without an answer yet, was read after it |
| `Capabilities.StaleWhenBusy` | internal/ldap/capabilities.go:210-216 | with one in flight, some continuation caches the reading of that older probe as current |
| `Capabilities.RefreshDuringProbeIsLost` | internal/ldap/capabilities.go:210-216 | a concrete run: the directory is read, then refreshed, and the reading from before is what ends up cached |
| `ParentFirst.Reorderer.Write` | internal/ldap/export.go:177-186 | emits the entry and then everything waiting for it; conserves what was received and ends |
| `ParentFirst.Reorderer.Add` | internal/ldap/export.go:164-175 | holds an entry exactly while its parent is unwritten, and keeps parents first |
| `ParentFirst.Reorderer.FlushOrphans` | internal/ldap/export.go:190-202 | emits whatever is held, in any order of parents, and counts it |
| `ParentFirst.HeldAreBroken` | internal/ldap/export.go:188-202 | what is held at the end is exactly the entries whose ancestor chain is broken |
| `ParentFirst.FlushKeepsOrder` | internal/ldap/export.go:190-202 | the flush leaves every entry with an unbroken chain after its parent |
| `ParentFirst.AddPage` | internal/ldap/export.go:121-123 | after each page exactly the entries whose chain is whole, by key, are out, parents first |
| `ParentFirst.Finish` | internal/ldap/export.go:134-137 | the flush completes the order: each entry once, anchored ones after their parents, orphans counted |
| `ParentFirst.Reorder` | internal/ldap/export.go:154-206 | for any arrival order each entry is emitted exactly once, none later than its chain allows, anchored entries follow their parents, and orphans number the broken chains, all by key |
| `ParentFirst.KeyMatchIsParent` | internal/ldap/export.go:211-237 | for comma-free names the keys match exactly when one DN is the other's parent |
| `ParentFirst.KeysCanCollide` | internal/ldap/export.go:227-237 | a comma inside a value makes two DNs share a key |
| `ParentFirst.UnparsedIsOrphan` | internal/ldap/export.go:211-225 | an entry whose DN does not parse is under nothing, and so an orphan unless it is the base itself |
| `ParentNames.OrderExactly` | internal/ldap/export.go:154-237 | for the entries of a subtree, order and orphan count are right by DN in every order of arrival if and only if no entry that gets out passes for the parent of one it is not the parent of |
| `ParentNames.RightByName` | internal/ldap/export.go:154-237 | where nobody does, every outcome has each rooted entry after its true parent and counts exactly the true orphans |
| `ParentNames.WholeTree` | internal/ldap/export.go:227-237 | when the export holds every parent, that means only the true parent has an entry's parent key |
| `ParentNames.CommaFreeIsRight` | internal/ldap/export.go:227-237 | names without commas are always right |
| `ParentNames.Misordered` | internal/ldap/export.go:164-186 | where somebody does and the true parent arrives last, the entry is written before its parent |
| `ParentNames.OrphanUncounted` | internal/ldap/export.go:188-202 | where somebody does and the true parent is missing, fewer orphans are counted than there are, whatever the order |
| `ParentNames.CommaHidesOrphan` | internal/ldap/export.go:227-237 | a concrete export: an entry without its parent, and no orphan reported |
| `ParentNames.OutcomeExists` | internal/ldap/export.go:154-206 | every arrival has an outcome, so the two lemmas above describe exports that happen |
| `Base64.RoundTrip` | internal/ldap/export.go:299-299 | decoding the encoding gives back every byte sequence |
| `Base64.GroupIsNumber` | internal/ldap/export.go:299-299 | three bytes and the four characters they become are one 24-bit number |
| `Base64.PaddedExactly` | internal/ldap/export.go:299-299 | the text ends in one "=" for each byte missing from the last group and has none elsewhere |
| `Ldif.LineRoundTrip` | internal/ldap/export.go:292-319 | one printed line parses to its name and value, whatever the bytes |
| `Ldif.TextExactly` | internal/ldap/export.go:292-319 | a value stands as text if and only if the RFC lets it and it does not end with a space; else it is in base64 |
| `Ldif.UnfoldFold` | internal/ldap/export.go:254-267 | unfolding a folded line gives the line back |
| `Ldif.FoldsEvenly` | internal/ldap/export.go:254-267 | lines are folded only where they must be: into the fewest pieces, all but the last full |
| `Ldif.FoldBreaks` | internal/ldap/export.go:254-267 | a folded line ends with a line feed, and every one inside it is followed by a space |
| `Ldif.PhysicalWidth` | internal/ldap/export.go:250-267 | no physical line is over 77 bytes |
| `Ldif.DocumentRoundTrip` | internal/ldap/export.go:84-140 | the whole document reads back as exactly its records: order, names and every byte |
| `Export.LdifWriter.Line` | internal/ldap/export.go:254-267 | writes the folded line through the buffer, and nothing after a failure |
| `Export.LdifWriter.WriteString` | internal/ldap/export.go:241-248 | loses nothing in the buffer unless the destination fails, which then holds a strict prefix |
| `Export.LdifWriter.Entry` | internal/ldap/export.go:273-281 | writes the dn, one line per value of each attribute in order, and the blank line |
| `Export.WriteEntries` | internal/ldap/export.go:273-281 | writes the records one after another |
| `Export.ExportLdif` | internal/ldap/export.go:84-140 | page by page, however search and destination fail: the file is whole exactly when the export says so, and only then ends with the closing line; else a prefix, with the counts of the page at which it stopped |
| `ExportText.ExportReadsBack` | internal/ldap/export.go:84-140 | the complete file parses back to the entries exported, in the order written, each as its dn and every value of every attribute, if no comment holds a line feed; no line of it is over 77 bytes |
| `ExportText.ReadValues` | internal/ldap/export.go:273-281 | a record reads back with a name and value exactly where an attribute of that name holds the value, at that place in the record's order |
| `ExportText.ClosingRemarks` | internal/ldap/export.go:134-138 | a complete file ends with the number of orphans, if there are any, and the number of entries |
| `ExportText.ReadsBackExactly` | internal/ldap/export.go:100-138 | whatever the comments hold, it does if and only if the reader finds nothing but comments before the version and nothing but comments and blank lines after the entries |
| `ExportText.LineFeedBreaks` | internal/ldap/export.go:100-106 | a comment with a line feed before anything but "#" or a space makes the file unreadable, whatever the other comments are |
| `ExportText.BaseReadsBackExactly` | internal/ldap/export.go:100-106 | with the first comment the export writes, for a base with no line feed last or before a space, the file reads back if and only if each line feed in the base is followed by "#" |
| `ExportText.BrokenBase` | internal/ldap/export.go:100-102 | a base for which it does not |
| `ExportText.ClosesExactly` | internal/ldap/export.go:82-83 | a prefix of the export ends with a closing line if and only if it is all of it |
| `Lockout.LockoutResolver.Policy` | internal/ldap/lockout.go:176-190 | reads each policy DN at most once, unreadable ones included |
| `Lockout.LockoutResolver.Resolve` | internal/ldap/lockout.go:110-124 | answers as an uncached resolver would; only a timestamped lock costs a read |
| `Lockout.LockoutMeans` | internal/ldap/lockout.go:129-173 | state by state: manual exactly if permanent, unknown exactly if the time or the policy cannot be read, lifted exactly once the policy's duration has passed |
| `Lockout.LiftsAtItsInstant` | internal/ldap/lockout.go:129-173 | a lock with a lifting instant refuses binds before it and never from it on; without one, time changes nothing |
| `LockFilter.LapsedLockFilterFor` | internal/ldap/lockout.go:225-250 | the loop builds the filter of all branches, or none without a duration |
| `LockFilter.LapsedFilterMeans` | internal/ldap/lockout.go:225-250 | the server's value of the filter on any entry: the governing policy is listed, lifts locks, and the lock is between 1970 and its cutoff |
| `LockFilter.LockedNowMeans` | internal/ldap/lockout.go:201-208 | an entry is counted exactly if it carries a lock the server does not take for lapsed and can order |
| `LockFilter.LapsedIsLifted` | internal/ldap/lockout.go:129-250 | every readable lock the lapsed filter matches resolves to lifted |
| `LockFilter.CountedIsLockedOrUntold` | internal/ldap/lockout.go:192-208 | the count never hides a readable locked entry, and overstates by exactly the lapsed locks it cannot tell |
| `LockFilter.CountAgrees` | internal/ldap/lockout.go:201-250 | for whole-second locks from 1970 on under listed policies the count and the state machine agree |
| `LockFilter.HiddenExactly` | internal/ldap/lockout.go:201-208 | over every stored value, exactly when a locked entry goes uncounted |
| `LockFilter.UnreadableLockIsHidden` | internal/ldap/lockout.go:140-147 | a lock the server cannot order is such an entry |
| `Overview.SearchUsersPage` | internal/ldap/users.go:248-284 | keeps exactly the entries of the asked status and counts the inactive ones |
| `Overview.ListingsPartition` | internal/ldap/users.go:260-275 | active and inactive listings hold each entry, together, as often as it is listed |
| `Overview.ListedStatus` | internal/ldap/users.go:260-275 | a listing holds the entries of its status and no others |
| `Overview.CountEntries` | internal/ldap/client.go:354-385 | counts the matches, or fewer with the limited flag |
| `Overview.GetOverview` | internal/ldap/overview.go:71-156 | through every short cut Active is Total less the union count when untruncated; under one size limit a lower bound; fails exactly when a count it makes fails |
| `Overview.DashboardAgrees` | internal/ldap/overview.go:124-156 | Active equals the active listing and Total less the union of locked and expired positions |
| `Overview.EntryDiffers` | internal/ldap/users.go:288-291 | entry by entry, exactly when dashboard and list differ |
| `ExpiryMigration.Intend` | internal/ldap/migrate_expiry.go:88-132 | what is proposed for one account and whether the options allow it |
| `ExpiryMigration.WrittenExactly` | internal/ldap/migrate_expiry.go:88-168 | exactly which accounts a run writes and all it changes of them: the expiry, from the lock's date or the shadow day, and the lock only where its date moved |
| `ExpiryMigration.ReportedExactly` | internal/ldap/migrate_expiry.go:88-150 | and what the report says of each: nothing without a date to move, else the date and its source, skipped exactly if the options leave it, failed exactly if the write is refused |
| `ExpiryMigration.EntriesInOrder` | internal/ldap/migrate_expiry.go:88-150 | the report lists the accounts in the order of the search |
| `ExpiryMigration.Directory.WriteMigratedExpiry` | internal/ldap/migrate_expiry.go:158-168 | sets the expiry and drops the lock it came from, or changes nothing |
| `ExpiryMigration.Directory.MigrateAccountExpiry` | internal/ldap/migrate_expiry.go:71-153 | the whole new directory and the whole report, position by position |
| `ExpiryMigration.TalliesSum` | internal/ldap/migrate_expiry.go:134-150 | migrated, skipped and failed add up to the reported entries |
| `ExpiryMigration.DryRunForetells` | internal/ldap/migrate_expiry.go:140-149 | a dry run reports what an applied run without failures reports |
| `ExpiryMigration.DryRunChangesNothing` | internal/ldap/migrate_expiry.go:140-149 | a dry run leaves every account as it was |
| `ExpiryMigration.SecondRun` | internal/ldap/migrate_expiry.go:71-153 | a later second run takes up exactly what the first left: skips unchanged, and each account whose write was refused |
| `ExpiryMigration.SecondRunCounts` | internal/ldap/migrate_expiry.go:71-153 | it reports every account not migrated and no other, and writes only those refused before |
| `ExpiryMigration.SecondRunRepeatsSkips` | internal/ldap/migrate_expiry.go:88-93 | with nothing refused it reports exactly the earlier skips |
| `ExpiryMigration.NewlyRefusedExactly` | internal/ldap/migrate_expiry.go:18-32 | an applied run newly refuses exactly the lapsed locks and past shadow days its options include |
| `ExpiryMigration.DefaultLeavesUsable` | internal/ldap/migrate_expiry.go:65-70 | under default options an account that works is left as it is |
| `ExpiryMigration.DefaultRepairs` | internal/ldap/migrate_expiry.go:60-70 | what default options migrate was refused before its date, works after the run, and is refused from that date on |
| `LockoutScan.Scheduler.PruneLockoutState` | internal/scheduler/lockout_scan.go:147-159 | keeps exactly the rows of readable listed lockouts, or all when the delete fails |
| `LockoutScan.Scheduler.RecordLockoutSeen` | internal/scheduler/store.go:122-132 | the insert is the test of newness |
| `LockoutScan.Scheduler.PendingLockoutNotifications` | internal/scheduler/store.go:139-165 | gives exactly the entry-and-second keys of unnotified rows |
| `LockoutScan.KeysAlike` | internal/scheduler/store.go:163-165 | two lockouts share a pending row exactly if they are of one entry and of one second |
| `LockoutScan.EventsAre` | internal/scheduler/lockout_scan.go:84-92 | the lockouts a scan works on are those listed whose time can be read, as often as they are listed |
| `LockoutScan.EventsInOrder` | internal/scheduler/lockout_scan.go:84-92 | and in the order of the listing |
| `LockoutScan.Scheduler.MarkLockoutNotified` | internal/scheduler/store.go:168-175 | marks that row and no other |
| `LockoutScan.Scheduler.RecordAll` | internal/scheduler/lockout_scan.go:84-106 | records and audits up to the first database failure, and keeps what came before it |
| `LockoutScan.Scheduler.SendLockoutDigest` | internal/scheduler/lockout_scan.go:163-195 | marks everyone covered only once the mail went out, those beyond the described ones included |
| `LockoutScan.Scheduler.RunLockoutScanTask` | internal/scheduler/lockout_scan.go:35-144 | the whole new state of a run under any failures; refused while another runs |
| `LockoutScan.AuditStep` | internal/scheduler/lockout_scan.go:84-106 | what one run does to the row and audit of one held lockout |
| `LockoutScan.AuditedOnce` | internal/scheduler/lockout_scan.go:84-106 | over any sequence of runs a held lockout gains one audit row if unknown and its first recording can write it, else none |
| `LockoutScan.AuditedExactlyOnce` | internal/scheduler/lockout_scan.go:84-106 | exactly one, while the audit log takes its rows and some run records it |
| `LockoutScan.DroppedIsForgotten` | internal/scheduler/lockout_scan.go:79-82 | a lockout the directory dropped leaves the table with the next prune |
| `LockoutScan.TableIsLockedSet` | internal/scheduler/store.go:177-191 | after a completed run that pruned the table is the readable locked set |
| `LockoutScan.MailStep` | internal/scheduler/lockout_scan.go:108-135 | a digest covers a held lockout exactly if it is unnotified or another one awaiting mail shares its entry and second; only a sent digest notifies; with recipients one is attempted |
| `LockoutScan.MailedUntilMarked` | internal/scheduler/lockout_scan.go:108-195 | over any sequence of runs a held lockout is in every digest until a sent one marked it, and in none after if and only if no run mails while another one awaiting mail shares its entry and second |
| `LockoutScan.PruningLeavesNoRival` | internal/scheduler/lockout_scan.go:79-82 | none does while the prunes go through and no listing shows two |
| `LockoutScan.ApartHasNoRival` | internal/scheduler/store.go:163-165 | none does while neither the table nor a listing holds two |
| `LockoutScan.SharedSecondMailsAgain` | internal/scheduler/store.go:163-165 | one that does: two runs from the empty table, and a third that mails a notified lockout again |
| `Reminders.DueExactly` | internal/scheduler/account_expiration.go:89-112 | each interval is due in exactly one stretch of time before the expiry |
| `Reminders.StretchesAre` | internal/scheduler/account_expiration.go:89-112 | which: from three weeks to one, one week to a day, the last day, and the day after; nothing earlier or later |
| `Reminders.IntervalsAdvance` | internal/scheduler/account_expiration.go:103-112 | for one expiry later runs find the same interval or a later one |
| `Reminders.ExpiryIsTooOld` | internal/scheduler/password_expiration.go:67-88 | what the expiry computed means: from it on, and not before, the password is older than the limit that applies, policy before shadow; none exactly when no limit applies |
| `Reminders.AgesAre` | internal/scheduler/password_expiration.go:34-55 | an age is known exactly for the policies listed; of several with one DN the last counts |
| `Reminders.Scheduler.Remind` | internal/scheduler/account_expiration.go:89-145 | one job's mails and rows under any failures |
| `Reminders.Scheduler.RunAccountExpirationTask` | internal/scheduler/account_expiration.go:13-165 | a whole account run: one job a user, to every admin |
| `Reminders.AccountJobsAre` | internal/scheduler/account_expiration.go:73-145 | user by user, that is for the user's own expiry and for all admins |
| `Reminders.Scheduler.RunPasswordExpirationTask` | internal/scheduler/password_expiration.go:14-166 | a whole password run: one job a user, to that user |
| `Reminders.PasswordJobsAre` | internal/scheduler/password_expiration.go:58-130 | user by user, that is due from the moment the password is too old, and never for a user without an address |
| `Reminders.MailedExactly` | internal/scheduler/account_expiration.go:89-145 | a run mails a reminder exactly if it is not recorded yet and the run asks for it with its look-up and some send succeeding |
| `Reminders.SameReminderExactly` | internal/scheduler/store.go:96-114 | two reminders are one exactly if they are about one interval of one kind for one entry, and one day holds both expiries |
| `Reminders.RemindedInOneRun` | internal/scheduler/store.go:96-114 | over any runs each reminder goes out in one run if and only if each run that mails it records one of its mails, or no later run would mail it |
| `Reminders.OneRecordIsEnough` | internal/scheduler/account_expiration.go:135-145 | one mail recorded, of however many recipients, is enough |
| `Reminders.AtMostFourRounds` | internal/scheduler/scheduler.go:21-30 | then for one expiry at most four runs mail, in the order of the intervals |
| `Reminders.EveryoneIsTold` | internal/scheduler/account_expiration.go:135-145 | a due and unsent reminder reaches every recipient whose mail goes through, whatever happens to the others |
| `Reminders.NobodyLeftOut` | internal/scheduler/account_expiration.go:73-145 | a run in which nothing fails leaves nobody due without a reminder, in it or before |
| `Reminders.LostRecordRepeats` | internal/scheduler/account_expiration.go:142-143 | a lost record repeats the reminder: a concrete run |
| `DirectoryChanges.Search` | internal/api/handlers_directory_changes.go:207-210 | binary search finds the first write not before the window |
| `DirectoryChanges.ClassifyChange` | internal/api/handlers_directory_changes.go:191-222 | the app's exactly if some audited request fits the identity within the window, and then the earliest |
| `DirectoryChanges.FitsExactly` | internal/api/handlers_directory_changes.go:191-222 | a request fits from thirty seconds before the change to five after it, if the change is logged under the app's own identity or the requester's |
| `DirectoryChanges.LabelExactly` | internal/api/handlers_directory_changes.go:191-222 | a change is the policy's exactly if it is ppolicy bookkeeping, and a request's exactly if not, with a time and an actor, and that request the first that fits |
| `DirectoryChanges.WindowKeepsFit` | internal/api/handlers_directory_changes.go:143-153 | a window holding a change's own slack keeps its first fit |
| `DirectoryChanges.WindowSufficesExactly` | internal/api/handlers_directory_changes.go:143-153 | every label is as by the whole table, whatever the table, if and only if each change a request could match lies between the last listed and the first |
| `DirectoryChanges.BetweenIsStretch` | internal/audit/directory_writes.go:32-53 | the writes of a window are the stretch of the audited writes that starts with the first and ends with the last one in it |
| `DirectoryChanges.WritesExactly` | internal/audit/directory_writes.go:32-53 | of the audit rows, each request that writes is there as often as it is logged, and none that only reads |
| `DirectoryChanges.BetweenExactly` | internal/audit/directory_writes.go:32-53 | and of the rows of a window, those dated in it |
| `DirectoryChanges.CapKeepsExactly` | internal/audit/directory_writes.go:24-53 | the limit on rows costs a covered change its label if and only if as many rows as it allows come before the first request of the window that fits |
| `DirectoryChanges.NewestUnreadableFails` | internal/api/handlers_directory_changes.go:143-153 | with an unreadable time first in the listing, every later change a request could match loses it in some audit table |
| `DirectoryChanges.UnreadableNewest` | internal/api/handlers_directory_changes.go:143-153 | one such listing |
| `DirectoryChanges.OldestUnreadableSuffices` | internal/api/handlers_directory_changes.go:143-153 | with one last, the window only widens |
| `DirectoryChanges.LimitHides` | internal/audit/directory_writes.go:24-53 | but goes back to the beginning, so that a long enough audit table hides the request |
| `DirectoryChanges.OldestUnreadableHides` | internal/audit/directory_writes.go:24-53 | one such table |
| `DirectoryChanges.DirectoryWritesBetween` | internal/audit/directory_writes.go:32-53 | returns that stretch oldest first, cut short only by the limit |
| `DirectoryChanges.Sort` | internal/api/handlers_directory_changes.go:155-178 | labels every change, counts it before any filter and keeps the wanted ones in order |
| `DirectoryChanges.SelectedExactly` | internal/api/handlers_directory_changes.go:155-178 | what is kept is all of the wanted origin and type that the search hits, as often as listed |
| `DirectoryChanges.CountsExactly` | internal/api/handlers_directory_changes.go:155-178 | each count is the length of the listing of that origin alone |
| `DirectoryChanges.ListDirectoryChanges` | internal/api/handlers_directory_changes.go:142-178 | counts per origin are exact and sum to the changes listed; the matches are exactly the wanted ones, in order |
| `ResetTokens.RedeemableExactly` | internal/passwordreset/service.go:82-180 | a token can be redeemed if and only if issued, unexpired, and neither its user revoked nor it consumed since |
| `ResetTokens.RedeemedAtMostOnce` | internal/passwordreset/service.go:145-172 | in any interleaving no token is redeemed twice |
| `ResetTokens.NeverAfterExpiryOrRevoke` | internal/passwordreset/service.go:73-91 | nor after its expiry or a revocation that covered it |
| `ResetTokens.OneTokenExactly` | internal/passwordreset/service.go:39-46 | in any history a user has at most one redeemable token if and only if each of theirs is revoked, consumed or expired by the time the next is inserted |
| `ResetTokens.OneTokenPerUser` | internal/passwordreset/service.go:39-46 | issuances that do not overlap meet it |
| `ResetTokens.TwoRequests` | internal/passwordreset/service.go:39-71 | of two overlapping requests exactly those interleavings are safe in which the second revokes after the first inserted |
| `ResetTokens.OverlapLeavesTwo` | internal/passwordreset/service.go:39-46 | overlapping ones can leave two: a concrete interleaving |
| `ResetTokens.CapHoldsAmong` | internal/passwordreset/service.go:93-121 | with requests overlapping, no five-minute window holds more issuances than the cap and the most overlapping ones besides, whatever cleanup deletes |
| `ResetTokens.CapReached` | internal/passwordreset/service.go:93-121 | and that bound is reached, for every cap and number of overlapping requests |
| `ResetTokens.CapExceeded` | internal/api/handlers_password_reset.go:56-80 | two overlapping requests put a fourth token in a user's window, or a twenty-first in an actor's |
| `ResetTokens.CapHolds` | internal/passwordreset/service.go:93-121 | no more than the cap when none overlap, per user or per actor |
| `ResetTokens.IssuanceKeeps` | internal/api/handlers_password_reset.go:61-100 | requests taken one at a time keep the premises of those lines |
| `ResetTokens.DisciplineExtends` | internal/passwordreset/service.go:39-180 | and so does every other statement, whenever it runs |
| `ResetTokens.Service.RevokeForUser` | internal/passwordreset/service.go:82-91 | afterwards no token of that user can be redeemed |
| `ResetTokens.Service.ConsumeToken` | internal/passwordreset/service.go:153-172 | succeeds exactly if the token could be redeemed, and spends it |
| `ResetTokens.Service.DeleteExpiredTokens` | internal/passwordreset/service.go:174-180 | changes nothing about what can be redeemed |
| `ResetTokens.Service.CountRecent` | internal/passwordreset/service.go:96-121 | counts the rows of a user or an actor created in the last five minutes: never more than were issued in them, and just those while tokens outlive them |
| `ResetTokens.CountIsIssued` | internal/passwordreset/service.go:96-121 | the number counted is that of the issuances in the last five minutes, whatever was revoked, consumed or cleaned up, and never more |
| `ResetTokens.Service.CreateToken` | internal/passwordreset/service.go:39-71 | revokes, then inserts, stopping at the first failure |
| `ResetTokens.Service.SendPasswordReset` | internal/api/handlers_password_reset.go:37-115 | runs the statements of an issuance in order and stops at the first failure or full cap; nobody is refused who was not issued the cap in the last five minutes |
| `AccessLog.OptionsDoNotHide` | internal/ldap/accesslog.go:185-202 | neither options nor letter case keep an attribute off the secret or bookkeeping lists |
| `AccessLog.FoldsAlike` | internal/ldap/accesslog.go:185-202 | two spellings are one attribute exactly if they differ in the case of ASCII letters alone |
| `AccessLog.SecretsAreSecret` | internal/ldap/accesslog.go:185-202 | so however a secret attribute is spelled, and whatever its options, it is secret |
| `AccessLog.ReadsBack` | internal/ldap/accesslog.go:209-230 | a logged directive reads back as it was, unless the server maintains its attribute |
| `AccessLog.SignsAre` | internal/ldap/accesslog.go:209-230 | a line counts exactly if it carries one of the four signs on an attribute the server does not maintain |
| `AccessLog.ParseReqMod` | internal/ldap/accesslog.go:209-237 | flattening gives the visible values in logged order; attributes and operations are the directives', repetitions once; no secret value |
| `AccessLog.VisibleIsLogged` | internal/ldap/accesslog.go:225-234 | a value is visible exactly if some kept directive on a non-secret attribute logged it |
| `AccessLog.VisibleAppend` | internal/ldap/accesslog.go:225-234 | in the order they were logged |
| `AccessLog.TouchedDiffers` | internal/ldap/accesslog.go:226-231 | adjacent changes differ in attribute or operation |
| `AccessLog.ParseReqOld` | internal/ldap/accesslog.go:240-260 | one group for each attribute in order of first occurrence, values in logged order, none of a secret one |
| `AccessLog.OldReadsBack` | internal/ldap/accesslog.go:240-260 | an old value reads back as it was logged, unless the server maintains its attribute |
| `AccessLog.GroupedInOrder` | internal/ldap/accesslog.go:240-260 | later lines move no group and no value logged before them |
| `AccessLog.IsPolicyBookkeeping` | internal/ldap/accesslog.go:284-299 | a modify of ppolicy's attributes only and of more than the lock alone |
| `AccessLog.DrivenByLines` | internal/ldap/accesslog.go:209-299 | that verdict depends on the logged lines alone, not on how they merge |

## Left out

- Order of result slices: the source sorts names, cycles, roles and listings before returning them; here they are sets, maps, multisets or unsorted sequences.
- Dialing, TLS, paging of searches other than the export's, SMTP, HTTP routing, sessions, cron and configuration: their results are parameters. SHA-256 and random tokens appear only as hashes that are never alike.
- DN parsing is a map from text to folded names; escaping and case folding inside it are not modelled. ParentNames is about exports whose DNs all parse to non-empty names at or under the base, each once.
- Overflow of durations and of the calendar's range, and the microsecond rounding of database timestamps.
- Letter case is folded for ASCII only, and spaces trimmed are those of `NetgroupTriple.IsSpace`.
- Home directory and manager references in a rename, and manager references in a delete: easy members beside the three kinds of reference modelled.
- A sudo query in which the search for the roles themselves fails: the query fails as a whole, and a rename or delete reports that search. Failed group and netgroup look-ups are modelled.
- Netgroup updates other than the triples a rename or delete saves; a request without triples on a netgroup with unreadable values is not modelled.
- A URL value in LDIF is not resolved by the reader. How a count is written in decimal: the closing remarks are functions of it.
- The list of accounts about to expire, and the counts of groups, sudo roles and policies on the dashboard.
- Overview.GetOverview: under a time or administrative limit, which can cut each count differently, nothing is claimed of `active` but how it is computed.
- ExpiryMigration: the accounts are those one search returned; the source ignores that a search can be cut short. The text of reasons is not modelled.
- LockoutScan: error messages, the number of notifications and the wording of the digest, of which at most 25 accounts are described. Two processes scanning one database at once; within one process the guard refuses a second run.
- Reminders: days are UTC days; the database compares them in its session's time zone. Error lists and the audit row of each reminder.
- AccessLog: whether a value is text or binary, and so how it is shown, is a parameter.
- ResetTokens: looking a token up without claiming it, and what the request does after a claim. The skew between the app's clock and the database's is bounded by what the caps need, a token outliving five minutes.
