# Cronus: verified core algorithms and protocols

This project models the parts of Cronus, an agent office toolkit written in Rust, whose correctness is not
visible from any single function: a union-find component detector, greedy string matching, a JSON printer, a
crash-safe backup, a bit-buffer codec with one-time codes and a user directory, a layered configuration merge,
an activation protocol over a fallible operating system, and several small state machines with whole-run
guarantees. `dafny verify dfyconfig.toml` checks all of it with Dafny 4.11.

Each module follows one source file. Code that changes things step by step is imperative Dafny: loops with
invariants, arrays, classes with `modifies` clauses. Each such method is proved against a specification
function or predicate, and the promises of the source are proved about that specification. Randomness, clocks,
HMAC-SHA1, bcrypt and the success or failure of operating-system calls are parameters or are chosen freely by
the environment.

| file | models |
|---|---|
| `Community.dfy` | union-find community detection |
| `Jaro.dfy` | Jaro and Jaro-Winkler similarity, the merge gate |
| `Json.dfy` | `render_json` and `json_escape`, against an RFC 8259 parser |
| `FileTree.dfy`, `TreeCopy.dfy`, `Backup.dfy` | a file system with crash points; the recursive copy; staging, rename, list, restore |
| `Base32.dfy`, `Totp.dfy`, `AuthStore.dfy` | Base32, one-time codes, the user directory and login |
| `Constitution.dfy` | the three-layer TOML merge |
| `Activation.dfy` | activation transitions, consent, the OS adapter |
| `ActionTracker.dfy` | the sliding-window rate limiter |
| `AgentRegistry.dfy` | the agent registry and its overlay file |
| `HotReload.dfy` | configuration diff, reload planning, the skills version |
| `Watcher.dfy` | the watcher recovery loop: bounded retries, polling, giving up |
| `Acp.dfy` | the ACP session bus |
| `RankFusion.dfy` | reciprocal rank fusion |
| `Sorting.dfy`, `Numerals.dfy`, `Options.dfy` | shared: sorting, digits, optional values |

## Where the code and its promises differ

Each of these is proved, with the exact condition under which the promise holds.

- Backup listing. A crash during `create` is documented never to show a half-written backup. Before the rename every
  state has the old backups, each intact, if and only if the target is `Quiet`: staging cannot be made at all, or no
  missing parent of the target looks like a backup, no listed backup holds staging or lies in it, and no backup name
  of the source lands in a listed directory inside staging (`BeforeRenameIff`, with `RoomListedExample` and
  `StagingHoldsListExample` as failing inputs). Where the rename finds an existing target the code removes that first,
  entry by entry; those states keep the old backups if and only if they are `Spared`, as they always are for a fresh
  target (`ReplacementIff`). The default target is always `Quiet`, and `Spared` exactly when no backup of the same
  second is there (`DefaultTarget`, `SameSecondExample`). `PublishedListingIff` has the exact condition for the listing
  after the rename to a fresh target.
- Backup contents. The removal of leftovers from an earlier crash ignores its own failure, so a finished backup is
  exactly the source if and only if no stray leftover survived (`PublishedCompleteIff`, `StrayExample`).
- Activation exclusivity. An unknown first observation falls through to registration; from a host with at most one
  mode that is the only way two can end up registered (`EnableExclusiveIff`).
- Activation errors. An error is documented to leave the host inactive or unchanged. From any host, an `enable` that
  fails does not exactly in two cases: the registration call is reached and works on a host without the target, and
  then the read-back fails or sees a system entry instead; or two modes were registered, the other one is seen, and
  its removal stops halfway. For `disable` the last is the only case (`EnableErrorIff`, `DisableErrorIff`;
  `ExceptionsHappen` and `HalfRemovedExample` show each of them).
- Configuration merge. Tables and keyed arrays are documented to merge recursively; the code does so only where all
  three layers hold one, otherwise the highest set layer is taken whole. The result is the documented one exactly
  when, at each such place, the highest set layer already holds all that the lower ones add
  (`MergeIsDocumentedIff`, `SilentLayerIff`, `UserTableHidesBase`).
- Self-merge. Merging a value with itself is the identity exactly when no keyed-array row lacks a name and every
  name's first row is also its last (`SelfMerge`).
- Agent registry. The overlay file is documented to hold a changed description of a built-in agent; a definition
  marked native loses it (`NativeDescriptionLost`). A registry survives save and load exactly when it is
  `Recoverable` (`RoundTripIff`).
- File watcher. Giving up is documented to last until the daemon is restarted; a later recreation report revives the
  watcher (`DisabledIff`, `StatusIsSettled`, `RevivedExample`).
- Admins. Demotion never removes the last admin, deletion can: a run always has an admin exactly when no call deletes
  the only one (`AdminsRemain`, `DeleteCanRemoveLastAdmin`).

## Model

| member | source | states |
|---|---|---|
| `CommunityDetection.CompressionKeepsRoots` | crates/codegraph/src/community.rs:42-49 | pointing a node straight at its root changes nobody's root |
| `CommunityDetection.LinkMergesTrees` | crates/codegraph/src/community.rs:54-56 | hanging one root under another keeps the links acyclic and merges exactly the two trees |
| `CommunityDetection.UnionFind.constructor` | crates/codegraph/src/community.rs:40 | every node starts as its own representative |
| `CommunityDetection.UnionFind.Find` | crates/codegraph/src/community.rs:42-49 | terminates, returns the root, and path compression leaves every representative unchanged |
| `CommunityDetection.UnionFind.Join` | crates/codegraph/src/community.rs:52-56 | one edge merges the two classes of its endpoints and no others |
| `CommunityDetection.UnionAll` | crates/codegraph/src/community.rs:40-57 | after all edges two nodes share a root iff an undirected path joins them |
| `CommunityDetection.JoinOneMore` | crates/codegraph/src/community.rs:51-57 | one more edge keeps every node joined to its root and gives the edge's endpoints one root |
| `CommunityDetection.RootsDecideFrom` | crates/codegraph/src/community.rs:51-57 | roots that agree across edges and are connected to their nodes decide connectivity both ways |
| `CommunityDetection.Collect` | crates/codegraph/src/community.rs:59-64 | members grouped by root, every occurrence of every node counted once |
| `CommunityDetection.ListGroups` | crates/codegraph/src/community.rs:67-77 | the groups in any iteration order, each sorted, none twice, none missing |
| `CommunityDetection.Renumber` | crates/codegraph/src/community.rs:79-82 | ids count from zero, members untouched |
| `CommunityDetection.Detect` | crates/codegraph/src/community.rs:39-84 | the canonical listing of the connected components: sorted members, ordered by least member, ids 0..n-1, every node present |
| `CommunityDetection.SameCommunityIffConnected` | crates/codegraph/src/community.rs:35-64 | two nodes share a community iff an undirected path of edges joins them |
| `CommunityDetection.EachNodeInOneCommunity` | crates/codegraph/src/community.rs:59-64 | a node is in one community only, as often as it was given |
| `CommunityDetection.CanonicalUnique` | crates/codegraph/src/community.rs:66-83 | the result is fixed by the nodes and the adjacency alone, whatever the map iteration order |
| `CommunityDetection.EdgeDirectionAndOrderIrrelevant` | crates/codegraph/src/community.rs:51-83 | reordering, reversing or repeating edges does not change the result |
| `JaroSimilarity.WindowWidth` | crates/codegraph/src/dedup.rs:30-38 | a pair is in the window iff at one place, or twice one more than its distance fits into one of the strings |
| `JaroSimilarity.StableUnique` | crates/codegraph/src/dedup.rs:36-48 | there is only one stable pairing of eligible positions |
| `JaroSimilarity.Pairing` | crates/codegraph/src/dedup.rs:36-48 | the matching, defined by stability alone |
| `JaroSimilarity.PairingSwaps` | crates/codegraph/src/dedup.rs:36-48 | scanning the other string first marks the same positions in both |
| `JaroSimilarity.MatchedPermutation` | crates/codegraph/src/dedup.rs:36-65 | both strings have equally many matched characters, and they are the same characters in some order |
| `JaroSimilarity.FirstFree` | crates/codegraph/src/dedup.rs:37-42 | the window scan finds the least free eligible position, or none exists |
| `JaroSimilarity.MatchOne` | crates/codegraph/src/dedup.rs:37-47 | one position of the greedy loop extends the stable pairing and sets the two flags accordingly |
| `JaroSimilarity.MatchFlags` | crates/codegraph/src/dedup.rs:31-48 | the flag arrays and the match count are those of the stable pairing |
| `JaroSimilarity.SkipUnflagged` | crates/codegraph/src/dedup.rs:58-60 | the unguarded scan stays inside the array and stops at the next flag |
| `JaroSimilarity.CountMismatches` | crates/codegraph/src/dedup.rs:53-65 | the lockstep scan counts the places where the two matched sequences differ |
| `JaroSimilarity.ComputeJaro` | crates/codegraph/src/dedup.rs:19-70 | the loops compute the specified similarity, early returns included |
| `JaroSimilarity.ScoreIsMean` | crates/codegraph/src/dedup.rs:66-69 | the score is the mean of the two matched shares and the share in order, two mismatches making one transposition |
| `JaroSimilarity.JaroIsMean` | crates/codegraph/src/dedup.rs:66-69 | the similarity is that mean over the matched characters and the places at which they differ |
| `JaroSimilarity.JaroZeroIff` | crates/codegraph/src/dedup.rs:49-51 | different strings score zero iff they share no character within the window |
| `JaroSimilarity.JaroSymmetric` | crates/codegraph/src/dedup.rs:19-70 | the score is the same with the strings swapped |
| `JaroSimilarity.JaroRange` | crates/codegraph/src/dedup.rs:19-70 | the score lies in [0,1] and is 1 iff the strings are equal, although half the mismatches round down |
| `JaroSimilarity.CommonPrefix` | crates/codegraph/src/dedup.rs:77-82 | the length of the longest common prefix, capped |
| `JaroSimilarity.JaroWinklerRange` | crates/codegraph/src/dedup.rs:73-84 | the prefix bonus never lowers the score, never passes 1, and reaches 1 iff the strings are equal |
| `JaroSimilarity.WinklerBonus` | crates/codegraph/src/dedup.rs:72-84 | the bonus is a tenth of what is missing to one for each of the first four places in common |
| `JaroSimilarity.GateIs` | crates/codegraph/src/dedup.rs:5-15 | the sixteen names that never merge with another; all others merge by similarity alone |
| `JaroSimilarity.ComputeShouldMerge` | crates/codegraph/src/dedup.rs:94-102 | equality first, then the low-entropy gate, then the threshold |
| `JaroSimilarity.ShouldMergeSymmetric` | crates/codegraph/src/dedup.rs:73-102 | similarity and verdict do not depend on the order of the names |
| `JaroSimilarity.MergeAtOneIsEquality` | crates/codegraph/src/dedup.rs:94-102 | at threshold 1 only equal names merge |
| `JsonPrinter.JsonEscape` | crates/cli/src/output.rs:31-45 | the loop appends each character's escape in order |
| `JsonPrinter.EscapesAre` | crates/cli/src/output.rs:34-42 | how each character is printed: the five short escapes, four hexadecimal digits for other control characters, itself otherwise |
| `JsonPrinter.EscapedStringParses` | crates/cli/src/output.rs:31-45 | the string rules of section 7 of RFC 8259 undo the escaping of every string |
| `JsonPrinter.IntegerParses` | crates/cli/src/main.rs:668 | the number grammar of section 6 reads back every printed integer |
| `JsonPrinter.PrintedForm` | crates/cli/src/main.rs:664-686 | the words, quotes and brackets of the printed form, without white space |
| `JsonPrinter.PrintedList` | crates/cli/src/main.rs:672-677 | a longer list repeats only the comma |
| `JsonPrinter.PrintedRecord` | crates/cli/src/main.rs:678-684 | a longer record repeats only the comma |
| `JsonPrinter.RenderedParses` | crates/cli/src/main.rs:664-686 | a printed value parses to its meaning whatever delimiter follows it |
| `JsonPrinter.RoundTrip` | crates/cli/src/main.rs:664-686 | the printed text is one JSON text and parses to exactly the value printed |
| `JsonPrinter.PrinterInjective` | crates/cli/src/main.rs:664-686 | different values never print the same text |
| `FileTree.Disk.CreateDirAll` | crates/domain/src/backup.rs:79 | missing directories down to the path appear and nothing else changes, at every crash point; where something is in the way nothing changes at all |
| `FileTree.Disk.RemoveDirAll` | crates/domain/src/backup.rs:154 | removal one entry at a time, or of a symlink itself, only ever removes, touches nothing outside the path, and empties it when it succeeds |
| `FileTree.Disk.CopyFile` | crates/domain/src/backup.rs:99-100 | the destination ends with the source's content; on the way only that file differs |
| `FileTree.Disk.Rename` | crates/domain/src/backup.rs:171 | the subtree moves whole in one step, or nothing changes |
| `TreeCopy.KeptIs` | crates/domain/src/backup.rs:21-59 | the top-level names that go into a backup, spelled out |
| `TreeCopy.RestoredNamesAre` | crates/domain/src/backup.rs:84-87 | a restore leaves out only runtime artifacts on top, and below the top nothing is left out by name |
| `TreeCopy.CopyTree` | crates/domain/src/backup.rs:72-106 | wherever reads stay apart from writes the copy terminates and yields the source as it was at the call, minus the guard, skipped top-level names and symlinks; a crash at any point leaves nothing new but included nodes of the source's kind |
| `TreeCopy.ApartIff` | crates/domain/src/backup.rs:65-71 | with the guard at the destination, nothing is read that was written iff the destination does not hold the source, or the source has nothing to copy to its own place |
| `TreeCopy.ApartBelow` | crates/domain/src/backup.rs:97-98 | the recursion into a subdirectory keeps reads apart from writes |
| `TreeCopy.CopyEntries` | crates/domain/src/backup.rs:80-104 | the entries in any order: those done so far are exactly the ones laid over |
| `TreeCopy.CopyEntry` | crates/domain/src/backup.rs:81-104 | one entry: the guard and symlinks contribute nothing, files and directories everything below them |
| `TreeCopy.DirEntry` | crates/domain/src/backup.rs:97-98 | a recursive copy of a subdirectory is the copy of the parent restricted to that name |
| `TreeCopy.ChildPartway` | crates/domain/src/backup.rs:97-98 | a crash in the copy of a subdirectory is a crash in the whole copy |
| `Backup.StagingFor` | crates/domain/src/backup.rs:114-123 | a sibling of the target whose name `list` never recognizes |
| `Backup.NamesAre` | crates/domain/src/backup.rs:114-123 | a dot before and `.partial` after the target's name; the default name spells the time in decimal |
| `Backup.BackupTimeIff` | crates/domain/src/backup.rs:196-205 | a listed name is `backup-`, perhaps a plus sign, and the digits of a 64-bit number, and its time is what they spell |
| `Backup.DefaultTarget` | crates/domain/src/backup.rs:147-153 | the default target is always quiet and undisturbed, and spared iff no backup of the same second exists |
| `Backup.DefaultTargetListable` | crates/domain/src/backup.rs:147-151 | the default name is recognized with the time it was made |
| `Backup.QuietKeeps` | crates/domain/src/backup.rs:137-140 | for a quiet target every state before the rename has the old backups, each intact |
| `Backup.BeforeRenameIff` | crates/domain/src/backup.rs:137-164 | all well-formed states before the rename have the old backups, each intact, iff the target is quiet |
| `Backup.ReplacementIff` | crates/domain/src/backup.rs:171-178 | all states of the removal of an existing target have the old backups, each intact, iff there is nothing to remove or no listed backup is at, above or below the target |
| `Backup.SameSecondExample` | crates/domain/src/backup.rs:171-178 | a second backup in the same second shows the first half removed, then not at all |
| `Backup.StagingHoldsListExample` | crates/domain/src/backup.rs:153-154 | the leftover removal drops a listed backup when the staging name is the listed directory |
| `Backup.RoomListedExample` | crates/domain/src/backup.rs:149-155 | an explicit destination below a missing backup directory shows it before the copy |
| `Backup.MakeStaging` | crates/domain/src/backup.rs:154-155 | leftovers removed if they can be, staging made; nothing changes where staging cannot be made |
| `Backup.Stage` | crates/domain/src/backup.rs:153-164 | staging holds the copy on success; every state on the way holds only what was there, room for staging, and included nodes of the source's kind |
| `Backup.Publish` | crates/domain/src/backup.rs:166-178 | the staged tree becomes the target; an existing target is only taken apart before that, a fresh one needs one step |
| `Backup.PublishedCompleteIff` | crates/domain/src/backup.rs:154-160 | the backup is exactly the included source iff no stray leftover survived the ignored removal |
| `Backup.BackupHolds` | crates/domain/src/backup.rs:12-59 | what a complete backup holds on top: never `.env`, the logs iff asked for, nothing that was not in the root |
| `Backup.StrayExample` | crates/domain/src/backup.rs:154-160 | a leftover file that survives the removal ends up in the published backup |
| `Backup.Create` | crates/domain/src/backup.rs:141-185 | for a quiet, spared target every crash point has the old backups, each intact; for an undisturbed one success adds exactly the new one to the listing; it is complete iff no stray was left |
| `Backup.PublishedIsListed` | crates/domain/src/backup.rs:171-184 | the rename adds the new backup to the listing and changes nothing else in it |
| `Backup.PublishedListingIff` | crates/domain/src/backup.rs:171-184 | exactly when a complete backup at a fresh target leaves the old listing plus itself, wherever the listed directory lies |
| `Backup.OldBackupsStay` | crates/domain/src/backup.rs:171-184 | a backup apart from the target and staging is intact after the rename |
| `Backup.List` | crates/domain/src/backup.rs:189-212 | each listed backup once, creation times descending; missing directory empty, unreadable one an error |
| `Backup.Restore` | crates/domain/src/backup.rs:217-221 | the backup laid over the destination, minus runtime artifacts on top; on every path nothing outside the destination changes but missing parents |
| `Backup.CompleteIsClean` | crates/domain/src/backup.rs:84-103 | a complete backup has no symlinks and no runtime artifacts on top |
| `Backup.OwnRootIsSafe` | crates/domain/src/backup.rs:12-21 | a backup made at a fresh target can be restored over its own root, wherever in it the target lies |
| `Backup.FreshNotInBase` | crates/domain/src/backup.rs:153-160 | a target that was fresh is not part of what was copied |
| `Backup.RestoreOverlays` | crates/domain/src/backup.rs:214-221 | what the backup holds is in the destination, what it does not hold keeps its place, and the backup is unchanged |
| `Backup.RestoreReproduces` | crates/domain/src/backup.rs:214-221 | restored into an empty separate place a backup is reproduced exactly and left as it was |
| `Backup.RestoreResumes` | crates/domain/src/backup.rs:141-221 | create then restore over the root, whatever happened between: every path the backup was made of is back, no other path is touched |
| `Base32.PushByte` | crates/auth-local/src/lib.rs:525 | shifting a byte into the 32-bit buffer appends its bits, whatever high bits are lost |
| `Base32.PushQuintet` | crates/auth-local/src/lib.rs:548 | shifting a quintet into the 32-bit buffer appends its bits |
| `Base32.PopFront` | crates/auth-local/src/lib.rs:527-531 | shift and mask take the bits in front and leave the rest |
| `Base32.SymbolsInOrder` | crates/auth-local/src/lib.rs:518 | the 32 symbols of the alphabet in order |
| `Base32.Position` | crates/auth-local/src/lib.rs:518-547 | the position of a character in the alphabet, or none has it |
| `Base32.Encode` | crates/auth-local/src/lib.rs:520-538 | the output spells the input bits padded with fewer than five zeros; its length is the ceiling of 8n/5 |
| `Base32.Decode` | crates/auth-local/src/lib.rs:541-556 | refused iff a character is outside the alphabet; otherwise the whole bytes in front of the bits read |
| `Base32.RoundTrip` | crates/auth-local/src/lib.rs:520-556 | decoding an encoding in any letter case gives the original bytes |
| `Base32.EncodeDecode` | crates/auth-local/src/lib.rs:520-556 | the two loops composed never refuse and lose nothing |
| `Totp.TruncateIsDynamic` | crates/auth-local/src/lib.rs:487-492 | section 5.3 of RFC 4226: four big-endian bytes from the offset nibble, top bit masked, never outside the digest |
| `Totp.Truncate` | crates/auth-local/src/lib.rs:487-492 | the code is below one million |
| `Totp.CodeTextInjective` | crates/auth-local/src/lib.rs:495-497 | six zero-padded digits tell all codes apart |
| `Totp.CodeTextIff` | crates/auth-local/src/lib.rs:495-497 | the text of a code is the six digits that spell it in decimal |
| `Totp.CodeText` | crates/auth-local/src/lib.rs:495-497 | a one-time code is exactly six digits |
| `Totp.HexEncode` | crates/auth-local/src/lib.rs:571-573 | two characters per byte, so a four-byte backup code has eight |
| `Totp.HexSpells` | crates/auth-local/src/lib.rs:571-573 | each byte is two lower-case hexadecimal digits, the high one first |
| `Totp.AcceptsIff` | crates/auth-local/src/lib.rs:483-513 | accepted are exactly the six-digit decimal codes of section 5.3 of RFC 4226 for the thirty-second steps from one before to one after the current one |
| `Totp.VerifyAt` | crates/auth-local/src/lib.rs:501-513 | accepted iff the code belongs to the current step or a neighbour, never a negative one |
| `Totp.BackupCodeNeverAccepted` | crates/auth-local/src/lib.rs:334-342 | an eight-character backup code is never taken for a one-time code |
| `AuthDirectory.RemoveFirst` | crates/auth-local/src/lib.rs:339-340 | exactly one occurrence of the code is consumed |
| `AuthDirectory.BackupCodes` | crates/auth-local/src/lib.rs:300-303 | the issued codes have the backup shape |
| `AuthDirectory.BackupCodesConserved` | crates/auth-local/src/lib.rs:281-344 | over any run without reissue, issued codes equal remaining plus accepted ones as multisets |
| `AuthDirectory.WrongPasswordConsumesNothing` | crates/auth-local/src/lib.rs:357-375 | a login with a wrong password changes nothing |
| `AuthDirectory.RefusedLoginChangesNothing` | crates/auth-local/src/lib.rs:357-375 | no refused login changes anything, whatever the reason |
| `AuthDirectory.LoginGrantedIff` | crates/auth-local/src/lib.rs:357-375 | a login is granted iff the password is right and, with two factors on, the code is an accepted one-time code or an unused backup code |
| `AuthDirectory.VerifyGrantedIff` | crates/auth-local/src/lib.rs:323-344 | a code is good iff it is an accepted one-time code or an unused backup code; only the latter is used up |
| `AuthDirectory.ConfirmGrantedIff` | crates/auth-local/src/lib.rs:281-305 | confirmed iff the code fits the pending secret, which becomes active with eight new codes |
| `AuthDirectory.EnrolmentLeaves` | crates/auth-local/src/lib.rs:265-317 | disabling leaves no secret and no code; beginning enrolment changes only the pending secret |
| `AuthDirectory.PasswordGrantedIff` | crates/auth-local/src/lib.rs:189-206 | changed iff the current password is right and the new one can be hashed; nothing else changes |
| `AuthDirectory.CreateGrantedIff` | crates/auth-local/src/lib.rs:138-173 | created iff the name is neither reserved nor taken and the password can be hashed, with the flags of its kind and no second factor |
| `AuthDirectory.DeleteGrantedIff` | crates/auth-local/src/lib.rs:175-180 | only an existing user is deleted, and nobody else is touched |
| `AuthDirectory.AdminGrantedIff` | crates/auth-local/src/lib.rs:239-259 | a demotion is refused iff it is of the only admin; promotion grants the shell and stashes, demotion brings the stash or the defaults back |
| `AuthDirectory.UnknownUserRefused` | crates/auth-local/src/lib.rs:138-375 | nothing but creation is granted to a name that is not there |
| `AuthDirectory.AdminsRemain` | crates/auth-local/src/lib.rs:235-259 | over any run there is an admin at every point iff no call deletes the only one |
| `AuthDirectory.StepKeepsAnAdmin` | crates/auth-local/src/lib.rs:235-259 | one call leaves an admin iff it does not delete the only one |
| `AuthDirectory.DeleteCanRemoveLastAdmin` | crates/auth-local/src/lib.rs:175-180 | deletion is the exception: it can remove the only admin |
| `AuthDirectory.DemotionRestores` | crates/auth-local/src/lib.rs:239-259 | promotion, any other calls, then a granted demotion give back the earlier privileges |
| `AuthDirectory.AuthStore.CreateUser` | crates/auth-local/src/lib.rs:138-173 | reserved and duplicate names refused before hashing; otherwise the new record |
| `AuthDirectory.AuthStore.DeleteUser` | crates/auth-local/src/lib.rs:175-180 | the record is removed, or the user is unknown |
| `AuthDirectory.AuthStore.ChangePassword` | crates/auth-local/src/lib.rs:189-205 | only with the current password, and only the hash changes |
| `AuthDirectory.AuthStore.SetPrivileges` | crates/auth-local/src/lib.rs:218-229 | only the stored privileges change |
| `AuthDirectory.AuthStore.SetAdmin` | crates/auth-local/src/lib.rs:239-259 | refused for the last admin; stashes on promotion, restores on demotion |
| `AuthDirectory.AuthStore.TotpEnrollBegin` | crates/auth-local/src/lib.rs:265-277 | the secret is pending and returned as its Base32 encoding |
| `AuthDirectory.AuthStore.TotpConfirmEnable` | crates/auth-local/src/lib.rs:281-305 | only a code of the pending secret activates it and issues eight codes |
| `AuthDirectory.AuthStore.TotpDisable` | crates/auth-local/src/lib.rs:307-317 | secrets and codes are dropped |
| `AuthDirectory.AuthStore.TotpVerify` | crates/auth-local/src/lib.rs:324-344 | one-time code first, then a backup code, consuming one |
| `AuthDirectory.AuthStore.Login` | crates/auth-local/src/lib.rs:357-375 | password, then the second factor if enabled |
| `Constitution.MergeKeyedArrays` | crates/domain/src/constitution.rs:148-192 | the two in-place loops: team rows fill gaps, user rows replace or are added |
| `Constitution.Precedence` | crates/domain/src/constitution.rs:161-191 | for every name the user's last row, else the base row, else the team's first row |
| `Constitution.PrecedenceByName` | crates/domain/src/constitution.rs:153-189 | the same over the `name` entries of the rows themselves |
| `Constitution.NameUnion` | crates/domain/src/constitution.rs:148-192 | the merged names are the names of the three layers |
| `Constitution.BaseOrderKept` | crates/domain/src/constitution.rs:161-189 | base rows stay in front in their order; distinct base names give distinct merged names |
| `Constitution.UnnamedConserved` | crates/domain/src/constitution.rs:165-189 | rows without a name are never dropped or replaced |
| `Constitution.MergeToml` | crates/domain/src/constitution.rs:99-146 | the key loop and the recursion compute the specified merge |
| `Constitution.ScalarPrecedence` | crates/domain/src/constitution.rs:105-113 | a scalar of the user counts unless it is the empty string, then the team's, then the base's |
| `Constitution.EmptyLayersAreNeutral` | crates/domain/src/constitution.rs:117-146 | a table merged with two empty tables, in any position, is itself |
| `Constitution.MergeIsDocumentedIff` | crates/domain/src/constitution.rs:91-146 | the merge is the documented recursive one, a silent layer counting as empty, iff wherever a layer is missing the highest set one already holds what the others add |
| `Constitution.AbsorbsIff` | crates/domain/src/constitution.rs:91-113 | taking the highest set layer whole is the documented merge iff it has every lower key, set if set below, recursively, and covers the lower rows |
| `Constitution.FilledUpIff` | crates/domain/src/constitution.rs:162-173 | filling with the team rows gives the team rows iff the base rows are a named prefix and the rest is new |
| `Constitution.ReplacedIff` | crates/domain/src/constitution.rs:175-189 | replacing with the user rows gives the user rows iff they start with the same names, keep the repeats, and add only new names |
| `Constitution.SilentLayerIff` | crates/domain/src/constitution.rs:105-113 | two tables and a silent layer merge as with an empty table iff the higher has every key of the lower, set if set there |
| `Constitution.UserTableHidesBase` | crates/domain/src/constitution.rs:105-113 | with a silent team a user table hides the whole base table, where the documented merge keeps both |
| `Constitution.SelfMergeRows` | crates/domain/src/constitution.rs:148-192 | rows merged with themselves are themselves iff all are named and each name's first row is its last |
| `Constitution.SelfMerge` | crates/domain/src/constitution.rs:99-192 | a value merged with itself twice is itself iff it is self-stable |
| `Constitution.DistinctNamesStable` | crates/domain/src/constitution.rs:148-192 | distinct names on every row are enough |
| `Activation.ObserveSound` | crates/activation-os/src/lib.rs:95-160 | what is observed, unless unknown, is what is registered |
| `Activation.ObserveComplete` | crates/activation-os/src/lib.rs:56-71 | when no query fails the observation is the host's, awaiting approval iff vetoed |
| `Activation.ObserveUnknownIff` | crates/activation-os/src/lib.rs:133-160 | unknown iff one of the queries it needs fails |
| `Activation.EnableExclusiveIff` | crates/domain/src/activation.rs:50-84 | every step keeps at most one mode, unless the first look was blind, the other mode registered and the write worked |
| `Activation.EnableSucceeds` | crates/domain/src/activation.rs:75-83 | from any host success registers the target, alone iff the other mode was not there at the registration call; from at most one mode iff it was no blind double |
| `Activation.EnableOutcomeIff` | crates/domain/src/activation.rs:45-83 | a success needs approval iff the veto query of the read-back reports a veto, and is otherwise an activation |
| `Activation.EnableErrorIs` | crates/domain/src/activation.rs:59-83 | which error is reported, and with which observation |
| `Activation.EnableWorks` | crates/domain/src/activation.rs:50-84 | where no call fails, enable succeeds from any host |
| `Activation.EnableErrorIff` | crates/domain/src/activation.rs:24-84 | from any host an error leaves it neither inactive nor unchanged iff a working registration is not seen on read-back, or the removal of two modes stops halfway |
| `Activation.ExceptionsHappen` | crates/domain/src/activation.rs:50-84 | each exception occurs on some host under some script |
| `Activation.DisableErrorIff` | crates/domain/src/activation.rs:87-96 | success leaves nothing registered; from any host an error leaves it neither inactive nor unchanged iff the removal of two modes stops halfway; from at most one mode every step keeps at most one |
| `Activation.DisableGrantedIff` | crates/domain/src/activation.rs:87-96 | which result disable gives, from the answers of its calls |
| `Activation.HalfRemovedExample` | crates/domain/src/activation.rs:87-96 | consent, a blind double registration, then a removal that stops halfway |
| `Activation.RunExclusive` | crates/domain/src/activation.rs:50-144 | over any run of commands every host state has at most one mode iff no command is a blind double registration |
| `Activation.ConsentGate` | crates/domain/src/activation.rs:135-144 | refused iff no record names the mode, whatever was granted for the other one, and then no call is made |
| `Activation.NothingWithoutConsent` | crates/domain/src/activation.rs:107-144 | a mode seen anywhere in a run was registered at the start or consented to |
| `Activation.OsHost.ObserveState` | crates/activation-os/src/lib.rs:133-160 | the queries in order, system first, any failure unknown |
| `Activation.OsHost.RemoveEntries` | crates/activation-os/src/lib.rs:169-174 | login removed, then system, stopping at a failure |
| `Activation.OsHost.RegisterTarget` | crates/domain/src/activation.rs:70-83 | register, then trust only the read-back |
| `Activation.OsHost.EnableMode` | crates/domain/src/activation.rs:50-84 | the live calls follow the specified transition, state by state |
| `Activation.OsHost.DisableModes` | crates/domain/src/activation.rs:87-96 | the live removal follows the specified transition |
| `Activation.ConsentLedger.Record` | crates/domain/src/activation.rs:122-124 | consents are only added |
| `Activation.ConsentLedger.Consented` | crates/domain/src/activation.rs:127-129 | true iff a record for exactly this mode exists |
| `Activation.EnableConsented` | crates/domain/src/activation.rs:135-144 | without consent no call reaches the host |
| `RateLimiter.ActionTracker.Prune` | crates/domain/src/autonomy.rs:166-169 | keeps exactly the timestamps less than one window old, in order |
| `RateLimiter.ActionTracker.Record` | crates/domain/src/autonomy.rs:151-158 | prunes, refuses at the cap, otherwise records |
| `RateLimiter.ActionTracker.Count` | crates/domain/src/autonomy.rs:161-164 | the number of timestamps left after pruning |
| `RateLimiter.PrunedRefinesFull` | crates/domain/src/autonomy.rs:149-169 | under a monotone clock every call of every run answers as a tracker keeping the whole history |
| `RateLimiter.RateBounded` | crates/domain/src/autonomy.rs:125-158 | every interval one window long contains at most `cap` admitted actions, over any run |
| `RateLimiter.AdmittedIff` | crates/domain/src/autonomy.rs:151-170 | over any run an action is admitted iff fewer than the cap were admitted less than one window before it |
| `RateLimiter.RecentCount` | crates/domain/src/autonomy.rs:166-169 | pruning keeps exactly the entries less than one window old |
| `RateLimiter.ActionTracker.Hourly` | crates/domain/src/autonomy.rs:133-139 | the production window is 3600 seconds |
| `AgentRegistry.Save` | crates/domain/src/agent_registry.rs:246-266 | the overlay holds each definition the seed does not determine once per agent, sorted by name |
| `AgentRegistry.RoundTripIff` | crates/domain/src/agent_registry.rs:225-266 | loading what was saved gives the registry back iff it is recoverable |
| `AgentRegistry.OverlayLosesNothing` | crates/domain/src/agent_registry.rs:124-266 | every registry reachable by edits, saves and loads of any earlier file is given back unchanged by saving and loading |
| `AgentRegistry.OverlayIsMinimal` | crates/domain/src/agent_registry.rs:246-257 | the overlay of a reachable registry leaves out exactly the agents that are as seeded |
| `AgentRegistry.NativeDescriptionLost` | crates/domain/src/agent_registry.rs:200-258 | a changed description on a native definition is not stored |
| `AgentRegistry.SeedIs` | crates/domain/src/agent_registry.rs:77-133 | the seven built-in agents with their modes, enabled, on the default model |
| `AgentRegistry.UserConfigLeaves` | crates/domain/src/agent_registry.rs:147-165 | the flag and model reference an override leaves; it never enables, and creates a custom agent where there was none |
| `AgentRegistry.SetDisabledLeaves` | crates/domain/src/agent_registry.rs:170-178 | the flag of an existing agent is set and no agent appears |
| `AgentRegistry.Registry.constructor` | crates/domain/src/agent_registry.rs:124-133 | the built-in seed, inserted one by one |
| `AgentRegistry.Registry.ApplyUserConfig` | crates/domain/src/agent_registry.rs:147-165 | disables or repoints an agent, or creates a custom one |
| `AgentRegistry.Registry.SetDisabled` | crates/domain/src/agent_registry.rs:170-178 | sets the flag of an existing agent only, and says whether there was one |
| `AgentRegistry.Registry.RegisterCustom` | crates/domain/src/agent_registry.rs:196-198 | the definition is stored under its own name |
| `AgentRegistry.Registry.LoadFrom` | crates/domain/src/agent_registry.rs:225-237 | the seed with the file's definitions on top, or the seed alone |
| `HotReload.DiffConfig` | crates/domain/src/config_hotreload.rs:22-38 | exactly the disagreeing paths, strictly sorted |
| `HotReload.DiffSymmetric` | crates/domain/src/config_hotreload.rs:22-38 | swapping the snapshots does not change the diff |
| `HotReload.MatchesAtDot` | crates/domain/src/config_hotreload.rs:77-82 | a prefix matches as a whole or at a dot |
| `HotReload.FirstIsLongest` | crates/domain/src/config_hotreload.rs:84-87 | with specific prefixes first, the first match is the strictly longest match |
| `HotReload.BuiltinFirstIsLongest` | crates/domain/src/config_hotreload.rs:80-110 | for every path the built-in table's first match is its longest match |
| `HotReload.BuiltinSpecificFirst` | crates/domain/src/config_hotreload.rs:88-110 | no built-in prefix hides a later, more specific one |
| `HotReload.UnmatchedIs` | crates/domain/src/config_hotreload.rs:112-170 | a path no rule matches restarts the daemon, or restarts the channel whose id it names |
| `HotReload.BuiltinClassified` | crates/domain/src/config_hotreload.rs:84-110 | a matched path gets the kind and actions of its longest built-in prefix |
| `HotReload.QuietPaths` | crates/domain/src/config_hotreload.rs:92-95 | the built-in paths that ask for nothing |
| `HotReload.PlainPaths` | crates/domain/src/config_hotreload.rs:96-104 | the built-in paths that ask for a restart, or a reload without an action |
| `HotReload.HeartbeatPaths` | crates/domain/src/config_hotreload.rs:97-101 | the built-in paths that restart the heartbeat |
| `HotReload.ActionPaths` | crates/domain/src/config_hotreload.rs:98-108 | the built-in paths with an action of their own |
| `HotReload.BuildPlan` | crates/domain/src/config_hotreload.rs:136-170 | the loop builds the specified plan |
| `HotReload.PlanPartitions` | crates/domain/src/config_hotreload.rs:141-168 | every changed path lands in exactly one of restart, hot and no-op |
| `HotReload.ActionsAreUnion` | crates/domain/src/config_hotreload.rs:153-160 | the actions are the union over the hot paths, without repeats |
| `HotReload.NoopIff` | crates/domain/src/config_hotreload.rs:172-175 | a plan is a no-op iff every changed path is classified as quiet |
| `HotReload.PlanReload` | crates/domain/src/config_hotreload.rs:330-343 | strictly sorted diff, plan, no-op flag and version of one reload |
| `HotReload.BumpIffTouched` | crates/domain/src/config_hotreload.rs:177-187 | with the built-in table a reload bumps the version iff it touched a skills path |
| `HotReload.TouchesSkillsIff` | crates/domain/src/config_hotreload.rs:177-187 | a reload touches skills iff one of its paths is `skills` or lies below it |
| `HotReload.VersionCounts` | crates/domain/src/config_hotreload.rs:189-207 | over any run the version counts exactly the reloads that touched a skills path |
| `WatcherRecoveryLoop.AttemptCountsFailures` | crates/domain/src/config_hotreload.rs:285-297 | over any run the attempt is the number of failures in a row, capped, so the backoff table is never overrun, and a failure switches to polling iff it is at least the third in a row |
| `WatcherRecoveryLoop.StatusIsSettled` | crates/domain/src/config_hotreload.rs:285-303 | over any run the status is what the last successful recreation, polling failure or exhausted retry made it |
| `WatcherRecoveryLoop.DisabledIff` | crates/domain/src/config_hotreload.rs:300-303 | disabled iff polling failed and since then no recreation succeeded or exhausted the retries again |
| `WatcherRecoveryLoop.RevivedExample` | crates/domain/src/config_hotreload.rs:285-303 | a successful recreation revives a disabled watcher |
| `WatcherRecoveryLoop.WatcherRecovery.OnWatcherError` | crates/domain/src/config_hotreload.rs:275-278 | the retry loop starts over with the first backoff |
| `WatcherRecoveryLoop.WatcherRecovery.OnRecreateResult` | crates/domain/src/config_hotreload.rs:285-297 | success is active again; a failure waits the next backoff, or polls once retries are exhausted |
| `WatcherRecoveryLoop.WatcherRecovery.OnPollingFailure` | crates/domain/src/config_hotreload.rs:300-303 | the watcher is disabled |
| `AcpBus.ReachableIsSound` | crates/domain/src/acp.rs:132-280 | in every reachable server events are numbered 0..n-1, anonymous sessions have none, at most 16 steers wait |
| `AcpBus.CreateIs` | crates/domain/src/acp.rs:143-167 | a session is created once, empty and without budget |
| `AcpBus.UnknownSessionIff` | crates/domain/src/acp.rs:175-181 | every call but creation needs its session |
| `AcpBus.EmitGrantedIff` | crates/domain/src/acp.rs:199-209 | an event is emitted iff the session is not anonymous, and gets the next number |
| `AcpBus.DelegationGrantedIff` | crates/domain/src/acp.rs:213-218 | refused as such iff not opted in, otherwise an ordinary emit |
| `AcpBus.SteerGrantedIff` | crates/domain/src/acp.rs:247-254 | refused iff sixteen are waiting, otherwise queued last |
| `AcpBus.OtherCallsAre` | crates/domain/src/acp.rs:169-259 | a poll hands out the oldest steer; a budget or an interrupt changes only that field |
| `AcpBus.StepIsolates` | crates/domain/src/acp.rs:199-280 | a call leaves other sessions alone and logs only grow at the end |
| `AcpBus.OtherSessionsUntouched` | crates/domain/src/acp.rs:244-254 | a run that never names a session leaves it unchanged |
| `AcpBus.SteersConserved` | crates/domain/src/acp.rs:244-259 | polled steers followed by waiting ones are the accepted ones, in order |
| `AcpBus.ApplySteerAllOrNothing` | crates/domain/src/acp.rs:261-280 | all skip events and the steering event on consecutive numbers, or no change |
| `AcpBus.AcpServer.Create` | crates/domain/src/acp.rs:143-167 | creating an existing session changes nothing |
| `AcpBus.AcpServer.ChangeBudget` | crates/domain/src/acp.rs:169-173 | only the budget of the named session changes |
| `AcpBus.AcpServer.EmitEvent` | crates/domain/src/acp.rs:199-209 | the trust gate, then the next number |
| `AcpBus.AcpServer.DelegateTool` | crates/domain/src/acp.rs:213-218 | refused without opt-in, then an ordinary emit |
| `AcpBus.AcpServer.RaiseInterrupt` | crates/domain/src/acp.rs:235-238 | only the fence of the named session is set |
| `AcpBus.AcpServer.SteerSession` | crates/domain/src/acp.rs:247-254 | a full queue refuses visibly |
| `AcpBus.AcpServer.Poll` | crates/domain/src/acp.rs:257-259 | the oldest waiting steer leaves the queue |
| `AcpBus.AcpServer.Absorb` | crates/domain/src/acp.rs:264-280 | the loop of emits amounts to the single specified step |
| `AcpBus.AcpServer.HasGap` | crates/domain/src/acp.rs:227-230 | true iff some event's number is not its position |
| `RankFusion.TallyList` | crates/codegraph/src/search.rs:27-30 | one list adds its contributions to exactly its ids |
| `RankFusion.RrfMerge` | crates/codegraph/src/search.rs:24-35 | each occurring id once, with its summed score, best first |
| `RankFusion.RankWeight` | crates/codegraph/src/search.rs:24-30 | the first of a list gets one over sixty-one, the next one over sixty-two, and so on |
| `RankFusion.ScoreOrderFree` | crates/codegraph/src/search.rs:26-31 | scores do not depend on the order of the lists |
| `RankFusion.AheadRanksHigher` | crates/codegraph/src/search.rs:20-35 | an id ahead of another in every list where the other occurs ranks strictly above it |

## Left out

- Floating point: scores and similarities are exact reals; f64 rounding is not modelled.
- JsonPrinter.RenderedParses: `OutcomeValue::Float` is not a value of the model, since its text is chosen by the library's formatter.
- JsonPrinter.RoundTrip: the printer's round trip leaves out `OutcomeValue::Float`, as above.
- JsonPrinter.PrinterInjective: leaves out `OutcomeValue::Float`; the code prints every non-finite float as `null`.
- Integer widths: symbol ids, event numbers, the skills version and `OutcomeValue::Integer` are unbounded; only the Base32 buffer is 32 bits wide, with its lost bits modelled.
- File system: paths are canonical, so `canonicalize` is the identity and the copy guard always exists; permissions, metadata and writes through symlinks are not modelled.
- Backup: a target without a file name is not modelled.
- Stage: a staging directory equal to or above the state root is excluded by precondition, since the first removal would delete the source.
- CopyTree: a copy that would read what it wrote is excluded by precondition (`ApartIff` says exactly when that is, for a guard at the destination).
- Restore: a destination equal to the backup, or one where an entry of the backup would land on the backup, is excluded by precondition: the copy would then read what it wrote, and the outcome depends on the order in which the directory is read.
- CreateDirAll: a symlink to a directory at the path counts as a failure, because link targets are not modelled.
- Create: a staging directory equal to or above the state root is excluded by precondition, as for `Stage`.
- HMAC-SHA1, bcrypt and random bytes: parameters of the model.
- Login: session tokens and their expiry are not modelled; only the verdict and what happens to the user's record are.
- Operating-system calls of activation: only the contract that a call takes effect or fails unchanged; per-platform code is not part of this model.
- Agent registry file: the text format is not modelled, the file is the list of definitions it holds.
- Hot reload: the status record is a plain copy of the plan and is left out.
- ACP: capabilities, projections and the interrupt and log readers are one-line lookups and are left out.
- Search: `fuse` only filters the merged list by known ids.
- Everything else in the repository (command handlers, user interface, storage and network clients, static tables).
