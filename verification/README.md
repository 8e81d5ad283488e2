# Verified models of the boat's update client, sleep protocol and disk layout

Dafny 4.11 models of the parts of this repository that keep an unattended boat computer updatable and
reachable, with proofs about whole runs. `dafny verify dfyconfig.toml` checks them all.

**The update client** (`boat-update.py`) is a state machine with durable state: `state.json`, the
`downloads/` directory and `failed-versions`, fed by a channel host that is not trusted, on a board that
can lose power at any moment. `UpdateMachine.dfy` gives every write it makes as a step between states of
the disk and proves what holds over every run of such steps. `UpdateClient.dfy` is the client itself, a
class with the files, the saved state and the state dict of the running verb; its methods follow the
verbs' code, and each write they make is recorded and proved to be a step, so the theorems hold wherever
a run is cut. `Fetch.dfy` is one download window: what curl can return and how it is read. `Channel.dfy`
is the signed index: `validate_index`'s bundle name, numbers and version, `decide`, and what is kept of an
accepted index. `Voyages.dfy` strings verbs and power cuts together, `ScatteredCuts.dfy` is about cuts that
keep later writes and lose earlier ones. `Versions.dfy` is the version order.

**Boot state.** `Trial.dfy` is the bookkeeping of trials over runs of installs, boots, commits, panics and
rollbacks; GRUB, boat-commit and RAUC are an environment that does no more than docs/07-updates.md:40-72
and the scenarios of scripts/test-grub-ab.py:275-330 say of the variables they write. `Durability.dfy` is a
directory whose changes reach the disk only when synced, `DurableWrites.dfy` the client's durable writes on
it, `TrialRecord.dfy` when exactly a power cut can lose the record of an ended trial, and `DirectoryOps.dfy`
those writes as code.

**The sleep protocol** (`boat-sleepd.py` and the TypeScript client): `SleepWire.dfy` is the packet,
`Replay.dfy` the pruned nonce cache against the memory of every nonce, `SleepProtocol.dfy` the checks and
what holds over traces of packets, `RoundedClock.dfy` the clock in doubles, `TsListener.dfy` the
TypeScript receiver and its agreement with the Python one.

**The partition layout** (`boat-ab-layout.py`): `Layout.dfy`.

SHA-256, HMAC and the index hash are functions the model takes as parameters and assumes nothing about; two
indexes that share a hash are counted as clashes where they matter. What comes from outside - curl's exit
status, HTTP status and body blocks, free space, the link, the gates, RAUC's verdicts, grubenv, the clock - is
a parameter of each verb, arbitrary unless the lemma says otherwise. In `UpdateMachine` and `UpdateClient` a
write (each block of a body, each save, each unlink and rename) either happened before a power cut or did not;
what a power cut does inside one is the subject of `Durability`.

Where the code and the words about it part, the model follows the code:

- A sleep packet is "usable once" only if its timestamp is strictly behind the clock
  (`SleepProtocol.UsableOnceIff`); otherwise the same bytes can be accepted up to three times.
- A bundle that was given up comes back without a new record if an index of a higher serial shares the
  stored hash (`UpdateMachine.RecordOutlivesOfferOnlyByClash`); any new index, also one of another channel,
  clears the record.
- `append_durably` syncs the directory only when it created the file, and `trial_outcome` does not append a
  version that is listed already. A run that is ended inside the append - killed, not cut off from power - leaves
  the next one a failed-versions that is made but still empty (with a history there already), a line that is
  there to see but not synced, or a directory entry that is not; the next run then drops the install, and one
  power cut after that loses both records. Nothing is lost if and only if `TrialRecord.RecordHolds` of the state `trial_outcome` is called in
  (`TrialRecord.NothingIsLostIff`; which ended runs fail it: `TrialRecord.EndedInsideMark`; one such state, written
  out: `DurableWrites.LostWhenTheEntryIsNotDurable`). What a power cut leaves always passes
  (`TrialRecord.RerunCompletes`).
- An ended trial is recorded by the first look from the other slot, but `do_rollback` clears the slot's attempts
  without `trial_outcome` having looked; the version is then not recorded (`Trial.RollbackErasesTheSign`), and
  what else takes the sign away is stated exactly (`Trial.SignStaysIff`).
- `gpt_numbers` compares a number only with the names' latest numbers, so a repeated name hides a collision;
  `Layout.NumberingAcceptsIff` says for every template which ones pass, `Layout.RepeatedNameHidesACollision` is one.
- The TypeScript cache forgets live nonces wherever its room runs out (`TsListener.EvictionReopensReplay`,
  `TsListener.EvictionReopensPacket`), and its clock check can differ from boat-sleepd's once now + window
  reaches 2^53: it is exact if and only if it is at the window's edges (`RoundedClock.RoundedClockCheckExactIff`,
  `TsListener.ScreensAgreeIff`), which below 2^53 it is. Its cache can forget a live nonce once now exceeds 2^53,
  if and only if now - window is then rounded up (`RoundedClock.RoundedCutoffExactIff`,
  `TsListener.ReplaysAgreeIff`), also where the clock check is exact (`RoundedClock.RoundedCutoffBeyond`).
- `grubenv_set` makes an earlier, interrupted one final on ext4 but not on vfat, where an fsync is one file's
  (`DurableWrites.EndedRunComesBackOnVfat`).

## Model

| member | source | states |
|---|---|---|
| `UpdateMachine.IntegrityThroughout` | layers/meta-boat/external/rauc/recipes-boat/boat-update/files/boat-update.py:1008-1027 | At every write of every run from a board that never checked a channel, with power cuts anywhere: a file `ready` names has `ready`'s SHA-256, `ready` and `offer` never disagree on the hash, and a ready file is the offered bundle - also when a name is republished with other bytes |
| `ScatteredCuts.ScatteredCutIff` | layers/meta-boat/external/rauc/recipes-boat/boat-update/files/boat-update.py:1220-1241 | If a cut keeps any of the unsynced renames, not the first ones - state.json as saved at one moment of a run, each bundle as at another or gone - integrity survives if and only if the file under `ready`'s name is gone, or was promoted for `ready`'s hash and is the one that state.json offers, if it offers any |
| `ScatteredCuts.OnlyRepublishingBreaksIt` | layers/meta-boat/external/rauc/recipes-boat/boat-update/files/boat-update.py:1013-1022 | So it does wherever no index that offers another file was accepted between the save and the promotion that survive |
| `ScatteredCuts.RepublishedBytesUnderOldReady` | layers/meta-boat/external/rauc/recipes-boat/boat-update/files/boat-update.py:1013-1022 | And where one was, for the same name: the new bytes stand under the old `ready` |
| `UpdateMachine.SerialsNeverDecrease` | layers/meta-boat/external/rauc/recipes-boat/boat-update/files/boat-update.py:826-838 | Between any two states of a run no channel's persisted serial has decreased, and an equal serial still has the same index hash |
| `UpdateMachine.EqualSerialsEqualHashes` | layers/meta-boat/external/rauc/recipes-boat/boat-update/files/boat-update.py:991-1001 | Of two indexes accepted of one channel the later has the higher serial, or the same serial and the same hash |
| `UpdateMachine.UnchangedIndexIsStillAccepted` | layers/meta-boat/external/rauc/recipes-boat/boat-update/files/boat-update.py:826-838 | Over any run without another index of its channel, whatever is checked on others, an accepted index is accepted again |
| `UpdateMachine.SupersededIsRefused` | layers/meta-boat/external/rauc/recipes-boat/boat-update/files/boat-update.py:826-838 | Once an index is accepted, every index of its channel with a lower serial is refused in every later state of every run, whatever was checked, cut off or forgotten in between |
| `UpdateMachine.BudgetThroughout` | layers/meta-boat/external/rauc/recipes-boat/boat-update/files/boat-update.py:1060-1077 | For every index hash: in every state a bundle that used its refetches is given up, an offered bundle whose hash is on record as given up came by a clash of index hashes, and every restart since the last new index was charged but for the one under way and one for each power cut |
| `UpdateMachine.RestartsAreBounded` | layers/meta-boat/external/rauc/recipes-boat/boat-update/files/boat-update.py:1070-1077 | For every index hash, over every run: since the last new index a bundle was started over at most MAX_REFETCH + 1 times, plus once for each power cut and once for each accepted index that only shares the stored one's hash |
| `UpdateMachine.ClashesWereAccepted` | layers/meta-boat/external/rauc/recipes-boat/boat-update/files/boat-update.py:993-997 | What is counted as a clash is an accepted index with the stored hash under another serial; without one the bound is MAX_REFETCH + 1 and the cuts |
| `UpdateMachine.GivenUpStaysDown` | layers/meta-boat/external/rauc/recipes-boat/boat-update/files/boat-update.py:855-858 | Once given up, whatever happens without an index of another hash, no step fetches the bundle - unless an index was accepted in this run that is not the stored one but has its hash |
| `UpdateMachine.RecordOutlivesOfferOnlyByClash` | layers/meta-boat/external/rauc/recipes-boat/boat-update/files/boat-update.py:993-997 | An index that offers a given-up bundle leaves its record standing exactly if it has the stored hash, and then its serial is higher than the stored one: a hash clash |
| `UpdateMachine.ClashBringsItBack` | layers/meta-boat/external/rauc/recipes-boat/boat-update/files/boat-update.py:855-858 | With such a clash the given-up bundle is offered again although its record was never cleared |
| `UpdateMachine.FailedIsNeverOffered` | layers/meta-boat/external/rauc/recipes-boat/boat-update/files/boat-update.py:851-852 | Once a version is in failed-versions, accepting any later index that names it leaves neither an offer nor a ready bundle |
| `UpdateMachine.FailedIsNeverPicked` | layers/meta-boat/external/rauc/recipes-boat/boat-update/files/boat-update.py:1338-1368 | Over the whole run: a version in failed-versions at any time is chosen at no later time by an install without a name or a stream - whose choices the client's methods record as steps, each proved not to be of a version then failed |
| `UpdateClient.UpdateClient.CurlCapped` | layers/meta-boat/external/rauc/recipes-boat/boat-update/files/boat-update.py:681-707 | For every split of the body into blocks exactly its first `limit` bytes are appended, more than that is reported if and only if there was more, and every state on the way holds a prefix of the result |
| `UpdateClient.UpdateClient.FetchWindow` | layers/meta-boat/external/rauc/recipes-boat/boat-update/files/boat-update.py:1159-1219 | Against any server: the state left by each way a window can end, and no state on the way has a .part larger than the signed size |
| `UpdateClient.OnlyAnswersAreKept` | layers/meta-boat/external/rauc/recipes-boat/boat-update/files/boat-update.py:1170-1207 | What a window leaves of the .part is what was there, nothing (and that is charged), or that and the body of an answer that was no redirect, refusal, excess, or whole file where the rest was asked for - as far as curl's exit status says so: 33, or 0 with status 200; another exit with status 200 is taken for an interrupted answer |
| `UpdateClient.WithoutRangesOneRestart` | layers/meta-boat/external/rauc/recipes-boat/boat-update/files/boat-update.py:1196-1207 | A server that ignores ranges costs one restart, charged once, after which a window without a time limit brings the whole file |
| `UpdateClient.FetchedDrops` | layers/meta-boat/external/rauc/recipes-boat/boat-update/files/boat-update.py:1150-1219 | Whatever the server sent, a window after which the loop goes on uses up some of the loop's measure (restarts left, bytes missing, stalls) |
| `UpdateClient.FetchedFaithfully` | layers/meta-boat/external/rauc/recipes-boat/boat-update/files/boat-update.py:1159-1219 | Resuming from a prefix of the published file with what an honest server answers gives a longer prefix, and is never read as a refusal, an excess or a lost range |
| `Fetch.HonestIsNeverMisread` | layers/meta-boat/external/rauc/recipes-boat/boat-update/files/boat-update.py:1170-1207 | No answer RFC 9110 allows an honest server to a range request is taken for anything but the bundle's next bytes |
| `Fetch.CopiedStep` | layers/meta-boat/external/rauc/recipes-boat/boat-update/files/boat-update.py:694-701 | One block more keeps what was written equal to the first bytes of the body, cut exactly at the limit |
| `UpdateClient.UpdateClient.StartOver` | layers/meta-boat/external/rauc/recipes-boat/boat-update/files/boat-update.py:1070-1077 | A restart throws the .part away and then, in the next save, is charged, or gives the bundle up when it is the one too many; a power cut between the two leaves a restart that is not charged, which is what the cuts in the bound stand for |
| `UpdateClient.UpdateClient.FinishDownload` | layers/meta-boat/external/rauc/recipes-boat/boat-update/files/boat-update.py:1231-1241 | Ready is recorded for a bundle RAUC takes; one it does not take is deleted and given up |
| `UpdateClient.UpdateClient.CheckAndFinish` | layers/meta-boat/external/rauc/recipes-boat/boat-update/files/boat-update.py:1220-1227 | A complete .part becomes the bundle only with the signed SHA-256; with another hash it is started over |
| `UpdateClient.UpdateClient.OneWindow` | layers/meta-boat/external/rauc/recipes-boat/boat-update/files/boat-update.py:1133-1227 | An iteration either ends the download, only with True if the bundle is there and recorded, or uses up some of the measure; it stops without a fetch if /data has no room, and with no other writer every state in which the .part has grown leaves FREE_FLOOR bytes free |
| `UpdateClient.UpdateClient.DownloadWindows` | layers/meta-boat/external/rauc/recipes-boat/boat-update/files/boat-update.py:1129-1228 | The loop without a limit ends against every server, within (MAX_REFETCH + 1) * (2 * size + 2) windows, and every window but the last was over a link the gates and the policy allow |
| `UpdateClient.UpdateClient.DownloadOffer` | layers/meta-boat/external/rauc/recipes-boat/boat-update/files/boat-update.py:1106-1228 | True only with a file of the signed offer's SHA-256 in place and recorded; the bound on windows; with an honest server a prefix of the published file, no byte of it lost and no restart charged in every state, and arrival if nothing gets in the way |
| `UpdateClient.UpdateClient.DiscardDownloads` | layers/meta-boat/external/rauc/recipes-boat/boat-update/files/boat-update.py:1043-1049 | In whatever order the directory lists, exactly the kept bundle and its .part stay, unchanged, at every unlink on the way a part of what was there |
| `UpdateClient.UpdateClient.AcceptIndex` | layers/meta-boat/external/rauc/recipes-boat/boat-update/files/boat-update.py:991-1027 | The state dict changed field by field, the files before it is saved: the result is the accepted state, and only the offered bundle's own files stay |
| `UpdateClient.UpdateClient.CheckChannel` | layers/meta-boat/external/rauc/recipes-boat/boat-update/files/boat-update.py:964-1030 | Refused exactly when the decision says so, and then nothing that is modelled changes; an accepted index is saved as decided, its old files kept only if they are the offered bundle's, and an offer is newer than the running release and not failed |
| `UpdateClient.UpdateClient.TrialOutcome` | layers/meta-boat/external/rauc/recipes-boat/boat-update/files/boat-update.py:1273-1299 | The install is forgotten when its trial passed or ended; a version is recorded as failed at most once, before that |
| `UpdateClient.UpdateClient.Housekeeping` | layers/meta-boat/external/rauc/recipes-boat/boat-update/files/boat-update.py:1302-1335 | Every offer and ready bundle left is strictly newer than the running release and not failed; what is not goes with its file, and nothing else changes |
| `UpdateClient.RunningIsNotWanted` | layers/meta-boat/external/rauc/recipes-boat/boat-update/files/boat-update.py:1302-1308 | The running release is never one still to install, so housekeeping's test for a committed one decides nothing more |
| `UpdateClient.UpdateClient.ReadyToInstall` | layers/meta-boat/external/rauc/recipes-boat/boat-update/files/boat-update.py:1338-1353 | A bundle is returned if and only if an offer and a ready file are there - the checks after those never refuse - and it has the signed offer's SHA-256, is newer and has not failed |
| `UpdateClient.UpdateClient.OfferToStream` | layers/meta-boat/external/rauc/recipes-boat/boat-update/files/boat-update.py:1356-1368 | The offer exactly if it is from the channel and URL followed now; newer and not failed |
| `UpdateClient.UpdateClient.ResolveBundle` | layers/meta-boat/external/rauc/recipes-boat/boat-update/files/boat-update.py:1379-1395 | What is chosen without a name is the signed offer's file, newer and not failed |
| `UpdateClient.UpdateClient.Install` | layers/meta-boat/external/rauc/recipes-boat/boat-update/files/boat-update.py:1484-1498 | An earlier install is forgotten on disk before the slot is written, and the new one remembered exactly when the write succeeded, the state before it having none; a bundle chosen without a name is the signed offer's, newer and not failed |
| `UpdateClient.UpdateClient.StreamInstall` | layers/meta-boat/external/rauc/recipes-boat/boat-update/files/boat-update.py:1398-1491 | Streamed exactly the offer of the channel and URL followed now, newer and not failed; an earlier install is forgotten on disk before RAUC starts, and the new one remembered exactly if the slot then holds that release, the state before it having none; a slot that holds another is given exactly the variables that mark it bad |
| `UpdateClient.UpdateClient.PowerCut` | layers/meta-boat/external/rauc/recipes-boat/boat-update/files/boat-update.py:168-175 | A run cut after any of its writes leaves the disk as that write left it and nothing in memory, and the history stays a legal run |
| `Voyages.Voyage` | layers/meta-boat/external/rauc/recipes-boat/boat-update/files/boat-update.py:2103-2178 | Over any sequence of checks, downloads, housekeeping, looks, installs with or without a name, streams, boat-commit's failures and power cuts, in any world: at every write integrity and the bound on restarts; no serial steps back between any two states; and a version that has failed is never again offered by a check nor chosen by an install or stream |
| `Voyages.HonestVoyage` | layers/meta-boat/external/rauc/recipes-boat/boat-update/files/boat-update.py:1132-1228 | Downloads from an honest channel cut off at any block or write, and between them checks that find the same index, a refused one or none, housekeeping, trials that end: a prefix of the published file in every state, never shorter than at the start until the bundle is there, and nothing charged |
| `Voyages.RenewedVoyage` | layers/meta-boat/external/rauc/recipes-boat/boat-update/files/boat-update.py:1013-1027 | After such a voyage a check that offers the same bundle under a newer index keeps every byte of the partial download, and the next honest voyage starts from there |
| `Voyages.ResumedDownload` | layers/meta-boat/external/rauc/recipes-boat/boat-update/files/boat-update.py:1106-1228 | After any such runs and interruptions, one run nothing gets in the way of ends with exactly the published file, recorded ready, with no restart charged |
| `Channel.OffersOnlyClimb` | layers/meta-boat/external/rauc/recipes-boat/boat-update/files/boat-update.py:844-852 | Over any run of offers and installs, whatever the channels serve, whatever is reset: each release the board runs is strictly newer than every one it ran before, so none comes back |
| `Channel.AcceptingNeverStepsBack` | layers/meta-boat/external/rauc/recipes-boat/boat-update/files/boat-update.py:829-838 | Accepting an index never lowers a serial and never changes the hash kept for an equal one |
| `Channel.UnchangedChannelIsAccepted` | layers/meta-boat/external/rauc/recipes-boat/boat-update/files/boat-update.py:829-838 | Coming back to a channel whose index has not changed is never refused as a replay |
| `Trial.SoundThroughout` | layers/meta-boat/external/rauc/recipes-boat/boat-update/files/boat-update.py:1273-1299 | In every run of installs, boots, commits, panics and rollbacks what boat-update remembers is its slot's last finished write, and any sign against it in grubenv was put there since |
| `Trial.TrialsAreRecordedFairly` | layers/meta-boat/external/rauc/recipes-boat/boat-update/files/boat-update.py:1285-1296 | A version is recorded only if its slot is not committed, was tried or marked bad since it was written, and still holds it with no later install begun |
| `Trial.FailedOnlyGrows` | layers/meta-boat/external/rauc/recipes-boat/boat-update/files/boat-update.py:433-438 | A recorded version stays recorded in every later state |
| `Trial.EndedTrialIsRecorded` | layers/meta-boat/external/rauc/recipes-boat/boat-update/files/boat-update.py:1285-1296 | Over any run of boots, panics, resets, looks, commits of the other slot: once grubenv bears the sign of an ended trial, the first look from the other slot that can read it records the version, unless a new install began, the slot was committed after all, or a rollback was made onto it |
| `Trial.SignStaysIff` | layers/meta-boat/external/rauc/recipes-boat/boat-update/files/boat-update.py:1285-1296 | The step-wise form, exactly: the sign and the memory of the install outlive an event if and only if it is none of those three and no such look; and such a look records the version |
| `Trial.RollbackErasesTheSign` | layers/meta-boat/external/rauc/recipes-boat/boat-update/files/boat-update.py:1850-1864 | A rollback onto the tried slot before anyone looked clears its attempts, and the next look finds nothing to record |
| `Durability.SafeMeansSafe` | layers/meta-boat/external/rauc/recipes-boat/boat-update/files/boat-update.py:168-193 | Whatever subset of the pending directory changes survives, a name safe in the model holds one of the allowed contents |
| `Durability.SafeIff` | layers/meta-boat/external/rauc/recipes-boat/boat-update/files/boat-update.py:168-193 | And the other way: if every name in question has its file, a name is safe if and only if every power cut leaves it with an allowed content |
| `DurableWrites.GrubenvSurvives` | layers/meta-boat/external/rauc/recipes-boat/boat-update/files/boat-update.py:309-342 | At every state of grubenv_set, for every surviving subset of unsynced operations: grubenv wholly new or one of the contents it could have had, grubenv.bak likewise, and new only where grubenv is - on ext4 also if an earlier run was ended between its rename and its fsync, on vfat if no earlier change of the two names is unwritten |
| `DurableWrites.EndedRunComesBackOnVfat` | layers/meta-boat/external/rauc/recipes-boat/boat-update/files/boat-update.py:325-342 | On vfat that is needed: the change an ended run left unwritten is still unwritten after a whole grubenv_set, and a power cut then brings that run's content back |
| `DurableWrites.FailedEditChangesNothing` | layers/meta-boat/external/rauc/recipes-boat/boat-update/files/boat-update.py:325-342 | If grub-editenv fails, neither file can come out as anything it could not before, whatever a power cut adds |
| `DurableWrites.AppendLands` | layers/meta-boat/external/rauc/recipes-boat/boat-update/files/boat-update.py:178-193 | append_durably ends with the line on disk for good; in between the file has its old lines or the new one too |
| `DurableWrites.WriteAtomicLands` | layers/meta-boat/external/rauc/recipes-boat/boat-update/files/boat-update.py:168-175 | write_atomic leaves the old or the new content at every state, never a mixture |
| `TrialRecord.NothingIsLostIff` | layers/meta-boat/external/rauc/recipes-boat/boat-update/files/boat-update.py:1273-1299 | No power cut at any state of trial_outcome, whatever subset of unsynced changes survives, leaves a directory that neither carries the install nor lists the version, if and only if when it starts: the version is listed, with its line and failed-versions' entry on disk; or it is not listed, and failed-versions is absent, or its entry is on disk, or history is absent, whose creation syncs the directory in time |
| `TrialRecord.EndedInsideMark` | layers/meta-boat/external/rauc/recipes-boat/boat-update/files/boat-update.py:178-193 | After which of mark_failed's steps a run that ends leaves the next one such a start: on a file that was there only after its fsync, with its entry on disk; on a new one only after the directory's, or right after the open if history is absent |
| `TrialRecord.RerunCompletes` | layers/meta-boat/external/rauc/recipes-boat/boat-update/files/boat-update.py:1273-1299 | Whatever a power cut leaves of any state, if it still carries the install: a rerun loses nothing whatever cuts it, and ends with the version recorded once, for good, and the install gone |
| `TrialRecord.RecordedAtMostOnce` | layers/meta-boat/external/rauc/recipes-boat/boat-update/files/boat-update.py:1285-1290 | Whatever a power cut leaves of any state, failed-versions has the lines it had, with the version added once if it was not among them: no line recorded before is lost, unless already at the start the entry of failed-versions, or lines at its end, of whatever versions, were not on disk - then those are what can be missing, and nothing else |
| `DurableWrites.LostWhenTheEntryIsNotDurable` | layers/meta-boat/external/rauc/recipes-boat/boat-update/files/boat-update.py:178-193 | A line that is visible but whose directory entry is not on disk is not appended again, and one power cut then loses both records |
| `DirectoryOps.Directory.GrubenvSet` | layers/meta-boat/external/rauc/recipes-boat/boat-update/files/boat-update.py:325-342 | The code of the write: it goes through the specified states, and whatever a power cut leaves of any of them has grubenv wholly new or one of the contents it could have had, grubenv.bak likewise, and new only where grubenv is; after a failed edit neither is new |
| `DirectoryOps.TrialOutcome` | layers/meta-boat/external/rauc/recipes-boat/boat-update/files/boat-update.py:1273-1299 | The code of the look: it goes through the specified states, the record before state.json; and every state it passes through keeps the trial known after every power cut if and only if the record holds when it is called |
| `Versions.MatchInvertsPrint` | layers/meta-boat/external/rauc/recipes-boat/boat-update/files/boat-update.py:217-222 | The pattern's leftmost, greedy match takes a written version apart into exactly the parts it was written from |
| `Versions.MatchAcceptsOnlyPrinted` | layers/meta-boat/external/rauc/recipes-boat/boat-update/files/boat-update.py:217-222 | Whatever the pattern accepts is a written version of the parts it returns |
| `Versions.ParsePrinted` | layers/meta-boat/external/rauc/recipes-boat/boat-update/files/boat-update.py:220-225 | Parsing a printed core, pre-release and build gives back the core, missing parts as 0, and the pre-release |
| `Versions.NewerIsStrictWeakOrder` | layers/meta-boat/external/rauc/recipes-boat/boat-update/files/boat-update.py:228-242 | On accepted versions newer is irreflexive, asymmetric and transitive, and ties are exactly equal core and pre-release keys |
| `Versions.BuildIsIgnored` | layers/meta-boat/external/rauc/recipes-boat/boat-update/files/boat-update.py:217-242 | Changing the build part changes no comparison |
| `Versions.AgreesWithSemver` | layers/meta-boat/external/rauc/recipes-boat/boat-update/files/boat-update.py:228-242 | newer is the precedence of section 11 of Semantic Versioning 2.0.0 extended to missing parts, stated as the first difference |
| `SleepWire.EncodeDecode` | layers/meta-boat/recipes-boat/power/files/boat-sleepd.py:121-128 | Big-endian encoding is undone by decoding for every value that fits |
| `SleepWire.DecodeEncode` | layers/meta-boat/recipes-boat/power/files/boat-sleepd.py:170-171 | Decoding is undone by encoding for every byte string |
| `SleepWire.UnpackBuilt` | layers/meta-boat/recipes-boat/power/files/boat-sleepd.py:121-171 | Unpacking a built packet gives back every field and the signed header |
| `SleepWire.PackUnpacked` | layers/meta-boat/recipes-boat/power/files/boat-sleepd.py:169-171 | A header of this protocol is the one packed from the fields unpacked from it |
| `SleepWire.BuildSleepPacket` | clients/typescript/src/boat-power.ts:137-151 | The Buffer filled in place holds the bytes boat-sleepd builds for the same key, timestamp and nonce, and fails exactly where struct.pack does |
| `SleepWire.WriteBigUInt64BE` | clients/typescript/src/boat-power.ts:143-146 | Eight bytes big-endian at the offset, the rest of the buffer untouched |
| `Replay.StepTracks` | layers/meta-boat/recipes-boat/power/files/boat-sleepd.py:144-152 | One call answers as the unpruned history does and keeps the cache in step with it |
| `Replay.PruningRefinesHistory` | layers/meta-boat/recipes-boat/power/files/boat-sleepd.py:144-152 | With a non-decreasing clock the pruned cache answers every run of calls as the memory of every admission does |
| `Replay.CacheIsTheLastWindow` | layers/meta-boat/recipes-boat/power/files/boat-sleepd.py:131-142 | The cache holds exactly the nonces admitted in the last window, so never more entries than that |
| `Replay.ReplayCache.CheckAndAdd` | layers/meta-boat/recipes-boat/power/files/boat-sleepd.py:144-152 | False exactly if the nonce was admitted at some t > now - window in the whole history |
| `SleepProtocol.VerifyPacket` | layers/meta-boat/recipes-boat/power/files/boat-sleepd.py:155-193 | The checks in their order, and the cache touched only by what passes the clock check |
| `SleepProtocol.Receive` | layers/meta-boat/recipes-boat/power/files/boat-sleepd.py:247-272 | The receive loop's verdicts are those of the trace |
| `SleepProtocol.RefusedPacketsDoNotInterfere` | layers/meta-boat/recipes-boat/power/files/boat-sleepd.py:144-193 | With a non-decreasing clock, deleting any packets refused for a reason other than the opcode changes no other verdict |
| `SleepProtocol.ScreenedPacketsDoNotInterfere` | layers/meta-boat/recipes-boat/power/files/boat-sleepd.py:155-186 | For packets that fail before the nonce step that holds for any clock |
| `SleepProtocol.RefusedReplayInterferesWhenClockGoesBack` | layers/meta-boat/recipes-boat/power/files/boat-sleepd.py:144-152 | With a clock that runs backwards a refused replay can bring an accepted packet back |
| `SleepProtocol.AcceptancesAreSpaced` | layers/meta-boat/recipes-boat/power/files/boat-sleepd.py:144-152 | Two acceptances of one nonce are at least the window apart |
| `SleepProtocol.AtMostThreeAcceptances` | layers/meta-boat/recipes-boat/power/files/boat-sleepd.py:181-188 | One packet is accepted at most three times, at most twice unless first exactly the window early, once if its timestamp was behind the clock |
| `SleepProtocol.UsableOnceIff` | layers/meta-boat/recipes-boat/power/files/boat-sleepd.py:131-137 | An accepted packet can never be accepted again if and only if its timestamp is strictly behind the clock - not always, as the comment has it |
| `SleepProtocol.ThreeAcceptancesHappen` | layers/meta-boat/recipes-boat/power/files/boat-sleepd.py:144-188 | Every well-formed packet is accepted three times if it arrives exactly the window early, on time and the window late |
| `RoundedClock.RoundedClockCheckExactIff` | clients/typescript/src/listener.ts:159-169 | For every window, and every clock Number can hold: reading the timestamps through Number changes no answer of the clock check if and only if it changes none at the window's edges, the last timestamps inside it and the first outside |
| `RoundedClock.RoundedClockCheckAlwaysExactIff` | clients/typescript/src/listener.ts:159-169 | The same for timestamps without a bound |
| `RoundedClock.RoundedClockCheckAgrees` | clients/typescript/src/listener.ts:159-169 | While now + window stays below 2^53 the edges are exact, and so is every timestamp |
| `RoundedClock.RoundedClockCheckDiffersAt` | clients/typescript/src/listener.ts:159-169 | At now + window == 2^53 they are not, for every split: the first timestamp outside the window rounds into it |
| `RoundedClock.RoundedClockCheckBeyond` | clients/typescript/src/listener.ts:159-169 | Beyond 2^53 either can be: with the clock at 2^53 a window of one second is exact for every timestamp, one of three is not |
| `RoundedClock.RoundedCutoffExactIff` | clients/typescript/src/listener.ts:91-94 | The cache's cutoff, now - window in doubles, lets the same entries expire as the exact one, whenever they were seen, if and only if it is negative or not rounded up |
| `RoundedClock.RoundedCutoffAgrees` | clients/typescript/src/listener.ts:91-94 | Up to 2^53 it is never rounded up, for any window |
| `RoundedClock.RoundedCutoffBeyond` | clients/typescript/src/listener.ts:91-94 | With the clock at 2^53 + 4 and a window of one second the clock check is exact and the cutoff is not: it is now |
| `TsListener.ScreensAgreeIff` | clients/typescript/src/listener.ts:121-169 | At a clock Number can hold, no packet whatever is screened differently by the two receivers if and only if the edges of the window are exact |
| `TsListener.SafeBelow` | clients/typescript/src/listener.ts:91-169 | Below 2^53, for now + window, both computations with the clock are exact |
| `TsListener.OneCallAgreesIff` | clients/typescript/src/listener.ts:90-106 | The Map and the dict answer alike about a nonce seen once, whenever that was, if and only if the cutoff is exact now |
| `TsListener.ReplaysAgreeIff` | clients/typescript/src/listener.ts:121-187 | So on the wire: no packet received twice, the second time now, and screened alike, gets different verdicts if and only if the cutoff is exact now; else one that is on time is accepted again |
| `TsListener.KeysAreInjective` | clients/typescript/src/listener.ts:95 | Nonces with the same Map key are the same nonce |
| `TsListener.MapStaysBounded` | clients/typescript/src/listener.ts:90-106 | After every trace of packets, for any clock, the Map holds at most maxEntries entries and no key twice |
| `TsListener.MapStaysInOrder` | clients/typescript/src/listener.ts:90-106 | After every trace with a clock that does not run backwards the Map is in the order its entries were admitted in |
| `TsListener.EvictionTakesTheOldest` | clients/typescript/src/listener.ts:98-103 | Whatever is evicted was admitted no later than anything that stays |
| `TsListener.TsReplayCache.CheckAndAdd` | clients/typescript/src/listener.ts:90-106 | Pruned in the loop at the cutoff in doubles, evicted in the loop and set at the end: the answer and the Map of the specification |
| `TsListener.VerifyPacket` | clients/typescript/src/listener.ts:121-187 | The checks in their order, on the rounded timestamp and with the rounded cutoff |
| `TsListener.OneCallAgrees` | clients/typescript/src/listener.ts:90-106 | At a clock whose cutoff is not rounded up, with room for one more live nonce or a nonce that is live already, the Map and boat-sleepd's dict give the same answer and stay the same cache |
| `TsListener.ReceiversAgree` | clients/typescript/src/listener.ts:121-187 | The two receivers give the same verdict on every packet of every trace, however the clock runs, while every new nonce finds room below maxEntries, the clock check is exact at the window's edges and the cutoff is not rounded up - which is so whenever now + window stays below 2^53 |
| `TsListener.EvictionReopensReplay` | clients/typescript/src/listener.ts:98-103 | Wherever the room runs out, at a clock whose cutoff is not rounded up, they part: for every pair of equal caches with maxEntries live nonces or more, a new nonce makes the Map forget its oldest live one, which it then accepts again and the dict refuses; the caches differ from then on |
| `TsListener.EvictionReopensPacket` | clients/typescript/src/listener.ts:121-187 | So on the wire: a packet accepted before is accepted again by the one receiver and refused by the other, after any packet with a new nonce for which there was no room |
| `Layout.GptNumbers` | layers/meta-boat/recipes-bsp/tegra-binaries/files/boat-ab-layout.py:100-116 | The loop computes the fold, or stops where it does |
| `Layout.NumberingAcceptsIff` | layers/meta-boat/recipes-bsp/tegra-binaries/files/boat-ab-layout.py:100-116 | For every template the numbering is accepted if and only if every two positions that share a number have between them one that repeats the first one's name |
| `Layout.NumberingIsPositional` | layers/meta-boat/recipes-bsp/tegra-binaries/files/boat-ab-layout.py:100-116 | With distinct names the numbering is accepted if and only if no two positions share a number, and then its map is the numbers by position |
| `Layout.RepeatedNameHidesACollision` | layers/meta-boat/recipes-bsp/tegra-binaries/files/boat-ab-layout.py:100-116 | Without distinct names a collision can pass |
| `Layout.LayoutKeepsAddresses` | layers/meta-boat/recipes-bsp/tegra-binaries/files/boat-ab-layout.py:153-186 | For an accepted template with distinct names every partition keeps its number, all numbers differ, every pinned name has its number, and DATA alone has allocation bit 0x800 |
| `Layout.Device.RemoveFilename` | layers/meta-boat/recipes-bsp/tegra-binaries/files/boat-ab-layout.py:161-163 | The last partition of that name loses its filename, everything else stays |
| `Layout.Device.InsertBeforeLast` | layers/meta-boat/recipes-bsp/tegra-binaries/files/boat-ab-layout.py:172-180 | SWAP and DATA go in front of the last partition, every other child keeps its place in the order |
| `Layout.Generate` | layers/meta-boat/recipes-bsp/tegra-binaries/files/boat-ab-layout.py:133-189 | The tree changed in place holds the specified partitions, and the run stops exactly where the specification does |

## Left out

- Versions: digits other than ASCII, which Python's `\d` and `isdigit` also take, are not modelled.
- Channel.ValidIndex: models the bundle name, size, serial and version; the field types, the shape of the hash and the control characters are not modelled, nor the texts kept only to be shown.
- UpdateClient.UpdateClient.CheckChannel: the gates, the clock, the client key and the index's signature come before any write and are one parameter, the channel's answer.
- UpdateClient.UpdateClient.DownloadOffer: `still_allowed`, `gates` and `link` are read by their results; rate limits and time limits are curl's.
- UpdateClient.UpdateClient.Install: the outer run that hands the chosen path to the inner one is left out; what is proved holds where the bundle is chosen.
- UpdateMachine.RestartsAreBounded: counts since the last accepted index with another hash, of this channel or another; a restart whose charge a power cut prevented is one of the cuts.
- Trial.EndedTrialIsRecorded: the look that records can read grubenv; one that cannot decides nothing and changes nothing.
- SleepProtocol.VerifyPacket: takes a cache made with the same window it is given, as `main` makes it.
- RoundedClock.RoundedClockCheckExactIff: the clock and the window are whole numbers of seconds that Number holds, the clock not negative, as `Math.floor` gives it.
- UpdateMachine.IntegrityThroughout: a power cut undoes the last writes, in order; of cuts that keep any of the unsynced renames `ScatteredCuts` says what they do to a ready bundle, not what a client then does.
- TrialRecord.NothingIsLostIff: starts where state.json carries the install whatever a power cut does and every name has a file of its own; a one-line append is atomic, a power cut takes a file back to before one of the appends since its last fsync, and rename replaces a synced file whole.
- TrialRecord.RecordedAtMostOnce: starts where failed-versions was only created and appended to, as the client does.
- Voyages.HonestVoyage: installs and streams between two downloads of one offer are not among its verbs (`Voyages.Voyage` has them), and a newer index of the same bundle begins a new one (`Voyages.RenewedVoyage`).
- UpdateClient.UpdateClient.TrialOutcome: failed-versions is a list of version strings compared whole; stripping its lines is not modelled, and last-result and history are in `DirectoryOps` only.
- A state.json that cannot be read (it starts over by design), clocks that run backwards except where a lemma says "any clock", and files an operator edits by hand.
- `last_error`, `last_auto`, `last_check`, notes and messages: fields of state.json that are only shown or only rate-limit.
- `do_auto`'s policy and rate limit, `do_status`, `do_history`, argument parsing, configuration files: user interface and plumbing.
- The stream relay: sockets, threads and /proc.
- Metered-link and VPN detection, TLS and CMS verification, debugfs, journals, systemd: foreign calls, seen by their results.
- Key files, sockets, wake-on-LAN packets and `listen`'s callbacks of the sleep protocol's two sides.
- XML syntax, the helpers' one-token-per-line check and the numbers' parsing in the layout generator.
- GRUB's script, boat-commit and RAUC's handlers: the environment of `Trial`; nothing is proved about their code.
