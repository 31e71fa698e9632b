# IncusOS: a verified model of its hard parts

This project models the parts of IncusOS whose correctness is not visible from any single
function, and proves what they promise, for every input, every run or every reachable state:

- the EFI signature list parser and the Secure Boot certificate updates (one per boot);
- the synthesized TPM event log, its measurement and its replay;
- application versions over A/B boots: refresh, switch, install, reboot;
- the image server's repository and the three independent readers of its index;
- the confirm-or-roll-back protocol for network changes;
- maintenance windows, the seed splice, manifest differences and the install list.

Code that changes things in place is modelled by classes and by methods with loops, each proved
against a specification function; protocols are state machines whose runs are step sequences.
`dafny verify dfyconfig.toml` checks everything.

Where the code does not do what it is meant to do, the model follows the code, and the theorem
says exactly when the promise holds:

- Network changes. The confirmation channel is buffered with room for one message
  (`incus-osd/internal/state/file.go:28`), so a second confirmation of one change can confirm the
  next one, and a failed handler reports to whatever change is pending, so another handler's
  failure can roll a change back (`OwnMessagesExact`, `StaleConfirmation`, `ForeignFailure`). The
  pending flag is reset before the prior configuration is cleared, so a change begun in between is
  not crash safe (`CrashSafety`, `ClosingRace`); and once its prior configuration is gone, rolling
  it back dereferences nil and takes the daemon down (`PendingLeadsOut`, `RollbackPanics`). A
  rollback that begins while a handler is applying, or about to, is refused or overwritten
  (`RollbackExact`, `TimerDuringApply`). Reading the network state clears the flag that should keep
  applies apart (`incus-osd/internal/systemd/networkd.go:328`), so several can run at once; all of
  this is proved with that.
- Maintenance windows. After the end of a window that runs over the end of the week, on its last
  day, the wait is short by the days in between (`TimeUntilActiveReference`), and at one minute of
  that day the window counts as active (`IsActive`).
- A/B boots. The boot before is found by the line it logs when it is ready. An upgrade that fails
  earlier has already moved to the newest application versions, and booting back then keeps them
  instead of those of the older side (`BootBackSelects`, `FailedUpgradeKeepsNewer`).
- Saved records. Neither an update, nor a switch, nor a refresh saves what it records, while a
  refresh deletes images. After a power loss the record can name a version whose image is gone, and
  the application counts as not installed (`InstalledExactly`, `PowerLossUninstalls`).
- Restarts. The release of the boot before is kept in the daemon's memory. A restarted daemon
  compares with it again, and its first refresh undoes a switch that had stuck
  (`SwitchSticksInBoot`, `RestartUndoesSwitch`).
- Application versions. A rollback request after an install and before the next refresh indexes
  the empty list out of range (`SwitchAfterInstallIsOutOfRange`, `SwitchInRange`).
- Publishing. Demoting a channel "x" also drops the changelogs of other channels: those whose name
  starts with "x.yaml", ends in "changelog-x" or holds "changelog-x.yaml" (`NameMatches`,
  `PromoteThenDemote`, `ClashLosesChangelog`).
- Manifests. With a name listed twice the updates of two manifests do not turn around when the
  manifests are swapped (`SwapReverses`); the difference is a patch all the same (`DiffIsPatch`).
- Seed splice. On an image that ends before the seed's offset the two forms differ
  (`StreamedIsWritten`).

Premises, stated where they are used: the pending check and set of a network change is one step,
and so is that of an apply in process;
the pending flag does not survive a reboot; hours and minutes of a window are on the clock and its
days are named; `extend` has no collision and never gives the reset value (only for the converse
of the replay); release versions are twelve digits; "incus" and "incus-lts-7.0" share one record
and are taken to be installed one at a time; a certificate appended successfully has the
fingerprint its file is named after; a failed systemd-sysext refresh leaves the images alone.

## Model

| member | source | states |
|---|---|---|
| `SignatureList.ParseEfiSignatureList` | incus-osd/internal/secureboot/certificates.go:33-121 | the nested loops over a byte reader, with uint32 arithmetic that wraps, compute `Parsed` on every input |
| `SignatureList.EntriesRoundTrip` | incus-osd/internal/secureboot/certificates.go:60-110 | the inner loop, from any offset, reads back exactly the entries that cover the rest of the list and leaves the bytes after them |
| `SignatureList.WellFormedRoundTrip` | incus-osd/internal/secureboot/certificates.go:33-121 | every sequence of well-formed lists parses to exactly its X.509 entries, in order, with owners and data, to the last byte |
| `SignatureList.EntriesCount` | incus-osd/internal/secureboot/certificates.go:60-110 | on success below 2^32 bytes no subtraction or addition has wrapped, and the number of entries is the list's size over the entry size, rounded up |
| `SignatureList.ListsSound` | incus-osd/internal/secureboot/certificates.go:43-118 | whatever parses is a concatenation of valid lists whose X.509 entries are the result |
| `SignatureList.ListLength` | incus-osd/internal/secureboot/certificates.go:43-118 | a list takes its header and as many whole entries as its size field asks for, rounded up |
| `SignatureList.ParserIsExact` | incus-osd/internal/secureboot/certificates.go:33-121 | below 2^32 bytes, the parser returns given certificates if and only if the input encodes valid lists with exactly those (or is too short for a header) |
| `SignatureList.HeaderPasses` | incus-osd/internal/secureboot/certificates.go:18-27 | a header passes if and only if its sizes are at most 1 MiB and its type is, by its name in the UEFI Specification, X.509 or one of eight types of hashes |
| `SignatureList.HeaderBytes` | incus-osd/internal/secureboot/certificates.go:44-55 | where type and sizes are in a header |
| `SecureBootUpdate.Machine.ApplySecureBootUpdates` | incus-osd/internal/secureboot/efi_vars.go:204-262 | one pass over a variable's updates in any order: result, tool calls and the variable afterwards, no other variable changed, and an error without any call when the variable cannot be read |
| `SecureBootUpdate.Machine.UpdateSecureBootCerts` | incus-osd/internal/secureboot/efi_vars.go:179-202 | KEK, db, dbx in turn, stopping at the first error or needed reboot |
| `SecureBootUpdate.OneAppendPerCall` | incus-osd/internal/secureboot/efi_vars.go:108-262 | each call makes at most one successful append, the last thing it tries, exactly when it asks for a reboot; the variables are tried in order |
| `SecureBootUpdate.DatabasesWaitForKeys` | incus-osd/internal/secureboot/efi_vars.go:179-202 | db is touched only when every KEK update is present or just failed, dbx only when also all of db is present |
| `SecureBootUpdate.CallProgress` | incus-osd/internal/secureboot/efi_vars.go:108-262 | a call never adds to what is missing, and each needed reboot strictly reduces it |
| `SecureBootUpdate.QuietCallIsComplete` | incus-osd/internal/secureboot/efi_vars.go:108-262 | a call that needs no reboot leaves all of db and dbx present, and only KEK updates that failed in it absent |
| `SecureBootUpdate.UpdatesConverge` | incus-osd/internal/secureboot/efi_vars.go:108-262 | for every archive and every iteration order on every boot, error-free calls reach that state within as many boots as certificates were missing |
| `SecureBootUpdate.PassExactly` | incus-osd/internal/secureboot/efi_vars.go:204-262 | a pass by the update at which it ends: its result, and exactly the missing updates up to there tried in order |
| `SecureBootUpdate.PassErrs` | incus-osd/internal/secureboot/efi_vars.go:244-252 | with proper names a pass over KEK never errs, and one over db or dbx errs if and only if its last append failed |
| `SecureBootUpdate.CallErrs` | incus-osd/internal/secureboot/efi_vars.go:179-202 | a call on a readable machine errs if and only if the last thing it tried was an append to db or dbx that failed |
| `SecureBootUpdate.ProperBootsConverge` | incus-osd/internal/secureboot/efi_vars.go:108-262 | convergence from premises on the machine alone, whatever becomes of the KEK updates |
| `TpmReplay.ValidateEventLog` | incus-osd/internal/secureboot/tpm.go:101-147 | the interleaved replay accepts exactly when PCR 4 and PCR 7 are the folds of `extend` over their own subsequences |
| `TpmReplay.MeasureEvents` | incus-osd/cmd/initrd-utils/main.go:92-102 | measuring a log leaves every register at the fold over its subsequence, and fails exactly on a register the TPM does not have |
| `TpmReplay.MeasurePCRs` | incus-osd/cmd/initrd-utils/main.go:72-113 | the log and then the initrd marker into PCR 11 |
| `TpmReplay.SameValueSameDigests` | incus-osd/internal/secureboot/pcrs.go:557-580 | two digest sequences that leave one register value are equal, or walking them back yields an explicit collision or an explicit way back to the reset value |
| `TpmReplay.ValidatedLogIsMeasuredLog` | incus-osd/internal/secureboot/tpm.go:101-147 | a log validates against a measured TPM if and only if its PCR 4 and PCR 7 digest sequences are the measured ones |
| `EventLogWriter.SynthesizeTPMEventLog` | incus-osd/internal/secureboot/event_log.go:90-326 | the buffer holds the header and the records of all events in order, EFI variables with their GUID, lengths and name, or nothing if one cannot be read |
| `EventLogWriter.VariableDataIsInjective` | incus-osd/internal/secureboot/event_log.go:238-279 | two variables measured as the same data have the same name and value |
| `EventLogWriter.WriteLogEvent` | incus-osd/internal/secureboot/event_log.go:328-348 | appends exactly one record: register, type, digest count and algorithm, digest, size, contents |
| `EventLogWriter.LogRoundTrip` | incus-osd/internal/secureboot/event_log.go:90-348 | every record sequence is read back from its log with the same registers, types, digests and contents |
| `EventLogWriter.SynthesizedEvents` | incus-osd/internal/secureboot/event_log.go:204-326 | what is synthesized always decodes, into PCR 7 and PCR 11 only |
| `EventLogWriter.BootWithSwtpm` | incus-osd/cmd/initrd-utils/main.go:72-113 | a reset TPM measured with the synthesized log validates against the log the daemon synthesizes later if the variables PCR 7 covers are unchanged, and otherwise only over an explicit collision of the hash or of the register extension |
| `EventLogWriter.DigestsTell` | incus-osd/internal/secureboot/event_log.go:231-326 | without a hash collision two synthesized logs have the same PCR 7 digests if and only if every covered variable and the signing certificate are the same |
| `EventLogWriter.SynthesisSucceeds` | incus-osd/internal/secureboot/event_log.go:231-326 | a log is synthesized if and only if the five variables, the signing certificate and every measured section can be read |
| `EventLogWriter.VariablesAreMeasured` | incus-osd/internal/secureboot/event_log.go:92-140 | PCR 7 gets SecureBoot, PK, KEK, db, dbx, a separator and the signing certificate of db, in this order |
| `EventLogWriter.SectionsAreMeasured` | incus-osd/internal/secureboot/event_log.go:281-313 | PCR 11 gets, section by section in the fixed order, the hash of the name with its NUL and then the hash of the contents, microcode only on amd64 |
| `EventLogWriter.SectionDigestsTell` | incus-osd/internal/secureboot/event_log.go:281-313 | without a hash collision PCR 11 is the same for two boots if and only if every measured section is, for the event list as it is and any of its shape |
| `EventLogWriter.VariableFields` | incus-osd/internal/secureboot/event_log.go:252-277 | the measured form of a variable byte by byte: lengths in 64 bits, name in 16-bit characters, value |
| `EventLogWriter.VariableGuid` | incus-osd/internal/secureboot/event_log.go:262-275 | the GUID that leads db and dbx, and the one that leads the others |
| `EventLogWriter.HeaderFields` | incus-osd/internal/secureboot/event_log.go:206-229 | the fields of the log header, whose size field counts the bytes after it |
| `AppVersions.RefreshedIsConsistent` | incus-osd/internal/applications/sysext.go:28-145 | after a successful refresh the recorded version is on disk, linked and listed; the list is strictly ascending, has 1 to 4 entries and is exactly what is on disk |
| `AppVersions.RefreshKeepsBootable` | incus-osd/internal/applications/sysext.go:289-369 | an uncorrupted image of either bootable release survives a refresh |
| `AppVersions.RefreshSelects` | incus-osd/internal/applications/sysext.go:237-281 | which version a refresh settles on: unchanged within a boot, the matching one when booted back, the greatest when booted forward |
| `AppVersions.SwitchInRange` | incus-osd/internal/applications/app_common.go:162-190 | the index stays in range if and only if the recorded version is listed, or is not looked up |
| `AppVersions.EmptyRequestRollsBack` | incus-osd/internal/applications/app_common.go:162-190 | an empty request picks the greatest available version below the current one, and is refused when there is none, on a list as a refresh left it with newer versions held back since |
| `AppLifecycle.StepKeeps` | incus-osd/internal/applications/sysext.go:28-145 | every step, saves, restarts and power losses included, keeps the state sound and leaves an installed application installed if and only if a loaded record, or a switch, names a version that is on disk |
| `AppLifecycle.InstalledExactly` | incus-osd/internal/applications/load.go:207-221 | over every run an installed application is installed throughout if and only if every restart and boot finds the image of its saved version, and every switch that of its target |
| `AppLifecycle.SavedRunKeeps` | incus-osd/internal/applications/sysext.go:28-145 | saved before every restart and boot, an application is never lost |
| `AppLifecycle.PowerLossUninstalls` | incus-osd/internal/update/update.go:626-634 | an update, a refresh and a power loss before any save leave an application not installed, whenever its old version is of no bootable release |
| `AppLifecycle.OnlyRefreshDeletes` | incus-osd/internal/applications/sysext.go:289-369 | an image is deleted only by a refresh that finds it corrupt or of no bootable release, and never that of the recorded version |
| `AppLifecycle.BootableImagesKept` | incus-osd/internal/applications/sysext.go:28-145 | over every run, an uncorrupted image whose version is bootable at each refresh stays on disk |
| `AppLifecycle.BootBackSelects` | incus-osd/internal/applications/sysext.go:237-281 | after any run that keeps the image bootable and uncorrupted, booting back to the older side ends with the application installed at the version of that side, if and only if the refresh finds it installed, and the boot before in the journal or that version recorded |
| `AppLifecycle.BootForwardSelects` | incus-osd/internal/applications/sysext.go:237-281 | booting forward ends with the application installed at the greatest version on disk under the same condition |
| `AppLifecycle.BootLoads` | incus-osd/internal/applications/load.go:207-221 | right after a boot an application is installed if and only if it has its symlink and the image of its saved version |
| `AppLifecycle.FailedUpgradeKeepsNewer` | incus-osd/internal/util/system.go:12-24 | an upgrade that fails before it is ready, its record saved, leaves the older side, once booted again, with an application version newer than its own, although its own is on disk |
| `AppSwitches.SwitchSticks` | incus-osd/internal/applications/sysext.go:237-281 | a switch and the refresh after it end at exactly the version switched to, if and only if that version stands up to the release the refresh compares with |
| `AppSwitches.SwitchSticksInBoot` | incus-osd/internal/applications/sysext.go:54-58 | after a boot's first refresh and whatever else happens in that boot, restarts included, a switch sticks if and only if the daemon was not restarted since its last refresh, or the version stands up to the boot before |
| `AppSwitches.RestartUndoesSwitch` | incus-osd/internal/applications/sysext.go:25-58 | after an upgrade boot, a switch to an older version that had stuck and was saved is undone by the first refresh of a restarted daemon |
| `AppSwitches.SwitchSafeAfterRefresh` | incus-osd/internal/applications/app_common.go:162-190 | after a refresh, and until an install records a version or a record that does not list its version is loaded, no switch indexes out of range |
| `AppSwitches.RollbackOverRuns` | incus-osd/internal/applications/app_common.go:162-190 | over every run since a refresh in which installs hold back newer versions, switches go down and nothing unsaved is lost, an empty request rolls back by one |
| `AppSwitches.SwitchUpThenRollsForward` | incus-osd/internal/update/update.go:619-625 | after a switch up to a version held back out of order, an empty request goes up |
| `AppSwitches.SwitchAfterInstallIsOutOfRange` | incus-osd/internal/update/update.go:626-634 | without that refresh a rollback request does index out of range |
| `AppSwitches.SwitchExactly` | incus-osd/internal/applications/app_common.go:162-190 | a version asked for is accepted if and only if it is listed and not alone, and nothing but the version changes |
| `AppSwitches.InstallRecords` | incus-osd/internal/update/update.go:595-634 | an install records the new version, or only lists it if it is held back for an application that was there before |
| `AppSwitches.RefreshLinks` | incus-osd/internal/applications/sysext.go:34-90 | a refresh links every installed application to its version and removes every other symlink, and does nothing with nothing installed |
| `AppSwitches.UpgradeAndBack` | incus-osd/internal/util/uki.go:21-70 | after an update of the system the new release boots, and from there the old one again |
| `AppDevice.LatestDiskVersion` | incus-osd/internal/applications/sysext.go:196-216 | directories visited in any order give the greatest version |
| `AppDevice.BestApplicationVersion` | incus-osd/internal/applications/sysext.go:237-281 | the branches on the prior and running release |
| `AppDevice.Device.GetApplicationsVersions` | incus-osd/internal/applications/sysext.go:165-235 | what is on disk for each application, with the error exactly when one has no image |
| `AppDevice.Device.RemoveCorruptSysextImages` | incus-osd/internal/applications/sysext.go:325-369 | exactly the corrupt images go, except that of the recorded version |
| `AppDevice.Device.RemoveStaleSysextImages` | incus-osd/internal/applications/sysext.go:289-323 | exactly the images of unlisted versions go |
| `AppDevice.Device.RefreshExtensions` | incus-osd/internal/applications/sysext.go:28-145 | the whole in-place refresh is the refresh step of the runs, and the "no on-disk sysext image" error is unreachable |
| `AppDevice.Device.SwitchVersion` | incus-osd/internal/applications/app_common.go:162-190 | the in-place switch is the switch step; an error and an index out of range leave everything as it was |
| `AppDevice.Device.InstallApplication` | incus-osd/internal/update/update.go:588-634 | the in-place install is the install step |
| `AppDevice.Device.LoadState` | incus-osd/internal/applications/sysext.go:25 | a restart loads the saved records and forgets the release of the boot before |
| `AppDevice.Device.BootRelease` | incus-osd/internal/util/system.go:12-24 | the in-place boot is the reboot step |
| `Versions.DigitsOrder` | incus-osd/cmd/image-publisher/index.go:57-77 | string order is number order on digit strings of equal length |
| `Versions.ComparisonsAgree` | incus-osd/internal/providers/structs.go:58-70 | the numeric comparison of the client is the string comparison of the customizer |
| `Versions.NotANumber` | incus-osd/internal/providers/structs.go:58-70 | what is not a number is neither newer nor older |
| `Releases.DescendingIsUnique` | incus-osd/cmd/image-publisher/index.go:57-78 | a set of releases has one descending listing |
| `ReleaseIndex.GenerateIndex` | incus-osd/cmd/image-publisher/index.go:14-78 | read in any order, sorted by number and reversed, the index is the descending listing of all update.json files |
| `ReleaseSelection.PriorVersion` | incus-osd/cmd/image-publisher/changelog.go:42-51 | the first update of the channel, or none |
| `ReleaseSelection.FilterAssets` | incus-osd/cmd/image-customizer/main.go:823-871 | on any index, the first update of the channel with the version asked for, or the first with the greatest string, with the names of exactly the files that pass the request, in order; the error exactly when there is none |
| `ReleaseSelection.ImagesProvider.CheckRelease` | incus-osd/internal/providers/provider_images.go:377-517 | the cached update within the hour, otherwise the first update of the channel, or the running release, that has a file for the architecture or for all, with exactly those files in order; what is cached afterwards |
| `ReleaseSelection.FilesForMember` | incus-osd/internal/providers/provider_images.go:478-490 | a file is kept if and only if it is for the architecture or for all |
| `ReleaseSelection.FirstIsNewest` | incus-osd/cmd/image-publisher/changelog.go:44-51 | on a descending index the first of a channel is its newest update, and the only one |
| `ReleaseSelection.HighestIsNewest` | incus-osd/cmd/image-customizer/main.go:830-848 | so is the customizer's string maximum |
| `ReleaseSelection.ClientTakesNewest` | incus-osd/internal/providers/provider_images.go:456-499 | the client takes it if and only if it has files for the architecture and the running release is not a newer one outside the channel |
| `ReleaseSelection.SelectorsAgree` | incus-osd/internal/providers/provider_images.go:456-499 | all three name the same update |
| `ReleaseSelection.NoDowngrade` | incus-osd/internal/providers/provider_images.go:461-499 | while the running release is listed, the selection is that release or a strictly newer one of the channel |
| `Retention.UnusedVersions` | incus-osd/cmd/image-publisher/main_prune.go:65-85 | the counting loops delete exactly the updates for which every channel already has enough newer ones |
| `Retention.RetainedMembers` | incus-osd/cmd/image-publisher/main_prune.go:65-89 | an update is kept if and only if for some channel of it fewer than the retention newer updates carry that channel |
| `Retention.KeptByCount` | incus-osd/cmd/image-publisher/main_prune.go:65-75 | the same, counting the updates before it that carry the channel |
| `Retention.ChannelKeepsNewest` | incus-osd/cmd/image-publisher/main_prune.go:65-89 | each channel keeps exactly its newest min(n, retention) at its front |
| `Retention.RetainIsIdempotent` | incus-osd/cmd/image-publisher/main_prune.go:65-89 | pruning twice is pruning once |
| `Retention.PruneKeepsNewest` | incus-osd/cmd/image-publisher/main_prune.go:65-89 | with a retention of at least one the newest update of every channel is unchanged |
| `Retention.SelectionSurvives` | incus-osd/internal/providers/provider_images.go:456-499 | for every client, pruning leaves the selection as it was if and only if there was none or the selected update is kept |
| `Retention.PruneKeepsSelection` | incus-osd/internal/providers/provider_images.go:456-499 | in particular a client served the newest update of its channel selects the same after pruning with a retention of at least one |
| `ChangelogNames.NameMatches` | incus-osd/cmd/image-publisher/main_demote.go:86-100 | which changelogs a demotion removes, as an if and only if on all channel names |
| `Publishing.GenerateChangelog` | incus-osd/cmd/image-publisher/changelog.go:22-175 | one changelog for each architecture with a manifest, against the first update of the channel |
| `Publishing.ArchOfName` | incus-osd/cmd/image-publisher/changelog.go:58-60 | the architecture of a manifest is the part of its name before the first slash |
| `Publishing.ListedIsFound` | incus-osd/cmd/image-publisher/changelog.go:44-51 | an update in a channel is what a reader finds there if and only if no newer release carries the channel |
| `Publishing.DemotedOk` | incus-osd/cmd/image-publisher/main_demote.go:69-105 | demoting takes away that channel only, and leaves a changelog only for channels the update is in |
| `Publishing.PromotedOk` | incus-osd/cmd/image-publisher/main_promote.go:68-87 | promoting keeps channels free of duplicates and lists changelogs only for them |
| `Publishing.PromoteThenDemote` | incus-osd/cmd/image-publisher/main_demote.go:69-105 | demoting what was just promoted gives channels and files back exactly, if and only if no channel name clashes |
| `Publishing.ClashLosesChangelog` | incus-osd/cmd/image-publisher/main_demote.go:86-100 | the family of updates that are not given back |
| `Publishing.Repository.Sync` | incus-osd/cmd/image-publisher/main_sync.go:126-276 | imports a new release once, into its channel, with one changelog for each architecture with a manifest; a failed import leaves the index; the invariant is kept |
| `Publishing.Repository.Promote` | incus-osd/cmd/image-publisher/main_promote.go:68-116 | adds the channel and one changelog for each architecture with a manifest to one update, with all else kept in order; readers then find that update in the channel if and only if no newer release carries it; errors change nothing; the invariant is kept |
| `Publishing.Repository.Demote` | incus-osd/cmd/image-publisher/main_demote.go:69-135 | removes exactly the channel and the files that match its changelogs from one update; errors change nothing; the invariant is kept |
| `Publishing.Repository.SetSeverity` | incus-osd/cmd/image-publisher/main_severity.go:42-107 | changes one update's severity; the invariant is kept |
| `Publishing.Repository.Prune` | incus-osd/cmd/image-publisher/main_prune.go:50-90 | the new index is exactly the retained part of the old one; the invariant is kept |
| `Publishing.PromoteAndBack` | incus-osd/cmd/image-publisher/main_demote.go:69-135 | promote and demote on the repository restore every update.json and the index |
| `NetworkConfirm.InvStep` | incus-osd/internal/rest/api_system_network.go:116-239 | every interleaved step, handlers and senders going in any order and applies overlapping, keeps the invariant: a pending change has exactly one live watcher, and what is saved boots into a configuration from before it |
| `NetworkConfirm.MessagesArise` | incus-osd/internal/rest/api_system_network.go:207-212 | a message comes into being if and only if a pending change is confirmed or a handler fails while one is pending; it is one, about that change or of that handler |
| `NetworkConfirm.NoMessageBeforeFirstChange` | incus-osd/internal/rest/api_system_network.go:207-212 | before the first timed change there is never a message, whatever fails |
| `NetworkConfirm.WhoTouchesWhat` | incus-osd/internal/rest/api_system_network.go:150-239 | which steps may change which shared field |
| `NetworkConfirm.PutBegins` | incus-osd/internal/rest/api_system_network.go:150-196 | what an accepted PUT begins, timed or not |
| `NetworkConfirm.HandlersEnd` | incus-osd/internal/systemd/networkd.go:47-55 | a handler that ends frees the flag, and one that is refused leaves everything to the others |
| `NetworkConfirm.CrashSafety` | incus-osd/internal/rest/api_system_network.go:150-196 | in every run of a timed change a crash before its end boots into an earlier configuration, if and only if no earlier watcher was still closing when it began, or everything under way is such a configuration |
| `NetworkConfirm.PriorIsCleared` | incus-osd/internal/rest/api_system_network.go:188-194 | in every reachable state with no change pending and no watcher closing, after a rollback, a confirmation or a boot, no prior configuration is kept, and a save leaves none on disk |
| `NetworkConfirm.RollbackExact` | incus-osd/internal/rest/api_system_network.go:161-207 | whether begun by the timer or by a failed apply, the rollback restores the old configuration in every continuation without taking the daemon down, if and only if that configuration is kept with nobody left to clear it, no other one is under way, and it is in place already or the way is free |
| `NetworkConfirm.OwnMessagesExact` | incus-osd/internal/rest/api_system_network.go:257-276 | a change is decided only by a confirmation given while it is pending or by its own handler's failure, if and only if the buffer is empty, no sender is left, and no other handler is applying or about to when it begins |
| `NetworkConfirm.PendingLeadsOut` | incus-osd/internal/rest/api_system_network.go:161-196 | from a reachable pending state the watcher alone leads out with the daemon staying up, if and only if it is ending, rolling back, or still has a prior configuration |
| `NetworkConfirm.RollbackPanics` | incus-osd/internal/rest/api_system_network.go:177-195 | a reachable run in which the rollback of a pending change takes the daemon down |
| `NetworkConfirm.StaleConfirmation` | incus-osd/internal/state/file.go:28 | a reachable run in which a leftover confirmation confirms the next change |
| `NetworkConfirm.ForeignFailure` | incus-osd/internal/rest/api_system_network.go:207-212 | a reachable run in which the refusal of another handler rolls a change back while its own apply is running |
| `NetworkConfirm.ClosingRace` | incus-osd/internal/rest/api_system_network.go:189-194 | a reachable run in which a crash boots into an unconfirmed configuration |
| `NetworkConfirm.TimerDuringApply` | incus-osd/internal/rest/api_system_network.go:177-207 | a reachable run in which an unconfirmed configuration is kept for good |
| `MaintenanceWindow.Validate` | incus-osd/api/system_update.go:44-74 | accepts exactly parsable, non-negative frequencies and windows whose days are both or neither given and in order |
| `MaintenanceWindow.TimeUntilActiveReference` | incus-osd/api/system_update.go:93-162 | the result is the exact wait if and only if it is not past the end of a wrapped window on its last day; there it is short by exactly the days between |
| `MaintenanceWindow.IsActive` | incus-osd/api/system_update.go:82-84 | active exactly inside the cyclic interval, or at the one minute of the failing case that gives zero |
| `MaintenanceWindow.WaitIsFirst` | incus-osd/api/system_update.go:91-162 | that wait is the least number of minutes after which the window is active |
| `MaintenanceWindow.WaitCountsDown` | incus-osd/api/system_update.go:91-162 | while the window is not active the wait drops by one each minute, across midnight and the end of the week |
| `MaintenanceWindow.WholeDay` | incus-osd/api/weekday.go:26-45 | a window over one whole day is active exactly on the day the reference time gives its number, Sunday being 0 |
| `MaintenanceWindow.WrappedEndIsWrong` | incus-osd/api/system_update.go:160-161 | the failing case is real: a Saturday-to-Sunday window on a Sunday afternoon is off by six days |
| `SeedSplice.Transfer.SendLeading` | incus-osd/cmd/image-customizer/main.go:506-528 | chunk by chunk, the image up to the offset or its end |
| `SeedSplice.Transfer.WriteSeed` | incus-osd/cmd/image-customizer/main.go:1093-1134 | the counter is the number of seed bytes sent |
| `SeedSplice.Transfer.SendOSImage` | incus-osd/cmd/image-customizer/main.go:506-549 | for every image, what is sent is the image with the bytes at the offset replaced by the seed |
| `SeedSplice.ImageFile.InjectSeedIntoImage` | incus-osd/cmd/flasher-tool/main.go:681-700 | the file after the write, zero-padded if it was too short |
| `SeedSplice.SplicedBytes` | incus-osd/cmd/image-customizer/main.go:506-549 | on an image long enough, length kept, seed at the offset, every other byte as it was |
| `SeedSplice.StreamedIsWritten` | incus-osd/cmd/flasher-tool/main.go:681-700 | the streaming and the in-place form agree if and only if the image reaches the offset or there is no seed |
| `SeedSplice.WrittenShort` | incus-osd/cmd/flasher-tool/main.go:681-700 | a file that ends before the offset gets zeroes up to it and then the seed |
| `ManifestDiff.DiffPackages` | incus-osd/manifests/manifests.go:301-334 | the loops compute the removed, updated and added entries in order |
| `ManifestDiff.Diff` | incus-osd/manifests/manifests.go:139-200 | a line for each change, packages before artifacts |
| `ManifestDiff.LinesRead` | incus-osd/manifests/manifests.go:182-198 | the lines as they are written |
| `ManifestDiff.UpdatesMember` | incus-osd/manifests/manifests.go:301-319 | an update joins an old entry with the first new entry of its name, if and only if their versions differ |
| `ManifestDiff.DiffIsPatch` | incus-osd/manifests/manifests.go:301-334 | for all manifests, applying the difference to the old names and versions gives exactly the new ones |
| `ManifestDiff.PartsAreDisjoint` | incus-osd/manifests/manifests.go:301-334 | no name is in two of the three parts |
| `ManifestDiff.SwapReverses` | incus-osd/manifests/manifests.go:301-334 | swapping the manifests swaps added with removed, and turns every update around if and only if no second entry of a name differs from what counts on the other side |
| `ManifestDiff.DistinctNamesTell` | incus-osd/manifests/manifests.go:301-334 | distinct names are enough for that |
| `ManifestDiff.RepeatedNameDoesNotReverse` | incus-osd/manifests/manifests.go:301-334 | a name listed twice breaks the turning around |
| `InstallClosure.GetInstallApplications` | incus-osd/internal/applications/load.go:103-204 | success if and only if every name is known and the closure has no two primary applications; the list is strictly sorted and is exactly the closure |
| `InstallClosure.ClosureIsClosed` | incus-osd/internal/applications/load.go:137-184 | one pass over the original list is enough: every dependency is met and there is a primary application |
| `InstallClosure.RefusedExactly` | incus-osd/internal/applications/load.go:186-204 | refused for two primaries if and only if two were asked for, or an incus service beside another primary |
| `InstallClosure.SuccessMeans` | incus-osd/internal/applications/load.go:110-204 | everything asked for is there, nothing but "incus" is added, and exactly one application is primary |
| `InstallClosure.KnownNames` | incus-osd/internal/applications/load.go:17 | the nine known applications |
| `InstallClosure.PrimaryAlone` | incus-osd/internal/applications/load.go:136-150 | each of the four primary applications stands alone |
| `InstallClosure.OtherGetsIncus` | incus-osd/internal/applications/load.go:136-150 | each of the others gets incus and works with it |
| `InstallClosure.ServiceBeside` | incus-osd/internal/applications/app_incus_services.go:37-39 | an incus service is complete beside either incus, and refused beside another primary application |
| `InstallClosure.TwoRefused` | incus-osd/internal/applications/load.go:186-204 | two different primary applications are refused |

## Left out

- X.509 parsing of the signature data, the tar archive and file names of the certificate updates, TPM and EFI tools, signing and S/MIME: foreign code, kept as parameters.
- Input and output errors other than those named in the contracts, and a crash in the middle of one refresh, install, save or repository command; between them a power loss may come at any time.
- Uninstalling an application, friendly versions, and a non-symlink file in the extensions directory.
- Update kinds other than an application update, and downloading.
- Publishing.Repository.Sync: versions are twelve digits, and a channel name is one that leaves the changelog's path as it is.
- ReleaseIndex.GenerateIndex: the order of an index with version strings other than twelve digits is not modelled, because the comparison function is then not an order, or not the string order the readers use.
- Publishing.GenerateChangelog: the contents of a changelog are a hash that depends on the prior version and the architecture.
- MaintenanceWindow.TimeUntilActiveReference: hours and minutes off the clock and unknown day names are not modelled; Validate does not reject them.
- MaintenanceWindow.IsActive: the same windows are not modelled.
- MaintenanceWindow.WaitIsFirst: the same windows are not modelled.
- NetworkConfirm.InvStep: the handlers and the watcher are atomic steps on one state value, not methods on shared fields; an apply is a check of the flag with its start, an installation of the configuration and an end, and the save after it is a step of its own.
- NetworkConfirm.PendingLeadsOut: says that the watcher can finish, not that the scheduler lets it; time is not measured, so the timer may expire at any moment.
- NetworkConfirm.RollbackExact: continuations in which an apply or its nft commands fail are left out; every step of them keeps the invariant.
- ManifestDiff.DiffIsPatch: of a name listed twice the first entry counts; artifacts' own dependencies are not compared by the source either.
- SeedSplice.Transfer.SendOSImage: a failed write to the client, which ends the transfer early.
- ReleaseSelection.ImagesProvider.CheckRelease: the mutex, and the warning about an unknown channel.
- Command lines, REST routing, menus, build scripts and the per-application start and stop code: they pass requests on to systemd and other programs and keep no state of their own.
