# CivicCast: a verified model

CivicCast is a municipal broadcast control plane with a native Windows build chain. This
project models the parts of it that rewrite bytes and text, move directories, or keep state
over a whole run, and proves what they guarantee.

| file | models |
|---|---|
| `LauncherScrub.dfy` | zeroing stale launcher scripts inside an executable |
| `NsisScript.dfy`, `Lines.dfy` | the re-runnable rewriting of the generated NSIS script |
| `ControlPlane.dfy` | application lifecycle: freeze, middleware stack, hooks, workers, backup service |
| `WallClock.dfy` | local time to instant, under gaps and folds |
| `CachePromotion.dfy` | replacing a cached runtime by renames that may fail |
| `MigrationGraph.dfy` | what "current", "behind" and "ahead" mean in the migration graph |
| `DerivedTree.dfy` | the derived CPython tree, built again over itself |
| `PayloadManifest.dfy` | file owners, payload manifest, licence bill of materials |
| `WheelRepack.dfy`, `Csv.dfy` | the canonical wheel and its RECORD file |
| `AssetStore.dfy`, `ScheduleStore.dfy` | the in-memory asset and schedule stores |
| `HealthHook.dfy` | alerts on changes of a source's health |
| `AnalyticsGuard.dfy` | the analytics body limit and replay |
| `LineIndex.dfy` | line numbers by binary search |
| `Search.dfy`, `Sorting.dfy`, `Options.dfy` | shared: substring search, sorting and sums, optional values |

Code that updates things in place is modelled by methods and classes, each proved against a
function over values; what is promised is then proved about those functions.

Where the code does not do what its own comments or documentation say, or a natural property
is false, the model follows the code and a lemma gives the exact condition:

- A launcher scrub can leave, or even create, a copy of the script it discards. A ZIP without
  a comment ends in zero bytes, and zeroing one copy can complete another in front of it
  (`LauncherScrub.CopyCanReappear`; for which scripts: `LauncherScrub.LeavesNoCopyExactly`; in
  which file, and where: `LauncherScrub.ReappearsExactly`).
- The NSIS rewriting is not re-runnable on a script whose visible text stops at a header
  without its newline: the appended text completes the header, and a second run refuses its own
  output or changes it once more (`NsisScript.SecondRunCanRefuse`, `NsisScript.SecondRunCanChange`;
  exactly when: `NsisScript.PreflightIsRerunnable`).
- That a local time repeats at most twice is not enough for the two folds to find its earliest
  instant (`WallClock.EarlierInstantMissed`; exactly when: `WallClock.KeptExactly`). For every
  unambiguous time the answer carries `fold` 1, because the second candidate overwrites the first.
- The maintenance guard is described as the outermost layer; the storage synchronisation and the
  analytics body limit are registered later and lie outside it (`ControlPlane.PassesExactly`).
- Storage wired while serving leaves the recording-reconcile hook pending: it is appended behind
  the drain (`ControlPlane.HooksConserved`).
- Repairing storage on a running station rewires it; the workers of the earlier wiring are
  unbound but not stopped, and outlive the lifespan
  (`ControlPlane.StopIsCleanExactly`, `ControlPlane.RepairLeavesWorker`).
- The report of where a previous runtime was preserved is lost if leaving the temporary
  directory fails too (`CachePromotion.PreservedUnreported`).
- A row created as already published has no retention anchor (`AssetStore.PublishedWithoutAnchor`).
- The in-memory store does not compare `expected_version`, which its model documents as the
  ground for a refusal, so an update can be lost (`AssetStore.LostUpdate`). A run ends as it would
  with the documented check exactly when every accepted update carried the current version
  (`AssetStore.MatchesCheckedExactly`, `AssetStore.InformedExactly`).

## Model

| member | source | states |
|---|---|---|
| `LauncherScrub.LauncherFile.DiscardRetained` | scripts/build_native_app_payload.py:1353-1394 | ends with the verdict of the checks; on refusal, or when the script is already active, the file is as it was; otherwise exactly the stale copies are zeroed |
| `LauncherScrub.Scan` | scripts/build_native_app_payload.py:1381-1390 | finds the leftmost non-overlapping copies, and reports a clash exactly when some byte belongs both to one of them and to the active script |
| `LauncherScrub.VerdictExactly` | scripts/build_native_app_payload.py:1353-1394 | every answer by what a caller can see: empty and unreadable scripts, a script already active, one contained in the active one, an active one missing or ambiguous; otherwise scrubbed if and only if no copy shares a byte with the active script |
| `LauncherScrub.ZeroFill` | scripts/build_native_app_payload.py:1391-1392 | in place: zero inside the offsets' stretches, unchanged outside |
| `LauncherScrub.ScrubKeepsTheRest` | scripts/build_native_app_payload.py:1353-1394 | after success: same length, the active script byte for byte at its offset, every byte outside the copies unchanged, every byte inside zero |
| `LauncherScrub.ClearsEveryOldPlaceExactly` | scripts/build_native_app_payload.py:1381-1394 | for any two scripts an executable can carry: in every accepted file no place that held the stale one still holds it, stepped-over overlaps included, if and only if it does not both begin and end with zero |
| `LauncherScrub.LeavesNoCopyExactly` | scripts/build_native_app_payload.py:1381-1394 | for any two such scripts: in every accepted file no copy is left anywhere, if and only if the stale one neither begins nor ends with zero |
| `LauncherScrub.CopyCanReappear` | scripts/build_native_app_payload.py:1353-1394 | for any two such scripts, the stale one with a ZIP's first and last byte: an accepted file after whose scrub the discarded script sits where it did not sit before |
| `LauncherScrub.ReappearsExactly` | scripts/build_native_app_payload.py:1381-1394 | in every file, for a script with a ZIP's first byte: after the scrub a copy is at a place if and only if a found copy behind it completes it with zeros, and then none was there before |
| `NsisScript.NsisBlocksAreValid` | scripts/build_native_bootstrap.py:373-395 | the program's seven lines are lines that differ in their endings, which is all the theorems below need of them |
| `NsisScript.AcceptedExactly` | scripts/build_native_bootstrap.py:368-379 | a script is rewritten if and only if it has exactly one entry point; with a byte-order mark in front the result is the same with the mark in front |
| `NsisScript.PreflightAcceptsExactly` | scripts/build_native_bootstrap.py:368-398 | the same for the program's own lines |
| `NsisScript.RunAgain` | scripts/build_native_bootstrap.py:368-398 | a second run changes nothing if and only if the original left no header open; it raises if and only if the open header is `.onInit` |
| `NsisScript.PreflightIsRerunnable` | scripts/build_native_bootstrap.py:368-398 | the same for the program's own lines |
| `NsisScript.SecondRunIsFinal` | scripts/build_native_bootstrap.py:368-398 | whatever the original, a second success is a fixed point |
| `NsisScript.OnInitCanBeLeftOpen` | scripts/build_native_bootstrap.py:378-397 | for any seven such lines, a script accepted once whose `.onInit` header is left open |
| `NsisScript.ReinstallCanBeLeftOpen` | scripts/build_native_bootstrap.py:378-397 | one whose reinstall header, and no other, is left open |
| `NsisScript.SecondRunCanRefuse` | scripts/build_native_bootstrap.py:368-398 | with the program's own text: a script that is accepted, and whose output is then refused |
| `NsisScript.SecondRunCanChange` | scripts/build_native_bootstrap.py:368-398 | with the program's own text: a script that is accepted twice with two different results |
| `NsisScript.RewrittenText` | scripts/build_native_bootstrap.py:378-397 | after one run the two guard lines stand, in order, behind the entry point, and the other blocks are present; the entry point is still unique, and the reinstall page skipped, exactly when no header was left open |
| `NsisScript.AppendedBehindBlankLine` | scripts/build_native_bootstrap.py:395-397 | missing callbacks are appended behind one blank line, in place of trailing white space |
| `NsisScript.BomStays` | scripts/build_native_bootstrap.py:370-372 | a byte-order mark stays first, and nothing else becomes one |
| `NsisScript.DeletingBlocksRestores` | scripts/build_native_bootstrap.py:378-398 | cutting the inserted blocks out gives back the original: exactly if nothing was appended, else up to trailing white space |
| `ControlPlane.SupervisorMode` | civiccast/app.py:703-734 | frozen if and only if the variable is present and is not "normal" once stripped and lowered; "maintenance" only under contract 1 |
| `ControlPlane.ModeExactly` | civiccast/app.py:703-734 | blanks around a word and its case do not matter and nothing else is taken for it: normal if and only if absent or "normal", maintenance if and only if "maintenance" under contract "1" |
| `ControlPlane.App.Create` | civiccast/app.py:2813-2818 | booting wires storage that is configured, and starts nothing |
| `ControlPlane.App.MaybeStartFinalizationWorker` | civiccast/app.py:860-870 | starts the bound worker unless absent, before the lifespan, or frozen |
| `ControlPlane.App.MaybeStartBackgroundSupervisors` | civiccast/app.py:885-891 | starts every enabled supervisor and drains the hooks, unless before the lifespan or frozen |
| `ControlPlane.App.DrainHooks` | civiccast/app.py:902-932 | launches all pending hooks in order and ends, whichever of them never finish; reports as many as do not |
| `ControlPlane.App.WireFinalizationWorker` | civiccast/app.py:846-857 | binds a new worker without stopping the one before |
| `ControlPlane.App.WireStageFWorkers` | civiccast/app.py:1306-1881 | replaces the supervisor list, appends one hook, then drains |
| `ControlPlane.App.InstallDurableStoreWiring` | civiccast/app.py:3686-3703 | one whole wiring, in the order of the code |
| `ControlPlane.App.WireStationBackupService` | civiccast/app.py:3706-3730 | stops the bound service, binds the new one, starts it only in an unfrozen lifespan |
| `ControlPlane.App.SyncDurableStorage` | civiccast/app.py:3884-3900 | wires storage found later, once |
| `ControlPlane.App.EnterLifespan` | civiccast/app.py:771-799 | resolves the mode first, then starts what the mode allows |
| `ControlPlane.App.ExitLifespan` | civiccast/app.py:801-843 | stops the bound backup service and the bound workers |
| `ControlPlane.App.Handle` | civiccast/app.py:2380-2427 | a request goes down the stack until a layer answers it |
| `ControlPlane.PassesExactly` | civiccast/app.py:737-751 | with or without CORS: exactly which requests reach the staff-auth layer, the guard and the handler; the two layers met before the guard |
| `ControlPlane.RequestWires` | civiccast/app.py:3884-3900 | one request wires the storage it finds while none is active, then what its handler activates if it gets there, and nothing else |
| `ControlPlane.WiredExactly` | civiccast/app.py:3686-3900 | over every run, all that has been wired, in order, from boot, mode and requests alone |
| `ControlPlane.FreezeHolds` | civiccast/app.py:865-891 | over every run in maintenance or unknown mode nothing is ever started, every hook stays pending, no POST, PUT, PATCH or DELETE reaches staff-auth or a handler, and every other request gets as far as in normal mode |
| `ControlPlane.NormalServes` | civiccast/app.py:771-799 | at every point of every normal run all workers ever enabled run, the bound backup service and no other runs, and the pending hooks are those behind the last drain |
| `ControlPlane.HooksConserved` | civiccast/app.py:902-904 | launched then pending is what was registered, without repeats; what is pending, for boot and mid-flight wiring |
| `ControlPlane.RegisteredExactly` | civiccast/app.py:3660-3673 | every wiring registers the caption-tier and reconcile hooks, and the guest hook if and only if configured |
| `ControlPlane.RebindExactly` | civiccast/app.py:3706-3730 | the same service: nothing; another: the old one stopped, the new one bound, and started if and only if in a lifespan known to be normal |
| `ControlPlane.BackupIsLast` | civiccast/app.py:3706-3730 | over every run the bound backup service is the one built last |
| `ControlPlane.RunningWasStarted` | civiccast/app.py:771-799 | over every run whatever runs was started |
| `ControlPlane.StopLeaves` | civiccast/app.py:801-843 | leaving stops the backup worker and leaves running exactly the workers of every wiring but the last |
| `ControlPlane.StopIsCleanExactly` | civiccast/app.py:838-843 | nothing is left running if and only if every wiring but the last had all its workers off |
| `ControlPlane.RepairLeavesWorker` | civiccast/installer/router.py:1746-1749 | a station repaired once keeps its first finalization worker after the lifespan |
| `ControlPlane.App.Answer` | civiccast/app.py:2380-2427 | a request meets the stack as registered |
| `ControlPlane.RunApp` | civiccast/app.py:771-843 | the object through boot, start, any requests and stop: frozen, nothing was ever started and no mutating request was handled; normal, the workers of every wiring but the last are left; hooks are conserved |
| `WallClock.ResolveWallClock` | civiccast/timezones.py:19-28 | the loop over both folds and the minimum compute the specified choice |
| `WallClock.KeptExactly` | civiccast/timezones.py:11-16 | None exactly for times never shown, else the earliest instant that shows the time: if and only if no first-showing segment is missed between a gap and two folds |
| `WallClock.KeptWhenSpaced` | civiccast/timezones.py:11-16 | always kept when transitions do not interleave; the answer has `fold` 0 if and only if the time is shown twice |
| `WallClock.ReadingResolves` | civiccast/timezones.py:10-28 | every instant's own reading resolves, to it or to the earlier instant showing the same |
| `WallClock.EarlierInstantMissed` | civiccast/timezones.py:21-28 | a zone and a time shown exactly twice for which the later instant is returned |
| `CachePromotion.RuntimeSources` | scripts/build_native_ollama_pack.py:174-204 | in whatever order it is walked, a tree is accepted if and only if acceptable, and its sources are its files |
| `CachePromotion.Cache.AcquireSources` | scripts/build_native_ollama_pack.py:121-171 | the protocol with every disk state it passes through |
| `CachePromotion.Cache.PromoteFresh` | scripts/build_native_ollama_pack.py:137-151 | moving the previous tree aside, and failing to |
| `CachePromotion.Cache.SwapFresh` | scripts/build_native_ollama_pack.py:152-167 | promotion, rollback, and the removal of the backup |
| `CachePromotion.NeverLost` | scripts/build_native_ollama_pack.py:126-171 | at every point, under every combination of faults: the previous tree is whole at the destination or aside, or the validated new one is in place; the destination never holds anything else |
| `CachePromotion.TrailIsStepwise` | scripts/build_native_ollama_pack.py:126-171 | the states considered miss nothing: between two of them lies one unpacking, deletion or rename |
| `CachePromotion.EndsExactly` | scripts/build_native_ollama_pack.py:126-171 | for every combination of faults, how the call ends and all that the disk then holds: destination, staged tree, holder and preserved tree |
| `CachePromotion.PreservedUnreported` | scripts/build_native_ollama_pack.py:156-163 | the faults under which the preserved tree is not named |
| `MigrationGraph.VerdictMeans` | civiccast/schema_check.py:134-141 | in every acyclic graph with one head: current if and only if at the head, behind if and only if migrations lead to the head, ahead if and only if neither; an unstamped database is behind |
| `MigrationGraph.OneHeadIsNeeded` | civiccast/schema_check.py:75-78 | taking any head, "behind" is right for every revision if and only if there is no other head |
| `MigrationGraph.WithoutKnown` | civiccast/schema_check.py:129-141 | without the known revisions: current if and only if at the head, otherwise behind, which is right for exactly the known ones |
| `DerivedTree.ProjectEditedOnce` | scripts/build_native_python_runtime.py:235-242 | the edit is one line behind the anchor, with the line ending of the file, and an edited project is refused |
| `DerivedTree.UnixPlain` | scripts/build_native_python_runtime.py:262-265 | text without a carriage return and newline pair is left alone |
| `DerivedTree.UnixPair` | scripts/build_native_python_runtime.py:262-265 | each pair becomes one newline, whatever stands around it |
| `DerivedTree.UnixKeepsText` | scripts/build_native_python_runtime.py:262-265 | nothing but carriage returns is ever lost |
| `DerivedTree.Disk.CopySource` | scripts/build_native_python_runtime.py:245-274 | succeeds as specified; a refused tree is left untouched; only the two projects are ever written |
| `DerivedTree.Disk.Vendor` | scripts/build_native_python_runtime.py:291-345 | succeeds as specified, with the specified files; succeeding or failing, it writes no other file |
| `DerivedTree.BuiltFiles` | scripts/build_native_python_runtime.py:245-345 | the result, file by file; generated files are kept |
| `DerivedTree.BuildSucceedsExactly` | scripts/build_native_python_runtime.py:235-345 | exactly when a build succeeds: an earlier copy is acceptable, both projects have one anchor and no entropy source, upstream has the expected files and a patchable header, and the two retained headers are there |
| `DerivedTree.VendoredBytes` | scripts/build_native_python_runtime.py:306-337 | every vendored file has upstream's bytes; the one patched header is upstream's text with the include put between its guard and its declarations |
| `DerivedTree.BuiltAgrees` | scripts/build_native_python_runtime.py:251-274 | success means agreement with the pristine tree but for vendored files, the two edits and, in C and Python source, carriage returns |
| `DerivedTree.BuildAgain` | scripts/build_native_python_runtime.py:245-345 | building over a built tree succeeds after vendored files changed, generators added files or rewrote line endings, or a project was put back; generated files and line endings are kept, vendored files and projects get the first build's bytes |
| `DerivedTree.BuildIsFixed` | scripts/build_native_python_runtime.py:245-345 | a built tree built again is the same tree |
| `DerivedTree.TamperingRefused` | scripts/build_native_python_runtime.py:256-270 | any other change to an original file is refused |
| `DerivedTree.TextChangeRefused` | scripts/build_native_python_runtime.py:256-270 | a change in more than carriage returns, or to a file that is not C or Python source, is refused |
| `PayloadManifest.BuildIndex` | scripts/build_native_app_payload.py:1828-1859 | a path is indexed if and only if some RECORD names it inside the tree, under the last distribution that does; with the set of all distributions |
| `PayloadManifest.NamesExactly` | scripts/build_native_app_payload.py:1849-1858 | a row names a path below Lib/site-packages exactly if it is not empty and does not climb out first |
| `PayloadManifest.UnattributedExactly` | scripts/build_native_app_payload.py:1962-1995 | a file has no owner if and only if it is installed and neither reviewed nor recorded |
| `PayloadManifest.AttributionFollowsRecord` | scripts/build_native_app_payload.py:1973-1999 | an installed, unreviewed file belongs to the last distribution whose RECORD names it, under that distribution's version and licence; for the interpreter and the product, under theirs |
| `PayloadManifest.Reviewed` | scripts/build_native_app_payload.py:1962-1970 | a reviewed entry is found if and only if some table names the path, and the first table that does wins |
| `PayloadManifest.ReviewedFirst` | scripts/build_native_app_payload.py:1962-1972 | a reviewed file gets the component of the first table that names it |
| `PayloadManifest.RootFileOwners` | scripts/build_native_app_payload.py:1973-1993 | elsewhere the product's wheel is the product's, a copied DLL is pywin32's and any other file is the interpreter's, with their versions and licences |
| `PayloadManifest.HashPayloadTree` | scripts/build_native_app_payload.py:1928-2005 | refuses if and only if some shipped file has no owner; otherwise describes every shipped file once, with its own hash, size and owner |
| `PayloadManifest.ManifestComplete` | scripts/build_native_app_payload.py:2014-2064 | lists exactly the shipped files, once each, strictly by path, with their count and bytes |
| `PayloadManifest.ManifestLists` | scripts/build_native_app_payload.py:1956-2064 | a file is listed if and only if it is in the payload and is none of the three trust documents, with its own digest and size |
| `PayloadManifest.ManifestIsCanonical` | scripts/build_native_app_payload.py:2025-2063 | the same whatever order the tree was walked in |
| `Sorting.LeqExactly` | scripts/build_native_app_payload.py:2025-2026 | the order of paths: a prefix first, otherwise by the first character that differs |
| `PayloadManifest.RenderBom` | scripts/build_native_app_payload.py:2072-2109 | one row for each heading that occurs and no other, embedded FFmpeg apart, in order, with its files counted and their bytes summed |
| `PayloadManifest.SummaryIsUnique` | scripts/build_native_app_payload.py:2105-2109 | only one table of rows meets that description |
| `PayloadManifest.EmbeddedApart` | scripts/build_native_app_payload.py:2076-2088 | no row of "av" has a licence of embedded FFmpeg; files under such a licence have rows of their own |
| `PayloadManifest.BomAgreesWithManifest` | scripts/build_native_app_payload.py:2072-2109 | rows sum to the manifest's file count and total bytes |
| `Csv.RoundTrip` | scripts/build_native_pyav_wheel.py:1080-1089 | what the CSV writer writes the CSV reader reads back, whatever characters the fields hold |
| `Csv.QuotedExactly` | scripts/build_native_pyav_wheel.py:1080-1089 | a field is quoted if and only if it holds a comma, a quote or a line break |
| `WheelRepack.RenderRecord` | scripts/build_native_pyav_wheel.py:1080-1089 | the loop writes the specified RECORD text |
| `WheelRepack.Repack` | scripts/build_native_pyav_wheel.py:1111-1131 | the steps compute the canonical arrangement |
| `WheelRepack.RepackKeepsFiles` | scripts/build_native_pyav_wheel.py:1111-1131 | the wheel has exactly the files it had, byte for byte, the two notices and RECORD |
| `WheelRepack.RepackedInOrder` | scripts/build_native_pyav_wheel.py:1092-1108 | its members are files, strictly in the order of their names |
| `WheelRepack.LastFileWins` | scripts/build_native_pyav_wheel.py:1120-1125 | of several members with one name the last counts |
| `WheelRepack.NormalForm` | scripts/build_native_pyav_wheel.py:1092-1131 | repacking a repacked wheel reproduces it; with other notices it gives what the original would |
| `WheelRepack.OnlyFilesMatter` | scripts/build_native_pyav_wheel.py:1120-1131 | the output depends only on the files: neither the order of members nor directory entries matter |
| `WheelRepack.RecordNamesEveryMember` | scripts/build_native_pyav_wheel.py:1080-1089 | RECORD, read as CSV, has one row for each member, with its digest and length, in the order of names; its own row, empty, comes last |
| `AssetStore.EphemeralAssetStore.CreateAsset` | civiccast/app.py:1905-1920 | adds to both maps, or refuses a taken id |
| `AssetStore.EphemeralAssetStore.IngestUpload` | civiccast/app.py:2104-2140 | adds a staff row only, or refuses a taken id |
| `AssetStore.EphemeralAssetStore.Package` | civiccast/app.py:1946-1970 | changes the manifest only |
| `AssetStore.EphemeralAssetStore.Publish` | civiccast/app.py:1972-1988 | publishes in both maps, anchors the first time, refuses what is not packaged |
| `AssetStore.EphemeralAssetStore.Unpublish` | civiccast/app.py:1990-2009 | clears both, and can be repeated |
| `AssetStore.EphemeralAssetStore.RelinkFile` | civiccast/app.py:2029-2057 | replaces the file and all that probing found, keeps the hash if none is given, raises the version |
| `AssetStore.EphemeralAssetStore.Update` | civiccast/app.py:2059-2102 | applies every field of the patch but its expected version, anchors a first retention term, raises the version |
| `AssetStore.RunAgrees` | civiccast/app.py:1905-2009 | over every run every public asset has a staff row and both agree on publication |
| `AssetStore.RunKeeps` | civiccast/app.py:1978-1983 | over every run rows stay, versions never fall, an anchor never moves |
| `AssetStore.OthersUntouched` | civiccast/app.py:1905-2140 | operations on other assets leave an asset alone in both maps |
| `AssetStore.VersionCountsEdits` | civiccast/app.py:2038-2102 | a version grows by exactly the accepted relinks and updates |
| `AssetStore.AnchorIsFirst` | civiccast/app.py:1972-2102 | an anchor is set by the first accepted publication or retention term, and by nothing else |
| `AssetStore.FieldsAreLast` | civiccast/app.py:1905-2140 | over every run each remaining field of a row, every patched detail included, holds what an accepted operation on it gave last |
| `AssetStore.RowsExactly` | civiccast/app.py:1905-2140 | from the empty store a row exists if and only if it was ever created or uploaded, and is public if and only if the first of these was a creation, whose title and manifest it keeps |
| `AssetStore.PublishableExactly` | civiccast/app.py:1972-1977 | a publication is accepted if and only if the manifest given last is not empty |
| `AssetStore.AcceptedExactly` | civiccast/app.py:1905-2140 | after any run from the empty store, which operation is accepted next |
| `AssetStore.PublishedWithoutAnchor` | civiccast/app.py:1905-1920 | a row created as published has no anchor |
| `AssetStore.LostUpdate` | civiccast/app.py:2059-2102 | two updates that both expect version 1 are both accepted, the second overwriting the first; the documented check would refuse it |
| `AssetStore.MatchesCheckedExactly` | civiccast/schedule/models.py:370-383 | from any store, a run ends as it would with the version check if and only if every accepted update carried the version current at that point |
| `AssetStore.InformedExactly` | civiccast/schedule/models.py:370-383 | that is, if and only if each carried the row's starting version, or 1, plus the edits accepted before it |
| `ScheduleStore.EphemeralScheduleStore.CreateItem` | civiccast/app.py:2150-2167 | schedules an existing asset, refuses a missing one |
| `ScheduleStore.EphemeralScheduleStore.CancelItem` | civiccast/app.py:2189-2198 | cancels a scheduled item, leaves a settled one, reports a missing one |
| `ScheduleStore.EphemeralScheduleStore.Publish` | civiccast/app.py:2200-2219 | returns exactly the drop in the number of scheduled items |
| `ScheduleStore.SettledStaysSettled` | civiccast/app.py:2189-2219 | over every run cancelled and published are final, and items keep their asset and title |
| `ScheduleStore.AssetsAlwaysExist` | civiccast/app.py:2150-2153 | over every run of both stores every item's asset exists |
| `ScheduleStore.PublishedExactly` | civiccast/app.py:2200-2219 | which items a call publishes; repeated, unknown and malformed keys add nothing |
| `ScheduleStore.FateIsSealed` | civiccast/app.py:2189-2219 | over every run of both stores a scheduled item is what the first operation naming it made of it |
| `ScheduleStore.CreatedItem` | civiccast/app.py:2150-2167 | an item created on an existing asset is there ever after, with the title the asset had; on a missing one nothing is created |
| `HealthHook.EasHealthHook.Notify` | civiccast/app.py:559-585 | the hook follows its specification poll by poll; writes are only added |
| `HealthHook.WritesAreChanges` | civiccast/app.py:559-567 | the writes about a source are exactly the changes in its own reports, starting from good health |
| `HealthHook.AlertsAlternate` | civiccast/app.py:552-556 | for every interleaving they alternate, first raised; the last tells the latest health; none while only healthy |
| `HealthHook.OthersDoNotMatter` | civiccast/app.py:559-567 | other sources' polls never affect them |
| `AnalyticsGuard.Guard` | civiccast/app.py:2539-2566 | exactly when it answers 400, answers 413, or hands over; the body handed is the chunks up to the message that ends the stream; never more than 16384 bytes are kept, and no less than what is handed |
| `AnalyticsGuard.EndsExactly` | civiccast/app.py:2552-2566 | a stream ends at the first message that is no request part or announces no more; only parts of bytes add to the body |
| `AnalyticsGuard.Replay.Receive` | civiccast/app.py:2567-2579 | the body once, then empty bodies |
| `AnalyticsGuard.ReplayIsFaithful` | civiccast/app.py:2567-2582 | a replay is a complete request with the body that was kept |
| `AnalyticsGuard.Relay` | civiccast/app.py:2539-2582 | a handler that reads any number of messages through the middleware joins exactly what was sent up to the message that ended it |
| `LineIndex.BuildStarts` | scripts/audit_docs.py:128-131 | the table holds every line's start and the end of the text |
| `LineIndex.LineOf` | scripts/audit_docs.py:133-141 | ends, with the line the position lies on, as a linear scan counts it; and what it gives beyond the end |
| `LineIndex.LinesAreLines` | scripts/audit_docs.py:130-131 | each line ends at a line break and has none before it; a carriage return and its newline are one break |
| `LineIndex.BreaksExactly` | scripts/audit_docs.py:130-131 | the ten line boundaries of `str.splitlines` |

## Left out

- Routing, dependency overrides, portals and OpenAPI generation: plumbing over other modules.
- Real threads, timing and databases; a worker that does not stop within its timeout counts as stopped.
- Several lifespans in one process, and requests served before the lifespan starts.
- Python's time-zone rule behind the last transition of a zone, and zones whose local transition lists are not sorted.
- Unpacking of source archives.
- SHA-256, ZIP and DEFLATE, and UTF-8: digests are functions, archives are lists of members, file contents are text.
- The bundle marker patch, which replaces the one occurrence of a fixed marker in the binary, and uninstaller signing, which puts one line in front of the NSIS script.
- Artifact download, which verifies a partial file before renaming it into the cache, and the RECORD cleaners, which delete installer metadata together with its rows.
- Read-only listings of the stores.
- ScheduleStore.SettledStaysSettled: asks that new ids are fresh, as random UUIDs are taken to be.
- ScheduleStore.FateIsSealed: asks the same.
- ScheduleStore.CreatedItem: asks the same.
- AssetStore.EphemeralAssetStore.Update: the retention date and policy computed from a term are left out, and the remaining patch fields are one map; whether the patched row is well-formed is a given.
- ControlPlane.App.MaybeStartBackgroundSupervisors: the caption prewarm call is left out; it changes none of the state modelled.
- ControlPlane.App.ExitLifespan: the YouTube, egress, guest and recording drains are left out; they end work this model does not start.
- DerivedTree.Disk.CopySource: a symbolic link in the derived tree, which is refused, cannot be expressed.
- DerivedTree.Disk.Vendor: the digests it returns for its report are left out.
- PayloadManifest.BuildIndex: rows come split and normalised, and names canonical.
