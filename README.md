# AdAway hosts installation, modelled in Dafny

AdAway blocks ads by rewriting the device's hosts file. `HostsInstallModel` is the root-based
installer, and it does two jobs:

- **Generation.** It writes a hosts file in the app's private storage. The file has a comment
  header with a timestamp and the enabled source URLs, then the loopback entries, then one
  entry per blocked host that no allow-list pattern matches (two entries when IPv6 is
  enabled), then the redirects.
- **Installation.** It copies that file as root to the install target. If the target is not
  writable, it remounts the partition read-write around the copy and restores read-only
  afterwards. It then checks the target with `readlink`, and stamps the enabled sources as
  installed. It can also revert to a loopback-only file, link the system hosts file to a
  custom target, and probe whether the installed file is AdAway's.

The model has six modules.

- `Text`: the line discipline of `BufferedWriter`/`BufferedReader` (`Render`, `LinesOf`, `FirstLine`),
  `File.getParent` (`ParentPath`) and small string predicates.
- `Wildcard`: allow-list patterns, where `*` matches any run of characters and a pattern *finds* a host
  when it matches some part of it (an unanchored `Matcher.find`).
- `AllowFilter`: `computeBlockedHosts` as an order-preserving filter.
- `HostsFile`: the generated file as a sequence of lines, with lemmas for its layout.
- `InstallSteps`: the specification of copy, apply, revert, link and probe. Each is a pure
  function from a `Device` and a `World` to a `Step`:
  - `Device` holds the files, the symbolic links, the mount modes and a log of the privileged
    actions issued, in order.
  - `World` holds the answers the device gives: whether the target is writable, the free space,
    whether each remount succeeds, and the results of the shell batches and `readlink`.
- `HostsInstall`: the class `HostsInstallModel`. Its fields are the sources table, the private
  files, the device state, the status and the applied flag. Its methods follow the Java method by
  method (loops over a `HostsWriter`, early returns, the `finally` remount), and each one is proved
  equal to a function of `HostsFile`, `InstallSteps` or the sources table.

All source paths below are relative to the repository root. The core file is
`app/src/main/java/org/adaway/model/hostsinstall/HostsInstallModel.java`.

## Model

| member | source | states |
|---|---|---|
| Text.ParentPath | app/src/main/java/org/adaway/model/hostsinstall/HostsInstallModel.java:365 | the parent of a target is everything before its last '/' ("/" when that is the first character); there is none exactly when the path has no '/' or is "/" itself |
| Text.FirstLineOfRender | app/src/main/java/org/adaway/model/hostsinstall/HostsInstallModel.java:160-161 | reading the first line of a written file gives back the first line written, when that line holds no line break |
| Wildcard.FindsLiteral | app/src/main/java/org/adaway/model/hostsinstall/HostsInstallModel.java:291-299 | a pattern without '*' finds a match in a host iff it occurs somewhere in it (find, not a full match) |
| Wildcard.FindsInPart | app/src/main/java/org/adaway/model/hostsinstall/HostsInstallModel.java:296-299 | a match found in part of a host is a match in the host |
| Wildcard.NotFoundInShortHost | app/src/main/java/org/adaway/model/hostsinstall/HostsInstallModel.java:296-299 | no pattern finds a match in a host shorter than its literal characters |
| Wildcard.StarredFindsContaining | app/src/main/java/org/adaway/model/hostsinstall/HostsInstallModel.java:291-299 | a pattern "*w*" finds a match in every host that contains w |
| AllowFilter.ComputeBlockedHosts | app/src/main/java/org/adaway/model/hostsinstall/HostsInstallModel.java:278-300 | a host is kept iff it is blocked and no allowed pattern finds a match in it; the result is never longer than the blocked list |
| AllowFilter.ComputeBlockedHostsAppend | app/src/main/java/org/adaway/model/hostsinstall/HostsInstallModel.java:281-284 | filtering distributes over concatenation, so kept hosts stay in their original order |
| AllowFilter.ComputeBlockedHostsCount | app/src/main/java/org/adaway/model/hostsinstall/HostsInstallModel.java:281-284 | a kept host keeps every one of its duplicates, and an excluded host keeps none |
| AllowFilter.EmptyAllowListKeepsAll | app/src/main/java/org/adaway/model/hostsinstall/HostsInstallModel.java:287-300 | with no allowed patterns, the blocked list comes back unchanged |
| AllowFilter.ExampleAllowList | app/src/main/java/org/adaway/model/hostsinstall/HostsInstallModel.java:278-300 | "*example*" excludes ads.example.com and keeps a.com |
| HostsFile.SourceLinesAt | app/src/main/java/org/adaway/model/hostsinstall/HostsInstallModel.java:240-243 | the k-th enabled source gives the comment "# - url" at line 2k, followed by an empty line |
| HostsFile.BlockedLinesAt | app/src/main/java/org/adaway/model/hostsinstall/HostsInstallModel.java:262-269 | with IPv6, the k-th kept host gives its IPv4 entry immediately followed by its IPv6 entry; without IPv6, line k is its IPv4 entry and there is no IPv6 line |
| HostsFile.RedirectLinesAt | app/src/main/java/org/adaway/model/hostsinstall/HostsInstallModel.java:271-275 | the k-th redirect is written verbatim as "host redirection" |
| HostsFile.EntryDeterminesHost | app/src/main/java/org/adaway/model/hostsinstall/HostsInstallModel.java:263 | two entries for the same address are equal iff their hosts are |
| HostsFile.BlockedEntryIff | app/src/main/java/org/adaway/model/hostsinstall/HostsInstallModel.java:262-269 | without IPv6, a host has an entry among the blocked lines iff it is in the list |
| HostsFile.AllowFilterOnEntries | app/src/main/java/org/adaway/model/hostsinstall/HostsInstallModel.java:261-269 | with IPv6 disabled, a blocked host gets an entry among the blocked lines iff no allowed pattern finds a match in it |
| HostsFile.AllowFilterOnEntriesIpv6 | app/src/main/java/org/adaway/model/hostsinstall/HostsInstallModel.java:261-269 | with IPv6 enabled, a blocked host gets its IPv4 and IPv6 entry pair at some position of the blocked lines iff no allowed pattern finds a match in it |
| HostsFile.RenderHostsFileLines | app/src/main/java/org/adaway/model/hostsinstall/HostsInstallModel.java:217-220 | the file's text is the header's text, then the loopback entries', then the blocked entries', then the redirects' |
| HostsFile.HostsFileLayout | app/src/main/java/org/adaway/model/hostsinstall/HostsInstallModel.java:226-276 | the lines in order are: HEADER1 directly followed by the date, HEADER2, HEADER_SOURCES, the source comments, an empty line, the two loopback entries, the blocked entries and the redirects, which come last and are not filtered |
| HostsFile.OnlyTimestampDiffers | app/src/main/java/org/adaway/model/hostsinstall/HostsInstallModel.java:226-234 | two files generated from the same rules differ only in their first line |
| HostsFile.HeaderIsSingleLine | app/src/main/java/org/adaway/model/hostsinstall/HostsInstallModel.java:71 | HEADER1 is one comment line |
| HostsFile.DefaultHostsTextIsLoopback | app/src/main/java/org/adaway/model/hostsinstall/HostsInstallModel.java:310-311 | the revert content is exactly the two loopback entries, each ended by a line separator |
| HostsFile.ExampleEntries | app/src/main/java/org/adaway/model/hostsinstall/HostsInstallModel.java:255-300 | with "*example*" allowed and IPv6 off, the only blocked entry is "127.0.0.1 a.com" |
| InstallSteps.CopyChecks | app/src/main/java/org/adaway/model/hostsinstall/HostsInstallModel.java:354-376 | the checks pass iff the target has no trailing '/', a custom target's parent exists or is created, and there is room; the only action they take is the directory creation |
| InstallSteps.CopyCommandsStep | app/src/main/java/org/adaway/model/hostsinstall/HostsInstallModel.java:380-401 | the try block issues the read-write remount when the target is not writable, then the deletion and the copy batch once it is writable |
| InstallSteps.CopyStep | app/src/main/java/org/adaway/model/hostsinstall/HostsInstallModel.java:345-409 | copyHostsFile only appends to the action log |
| InstallSteps.CopyRejectsTrailingSlash | app/src/main/java/org/adaway/model/hostsinstall/HostsInstallModel.java:354-357 | a target ending in '/' fails with IllegalArgumentException and nothing is done |
| InstallSteps.CopySpaceCheck | app/src/main/java/org/adaway/model/hostsinstall/HostsInstallModel.java:371-376 | NOT_ENOUGH_SPACE is raised iff the free space is neither 0 nor strictly larger than the file (the comparison of `hasEnoughSpaceOnPartition`, lines 464-467); if so, no remount, deletion or shell command has run |
| InstallSteps.CopyMissingDirectories | app/src/main/java/org/adaway/model/hostsinstall/HostsInstallModel.java:359-369 | a custom target whose parent is missing and cannot be created fails with CommandException after the attempt, and nothing else is done |
| InstallSteps.CopyActions | app/src/main/java/org/adaway/model/hostsinstall/HostsInstallModel.java:345-409 | the actions copyHostsFile appends to the log, in order, for every combination of answers |
| InstallSteps.CopyActionsAppended | app/src/main/java/org/adaway/model/hostsinstall/HostsInstallModel.java:345-409 | copyHostsFile appends exactly those actions to the device log, whether the checks pass or not |
| InstallSteps.CopyActionsRemount | app/src/main/java/org/adaway/model/hostsinstall/HostsInstallModel.java:379-408 | the read-write remount and the read-only restore are each issued iff the checks pass and the target is not writable |
| InstallSteps.CopyActionsWrite | app/src/main/java/org/adaway/model/hostsinstall/HostsInstallModel.java:389-398 | the deletion is issued iff the target is the system hosts file and is writable, and the copy batch iff the target is writable |
| InstallSteps.CopyRemountDiscipline | app/src/main/java/org/adaway/model/hostsinstall/HostsInstallModel.java:379-408 | during copyHostsFile, the read-write remount and the read-only restore happen iff the checks pass and the target was not writable, even when the read-write remount failed |
| InstallSteps.CopyRestoresReadOnlyLast | app/src/main/java/org/adaway/model/hostsinstall/HostsInstallModel.java:402-408 | when the target was not writable, the read-only restore is the last action on every exit path |
| InstallSteps.CopyWritableKeepsMounts | app/src/main/java/org/adaway/model/hostsinstall/HostsInstallModel.java:379-387 | a writable target is copied without changing any mount |
| InstallSteps.CopyDeletesOnlySystemHosts | app/src/main/java/org/adaway/model/hostsinstall/HostsInstallModel.java:389-398 | during copyHostsFile the old target is deleted iff it is the system hosts file and is writable, and the copy batch runs iff the target is writable |
| InstallSteps.CopyOutcome | app/src/main/java/org/adaway/model/hostsinstall/HostsInstallModel.java:379-401 | the copy succeeds iff the checks pass, the target is or becomes writable and the batch succeeds; the target then holds the content; every failure after the checks is a CommandException |
| InstallSteps.ApplySymlinkMissingFirst | app/src/main/java/org/adaway/model/hostsinstall/HostsInstallModel.java:104-108 | when a link is required, apply fails with SYMLINK_MISSING before anything is generated or copied |
| InstallSteps.ApplyErrorMapping | app/src/main/java/org/adaway/model/hostsinstall/HostsInstallModel.java:109-114 | a CommandException from the copy becomes COPY_FAIL and NOT_ENOUGH_SPACE passes through; after a successful copy, apply succeeds iff readlink confirms the target, and fails with APPLY_FAIL otherwise |
| InstallSteps.ApplyPassIsVerified | app/src/main/java/org/adaway/model/hostsinstall/HostsInstallModel.java:109-117 | apply succeeds only after a successful copy and a confirming readlink; the target then holds the content and the readlink was the last action |
| InstallSteps.RevertResult | app/src/main/java/org/adaway/model/hostsinstall/HostsInstallModel.java:306-320 | a successful revert leaves exactly the two loopback lines in the target; every failure is REVERT_FAIL |
| InstallSteps.SymlinkRemountDiscipline | app/src/main/java/org/adaway/model/hostsinstall/HostsInstallModel.java:416-436 | if the read-write remount fails, nothing else is done and the result is false; otherwise the batch runs, the read-only remount follows, and the result is the batch's success; on success the system hosts file links to the target |
| InstallSteps.ProbeMissingOrUnreadable | app/src/main/java/org/adaway/model/hostsinstall/HostsInstallModel.java:159-172 | a missing target, or an existing one whose opening throws FileNotFoundException, counts as applied; one that is opened but cannot be read counts as not applied |
| InstallSteps.GeneratedFileRejectedAsWritten | app/src/main/java/org/adaway/model/hostsinstall/HostsInstallModel.java:161-165 | with the probe as written, a generated file with a non-empty timestamp is reported as not applied |
| InstallSteps.GeneratedFileRecognised | app/src/main/java/org/adaway/model/hostsinstall/HostsInstallModel.java:161-165 | the corrected probe reports every readable generated file as applied, whatever its timestamp |
| InstallSteps.RevertedFileNotRecognised | app/src/main/java/org/adaway/model/hostsinstall/HostsInstallModel.java:165 | both probes report the loopback-only file as not applied |
| InstallSteps.ApplyThenProbe | app/src/main/java/org/adaway/model/hostsinstall/HostsInstallModel.java:104-117 | after a successful apply, the corrected probe reports the target as applied |
| InstallSteps.ApplyThenProbeAsWritten | app/src/main/java/org/adaway/model/hostsinstall/HostsInstallModel.java:165 | after a successful apply, the probe as written reports the target as not applied |
| InstallSteps.RevertThenProbe | app/src/main/java/org/adaway/model/hostsinstall/HostsInstallModel.java:124-137 | after a successful revert, the probe reports the target as not applied |
| HostsInstall.EnabledUrls | app/src/main/java/org/adaway/model/hostsinstall/HostsInstallModel.java:240 | a URL is listed iff some enabled source has it |
| HostsInstall.MarkInstalled | app/src/main/java/org/adaway/model/hostsinstall/HostsInstallModel.java:325-330 | every enabled source is stamped with now; other sources, URLs and flags are unchanged |
| HostsInstall.ClearInstalled | app/src/main/java/org/adaway/model/hostsinstall/HostsInstallModel.java:335-339 | no source keeps an installation date; URLs and flags are unchanged |
| HostsInstall.MarkInstalledKeepsEnabledUrls | app/src/main/java/org/adaway/model/hostsinstall/HostsInstallModel.java:325-330 | stamping does not change which sources are enabled |
| HostsInstall.ReapplyOnlyTimestampDiffers | app/src/main/java/org/adaway/model/hostsinstall/HostsInstallModel.java:104-117 | after two successful applies with the same rules, the second one made after stamping the sources, the target holds each generated file, and the two differ only in their first line, the timestamp |
| HostsInstall.ClearUndoesMark | app/src/main/java/org/adaway/model/hostsinstall/HostsInstallModel.java:325-339 | clearing after stamping leaves the same sources as clearing alone |
| HostsInstall.HostsInstallModel.constructor | app/src/main/java/org/adaway/model/hostsinstall/HostsInstallModel.java:88-96 | the model starts from the given tables, preferences and device, with nothing published |
| HostsInstall.HostsInstallModel.WriteHostsHeader | app/src/main/java/org/adaway/model/hostsinstall/HostsInstallModel.java:226-246 | the writer gains exactly the header lines: HEADER1 and the date, HEADER2, HEADER_SOURCES, the source comments and an empty line |
| HostsInstall.HostsInstallModel.WriteSourceComments | app/src/main/java/org/adaway/model/hostsinstall/HostsInstallModel.java:240-243 | the writer gains each source comment followed by an empty line, in order |
| HostsInstall.HostsInstallModel.WriteLoopbackToHosts | app/src/main/java/org/adaway/model/hostsinstall/HostsInstallModel.java:248-253 | the writer gains the IPv4 and then the IPv6 loopback entry |
| HostsInstall.HostsInstallModel.WriteHosts | app/src/main/java/org/adaway/model/hostsinstall/HostsInstallModel.java:255-276 | the writer gains the entries of the filtered blocked hosts, then the redirect lines |
| HostsInstall.HostsInstallModel.WriteBlockedHosts | app/src/main/java/org/adaway/model/hostsinstall/HostsInstallModel.java:262-269 | the writer gains each host's entries in order |
| HostsInstall.HostsInstallModel.WriteRedirectedHosts | app/src/main/java/org/adaway/model/hostsinstall/HostsInstallModel.java:271-275 | the writer gains each redirect line in order |
| HostsInstall.HostsInstallModel.CreateNewHostsFile | app/src/main/java/org/adaway/model/hostsinstall/HostsInstallModel.java:215-224 | the private hosts file holds the generated text, or is gone with PRIVATE_FILE_FAIL when writing fails; the device is untouched |
| HostsInstall.HostsInstallModel.RemountPartition | app/src/main/java/org/adaway/model/hostsinstall/HostsInstallModel.java:384-386 | the remount is logged, and the mode changes only when it succeeds |
| HostsInstall.HostsInstallModel.CopyHostsFile | app/src/main/java/org/adaway/model/hostsinstall/HostsInstallModel.java:345-409 | the outcome and the new device state are those CopyStep specifies for the private file's content |
| HostsInstall.HostsInstallModel.ExecuteCopyCommands | app/src/main/java/org/adaway/model/hostsinstall/HostsInstallModel.java:380-401 | the outcome and the new device state are those CopyCommandsStep specifies |
| HostsInstall.HostsInstallModel.CopyNewHostsFile | app/src/main/java/org/adaway/model/hostsinstall/HostsInstallModel.java:202-208 | the copy's CommandException becomes COPY_FAIL; the device is as the copy leaves it |
| HostsInstall.HostsInstallModel.IsSymlinkCorrect | app/src/main/java/org/adaway/model/hostsinstall/HostsInstallModel.java:441-455 | true iff readlink succeeded, printed something, and its first line is the target; the readlink batch is logged |
| HostsInstall.HostsInstallModel.MarkHostsSourcesAsInstalled | app/src/main/java/org/adaway/model/hostsinstall/HostsInstallModel.java:325-330 | the sources are stamped with now, and nothing else changes |
| HostsInstall.HostsInstallModel.MarkHostsSourcesAsUninstalled | app/src/main/java/org/adaway/model/hostsinstall/HostsInstallModel.java:335-339 | every installation date is cleared, and nothing else changes |
| HostsInstall.HostsInstallModel.Apply | app/src/main/java/org/adaway/model/hostsinstall/HostsInstallModel.java:103-117 | the outcome and device are ApplyStep's for the generated text; sources are stamped iff the outcome is success; the private file and the status follow each exit path |
| HostsInstall.HostsInstallModel.RevertHostFile | app/src/main/java/org/adaway/model/hostsinstall/HostsInstallModel.java:306-320 | succeeds iff RevertStep does, leaving its device; the private default file is deleted after a successful copy and left behind after a failed one |
| HostsInstall.HostsInstallModel.Revert | app/src/main/java/org/adaway/model/hostsinstall/HostsInstallModel.java:124-137 | the outcome and device are RevertStep's; on success the dates are cleared and the status is disabled; on failure no date is cleared and the status is the revert problem; the private default file is deleted after a successful copy and left behind when the copy fails |
| HostsInstall.HostsInstallModel.CreateSymlinkTo | app/src/main/java/org/adaway/model/hostsinstall/HostsInstallModel.java:416-436 | the result and device are SymlinkStep's |
| HostsInstall.HostsInstallModel.CreateSymlink | app/src/main/java/org/adaway/model/hostsinstall/HostsInstallModel.java:144-150 | links the system hosts file to the install target; a failure is SYMLINK_MISSING |
| HostsInstall.HostsInstallModel.CheckApplied | app/src/main/java/org/adaway/model/hostsinstall/HostsInstallModel.java:152-175 | publishes the verdict of the probe as written (first line equal to HEADER1, with both exception paths) on the target, and nothing else changes |
| HostsInstall.HostsInstallModel.CheckAppliedCorrected | app/src/main/java/org/adaway/model/hostsinstall/HostsInstallModel.java:152-175 | publishes the verdict of the corrected probe (first line starting with HEADER1), and nothing else changes |
| HostsInstall.HostsInstallModel.ReadFirstLine | app/src/main/java/org/adaway/model/hostsinstall/HostsInstallModel.java:159-172 | opening the target gives NotFound iff there is no file or it cannot be opened, Unreadable iff it is opened but reading fails, and otherwise its first line |

## Left out

- The clock: the formatted date of `writeHostsHeader` and the `Date` of `markHostsSourcesAsInstalled` are parameters of `Apply`.
- Real I/O. File writes, the root shell, `SuFile` and remounts are answers in a `World` record and effects on a `Device` value. The `Device` value holds the files, the links, the mount modes and an action log.
- Byte counts: `File.length()` of the private file is taken as the number of characters in its content.
- The values of `org.adaway.util.Constants` (the system hosts path, the loopback addresses and name, the command prefixes, the file names, `"\n"` as line separator) are AdAway's usual values. That file is not part of this model.
- `HostsInstallLocation`, `PreferenceHelper`, `AppDatabase` and the DAOs are not part of this model. The install target, the `requireSymlink` flag, the preferences and the table rows are plain values of the model.
- `RegexUtils.wildcardToRegex` is not part of this model. A pattern is taken to be literal except for `*`, which matches any run of characters.
- `setStateAndDetails` is reduced to a `Status` value, and the `applied` LiveData to an `Option<bool>` field. Logging is left out.
- The constructor does not start `checkApplied` on a background executor. That probe is the separate method `CheckApplied`.
- Concurrency is left out: the background executor and the parallel streams, which affect only performance.
- HostsInstall.HostsInstallModel.CreateNewHostsFile: a write that fails part-way leaves no private file in the model. A real partial file is not modelled.
- HostsInstall.HostsInstallModel.RevertHostFile: a failed write of the default file leaves the private files unchanged.
- `SuFile.delete()` of the system hosts file is taken to succeed. Its result is ignored in the source.
- InstallSteps.ReadFile follows at most one symbolic link. Paths are compared as given, without normalisation.
- HostsInstall.HostsInstallModel.CheckApplied: the reasons an existing file cannot be opened or read (permissions, I/O errors) are not modelled; they are the `openFails` and `readFails` parameters. `CheckAppliedCorrected` is the same probe with the comparison of the Findings table corrected.

## Findings

| source | as written | input that shows it | evidently intended | confidence | as-written member | corrected member |
|---|---|---|---|---|---|---|
| app/src/main/java/org/adaway/model/hostsinstall/HostsInstallModel.java:165 | `checkApplied` requires the target's first line to equal HEADER1 exactly. But `writeHostsHeader` (lines 232-233) writes HEADER1 directly followed by the date on that line. | Any successful apply with a date such as "2024-01-01 00:00:00". The first line is then HEADER1 followed by the date, so the installed file is reported as not applied. | The first line starts with HEADER1. | high; not executed | InstallSteps.ApplyThenProbeAsWritten | InstallSteps.ApplyThenProbe |
