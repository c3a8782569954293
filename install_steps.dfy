/** What installing, reverting and linking the hosts file do to the device, as functions of the
    device's state and of the answers the device gives along the way. */
module InstallSteps {
  import opened Text
  import opened HostsFile

  const ANDROID_SYSTEM_ETC_HOSTS: string := "/system/etc/hosts"
  const HOSTS_FILENAME: string := "hosts"
  const DEFAULT_HOSTS_FILENAME: string := "default_hosts"
  const COMMAND_CHOWN: string := "chown 0:0"
  const COMMAND_CHMOD_644: string := "chmod 644"
  const COMMAND_RM: string := "rm -f"
  const COMMAND_LN: string := "ln -s"
  const COMMAND_CHCON_SYSTEMFILE: string := "chcon u:object_r:system_file:s0"

  /** The configured install location: the target path, and whether the system hosts file
      must be a symbolic link to it. */
  datatype InstallLocation = InstallLocation(target: string, requireSymlink: bool)

  datatype MountMode = ReadOnly | ReadWrite

  /** The error kinds a HostErrorException carries. */
  datatype HostError = SymlinkMissing | PrivateFileFail | NotEnoughSpace | CopyFail | ApplyFail | RevertFail

  /** Why a CommandException was raised. */
  datatype CommandFailure = DirectoriesNotCreated(dir: string) | RemountFailed | CopyFailed(err: seq<string>)

  /** The exceptions that leave the operations. */
  datatype Failure =
    | HostErrorException(error: HostError)
    | CommandException(reason: CommandFailure)
    | IllegalArgumentException   // the target ends with '/'
    | NullPointerException       // the target has no parent directory

  datatype Outcome = Pass | Fail(failure: Failure)

  /** What a root shell batch reports: success of every command, standard output and error lines. */
  datatype ShellResult = ShellResult(success: bool, out: seq<string>, err: seq<string>)

  /** The answers the device gives during one operation. */
  datatype World = World(
    privateWriteOk: bool,     // writing the file in the app's private storage succeeds
    parentIsDirectory: bool,  // the target's parent directory exists
    mkdirsOk: bool,           // creating the missing parent directories succeeds
    freeSpace: int,           // free space reported for the target's partition (0: unknown)
    canWrite: bool,           // the target is writable as currently mounted
    remountRwOk: bool,        // remounting read-write succeeds
    remountRoOk: bool,        // remounting read-only succeeds
    batch: ShellResult,       // result of the copy batch, or of the symbolic link batch
    readlink: ShellResult)    // result of the readlink batch

  /** A privileged action on the device, in the order it is issued. */
  datatype Effect =
    | MakeDirs(dir: string)
    | Remount(path: string, mode: MountMode)
    | Delete(path: string)
    | Su(commands: seq<string>)

  /** The device: file contents and symbolic links by path, the mount mode of the partition
      holding each remounted path, and the log of privileged actions. */
  datatype Device = Device(files: map<string, string>, links: map<string, string>,
                           mounts: map<string, MountMode>, log: seq<Effect>)

  datatype Step = Step(outcome: Outcome, device: Device)

  function Remounted(d: Device, path: string, mode: MountMode, ok: bool): Device {
    d.(mounts := if ok then d.mounts[path := mode] else d.mounts, log := d.log + [Remount(path, mode)])
  }

  function Ran(d: Device, commands: seq<string>): Device {
    d.(log := d.log + [Su(commands)])
  }

  function CopyCommands(privateFile: string, target: string): seq<string> {
    ["dd if=" + privateFile + " of=" + target,
     COMMAND_CHOWN + " " + target,
     COMMAND_CHMOD_644 + " " + target]
  }

  function SymlinkCommands(target: string): seq<string> {
    [COMMAND_RM + " " + ANDROID_SYSTEM_ETC_HOSTS,
     COMMAND_LN + " " + target + " " + ANDROID_SYSTEM_ETC_HOSTS,
     COMMAND_CHCON_SYSTEMFILE + " " + target,
     COMMAND_CHOWN + " " + target,
     COMMAND_CHMOD_644 + " " + target]
  }

  /** The link check resolves the target path itself. */
  function ReadlinkCommands(target: string): seq<string> {
    ["readlink -e " + target]
  }

  /** hasEnoughSpaceOnPartition: a free space of 0 is taken as unknown, otherwise it must
      strictly exceed the file size. */
  predicate HasEnoughSpaceOnPartition(freeSpace: int, size: int) {
    freeSpace == 0 || freeSpace > size
  }

  /** isSymlinkCorrect: the readlink batch succeeded and its first output line is the target. */
  predicate IsSymlinkCorrect(target: string, readlink: ShellResult) {
    readlink.success && |readlink.out| > 0 && readlink.out[0] == target
  }

  /** Whether copyHostsFile gets past its checks (path, directories, space) to the commands. */
  predicate CopyChecksPass(target: string, content: string, w: World) {
    && !EndsWith(target, "/")
    && (target != ANDROID_SYSTEM_ETC_HOSTS ==>
          ParentPath(target).Some? && (w.parentIsDirectory || w.mkdirsOk))
    && HasEnoughSpaceOnPartition(w.freeSpace, |content|)
  }

  /** The directory creation the checks attempt: only for a custom target with a parent that
      is not a directory yet. */
  function CheckActions(target: string, w: World): seq<Effect> {
    var parent := ParentPath(target);
    if !EndsWith(target, "/") && target != ANDROID_SYSTEM_ETC_HOSTS && parent.Some? && !w.parentIsDirectory
    then [MakeDirs(parent.value)] else []
  }

  /** The checks of copyHostsFile: the target must not end with '/', a custom target's parent
      directory must exist or be created, and the partition must have room for the content. */
  function CopyChecks(d: Device, target: string, content: string, w: World): (s: Step)
    ensures s.outcome.Pass? <==> CopyChecksPass(target, content, w)
    ensures s.device == d.(log := d.log + CheckActions(target, w))
  {
    if EndsWith(target, "/") then Step(Fail(IllegalArgumentException), d)
    else
      var custom := target != ANDROID_SYSTEM_ETC_HOSTS;
      var parent := ParentPath(target);
      if custom && parent.None? then Step(Fail(NullPointerException), d)
      else
        var d1 := if custom && !w.parentIsDirectory then d.(log := d.log + [MakeDirs(parent.value)]) else d;
        if custom && !w.parentIsDirectory && !w.mkdirsOk then
          Step(Fail(CommandException(DirectoriesNotCreated(parent.value))), d1)
        else if !HasEnoughSpaceOnPartition(w.freeSpace, |content|) then
          Step(Fail(HostErrorException(NotEnoughSpace)), d1)
        else Step(Pass, d1)
  }

  /** The actions of the try block: the read-write remount when the target is not writable, then,
      once the target is writable, the deletion of the system hosts file and the copy batch. */
  function CommandActions(target: string, privateFile: string, w: World): seq<Effect> {
    var writable := w.canWrite || w.remountRwOk;
    (if w.canWrite then [] else [Remount(target, ReadWrite)])
    + (if writable && target == ANDROID_SYSTEM_ETC_HOSTS then [Delete(target)] else [])
    + (if writable then [Su(CopyCommands(privateFile, target))] else [])
  }

  /** The try block of copyHostsFile: remount read-write when the target is not writable
      (giving up when that fails), delete the system hosts file, then run the copy batch. */
  function CopyCommandsStep(d: Device, target: string, privateFile: string, content: string, w: World): (s: Step)
    ensures s.device.log == d.log + CommandActions(target, privateFile, w)
  {
    var d2 := if w.canWrite then d else Remounted(d, target, ReadWrite, w.remountRwOk);
    if !w.canWrite && !w.remountRwOk then Step(Fail(CommandException(RemountFailed)), d2)
    else
      var d3 := if target != ANDROID_SYSTEM_ETC_HOSTS then d2
                else d2.(files := d2.files - {target}, links := d2.links - {target},
                         log := d2.log + [Delete(target)]);
      var d4 := Ran(d3, CopyCommands(privateFile, target));
      if w.batch.success then Step(Pass, d4.(files := d4.files[target := content]))
      else Step(Fail(CommandException(CopyFailed(w.batch.err))), d4)
  }

  /** copyHostsFile: copy the private file holding content to the target, remounting the
      target's partition read-write around the copy when the target is not writable. */
  function CopyStep(d: Device, target: string, privateFile: string, content: string, w: World): (s: Step)
    ensures |d.log| <= |s.device.log| && s.device.log[..|d.log|] == d.log
  {
    var checks := CopyChecks(d, target, content, w);
    if checks.outcome.Fail? then checks
    else
      var body := CopyCommandsStep(checks.device, target, privateFile, content, w);
      // finally: restore read-only whenever the target was not writable
      if w.canWrite then body
      else Step(body.outcome, Remounted(body.device, target, ReadOnly, w.remountRoOk))
  }

  /** copyNewHostsFile: a CommandException from the copy becomes COPY_FAIL. */
  function CopyNewHostsFileOutcome(o: Outcome): Outcome {
    if o.Fail? && o.failure.CommandException? then Fail(HostErrorException(CopyFail)) else o
  }

  /** apply: check the symbolic link requirement, write the generated content to the private
      file, copy it to the target and check the target with readlink. */
  function ApplyStep(d: Device, location: InstallLocation, privateFile: string, content: string, w: World): Step {
    if location.requireSymlink then Step(Fail(HostErrorException(SymlinkMissing)), d)
    else if !w.privateWriteOk then Step(Fail(HostErrorException(PrivateFileFail)), d)
    else
      var copy := CopyStep(d, location.target, privateFile, content, w);
      if copy.outcome.Fail? then Step(CopyNewHostsFileOutcome(copy.outcome), copy.device)
      else
        var checked := Ran(copy.device, ReadlinkCommands(location.target));
        Step(if IsSymlinkCorrect(location.target, w.readlink) then Pass else Fail(HostErrorException(ApplyFail)),
             checked)
  }

  /** revert: write the loopback-only file privately and copy it to the target; any exception
      on the way becomes REVERT_FAIL. */
  function RevertStep(d: Device, target: string, privateFile: string, w: World): Step {
    if !w.privateWriteOk then Step(Fail(HostErrorException(RevertFail)), d)
    else
      var copy := CopyStep(d, target, privateFile, DefaultHostsText(), w);
      Step(if copy.outcome.Pass? then Pass else Fail(HostErrorException(RevertFail)), copy.device)
  }

  /** createSymlink: remount the system partition read-write (giving up when that fails),
      replace the system hosts file by a link to target, and remount read-only. */
  function SymlinkStep(d: Device, target: string, w: World): Step {
    var d1 := Remounted(d, ANDROID_SYSTEM_ETC_HOSTS, ReadWrite, w.remountRwOk);
    if !w.remountRwOk then Step(Fail(HostErrorException(SymlinkMissing)), d1)
    else
      var d2 := Ran(d1, SymlinkCommands(target));
      var d3 := if w.batch.success
                then d2.(files := d2.files - {ANDROID_SYSTEM_ETC_HOSTS},
                         links := d2.links[ANDROID_SYSTEM_ETC_HOSTS := target])
                else d2;
      Step(if w.batch.success then Pass else Fail(HostErrorException(SymlinkMissing)),
           Remounted(d3, ANDROID_SYSTEM_ETC_HOSTS, ReadOnly, w.remountRoOk))
  }

  /** checkApplied as written. Opening the target throws FileNotFoundException when there is no
      file, and also when an existing file cannot be opened (openFails); both count as applied.
      Any other failure while reading (readFails) counts as not applied, and so does an empty
      file, whose null first line makes equals throw. Otherwise the first line must equal HEADER1. */
  function ProbeAsWritten(file: Option<string>, openFails: bool, readFails: bool): bool {
    match file
    case None => true
    case Some(text) =>
      openFails || (!readFails && FirstLine(text).Some? && FirstLine(text).value == HEADER1)
  }

  /** checkApplied as intended: the first line must start with HEADER1, which the generated
      file follows with its timestamp; the failure cases are those of the code as written. */
  function Probe(file: Option<string>, openFails: bool, readFails: bool): bool {
    match file
    case None => true
    case Some(text) =>
      openFails || (!readFails && FirstLine(text).Some? && StartsWith(FirstLine(text).value, HEADER1))
  }

  /** What opening a path for reading finds: the file itself, or the file a symbolic link at
      that path points to; None when there is nothing to read (FileNotFoundException). */
  function ReadFile(d: Device, path: string): Option<string> {
    if path in d.files then Some(d.files[path])
    else if path in d.links && d.links[path] in d.files then Some(d.files[d.links[path]])
    else None
  }

  // ---------------------------------------------------------------------------------------------
  // Copy

  /** A target ending in '/' is refused before anything is done. */
  lemma CopyRejectsTrailingSlash(d: Device, target: string, privateFile: string, content: string, w: World)
    requires EndsWith(target, "/")
    ensures CopyStep(d, target, privateFile, content, w) == Step(Fail(IllegalArgumentException), d)
  {
  }

  /** The space check passes iff the free space is unknown (0) or strictly larger than the file;
      when it fails, NOT_ENOUGH_SPACE is raised before any remount or shell command. */
  lemma CopySpaceCheck(d: Device, target: string, privateFile: string, content: string, w: World)
    requires !EndsWith(target, "/")
    requires target != ANDROID_SYSTEM_ETC_HOSTS ==> ParentPath(target).Some? && (w.parentIsDirectory || w.mkdirsOk)
    ensures var s := CopyStep(d, target, privateFile, content, w);
            && ((s.outcome == Fail(HostErrorException(NotEnoughSpace)))
                  <==> !(w.freeSpace == 0 || w.freeSpace > |content|))
            && (s.outcome == Fail(HostErrorException(NotEnoughSpace)) ==>
                  s.device.files == d.files && s.device.mounts == d.mounts &&
                  forall e | e in s.device.log[|d.log|..] :: e.MakeDirs?)
  {
  }

  /** For a custom target whose parent directory is missing and cannot be created, a
      CommandException is raised after the attempt and nothing else is done. */
  lemma CopyMissingDirectories(d: Device, target: string, privateFile: string, content: string, w: World)
    requires !EndsWith(target, "/") && target != ANDROID_SYSTEM_ETC_HOSTS && ParentPath(target).Some?
    requires !w.parentIsDirectory && !w.mkdirsOk
    ensures var s := CopyStep(d, target, privateFile, content, w);
            s.outcome == Fail(CommandException(DirectoriesNotCreated(ParentPath(target).value))) &&
            s.device == d.(log := d.log + [MakeDirs(ParentPath(target).value)])
  {
  }

  /** The privileged actions copyHostsFile issues, in order: the directory creation when a custom
      target's parent is missing; then, once the checks pass, the read-write remount when the
      target is not writable, the deletion of the system hosts file and the copy batch when the
      target is (made) writable, and the read-only restore when the target was not writable. */
  function CopyActionsOf(target: string, privateFile: string, content: string, w: World): seq<Effect> {
    CheckActions(target, w)
    + (if CopyChecksPass(target, content, w)
       then CommandActions(target, privateFile, w) + (if w.canWrite then [] else [Remount(target, ReadOnly)])
       else [])
  }

  /** copyHostsFile appends exactly CopyActionsOf to the log. */
  lemma CopyActions(d: Device, target: string, privateFile: string, content: string, w: World)
    ensures var log := CopyStep(d, target, privateFile, content, w).device.log;
            log == d.log + CopyActionsOf(target, privateFile, content, w)
            && log[|d.log|..] == CopyActionsOf(target, privateFile, content, w)
  {
    CopyActionsAppended(d, target, privateFile, content, w);
  }

  lemma CopyActionsAppended(d: Device, target: string, privateFile: string, content: string, w: World)
    ensures CopyStep(d, target, privateFile, content, w).device.log == d.log + CopyActionsOf(target, privateFile, content, w)
  {
    if CopyChecksPass(target, content, w) {
      CopyActionsAppendedOnPass(d, target, privateFile, content, w);
    } else {
      assert CopyActionsOf(target, privateFile, content, w) == CheckActions(target, w) + [];
    }
  }

  lemma CopyActionsAppendedOnPass(d: Device, target: string, privateFile: string, content: string, w: World)
    requires CopyChecksPass(target, content, w)
    ensures CopyStep(d, target, privateFile, content, w).device.log == d.log + CopyActionsOf(target, privateFile, content, w)
  {
    var checks := CopyChecks(d, target, content, w);
    var pre := CheckActions(target, w);
    var actions := CopyActionsOf(target, privateFile, content, w);
    var body := CopyCommandsStep(checks.device, target, privateFile, content, w);
    var cmds := CommandActions(target, privateFile, w);
    assert checks.outcome.Pass? && body.device.log == d.log + pre + cmds;
    var log := CopyStep(d, target, privateFile, content, w).device.log;
    if w.canWrite {
      assert log == body.device.log;
      assert actions == pre + cmds;
    } else {
      var ro := Remount(target, ReadOnly);
      assert log == body.device.log + [ro];
      assert actions == pre + cmds + [ro];
    }
  }

  /** The remounts copyHostsFile issues: the read-write remount and the read-only restore
      exactly when the checks pass and the target is not writable. */
  lemma CopyActionsRemount(target: string, privateFile: string, content: string, w: World)
    ensures var actions := CopyActionsOf(target, privateFile, content, w);
            && (Remount(target, ReadWrite) in actions <==> CopyChecksPass(target, content, w) && !w.canWrite)
            && (Remount(target, ReadOnly) in actions <==> CopyChecksPass(target, content, w) && !w.canWrite)
  {
    CopyActionsReadWrite(target, privateFile, content, w);
    CopyActionsReadOnly(target, privateFile, content, w);
  }

  lemma CopyActionsReadWrite(target: string, privateFile: string, content: string, w: World)
    ensures Remount(target, ReadWrite) in CopyActionsOf(target, privateFile, content, w)
        <==> CopyChecksPass(target, content, w) && !w.canWrite
  {
    var actions := CopyActionsOf(target, privateFile, content, w);
    var pre := CheckActions(target, w);
    var rw := Remount(target, ReadWrite);
    var writes := CommandActions(target, privateFile, w)[|if w.canWrite then [] else [rw]|..];
    assert rw !in pre;
    if !CopyChecksPass(target, content, w) {
      assert actions == pre;
    } else if w.canWrite {
      assert rw !in writes;
      assert actions == pre + writes;
    } else {
      assert actions[|pre|] == rw;
    }
  }

  lemma CopyActionsReadOnly(target: string, privateFile: string, content: string, w: World)
    ensures Remount(target, ReadOnly) in CopyActionsOf(target, privateFile, content, w)
        <==> CopyChecksPass(target, content, w) && !w.canWrite
  {
    var actions := CopyActionsOf(target, privateFile, content, w);
    var pre := CheckActions(target, w);
    var ro := Remount(target, ReadOnly);
    var cmds := CommandActions(target, privateFile, w);
    assert ro !in pre && ro !in cmds;
    if !CopyChecksPass(target, content, w) {
      assert actions == pre;
    } else if w.canWrite {
      assert actions == pre + cmds;
    } else {
      assert actions[|actions| - 1] == ro;
    }
  }

  /** The writes copyHostsFile issues: the deletion exactly for the system hosts file once the
      target is writable, and the copy batch exactly once the target is writable. */
  lemma CopyActionsWrite(target: string, privateFile: string, content: string, w: World)
    ensures var actions := CopyActionsOf(target, privateFile, content, w);
            var writable := CopyChecksPass(target, content, w) && (w.canWrite || w.remountRwOk);
            && (Delete(target) in actions <==> writable && target == ANDROID_SYSTEM_ETC_HOSTS)
            && (Su(CopyCommands(privateFile, target)) in actions <==> writable)
  {
    CopyActionsDelete(target, privateFile, content, w);
    CopyActionsBatch(target, privateFile, content, w);
  }

  lemma CopyActionsDelete(target: string, privateFile: string, content: string, w: World)
    ensures Delete(target) in CopyActionsOf(target, privateFile, content, w)
        <==> CopyChecksPass(target, content, w) && (w.canWrite || w.remountRwOk) && target == ANDROID_SYSTEM_ETC_HOSTS
  {
    var actions := CopyActionsOf(target, privateFile, content, w);
    var pre := CheckActions(target, w);
    var del := Delete(target);
    var mounts := (if w.canWrite then [] else [Remount(target, ReadWrite)]);
    var batch := [Su(CopyCommands(privateFile, target))];
    var restore := (if w.canWrite then [] else [Remount(target, ReadOnly)]);
    assert del !in pre && del !in mounts && del !in batch && del !in restore;
    if !CopyChecksPass(target, content, w) {
      assert actions == pre;
    } else if !w.canWrite && !w.remountRwOk {
      assert actions == pre + (mounts + restore);
    } else if target == ANDROID_SYSTEM_ETC_HOSTS {
      assert actions == pre + (mounts + [del] + batch + restore);
      assert del in actions by {
        assert actions[|pre| + |mounts|] == del;
      }
    } else {
      assert actions == pre + (mounts + batch + restore);
    }
  }

  lemma CopyActionsBatch(target: string, privateFile: string, content: string, w: World)
    ensures Su(CopyCommands(privateFile, target)) in CopyActionsOf(target, privateFile, content, w)
        <==> CopyChecksPass(target, content, w) && (w.canWrite || w.remountRwOk)
  {
    var actions := CopyActionsOf(target, privateFile, content, w);
    var pre := CheckActions(target, w);
    var su := Su(CopyCommands(privateFile, target));
    var mounts := (if w.canWrite then [] else [Remount(target, ReadWrite)]);
    var deletion := (if target == ANDROID_SYSTEM_ETC_HOSTS then [Delete(target)] else []);
    var restore := (if w.canWrite then [] else [Remount(target, ReadOnly)]);
    assert su !in pre && su !in mounts && su !in deletion && su !in restore;
    if !CopyChecksPass(target, content, w) {
      assert actions == pre;
    } else if !w.canWrite && !w.remountRwOk {
      assert actions == pre + (mounts + restore);
    } else {
      assert actions == pre + (mounts + deletion + [su] + restore);
      assert su in actions by {
        assert actions[|pre| + |mounts| + |deletion|] == su;
      }
    }
  }

  /** Remount discipline: the read-write remount and the read-only restore are both issued
      exactly when the checks pass and the target is not writable. */
  lemma CopyRemountDiscipline(d: Device, target: string, privateFile: string, content: string, w: World)
    ensures var added := CopyStep(d, target, privateFile, content, w).device.log[|d.log|..];
            && (Remount(target, ReadWrite) in added <==> CopyChecksPass(target, content, w) && !w.canWrite)
            && (Remount(target, ReadOnly) in added <==> CopyChecksPass(target, content, w) && !w.canWrite)
  {
    CopyActions(d, target, privateFile, content, w);
    CopyActionsRemount(target, privateFile, content, w);
  }

  /** When the target was not writable, the read-only restore is the last action, on the success
      path and on every failure path alike. */
  lemma CopyRestoresReadOnlyLast(d: Device, target: string, privateFile: string, content: string, w: World)
    requires CopyChecksPass(target, content, w) && !w.canWrite
    ensures var log := CopyStep(d, target, privateFile, content, w).device.log;
            |log| > |d.log| && log[|log| - 1] == Remount(target, ReadOnly)
  {
    CopyActions(d, target, privateFile, content, w);
  }

  /** A target that is already writable is copied without touching any mount. */
  lemma CopyWritableKeepsMounts(d: Device, target: string, privateFile: string, content: string, w: World)
    requires w.canWrite
    ensures CopyStep(d, target, privateFile, content, w).device.mounts == d.mounts
  {
    var checks := CopyChecks(d, target, content, w);
    if checks.outcome.Pass? {
      var body := CopyCommandsStep(checks.device, target, privateFile, content, w);
    }
  }

  /** The old target is deleted before the copy only for the system hosts file, and only once
      the target could be made writable; the copy batch runs exactly once the target is writable. */
  lemma CopyDeletesOnlySystemHosts(d: Device, target: string, privateFile: string, content: string, w: World)
    ensures var added := CopyStep(d, target, privateFile, content, w).device.log[|d.log|..];
            && ((Delete(target) in added)
                  <==> CopyChecksPass(target, content, w) && (w.canWrite || w.remountRwOk)
                       && target == ANDROID_SYSTEM_ETC_HOSTS)
            && ((Su(CopyCommands(privateFile, target)) in added)
                  <==> CopyChecksPass(target, content, w) && (w.canWrite || w.remountRwOk))
  {
    CopyActions(d, target, privateFile, content, w);
    CopyActionsWrite(target, privateFile, content, w);
  }

  /** The copy succeeds exactly when the checks pass, the target is or becomes writable and the
      batch succeeds; the target then holds the content. A failure after the checks is always a
      CommandException. */
  lemma CopyOutcome(d: Device, target: string, privateFile: string, content: string, w: World)
    ensures var s := CopyStep(d, target, privateFile, content, w);
            && (s.outcome == Pass <==>
                  CopyChecksPass(target, content, w) && (w.canWrite || w.remountRwOk) && w.batch.success)
            && (s.outcome == Pass ==> target in s.device.files && s.device.files[target] == content)
            && (CopyChecksPass(target, content, w) && s.outcome.Fail? ==> s.outcome.failure.CommandException?)
  {
    var checks := CopyChecks(d, target, content, w);
    if checks.outcome.Pass? {
      var body := CopyCommandsStep(checks.device, target, privateFile, content, w);
    }
  }

  // ---------------------------------------------------------------------------------------------
  // Apply

  /** When a symbolic link is required, apply fails with SYMLINK_MISSING and does nothing. */
  lemma ApplySymlinkMissingFirst(d: Device, location: InstallLocation, privateFile: string, content: string, w: World)
    requires location.requireSymlink
    ensures ApplyStep(d, location, privateFile, content, w) == Step(Fail(HostErrorException(SymlinkMissing)), d)
  {
  }

  /** Error mapping of apply: copy CommandExceptions become COPY_FAIL, the other copy failures
      leave unchanged, and after a successful copy the outcome is decided by readlink alone. */
  lemma ApplyErrorMapping(d: Device, location: InstallLocation, privateFile: string, content: string, w: World)
    requires !location.requireSymlink && w.privateWriteOk
    ensures var copy := CopyStep(d, location.target, privateFile, content, w);
            var s := ApplyStep(d, location, privateFile, content, w);
            && (copy.outcome.Fail? && copy.outcome.failure.CommandException? ==>
                  s.outcome == Fail(HostErrorException(CopyFail)))
            && (copy.outcome == Fail(HostErrorException(NotEnoughSpace)) ==>
                  s.outcome == Fail(HostErrorException(NotEnoughSpace)))
            && (copy.outcome.Pass? ==>
                  (s.outcome == Pass <==> IsSymlinkCorrect(location.target, w.readlink)) &&
                  (s.outcome != Pass ==> s.outcome == Fail(HostErrorException(ApplyFail))))
  {
  }

  /** apply only reports success after the copy succeeded and readlink confirmed the target,
      the readlink check being the last action. */
  lemma ApplyPassIsVerified(d: Device, location: InstallLocation, privateFile: string, content: string, w: World)
    ensures var s := ApplyStep(d, location, privateFile, content, w);
            s.outcome == Pass ==>
              && !location.requireSymlink
              && CopyStep(d, location.target, privateFile, content, w).outcome == Pass
              && IsSymlinkCorrect(location.target, w.readlink)
              && s.device.files[location.target] == content
              && s.device.log[|s.device.log| - 1] == Su(ReadlinkCommands(location.target))
  {
    var s := ApplyStep(d, location, privateFile, content, w);
    if s.outcome == Pass {
      CopyOutcome(d, location.target, privateFile, content, w);
    }
  }

  // ---------------------------------------------------------------------------------------------
  // Revert and the symbolic link

  /** A successful revert leaves exactly the two loopback entries in the target; every failure
      is REVERT_FAIL. */
  lemma RevertResult(d: Device, target: string, privateFile: string, w: World)
    ensures var s := RevertStep(d, target, privateFile, w);
            && (s.outcome == Pass ==>
                  target in s.device.files && LinesOf(s.device.files[target]) == LoopbackLines())
            && (s.outcome.Fail? ==> s.outcome == Fail(HostErrorException(RevertFail)))
  {
    var s := RevertStep(d, target, privateFile, w);
    if s.outcome == Pass {
      CopyOutcome(d, target, privateFile, DefaultHostsText(), w);
      DefaultHostsTextIsLoopback();
    }
  }

  /** createSymlink: when the read-write remount fails nothing else is done; otherwise the batch
      runs and the partition is always remounted read-only afterwards. */
  lemma SymlinkRemountDiscipline(d: Device, target: string, w: World)
    ensures var s := SymlinkStep(d, target, w);
            && (!w.remountRwOk ==> s.device.log == d.log + [Remount(ANDROID_SYSTEM_ETC_HOSTS, ReadWrite)]
                                   && s.outcome.Fail?)
            && (w.remountRwOk ==> s.device.log == d.log + [Remount(ANDROID_SYSTEM_ETC_HOSTS, ReadWrite),
                                                           Su(SymlinkCommands(target)),
                                                           Remount(ANDROID_SYSTEM_ETC_HOSTS, ReadOnly)]
                                  && (s.outcome == Pass <==> w.batch.success))
            && (s.outcome == Pass ==> s.device.links[ANDROID_SYSTEM_ETC_HOSTS] == target)
  {
  }

  // ---------------------------------------------------------------------------------------------
  // The probe

  /** Both probes count a missing file, and an existing one that cannot be opened, as applied;
      a file that is opened but cannot be read counts as not applied. */
  lemma ProbeMissingOrUnreadable(text: string, openFails: bool, readFails: bool)
    ensures ProbeAsWritten(None, openFails, readFails) && Probe(None, openFails, readFails)
    ensures ProbeAsWritten(Some(text), true, readFails) && Probe(Some(text), true, readFails)
    ensures !ProbeAsWritten(Some(text), false, true) && !Probe(Some(text), false, true)
  {
  }

  /** As written, the probe rejects every file this model generates with a non-empty timestamp,
      because the generated first line is HEADER1 followed by the timestamp. */
  lemma GeneratedFileRejectedAsWritten(date: string, urls: seq<string>, blocked: seq<string>, allowed: seq<string>,
                                       redirects: seq<Redirect>, ipv4: string, ipv6: string, enableIpv6: bool)
    requires date != [] && SingleLine(date)
    ensures !ProbeAsWritten(Some(Render(HostsFileLines(date, urls, blocked, allowed, redirects, ipv4, ipv6, enableIpv6))), false, false)
  {
    var lines := HostsFileLines(date, urls, blocked, allowed, redirects, ipv4, ipv6, enableIpv6);
    assert lines[0] == HEADER1 + date;
    HeaderIsSingleLine();
    SingleLineAppend(HEADER1, date);
    FirstLineOfRender(lines);
    assert |HEADER1 + date| > |HEADER1|;
  }

  /** The corrected probe recognises every readable generated file, whatever its timestamp. */
  lemma GeneratedFileRecognised(date: string, urls: seq<string>, blocked: seq<string>, allowed: seq<string>,
                                redirects: seq<Redirect>, ipv4: string, ipv6: string, enableIpv6: bool)
    requires SingleLine(date)
    ensures Probe(Some(Render(HostsFileLines(date, urls, blocked, allowed, redirects, ipv4, ipv6, enableIpv6))), false, false)
  {
    var lines := HostsFileLines(date, urls, blocked, allowed, redirects, ipv4, ipv6, enableIpv6);
    assert lines[0] == HEADER1 + date;
    HeaderIsSingleLine();
    SingleLineAppend(HEADER1, date);
    FirstLineOfRender(lines);
    assert (HEADER1 + date)[..|HEADER1|] == HEADER1;
  }

  /** Both probes reject the reverted, loopback-only file: after a revert the hosts are not applied. */
  lemma RevertedFileNotRecognised()
    ensures !Probe(Some(DefaultHostsText()), false, false) && !ProbeAsWritten(Some(DefaultHostsText()), false, false)
  {
    var text := DefaultHostsText();
    var rest := " " + LOCALHOST_HOSTNAME + LINE_SEPARATOR + LOCALHOST_IPv6 + " " + LOCALHOST_HOSTNAME + LINE_SEPARATOR;
    assert text == LOCALHOST_IPv4 + rest;
    assert LOCALHOST_IPv4[0] == '1';
    assert text[0] == '1';
    HeaderIsSingleLine();
    var first := FirstLine(text).value;
    assert first != [] ==> first[0] == '1';
  }

  // ---------------------------------------------------------------------------------------------
  // What the probe sees after apply and revert

  /** After a successful apply, the corrected probe reports the hosts file as applied. */
  lemma ApplyThenProbe(d: Device, location: InstallLocation, privateFile: string, date: string, urls: seq<string>,
                       blocked: seq<string>, allowed: seq<string>, redirects: seq<Redirect>,
                       ipv4: string, ipv6: string, enableIpv6: bool, w: World)
    requires SingleLine(date)
    ensures var content := Render(HostsFileLines(date, urls, blocked, allowed, redirects, ipv4, ipv6, enableIpv6));
            var s := ApplyStep(d, location, privateFile, content, w);
            s.outcome == Pass ==> Probe(ReadFile(s.device, location.target), false, false)
  {
    var content := Render(HostsFileLines(date, urls, blocked, allowed, redirects, ipv4, ipv6, enableIpv6));
    var s := ApplyStep(d, location, privateFile, content, w);
    if s.outcome == Pass {
      ApplyPassIsVerified(d, location, privateFile, content, w);
      assert ReadFile(s.device, location.target) == Some(content);
      GeneratedFileRecognised(date, urls, blocked, allowed, redirects, ipv4, ipv6, enableIpv6);
    }
  }

  /** As written, the probe reports a hosts file that apply has just installed successfully as
      not applied, whenever the timestamp is not empty. */
  lemma ApplyThenProbeAsWritten(d: Device, location: InstallLocation, privateFile: string, date: string,
                                urls: seq<string>, blocked: seq<string>, allowed: seq<string>,
                                redirects: seq<Redirect>, ipv4: string, ipv6: string, enableIpv6: bool, w: World)
    requires date != [] && SingleLine(date)
    ensures var content := Render(HostsFileLines(date, urls, blocked, allowed, redirects, ipv4, ipv6, enableIpv6));
            var s := ApplyStep(d, location, privateFile, content, w);
            s.outcome == Pass ==> !ProbeAsWritten(ReadFile(s.device, location.target), false, false)
  {
    var content := Render(HostsFileLines(date, urls, blocked, allowed, redirects, ipv4, ipv6, enableIpv6));
    var s := ApplyStep(d, location, privateFile, content, w);
    if s.outcome == Pass {
      ApplyPassIsVerified(d, location, privateFile, content, w);
      assert ReadFile(s.device, location.target) == Some(content);
      GeneratedFileRejectedAsWritten(date, urls, blocked, allowed, redirects, ipv4, ipv6, enableIpv6);
    }
  }

  /** After a successful revert, the probe reports the hosts file as not applied. */
  lemma RevertThenProbe(d: Device, target: string, privateFile: string, w: World)
    ensures var s := RevertStep(d, target, privateFile, w);
            s.outcome == Pass ==> !Probe(ReadFile(s.device, target), false, false)
  {
    var s := RevertStep(d, target, privateFile, w);
    if s.outcome == Pass {
      CopyOutcome(d, target, privateFile, DefaultHostsText(), w);
      assert ReadFile(s.device, target) == Some(DefaultHostsText());
      RevertedFileNotRecognised();
    }
  }
}
