/** The hosts-install model: the object that generates the hosts file in private storage,
    installs it on the device as root, reverts it and probes whether it is applied. */
module HostsInstall {
  import opened Text
  import opened AllowFilter
  import opened HostsFile
  import opened InstallSteps

  /** A hosts source as the database stores it: its URL, whether it is enabled, and the date
      (milliseconds) its content was last installed, if any. */
  datatype HostsSource = HostsSource(url: string, enabled: bool, localModificationDate: Option<int>)

  /** The state and details the model publishes while it works. */
  datatype Status =
    | Unknown
    | ApplyDialogHosts     // apply_dialog, apply_dialog_hosts
    | ApplyDialogApply     // apply_dialog, apply_dialog_apply
    | StatusEnabled        // status_enabled, status_enabled_subtitle
    | StatusReverting      // status_reverting, status_reverting_subtitle
    | StatusDisabled       // status_disabled, status_disabled_subtitle
    | RevertProblem        // status_enabled, revert_problem

  // ---------------------------------------------------------------------------------------------
  // The hosts sources table

  /** The URLs of the enabled sources, in table order (the query behind getEnabled()). */
  function EnabledUrls(sources: seq<HostsSource>): (r: seq<string>)
    ensures |r| <= |sources|
    ensures forall u :: u in r <==> exists k :: 0 <= k < |sources| && sources[k].enabled && sources[k].url == u
  {
    if sources == [] then []
    else
      var rest := EnabledUrls(sources[1..]);
      assert forall k :: 0 <= k < |sources[1..]| ==> sources[1..][k] == sources[k + 1];
      assert forall k :: 1 <= k < |sources| ==> sources[k] == sources[1..][k - 1];
      (if sources[0].enabled then [sources[0].url] else []) + rest
  }

  /** updateEnabledLocalModificationDates(now): every enabled source is stamped with now, the
      others keep their date. */
  function MarkInstalled(sources: seq<HostsSource>, now: int): (r: seq<HostsSource>)
    ensures |r| == |sources|
    ensures forall k :: 0 <= k < |r| ==>
              && r[k].url == sources[k].url && r[k].enabled == sources[k].enabled
              && r[k].localModificationDate == (if sources[k].enabled then Some(now) else sources[k].localModificationDate)
  {
    if sources == [] then []
    else
      var s := sources[0];
      [if s.enabled then s.(localModificationDate := Some(now)) else s] + MarkInstalled(sources[1..], now)
  }

  /** clearLocalModificationDates(): no source keeps an installation date. */
  function ClearInstalled(sources: seq<HostsSource>): (r: seq<HostsSource>)
    ensures |r| == |sources|
    ensures forall k :: 0 <= k < |r| ==>
              r[k].url == sources[k].url && r[k].enabled == sources[k].enabled && r[k].localModificationDate.None?
  {
    if sources == [] then [] else [sources[0].(localModificationDate := None)] + ClearInstalled(sources[1..])
  }

  /** Marking does not change which sources are enabled, so the next generated header lists
      the same sources. */
  lemma {:induction false} MarkInstalledKeepsEnabledUrls(sources: seq<HostsSource>, now: int)
    ensures EnabledUrls(MarkInstalled(sources, now)) == EnabledUrls(sources)
  {
    if sources != [] {
      MarkInstalledKeepsEnabledUrls(sources[1..], now);
    }
  }

  /** Re-applying with the same rules after a successful apply installs a file that differs
      from the previous one only in its first line, the timestamp: stamping the sources keeps
      the enabled URLs, so every later line is generated from the same inputs. */
  lemma ReapplyOnlyTimestampDiffers(d1: Device, d2: Device, location: InstallLocation, privateFile: string,
                                    sources: seq<HostsSource>, now: int, date1: string, date2: string,
                                    blocked: seq<string>, allowed: seq<string>, redirects: seq<Redirect>,
                                    ipv4: string, ipv6: string, enableIpv6: bool, w1: World, w2: World)
    ensures var f1 := HostsFileLines(date1, EnabledUrls(sources), blocked, allowed, redirects, ipv4, ipv6, enableIpv6);
            var f2 := HostsFileLines(date2, EnabledUrls(MarkInstalled(sources, now)), blocked, allowed, redirects,
                                     ipv4, ipv6, enableIpv6);
            var s1 := ApplyStep(d1, location, privateFile, Render(f1), w1);
            var s2 := ApplyStep(d2, location, privateFile, Render(f2), w2);
            s1.outcome == Pass && s2.outcome == Pass ==>
              && s1.device.files[location.target] == Render(f1)
              && s2.device.files[location.target] == Render(f2)
              && |f1| == |f2| && f1[1..] == f2[1..]
  {
    var urls := EnabledUrls(sources);
    MarkInstalledKeepsEnabledUrls(sources, now);
    OnlyTimestampDiffers(date1, date2, urls, blocked, allowed, redirects, ipv4, ipv6, enableIpv6);
    var f1 := HostsFileLines(date1, urls, blocked, allowed, redirects, ipv4, ipv6, enableIpv6);
    var f2 := HostsFileLines(date2, urls, blocked, allowed, redirects, ipv4, ipv6, enableIpv6);
    ApplyPassIsVerified(d1, location, privateFile, Render(f1), w1);
    ApplyPassIsVerified(d2, location, privateFile, Render(f2), w2);
  }

  /** A revert after an apply leaves the sources exactly as a revert alone does: clearing
      forgets every date the apply stamped. */
  lemma {:induction false} ClearUndoesMark(sources: seq<HostsSource>, now: int)
    ensures ClearInstalled(MarkInstalled(sources, now)) == ClearInstalled(sources)
  {
    if sources != [] {
      ClearUndoesMark(sources[1..], now);
    }
  }

  // ---------------------------------------------------------------------------------------------
  // The writer

  /** A BufferedWriter over the private file: the text written so far. */
  class HostsWriter {
    var text: string

    constructor ()
      ensures text == ""
    {
      text := "";
    }

    method Write(s: string)
      modifies this
      ensures text == old(text) + s
    {
      text := text + s;
    }

    method NewLine()
      modifies this
      ensures text == old(text) + LINE_SEPARATOR
    {
      text := text + LINE_SEPARATOR;
    }
  }

  // ---------------------------------------------------------------------------------------------
  // The model

  const PRIVATE_SEPARATOR: string := "/"

  /** What reading the first line of the install target gives: FileNotFoundException, another
      exception, or the line itself (None for an empty file). */
  datatype FirstLineRead = NotFound | Unreadable | Read(line: Option<string>)

  class HostsInstallModel {
    /** The hosts sources table, which apply and revert stamp. */
    var sources: seq<HostsSource>
    /** The enabled blocked, allowed and redirected list items, as the item table returns them. */
    const blockedHosts: seq<string>
    const allowedHosts: seq<string>
    const redirectedHosts: seq<Redirect>
    /** The user preferences. */
    const location: InstallLocation
    const redirectionIpv4: string
    const redirectionIpv6: string
    const enableIpv6: bool
    /** The application's private files directory and the files in it, by name. */
    const filesDir: string
    var privateFiles: map<string, string>
    /** The device, as the root shell sees it. */
    var files: map<string, string>
    var links: map<string, string>
    var mounts: map<string, MountMode>
    var log: seq<Effect>
    /** What the model publishes: its state and whether the hosts file is applied. */
    var status: Status
    var applied: Option<bool>

    constructor (sources: seq<HostsSource>, blockedHosts: seq<string>, allowedHosts: seq<string>,
                 redirectedHosts: seq<Redirect>, location: InstallLocation, redirectionIpv4: string,
                 redirectionIpv6: string, enableIpv6: bool, filesDir: string, device: Device)
      ensures this.sources == sources && this.blockedHosts == blockedHosts && this.allowedHosts == allowedHosts
      ensures this.redirectedHosts == redirectedHosts && this.location == location
      ensures this.redirectionIpv4 == redirectionIpv4 && this.redirectionIpv6 == redirectionIpv6
      ensures this.enableIpv6 == enableIpv6 && this.filesDir == filesDir
      ensures privateFiles == map[] && DeviceState() == device
      ensures status == Unknown && applied == None
    {
      this.sources := sources;
      this.blockedHosts := blockedHosts;
      this.allowedHosts := allowedHosts;
      this.redirectedHosts := redirectedHosts;
      this.location := location;
      this.redirectionIpv4 := redirectionIpv4;
      this.redirectionIpv6 := redirectionIpv6;
      this.enableIpv6 := enableIpv6;
      this.filesDir := filesDir;
      privateFiles := map[];
      files := device.files;
      links := device.links;
      mounts := device.mounts;
      log := device.log;
      status := Unknown;
      applied := None;
    }

    function DeviceState(): Device
      reads this`files, this`links, this`mounts, this`log
    {
      Device(files, links, mounts, log)
    }

    /** The absolute path of a private file. */
    function PrivateFile(name: string): string {
      filesDir + PRIVATE_SEPARATOR + name
    }

    /** The content of a private file; a missing file reads as empty (File.length() is then 0). */
    function PrivateContent(name: string): string
      reads this`privateFiles
    {
      if name in privateFiles then privateFiles[name] else ""
    }

    /** The hosts file generated from the current tables and preferences. */
    function HostsText(date: string): string
      reads this`sources
    {
      Render(HostsFileLines(date, EnabledUrls(sources), blockedHosts, allowedHosts, redirectedHosts,
                            redirectionIpv4, redirectionIpv6, enableIpv6))
    }

    // -------------------------------------------------------------------------------------------
    // Generating the hosts file

    /** writeHostsHeader: the header lines with the timestamp, then one comment per enabled source. */
    method WriteHostsHeader(writer: HostsWriter, date: string)
      modifies writer
      ensures writer.text == old(writer.text) + Render(HeaderLines(date, EnabledUrls(sources)))
    {
      var start := writer.text;
      writer.Write(HEADER1);
      writer.Write(date);
      writer.NewLine();
      writer.Write(HEADER2);
      writer.NewLine();
      writer.Write(HEADER_SOURCES);
      writer.NewLine();
      var urls := EnabledUrls(sources);
      WriteSourceComments(writer, urls);
      writer.NewLine();
      RenderThreeThen(start, HEADER1, date, HEADER2, HEADER_SOURCES, SourceLines(urls));
    }

    /** The loop of writeHostsHeader: a comment line per source URL, each written with a line
        separator of its own and then followed by newLine(). */
    method WriteSourceComments(writer: HostsWriter, urls: seq<string>)
      modifies writer
      ensures writer.text == old(writer.text) + Render(SourceLines(urls))
    {
      var start := writer.text;
      var i := 0;
      while i < |urls|
        invariant 0 <= i <= |urls|
        invariant writer.text == start + Render(SourceLines(urls[..i]))
      {
        writer.Write(SourceComment(urls[i]) + LINE_SEPARATOR);
        writer.NewLine();
        RenderSourceLinesStep(start, urls, i);
        i := i + 1;
      }
      assert urls[..i] == urls;
    }

    /** writeLoopbackToHosts: the IPv4 and IPv6 loopback entries. */
    method WriteLoopbackToHosts(writer: HostsWriter)
      modifies writer
      ensures writer.text == old(writer.text) + Render(LoopbackLines())
    {
      writer.Write(LOCALHOST_IPv4 + " " + LOCALHOST_HOSTNAME);
      writer.NewLine();
      writer.Write(LOCALHOST_IPv6 + " " + LOCALHOST_HOSTNAME);
      writer.NewLine();
      RenderTwo(LOCALHOST_IPv4 + " " + LOCALHOST_HOSTNAME, LOCALHOST_IPv6 + " " + LOCALHOST_HOSTNAME);
    }

    /** writeHosts: an entry per blocked host that the allow list lets through (two with IPv6),
        then a line per redirect. */
    method WriteHosts(writer: HostsWriter)
      modifies writer
      ensures writer.text == old(writer.text)
                             + Render(BlockedLines(ComputeBlockedHosts(blockedHosts, allowedHosts),
                                                   redirectionIpv4, redirectionIpv6, enableIpv6))
                             + Render(RedirectLines(redirectedHosts))
    {
      var hosts := ComputeBlockedHosts(blockedHosts, allowedHosts);
      WriteBlockedHosts(writer, hosts);
      WriteRedirectedHosts(writer);
    }

    /** The first loop of writeHosts: the entries of each host, in order. */
    method WriteBlockedHosts(writer: HostsWriter, hosts: seq<string>)
      modifies writer
      ensures writer.text == old(writer.text) + Render(BlockedLines(hosts, redirectionIpv4, redirectionIpv6, enableIpv6))
    {
      var start := writer.text;
      var i := 0;
      while i < |hosts|
        invariant 0 <= i <= |hosts|
        invariant writer.text == start + Render(BlockedLines(hosts[..i], redirectionIpv4, redirectionIpv6, enableIpv6))
      {
        writer.Write(redirectionIpv4 + " " + hosts[i]);
        writer.NewLine();
        if enableIpv6 {
          writer.Write(redirectionIpv6 + " " + hosts[i]);
          writer.NewLine();
        }
        RenderBlockedLinesStep(start, hosts, i, redirectionIpv4, redirectionIpv6, enableIpv6);
        i := i + 1;
      }
      assert hosts[..i] == hosts;
    }

    /** The second loop of writeHosts: a "host redirection" line per redirect. */
    method WriteRedirectedHosts(writer: HostsWriter)
      modifies writer
      ensures writer.text == old(writer.text) + Render(RedirectLines(redirectedHosts))
    {
      var start := writer.text;
      var j := 0;
      while j < |redirectedHosts|
        invariant 0 <= j <= |redirectedHosts|
        invariant writer.text == start + Render(RedirectLines(redirectedHosts[..j]))
      {
        writer.Write(redirectedHosts[j].host + " " + redirectedHosts[j].redirection);
        writer.NewLine();
        RenderRedirectLinesStep(start, redirectedHosts, j);
        j := j + 1;
      }
      assert redirectedHosts[..j] == redirectedHosts;
    }

    /** createNewHostsFile: delete the previous private file, then write header, loopback entries
        and host entries to a new one; a failed write is PRIVATE_FILE_FAIL. */
    method CreateNewHostsFile(date: string, w: World) returns (outcome: Outcome)
      modifies this
      ensures outcome == if w.privateWriteOk then Pass else Fail(HostErrorException(PrivateFileFail))
      ensures privateFiles == if w.privateWriteOk then old(privateFiles)[HOSTS_FILENAME := HostsText(date)]
                              else old(privateFiles) - {HOSTS_FILENAME}
      ensures DeviceState() == old(DeviceState())
      ensures sources == old(sources) && status == old(status) && applied == old(applied)
    {
      privateFiles := privateFiles - {HOSTS_FILENAME};
      var writer := new HostsWriter();
      WriteHostsHeader(writer, date);
      WriteLoopbackToHosts(writer);
      WriteHosts(writer);
      var text := writer.text;
      EmptyPrefix(Render(HeaderLines(date, EnabledUrls(sources))));
      assert text == HostsText(date) by {
        RenderHostsFileLines(date, EnabledUrls(sources), blockedHosts, allowedHosts, redirectedHosts,
                             redirectionIpv4, redirectionIpv6, enableIpv6);
      }
      if !w.privateWriteOk {
        return Fail(HostErrorException(PrivateFileFail));
      }
      assert privateFiles[HOSTS_FILENAME := text] == old(privateFiles)[HOSTS_FILENAME := text];
      privateFiles := privateFiles[HOSTS_FILENAME := text];
      outcome := Pass;
    }

    /** ShellUtils.remountPartition: remount the partition holding path. */
    method RemountPartition(path: string, mode: MountMode, ok: bool)
      modifies this
      ensures DeviceState() == Remounted(old(DeviceState()), path, mode, ok)
      ensures privateFiles == old(privateFiles) && sources == old(sources)
      ensures status == old(status) && applied == old(applied)
    {
      if ok {
        mounts := mounts[path := mode];
      }
      log := log + [Remount(path, mode)];
    }

    /** copyHostsFile: copy a private file to the install target as root. */
    method CopyHostsFile(source: string, w: World) returns (outcome: Outcome)
      modifies this
      ensures Step(outcome, DeviceState())
           == CopyStep(old(DeviceState()), location.target, PrivateFile(source), old(PrivateContent(source)), w)
      ensures privateFiles == old(privateFiles) && sources == old(sources)
      ensures status == old(status) && applied == old(applied)
    {
      var target := location.target;
      var privateFile := PrivateFile(source);
      if EndsWith(target, "/") {
        return Fail(IllegalArgumentException);
      }
      if target != ANDROID_SYSTEM_ETC_HOSTS {
        var parent := ParentPath(target);
        if parent.None? {
          return Fail(NullPointerException);
        }
        if !w.parentIsDirectory {
          log := log + [MakeDirs(parent.value)];
          if !w.mkdirsOk {
            return Fail(CommandException(DirectoriesNotCreated(parent.value)));
          }
        }
      }
      var size := |PrivateContent(source)|;
      if !HasEnoughSpaceOnPartition(w.freeSpace, size) {
        return Fail(HostErrorException(NotEnoughSpace));
      }
      assert CopyChecks(old(DeviceState()), target, old(PrivateContent(source)), w) == Step(Pass, DeviceState());
      var writable := w.canWrite;
      outcome := ExecuteCopyCommands(target, privateFile, PrivateContent(source), w);
      // finally
      if !writable {
        RemountPartition(target, ReadOnly, w.remountRoOk);
      }
    }

    /** The try block of copyHostsFile: remount read-write when the target is not writable,
        delete the system hosts file before copying onto it, and run the copy batch. */
    method ExecuteCopyCommands(target: string, privateFile: string, content: string, w: World) returns (outcome: Outcome)
      modifies this
      ensures Step(outcome, DeviceState()) == CopyCommandsStep(old(DeviceState()), target, privateFile, content, w)
      ensures privateFiles == old(privateFiles) && sources == old(sources)
      ensures status == old(status) && applied == old(applied)
    {
      if !w.canWrite {
        RemountPartition(target, ReadWrite, w.remountRwOk);
        if !w.remountRwOk {
          return Fail(CommandException(RemountFailed));
        }
      }
      if target == ANDROID_SYSTEM_ETC_HOSTS {
        files := files - {target};
        links := links - {target};
        log := log + [Delete(target)];
      }
      log := log + [Su(CopyCommands(privateFile, target))];
      if !w.batch.success {
        return Fail(CommandException(CopyFailed(w.batch.err)));
      }
      files := files[target := content];
      outcome := Pass;
    }

    /** copyNewHostsFile: copy the generated file; a CommandException becomes COPY_FAIL. */
    method CopyNewHostsFile(w: World) returns (outcome: Outcome)
      modifies this
      ensures var copy := CopyStep(old(DeviceState()), location.target, PrivateFile(HOSTS_FILENAME),
                                   old(PrivateContent(HOSTS_FILENAME)), w);
              outcome == CopyNewHostsFileOutcome(copy.outcome) && DeviceState() == copy.device
      ensures privateFiles == old(privateFiles) && sources == old(sources)
      ensures status == old(status) && applied == old(applied)
    {
      outcome := CopyHostsFile(HOSTS_FILENAME, w);
      if outcome.Fail? && outcome.failure.CommandException? {
        outcome := Fail(HostErrorException(CopyFail));
      }
    }

    /** isSymlinkCorrect: resolve the target with readlink and compare the first output line. */
    method IsSymlinkCorrect(target: string, readlink: ShellResult) returns (correct: bool)
      modifies this
      ensures correct <==> readlink.success && |readlink.out| > 0 && readlink.out[0] == target
      ensures DeviceState() == Ran(old(DeviceState()), ReadlinkCommands(target))
      ensures privateFiles == old(privateFiles) && sources == old(sources)
      ensures status == old(status) && applied == old(applied)
    {
      log := log + [Su(ReadlinkCommands(target))];
      if !readlink.success {
        return false;
      }
      var out := readlink.out;
      if |out| == 0 {
        return false;
      }
      correct := out[0] == target;
    }

    method MarkHostsSourcesAsInstalled(now: int)
      modifies this
      ensures sources == MarkInstalled(old(sources), now)
      ensures DeviceState() == old(DeviceState()) && privateFiles == old(privateFiles)
      ensures status == old(status) && applied == old(applied)
    {
      sources := MarkInstalled(sources, now);
    }

    method MarkHostsSourcesAsUninstalled()
      modifies this
      ensures sources == ClearInstalled(old(sources))
      ensures DeviceState() == old(DeviceState()) && privateFiles == old(privateFiles)
      ensures status == old(status) && applied == old(applied)
    {
      sources := ClearInstalled(sources);
    }

    // -------------------------------------------------------------------------------------------
    // The operations

    /** apply: generate the hosts file, install it and check it; on success stamp the enabled
        sources with now. The clock's date and time are parameters. */
    method Apply(date: string, now: int, w: World) returns (outcome: Outcome)
      modifies this
      ensures Step(outcome, DeviceState())
           == ApplyStep(old(DeviceState()), location, PrivateFile(HOSTS_FILENAME), old(HostsText(date)), w)
      ensures sources == if outcome == Pass then MarkInstalled(old(sources), now) else old(sources)
      ensures privateFiles == if location.requireSymlink then old(privateFiles)
                              else if w.privateWriteOk then old(privateFiles)[HOSTS_FILENAME := old(HostsText(date))]
                              else old(privateFiles) - {HOSTS_FILENAME}
      ensures outcome == Pass ==> status == StatusEnabled
      ensures outcome == Fail(HostErrorException(ApplyFail)) ==> status == ApplyDialogApply
      ensures outcome.Fail? && outcome != Fail(HostErrorException(ApplyFail)) ==> status == ApplyDialogHosts
      ensures applied == old(applied)
    {
      status := ApplyDialogHosts;
      // checkHostsFileSymlink holds exactly when the location does not require a link
      if location.requireSymlink {
        return Fail(HostErrorException(SymlinkMissing));
      }
      outcome := CreateNewHostsFile(date, w);
      if outcome.Fail? {
        return;
      }
      outcome := CopyNewHostsFile(w);
      if outcome.Fail? {
        return;
      }
      status := ApplyDialogApply;
      var installed := IsSymlinkCorrect(location.target, w.readlink);
      if !installed {
        return Fail(HostErrorException(ApplyFail));
      }
      MarkHostsSourcesAsInstalled(now);
      status := StatusEnabled;
    }

    /** revertHostFile: write the loopback-only file privately, copy it to the target and delete
        the private copy; any failure on the way is reported as false. */
    method RevertHostFile(w: World) returns (ok: bool)
      modifies this
      ensures var s := RevertStep(old(DeviceState()), location.target, PrivateFile(DEFAULT_HOSTS_FILENAME), w);
              (ok <==> s.outcome == Pass) && DeviceState() == s.device
      ensures privateFiles == if !w.privateWriteOk then old(privateFiles)
                              else if ok then old(privateFiles) - {DEFAULT_HOSTS_FILENAME}
                              else old(privateFiles)[DEFAULT_HOSTS_FILENAME := DefaultHostsText()]
      ensures sources == old(sources) && status == old(status) && applied == old(applied)
    {
      if !w.privateWriteOk {
        return false;
      }
      privateFiles := privateFiles[DEFAULT_HOSTS_FILENAME := DefaultHostsText()];
      var copied := CopyHostsFile(DEFAULT_HOSTS_FILENAME, w);
      if copied.Fail? {
        return false;
      }
      privateFiles := privateFiles - {DEFAULT_HOSTS_FILENAME};
      ok := true;
    }

    /** revert: restore the loopback-only hosts file; on success clear the sources' installation
        dates, on failure report REVERT_FAIL and the revert problem. */
    method Revert(w: World) returns (outcome: Outcome)
      modifies this
      ensures Step(outcome, DeviceState())
           == RevertStep(old(DeviceState()), location.target, PrivateFile(DEFAULT_HOSTS_FILENAME), w)
      ensures sources == if outcome == Pass then ClearInstalled(old(sources)) else old(sources)
      ensures status == if outcome == Pass then StatusDisabled else RevertProblem
      ensures privateFiles == if !w.privateWriteOk then old(privateFiles)
                              else if outcome == Pass then old(privateFiles) - {DEFAULT_HOSTS_FILENAME}
                              else old(privateFiles)[DEFAULT_HOSTS_FILENAME := DefaultHostsText()]
      ensures applied == old(applied)
    {
      status := StatusReverting;
      var ok := RevertHostFile(w);
      if !ok {
        status := RevertProblem;
        return Fail(HostErrorException(RevertFail));
      }
      MarkHostsSourcesAsUninstalled();
      status := StatusDisabled;
      outcome := Pass;
    }

    /** createSymlink(target): replace the system hosts file by a link to target inside a
        read-write remount of the system partition. */
    method CreateSymlinkTo(target: string, w: World) returns (success: bool)
      modifies this
      ensures var s := SymlinkStep(old(DeviceState()), target, w);
              (success <==> s.outcome == Pass) && DeviceState() == s.device
      ensures privateFiles == old(privateFiles) && sources == old(sources)
      ensures status == old(status) && applied == old(applied)
    {
      RemountPartition(ANDROID_SYSTEM_ETC_HOSTS, ReadWrite, w.remountRwOk);
      if !w.remountRwOk {
        return false;
      }
      log := log + [Su(SymlinkCommands(target))];
      success := w.batch.success;
      if success {
        files := files - {ANDROID_SYSTEM_ETC_HOSTS};
        links := links[ANDROID_SYSTEM_ETC_HOSTS := target];
      }
      RemountPartition(ANDROID_SYSTEM_ETC_HOSTS, ReadOnly, w.remountRoOk);
    }

    /** createSymlink(): link the system hosts file to the install target; SYMLINK_MISSING when
        that fails. */
    method CreateSymlink(w: World) returns (outcome: Outcome)
      modifies this
      ensures Step(outcome, DeviceState()) == SymlinkStep(old(DeviceState()), location.target, w)
      ensures privateFiles == old(privateFiles) && sources == old(sources)
      ensures status == old(status) && applied == old(applied)
    {
      var success := CreateSymlinkTo(location.target, w);
      outcome := if success then Pass else Fail(HostErrorException(SymlinkMissing));
    }

    /** checkApplied: publish whether the install target holds a generated hosts file, with the
        first line compared as written. openFails stands for an existing file that cannot be
        opened, readFails for an error while reading it once opened. */
    method CheckApplied(openFails: bool, readFails: bool) returns ()
      modifies this
      ensures applied == Some(ProbeAsWritten(ReadFile(DeviceState(), location.target), openFails, readFails))
      ensures DeviceState() == old(DeviceState()) && privateFiles == old(privateFiles)
      ensures sources == old(sources) && status == old(status)
    {
      var firstLine := ReadFirstLine(openFails, readFails);
      var isApplied: bool;
      match firstLine {
        case NotFound => isApplied := true;
        case Unreadable => isApplied := false;
        case Read(line) => isApplied := line.Some? && line.value == HEADER1;
      }
      applied := Some(isApplied);
    }

    /** checkApplied with the intended comparison: the first line must start with HEADER1. */
    method CheckAppliedCorrected(openFails: bool, readFails: bool) returns ()
      modifies this
      ensures applied == Some(Probe(ReadFile(DeviceState(), location.target), openFails, readFails))
      ensures DeviceState() == old(DeviceState()) && privateFiles == old(privateFiles)
      ensures sources == old(sources) && status == old(status)
    {
      var firstLine := ReadFirstLine(openFails, readFails);
      var isApplied: bool;
      match firstLine {
        case NotFound => isApplied := true;
        case Unreadable => isApplied := false;
        case Read(line) => isApplied := line.Some? && StartsWith(line.value, HEADER1);
      }
      applied := Some(isApplied);
    }

    /** Open the install target and read its first line: NotFound when opening throws
        FileNotFoundException, Unreadable on any other error, else the line (None when empty). */
    method ReadFirstLine(openFails: bool, readFails: bool) returns (r: FirstLineRead)
      ensures r == NotFound <==> ReadFile(DeviceState(), location.target).None? || openFails
      ensures r == Unreadable <==> ReadFile(DeviceState(), location.target).Some? && !openFails && readFails
      ensures r.Read? ==> ReadFile(DeviceState(), location.target).Some? && r.line == FirstLine(ReadFile(DeviceState(), location.target).value)
    {
      var file := ReadFile(DeviceState(), location.target);
      if file.None? || openFails {
        return NotFound;
      }
      if readFails {
        return Unreadable;
      }
      r := Read(FirstLine(file.value));
    }
  }
}
