/** Starting the root daemon (`startDaemon`): four techniques are tried in
    order and the first one confirmed wins; if none is, the service assumes
    the daemon runs anyway. Only a device without root or a failing package
    lookup makes the start fail. SELinux enforcement is restored at the end
    in every case.
 */
module Launcher {
  import Text
  import Shell
  import Channel
  import Native
  import Protocol

  const AppProcess: string := "/system/bin/app_process"
  const DaemonClass: string := "com.pxlocation.dinwei.service.LocationInjectorDaemon"
  const GetenforceCommand: string := "getenforce || echo 'Unknown'"
  const ScriptPath: string := "/data/local/tmp/start_daemon.sh"

  /** Everything `startDaemon` learns from the device besides its root
      shell: root access, the APK path lookup, what each of the three
      `checkDaemonRunning` calls answers (they run at different times, so
      each is `Running(CheckDaemonRunning(…))` against the device as it is
      then), and the native launcher's environment. */
  datatype Device = Device(
    rooted: bool,
    apkPath: Shell.Attempt<string>,
    alive: nat -> bool,
    native: Native.LaunchEnv)

  datatype Via = Direct | Script | Nohup | Jni | Assumed | NotStarted

  datatype Launch = Launch(ok: bool, via: Via, calls: seq<Channel.Call>)

  /** The attempt to switch SELinux to permissive; every failure in it is
      swallowed. When `getenforce` does not answer `Permissive`, four more
      commands are tried. */
  function Permissive(sh: Shell.Sh): (r: seq<Channel.Call>)
    ensures |r| >= 1 && r[0] == Channel.Su(Shell.PermissiveCommand)
  {
    if !Channel.Succeeds(sh, Shell.PermissiveCommand) then [Channel.Su(Shell.PermissiveCommand)]
    else
      var status := Shell.ExecuteSuCommand(sh, GetenforceCommand);
      var head := [Channel.Su(Shell.PermissiveCommand), Channel.Su(GetenforceCommand)];
      if status.Threw? || Text.Trim(status.value) == "Permissive" then head
      else head + Channel.RunSu(sh, ForcePermissiveCommands).calls
  }

  /** The commands tried when `getenforce` still reports enforcing. */
  const ForcePermissiveCommands: seq<string> := [
    "echo 0 > /sys/fs/selinux/enforce || true",
    "supolicy --live 'allow untrusted_app system_data_file file *' || true",
    "supolicy --live 'allow untrusted_app app_data_file dir *' || true",
    "supolicy --live 'allow untrusted_app app_data_file file *' || true"
  ]

  const SetupCommands: seq<string> := [
    "mkdir -p /data/local/tmp",
    "chmod 777 /data/local/tmp",
    "chown shell:shell /data/local/tmp || true",
    "chcon u:object_r:shell_data_file:s0 /data/local/tmp || true",
    "rm -f " + Protocol.CommandFile + " || true",
    "touch " + Protocol.CommandFile + " || true",
    "chmod 666 " + Protocol.CommandFile + " || true"
  ]

  function DirectCommands(apk: string, packageName: string): seq<string>
  {
    ["CLASSPATH=" + apk + " " + AppProcess + " / " + DaemonClass + " " + packageName + " &"]
  }

  /** The start script, indentation and all, as the raw string literal
      builds it. */
  function ScriptContent(apk: string, packageName: string): string
  {
    var indent := "                    ";
    "#!/system/bin/sh\n" + indent + "# 设置环境变量\n" + indent + "export CLASSPATH=" + apk + "\n"
      + indent + "# 启动守护进程\n" + indent + "exec " + AppProcess + " / " + DaemonClass + " " + packageName + " &\n"
      + indent
  }

  function ScriptCommands(apk: string, packageName: string): seq<string>
  {
    [ "cat > " + ScriptPath + " << 'EOF'\n" + ScriptContent(apk, packageName) + "\nEOF",
      "chmod 755 " + ScriptPath,
      "chcon u:object_r:shell_exec_t:s0 " + ScriptPath + " || true",
      "sh " + ScriptPath ]
  }

  function NohupCommands(apk: string, packageName: string): seq<string>
  {
    ["cd / && CLASSPATH=" + apk + " nohup " + AppProcess + " / " + DaemonClass + " " + packageName + " > /dev/null 2>&1 &"]
  }

  function ApkPermissionCommands(apk: string): seq<string>
  {
    ["chmod 644 " + apk, "chown system:system " + apk + " || true"]
  }

  /** Techniques 1 to 3: the commands must all go through and the
      following liveness check must answer yes. */
  datatype Tried = Tried(confirmed: bool, calls: seq<Channel.Call>)

  function TryShell(sh: Shell.Sh, cmds: seq<string>, alive: bool): (r: Tried)
    ensures r.confirmed <==> Channel.RunSu(sh, cmds).ok && alive
    ensures r.calls == Channel.RunSu(sh, cmds).calls
  {
    var run := Channel.RunSu(sh, cmds);
    Tried(run.ok && alive, run.calls)
  }

  /** The techniques after the package lookup, in order, ending with the
      optimistic default. */
  function Techniques(sh: Shell.Sh, d: Device, apk: string, packageName: string): (r: Launch)
    ensures r.ok && r.via != NotStarted
    ensures r.via == Direct <==> TryShell(sh, DirectCommands(apk, packageName), d.alive(0)).confirmed
    ensures r.via == Script <==>
              !TryShell(sh, DirectCommands(apk, packageName), d.alive(0)).confirmed
              && TryShell(sh, ScriptCommands(apk, packageName), d.alive(1)).confirmed
    ensures r.via == Nohup <==>
              !TryShell(sh, DirectCommands(apk, packageName), d.alive(0)).confirmed
              && !TryShell(sh, ScriptCommands(apk, packageName), d.alive(1)).confirmed
              && TryShell(sh, NohupCommands(apk, packageName), d.alive(2)).confirmed
    ensures r.via == Jni <==>
              !TryShell(sh, DirectCommands(apk, packageName), d.alive(0)).confirmed
              && !TryShell(sh, ScriptCommands(apk, packageName), d.alive(1)).confirmed
              && !TryShell(sh, NohupCommands(apk, packageName), d.alive(2)).confirmed
              && Native.StartInjectorDaemon(d.native, packageName).ok
    ensures r.via == Assumed <==>
              !TryShell(sh, DirectCommands(apk, packageName), d.alive(0)).confirmed
              && !TryShell(sh, ScriptCommands(apk, packageName), d.alive(1)).confirmed
              && !TryShell(sh, NohupCommands(apk, packageName), d.alive(2)).confirmed
              && !Native.StartInjectorDaemon(d.native, packageName).ok
  {
    var direct := TryShell(sh, DirectCommands(apk, packageName), d.alive(0));
    if direct.confirmed then Launch(true, Direct, direct.calls)
    else
      var script := TryShell(sh, ScriptCommands(apk, packageName), d.alive(1));
      var soFar := direct.calls + script.calls;
      if script.confirmed then Launch(true, Script, soFar)
      else
        var nohup := TryShell(sh, NohupCommands(apk, packageName), d.alive(2));
        var soFar := soFar + nohup.calls;
        if nohup.confirmed then Launch(true, Nohup, soFar)
        else
          var soFar := soFar + Channel.RunSu(sh, ApkPermissionCommands(apk)).calls;
          if Native.StartInjectorDaemon(d.native, packageName).ok then Launch(true, Jni, soFar)
          else Launch(true, Assumed, soFar)
  }

  /** `startDaemon`. */
  function StartDaemon(sh: Shell.Sh, d: Device, packageName: string): (r: Launch)
    ensures r.ok <==> d.rooted && d.apkPath.Done?
    ensures r.ok <==> r.via != NotStarted
    ensures |r.calls| >= 1 && r.calls[|r.calls| - 1] == Channel.Su(Shell.EnforcingCommand)
    ensures !d.rooted ==> r.calls == [Channel.Su(Shell.EnforcingCommand)]
    ensures r.ok ==> r.via == Techniques(sh, d, d.apkPath.value, packageName).via
  {
    var restore := [Channel.Su(Shell.EnforcingCommand)];
    if !d.rooted then Launch(false, NotStarted, restore)
    else
      var selinux := Permissive(sh);
      match d.apkPath
      case Threw(_) => Launch(false, NotStarted, selinux + restore)
      case Done(apk) =>
        var setup := [Channel.SuBatch(SetupCommands)];
        var t := Techniques(sh, d, apk, packageName);
        Launch(true, t.via, selinux + setup + t.calls + restore)
  }

  // ---------------------------------------------------------------------
  // The liveness check

  /** The process lookups, in order. The last one lists every
      `app_process` process, not only the daemon. */
  const LookupCommands: seq<string> := [
    "ps -A | grep LocationInjectorDaemon | grep -v grep",
    "ps -ef | grep LocationInjectorDaemon | grep -v grep",
    "pgrep -f LocationInjectorDaemon",
    "ps | grep LocationInjectorDaemon | grep -v grep",
    "ps -e | grep app_process | grep -v grep"
  ]

  /** A lookup that returns normally with some output. */
  predicate Answers(sh: Shell.Sh, cmd: string) {
    Channel.Succeeds(sh, cmd) && Shell.ExecuteSuCommand(sh, cmd).value != ""
  }

  /** The scratch file of the creation test; `stamp` is the
      `System.currentTimeMillis()` text. */
  function TestFile(stamp: string): string {
    Channel.TmpDir + "/daemon_test_" + stamp
  }

  function TestProbe(stamp: string): string {
    "[ -f " + TestFile(stamp) + " ] && echo 'exists' || echo 'not exists'"
  }

  /** The creation test passes: the file is written, probed and removed
      without an exception, and the probe's output is judged to confirm
      the file. */
  predicate TestFilePasses(sh: Shell.Sh, rule: Channel.ProbeRule, stamp: string) {
    Channel.Succeeds(sh, "echo 'test' > " + TestFile(stamp))
    && Channel.Succeeds(sh, TestProbe(stamp))
    && Channel.Succeeds(sh, "rm -f " + TestFile(stamp))
    && Channel.Confirms(rule, Shell.ExecuteSuCommand(sh, TestProbe(stamp)).value)
  }

  const WriteTestCommand: string := "echo 'TEST' > " + Protocol.CommandFile
  const ReadTestCommand: string := "cat " + Protocol.CommandFile

  /** The write test passes: `TEST` is written to the command file and
      read back. */
  predicate CommandFileEchoes(sh: Shell.Sh) {
    Channel.Succeeds(sh, WriteTestCommand) && Channel.Succeeds(sh, ReadTestCommand)
    && Text.Contains(Shell.ExecuteSuCommand(sh, ReadTestCommand).value, "TEST")
  }

  /** Which test answered yes. */
  datatype Liveness = Lookup(index: nat) | CreatedTestFile | WroteCommandFile | NotRunning

  predicate Running(a: Liveness) {
    !a.NotRunning?
  }

  /** The position of the first lookup with output. */
  function FirstAnswer(sh: Shell.Sh, cmds: seq<string>): (r: Protocol.Option<nat>)
    ensures r.Some? ==> r.value < |cmds| && Answers(sh, cmds[r.value])
    ensures r.Some? ==> forall j :: 0 <= j < r.value ==> !Answers(sh, cmds[j])
    ensures r.None? ==> forall i :: 0 <= i < |cmds| ==> !Answers(sh, cmds[i])
  {
    if |cmds| == 0 then Protocol.None
    else if Answers(sh, cmds[0]) then Protocol.Some(0)
    else
      match FirstAnswer(sh, cmds[1..])
      case None => Protocol.None
      case Some(k) => Protocol.Some(k + 1)
  }

  /** `checkDaemonRunning`: the lookups in order, the first with output
      answering yes; then the creation test; then the write test. Every
      exception is swallowed and only moves on to the next test. */
  function CheckDaemonRunning(sh: Shell.Sh, rule: Channel.ProbeRule, stamp: string): (r: Liveness)
    ensures r.Lookup? <==> exists i :: 0 <= i < |LookupCommands| && Answers(sh, LookupCommands[i])
    ensures r.Lookup? ==>
              r.index < |LookupCommands| && Answers(sh, LookupCommands[r.index])
              && forall j :: 0 <= j < r.index ==> !Answers(sh, LookupCommands[j])
    ensures !r.Lookup? ==>
              (r.CreatedTestFile? <==> TestFilePasses(sh, rule, stamp))
              && (r.WroteCommandFile? <==> !TestFilePasses(sh, rule, stamp) && CommandFileEchoes(sh))
  {
    match FirstAnswer(sh, LookupCommands)
    case Some(i) => Lookup(i)
    case None =>
      if TestFilePasses(sh, rule, stamp) then CreatedTestFile
      else if CommandFileEchoes(sh) then WroteCommandFile
      else NotRunning
  }

  /** As written, the creation test passes whenever its three root
      commands go through: both answers the probe can print contain
      `exists`. The corrected probe rejects `not exists`. */
  lemma TestFileAlwaysPasses(sh: Shell.Sh, stamp: string)
    requires Channel.Succeeds(sh, "echo 'test' > " + TestFile(stamp))
    requires Channel.Succeeds(sh, TestProbe(stamp)) && Channel.Succeeds(sh, "rm -f " + TestFile(stamp))
    requires Shell.ExecuteSuCommand(sh, TestProbe(stamp)).value in {"exists", "not exists"}
    ensures Running(CheckDaemonRunning(sh, Channel.AsWritten, stamp))
    ensures Shell.ExecuteSuCommand(sh, TestProbe(stamp)).value == "not exists" ==>
              !TestFilePasses(sh, Channel.Intended, stamp)
  {
    Channel.AsWrittenProbeAcceptsMissingFile();
    Channel.IntendedProbeSeparates();
    Text.ContainsSelf("exists");
  }

  /** With the intended probe rule, a test file the probe reports missing
      no longer counts: when no lookup answers and the command file does
      not echo, the check answers no. */
  lemma MissingTestFileNotRunning(sh: Shell.Sh, stamp: string)
    requires forall i :: 0 <= i < |LookupCommands| ==> !Answers(sh, LookupCommands[i])
    requires !CommandFileEchoes(sh)
    requires Channel.Succeeds(sh, TestProbe(stamp)) && Shell.ExecuteSuCommand(sh, TestProbe(stamp)).value == "not exists"
    ensures CheckDaemonRunning(sh, Channel.Intended, stamp) == NotRunning
  {
    Channel.IntendedProbeSeparates();
  }

  /** Any `app_process` process with output from the fifth lookup makes the
      check answer yes, whether or not the daemon runs. */
  lemma AnyAppProcessCounts(sh: Shell.Sh, rule: Channel.ProbeRule, stamp: string)
    requires Answers(sh, LookupCommands[4])
    ensures CheckDaemonRunning(sh, rule, stamp).Lookup?
  {
  }

  /** Once the device has root and the package is found, the start always
      reports success, even when no technique could be confirmed. */
  lemma StartIsOptimistic(sh: Shell.Sh, d: Device, packageName: string)
    requires d.rooted && d.apkPath.Done?
    requires !Channel.RunSu(sh, DirectCommands(d.apkPath.value, packageName)).ok
    requires !Channel.RunSu(sh, ScriptCommands(d.apkPath.value, packageName)).ok
    requires !Channel.RunSu(sh, NohupCommands(d.apkPath.value, packageName)).ok
    requires !d.native.fileExists
    ensures StartDaemon(sh, d, packageName) == StartDaemon(sh, d, packageName).(ok := true, via := Assumed)
  {
  }

  /** A confirmed earlier technique keeps the later ones from running: with
      the direct start confirmed, no script, nohup or native start is tried. */
  lemma FirstConfirmedWins(sh: Shell.Sh, d: Device, packageName: string)
    requires d.rooted && d.apkPath.Done?
    requires Channel.RunSu(sh, DirectCommands(d.apkPath.value, packageName)).ok && d.alive(0)
    ensures var r := StartDaemon(sh, d, packageName);
      r.via == Direct
      && r.calls == Permissive(sh) + [Channel.SuBatch(SetupCommands)]
                    + Channel.SuCalls(DirectCommands(d.apkPath.value, packageName)) + [Channel.Su(Shell.EnforcingCommand)]
  {
    var cmds := DirectCommands(d.apkPath.value, packageName);
    assert cmds[..|cmds|] == cmds;
  }
}
