/** The service's side of the command file (`sendCommandToDaemon` and
    `sendLocationToDaemon`): SELinux is switched to permissive, the command
    file is written by the first of four shell techniques that works, its
    existence is probed, SELinux is switched back, and on any failure the
    service acts on the command itself.

    Every root command is one `executeSuCommand` call against the device's
    shell (`Shell.Sh`); a call either succeeds with its output or throws.
 */
module Channel {
  import Text
  import Coords
  import Shell
  import Protocol

  const TmpDir: string := "/data/local/tmp"
  const CommandFile: string := Protocol.CommandFile

  /** A call the service makes while sending: one root command, one root
      batch, one `&&` chain, or the native `stopInjection`. */
  datatype Call = Su(cmd: string) | SuBatch(cmds: seq<string>) | Chain(cmds: seq<string>) | NativeStop

  function SuCalls(cmds: seq<string>): (r: seq<Call>)
    ensures |r| == |cmds|
    ensures forall i :: 0 <= i < |cmds| ==> r[i] == Su(cmds[i])
  {
    seq(|cmds|, i requires 0 <= i < |cmds| => Su(cmds[i]))
  }

  predicate Succeeds(sh: Shell.Sh, cmd: string) {
    Shell.ExecuteSuCommand(sh, cmd).Done?
  }

  /** A run of root commands: the calls made, and whether none threw. */
  datatype Step = Step(calls: seq<Call>, ok: bool)

  /** Root commands one after another, stopping at the first that throws. */
  function RunSu(sh: Shell.Sh, cmds: seq<string>): (r: Step)
    ensures r.ok <==> forall i :: 0 <= i < |cmds| ==> Succeeds(sh, cmds[i])
    ensures |r.calls| <= |cmds| && r.calls == SuCalls(cmds[..|r.calls|])
    ensures r.ok ==> |r.calls| == |cmds|
    ensures !r.ok ==>
              (|r.calls| >= 1 && !Succeeds(sh, cmds[|r.calls| - 1])
               && forall i :: 0 <= i < |r.calls| - 1 ==> Succeeds(sh, cmds[i]))
    decreases |cmds|
  {
    if |cmds| == 0 then Step([], true)
    else if !Succeeds(sh, cmds[0]) then Step([Su(cmds[0])], false)
    else
      var rest := RunSu(sh, cmds[1..]);
      SuCallsTail(cmds, |rest.calls|);
      assert forall i :: 1 <= i < |cmds| ==> cmds[i] == cmds[1..][i - 1];
      Step([Su(cmds[0])] + rest.calls, rest.ok)
  }

  /** The calls for a prefix of `n + 1` commands: the first command, then
      the calls for `n` commands of the tail. */
  lemma SuCallsTail(cmds: seq<string>, n: nat)
    requires n < |cmds|
    ensures SuCalls(cmds[..n + 1]) == [Su(cmds[0])] + SuCalls(cmds[1..][..n])
  {
    assert cmds[..n + 1] == [cmds[0]] + cmds[1..][..n];
  }

  /** Preparing the directory and removing any old command file. */
  const PrepareCommands: seq<string> := [
    "mkdir -p " + TmpDir,
    "chmod 777 " + TmpDir,
    "chown system:system " + TmpDir + " || true",
    "chcon u:object_r:system_data_file:s0 " + TmpDir + " || true",
    "rm -f " + CommandFile + " || true"
  ]

  const PermissionCommands: seq<string> := [
    "chmod 666 " + CommandFile,
    "chown system:system " + CommandFile + " || true",
    "chcon u:object_r:system_data_file:s0 " + CommandFile + " || true"
  ]

  const ProbeCommand: string := "[ -f " + CommandFile + " ] && echo 'exists' || echo 'not exists'"

  /** The ways of writing the command file, in the order they are tried. */
  datatype Technique = Echo | HereDoc | Printf | Dd

  const Techniques: seq<Technique> := [Echo, HereDoc, Printf, Dd]

  /** The root commands of one technique; `stamp` is the
      `System.currentTimeMillis()` text naming the scratch file. */
  function TechniqueCommands(t: Technique, command: string, stamp: string): (r: seq<string>)
    ensures |r| >= 2
  {
    match t
    case Echo => ["echo '" + command + "' > " + CommandFile, "chmod 666 " + CommandFile]
    case HereDoc => ["cat > " + CommandFile + " << 'EOF'\n" + command + "\nEOF", "chmod 666 " + CommandFile]
    case Printf => ["printf '%s' '" + command + "' > " + CommandFile, "chmod 666 " + CommandFile]
    case Dd =>
      var scratch := TmpDir + "/temp_command_" + stamp;
      ["echo '" + command + "' > " + scratch, "dd if=" + scratch + " of=" + CommandFile,
       "chmod 666 " + CommandFile, "rm -f " + scratch]
  }

  /** Whether every command of a technique succeeds. */
  predicate TechniqueWorks(sh: Shell.Sh, t: Technique, command: string, stamp: string) {
    forall i :: 0 <= i < |TechniqueCommands(t, command, stamp)| ==> Succeeds(sh, TechniqueCommands(t, command, stamp)[i])
  }

  /** The techniques tried in order until one works. */
  function WriteFile(sh: Shell.Sh, ts: seq<Technique>, command: string, stamp: string): (r: Step)
    ensures r.ok <==> exists k :: 0 <= k < |ts| && TechniqueWorks(sh, ts[k], command, stamp)
    ensures |ts| > 0 && TechniqueWorks(sh, ts[0], command, stamp) ==>
      r.calls == SuCalls(TechniqueCommands(ts[0], command, stamp))
    decreases |ts|
  {
    if |ts| == 0 then Step([], false)
    else
      var first := RunSu(sh, TechniqueCommands(ts[0], command, stamp));
      if first.ok then
        assert first.calls == SuCalls(TechniqueCommands(ts[0], command, stamp)[..|first.calls|]);
        assert TechniqueCommands(ts[0], command, stamp)[..|first.calls|] == TechniqueCommands(ts[0], command, stamp);
        first
      else
        var rest := WriteFile(sh, ts[1..], command, stamp);
        assert forall k :: 1 <= k < |ts| ==> ts[k] == ts[1..][k - 1];
        Step(first.calls + rest.calls, rest.ok)
  }

  /** The calls made by techniques that were tried and did not work, in
      order. */
  function FailedCalls(sh: Shell.Sh, ts: seq<Technique>, command: string, stamp: string): seq<Call>
    decreases |ts|
  {
    if |ts| == 0 then []
    else RunSu(sh, TechniqueCommands(ts[0], command, stamp)).calls + FailedCalls(sh, ts[1..], command, stamp)
  }

  /** The first technique that works ends the attempts: the calls are
      those of the techniques before it, which failed, followed by all of
      its own commands; no later technique runs. */
  lemma {:induction false} FirstWorkingWins(sh: Shell.Sh, ts: seq<Technique>, command: string, stamp: string, k: nat)
    requires k < |ts| && TechniqueWorks(sh, ts[k], command, stamp)
    requires forall j :: 0 <= j < k ==> !TechniqueWorks(sh, ts[j], command, stamp)
    ensures WriteFile(sh, ts, command, stamp).calls
              == FailedCalls(sh, ts[..k], command, stamp) + SuCalls(TechniqueCommands(ts[k], command, stamp))
    decreases k
  {
    if k == 0 {
      FirstWorks(sh, ts, command, stamp);
    } else {
      var tail := ts[1..];
      assert tail[k - 1] == ts[k];
      forall j | 0 <= j < k - 1 ensures !TechniqueWorks(sh, tail[j], command, stamp) {
        assert tail[j] == ts[j + 1];
      }
      FirstWorkingWins(sh, tail, command, stamp, k - 1);
      assert !RunSu(sh, TechniqueCommands(ts[0], command, stamp)).ok;
      FirstWorkingStep(sh, ts, command, stamp, k);
    }
  }

  /** One step of the induction: a failed first technique puts its calls
      in front of the rest's. */
  lemma FirstWorkingStep(sh: Shell.Sh, ts: seq<Technique>, command: string, stamp: string, k: nat)
    requires 0 < k < |ts| && !RunSu(sh, TechniqueCommands(ts[0], command, stamp)).ok
    requires WriteFile(sh, ts[1..], command, stamp).calls
               == FailedCalls(sh, ts[1..][..k - 1], command, stamp) + SuCalls(TechniqueCommands(ts[k], command, stamp))
    ensures WriteFile(sh, ts, command, stamp).calls
              == FailedCalls(sh, ts[..k], command, stamp) + SuCalls(TechniqueCommands(ts[k], command, stamp))
  {
    var head := RunSu(sh, TechniqueCommands(ts[0], command, stamp)).calls;
    var own := SuCalls(TechniqueCommands(ts[k], command, stamp));
    var rest := FailedCalls(sh, ts[1..][..k - 1], command, stamp);
    WriteFileFails(sh, ts, command, stamp);
    FailedCallsPrefix(sh, ts, command, stamp, k);
    Regroup(WriteFile(sh, ts, command, stamp).calls, WriteFile(sh, ts[1..], command, stamp).calls,
            FailedCalls(sh, ts[..k], command, stamp), head, rest, own);
  }

  lemma Regroup<T>(whole: seq<T>, tail: seq<T>, front: seq<T>, head: seq<T>, rest: seq<T>, own: seq<T>)
    requires whole == head + tail && tail == rest + own && front == head + rest
    ensures whole == front + own
  {
  }

  /** A first technique that does not work is followed by the rest. */
  lemma WriteFileFails(sh: Shell.Sh, ts: seq<Technique>, command: string, stamp: string)
    requires |ts| > 0 && !RunSu(sh, TechniqueCommands(ts[0], command, stamp)).ok
    ensures WriteFile(sh, ts, command, stamp).calls
              == RunSu(sh, TechniqueCommands(ts[0], command, stamp)).calls + WriteFile(sh, ts[1..], command, stamp).calls
  {
  }

  /** The failed calls of the first `k` techniques: the first one's, then
      those of the next `k - 1`. */
  lemma FailedCallsPrefix(sh: Shell.Sh, ts: seq<Technique>, command: string, stamp: string, k: nat)
    requires 0 < k <= |ts|
    ensures FailedCalls(sh, ts[..k], command, stamp)
              == RunSu(sh, TechniqueCommands(ts[0], command, stamp)).calls + FailedCalls(sh, ts[1..][..k - 1], command, stamp)
  {
    assert ts[..k][0] == ts[0] && ts[..k][1..] == ts[1..][..k - 1];
  }

  lemma FirstWorks(sh: Shell.Sh, ts: seq<Technique>, command: string, stamp: string)
    requires |ts| > 0 && TechniqueWorks(sh, ts[0], command, stamp)
    ensures WriteFile(sh, ts, command, stamp).calls
              == FailedCalls(sh, ts[..0], command, stamp) + SuCalls(TechniqueCommands(ts[0], command, stamp))
  {
    assert ts[..0] == [];
  }

  /** When no technique works, every one is tried and all their calls are
      made. */
  lemma {:induction false} NoTechniqueWorks(sh: Shell.Sh, ts: seq<Technique>, command: string, stamp: string)
    requires forall j :: 0 <= j < |ts| ==> !TechniqueWorks(sh, ts[j], command, stamp)
    ensures WriteFile(sh, ts, command, stamp).calls == FailedCalls(sh, ts, command, stamp)
    decreases |ts|
  {
    if |ts| > 0 {
      assert !RunSu(sh, TechniqueCommands(ts[0], command, stamp)).ok;
      var tail := ts[1..];
      forall j | 0 <= j < |tail| ensures !TechniqueWorks(sh, tail[j], command, stamp) {
        assert tail[j] == ts[j + 1];
      }
      NoTechniqueWorks(sh, tail, command, stamp);
      WriteFileFails(sh, ts, command, stamp);
    }
  }

  // ---------------------------------------------------------------------
  // The existence probe

  /** How the probe's output is judged. `AsWritten` is the source's
      `contains("exists")`; `Intended` accepts only the line the shell
      prints when the file is there. */
  datatype ProbeRule = AsWritten | Intended

  predicate Confirms(rule: ProbeRule, out: string) {
    match rule
    case AsWritten => Text.Contains(out, "exists")
    case Intended => Text.Trim(out) == "exists"
  }

  /** The as-written probe also accepts the answer for a missing file. */
  lemma AsWrittenProbeAcceptsMissingFile()
    ensures Confirms(AsWritten, "not exists")
  {
    assert Text.OccursAt("not exists", "exists", 4);
    Text.ContainsAt("not exists", "exists", 4);
  }

  /** The intended probe tells the two answers apart. */
  lemma IntendedProbeSeparates()
    ensures Confirms(Intended, "exists")
    ensures !Confirms(Intended, "not exists")
  {
    Text.TrimKeeps("exists");
    Text.TrimKeeps("not exists");
  }

  // ---------------------------------------------------------------------
  // Sending

  /** The inner `try` block: prepare, write, set permissions (failures
      ignored), probe, and read the file back (failure ignored). */
  function TryBlock(sh: Shell.Sh, rule: ProbeRule, command: string, stamp: string): (r: Step)
    ensures r.ok ==> forall i :: 0 <= i < |PrepareCommands| ==> Succeeds(sh, PrepareCommands[i])
    ensures r.ok ==> exists k :: 0 <= k < |Techniques| && TechniqueWorks(sh, Techniques[k], command, stamp)
    ensures r.ok ==> Succeeds(sh, ProbeCommand) && Confirms(rule, Shell.ExecuteSuCommand(sh, ProbeCommand).value)
    ensures (forall i :: 0 <= i < |PrepareCommands| ==> Succeeds(sh, PrepareCommands[i]))
            && (exists k :: 0 <= k < |Techniques| && TechniqueWorks(sh, Techniques[k], command, stamp))
            && Succeeds(sh, ProbeCommand) && Confirms(rule, Shell.ExecuteSuCommand(sh, ProbeCommand).value)
            ==> r.ok
  {
    var prepare := RunSu(sh, PrepareCommands);
    if !prepare.ok then prepare
    else
      var write := WriteFile(sh, Techniques, command, stamp);
      if !write.ok then Step(prepare.calls + write.calls, false)
      else
        var permissions := RunSu(sh, PermissionCommands);
        var calls := prepare.calls + write.calls + permissions.calls + [Su(ProbeCommand)];
        var probe := Shell.ExecuteSuCommand(sh, ProbeCommand);
        if probe.Done? && Confirms(rule, probe.value) then Step(calls + [Su("cat " + CommandFile)], true)
        else Step(calls, false)
  }

  const StopCommands: seq<string> := [
    "settings put secure mock_location 0 || true",
    "settings put secure allow_mock_location 0 || true",
    "am broadcast -a android.location.GPS_ENABLED_CHANGE --ez enabled false || true",
    "am broadcast -a android.location.GPS_FIX_CHANGE --ez enabled false || true"
  ]

  /** What the `catch` branch does with the command. */
  datatype Fallback = Fallback(calls: seq<Call>, injected: Protocol.Option<Coords.Coord>)

  /** The `catch` branch: a `LOCATION…` command is split with Kotlin's
      `split(",")` (trailing empty fields kept) and, if its numbers parse,
      injected through the shell batch; `STOP` stops native injection and
      resets the settings in one root batch; anything else does nothing. */
  function FallbackFor(accepts: string -> bool, packageName: string, bits: Coords.Numeral -> string,
                       command: string): (r: Fallback)
    ensures r.injected.Some? ==> Text.StartsWith(command, Protocol.LocationTag)
    ensures r.injected.Some? ==> r.calls == [Chain(Shell.ShellInjectionCommands(packageName, r.injected.value, bits))]
    ensures command == Protocol.StopCommand ==> r.calls == [NativeStop, SuBatch(StopCommands)]
  {
    if Text.StartsWith(command, Protocol.LocationTag) then
      var parts := Text.SplitOn(command, ',');
      var acc := if |parts| > 3 then parts[3] else Coords.DefaultAccuracy;
      if |parts| >= 3 && accepts(parts[1]) && accepts(parts[2]) && (|parts| > 3 ==> accepts(parts[3])) then
        var c := Coords.Coord(parts[1], parts[2], acc);
        Fallback([Chain(Shell.ShellInjectionCommands(packageName, c, bits))], Protocol.Some(c))
      else Fallback([], Protocol.None)
    else if command == Protocol.StopCommand then Fallback([NativeStop, SuBatch(StopCommands)], Protocol.None)
    else Fallback([], Protocol.None)
  }

  /** The outcome of one send: every call made, whether the command file
      was confirmed, and what the fallback injected. */
  datatype Send = Send(calls: seq<Call>, delivered: bool, injected: Protocol.Option<Coords.Coord>)

  /** `sendCommandToDaemon`. It never throws: every failure ends in the
      fallback. */
  function SendCommand(sh: Shell.Sh, rule: ProbeRule, accepts: string -> bool, packageName: string,
                       bits: Coords.Numeral -> string, stamp: string, command: string): (r: Send)
    ensures |r.calls| >= 1 && r.calls[0] == Su(Shell.PermissiveCommand)
    ensures r.delivered ==> r.calls[|r.calls| - 1] == Su(Shell.EnforcingCommand) && r.injected.None?
    ensures r.delivered <==>
              Succeeds(sh, Shell.PermissiveCommand) && TryBlock(sh, rule, command, stamp).ok
              && Succeeds(sh, Shell.EnforcingCommand)
    ensures !r.delivered ==> r.injected == FallbackFor(accepts, packageName, bits, command).injected
    ensures !r.delivered ==> |FallbackFor(accepts, packageName, bits, command).calls| <= |r.calls|
    ensures !r.delivered ==> r.calls[|r.calls| - |FallbackFor(accepts, packageName, bits, command).calls|..]
                               == FallbackFor(accepts, packageName, bits, command).calls
  {
    var fallback := FallbackFor(accepts, packageName, bits, command);
    if !Succeeds(sh, Shell.PermissiveCommand) then
      Send([Su(Shell.PermissiveCommand)] + fallback.calls, false, fallback.injected)
    else
      var body := TryBlock(sh, rule, command, stamp);
      var calls := [Su(Shell.PermissiveCommand)] + body.calls + [Su(Shell.EnforcingCommand)];
      if body.ok && Succeeds(sh, Shell.EnforcingCommand) then Send(calls, true, Protocol.None)
      else Send(calls + fallback.calls, false, fallback.injected)
  }

  /** Switching SELinux to permissive is always undone: once the first
      call succeeds, the restoring call is made whatever happens in the
      `try` block. */
  lemma PermissiveIsRestored(sh: Shell.Sh, rule: ProbeRule, accepts: string -> bool, packageName: string,
                             bits: Coords.Numeral -> string, stamp: string, command: string)
    requires Succeeds(sh, Shell.PermissiveCommand)
    ensures Su(Shell.EnforcingCommand) in SendCommand(sh, rule, accepts, packageName, bits, stamp, command).calls
  {
    var body := TryBlock(sh, rule, command, stamp);
    var calls := [Su(Shell.PermissiveCommand)] + body.calls + [Su(Shell.EnforcingCommand)];
    assert calls[|calls| - 1] == Su(Shell.EnforcingCommand);
    var fallback := FallbackFor(accepts, packageName, bits, command);
    assert (calls + fallback.calls)[|calls| - 1] == Su(Shell.EnforcingCommand);
  }

  /** `sendLocationToDaemon`: the position as a `LOCATION` command. When
      the file cannot be confirmed, the fallback injects exactly the same
      position through the shell. */
  function SendLocation(sh: Shell.Sh, rule: ProbeRule, accepts: string -> bool, packageName: string,
                        bits: Coords.Numeral -> string, stamp: string, c: Coords.Coord): (r: Send)
    requires Coords.WellFormed(c)
    requires accepts(c.lat) && accepts(c.lng) && accepts(c.acc)
    ensures !r.delivered ==> r.injected == Protocol.Some(c)
    ensures r.delivered ==> r.injected.None?
  {
    FallbackParses(accepts, c);
    SendCommand(sh, rule, accepts, packageName, bits, stamp, Protocol.LocationCommand(c))
  }

  lemma FallbackParses(accepts: string -> bool, c: Coords.Coord)
    requires Coords.WellFormed(c)
    requires accepts(c.lat) && accepts(c.lng) && accepts(c.acc)
    ensures forall packageName, bits :: FallbackFor(accepts, packageName, bits, Protocol.LocationCommand(c)).injected == Protocol.Some(c)
  {
    var cmd := Protocol.LocationCommand(c);
    var parts := [Protocol.LocationTag, c.lat, c.lng, c.acc];
    Protocol.CommandFields(c);
    Text.SplitJoin(parts, ',');
    assert Text.StartsWith(cmd, Protocol.LocationTag);
  }

  /** The fallback parser and the daemon's differ on a trailing comma:
      Kotlin keeps the empty fourth field, which does not parse, while Java
      drops it and the daemon falls back to accuracy 10.0. */
  lemma TrailingCommaDiffers(accepts: string -> bool, lat: Coords.Numeral, lng: Coords.Numeral)
    requires Coords.CommaFree(lat) && Coords.CommaFree(lng) && lng != ""
    requires accepts(lat) && accepts(lng) && !accepts("")
    ensures var cmd := Protocol.LocationTag + "," + lat + "," + lng + ",";
      && Protocol.ParseCommand(accepts, cmd) == Protocol.Locate(Coords.Coord(lat, lng, Coords.DefaultAccuracy))
      && forall packageName, bits :: FallbackFor(accepts, packageName, bits, cmd).injected.None?
  {
    var cmd := Protocol.LocationTag + "," + lat + "," + lng + ",";
    var parts := [Protocol.LocationTag, lat, lng, ""];
    TrailingCommaSplit(lat, lng);
    assert Text.DropTrailingEmpty(parts) == [Protocol.LocationTag, lat, lng] by {
      assert parts[..3] == [Protocol.LocationTag, lat, lng];
    }
    Protocol.JoinThree(Protocol.LocationTag, lat, lng);
    Protocol.JavaSplitJoin([Protocol.LocationTag, lat, lng]);
    assert Protocol.ParseCommand(accepts, cmd) == Protocol.Locate(Coords.Coord(lat, lng, Coords.DefaultAccuracy));
  }

  /** Kotlin's split of a location command with a trailing comma keeps the
      empty last field. */
  lemma TrailingCommaSplit(lat: Coords.Numeral, lng: Coords.Numeral)
    requires Coords.CommaFree(lat) && Coords.CommaFree(lng)
    ensures var cmd := Protocol.LocationTag + "," + lat + "," + lng + ",";
      && Text.SplitOn(cmd, ',') == [Protocol.LocationTag, lat, lng, ""]
      && Text.StartsWith(cmd, Protocol.LocationTag)
      && cmd[|Protocol.LocationTag|] == ','
  {
    var cmd := Protocol.LocationTag + "," + lat + "," + lng + ",";
    var parts := [Protocol.LocationTag, lat, lng, ""];
    Protocol.JoinThree(lat, lng, "");
    assert Text.Join(parts, ",") == cmd by {
      assert parts[1..] == [lat, lng, ""];
    }
    Text.SplitJoin(parts, ',');
  }

  /** When no root command throws, the try block succeeds exactly when
      the probe's output is judged to confirm the file. */
  lemma TryBlockWhenAllSucceed(sh: Shell.Sh, rule: ProbeRule, command: string, stamp: string)
    requires forall cmd :: Succeeds(sh, cmd)
    ensures Succeeds(sh, ProbeCommand)
    ensures TryBlock(sh, rule, command, stamp).ok <==> Confirms(rule, Shell.ExecuteSuCommand(sh, ProbeCommand).value)
  {
    assert Succeeds(sh, ProbeCommand);
    assert RunSu(sh, PrepareCommands).ok;
    assert TechniqueWorks(sh, Techniques[0], command, stamp);
    assert WriteFile(sh, Techniques, command, stamp).ok;
  }

  /** When every root command succeeds but the file is missing (the probe
      prints `not exists`), the as-written probe reports the command as
      delivered and skips the fallback; the intended probe falls back. */
  lemma MissingFileCountsAsDelivered(sh: Shell.Sh, accepts: string -> bool, packageName: string,
                                     bits: Coords.Numeral -> string, stamp: string, command: string)
    requires forall cmd :: Succeeds(sh, cmd)
    requires Succeeds(sh, ProbeCommand) && Shell.ExecuteSuCommand(sh, ProbeCommand).value == "not exists"
    ensures SendCommand(sh, AsWritten, accepts, packageName, bits, stamp, command).delivered
    ensures !SendCommand(sh, Intended, accepts, packageName, bits, stamp, command).delivered
  {
    AsWrittenProbeAcceptsMissingFile();
    IntendedProbeSeparates();
    TryBlockWhenAllSucceed(sh, AsWritten, command, stamp);
    TryBlockWhenAllSucceed(sh, Intended, command, stamp);
    assert Succeeds(sh, Shell.PermissiveCommand) && Succeeds(sh, Shell.EnforcingCommand);
    DeliveredWithSelinuxSwitch(sh, AsWritten, accepts, packageName, bits, stamp, command);
    DeliveredWithSelinuxSwitch(sh, Intended, accepts, packageName, bits, stamp, command);
  }

  /** When both SELinux switches go through, delivery is the try block's. */
  lemma DeliveredWithSelinuxSwitch(sh: Shell.Sh, rule: ProbeRule, accepts: string -> bool, packageName: string,
                                   bits: Coords.Numeral -> string, stamp: string, command: string)
    requires Succeeds(sh, Shell.PermissiveCommand) && Succeeds(sh, Shell.EnforcingCommand)
    ensures SendCommand(sh, rule, accepts, packageName, bits, stamp, command).delivered <==>
              TryBlock(sh, rule, command, stamp).ok
  {
  }
}
