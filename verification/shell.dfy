/** The root shell as the service uses it (`RootUtils`), and the two
    command batches the service hands to it: the shell injection fallback
    and the forced write of the position into files.

    The device's shell is a parameter: for every job (the commands sent to
    one `Shell.cmd`/`Shell.su` call) it says whether the job exited with
    status 0 and what it printed, or that the call itself threw.
 */
module Shell {
  import Text
  import Coords

  datatype Run = Ran(success: bool, out: string, err: string) | Crashed(message: string)

  /** What the device's shell does with each job. */
  type Sh = seq<string> -> Run

  /** A Kotlin call that returns a value or throws. */
  datatype Attempt<T> = Done(value: T) | Threw(message: string)

  const ErrorPrefix: string := "Error: "

  /** `executeSuCommand`: the output of a successful command; a failed
      command or a failing call surfaces as an exception. */
  function ExecuteSuCommand(sh: Sh, cmd: string): (r: Attempt<string>)
    ensures r.Done? <==> sh([cmd]).Ran? && sh([cmd]).success
    ensures r.Done? ==> r.value == sh([cmd]).out
  {
    match sh([cmd])
    case Ran(ok, out, err) => if ok then Done(out) else Threw("Root命令执行失败: " + err)
    case Crashed(m) => Threw(m)
  }

  /** `executeSuCommands`: all commands as one job, which must succeed. */
  function ExecuteSuCommands(sh: Sh, cmds: seq<string>): (r: Attempt<()>)
    ensures r.Done? <==> sh(cmds).Ran? && sh(cmds).success
  {
    match sh(cmds)
    case Ran(ok, _, err) => if ok then Done(()) else Threw("Root命令执行失败: " + err)
    case Crashed(m) => Threw(m)
  }

  /** `executeCommand`: never throws; returns the output whatever the exit
      status, or `Error: <message>` when the call itself fails. */
  function ExecuteCommand(sh: Sh, cmd: string): (r: string)
    ensures sh([cmd]).Ran? ==> r == sh([cmd]).out
    ensures sh([cmd]).Crashed? ==> r == ErrorPrefix + sh([cmd]).message
  {
    match sh([cmd])
    case Ran(_, out, _) => out
    case Crashed(m) => ErrorPrefix + m
  }

  /** The single command line `executeCommands` runs. */
  function CommandLine(cmds: seq<string>): string
  {
    Text.Join(cmds, " && ")
  }

  /** `executeCommands`: runs the commands as one `&&` chain and never
      throws; a failed chain or a failing call is reported in the returned
      text, which then starts with `Error: `. */
  function ExecuteCommands(sh: Sh, cmds: seq<string>): (r: string)
    ensures var run := sh([CommandLine(cmds)]);
      && (run.Ran? && run.success ==> r == run.out)
      && (run.Ran? && !run.success ==> r == ErrorPrefix + run.err)
      && (run.Crashed? ==> r == ErrorPrefix + run.message)
      && (!(run.Ran? && run.success) ==> Text.StartsWith(r, ErrorPrefix))
  {
    match sh([CommandLine(cmds)])
    case Ran(ok, out, err) => if ok then out else ErrorPrefix + err
    case Crashed(m) => ErrorPrefix + m
  }

  lemma {:induction false} JoinEnds(parts: seq<string>, sep: string)
    requires |parts| >= 1
    ensures Text.StartsWith(Text.Join(parts, sep), parts[0])
    ensures Text.EndsWith(Text.Join(parts, sep), parts[|parts| - 1])
    decreases |parts|
  {
    if |parts| > 1 {
      JoinEnds(parts[1..], sep);
      var tail := Text.Join(parts[1..], sep);
      assert Text.Join(parts, sep) == parts[0] + sep + tail;
      assert (parts[0] + sep + tail)[..|parts[0]|] == parts[0];
      assert (parts[0] + sep + tail)[|parts[0] + sep + tail| - |parts[|parts| - 1]|..]
        == tail[|tail| - |parts[|parts| - 1]|..];
    }
  }

  const PermissiveCommand: string := "setenforce 0 || true"
  const EnforcingCommand: string := "setenforce 1 || true"
  const LocationDataFile: string := "/data/local/tmp/location_data.txt"

  const AllowMockCommand: string := "settings put secure mock_location 1 || true"
  const PrepareTmpCommand: string := "mkdir -p /data/local/tmp && chmod 777 /data/local/tmp"
  const GpsEnabledBroadcast: string := "am broadcast -a android.location.GPS_ENABLED_CHANGE --ez enabled true 2>/dev/null || true"
  const GpsFixBroadcast: string := "am broadcast -a android.location.GPS_FIX_CHANGE --ez enabled true 2>/dev/null || true"

  /** `injectLocationWithShell`'s batch; `bits` is
      `Float.floatToIntBits(x.toFloat())` as decimal text. */
  function ShellInjectionCommands(packageName: string, c: Coords.Coord, bits: Coords.Numeral -> string): (r: seq<string>)
    ensures |r| == 10
    ensures r[0] == PermissiveCommand && r[|r| - 1] == EnforcingCommand
    ensures r[3] == "echo '" + Coords.Csv(c) + "' > " + LocationDataFile + " && chmod 666 " + LocationDataFile
  {
    var write := "echo '" + Coords.Csv(c) + "' > " + LocationDataFile + " && chmod 666 " + LocationDataFile;
    var serviceCall := "service call location 13 i32 0 f " + bits(c.lat) + " f " + bits(c.lng) + " f " + bits(c.acc)
      + " 2>/dev/null || true";
    var ownBroadcast := "am broadcast -a " + packageName + ".ACTION_MOCK_LOCATION --ef latitude " + c.lat
      + " --ef longitude " + c.lng + " --ef accuracy " + c.acc + " 2>/dev/null || true";
    var setProp := "setprop persist.sys.mock.location " + Coords.Csv(c) + " 2>/dev/null || true";
    [ PermissiveCommand, AllowMockCommand, PrepareTmpCommand, write, serviceCall,
      GpsEnabledBroadcast, GpsFixBroadcast, ownBroadcast, setProp, EnforcingCommand ]
  }

  const GpsDataFile: string := "/data/misc/location/gps_data.txt"
  const PrivateDataFile: string := "/data/data/com.pxlocation.dinwei/files/location_data.txt"
  const ForcedPaths: seq<string> := [LocationDataFile, GpsDataFile, PrivateDataFile]

  /** The four commands that write the position into one file. */
  function ForcedWrite(path: string, data: string): (r: seq<string>)
  {
    var dir := Text.BeforeLast(path, '/');
    [ "mkdir -p " + dir + " 2>/dev/null || true",
      "chmod 777 " + dir + " 2>/dev/null || true",
      "echo '" + data + "' > " + path + " 2>/dev/null || true",
      "chmod 666 " + path + " 2>/dev/null || true" ]
  }

  function ForcedWrites(paths: seq<string>, data: string): (r: seq<string>)
    ensures |r| == 4 * |paths|
    ensures forall k :: 0 <= k < |paths| ==> r[4 * k..4 * k + 4] == ForcedWrite(paths[k], data)
  {
    if |paths| == 0 then []
    else
      var rest := ForcedWrites(paths[1..], data);
      var r := ForcedWrite(paths[0], data) + rest;
      assert forall k :: 1 <= k < |paths| ==> r[4 * k..4 * k + 4] == rest[4 * (k - 1)..4 * (k - 1) + 4];
      r
  }

  /** `forceWriteLocationToFiles`'s batch: every path in `ForcedPaths` gets
      its directory created and opened up, the position written, and the
      file opened up, all between switching SELinux to permissive and back. */
  function ForceWriteCommands(c: Coords.Coord): (r: seq<string>)
    ensures |r| == 2 + 4 * |ForcedPaths|
    ensures r[0] == PermissiveCommand && r[|r| - 1] == EnforcingCommand
    ensures forall k :: 0 <= k < |ForcedPaths| ==>
      r[1 + 4 * k + 2] == "echo '" + Coords.Csv(c) + "' > " + ForcedPaths[k] + " 2>/dev/null || true"
  {
    var body := ForcedWrites(ForcedPaths, Coords.Csv(c));
    var r := [PermissiveCommand] + body + [EnforcingCommand];
    assert forall k :: 0 <= k < |ForcedPaths| ==> r[1 + 4 * k + 2] == body[4 * k..4 * k + 4][2];
    r
  }

  /** Both batches reach the shell as one command line that opens by
      switching SELinux to permissive and closes by switching it back. */
  lemma BatchesBracketed(packageName: string, c: Coords.Coord, bits: Coords.Numeral -> string)
    ensures Text.StartsWith(CommandLine(ShellInjectionCommands(packageName, c, bits)), PermissiveCommand)
    ensures Text.EndsWith(CommandLine(ShellInjectionCommands(packageName, c, bits)), EnforcingCommand)
    ensures Text.StartsWith(CommandLine(ForceWriteCommands(c)), PermissiveCommand)
    ensures Text.EndsWith(CommandLine(ForceWriteCommands(c)), EnforcingCommand)
  {
    JoinEnds(ShellInjectionCommands(packageName, c, bits), " && ");
    JoinEnds(ForceWriteCommands(c), " && ");
  }
}
