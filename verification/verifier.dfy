/** Confirming an injection (`verifyInjectionSuccess`) and the reflective
    system-API injection (`injectLocationUsingSystemApi`).

    The verifier asks five questions in order and answers yes at the first
    one that says yes. An exception escaping any of them makes the whole
    answer no.
 */
module Verifier {
  import Text
  import Shell
  import Protocol

  const PropertyCommand: string := "getprop persist.sys.mock.location"

  const GpsFiles: seq<string> := [
    "/data/misc/location/gps.conf",
    "/data/misc/location/gps_debug.conf",
    "/system/etc/gps.conf",
    "/vendor/etc/gps.conf"
  ]

  /** What the verifier learns outside the shell: whether the app's command
      file exists and is readable (the check may throw), the distance in
      metres from the last known GPS fix to the target (absent without
      permission, fix or on error), and whether a running service carries
      the daemon's class name. */
  datatype Device = Device(
    commandFileReadable: Shell.Attempt<bool>,
    distance: Protocol.Option<real>,
    daemonServiceRunning: bool)

  datatype Check = PropertySet | CommandFileReadable | GpsConfig | NearLastFix | DaemonService

  /** How the property answer is judged: `AsWritten` takes whatever text
      `executeCommand` returns, including its `Error: …` report of a failed
      call; `Intended` takes only output the shell actually produced. */
  datatype PropertyRule = AsWritten | Intended

  predicate PropertyPositive(sh: Shell.Sh, rule: PropertyRule) {
    var value := Text.Trim(Shell.ExecuteCommand(sh, PropertyCommand));
    (rule == Intended ==> sh([PropertyCommand]).Ran?) && value != "" && value != "0"
  }

  /** Whether the `cat` of a file shows a GPS configuration. */
  predicate LooksConfigured(sh: Shell.Sh, file: string) {
    var content := Shell.ExecuteCommand(sh, "cat " + file + " 2>/dev/null");
    Text.Contains(content, "NTP_SERVER") || Text.Contains(content, "XTRA_SERVER")
  }

  predicate AnyConfigured(sh: Shell.Sh, files: seq<string>)
  {
    exists i :: 0 <= i < |files| && LooksConfigured(sh, files[i])
  }

  predicate NearTarget(d: Device) {
    d.distance.Some? && d.distance.value < 1000.0
  }

  /** The answer and the check that gave it. */
  datatype Verdict = Verdict(ok: bool, source: Protocol.Option<Check>)

  /** `verifyInjectionSuccess`. */
  function Verify(sh: Shell.Sh, rule: PropertyRule, d: Device): (r: Verdict)
    ensures r.ok <==> r.source.Some?
    ensures r.ok <==>
              PropertyPositive(sh, rule)
              || (d.commandFileReadable.Done?
                  && (d.commandFileReadable.value || AnyConfigured(sh, GpsFiles) || NearTarget(d) || d.daemonServiceRunning))
    ensures r.source == Protocol.Some(PropertySet) <==> PropertyPositive(sh, rule)
  {
    if PropertyPositive(sh, rule) then Verdict(true, Protocol.Some(PropertySet))
    else match d.commandFileReadable
      case Threw(_) => Verdict(false, Protocol.None)
      case Done(readable) =>
        if readable then Verdict(true, Protocol.Some(CommandFileReadable))
        else if AnyConfigured(sh, GpsFiles) then Verdict(true, Protocol.Some(GpsConfig))
        else if NearTarget(d) then Verdict(true, Protocol.Some(NearLastFix))
        else if d.daemonServiceRunning then Verdict(true, Protocol.Some(DaemonService))
        else Verdict(false, Protocol.None)
  }

  /** A throwing command-file check hides every later signal: only the
      property can still confirm. */
  lemma ThrowHidesLaterChecks(sh: Shell.Sh, rule: PropertyRule, d: Device)
    requires d.commandFileReadable.Threw?
    ensures Verify(sh, rule, d).ok <==> PropertyPositive(sh, rule)
    ensures forall sh' :: !PropertyPositive(sh', rule) ==> !Verify(sh', rule, d.(distance := Protocol.Some(0.0), daemonServiceRunning := true)).ok
  {
  }

  /** As written, a shell that fails to run `getprop` counts as proof of
      injection: the returned `Error: …` text is neither empty nor `0`.
      The intended rule does not accept it. */
  lemma FailedGetpropVerifies(sh: Shell.Sh, d: Device)
    requires sh([PropertyCommand]).Crashed?
    ensures Verify(sh, AsWritten, d).ok
    ensures !PropertyPositive(sh, Intended)
  {
    var text := Shell.ExecuteCommand(sh, PropertyCommand);
    assert text[0] == 'E';
    Text.TrimShape(text);
    TrimKeepsLeadingLetter(text);
  }

  /** Trimming a string that starts with a letter keeps that letter. */
  lemma TrimKeepsLeadingLetter(s: string)
    requires |s| > 0 && 'A' <= s[0] <= 'Z'
    ensures |Text.Trim(s)| > 0 && Text.Trim(s)[0] == s[0]
  {
    assert Text.TrimStart(s) == s;
    assert !Text.IsWhitespace(s[0]);
  }

  /** When the property holds a real value, the verifier confirms by it
      under either rule. */
  lemma PropertyValueVerifies(sh: Shell.Sh, d: Device, value: string)
    requires sh([PropertyCommand]).Ran? && sh([PropertyCommand]).out == value
    requires Text.Trim(value) != "" && Text.Trim(value) != "0"
    ensures Verify(sh, AsWritten, d) == Verdict(true, Protocol.Some(PropertySet))
    ensures Verify(sh, Intended, d) == Verdict(true, Protocol.Some(PropertySet))
  {
  }

  // ---------------------------------------------------------------------
  // System API injection

  /** The hidden `LocationManager` methods tried by reflection, in order. */
  const SystemApiMethods: seq<string> := [
    "setMockLocation",
    "injectLocation",
    "setTestProviderLocation",
    "setMockProviderLocation",
    "mockLocation"
  ]

  /** `injectLocationUsingSystemApi`: fails (throws) only when building the
      request fails; otherwise it tries the methods in order, stops at the
      first that can be called, and succeeds even when none can. The
      result is the position in `SystemApiMethods` of the method that
      worked, if any. */
  function SystemApi(setup: Shell.Attempt<()>, callable: string -> bool): (r: Shell.Attempt<Protocol.Option<nat>>)
    ensures r.Done? <==> setup.Done?
    ensures r.Done? && r.value.Some? ==>
              r.value.value < |SystemApiMethods| && callable(SystemApiMethods[r.value.value])
              && forall j :: 0 <= j < r.value.value ==> !callable(SystemApiMethods[j])
    ensures r.Done? && r.value.None? ==> forall i :: 0 <= i < |SystemApiMethods| ==> !callable(SystemApiMethods[i])
  {
    match setup
    case Threw(m) => Shell.Threw(m)
    case Done(_) => Shell.Done(FirstCallable(SystemApiMethods, callable))
  }

  /** The position of the first callable name. */
  function FirstCallable(names: seq<string>, callable: string -> bool): (r: Protocol.Option<nat>)
    ensures r.Some? ==> r.value < |names| && callable(names[r.value])
    ensures r.Some? ==> forall j :: 0 <= j < r.value ==> !callable(names[j])
    ensures r.None? ==> forall i :: 0 <= i < |names| ==> !callable(names[i])
  {
    if |names| == 0 then Protocol.None
    else if callable(names[0]) then Protocol.Some(0)
    else
      match FirstCallable(names[1..], callable)
      case None => Protocol.None
      case Some(k) => Protocol.Some(k + 1)
  }
}
