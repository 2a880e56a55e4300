# PXLocation location injection, modelled in Dafny

PXLocation is an Android app for rooted devices. It makes the device report a
position the user picks on a map. The model covers the parts that decide what
happens:

- **The injection service** (`LocationInjectorService`). It starts a root
  daemon, writes commands for it into a file, and runs a six-second tick. The
  tick tries a list of injection methods: first the ones that worked before,
  then a light tier, and on every fifth attempt a heavy tier. It records which
  methods worked and verifies the injection.
- **The root daemon** (`LocationInjectorDaemon`). It polls the command file and
  parses `LOCATION,lat,lng[,acc]` and `STOP`.
- **The native library** (`LocationInjector.cpp`). It covers the property and
  file writes, the NMEA GGA sentence with its checksum and hemisphere letters,
  the injection check, the stop, and the daemon launcher.
- **The search bar** (`SearchBar.kt`). This covers:
  - keyword splitting;
  - the administrative-division short cut;
  - the stable ranking;
  - the loose fallback;
  - merging online answers with the catalog;
  - the five-entry history;
  - what the list under the box shows.
- **The view model** (`LocationViewModel`), which turns button presses into
  requests to the service.

Modules follow the program's structure:

| module | file | models |
|---|---|---|
| `Text` | `text.dfy` | Kotlin/Java string operations: `contains`, `trim`, `split`, `filter`, `distinctBy`, `take` |
| `Coords` | `coords.dfy` | a position as the service carries it (each `Double` as its `toString` text) |
| `Shell` | `shell.dfy` | `RootUtils`' four shell entry points, and the two shell batches |
| `Nmea` | `nmea.dfy` | both NMEA checksums, `%02X`, and the degree/minute split |
| `Native` | `native.dfy` | the native library |
| `Protocol` | `protocol.dfy` | the command-file protocol and the daemon's loop |
| `Channel` | `channel.dfy` | the service's writer of the command file |
| `Launcher` | `launcher.dfy` | `startDaemon` |
| `Verifier` | `verifier.dfy` | `verifyInjectionSuccess`, and the reflective system-API injection |
| `Session` | `session.dfy` | the tick, the lifecycle, `refreshStatus`, `onStartCommand` |
| `Ranking` | `ranking.dfy` | Kotlin's stable `sortedWith(compareByDescending …)` |
| `Search` | `search.dfy` | the search bar |
| `ViewModel` | `viewmodel.dfy` | the view model, and its requests delivered to the service |

Whatever the device, the shell or the network decides becomes a parameter:

- The root shell is a function from a job (its list of commands) to its
  result.
- Native outcomes, the clock, and the map service's tips and points of
  interest are plain values.
- Parsing a `Double` is an `accepts` predicate.
- Formatting with `%f` is a function.
- Kotlin's `ignoreCase` is a character-folding function.

Facts about the code that a reader might not expect:

- A one-character query shows an empty list, not "not found". The code's last
  branch tests `isEmpty`.
- The tick's `Shell`, `FileSystem` and `Emergency` entries are never taken on
  the fast path. The `when` over remembered methods has no branch for them.
- `ACTION_UPDATE_LOCATION` updates the target even when the service is not
  mocking.
- The trailing-comma case differs between the fallback and the daemon.
  `sendCommandToDaemon`'s fallback splits a command with Kotlin's `split`,
  which keeps a trailing empty field. The daemon uses Java's `split`, which
  drops it.

## Model

| member | source | states |
|---|---|---|
| Shell.ExecuteSuCommand | app/src/main/java/com/pxlocation/dinwei/utils/RootUtils.kt:79-99 | returns the output exactly when the root command ran and succeeded; otherwise it throws |
| Shell.ExecuteSuCommands | app/src/main/java/com/pxlocation/dinwei/utils/RootUtils.kt:101-123 | the batch returns normally exactly when the shell ran it with success |
| Shell.ExecuteCommand | app/src/main/java/com/pxlocation/dinwei/utils/RootUtils.kt:159-168 | never throws; gives the output whatever the exit status, and `Error: ` plus the message when the shell call itself fails |
| Shell.ExecuteCommands | app/src/main/java/com/pxlocation/dinwei/utils/RootUtils.kt:176-195 | never throws; runs the commands as one `&&` line and reports a failure as `Error: …` text |
| Shell.ShellInjectionCommands | app/src/main/java/com/pxlocation/dinwei/service/LocationInjectorService.kt:1460-1503 | the ten-command batch opens with `setenforce 0`, closes with `setenforce 1`, and writes the CSV position to the location data file |
| Shell.ForcedWrites | app/src/main/java/com/pxlocation/dinwei/service/LocationInjectorService.kt:689-719 | every path gets its own block of four writes, in order |
| Shell.ForceWriteCommands | app/src/main/java/com/pxlocation/dinwei/service/LocationInjectorService.kt:689-719 | the forced-write batch writes each of the three files and is bracketed by the SELinux switch and its undo |
| Shell.BatchesBracketed | app/src/main/java/com/pxlocation/dinwei/service/LocationInjectorService.kt:1460-1503 | the single command line of either batch starts by going permissive and ends by going enforcing again |
| Nmea.Format02XRoundTrip | app/src/main/java/com/pxlocation/dinwei/service/LocationInjectorService.kt:1567 | `%02X` output reads back as the same number; it has at least two digits, and exactly two below 256 |
| Nmea.XorCountedFilter | app/src/main/java/com/pxlocation/dinwei/service/LocationInjectorService.kt:1560-1568 | `$` and `*` do not contribute to the checksum: it equals the checksum of the string with them removed |
| Nmea.CalculateChecksum | app/src/main/java/com/pxlocation/dinwei/service/LocationInjectorService.kt:1560-1568 | the loop returns `*` and the `%02X` of the exclusive-or of every character after index 0 except `$` and `*` |
| Nmea.NativeChecksumIsXorAll | app/src/main/cpp/LocationInjector.cpp:180-183 | the `unsigned char` accumulator loses nothing: it equals the plain exclusive-or of the bytes |
| Nmea.NativeFraming | app/src/main/cpp/LocationInjector.cpp:186 | the native sentence is `$`, the body, `*`, two upper-case hex digits equal to the checksum, then CR LF |
| Nmea.ChecksumsAgree | app/src/main/cpp/LocationInjector.cpp:179-186 | for an ASCII body the C sentence equals `$`, the body, `*` and the Kotlin checksum of `"$" + body`, then CR LF: the two implementations agree |
| Nmea.SplitDegreesSpec | app/src/main/cpp/LocationInjector.cpp:155-170 | the hemisphere letter is N/E exactly for non-negative input; the degrees are whole, the minutes lie in [0, 60), and together they give the magnitude |
| Native.Property | app/src/main/cpp/LocationInjector.cpp:33-37 | an unset property reads as the empty string |
| Native.SetProperty | app/src/main/cpp/LocationInjector.cpp:40-42 | a writable property store takes the value; all other properties and files are unchanged |
| Native.WriteFile | app/src/main/cpp/LocationInjector.cpp:120-127 | a writable file system gets exactly this content at the path; every other file is unchanged |
| Native.Snprintf | app/src/main/cpp/LocationInjector.cpp:104 | `snprintf` keeps a prefix shorter than the buffer, and the whole text when it fits |
| Native.UntilNul | app/src/main/cpp/LocationInjector.cpp:202-205 | a C string read from a buffer is the prefix before the first NUL |
| Native.InjectLocation | app/src/main/cpp/LocationInjector.cpp:96-143 | always answers true; enables `persist.sys.mock_location` when properties are writable, and writes the truncated `latitude=…` text to gps.conf when files are |
| Native.CheckInjectionSuccess | app/src/main/cpp/LocationInjector.cpp:190-221 | true iff the mock-location property is set to something other than `0`, gps.conf exists, and the first 1023 bytes of gps.conf, up to the first NUL, contain both the 32-byte-truncated `latitude=…` and `longitude=…` needles |
| Native.CheckIffNeedles | app/src/main/cpp/LocationInjector.cpp:190-221 | the same check stated on the file itself: each needle must occur wholly within the first 1023 bytes with no NUL before its end |
| Native.InjectThenCheck | app/src/main/cpp/LocationInjector.cpp:96-221 | an injection the device accepted, whose text fits the buffer, is confirmed by the check for the same coordinates |
| Native.DataHoldsNeedles | app/src/main/cpp/LocationInjector.cpp:115-118 | the gps.conf text contains both `latitude=` and `longitude=` needles, even after the needles' 32-byte truncation |
| Native.StopInjection | app/src/main/cpp/LocationInjector.cpp:224-237 | always answers true; leaves files alone and runs exactly the `pkill` command |
| Native.StopThenCheckFails | app/src/main/cpp/LocationInjector.cpp:190-237 | after a stop on a device that accepts property writes, the injection check fails |
| Native.StartInjectorDaemon | app/src/main/cpp/LocationInjector.cpp:45-93 | a missing or non-executable daemon file fails without running anything; otherwise it runs the one launch command and succeeds iff `system` returns 0 |
| Protocol.ReadCommandFile | app/src/main/java/com/pxlocation/dinwei/service/LocationInjectorDaemon.java:121-131 | the read is a prefix of the file, and what it drops is nothing, a final CR LF, or one final line-break character; a file not ending in a line break is read whole |
| Protocol.ReadBackWritten | app/src/main/java/com/pxlocation/dinwei/service/LocationInjectorDaemon.java:121-131 | what `echo` or `printf` writes for a command reads back as exactly that command |
| Protocol.ParseCommand | app/src/main/java/com/pxlocation/dinwei/service/LocationInjectorDaemon.java:136-166 | `STOP` and only `STOP` stops; a line is a location iff its Java-split fields number at least three, the first is `LOCATION`, and the numbers parse; the position is those fields, with accuracy 10.0 when the fourth is absent |
| Protocol.LocationRoundTrip | app/src/main/java/com/pxlocation/dinwei/service/LocationInjectorDaemon.java:136-166 | the daemon parses the service's `LOCATION,lat,lng,acc` line back into exactly that position |
| Protocol.DefaultAccuracyApplies | app/src/main/java/com/pxlocation/dinwei/service/LocationInjectorDaemon.java:140-146 | a three-field `LOCATION` line gets accuracy 10.0 |
| Protocol.UnparsableIgnored | app/src/main/java/com/pxlocation/dinwei/service/LocationInjectorDaemon.java:160-165 | a number that fails to parse makes the daemon ignore the line |
| Protocol.ProcessCommand | app/src/main/java/com/pxlocation/dinwei/service/LocationInjectorDaemon.java:136-166 | a location is injected and becomes current; `STOP` ends the loop without injecting; anything else changes nothing |
| Protocol.Boot | app/src/main/java/com/pxlocation/dinwei/service/LocationInjectorDaemon.java:41-86 | the loop starts exactly with a package argument, a service manager and a location service |
| Protocol.Listen | app/src/main/java/com/pxlocation/dinwei/service/LocationInjectorDaemon.java:91-116 | a stopped daemon stays as it is; the injected history only grows |
| Protocol.ListenAfterStop | app/src/main/java/com/pxlocation/dinwei/service/LocationInjectorDaemon.java:91-116 | once the loop has stopped, later polls change nothing |
| Protocol.ListenRunsUntilStop | app/src/main/java/com/pxlocation/dinwei/service/LocationInjectorDaemon.java:91-116 | the loop keeps running iff no poll reads `STOP` |
| Protocol.EchoedLocationDelivered | app/src/main/java/com/pxlocation/dinwei/service/LocationInjectorDaemon.java:91-166 | a position the service writes with `echo` is injected by a running daemon and becomes its current position |
| Channel.RunSu | app/src/main/java/com/pxlocation/dinwei/service/LocationInjectorService.kt:1307-1315 | root commands run in order up to the first one that throws; the run succeeds iff every command succeeds |
| Channel.WriteFile | app/src/main/java/com/pxlocation/dinwei/service/LocationInjectorService.kt:1317-1371 | the write succeeds iff some technique works, and the first technique that works ends the attempts |
| Channel.FirstWorkingWins | app/src/main/java/com/pxlocation/dinwei/service/LocationInjectorService.kt:1317-1371 | when technique k is the first that works, the calls are the failed runs of the techniques before it followed by technique k's commands, and nothing after |
| Channel.NoTechniqueWorks | app/src/main/java/com/pxlocation/dinwei/service/LocationInjectorService.kt:1317-1371 | when no technique works, every technique's failed run is made, in order |
| Channel.TryBlock | app/src/main/java/com/pxlocation/dinwei/service/LocationInjectorService.kt:1307-1401 | the try block succeeds iff the directory is prepared, some technique writes the file, the probe runs, and the probe rule confirms its output |
| Channel.FallbackFor | app/src/main/java/com/pxlocation/dinwei/service/LocationInjectorService.kt:1410-1453 | a `LOCATION` command falls back to the shell injection batch; `STOP` falls back to the native stop and the stop batch |
| Channel.SendCommand | app/src/main/java/com/pxlocation/dinwei/service/LocationInjectorService.kt:1296-1454 | opens with `setenforce 0`; the command counts as delivered iff `setenforce 0`, the try block and the `setenforce 1` of the `finally` all succeed, and then it ends with `setenforce 1`; otherwise the fallback's calls come last |
| Channel.PermissiveIsRestored | app/src/main/java/com/pxlocation/dinwei/service/LocationInjectorService.kt:1403-1406 | once the switch to permissive went through, the switch back is always issued |
| Channel.SendLocation | app/src/main/java/com/pxlocation/dinwei/service/LocationInjectorService.kt:1283-1291 | an undelivered position is injected through the shell fallback as the same position |
| Channel.FallbackParses | app/src/main/java/com/pxlocation/dinwei/service/LocationInjectorService.kt:1415-1425 | the fallback parses the service's own `LOCATION` line back into the same position |
| Channel.TrailingCommaDiffers | app/src/main/java/com/pxlocation/dinwei/service/LocationInjectorService.kt:1416-1421 | with a trailing comma the Kotlin fallback ignores the line (the empty accuracy does not parse), while the daemon takes it with the default accuracy |
| Channel.TryBlockWhenAllSucceed | app/src/main/java/com/pxlocation/dinwei/service/LocationInjectorService.kt:1383-1401 | when no root command throws, delivery depends on the probe's answer alone |
| Channel.AsWrittenProbeAcceptsMissingFile | app/src/main/java/com/pxlocation/dinwei/service/LocationInjectorService.kt:1383-1384 | the probe test `contains("exists")` also accepts `not exists` |
| Channel.MissingFileCountsAsDelivered | app/src/main/java/com/pxlocation/dinwei/service/LocationInjectorService.kt:1383-1401 | with a missing file the as-written rule reports delivery and skips the fallback; the intended rule does not |
| Channel.IntendedProbeSeparates | app/src/main/java/com/pxlocation/dinwei/service/LocationInjectorService.kt:1383-1384 | the intended probe test accepts `exists` and rejects `not exists` |
| Launcher.CheckDaemonRunning | app/src/main/java/com/pxlocation/dinwei/service/LocationInjectorService.kt:1221-1278 | the answer is the first lookup with output, iff any has output; otherwise the test-file probe, iff it passes; otherwise the command-file echo, iff it reads back |
| Launcher.TestFileAlwaysPasses | app/src/main/java/com/pxlocation/dinwei/service/LocationInjectorService.kt:1246-1253 | when the root shell can create, probe and remove the test file, the as-written check answers yes even if the probe printed `not exists`; the intended rule rejects `not exists` |
| Launcher.MissingTestFileNotRunning | app/src/main/java/com/pxlocation/dinwei/service/LocationInjectorService.kt:1221-1278 | under the intended probe rule, a test file reported `not exists` no longer counts: with no lookup answer and no command-file echo the check answers no |
| Launcher.AnyAppProcessCounts | app/src/main/java/com/pxlocation/dinwei/service/LocationInjectorService.kt:1224-1239 | any output of the fifth lookup, which lists every `app_process`, makes the check answer yes |
| Launcher.Permissive | app/src/main/java/com/pxlocation/dinwei/service/LocationInjectorService.kt:1053-1071 | the permissive switch is always the first call |
| Launcher.TryShell | app/src/main/java/com/pxlocation/dinwei/service/LocationInjectorService.kt:1099-1118 | a shell technique is confirmed iff all its commands go through and the daemon is then seen running |
| Launcher.Techniques | app/src/main/java/com/pxlocation/dinwei/service/LocationInjectorService.kt:1099-1202 | the techniques always report success; each technique wins iff it is confirmed and every earlier one was not (direct, script, `nohup`, JNI); the optimistic default is reported iff none was confirmed |
| Launcher.StartDaemon | app/src/main/java/com/pxlocation/dinwei/service/LocationInjectorService.kt:1042-1216 | succeeds iff the device is rooted and the APK path is found, and then reports the technique `Launcher.Techniques` picks; always ends by restoring enforcing mode |
| Launcher.StartIsOptimistic | app/src/main/java/com/pxlocation/dinwei/service/LocationInjectorService.kt:1196-1202 | with root and the APK found, the start reports success even when every technique failed |
| Launcher.FirstConfirmedWins | app/src/main/java/com/pxlocation/dinwei/service/LocationInjectorService.kt:1099-1118 | a confirmed direct launch returns at once and the later techniques never run |
| Verifier.Verify | app/src/main/java/com/pxlocation/dinwei/service/LocationInjectorService.kt:938-1010 | verified iff the property check or, when the file check does not throw, any later check says yes; the property is credited exactly when it says yes |
| Verifier.ThrowHidesLaterChecks | app/src/main/java/com/pxlocation/dinwei/service/LocationInjectorService.kt:949-954 | a throwing command-file check leaves only the property able to confirm |
| Verifier.FailedGetpropVerifies | app/src/main/java/com/pxlocation/dinwei/service/LocationInjectorService.kt:943-947 | a failing `getprop` call verifies as written; the intended rule does not accept it |
| Verifier.PropertyValueVerifies | app/src/main/java/com/pxlocation/dinwei/service/LocationInjectorService.kt:943-947 | a real property value confirms under either rule and is credited to the property |
| Verifier.SystemApi | app/src/main/java/com/pxlocation/dinwei/service/LocationInjectorService.kt:632-678 | throws only when building the request fails; otherwise it calls the first callable hidden method, or none |
| Session.CurrentLocation | app/src/main/java/com/pxlocation/dinwei/service/LocationInjectorService.kt:121-127 | a position is reported exactly while mocking, and it is the target |
| Session.Wrap32 | app/src/main/java/com/pxlocation/dinwei/service/LocationInjectorService.kt:318 | the attempt counter is a 32-bit two's-complement `Int` |
| Session.Try | app/src/main/java/com/pxlocation/dinwei/service/LocationInjectorService.kt:334-371 | each remembered method succeeds under its own condition; the private-file write and the broadcast are recorded but never end the search; other names do nothing |
| Session.TryAll | app/src/main/java/com/pxlocation/dinwei/service/LocationInjectorService.kt:327-376 | every method in the list is tried; the pass succeeds iff one of them does |
| Session.HeavyTier | app/src/main/java/com/pxlocation/dinwei/service/LocationInjectorService.kt:456-491 | always ends with success; the shell runs exactly when nothing earlier worked; the file-system write is never recorded |
| Session.Record | app/src/main/java/com/pxlocation/dinwei/service/LocationInjectorService.kt:494-534 | with the tick's verification rule: a confirmed or non-empty tick replaces the remembered list and shows mocking; an empty heavy tick adds the emergency entry; otherwise the tick waits and keeps the saved status; at most one toast |
| Session.Tick | app/src/main/java/com/pxlocation/dinwei/service/LocationInjectorService.kt:309-396 | skipped while a heavy tick runs; otherwise it counts the attempt; it takes the fast path exactly when the remembered list succeeds, and goes heavy exactly on attempt 1 and every fifth attempt |
| Session.Slow | app/src/main/java/com/pxlocation/dinwei/service/LocationInjectorService.kt:391-534 | the shell is recorded iff the tick is heavy and both the light tier and the system API failed; the remembered pass's entries come first; a confirmed or non-empty tick shows mocking, an unconfirmed empty light tick shows waiting and keeps the saved status |
| Session.HeavyTickRecords | app/src/main/java/com/pxlocation/dinwei/service/LocationInjectorService.kt:456-529 | a heavy tick always records a method, so the emergency branch is never reached |
| Session.ShellOnlyAsLastResort | app/src/main/java/com/pxlocation/dinwei/service/LocationInjectorService.kt:456-476 | the shell batch is recorded exactly on a heavy tick where neither the light tier nor the system API worked |
| Session.TickOutcome | app/src/main/java/com/pxlocation/dinwei/service/LocationInjectorService.kt:494-534 | past the fast path, a confirmed or non-empty tick replaces the remembered list and shows mocking; otherwise the list and the saved status are kept and the notice is waiting |
| Session.TryAllRecordsOnlyListed | app/src/main/java/com/pxlocation/dinwei/service/LocationInjectorService.kt:327-376 | the remembered pass only records light-tier methods or the system API |
| Session.WeakMethodsFallThrough | app/src/main/java/com/pxlocation/dinwei/service/LocationInjectorService.kt:379-384 | a remembered list of only the private-file write and the broadcast never takes the fast path |
| Session.DuplicatesAccumulate | app/src/main/java/com/pxlocation/dinwei/service/LocationInjectorService.kt:327-512 | a method recorded in a failed remembered pass and again in the light tier is remembered twice |
| Session.JniAloneKeepsFastPath | app/src/main/java/com/pxlocation/dinwei/service/LocationInjectorService.kt:379-384 | with JNI remembered, the answer of the native `injectLocation`, which is always true, makes every tick take the fast path and keep the list, whatever the device |
| Session.JniKeepsFastPath | app/src/main/java/com/pxlocation/dinwei/service/LocationInjectorService.kt:334-384 | once JNI is remembered and answers true, every tick takes the fast path and keeps the list |
| Session.RememberedStable | app/src/main/java/com/pxlocation/dinwei/service/LocationInjectorService.kt:327-384 | over any run of ticks in which JNI answers true, the remembered list never changes |
| Session.ToastAtMostOnce | app/src/main/java/com/pxlocation/dinwei/service/LocationInjectorService.kt:498-529 | the success toast is shown at most once per target |
| Session.CounterCountsTicks | app/src/main/java/com/pxlocation/dinwei/service/LocationInjectorService.kt:311-318 | consecutive ticks never find the heavy flag set, and the n-th tick is attempt n |
| Session.CounterWraps | app/src/main/java/com/pxlocation/dinwei/service/LocationInjectorService.kt:318-396 | past `Int.MAX_VALUE` the counter wraps to `Int.MIN_VALUE`, which is not a try-everything attempt |
| Session.Fire | app/src/main/java/com/pxlocation/dinwei/service/LocationInjectorService.kt:135-142 | the callback ticks and reposts only while mocking, and otherwise drops out |
| Session.Update | app/src/main/java/com/pxlocation/dinwei/service/LocationInjectorService.kt:291-304 | sets the target, re-arms the toast, and changes nothing else |
| Session.Start | app/src/main/java/com/pxlocation/dinwei/service/LocationInjectorService.kt:207-254 | while mocking it is an update; otherwise it launches the daemon iff not yet started; it mocks iff the daemon is up; a failed launch stops the service; history is kept |
| Session.Stop | app/src/main/java/com/pxlocation/dinwei/service/LocationInjectorService.kt:259-286 | the ticks stop, `STOP` is sent with the host's probe rule, the native `stopInjection` is called last, the service ends, and no position is reported |
| Session.StopEndsTicks | app/src/main/java/com/pxlocation/dinwei/service/LocationInjectorService.kt:135-142 | after a stop the pending callback changes nothing |
| Session.RestartKeepsHistory | app/src/main/java/com/pxlocation/dinwei/service/LocationInjectorService.kt:207-286 | a stop then a start keeps the counter and the remembered list |
| Session.Refresh | app/src/main/java/com/pxlocation/dinwei/service/LocationInjectorService.kt:1686-1740 | a confirmed injection is saved as `Verified`; otherwise it re-injects, JNI is listed iff it answered true, and the shell is always listed as a success |
| Session.CrashedGetpropRefreshes | app/src/main/java/com/pxlocation/dinwei/service/LocationInjectorService.kt:1686-1740 | under the as-written rule a crashed `getprop` call (checked at lines 943-947) makes the refresh save `Verified` |
| Session.CrashedGetpropConfirmsTick | app/src/main/java/com/pxlocation/dinwei/service/LocationInjectorService.kt:494-534 | under the as-written rule a crashed `getprop` call (checked at lines 943-947) confirms the tick, so a light tick saves its methods and shows mocking; under the intended rule an empty unconfirmed light tick waits |
| Session.StopMissingFileDelivered | app/src/main/java/com/pxlocation/dinwei/service/LocationInjectorService.kt:1383-1401 | when every root command succeeds but the file is missing, the as-written `stopMockLocation` (lines 259-286) counts `STOP` as delivered and skips the fallback, while the intended probe sends the stop batch |
| Session.Handle | app/src/main/java/com/pxlocation/dinwei/service/LocationInjectorService.kt:160-187 | a start for a ready service reports the new position; a stop ends reporting; an update moves the target; a refresh keeps target and mode |
| Ranking.Insert | app/src/main/java/com/pxlocation/dinwei/ui/components/SearchBar.kt:318-337 | insertion adds exactly one element and keeps the rest |
| Ranking.SortDescending | app/src/main/java/com/pxlocation/dinwei/ui/components/SearchBar.kt:318-337 | the sort is a permutation |
| Ranking.InsertDescending | app/src/main/java/com/pxlocation/dinwei/ui/components/SearchBar.kt:318-337 | inserting into a descending sequence keeps it descending |
| Ranking.SortedDescending | app/src/main/java/com/pxlocation/dinwei/ui/components/SearchBar.kt:318-337 | the sorted sequence never increases in score |
| Ranking.InsertBand | app/src/main/java/com/pxlocation/dinwei/ui/components/SearchBar.kt:318-337 | the inserted element goes first among its score and leaves every other score's order alone |
| Ranking.SortStable | app/src/main/java/com/pxlocation/dinwei/ui/components/SearchBar.kt:318-337 | elements of equal score keep their input order |
| Ranking.SortSpec | app/src/main/java/com/pxlocation/dinwei/ui/components/SearchBar.kt:318-337 | the sort is a permutation, descending and stable |
| Search.KeywordsSpec | app/src/main/java/com/pxlocation/dinwei/ui/components/SearchBar.kt:285-287 | each keyword is the trim of a non-empty piece of the query split at the four delimiters, in order |
| Search.OnlyDelimitersNoKeywords | app/src/main/java/com/pxlocation/dinwei/ui/components/SearchBar.kt:285-287 | a query of delimiters only has no keywords |
| Search.PlainQueryOneKeyword | app/src/main/java/com/pxlocation/dinwei/ui/components/SearchBar.kt:285-287 | a query without delimiters is one keyword, the trimmed query |
| Search.TabGivesEmptyKeyword | app/src/main/java/com/pxlocation/dinwei/ui/components/SearchBar.kt:285-287 | emptiness is tested before trimming, so a tab yields one empty keyword |
| Search.AdminByLastCharacter | app/src/main/java/com/pxlocation/dinwei/ui/components/SearchBar.kt:294-296 | a title is administrative iff its last character is 市, 区, 县 or 省 |
| Search.KeywordPoints | app/src/main/java/com/pxlocation/dinwei/ui/components/SearchBar.kt:321-328 | a keyword earns points iff it equals the title or occurs in the title or snippet |
| Search.Score | app/src/main/java/com/pxlocation/dinwei/ui/components/SearchBar.kt:318-336 | the score is the keyword points plus exactly 30 for an administrative title |
| Search.PointsIffMatch | app/src/main/java/com/pxlocation/dinwei/ui/components/SearchBar.kt:307-328 | a place earns keyword points iff it passes the match filter |
| Search.LocalSearch | app/src/main/java/com/pxlocation/dinwei/ui/components/SearchBar.kt:278-371 | an empty query clears the results; every result comes from the catalog |
| Search.AdminShortCircuit | app/src/main/java/com/pxlocation/dinwei/ui/components/SearchBar.kt:292-304 | when an administrative title contains the query, the results are exactly such titles, in catalog order |
| Search.RankedWhenMatched | app/src/main/java/com/pxlocation/dinwei/ui/components/SearchBar.kt:307-339 | otherwise, with matches, the results are the matching places as a permutation, descending by score and stable |
| Search.RankedBranch | app/src/main/java/com/pxlocation/dinwei/ui/components/SearchBar.kt:316-339 | with matches and no administrative hit, the result is the stable sort of the matches |
| Search.LooseOnlyWhenNothingMatched | app/src/main/java/com/pxlocation/dinwei/ui/components/SearchBar.kt:341-359 | a result that matches no keyword only comes from the loose fallback when nothing in the catalog matched |
| Search.LooseWhenNothingMatched | app/src/main/java/com/pxlocation/dinwei/ui/components/SearchBar.kt:292-359 | with no administrative hit and no match, the results are exactly the catalog places passing the loose test, in catalog order |
| Search.TipPlaces | app/src/main/java/com/pxlocation/dinwei/ui/components/SearchBar.kt:391-399 | only tips with a point become places, in order; none at all iff no tip has a point |
| Search.PoiPlaces | app/src/main/java/com/pxlocation/dinwei/ui/components/SearchBar.kt:402-408 | every point of interest becomes a place; one without a point makes the whole conversion fail |
| Search.Mentioning | app/src/main/java/com/pxlocation/dinwei/ui/components/SearchBar.kt:417-420 | exactly the catalog places whose title or snippet contains the keyword |
| Search.MergeSpec | app/src/main/java/com/pxlocation/dinwei/ui/components/SearchBar.kt:411-434 | the merge is one de-duplication by title of local then online places: the local ones first, titles distinct, every title covered |
| Search.OnlineSearch | app/src/main/java/com/pxlocation/dinwei/ui/components/SearchBar.kt:374-464 | a blank keyword changes nothing; a point of interest without a point falls back to the local search |
| Search.OnlineResults | app/src/main/java/com/pxlocation/dinwei/ui/components/SearchBar.kt:417-453 | the results are the merge when it is non-empty, which is when some local match or located answer exists; otherwise the two-character fuzzy match |
| Search.Typed | app/src/main/java/com/pxlocation/dinwei/ui/components/SearchBar.kt:496-513 | an empty query clears the results, one character keeps them, two or more run the online search |
| Search.AddToHistory | app/src/main/java/com/pxlocation/dinwei/ui/components/SearchBar.kt:467-478 | the place goes first, no other entry shares its title, at most five entries remain, and the rest keep their order |
| Search.AddToHistoryIdempotent | app/src/main/java/com/pxlocation/dinwei/ui/components/SearchBar.kt:467-478 | selecting the same place twice is the same as once |
| Search.HistoryInvariant | app/src/main/java/com/pxlocation/dinwei/ui/components/SearchBar.kt:467-478 | any history built by selections has at most five entries with distinct titles, the latest first |
| Search.Display | app/src/main/java/com/pxlocation/dinwei/ui/components/SearchBar.kt:605-673 | results, else history for an empty query, else "not found" from two characters, else the first ten catalog places for an empty query, else nothing |
| Search.Shown | app/src/main/java/com/pxlocation/dinwei/ui/components/SearchBar.kt:588-673 | nothing is drawn exactly outside search mode; in search mode the list is the one `Search.Display` describes |
| Search.Edit | app/src/main/java/com/pxlocation/dinwei/ui/components/SearchBar.kt:494-533 | typing sets the query and enters search mode, keeping the history; the results change only when the query changed: cleared for an empty query, kept for one character, the online search from two |
| Search.Clear | app/src/main/java/com/pxlocation/dinwei/ui/components/SearchBar.kt:494-557 | the clear button exists only for a non-empty query; it empties the query and the results, leaves search mode, and keeps the history |
| Search.ClearedQueryShows | app/src/main/java/com/pxlocation/dinwei/ui/components/SearchBar.kt:494-673 | deleting the whole query by typing keeps search mode, so the list shows the history, or the first ten catalog places when there is none |
| Search.ClearButtonHides | app/src/main/java/com/pxlocation/dinwei/ui/components/SearchBar.kt:551-588 | after the clear button nothing is drawn, whatever the history holds; typing again brings the list back |
| Search.SelectHides | app/src/main/java/com/pxlocation/dinwei/ui/components/SearchBar.kt:481-588 | selecting a place leaves search mode, so the list disappears |
| Search.Select | app/src/main/java/com/pxlocation/dinwei/ui/components/SearchBar.kt:481-513 | the place joins the history, fills the box, leaves search mode, and its position is reported; the new query re-runs the query-keyed effect, so the results are those that typing the title would give |
| Search.OneCharAfterSelect | app/src/main/java/com/pxlocation/dinwei/ui/components/SearchBar.kt:481-533 | after selecting a place with a new title of two or more characters, typing one character shows the online results for that title, not those of the earlier query |
| ViewModel.Target | app/src/main/java/com/pxlocation/dinwei/viewmodel/LocationViewModel.kt:210-214 | a selection is sent with its own coordinates and accuracy 10.0 |
| ViewModel.Init | app/src/main/java/com/pxlocation/dinwei/viewmodel/LocationViewModel.kt:64-146 | the mocking flag and, while mocking, the selection follow the service |
| ViewModel.RootChecked | app/src/main/java/com/pxlocation/dinwei/viewmodel/LocationViewModel.kt:107-123 | root clears the error; no root reports it and leaves the mocking flag alone |
| ViewModel.Start | app/src/main/java/com/pxlocation/dinwei/viewmodel/LocationViewModel.kt:197-233 | no selection sends nothing and reports it; otherwise a start request for the selection, or the failure message with mocking off |
| ViewModel.Stop | app/src/main/java/com/pxlocation/dinwei/viewmodel/LocationViewModel.kt:238-262 | a stop request and mocking off, or on failure nothing sent and the error shown |
| ViewModel.Update | app/src/main/java/com/pxlocation/dinwei/viewmodel/LocationViewModel.kt:267-306 | no selection reports it; not mocking is a start; mocking sends an update for the selection |
| ViewModel.SetSelected | app/src/main/java/com/pxlocation/dinwei/viewmodel/LocationViewModel.kt:88-95 | records the selection; a request is sent iff mocking and the send works |
| ViewModel.Refresh | app/src/main/java/com/pxlocation/dinwei/viewmodel/LocationViewModel.kt:161-184 | the mocking flag follows the service; a refresh request goes out iff the service mocks |
| ViewModel.Cleared | app/src/main/java/com/pxlocation/dinwei/viewmodel/LocationViewModel.kt:325-331 | a running mock is stopped; otherwise nothing changes |
| ViewModel.StartReachesService | app/src/main/java/com/pxlocation/dinwei/viewmodel/LocationViewModel.kt:197-233 | a delivered start makes a ready service report exactly the selected position at accuracy 10.0 |
| ViewModel.SelectionReachesService | app/src/main/java/com/pxlocation/dinwei/viewmodel/LocationViewModel.kt:88-95 | selecting while mocking moves the service's target; otherwise nothing reaches the service |
| ViewModel.StopReachesService | app/src/main/java/com/pxlocation/dinwei/viewmodel/LocationViewModel.kt:238-262 | a delivered stop leaves the service with no position |
| ViewModel.RefreshAgrees | app/src/main/java/com/pxlocation/dinwei/viewmodel/LocationViewModel.kt:161-184 | after a refresh the view model and the service agree on whether a mock runs |

## Left out

- I/O is left out: logging, toasts, notifications, `startForeground` and the shared-preferences write. The model keeps only the values written: the notice text, the toast's method list and the saved status.
- Threads are left out: coroutines, `Dispatchers`, the `Handler` looper and the `@Volatile`/`AtomicBoolean` flags. Each operation runs to completion in one step, so races between the tick and a request are not modelled.
- Time is a parameter: the six-second tick interval, the 300 ms debounce, the five-second view-model refresh loop (`startStatusRefresh`) and the daemon's one-second poll sleep. Ticks, polls and refreshes are sequences of steps.
- `injectWithMockProvider`, the private-file write, the broadcast, the daemon send inside the tick and the JNI answer are per-tick outcome values. Their own Android API calls are foreign code.
- `emergencyLocationInjection` is left out. The heavy tier always records a method (`Session.HeavyTickRecords`), so it is never reached.
- `calculateDistance` and `getLastKnownLocation` are left out. They are floating-point work; the verifier takes the distance as an optional value.
- `checkDaemonRunning` is modelled as `Launcher.CheckDaemonRunning`, but `Launcher.StartDaemon` takes its answer after each technique as a parameter, because each technique changes the device between checks. The check answers yes whenever the root shell can create, probe and remove a test file (`Launcher.TestFileAlwaysPasses`), and its fifth lookup matches any `app_process` (`Launcher.AnyAppProcessCounts`), so a yes does not mean the daemon runs.
- `System.currentTimeMillis()` in the test-file name is a `stamp` parameter.
- `generateNMEAData` on the Kotlin side is left out. Only its `calculateChecksum` is modelled, with the native sentence as the second implementation.
- The native `%f`, `%02.0f` and `%09.6f` renderings and `time()` are left out. They are formatting of doubles and the clock, so they are parameters. The degree/minute split uses real arithmetic.
- The daemon's own injection paths are left out: `injectLocation`, `injectLocationToFiles`, `sendLocationBroadcast` and `setMockLocation` in the Java daemon are reflection and file I/O. An injection is a recorded position.
- The map service (`searchInputTips`, `searchPOI`) is left out. Its answers are parameters; each returns an empty list on failure, as the code does.
- The catalog (`allLocations`) is a parameter. Its several hundred entries are data, not logic.
- Kotlin's `ignoreCase` is left out. It is Unicode case folding, so it is the `fold` parameter.
- `isSearching`, with the progress indicator it draws in place of the list while a search runs, the clear-history button, `setLocationAddress`, `setMockStatus` and `setErrorMessage` are left out. They are plain UI field writes with no logic.
- `RootUtils.isDeviceRooted`, `checkRootAsync` and `requestRoot` are left out. They are root detection, so root is a boolean parameter.
- The `catch` around `searchWithAmapAPI` in the typing effect is left out. `searchWithAmapAPI` catches everything itself, so this catch is never reached.
- `onDestroy` is left out. It calls `stopMockLocation`, which `Session.Stop` models, and then cancels the coroutine scope.
- Search.LocalSearch: its contract states the empty-query, membership and length facts. The branch-by-branch behaviour is in `Search.AdminShortCircuit`, `Search.RankedWhenMatched` and `Search.LooseOnlyWhenNothingMatched`.
- Search.Typed, Search.Display and Search.AdminByLastCharacter: count characters as Unicode scalar values. Kotlin's `length`, `last()` and `take` count UTF-16 code units, so they differ for characters outside the Basic Multilingual Plane. Strings are sequences of `char` here and no UTF-16 encoding is modelled.

## Findings

| source | as written | input that shows it | evidently intended | confidence | as-written member | corrected member |
|---|---|---|---|---|---|---|
| app/src/main/java/com/pxlocation/dinwei/service/LocationInjectorService.kt:1383-1384 | the existence probe is accepted when its output contains `exists` | every root command succeeds but the file is missing, so the probe prints `not exists` | a missing file raises the `IOException` at line 1400 and the shell fallback injects | high, not executed | Channel.MissingFileCountsAsDelivered | Session.StopMissingFileDelivered |
| app/src/main/java/com/pxlocation/dinwei/service/LocationInjectorService.kt:1250-1253 | `checkDaemonRunning` accepts the test-file probe when its output contains `exists` | the shell creates, probes and removes the file but the probe prints `not exists`; the check still answers yes | only `exists` passes the probe | high, not executed | Launcher.TestFileAlwaysPasses | Launcher.MissingTestFileNotRunning |
| app/src/main/java/com/pxlocation/dinwei/service/LocationInjectorService.kt:943-944 | any non-empty trimmed text other than `0` from `executeCommand("getprop …")` counts as verified | the shell call throws, and `executeCommand` catches it and returns `Error: <message>` | only a real property value confirms the injection | high, not executed | Verifier.FailedGetpropVerifies | Verifier.PropertyValueVerifies |

Both rules are inputs: `Session.Host.probe` chooses the probe rule, and `Session.Outcomes.rule` chooses the verification rule. The program as written is the model run with `Channel.AsWritten` and `Verifier.AsWritten`; the `Session` contracts hold under either rule. `Session.StopMissingFileDelivered`, `Session.CrashedGetpropConfirmsTick` and `Session.CrashedGetpropRefreshes` show what each as-written rule does to the service.
