/** The injection service's session (`LocationInjectorService`): the state
    shared between its entry points, the periodic injection tick, and the
    start / stop / update lifecycle.

    Every tick runs to completion before the next one starts; the outcome
    of each injection method on that tick is an input.
 */
module Session {
  import Text
  import Coords
  import Shell
  import Protocol
  import Channel
  import Verifier
  import Launcher
  import Native

  /** The app's own package name, as the service sees it. */
  const AppPackage: string := "com.pxlocation.dinwei"

  /** The names the service records for the injection methods. */
  datatype Method =
    | Jni | Daemon | MockProvider | SystemApi | PrivateFile | Broadcast
    | ShellBatch | FileSystem | Emergency | Verified

  /** The methods of the light tier, in the order they are tried. */
  const LightMethods: seq<Method> := [Jni, Daemon, MockProvider, PrivateFile, Broadcast]

  /** The methods whose success ends the search for a working method;
      writing the private file and sending the broadcast are recorded but
      do not count. */
  predicate Strong(m: Method) {
    m.Jni? || m.Daemon? || m.MockProvider? || m.SystemApi?
  }

  /** What the status bar shows. */
  datatype Notice =
    | Starting | Mocking(at: Coords.Coord) | Waiting(at: Coords.Coord) | EmergencyMode(at: Coords.Coord)
    | Refreshed(at: Coords.Coord) | Reinjected(at: Coords.Coord) | RefreshFailed

  function NoticeText(n: Notice): string
  {
    match n
    case Starting => "正在模拟位置"
    case Mocking(c) => "正在模拟位置: " + c.lat + ", " + c.lng
    case Waiting(c) => "位置模拟中: " + c.lat + ", " + c.lng + " (等待确认)"
    case EmergencyMode(c) => "正在模拟位置: " + c.lat + ", " + c.lng + " (紧急模式)"
    case Refreshed(c) => "位置模拟已刷新: " + c.lat + ", " + c.lng
    case Reinjected(c) => "位置模拟已重新注入: " + c.lat + ", " + c.lng
    case RefreshFailed => "位置模拟失败: 请检查Root权限"
  }

  /** The injection status written to the shared preferences. */
  datatype Saved = Saved(success: bool, methods: seq<Method>)

  // ---------------------------------------------------------------------
  // State

  const Int32Min: int := -0x8000_0000
  const Int32Limit: int := 0x8000_0000

  /** A batch sent through `executeCommands` always returns normally: that
      call catches every exception and reports it in its text
      (`Shell.ExecuteCommands`). */
  const ShellBatchReturns: bool := true

  /** Kotlin `Int` arithmetic: the value reduced into 32-bit two's
      complement range. */
  function Wrap32(x: int): (r: int)
    ensures Int32Min <= r < Int32Limit
    ensures Int32Min <= x < Int32Limit ==> r == x
    ensures (x - r) % 0x1_0000_0000 == 0
  {
    (x - Int32Min) % 0x1_0000_0000 + Int32Min
  }

  /** The part of the companion-object state the injection tick reads and
      writes: the remembered list of working methods, the attempt counter,
      the heavy-operation flag, the one-time toast flag, and the last
      status saved and shown. */
  datatype Status = Status(
    remembered: seq<Method>,
    count: int,
    heavy: bool,
    toastShown: bool,
    saved: Protocol.Option<Saved>,
    notice: Protocol.Option<Notice>)

  /** The rest of the service's state: the target, whether it is mocking,
      whether the tick callback is posted, whether the service is still
      alive, and whether the daemon is marked started. */
  datatype Service = Service(
    target: Coords.Coord,
    mocking: bool,
    scheduled: bool,
    alive: bool,
    daemonStarted: bool,
    status: Status)

  const Initial: Service := Service(
    Coords.Coord(Coords.DefaultCoordinate, Coords.DefaultCoordinate, Coords.DefaultAccuracy),
    false, false, true, false,
    Status([], 0, false, false, Protocol.None, Protocol.None))

  /** `getCurrentLocation`. */
  function CurrentLocation(s: Service): (r: Protocol.Option<Coords.Coord>)
    ensures r.Some? <==> s.mocking
    ensures r.Some? ==> r.value == s.target
  {
    if s.mocking then Protocol.Some(s.target) else Protocol.None
  }

  // ---------------------------------------------------------------------
  // One tick

  /** What each injection method does on one tick, and what the device
      answers the verifier. A Kotlin exception is a `Threw`. `rule` says
      how the verifier judges the `getprop` answer: the program as written
      uses `Verifier.AsWritten`. */
  datatype Outcomes = Outcomes(
    jni: Shell.Attempt<bool>,
    mockProvider: Shell.Attempt<()>,
    systemApiSetup: Shell.Attempt<()>,
    callable: string -> bool,
    privateFile: bool,
    broadcast: bool,
    sh: Shell.Sh,
    device: Verifier.Device,
    rule: Verifier.PropertyRule)

  /** `injectLocationUsingSystemApi` returns normally. */
  predicate SystemApiWorks(o: Outcomes) {
    Verifier.SystemApi(o.systemApiSetup, o.callable).Done?
  }

  /** `verifyInjectionSuccess`, with the property read judged by the
      tick's rule. */
  predicate Confirmed(o: Outcomes) {
    Verifier.Verify(o.sh, o.rule, o.device).ok
  }

  /** A run of methods: whether one of them set the success flag, and the
      names recorded. */
  datatype Pass = Pass(success: bool, methods: seq<Method>)

  /** Trying one remembered method. The daemon send swallows every error,
      so it counts whenever the daemon is marked started; the shell, file
      system and emergency entries have no branch and do nothing. */
  function Try(m: Method, daemonStarted: bool, o: Outcomes): (r: Pass)
    ensures r.methods == [] || r.methods == [m]
    ensures r.success ==> Strong(m) && r.methods == [m]
    ensures !Strong(m) ==> !r.success
    ensures m == Jni ==> (r.success <==> o.jni == Shell.Done(true))
    ensures m == Daemon ==> (r.success <==> daemonStarted)
    ensures m == MockProvider ==> (r.success <==> o.mockProvider.Done?)
    ensures m == SystemApi ==> (r.success <==> SystemApiWorks(o))
    ensures m == PrivateFile ==> (r.methods == [m] <==> o.privateFile)
    ensures m == Broadcast ==> (r.methods == [m] <==> o.broadcast)
    ensures m.ShellBatch? || m.FileSystem? || m.Emergency? || m.Verified? ==> r == Pass(false, [])
  {
    match m
    case Jni => if o.jni == Shell.Done(true) then Pass(true, [Jni]) else Pass(false, [])
    case Daemon => if daemonStarted then Pass(true, [Daemon]) else Pass(false, [])
    case MockProvider => if o.mockProvider.Done? then Pass(true, [MockProvider]) else Pass(false, [])
    case SystemApi => if SystemApiWorks(o) then Pass(true, [SystemApi]) else Pass(false, [])
    case PrivateFile => if o.privateFile then Pass(false, [PrivateFile]) else Pass(false, [])
    case Broadcast => if o.broadcast then Pass(false, [Broadcast]) else Pass(false, [])
    case _ => Pass(false, [])
  }

  /** Trying a list of methods in order; every one is tried, whatever the
      earlier ones did. */
  function TryAll(ms: seq<Method>, daemonStarted: bool, o: Outcomes): (r: Pass)
    ensures r.success <==> exists i :: 0 <= i < |ms| && Try(ms[i], daemonStarted, o).success
    ensures r.success ==> |r.methods| > 0
    ensures |r.methods| <= |ms|
    ensures forall m :: m in r.methods ==> m in ms
  {
    if |ms| == 0 then Pass(false, [])
    else
      var first := Try(ms[0], daemonStarted, o);
      var rest := TryAll(ms[1..], daemonStarted, o);
      assert forall i :: 1 <= i < |ms| ==> ms[i] == ms[1..][i - 1];
      Pass(first.success || rest.success, first.methods + rest.methods)
  }

  /** The heavy tier: the system API, then the shell batch only if nothing
      has succeeded yet, then the forced file writes only if the shell did
      not succeed either. Both batches go through `executeCommands`, which
      reports a failure in the text it returns and never throws
      (`Shell.ExecuteCommands`), so each call returns normally. */
  function HeavyTier(success: bool, o: Outcomes): (r: Pass)
    ensures r.success
    ensures SystemApi in r.methods <==> SystemApiWorks(o)
    ensures ShellBatch in r.methods <==> !success && !SystemApiWorks(o)
    ensures FileSystem !in r.methods
    ensures success || |r.methods| > 0
  {
    var api := SystemApiWorks(o);
    var s1 := success || api;
    var m1 := if api then [SystemApi] else [];
    var m2 := if !s1 && ShellBatchReturns then [ShellBatch] else [];
    var s2 := s1 || |m2| > 0;
    var m3 := if !s2 && ShellBatchReturns then [FileSystem] else [];
    Pass(s2 || |m3| > 0, m1 + m2 + m3)
  }

  /** How far a tick got. */
  datatype Tier = Skipped | Fast | Light | Heavy

  /** The attempt numbers on which every method is tried. */
  predicate TryEverything(count: int) {
    count == 1 || count % 5 == 0
  }

  /** The tick's result: the new status, how far it got, this tick's list
      of recorded methods, and the methods named by a success toast. */
  datatype TickResult = TickResult(
    status: Status,
    tier: Tier,
    methods: seq<Method>,
    toast: Protocol.Option<seq<Method>>)

  /** Recording the outcome of a tick that did not take the fast path. */
  function Record(st: Status, target: Coords.Coord, o: Outcomes, tier: Tier, methods: seq<Method>): (r: TickResult)
    ensures r.tier == tier && r.methods == methods
    ensures r.status.count == st.count && r.status.heavy == st.heavy
    ensures r.toast.Some? ==> !st.toastShown
    ensures st.toastShown ==> r.status.toastShown
    ensures Confirmed(o) || |methods| > 0 ==>
              r.status.remembered == methods && r.status.saved == Protocol.Some(Saved(true, methods))
              && r.status.notice == Protocol.Some(Mocking(target))
              && (r.toast.Some? <==> !st.toastShown)
    ensures !Confirmed(o) && |methods| == 0 && tier == Heavy ==>
              r.status.remembered == st.remembered + [Emergency]
              && r.status.saved == Protocol.Some(Saved(true, [Emergency]))
    ensures !Confirmed(o) && |methods| == 0 && tier != Heavy ==>
              r.status == st.(notice := Protocol.Some(Waiting(target))) && r.toast.None?
  {
    var toast := if st.toastShown then Protocol.None else Protocol.Some(methods);
    if Confirmed(o) || |methods| > 0 then
      var after := st.(remembered := methods, toastShown := true, saved := Protocol.Some(Saved(true, methods)),
                       notice := Protocol.Some(Mocking(target)));
      TickResult(after, tier, methods, toast)
    else if tier == Heavy then
      var after := st.(remembered := st.remembered + [Emergency], toastShown := true,
                       saved := Protocol.Some(Saved(true, [Emergency])),
                       notice := Protocol.Some(EmergencyMode(target)));
      TickResult(after, tier, methods, if st.toastShown then Protocol.None else Protocol.Some([Emergency]))
    else TickResult(st.(notice := Protocol.Some(Waiting(target))), tier, methods, Protocol.None)
  }

  /** `updateMockLocation`: it reads the target and the daemon flag and
      writes only the status. */
  function Tick(st: Status, target: Coords.Coord, daemonStarted: bool, o: Outcomes): (r: TickResult)
    ensures st.heavy ==> r == TickResult(st, Skipped, [], Protocol.None)
    ensures !st.heavy ==> r.status.count == Wrap32(st.count + 1) && !r.status.heavy && r.tier != Skipped
    ensures r.tier == Fast <==> !st.heavy && |st.remembered| > 0 && TryAll(st.remembered, daemonStarted, o).success
    ensures r.tier == Fast ==> r.status.remembered == st.remembered && r.toast.None? && r.status.saved == st.saved
    ensures r.tier == Heavy <==> !st.heavy && r.tier != Fast && TryEverything(Wrap32(st.count + 1))
    ensures r.toast.Some? ==> !st.toastShown
    ensures st.toastShown ==> r.status.toastShown
  {
    if st.heavy then TickResult(st, Skipped, [], Protocol.None)
    else
      var count := Wrap32(st.count + 1);
      var sticky := TryAll(st.remembered, daemonStarted, o);
      TryAllRecordsOnlyListed(st.remembered, daemonStarted, o);
      if |st.remembered| > 0 && sticky.success then
        TickResult(st.(count := count, notice := Protocol.Some(Mocking(target))), Fast, sticky.methods, Protocol.None)
      else Slow(st.(count := count), target, daemonStarted, o, sticky)
  }

  /** A tick past the fast path: the light tier, the heavy tier on the
      attempts that try everything, then the outcome. The entries recorded
      by the pass over the remembered list are kept. */
  function Slow(st: Status, target: Coords.Coord, daemonStarted: bool, o: Outcomes, sticky: Pass): (r: TickResult)
    requires !sticky.success
    requires ShellBatch !in sticky.methods
    ensures r.tier == (if TryEverything(st.count) then Heavy else Light)
    ensures r.status.count == st.count && !r.status.heavy
    ensures r.toast.Some? ==> !st.toastShown
    ensures st.toastShown ==> r.status.toastShown
    ensures r.tier == Heavy ==> |r.methods| > 0 && (FileSystem in r.methods ==> FileSystem in sticky.methods)
    ensures ShellBatch in r.methods <==>
              r.tier == Heavy && !TryAll(LightMethods, daemonStarted, o).success && !SystemApiWorks(o)
    ensures sticky.methods <= r.methods
    ensures Confirmed(o) || |r.methods| > 0 ==>
              r.status.remembered == r.methods && r.status.saved == Protocol.Some(Saved(true, r.methods))
              && r.status.notice == Protocol.Some(Mocking(target))
    ensures !Confirmed(o) && |r.methods| == 0 ==> r.status.remembered == st.remembered
    ensures !Confirmed(o) && |r.methods| == 0 && r.tier == Light ==>
              r.status.saved == st.saved && r.status.notice == Protocol.Some(Waiting(target))
  {
    var all := TryEverything(st.count);
    var light := TryAll(LightMethods, daemonStarted, o);
    var success := sticky.success || light.success;
    var heavy := if all then HeavyTier(success, o) else Pass(success, []);
    var methods := sticky.methods + light.methods + heavy.methods;
    ShellOnlyFromHeavy(daemonStarted, o);
    Record(st.(heavy := false), target, o, if all then Heavy else Light, methods)
  }

  /** A heavy tick always records some method, so its emergency branch is
      never reached, and it never records the file-system write. */
  lemma HeavyTickRecords(st: Status, target: Coords.Coord, daemonStarted: bool, o: Outcomes)
    ensures var r := Tick(st, target, daemonStarted, o);
      r.tier == Heavy ==> |r.methods| > 0 && FileSystem !in r.methods
  {
    TryAllRecordsOnlyListed(st.remembered, daemonStarted, o);
  }

  /** Escalation to the shell: it is recorded exactly on a heavy tick on
      which neither the light tier nor the system API succeeded. */
  lemma ShellOnlyAsLastResort(st: Status, target: Coords.Coord, daemonStarted: bool, o: Outcomes)
    ensures var r := Tick(st, target, daemonStarted, o);
      ShellBatch in r.methods <==>
        r.tier == Heavy && !TryAll(LightMethods, daemonStarted, o).success && !SystemApiWorks(o)
  {
    TryAllRecordsOnlyListed(st.remembered, daemonStarted, o);
  }

  /** The outcome of a tick past the fast path: the entries from the pass
      over the remembered list come first in this tick's list; a confirmed
      injection or a non-empty list replaces the remembered list by this
      tick's list; otherwise the remembered list is kept. */
  lemma TickOutcome(st: Status, target: Coords.Coord, daemonStarted: bool, o: Outcomes)
    ensures var r := Tick(st, target, daemonStarted, o);
      r.tier == Light || r.tier == Heavy ==>
        && TryAll(st.remembered, daemonStarted, o).methods <= r.methods
        && (Confirmed(o) || |r.methods| > 0 ==>
              r.status.remembered == r.methods && r.status.saved == Protocol.Some(Saved(true, r.methods))
              && r.status.notice == Protocol.Some(Mocking(target)))
        && (!Confirmed(o) && |r.methods| == 0 ==>
              r.status.remembered == st.remembered && r.status.saved == st.saved
              && r.status.notice == Protocol.Some(Waiting(target)))
  {
    TryAllRecordsOnlyListed(st.remembered, daemonStarted, o);
  }

  /** As written, a `getprop` call that crashes confirms the injection: a
      light tick on which no method records anything still saves success
      and shows the position, where the corrected rule keeps waiting. */
  lemma CrashedGetpropConfirmsTick(st: Status, target: Coords.Coord, daemonStarted: bool, o: Outcomes)
    requires o.sh([Verifier.PropertyCommand]).Crashed?
    ensures Confirmed(o.(rule := Verifier.AsWritten))
    ensures var r := Tick(st, target, daemonStarted, o.(rule := Verifier.AsWritten));
      r.tier == Light ==>
        r.status.saved == Protocol.Some(Saved(true, r.methods)) && r.status.notice == Protocol.Some(Mocking(target))
    ensures var r := Tick(st, target, daemonStarted, o.(rule := Verifier.Intended));
      r.tier == Light && |r.methods| == 0 && !Verifier.Verify(o.sh, Verifier.Intended, o.device).ok ==>
        r.status.notice == Protocol.Some(Waiting(target)) && r.status.saved == st.saved
  {
    Verifier.FailedGetpropVerifies(o.sh, o.device);
    TryAllRecordsOnlyListed(st.remembered, daemonStarted, o.(rule := Verifier.AsWritten));
    TryAllRecordsOnlyListed(st.remembered, daemonStarted, o.(rule := Verifier.Intended));
  }

  /** The light tier records neither the shell nor the file system. */
  lemma ShellOnlyFromHeavy(daemonStarted: bool, o: Outcomes)
    ensures ShellBatch !in TryAll(LightMethods, daemonStarted, o).methods
    ensures FileSystem !in TryAll(LightMethods, daemonStarted, o).methods
  {
  }

  /** A pass over a list only ever records methods of the light tier or the
      system API. */
  lemma {:induction false} TryAllRecordsOnlyListed(ms: seq<Method>, daemonStarted: bool, o: Outcomes)
    ensures forall m :: m in TryAll(ms, daemonStarted, o).methods ==> m in LightMethods || m == SystemApi
    decreases |ms|
  {
    if |ms| > 0 {
      TryAllRecordsOnlyListed(ms[1..], daemonStarted, o);
    }
  }

  // ---------------------------------------------------------------------
  // Properties of the tick

  /** A remembered list holding only the private-file write and the
      broadcast never takes the fast path, however those two fare. */
  lemma WeakMethodsFallThrough(st: Status, target: Coords.Coord, daemonStarted: bool, o: Outcomes)
    requires !st.heavy
    requires forall i :: 0 <= i < |st.remembered| ==> st.remembered[i] == PrivateFile || st.remembered[i] == Broadcast
    ensures Tick(st, target, daemonStarted, o).tier == Light || Tick(st, target, daemonStarted, o).tier == Heavy
  {
  }

  /** Entries recorded during a failed pass over the remembered list stay
      in this tick's list, so the same method can appear twice: a
      remembered private-file write followed by a light tier in which only
      that write works is remembered twice. */
  lemma DuplicatesAccumulate(st: Status, target: Coords.Coord, o: Outcomes)
    requires !st.heavy && st.remembered == [PrivateFile]
    requires !TryEverything(Wrap32(st.count + 1))
    requires o.jni != Shell.Done(true) && o.mockProvider.Threw? && o.privateFile && !o.broadcast
    ensures Tick(st, target, false, o).status.remembered == [PrivateFile, PrivateFile]
  {
    OnlyPrivateFileWorks(o);
    var sticky := TryAll(st.remembered, false, o);
    assert sticky == Pass(false, [PrivateFile]);
    var t := st.(count := Wrap32(st.count + 1));
    assert Tick(st, target, false, o) == Slow(t, target, false, o, sticky);
    var r := Slow(t, target, false, o, sticky);
    assert r.methods == [PrivateFile] + [PrivateFile] + [];
    assert [PrivateFile] + [PrivateFile] + [] == [PrivateFile, PrivateFile];
  }

  /** A light tier in which only the private-file write goes through. */
  lemma OnlyPrivateFileWorks(o: Outcomes)
    requires o.jni != Shell.Done(true) && o.mockProvider.Threw? && o.privateFile && !o.broadcast
    ensures TryAll(LightMethods, false, o) == Pass(false, [PrivateFile])
  {
    assert TryAll([Broadcast], false, o).methods == [];
    assert TryAll([PrivateFile, Broadcast], false, o).methods == [PrivateFile];
    assert TryAll([MockProvider, PrivateFile, Broadcast], false, o).methods == [PrivateFile];
    assert TryAll([Daemon, MockProvider, PrivateFile, Broadcast], false, o).methods == [PrivateFile];
  }

  /** The native `injectLocation` always answers true. Once the JNI method
      is remembered, every tick under that answer takes the fast path and
      leaves the remembered list as it was. */
  lemma JniKeepsFastPath(st: Status, target: Coords.Coord, daemonStarted: bool, o: Outcomes)
    requires !st.heavy && Jni in st.remembered && o.jni == Shell.Done(true)
    ensures Tick(st, target, daemonStarted, o).tier == Fast
    ensures Tick(st, target, daemonStarted, o).status.remembered == st.remembered
  {
    var i :| 0 <= i < |st.remembered| && st.remembered[i] == Jni;
    assert Try(st.remembered[i], daemonStarted, o).success;
  }

  /** The JNI answer is whatever the native `injectLocation` returns, and
      that is always true: with the JNI method remembered, every tick takes
      the fast path and keeps the list, whatever the device. */
  lemma JniAloneKeepsFastPath(st: Status, target: Coords.Coord, daemonStarted: bool, o: Outcomes,
                              d: Native.Device, fmt: real -> string, field: (real, real, nat) -> string,
                              clock: Native.Clock, f: Native.Fix)
    requires !st.heavy && Jni in st.remembered
    requires o.jni == Shell.Done(Native.InjectLocation(d, fmt, field, clock, f).ok)
    ensures Tick(st, target, daemonStarted, o).tier == Fast
    ensures Tick(st, target, daemonStarted, o).status.remembered == st.remembered
  {
    JniKeepsFastPath(st, target, daemonStarted, o);
  }

  /** A sequence of ticks for one target, with the number of success
      toasts shown. */
  datatype Run = Run(status: Status, toasts: nat)

  function Ticks(st: Status, target: Coords.Coord, daemonStarted: bool, os: seq<Outcomes>): (r: Run)
    ensures |os| == 0 ==> r == Run(st, 0)
    decreases |os|
  {
    if |os| == 0 then Run(st, 0)
    else
      var t := Tick(st, target, daemonStarted, os[0]);
      var rest := Ticks(t.status, target, daemonStarted, os[1..]);
      Run(rest.status, rest.toasts + if t.toast.Some? then 1 else 0)
  }

  /** Under the native library's answer the remembered list, once it holds
      the JNI method, never changes again. */
  lemma {:induction false} RememberedStable(st: Status, target: Coords.Coord, daemonStarted: bool, os: seq<Outcomes>)
    requires !st.heavy && Jni in st.remembered
    requires forall i :: 0 <= i < |os| ==> os[i].jni == Shell.Done(true)
    ensures Ticks(st, target, daemonStarted, os).status.remembered == st.remembered
    decreases |os|
  {
    if |os| > 0 {
      JniKeepsFastPath(st, target, daemonStarted, os[0]);
      var t := Tick(st, target, daemonStarted, os[0]);
      RememberedStable(t.status, target, daemonStarted, os[1..]);
    }
  }

  /** The success toast is shown at most once per target, and not at all
      once it has been shown. */
  lemma {:induction false} ToastAtMostOnce(st: Status, target: Coords.Coord, daemonStarted: bool, os: seq<Outcomes>)
    ensures Ticks(st, target, daemonStarted, os).toasts <= if st.toastShown then 0 else 1
    ensures st.toastShown ==> Ticks(st, target, daemonStarted, os).status.toastShown
    decreases |os|
  {
    if |os| > 0 {
      var t := Tick(st, target, daemonStarted, os[0]);
      ToastAtMostOnce(t.status, target, daemonStarted, os[1..]);
    }
  }

  /** Ticks run one after another never find the heavy flag set: each one
      counts, so from a fresh counter the n-th tick is attempt n. */
  lemma {:induction false} CounterCountsTicks(st: Status, target: Coords.Coord, daemonStarted: bool, os: seq<Outcomes>)
    requires !st.heavy && 0 <= st.count && st.count + |os| < Int32Limit
    ensures Ticks(st, target, daemonStarted, os).status.count == st.count + |os|
    ensures !Ticks(st, target, daemonStarted, os).status.heavy
    decreases |os|
  {
    if |os| > 0 {
      var t := Tick(st, target, daemonStarted, os[0]);
      CounterCountsTicks(t.status, target, daemonStarted, os[1..]);
    }
  }

  /** The counter is a Kotlin `Int`: after the largest value it wraps to
      the smallest, which is not an attempt on which everything is tried. */
  lemma CounterWraps()
    ensures Wrap32(Int32Limit) == Int32Min
    ensures !TryEverything(Wrap32(Int32Limit))
  {
  }

  // ---------------------------------------------------------------------
  // Lifecycle

  /** The Handler callback: it ticks and posts itself again only while
      mocking. */
  function Fire(s: Service, o: Outcomes): (r: Service)
    ensures !s.scheduled ==> r == s
    ensures s.scheduled && !s.mocking ==> r == s.(scheduled := false)
    ensures s.scheduled && s.mocking ==> r == s.(status := Tick(s.status, s.target, s.daemonStarted, o).status)
  {
    if !s.scheduled then s
    else if !s.mocking then s.(scheduled := false)
    else s.(status := Tick(s.status, s.target, s.daemonStarted, o).status)
  }

  /** `updateLocation`: a new target, and the success toast is armed again. */
  function Update(s: Service, c: Coords.Coord): (r: Service)
    ensures r.target == c && !r.status.toastShown && r.status.notice == Protocol.Some(Mocking(c))
    ensures r.(target := s.target, status := r.status.(toastShown := s.status.toastShown, notice := s.status.notice)) == s
  {
    s.(target := c, status := s.status.(notice := Protocol.Some(Mocking(c)), toastShown := false))
  }

  datatype Started = Started(service: Service, launch: Protocol.Option<Launcher.Launch>)

  /** `startMockLocation`: while mocking it is an update. Otherwise it
      starts the daemon unless it is already marked started; a failed start
      stops the service, a successful one starts the ticks. The counter and
      the remembered list are not reset. */
  function Start(s: Service, c: Coords.Coord, sh: Shell.Sh, device: Launcher.Device): (r: Started)
    ensures s.mocking ==> r == Started(Update(s, c), Protocol.None)
    ensures r.launch.Some? <==> !s.mocking && !s.daemonStarted
    ensures r.launch.Some? ==> r.launch.value == Launcher.StartDaemon(sh, device, AppPackage)
    ensures !s.mocking ==> r.service.target == c && !r.service.status.toastShown
    ensures !s.mocking ==>
              (r.service.mocking <==> s.daemonStarted || (device.rooted && device.apkPath.Done?))
    ensures !s.mocking && r.service.mocking ==> r.service.scheduled && r.service.daemonStarted
    ensures !s.mocking && !r.service.mocking ==> !r.service.alive
    ensures r.service.status.remembered == s.status.remembered && r.service.status.count == s.status.count
  {
    if s.mocking then Started(Update(s, c), Protocol.None)
    else
      var s1 := s.(target := c, status := s.status.(toastShown := false, notice := Protocol.Some(Starting)));
      var launch := if s.daemonStarted then Protocol.None
                    else Protocol.Some(Launcher.StartDaemon(sh, device, AppPackage));
      if launch.Some? && !launch.value.ok then Started(s1.(alive := false), launch)
      else
        var s2 := s1.(daemonStarted := true, mocking := true, scheduled := true,
                      status := s1.status.(notice := Protocol.Some(Mocking(c))));
        Started(s2, launch)
  }

  /** What the service needs to write to the daemon's command file.
      `probe` says how the existence probe is judged: the program as
      written uses `Channel.AsWritten`. */
  datatype Host = Host(sh: Shell.Sh, accepts: string -> bool, bits: Coords.Numeral -> string, stamp: string,
                       probe: Channel.ProbeRule)

  /** The service after a stop, the `STOP` send, and every call made: the
      send's calls, then the native `stopInjection`. */
  datatype Stopped = Stopped(service: Service, send: Channel.Send, calls: seq<Channel.Call>)

  /** `stopMockLocation`: the ticks stop, `STOP` goes to the daemon (or
      through its fallback), the native `stopInjection` is called, and the
      service ends. */
  function Stop(s: Service, h: Host): (r: Stopped)
    ensures !r.service.mocking && !r.service.scheduled && !r.service.alive
    ensures r.send == Channel.SendCommand(h.sh, h.probe, h.accepts, AppPackage, h.bits, h.stamp, Protocol.StopCommand)
    ensures r.calls == r.send.calls + [Channel.NativeStop]
    ensures r.service.(mocking := s.mocking, scheduled := s.scheduled, alive := s.alive) == s
    ensures CurrentLocation(r.service).None?
  {
    var send := Channel.SendCommand(h.sh, h.probe, h.accepts, AppPackage, h.bits, h.stamp, Protocol.StopCommand);
    Stopped(s.(mocking := false, scheduled := false, alive := false), send, send.calls + [Channel.NativeStop])
  }

  /** As written, a stop whose probe reports `not exists` counts as
      delivered: the service's own fallback (the native stop and the
      settings reset) is skipped, and only the final native call stops
      injection. The corrected probe takes the fallback. */
  lemma StopMissingFileDelivered(s: Service, h: Host)
    requires forall cmd :: Channel.Succeeds(h.sh, cmd)
    requires Channel.Succeeds(h.sh, Channel.ProbeCommand) && Shell.ExecuteSuCommand(h.sh, Channel.ProbeCommand).value == "not exists"
    ensures Stop(s, h.(probe := Channel.AsWritten)).send.delivered
    ensures !Stop(s, h.(probe := Channel.Intended)).send.delivered
    ensures Channel.SuBatch(Channel.StopCommands) in Stop(s, h.(probe := Channel.Intended)).calls
  {
    Channel.MissingFileCountsAsDelivered(h.sh, h.accepts, AppPackage, h.bits, h.stamp, Protocol.StopCommand);
    var send := Stop(s, h.(probe := Channel.Intended)).send;
    var fallback := Channel.FallbackFor(h.accepts, AppPackage, h.bits, Protocol.StopCommand);
    assert fallback.calls == [Channel.NativeStop, Channel.SuBatch(Channel.StopCommands)];
    assert send.calls[|send.calls| - 1] == Channel.SuBatch(Channel.StopCommands);
  }

  /** After a stop, the pending callback does nothing. */
  lemma StopEndsTicks(s: Service, h: Host, o: Outcomes)
    ensures Fire(Stop(s, h).service, o) == Stop(s, h).service
  {
  }

  /** Starting again keeps the counter and the remembered list of the
      earlier session. */
  lemma RestartKeepsHistory(s: Service, c: Coords.Coord, sh: Shell.Sh, device: Launcher.Device, h: Host)
    ensures var r := Start(Stop(s, h).service, c, sh, device).service;
      r.status.remembered == s.status.remembered && r.status.count == s.status.count
  {
  }

  /** As written, a crashed `getprop` makes a refresh record the injection
      as verified without re-injecting. */
  lemma CrashedGetpropRefreshes(s: Service, o: Outcomes)
    requires o.sh([Verifier.PropertyCommand]).Crashed?
    ensures Refresh(s, o.(rule := Verifier.AsWritten)).status.saved == Protocol.Some(Saved(true, [Verified]))
  {
    Verifier.FailedGetpropVerifies(o.sh, o.device);
  }

  /** The service's `refreshStatus`: a confirmed injection is recorded as
      verified; otherwise it re-injects through JNI and the shell, and since
      the shell batch never throws it always records a success. */
  function Refresh(s: Service, o: Outcomes): (r: Service)
    ensures Confirmed(o) ==>
              r.status.saved == Protocol.Some(Saved(true, [Verified])) && r.status.notice == Protocol.Some(Refreshed(s.target))
    ensures !Confirmed(o) ==> r.status.saved.Some? && r.status.saved.value.success && ShellBatch in r.status.saved.value.methods
    ensures !Confirmed(o) ==> (Jni in r.status.saved.value.methods <==> o.jni == Shell.Done(true))
    ensures r.(status := r.status.(saved := s.status.saved, notice := s.status.notice)) == s
  {
    var st := s.status;
    if Confirmed(o) then
      s.(status := st.(saved := Protocol.Some(Saved(true, [Verified])), notice := Protocol.Some(Refreshed(s.target))))
    else
      var jni := if o.jni == Shell.Done(true) then [Jni] else [];
      var methods := jni + if ShellBatchReturns then [ShellBatch] else [];
      if |methods| > 0 then
        s.(status := st.(saved := Protocol.Some(Saved(true, methods)), notice := Protocol.Some(Reinjected(s.target))))
      else s.(status := st.(saved := Protocol.Some(Saved(false, [])), notice := Protocol.Some(RefreshFailed)))
  }

  /** The requests the service accepts (`onStartCommand`). */
  datatype Request = StartMock(at: Coords.Coord) | StopMock | UpdateLocation(at: Coords.Coord) | RefreshStatus

  /** Everything handling one request may consult. */
  datatype Env = Env(sh: Shell.Sh, device: Launcher.Device, host: Host, outcomes: Outcomes)

  /** `onStartCommand`: each request goes to its operation. An update is
      applied whether or not the service is mocking. */
  function Handle(s: Service, req: Request, env: Env): (r: Service)
    ensures req.StartMock? && (s.mocking || s.daemonStarted) ==> CurrentLocation(r) == Protocol.Some(req.at)
    ensures req.StopMock? ==> CurrentLocation(r).None? && !r.alive
    ensures req.UpdateLocation? ==> r.target == req.at && r.mocking == s.mocking
    ensures req.RefreshStatus? ==> r.target == s.target && r.mocking == s.mocking && r.scheduled == s.scheduled
  {
    match req
    case StartMock(c) => Start(s, c, env.sh, env.device).service
    case StopMock => Stop(s, env.host).service
    case UpdateLocation(c) => Update(s, c)
    case RefreshStatus => Refresh(s, env.outcomes)
  }
}
