/** The screen's view model (`LocationViewModel`): the selected position,
    whether a mock is running, the status lines and the error line, and the
    requests it sends to the injection service.

    Sending a request (`startService`) can throw; `failure` is `Some` of
    the exception's message text when it does, and then nothing is sent.
    The clock is a parameter: its reading in milliseconds and the same
    reading formatted as `HH:mm:ss`.
 */
module ViewModel {
  import Coords
  import Protocol
  import Session

  datatype LatLng = LatLng(lat: Coords.Numeral, lng: Coords.Numeral)

  datatype Clock = Clock(millis: int, text: string)

  /** The observable state. `rooted` stays unset until the root check
      reports. */
  datatype Vm = Vm(
    selected: Protocol.Option<LatLng>,
    address: string,
    mocking: bool,
    status: string,
    detail: string,
    methods: seq<string>,
    rooted: Protocol.Option<bool>,
    error: Protocol.Option<string>,
    lastUpdate: int)

  /** A new state and the requests sent to the service. */
  datatype Out = Out(vm: Vm, sent: seq<Session.Request>)

  /** The accuracy every request carries. */
  const RequestAccuracy: Coords.Numeral := "10.0"

  const NoSelectionStatus: string := "请先选择位置"
  const NoSelectionError: string := "未选择位置"
  const IdleDetail: string := "请选择位置并点击开始模拟"

  /** The service position a selection is sent as. */
  function Target(l: LatLng): (r: Coords.Coord)
    ensures r.lat == l.lat && r.lng == l.lng && r.acc == Coords.DefaultAccuracy
  {
    Coords.Coord(l.lat, l.lng, RequestAccuracy)
  }

  /** `init`: fixed initial values, then `checkMockingStatus` reads the
      service. The root check and the five-second refresh loop it starts
      run later (`RootChecked`, `Refresh`). */
  function Init(service: Session.Service, now: Clock): (r: Vm)
    ensures r.mocking == service.mocking
    ensures service.mocking ==>
              r.selected == Protocol.Some(LatLng(service.target.lat, service.target.lng))
              && r.status == "正在模拟位置: " + service.target.lat + ", " + service.target.lng
              && r.lastUpdate == now.millis
    ensures !service.mocking ==>
              r.selected.None? && r.status == "未开始模拟位置" && r.detail == IdleDetail && r.lastUpdate == 0
    ensures r.error.None? && r.rooted.None? && r.methods == [] && r.address == "请选择位置"
  {
    var initial := Vm(Protocol.None, "请选择位置", false, "未开始模拟", IdleDetail, [], Protocol.None, Protocol.None, 0);
    var current := Session.CurrentLocation(service);
    var vm := initial.(mocking := service.mocking);
    if service.mocking then
      match current
      case Some(c) =>
        vm.(selected := Protocol.Some(LatLng(c.lat, c.lng)),
            status := "正在模拟位置: " + c.lat + ", " + c.lng,
            detail := "位置模拟中，上次更新: " + now.text,
            lastUpdate := now.millis)
      case None => vm
    else vm.(status := "未开始模拟位置", detail := IdleDetail)
  }

  /** `checkRootStatus`'s report. */
  function RootChecked(vm: Vm, hasRoot: bool): (r: Vm)
    ensures r.rooted == Protocol.Some(hasRoot)
    ensures hasRoot ==> r == vm.(rooted := Protocol.Some(true), error := Protocol.None)
    ensures !hasRoot ==> r.error == Protocol.Some("未获取Root权限") && r.mocking == vm.mocking
  {
    if hasRoot then vm.(rooted := Protocol.Some(true), error := Protocol.None)
    else vm.(rooted := Protocol.Some(false), status := "无Root权限，无法模拟位置",
             detail := "请确保设备已Root并授予应用Root权限", error := Protocol.Some("未获取Root权限"))
  }

  /** The state after asking to start or update without a selection. */
  function NoSelection(vm: Vm): Vm {
    vm.(status := NoSelectionStatus, error := Protocol.Some(NoSelectionError))
  }

  /** `startMockLocation`. */
  function Start(vm: Vm, now: Clock, failure: Protocol.Option<string>): (r: Out)
    ensures vm.selected.None? ==> r.sent == [] && r.vm == NoSelection(vm)
    ensures vm.selected.Some? && failure.None? ==>
              r.sent == [Session.StartMock(Target(vm.selected.value))]
              && r.vm.mocking && r.vm.error.None? && r.vm.status == "正在模拟位置"
    ensures vm.selected.Some? && failure.Some? ==>
              r.sent == [] && !r.vm.mocking && r.vm.error == Protocol.Some("启动失败: " + failure.value)
    ensures r.vm.selected == vm.selected
  {
    match vm.selected
    case None => Out(NoSelection(vm), [])
    case Some(l) =>
      match failure
      case None =>
        var vm' := vm.(mocking := true, status := "正在模拟位置",
                       detail := "位置: " + l.lat + ", " + l.lng + "\n精度: 10.0 米\n正在启动...",
                       lastUpdate := now.millis, error := Protocol.None);
        Out(vm', [Session.StartMock(Target(l))])
      case Some(m) =>
        Out(vm.(status := "启动模拟失败", detail := "错误: " + m, error := Protocol.Some("启动失败: " + m), mocking := false), [])
  }

  /** `stopMockLocation`. */
  function Stop(vm: Vm, failure: Protocol.Option<string>): (r: Out)
    ensures failure.None? ==> r.sent == [Session.StopMock] && !r.vm.mocking && r.vm.error.None?
    ensures failure.Some? ==>
              r.sent == [] && r.vm.mocking == vm.mocking && r.vm.error == Protocol.Some("停止失败: " + failure.value)
    ensures r.vm.selected == vm.selected
  {
    match failure
    case None => Out(vm.(mocking := false, status := "已停止模拟位置", detail := "位置模拟已停止", error := Protocol.None), [Session.StopMock])
    case Some(m) =>
      Out(vm.(status := "停止模拟失败", detail := "停止失败: " + m, error := Protocol.Some("停止失败: " + m)), [])
  }

  /** `updateMockLocation`: without a selection it reports the same error
      as a start; when not mocking it is a start. */
  function Update(vm: Vm, now: Clock, failure: Protocol.Option<string>): (r: Out)
    ensures vm.selected.None? ==> r.sent == [] && r.vm == NoSelection(vm)
    ensures vm.selected.Some? && !vm.mocking ==> r == Start(vm, now, failure)
    ensures vm.selected.Some? && vm.mocking && failure.None? ==>
              r.sent == [Session.UpdateLocation(Target(vm.selected.value))]
              && r.vm.mocking && r.vm.error.None? && r.vm.status == "正在更新位置"
    ensures vm.selected.Some? && vm.mocking && failure.Some? ==>
              r.sent == [] && r.vm.mocking && r.vm.error == Protocol.Some("更新失败: " + failure.value)
  {
    match vm.selected
    case None => Out(NoSelection(vm), [])
    case Some(l) =>
      if !vm.mocking then Start(vm, now, failure)
      else match failure
        case None =>
          var vm' := vm.(status := "正在更新位置",
                         detail := "位置: " + l.lat + ", " + l.lng + "\n精度: 10.0 米\n正在更新...",
                         lastUpdate := now.millis, error := Protocol.None);
          Out(vm', [Session.UpdateLocation(Target(l))])
        case Some(m) =>
          Out(vm.(status := "更新位置失败", detail := "更新失败: " + m, error := Protocol.Some("更新失败: " + m)), [])
  }

  /** `setSelectedLocation`: records the selection and, while mocking,
      updates the service. */
  function SetSelected(vm: Vm, l: LatLng, now: Clock, failure: Protocol.Option<string>): (r: Out)
    ensures r.vm.selected == Protocol.Some(l)
    ensures r.sent != [] <==> vm.mocking && failure.None?
    ensures r.sent != [] ==> r.sent == [Session.UpdateLocation(Target(l))]
    ensures !vm.mocking ==> r == Out(vm.(selected := Protocol.Some(l)), [])
  {
    var vm' := vm.(selected := Protocol.Some(l));
    if vm.mocking then Update(vm', now, failure) else Out(vm', [])
  }

  /** `refreshStatus`: the mocking flag follows the service; while the
      service mocks, the status shows its position and a refresh request
      is sent (a failure to send is only logged). */
  function Refresh(vm: Vm, service: Session.Service, now: Clock, failure: Protocol.Option<string>): (r: Out)
    ensures r.vm.mocking == service.mocking
    ensures r.sent == (if service.mocking && failure.None? then [Session.RefreshStatus] else [])
    ensures !service.mocking ==> r.vm == vm.(mocking := false)
    ensures service.mocking ==>
              r.vm.detail == "位置: " + service.target.lat + ", " + service.target.lng + "\n精度: "
                             + service.target.acc + " 米\n上次更新: " + now.text
  {
    var vm' := vm.(mocking := service.mocking);
    if !service.mocking then Out(vm', [])
    else
      var shown := match Session.CurrentLocation(service)
        case Some(c) =>
          vm'.(status := "正在模拟位置",
               detail := "位置: " + c.lat + ", " + c.lng + "\n精度: " + c.acc + " 米\n上次更新: " + now.text,
               lastUpdate := now.millis)
        case None => vm';
      Out(shown, if failure.None? then [Session.RefreshStatus] else [])
  }

  /** `onCleared`: a running mock is stopped. */
  function Cleared(vm: Vm, failure: Protocol.Option<string>): (r: Out)
    ensures r.sent == (if vm.mocking && failure.None? then [Session.StopMock] else [])
    ensures vm.mocking && failure.None? ==> !r.vm.mocking
    ensures !vm.mocking ==> r.vm == vm
  {
    if vm.mocking then Stop(vm, failure) else Out(vm, [])
  }

  // ---------------------------------------------------------------------
  // The view model and the service together

  /** The service after handling, in order, the requests sent. */
  function Deliver(s: Session.Service, sent: seq<Session.Request>, env: Session.Env): Session.Service
    decreases |sent|
  {
    if |sent| == 0 then s else Deliver(Session.Handle(s, sent[0], env), sent[1..], env)
  }

  /** A start with a selection, once delivered to a service that is
      mocking or has its daemon, makes the service mock exactly the
      selected position at accuracy 10.0. */
  lemma StartReachesService(vm: Vm, now: Clock, s: Session.Service, env: Session.Env)
    requires vm.selected.Some?
    requires s.mocking || s.daemonStarted
    ensures var out := Start(vm, now, Protocol.None);
      var l := vm.selected.value;
      Session.CurrentLocation(Deliver(s, out.sent, env)) == Protocol.Some(Coords.Coord(l.lat, l.lng, "10.0"))
  {
    var out := Start(vm, now, Protocol.None);
    assert out.sent[1..] == [];
  }

  /** Selecting a new position while mocking moves the service's target
      there; when not mocking, nothing reaches the service. */
  lemma SelectionReachesService(vm: Vm, l: LatLng, now: Clock, s: Session.Service, env: Session.Env)
    ensures var out := SetSelected(vm, l, now, Protocol.None);
      && (vm.mocking ==> Deliver(s, out.sent, env).target == Target(l) && Deliver(s, out.sent, env).mocking == s.mocking)
      && (!vm.mocking ==> Deliver(s, out.sent, env) == s)
  {
    var out := SetSelected(vm, l, now, Protocol.None);
    if vm.mocking {
      assert out.sent[1..] == [];
    }
  }

  /** A stop, delivered, leaves the service with no current position. */
  lemma StopReachesService(vm: Vm, s: Session.Service, env: Session.Env)
    ensures Session.CurrentLocation(Deliver(s, Stop(vm, Protocol.None).sent, env)).None?
  {
    var out := Stop(vm, Protocol.None);
    assert out.sent[1..] == [];
  }

  /** Right after a refresh, the view model and the service agree on
      whether a mock runs. */
  lemma RefreshAgrees(vm: Vm, s: Session.Service, now: Clock, env: Session.Env)
    ensures var out := Refresh(vm, s, now, Protocol.None);
      out.vm.mocking == Session.CurrentLocation(Deliver(s, out.sent, env)).Some?
  {
    var out := Refresh(vm, s, now, Protocol.None);
    if s.mocking {
      assert out.sent[1..] == [];
    }
  }
}
