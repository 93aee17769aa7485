/** Concrete runs of the daemon against a scripted host: the exchanges that
    UpdateActions, RemovalActions and SendActions describe, worked out for
    particular hidapi replies. */
module Scenarios {
  import opened Wrappers
  import opened Wire
  import opened Registry
  import opened Environment
  import opened Daemon
  import opened KPodScript
  import opened Arithmetic

  /** A healthy device reporting 10 ticks with button 3 pressed: one
      `onUpdateReport` with the report bytes, and the flag stays clear. */
  method UpdateEvent() returns (kpod: KPodDevice, trace: seq<Action>)
    ensures !kpod.removePending
    ensures trace == [Hid(Write(0, UpdateCommandFrame)), Hid(ReadTimeout(0, 8, 20)),
                      Dispatch(DeviceListener(kpod, OnUpdateReport, [117, 10, 0, 3, 0, 0, 0, 0]))]
  {
    var host := new Host(true, n => [], n => true, n => 8, n => ReadReply(8, [117, 10, 0, 3, 0, 0, 0, 0]));
    kpod := new KPodDevice("/dev/hidraw0", 0);
    UpdateKPod(host, kpod);
    trace := host.trace;
  }

  /** The same report decoded by the script: 10 ticks, button 3, rocker
      centred. */
  lemma ForwardReport(report: Frame)
    requires report[1] == 10 && report[2] == 0 && report[3] == 3
    ensures DecodeReport(report) == UpdateReport(10, 3, false, Center)
  {
    DivModUnique(DecodeTicks(report[1], report[2]) - 10, 65536, 0, 0);
  }

  /** A report of 10 ticks the other way with button 5, hold and the rocker
      left. */
  lemma BackwardReport(report: Frame)
    requires report[1] == 0xF6 && report[2] == 0xFF && report[3] == 0x55
    ensures DecodeReport(report) == UpdateReport(-10, 5, true, Left)
  {
    var u := DecodeReport(report);
    DivModUnique(u.ticks - 65526, 65536, -1, 0);
    assert u.ticks == -10;
    var controls: int := report[3] as int;
    assert controls == 85 && controls % 16 == 5 && controls / 16 == 5 && controls / 32 == 2;
    assert RockerIndex(report[3]) == 2;
    assert u.button == 5 && u.hold && u.rocker == Left;
  }

  /** A device that stops answering: the read times out, the record is
      marked, `onDeviceRemoved` fires before hid_close, and the list is empty. */
  method TimeoutRemoval() returns (list: DeviceList, kpod: KPodDevice, trace: seq<Action>)
    ensures kpod.removePending && kpod.path == "/dev/hidraw0"
    ensures list.head == null && list.tail == null
    ensures trace == [Hid(OpenPath("/dev/hidraw0")), Hid(SetNonblocking(0, 0)),
                      Dispatch(GlobalListener(OnDeviceAdded, kpod)),
                      Hid(Write(0, UpdateCommandFrame)), Hid(ReadTimeout(0, 8, 20)),
                      Dispatch(GlobalListener(OnDeviceRemoved, kpod)), Hid(Close(0))]
  {
    var host := new Host(true, n => [], n => true, n => 8, n => ReadReply(0, [0, 0, 0, 0, 0, 0, 0, 0]));
    list := new DeviceList();
    var code, _ := OpenKPod(list, host, "/dev/hidraw0");
    kpod := list.head;
    var _ := PollDevices(list, host, false);
    assert RemovalActions([kpod]) == [Dispatch(GlobalListener(OnDeviceRemoved, kpod)), Hid(Close(0))] + RemovalActions([]);
    trace := host.trace;
  }

  /** With an explicit device path whose open succeeds and a device whose
      every read fails, main_hid returns 0: after the first tick, where the
      update fails and the removal ends the daemon, or at once when
      interrupted before it. */
  method ExplicitPathExit(sigintTick: nat) returns (code: ExitCode, ghost stop: Stop, ghost count: nat)
    ensures code == Code(0)
    ensures sigintTick > 0 ==> stop == Disconnected && count == 1
    ensures sigintTick == 0 ==> stop == Interrupted && count == 0
  {
    var host := new Host(true, n => ["/dev/hidraw0"], n => true, n => 8, n => ReadReply(-1, [0, 0, 0, 0, 0, 0, 0, 0]));
    assert forall n: nat :: UpdateFails(host, n);
    ghost var list: DeviceList, scans: seq<bool>, ticks: seq<Tick>, removed: KPodDevice?, st: Start;
    code, list, stop, scans, ticks, removed, st :=
      MainHid(0x1209, 0x7a85, Some("/dev/hidraw0"), 10, 1000, host, sigintTick);
    count := |scans|;
  }

  /** open_kpod on a fresh host whose first hid_open_path succeeds: the
      device heads the list, and that open is the only one on the trace. */
  method OpenFirst(list: DeviceList, host: Host, path: string)
    requires list.Valid() && list.head == null && host.trace == [] && host.openReply(0)
    modifies list, host`trace
    ensures list.Valid() && list.head != null && list.head.path == path
    ensures OpenedPaths(host.trace) == [path]
  {
    var code, added := OpenKPod(list, host, path);
    assert list.Forward() == [added];
    assert host.trace == [Hid(OpenPath(path)), Hid(SetNonblocking(0, 0)), Dispatch(GlobalListener(OnDeviceAdded, added))];
    OpenKPodOpens(path, 0, added);
  }

  /** A scan while a device is open, against a host whose hid_enumerate
      always lists `paths`: the head stays, and hid_open_path is called on
      every listed path but the head's. */
  method ScanWithHead(productId: int, vendorId: int, list: DeviceList, host: Host, paths: seq<string>)
    requires list.Valid() && list.head != null
    requires forall n: nat :: host.enumerateReply(n) == paths
    modifies list, host`trace
    ensures list.Valid() && list.head == old(list.head)
    ensures OpenedPaths(host.trace) == OpenedPaths(old(host.trace)) + Without(paths, list.head.path)
  {
    ghost var before := host.trace;
    ghost var first := DeviceScan(productId, vendorId, list, host);
    OpenedThroughScan(before, host.trace, vendorId, productId);
  }

  /** Two devices present and unchanged, the first already open: every scan
      calls hid_open_path on the second path again, because the lookup never
      sees past the head. */
  method Rescan(host: Host) returns (head: KPodDevice?, openCalls: seq<string>)
    requires host.trace == [] && host.openReply(0)
    requires forall n: nat :: host.enumerateReply(n) == ["/dev/hidraw0", "/dev/hidraw1"]
    modifies host`trace
    ensures head != null && head.path == "/dev/hidraw0"
    ensures openCalls == ["/dev/hidraw0", "/dev/hidraw1", "/dev/hidraw1"]
    ensures OpenedPaths(host.trace) == openCalls
  {
    var paths := ["/dev/hidraw0", "/dev/hidraw1"];
    var list := new DeviceList();
    OpenFirst(list, host, "/dev/hidraw0");
    head := list.head;
    assert Without(paths, "/dev/hidraw0") == ["/dev/hidraw1"] by {
      assert paths[..1] == ["/dev/hidraw0"] && paths[..1][..0] == [];
    }
    ScanWithHead(0x1209, 0x7a85, list, host, paths);
    assert OpenedPaths(host.trace) == ["/dev/hidraw0", "/dev/hidraw1"];
    ScanWithHead(0x1209, 0x7a85, list, host, paths);
    assert OpenedPaths(host.trace) == ["/dev/hidraw0", "/dev/hidraw1"] + ["/dev/hidraw1"];
    openCalls := OpenedPaths(host.trace);
  }
}
