/** The device lifecycle and the poll engine of kpodd.c: opening and closing
    devices, the update exchange, the explicit command of the script object,
    discovery, the poll of one tick and the main loop. */
module Daemon {
  import opened Wrappers
  import opened Wire
  import opened Registry
  import opened Environment
  import opened Arithmetic

  /** js_array_for_kpod_report (kpodd.c:112-117): the report as an array of
      its 8 byte values. */
  method ReportArray(report: Frame) returns (jsReport: seq<int>)
    ensures |jsReport| == 8
    ensures forall i :: 0 <= i < 8 ==> jsReport[i] == report[i]
  {
    jsReport := [];
    for i := 0 to 8
      invariant |jsReport| == i
      invariant forall j :: 0 <= j < i ==> jsReport[j] == report[j]
    {
      jsReport := jsReport + [report[i]];
    }
  }

  // ---------------------------------------------------------------------
  // Update of one device (kpodd.c:257-303)

  /** Whether the update exchange that starts at trace position `n` fails. */
  function UpdateFails(host: Host, n: nat): (fails: bool)
    ensures fails <==> host.writeReply(n) != CommandLength || host.readReply(n + 1).count != HidResponseLength
  {
    Classify(host.writeReply(n), host.readReply(n + 1)).Failed?
  }

  /** The trace of update_kpod on `kpod` starting at position `n`, when the
      record's flag was `pending` before: the 'u' frame is written, a read is
      made only after a complete write, and the device's onUpdateReport
      handler is called only when nothing failed, the flag was clear and the
      reply starts with 'u'. */
  function UpdateActions(host: Host, n: nat, kpod: KPodDevice, pending: bool): seq<Action>
  {
    var written := host.writeReply(n);
    [Hid(Write(kpod.handle, UpdateCommandFrame))]
    + (if written == CommandLength then [Hid(ReadTimeout(kpod.handle, HidResponseLength, HidReadTimeout))] else [])
    + match Classify(written, host.readReply(n + 1))
      case Received(report) =>
        if !pending && report[0] == UpdateTag then [Dispatch(DeviceListener(kpod, OnUpdateReport, report))] else []
      case Failed(_) => []
  }

  /** The handlers an update invokes: exactly one onUpdateReport on the
      device, with the report, when nothing failed, the flag was clear and
      the reply starts with 'u', and none otherwise; after a failed write
      there is no read. */
  lemma UpdateDispatches(host: Host, n: nat, kpod: KPodDevice, pending: bool)
    ensures var report := host.readReply(n + 1).report;
      Dispatched(UpdateActions(host, n, kpod, pending))
      == if !pending && !UpdateFails(host, n) && report[0] == UpdateTag
         then [DeviceListener(kpod, OnUpdateReport, report)] else []
    ensures host.writeReply(n) != CommandLength ==> UpdateActions(host, n, kpod, pending) == [Hid(Write(kpod.handle, UpdateCommandFrame))]
  {
    var written := host.writeReply(n);
    var io := [Hid(Write(kpod.handle, UpdateCommandFrame))]
      + (if written == CommandLength then [Hid(ReadTimeout(kpod.handle, HidResponseLength, HidReadTimeout))] else []);
    var tail := UpdateActions(host, n, kpod, pending)[|io|..];
    assert UpdateActions(host, n, kpod, pending) == io + tail;
    DispatchedAppend(io, tail);
    assert Dispatched(io) == [] by {
      assert io[..|io| - 1] == [] || io[..|io| - 1] == [Hid(Write(kpod.handle, UpdateCommandFrame))];
      assert Dispatched([Hid(Write(kpod.handle, UpdateCommandFrame))]) == [] by {
        assert [Hid(Write(kpod.handle, UpdateCommandFrame))][..0] == [];
      }
    }
    if tail != [] {
      assert Dispatched(tail) == Dispatched([]) + [tail[0].event] by {
        assert tail[..0] == [];
      }
    }
  }

  /** update_kpod: one 'u' exchange. Any failure sets the sticky
      `remove_pending`; nothing clears it. */
  method UpdateKPod(host: Host, kpod: KPodDevice)
    modifies host`trace, kpod`removePending
    ensures kpod.removePending == (old(kpod.removePending) || UpdateFails(host, |old(host.trace)|))
    ensures host.trace == old(host.trace) + UpdateActions(host, |old(host.trace)|, kpod, old(kpod.removePending))
  {
    var report: Frame := [0, 0, 0, 0, 0, 0, 0, 0];
    var written := host.HidWrite(kpod.handle, UpdateCommandFrame);
    if written == CommandLength {
      var reply := host.HidReadTimeout(kpod.handle, HidResponseLength, HidReadTimeout);
      report := reply.report;
      if reply.count > 0 && reply.count != HidResponseLength {
        kpod.removePending := true;
      } else if reply.count == 0 {
        kpod.removePending := true;
      } else if reply.count < 0 {
        kpod.removePending := true;
      }
    } else {
      kpod.removePending := true;
    }

    if kpod.removePending {
      return;
    }

    if report[0] == UpdateTag {
      var jsReport := ReportArray(report);
      assert jsReport == report;
      host.Apply(DeviceListener(kpod, OnUpdateReport, jsReport));
    }
  }

  // ---------------------------------------------------------------------
  // The script object's send method (kpodd.c:119-159)

  /** What js_kpod_send returns, or throws, for a call that starts at trace
      position `n`: without arguments an error, otherwise the 8 reply bytes
      whatever they are, or the classified failure. */
  function SendResult(host: Host, n: nat, args: seq<int>): (r: Result<seq<int>, Failure>)
    ensures r.Success? <==> args != [] && host.writeReply(n) == CommandLength && host.readReply(n + 1).count == HidResponseLength
    ensures r.Success? ==> r.value == host.readReply(n + 1).report
    ensures args == [] ==> r == Failure(CmdDataMissing)
    ensures args != [] && r.Failure? ==> r.error != CmdDataMissing
  {
    if args == [] then Failure(CmdDataMissing)
    else match Classify(host.writeReply(n), host.readReply(n + 1))
      case Received(report) => Success(report)
      case Failed(f) => Failure(f)
  }

  /** The hidapi calls of js_kpod_send: none without arguments, else the
      command frame and, after a complete write, one read. */
  function SendActions(host: Host, n: nat, handle: nat, args: seq<int>): seq<Action>
    requires |args| <= 8
  {
    if args == [] then []
    else [Hid(Write(handle, CommandFrame(args)))]
         + (if host.writeReply(n) == CommandLength then [Hid(ReadTimeout(handle, HidResponseLength, HidReadTimeout))] else [])
  }

  /** js_kpod_send invokes no handler. */
  lemma SendDispatchesNothing(host: Host, n: nat, handle: nat, args: seq<int>)
    requires |args| <= 8
    ensures Dispatched(SendActions(host, n, handle, args)) == []
  {
    if args != [] {
      var w := [Hid(Write(handle, CommandFrame(args)))];
      assert Dispatched(w) == [] by { assert w[..0] == []; }
      if host.writeReply(n) == CommandLength {
        var r := [Hid(ReadTimeout(handle, HidResponseLength, HidReadTimeout))];
        assert Dispatched(r) == [] by { assert r[..0] == []; }
        DispatchedAppend(w, r);
      } else {
        assert SendActions(host, n, handle, args) == w;
      }
    }
  }

  /** js_kpod_send. The source writes `data[i - 1]` for every argument
      without a bound, so at most 8 arguments fit the packet. */
  method Send(kpod: KPodDevice, host: Host, args: seq<int>) returns (result: Result<seq<int>, Failure>)
    requires |args| <= 8
    modifies host`trace, kpod`removePending
    ensures result == SendResult(host, |old(host.trace)|, args)
    ensures host.trace == old(host.trace) + SendActions(host, |old(host.trace)|, kpod.handle, args)
    ensures kpod.removePending == (old(kpod.removePending) || (args != [] && result.Failure?))
  {
    if |args| > 0 {
      var frame := BuildCommandFrame(args);
      var written := host.HidWrite(kpod.handle, frame);
      if written == CommandLength {
        var reply := host.HidReadTimeout(kpod.handle, HidResponseLength, HidReadTimeout);
        if reply.count > 0 && reply.count != HidResponseLength {
          kpod.removePending := true;
          return Failure(ShortRead(reply.count));
        } else if reply.count == 0 {
          kpod.removePending := true;
          return Failure(ReadTimedOut);
        } else if reply.count < 0 {
          kpod.removePending := true;
          return Failure(ReadFailed);
        }
        var jsReport := ReportArray(reply.report);
        assert jsReport == reply.report;
        return Success(jsReport);
      } else {
        kpod.removePending := true;
        return Failure(WriteFailed);
      }
    } else {
      return Failure(CmdDataMissing);
    }
  }

  // ---------------------------------------------------------------------
  // Opening and closing devices (kpodd.c:177-250)

  /** open_kpod: 3 when hid_open_path fails, with nothing linked and no
      handler called; otherwise one new record, linked first, then the
      global onDeviceAdded handler, and 0. */
  method OpenKPod(list: DeviceList, host: Host, devicePath: string) returns (code: int, ghost added: KPodDevice?)
    requires list.Valid()
    modifies list, host`trace
    ensures list.Valid()
    ensures host.openReply(|old(host.trace)|) ==>
      && code == 0 && added != null && fresh(added)
      && added.path == devicePath && added.handle == |old(host.trace)| && !added.removePending
      && list.Repr == old(list.Repr) + {added} && list.tail == added
      && (old(list.head) == null ==> list.Forward() == [added])
      && (old(list.head) != null ==> list.head == old(list.head) && added.prev == old(list.tail) && list.Forward() == old(list.Forward()))
      && host.trace == old(host.trace) + [Hid(OpenPath(devicePath)), Hid(SetNonblocking(|old(host.trace)|, 0)),
                                          Dispatch(GlobalListener(OnDeviceAdded, added))]
    ensures !host.openReply(|old(host.trace)|) ==>
      && code == 3 && added == null
      && list.head == old(list.head) && list.tail == old(list.tail) && list.Repr == old(list.Repr)
      && host.trace == old(host.trace) + [Hid(OpenPath(devicePath))]
  {
    var handle := host.HidOpenPath(devicePath);
    if handle.None? {
      return 3, null;
    }
    host.HidSetNonblocking(handle.value, 0);
    var newKPod := new KPodDevice(devicePath, handle.value);
    list.Add(newKPod);
    host.Apply(GlobalListener(OnDeviceAdded, newKPod));
    return 0, newKPod;
  }

  /** close_kpod: the global onDeviceRemoved handler first, then hid_close,
      then the unlink. Closing the head, the only record the daemon ever
      closes, empties the list. */
  method CloseKPod(list: DeviceList, host: Host, kpod: KPodDevice)
    requires list.Valid() && kpod in list.Repr
    modifies list, list.Repr, host`trace
    ensures list.Valid() && list.Repr == old(list.Repr)
    ensures host.trace == old(host.trace) + [Dispatch(GlobalListener(OnDeviceRemoved, kpod)), Hid(Close(kpod.handle))]
    ensures list.head == (if old(kpod.prev) == null then null else old(list.head))
    ensures list.tail == old(kpod.prev)
    ensures forall d :: d in list.Repr ==> d.prev == old(d.prev) && d.removePending == old(d.removePending)
    ensures kpod == old(list.head) ==> list.head == null && list.tail == null && list.Forward() == []
  {
    host.Apply(GlobalListener(OnDeviceRemoved, kpod));
    host.HidClose(kpod.handle);
    list.Remove(kpod);
  }

  /** The trace of closing the records of `s` in order. */
  function RemovalActions(s: seq<KPodDevice>): seq<Action>
  {
    if s == [] then []
    else [Dispatch(GlobalListener(OnDeviceRemoved, s[0])), Hid(Close(s[0].handle))] + RemovalActions(s[1..])
  }

  /** Closing records invokes onDeviceRemoved once for each, in order. */
  lemma {:induction false} RemovalDispatches(s: seq<KPodDevice>)
    ensures Dispatched(RemovalActions(s)) == seq(|s|, i requires 0 <= i < |s| => GlobalListener(OnDeviceRemoved, s[i]))
  {
    if s != [] {
      var pair := [Dispatch(GlobalListener(OnDeviceRemoved, s[0])), Hid(Close(s[0].handle))];
      RemovalDispatches(s[1..]);
      DispatchedAppend(pair, RemovalActions(s[1..]));
      assert Dispatched(pair) == [GlobalListener(OnDeviceRemoved, s[0])] by {
        var first := pair[..1];
        assert first[..0] == [];
        assert Dispatched(first) == [GlobalListener(OnDeviceRemoved, s[0])];
        assert pair[..|pair| - 1] == first;
      }
    }
  }

  /** close_kpods: closes every record reachable forward from the head. */
  method CloseKPods(list: DeviceList, host: Host) returns (code: int)
    requires list.Valid()
    modifies list, list.Repr, host`trace
    ensures code == 0
    ensures list.Valid() && list.Repr == old(list.Repr) && list.Forward() == []
    ensures host.trace == old(host.trace) + RemovalActions(old(list.Forward()))
    ensures old(list.head) != null ==> list.tail == null
  {
    code := 0;
    ghost var walk := list.Forward();
    ghost var k := 0;
    var kpod := list.head;
    while kpod != null
      invariant list.Valid() && list.Repr == old(list.Repr)
      invariant walk == old(list.Forward()) && 0 <= k <= |walk|
      invariant kpod == (if k < |walk| then walk[k] else null)
      invariant list.Forward() == walk[k..]
      invariant host.trace == old(host.trace) + RemovalActions(walk[..k])
      invariant k > 0 ==> list.tail == null
      decreases |walk| - k
    {
      var oldKPod := kpod;
      kpod := kpod.next;
      CloseKPod(list, host, oldKPod);
      assert walk[..k + 1] == [oldKPod];
      k := k + 1;
    }
  }

  // ---------------------------------------------------------------------
  // Discovery (kpodd.c:316-329)

  /** `s` without the elements equal to `x`. */
  function Without(s: seq<string>, x: string): seq<string>
  {
    if s == [] then []
    else Without(s[..|s| - 1], x) + (if s[|s| - 1] == x then [] else [s[|s| - 1]])
  }

  /** `Without` keeps exactly the elements other than `x`, in order; on
      distinct paths that contain `x` it drops exactly one. Hence a rescan
      with unchanged hardware hands open_kpod every path but the head's. */
  lemma {:induction false} WithoutMembers(s: seq<string>, x: string)
    ensures forall y :: y in Without(s, x) <==> y in s && y != x
    ensures |Without(s, x)| <= |s|
    ensures x !in s ==> Without(s, x) == s
    ensures (forall i, j :: 0 <= i < j < |s| ==> s[i] != s[j]) && x in s ==> |Without(s, x)| == |s| - 1
  {
    if s != [] {
      var init := s[..|s| - 1];
      WithoutMembers(init, x);
      assert s == init + [s[|s| - 1]];
      if (forall i, j :: 0 <= i < j < |s| ==> s[i] != s[j]) && x in s {
        if s[|s| - 1] == x {
          assert x !in init;
        } else {
          assert x in init;
          assert forall i, j :: 0 <= i < j < |init| ==> init[i] != init[j] by {
            forall i, j | 0 <= i < j < |init| ensures init[i] != init[j] {
              assert init[i] == s[i] && init[j] == s[j];
            }
          }
        }
      }
    }
  }

  lemma WithoutSnoc(s: seq<string>, y: string, x: string)
    ensures Without(s + [y], x) == Without(s, x) + (if y == x then [] else [y])
  {
    assert (s + [y])[..|s|] == s;
  }

  /** The calls of a successful open_kpod hold one hid_open_path, of its
      path, and no hid_enumerate. */
  lemma OpenKPodOpens(path: string, handle: nat, added: KPodDevice)
    ensures OpenedPaths([Hid(OpenPath(path)), Hid(SetNonblocking(handle, 0)),
                         Dispatch(GlobalListener(OnDeviceAdded, added))]) == [path]
    ensures Enumerations([Hid(OpenPath(path)), Hid(SetNonblocking(handle, 0)),
                          Dispatch(GlobalListener(OnDeviceAdded, added))]) == 0
  {
    NoEnumerations([Hid(OpenPath(path)), Hid(SetNonblocking(handle, 0)), Dispatch(GlobalListener(OnDeviceAdded, added))]);
    var one := [Hid(OpenPath(path))];
    var rest := [Hid(SetNonblocking(handle, 0)), Dispatch(GlobalListener(OnDeviceAdded, added))];
    assert one[..0] == [];
    assert OpenedPaths(one) == [path];
    assert rest[..1][..0] == [];
    assert OpenedPaths(rest[..1]) == [];
    assert OpenedPaths(rest) == [];
    OpenedAppend(one, rest);
    assert one + rest == [Hid(OpenPath(path)), Hid(SetNonblocking(handle, 0)), Dispatch(GlobalListener(OnDeviceAdded, added))];
  }

  /** One iteration of device_scan's loop: open_kpod is called for `path`
      exactly when is_kpod_open does not find it (`tried`), and its
      hid_open_path call is the only one the iteration makes. A record is
      linked exactly when that call succeeds: on failure the iteration makes
      no other call and the list is as it was. It calls no hid_enumerate, and
      a record it links to an empty list has its flag clear and, as handle,
      the position of that hid_open_path call. */
  method ScanPath(list: DeviceList, host: Host, path: string) returns (ghost tried: bool, ghost step: seq<Action>)
    requires list.Valid()
    modifies list, host`trace
    ensures list.Valid()
    ensures old(list.Repr) <= list.Repr && fresh(list.Repr - old(list.Repr))
    ensures host.trace == old(host.trace) + step
    ensures tried <==> !(old(list.head) != null && old(list.head).path == path)
    ensures !tried ==> step == [] && list.head == old(list.head) && list.Repr == old(list.Repr)
    ensures tried ==> |step| > 0 && step[0] == Hid(OpenPath(path))
    ensures OpenedPaths(step) == if tried then [path] else []
    ensures Enumerations(step) == 0
    ensures old(list.head) != null ==> list.head == old(list.head)
    ensures old(list.head) == null && list.head != null ==> list.head.path == path && !list.head.removePending
    ensures old(list.head) == null && list.head != null ==>
      list.head.handle == |old(host.trace)| && host.openReply(list.head.handle)
    ensures tried && old(list.head) == null ==> (list.head != null <==> host.openReply(|old(host.trace)|))
    ensures !(tried && host.openReply(|old(host.trace)|)) ==> list.head == old(list.head) && list.Repr == old(list.Repr)
    ensures tried && !host.openReply(|old(host.trace)|) ==> step == [Hid(OpenPath(path))]
  {
    var open := list.IsOpen(path);
    tried, step := !open, [];
    if !open {
      ghost var before := host.trace;
      var code, added := OpenKPod(list, host, path);
      step := host.trace[|before|..];
      assert host.trace == before + step;
      if added != null {
        OpenKPodOpens(path, |before|, added);
      } else {
        assert [Hid(OpenPath(path))][..0] == [];
        NoEnumerations(step);
      }
    }
  }

  /** The path of a record, if there is one. */
  function PathOf(d: KPodDevice?): Option<string>
  {
    if d == null then None else Some(d.path)
  }

  /** The paths of `paths` that device_scan hands to open_kpod when the list
      starts with a head of path `head`, or starts empty and its first
      successful open is the one of `paths[first]` (`None` if no open
      succeeds): with a head, every path but the head's; otherwise every
      path up to the first success, then every later path but that one. */
  function Handed(paths: seq<string>, head: Option<string>, first: Option<nat>): seq<string>
    requires first.Some? ==> first.value < |paths|
  {
    if head.Some? then Without(paths, head.value)
    else if first.None? then paths
    else paths[..first.value + 1] + Without(paths[first.value + 1..], paths[first.value])
  }

  /** One more enumerated path: it is handed over exactly when the lookup,
      which sees only the current head, misses it. */
  lemma HandedSnoc(paths: seq<string>, y: string, head: Option<string>, first: Option<nat>, first': Option<nat>)
    requires first.Some? ==> first.value < |paths|
    requires head.Some? ==> first.None? && first'.None?
    requires first.Some? ==> first' == first
    requires head.None? && first.None? ==> first'.None? || first' == Some(|paths|)
    ensures var current := if head.Some? then head else if first.Some? then Some(paths[first.value]) else None;
      Handed(paths + [y], head, first')
      == Handed(paths, head, first) + (if current == Some(y) then [] else [y])
  {
    if head.Some? {
      WithoutSnoc(paths, y, head.value);
    } else if first.Some? {
      var f := first.value;
      var before, after := paths[..f + 1], Without(paths[f + 1..], paths[f]);
      assert (paths + [y])[..f + 1] == before;
      assert (paths + [y])[f + 1..] == paths[f + 1..] + [y];
      assert (paths + [y])[f] == paths[f];
      WithoutSnoc(paths[f + 1..], y, paths[f]);
      var last := if paths[f] == y then [] else [y];
      assert Handed(paths + [y], head, first') == before + (after + last);
      assert before + (after + last) == (before + after) + last;
    } else if first'.Some? {
      assert (paths + [y])[..|paths| + 1] == paths + [y];
      assert (paths + [y])[|paths| + 1..] == [];
      assert Handed(paths + [y], head, first') == paths + [y] + [];
    }
  }

  /** None of the hid_open_path calls of `log`, whose first call is at
      trace position `at`, succeeds. */
  ghost predicate OpensFail(host: Host, log: seq<Action>, at: nat)
  {
    forall j :: 0 <= j < |log| && log[j].Hid? && log[j].call.OpenPath? ==> !host.openReply(at + j)
  }

  /** The calls `log`, from trace position `at`, of a scan of `paths` that
      began on an empty list and left `head` at its head: with `first` none,
      no hid_open_path succeeded; otherwise the opens of the paths before
      `paths[first]` all failed and the open of `paths[first]` was the first
      to succeed, and `head` is the record it linked, whose handle is the
      position of that call. */
  ghost predicate FirstOpen(host: Host, log: seq<Action>, at: nat, paths: seq<string>, first: Option<nat>, head: KPodDevice?)
  {
    if first.None? then OpensFail(host, log, at)
    else
      && head != null && first.value < |paths| && head.path == paths[first.value]
      && at <= head.handle < at + |log|
      && log[head.handle - at] == Hid(OpenPath(paths[first.value]))
      && host.openReply(head.handle)
      && OpensFail(host, log[..head.handle - at], at)
      && OpenedPaths(log[..head.handle - at]) == paths[..first.value]
  }

  /** An open at `p` inside calls none of whose opens succeeded failed. */
  lemma OpensFailAt(host: Host, log: seq<Action>, at: nat, p: nat, q: nat)
    requires q <= |log| && OpensFail(host, log[..q], at)
    ensures p < q && log[p].Hid? && log[p].call.OpenPath? ==> !host.openReply(at + p)
  {
    if p < q {
      assert log[..q][p] == log[p];
    }
  }

  /** FirstOpen fixes the scan's first successful open: the same calls
      admit one `first` only, and one record as the head it linked. */
  lemma FirstOpenUnique(host: Host, log: seq<Action>, at: nat, paths: seq<string>, first: Option<nat>, head: KPodDevice?,
                        first': Option<nat>, head': KPodDevice?)
    requires FirstOpen(host, log, at, paths, first, head) && FirstOpen(host, log, at, paths, first', head')
    ensures first == first'
    ensures first.Some? ==> head.handle == head'.handle && head.path == head'.path
  {
    var q := if first.Some? then head.handle - at else |log|;
    var q' := if first'.Some? then head'.handle - at else |log|;
    assert log[..|log|] == log;
    OpensFailAt(host, log, at, q, q');
    OpensFailAt(host, log, at, q', q);
    if first.Some? && first'.Some? {
      assert |paths[..first.value]| == |paths[..first'.value]|;
    }
  }

  /** A failed open after calls none of whose opens succeeded: still none. */
  lemma OpensFailSnoc(host: Host, log: seq<Action>, at: nat, path: string)
    requires OpensFail(host, log, at) && !host.openReply(at + |log|)
    ensures OpensFail(host, log + [Hid(OpenPath(path))], at)
  {
  }

  /** The first successful open of a scan of some paths is still the first
      of a scan of more paths. */
  lemma FirstOpenPrefix(host: Host, log: seq<Action>, at: nat, paths: seq<string>, paths': seq<string>,
                        first: Option<nat>, head: KPodDevice?)
    requires first.Some? && FirstOpen(host, log, at, paths, first, head) && paths <= paths'
    ensures FirstOpen(host, log, at, paths', first, head)
  {
    assert paths'[..first.value] == paths[..first.value];
  }

  /** One more pass of device_scan's loop on a list that began empty: the
      first successful open stays the first; with none so far, the open of
      `paths[i]` becomes the first when it succeeds and links `head`. */
  lemma FirstOpenStep(host: Host, log0: seq<Action>, step: seq<Action>, at: nat, paths: seq<string>, i: nat,
                      first0: Option<nat>, first: Option<nat>, head0: KPodDevice?, head: KPodDevice?)
    requires i < |paths| && FirstOpen(host, log0, at, paths[..i], first0, head0)
    requires first0.Some? ==> head == head0
    requires first0.None? ==> head0 == null && OpenedPaths(log0) == paths[..i]
    requires first == if first0.None? && head != null then Some(i) else first0
    requires first0.None? && head != null ==>
      && head.path == paths[i] && head.handle == at + |log0| && host.openReply(head.handle)
      && |step| > 0 && step[0] == Hid(OpenPath(paths[i]))
    requires first0.None? && head == null ==> step == [Hid(OpenPath(paths[i]))] && !host.openReply(at + |log0|)
    ensures FirstOpen(host, log0 + step, at, paths[..i + 1], first, head)
  {
    if first0.Some? {
      FirstOpenPrefix(host, log0, at, paths[..i], paths[..i + 1], first0, head);
      FirstOpenGrow(host, log0, step, at, paths[..i + 1], first0, head);
    } else if head != null {
      FirstOpenNew(host, log0, step, at, paths[..i + 1], i, head);
    } else {
      OpensFailSnoc(host, log0, at, paths[i]);
    }
  }

  /** After opens of `paths[..i]` that all failed, a successful open of
      `paths[i]`, which linked `head`, is the first. */
  lemma FirstOpenNew(host: Host, log0: seq<Action>, step: seq<Action>, at: nat, paths: seq<string>, i: nat,
                     head: KPodDevice)
    requires i < |paths| && OpensFail(host, log0, at) && OpenedPaths(log0) == paths[..i]
    requires head.path == paths[i] && head.handle == at + |log0| && host.openReply(head.handle)
    requires |step| > 0 && step[0] == Hid(OpenPath(paths[i]))
    ensures FirstOpen(host, log0 + step, at, paths, Some(i), head)
  {
    assert (log0 + step)[..|log0|] == log0;
    assert (log0 + step)[|log0|] == step[0];
  }

  /** Calls after the first successful open leave it the first. */
  lemma FirstOpenGrow(host: Host, log: seq<Action>, step: seq<Action>, at: nat, paths: seq<string>, first: Option<nat>,
                      head: KPodDevice?)
    requires first.Some? && FirstOpen(host, log, at, paths, first, head)
    ensures FirstOpen(host, log + step, at, paths, first, head)
  {
    var p := head.handle - at;
    assert (log + step)[..p] == log[..p];
    assert (log + step)[p] == log[p];
  }

  /** What one device_scan did, from the trace position where it began: the
      enumeration comes first; the hid_open_path calls after it are exactly
      the `Handed` paths and no other hid_enumerate follows; an existing head
      stays, and on an empty list `first` is the index of the path whose
      open was the first to succeed, as FirstOpen says, which gave the list
      its head, whose flag is clear; with none, every open failed and the
      list stays empty. */
  twostate predicate ScanEffect(list: DeviceList, host: Host, vendorId: int, productId: int, new first: Option<nat>)
    reads list, host, list.head
  {
    var n := |old(host.trace)|;
    var paths := host.enumerateReply(n);
    && old(host.trace) + [Hid(Enumerate(vendorId, productId))] <= host.trace
    && (first.Some? ==> first.value < |paths| && list.head != null && list.head.path == paths[first.value])
    && (first.Some? ==> !list.head.removePending)
    && (first.Some? <==> old(list.head) == null && list.head != null)
    && (old(list.head) != null ==> list.head == old(list.head))
    && OpenedPaths(host.trace[n + 1..]) == Handed(paths, PathOf(old(list.head)), first)
    && Enumerations(host.trace[n + 1..]) == 0
    && (old(list.head) == null ==> FirstOpen(host, host.trace[n + 1..], n + 1, paths, first, list.head))
  }

  /** hid_enumerate opens nothing: the hid_open_path calls around it are
      those before it followed by those after it. */
  lemma OpenedAroundEnumerate(before: seq<Action>, rest: seq<Action>, vendorId: int, productId: int)
    ensures OpenedPaths(before + [Hid(Enumerate(vendorId, productId))] + rest) == OpenedPaths(before) + OpenedPaths(rest)
  {
    var e := [Hid(Enumerate(vendorId, productId))];
    OpenedAppend(before + e, rest);
    OpenedAppend(before, e);
    assert OpenedPaths(e) == OpenedPaths([]) by {
      assert e[..0] == [];
    }
  }

  /** The hid_open_path calls of a trace that passed through a scan are
      those before its hid_enumerate followed by those of the scan. */
  lemma OpenedThroughScan(before: seq<Action>, after: seq<Action>, vendorId: int, productId: int)
    requires before + [Hid(Enumerate(vendorId, productId))] <= after
    ensures OpenedPaths(after) == OpenedPaths(before) + OpenedPaths(after[|before| + 1..])
  {
    var e := [Hid(Enumerate(vendorId, productId))];
    var rest := after[|before| + 1..];
    assert after == before + e + rest by {
      assert after[..|before| + 1] == before + e;
      assert after == after[..|before| + 1] + rest;
    }
    OpenedAroundEnumerate(before, rest, vendorId, productId);
  }

  /** One more path of the loop of device_scan, by index: it is handed over
      exactly when it differs from the path of the current head. */
  lemma HandedStep(paths: seq<string>, i: nat, head: Option<string>, first0: Option<nat>, first: Option<nat>)
    requires i < |paths|
    requires first0.Some? ==> first0.value < i
    requires head.Some? ==> first0.None? && first.None?
    requires first0.Some? ==> first == first0
    requires head.None? && first0.None? ==> first.None? || first == Some(i)
    ensures var current := if head.Some? then head else if first0.Some? then Some(paths[first0.value]) else None;
      Handed(paths[..i + 1], head, first) == Handed(paths[..i], head, first0) + (if current == Some(paths[i]) then [] else [paths[i]])
  {
    var prefix := paths[..i];
    assert first0.Some? ==> prefix[first0.value] == paths[first0.value];
    HandedSnoc(prefix, paths[i], head, first0, first);
    assert paths[..i + 1] == prefix + [paths[i]];
  }

  /** What device_scan's loop keeps after the passes over `paths[..i]`,
      which made the calls `log` from trace position `at`, when the head the
      scan began with had path `head0`: `first` is the index of the open
      that gave an empty list its head, whose flag is clear, the hid_open_path
      calls are the `Handed` ones, no hid_enumerate was called, and on an
      empty list the first successful open is as FirstOpen says. */
  ghost predicate ScanState(host: Host, list: DeviceList, paths: seq<string>, i: nat, head0: Option<string>,
                            first: Option<nat>, log: seq<Action>, at: nat)
    reads list, list.head
  {
    && i <= |paths|
    && (first.Some? ==> first.value < i && list.head != null && list.head.path == paths[first.value])
    && (first.Some? ==> !list.head.removePending)
    && (first.Some? <==> head0.None? && list.head != null)
    && OpenedPaths(log) == Handed(paths[..i], head0, first) && Enumerations(log) == 0
    && (head0.None? ==> FirstOpen(host, log, at, paths[..i], first, list.head))
  }

  /** One pass of device_scan's loop, at index `i`: ScanPath on `paths[i]`,
      with what the loop keeps. `head0` is the path of the head the scan
      began with, `first0` the index of the open that gave an empty list its
      head so far, and `log0` the calls of the earlier passes, from trace
      position `at`. */
  method ScanNext(paths: seq<string>, i: nat, list: DeviceList, host: Host,
                  ghost head0: Option<string>, ghost first0: Option<nat>, ghost log0: seq<Action>, ghost at: nat)
    returns (ghost first: Option<nat>, ghost step: seq<Action>)
    requires i < |paths| && list.Valid()
    requires at + |log0| == |host.trace|
    requires head0.Some? ==> PathOf(list.head) == head0
    requires ScanState(host, list, paths, i, head0, first0, log0, at)
    modifies list, host`trace
    ensures list.Valid() && old(list.Repr) <= list.Repr && fresh(list.Repr - old(list.Repr))
    ensures host.trace == old(host.trace) + step
    ensures old(list.head) != null ==> list.head == old(list.head)
    ensures ScanState(host, list, paths, i + 1, head0, first, log0 + step, at)
  {
    ghost var tried;
    tried, step := ScanPath(list, host, paths[i]);
    first := first0;
    if head0.None? && first0.None? && list.head != null {
      first := Some(i);
    }
    HandedStep(paths, i, head0, first0, first);
    OpenedAppend(log0, step);
    EnumerationsAppend(log0, step);
    if head0.None? {
      FirstOpenStep(host, log0, step, at, paths, i, first0, first, old(list.head), list.head);
    }
  }

  /** The loop of device_scan over the enumerated `paths`: each is looked
      up, and open_kpod is called for each one the lookup does not find; a
      failed open does not stop the loop. The hid_open_path calls it makes
      are exactly the `Handed` paths, and on an empty list `first` is the
      first of them to succeed, as FirstOpen says. */
  method ScanPaths(paths: seq<string>, list: DeviceList, host: Host) returns (ghost first: Option<nat>, ghost log: seq<Action>)
    requires list.Valid()
    modifies list, host`trace
    ensures list.Valid()
    ensures old(list.Repr) <= list.Repr && fresh(list.Repr - old(list.Repr))
    ensures host.trace == old(host.trace) + log
    ensures first.Some? ==> first.value < |paths| && list.head != null && list.head.path == paths[first.value]
    ensures first.Some? ==> !list.head.removePending
    ensures first.Some? <==> old(list.head) == null && list.head != null
    ensures old(list.head) != null ==> list.head == old(list.head)
    ensures OpenedPaths(log) == Handed(paths, PathOf(old(list.head)), first)
    ensures Enumerations(log) == 0
    ensures old(list.head) == null ==> FirstOpen(host, log, |old(host.trace)|, paths, first, list.head)
  {
    ghost var head0 := PathOf(list.head);
    first, log := None, [];
    var i := 0;
    while i < |paths|
      invariant 0 <= i <= |paths|
      invariant list.Valid()
      invariant old(list.Repr) <= list.Repr && fresh(list.Repr - old(list.Repr))
      invariant host.trace == old(host.trace) + log
      invariant head0.Some? ==> list.head == old(list.head)
      invariant ScanState(host, list, paths, i, head0, first, log, |old(host.trace)|)
    {
      ghost var before := host.trace;
      ghost var step;
      first, step := ScanNext(paths, i, list, host, head0, first, log, |old(host.trace)|);
      assert host.trace == old(host.trace) + (log + step) by {
        assert host.trace == before + step;
        assert before == old(host.trace) + log;
      }
      log := log + step;
      i := i + 1;
    }
    assert paths[..i] == paths;
  }

  /** device_scan: the enumeration, then the loop over its paths. Since the
      lookup only sees the head, every enumerated path other than the head's
      is opened again. */
  method DeviceScan(productId: int, vendorId: int, list: DeviceList, host: Host) returns (ghost first: Option<nat>)
    requires list.Valid()
    modifies list, host`trace
    ensures list.Valid()
    ensures old(list.Repr) <= list.Repr && fresh(list.Repr - old(list.Repr))
    ensures ScanEffect(list, host, vendorId, productId, first)
  {
    var devs := host.HidEnumerate(vendorId, productId);
    ghost var enumerated := host.trace;
    ghost var log;
    first, log := ScanPaths(devs, list, host);
    assert host.trace[|enumerated|..] == log;
  }

  // ---------------------------------------------------------------------
  // One tick of the poll loop (kpodd.c:360-375)

  /** The poll of the head `h` from trace `before` to trace `after`, when
      its flag was `pending` before the update and is `flag` after it, and
      `head` is the list's head afterwards: the update, and on failure, or
      when the flag was already set, the close, which empties the list;
      `exit` exactly when the device is removed and removal ends the
      daemon. */
  ghost predicate PolledHead(host: Host, h: KPodDevice, before: seq<Action>, after: seq<Action>, pending: bool, flag: bool,
                             head: KPodDevice?, exitOnRemoval: bool, exit: bool)
  {
    var failed := pending || UpdateFails(host, |before|);
    && flag == failed
    && after == before + UpdateActions(host, |before|, h, pending) + (if failed then RemovalActions([h]) else [])
    && head == (if failed then null else h)
    && exit == (failed && exitOnRemoval)
  }

  /** A poll of `h` from trace `before` to trace `polled` calls no
      hid_enumerate; when a hid_exit follows a removal, onDeviceRemoved,
      hid_close and hid_exit are the last calls. */
  lemma PollTail(host: Host, before: seq<Action>, polled: seq<Action>, h: KPodDevice, pending: bool, failed: bool, exit: bool)
    requires polled == before + UpdateActions(host, |before|, h, pending) + (if failed then RemovalActions([h]) else [])
    requires exit ==> failed
    ensures Enumerations(polled[|before|..]) == 0
    ensures exit ==> var after := polled + [Hid(Exit)];
      |after| >= 3 && after[|after| - 3..] == [Dispatch(GlobalListener(OnDeviceRemoved, h)), Hid(Close(h.handle)), Hid(Exit)]
  {
    var removal := RemovalActions([h]);
    assert [h][1..] == [];
    assert removal == [Dispatch(GlobalListener(OnDeviceRemoved, h)), Hid(Close(h.handle))] + RemovalActions([]);
    var u, r := UpdateActions(host, |before|, h, pending), (if failed then removal else []);
    assert polled == before + (u + r);
    assert polled[|before|..] == u + r;
    NoEnumerations(u + r);
  }

  /** The inner loop of main_hid: each record reachable from the head is
      updated, `next` being saved before the update and the close, and a
      record whose flag is set afterwards is closed at once; with an explicit
      device path the first removal ends the daemon (`exit`). */
  method PollDevices(list: DeviceList, host: Host, exitOnRemoval: bool) returns (exit: bool)
    requires list.Valid()
    modifies list, list.Repr, host`trace
    ensures list.Valid() && list.Repr == old(list.Repr)
    ensures old(host.trace) <= host.trace
    ensures old(list.head) == null ==> !exit && host.trace == old(host.trace) && list.head == null && list.tail == old(list.tail)
    ensures old(list.head) != null ==>
      && PolledHead(host, old(list.head), old(host.trace), host.trace, old(list.head.removePending), old(list.head).removePending,
                    list.head, exitOnRemoval, exit)
      && list.tail == (if list.head == null then null else old(list.tail))
  {
    exit := false;
    ghost var walk := list.Forward();
    ghost var k := 0;
    var kpod := list.head;
    while kpod != null
      invariant walk == old(list.Forward()) && 0 <= k <= |walk|
      invariant kpod == (if k < |walk| then walk[k] else null)
      invariant list.Valid() && list.Repr == old(list.Repr)
      invariant k == 0 ==> host.trace == old(host.trace) && list.head == old(list.head) && list.tail == old(list.tail)
      invariant k == 0 && walk != [] ==> walk[0].removePending == old(walk[0].removePending)
      invariant k == 1 ==>
        && PolledHead(host, walk[0], old(host.trace), host.trace, old(walk[0].removePending), walk[0].removePending,
                      list.head, exitOnRemoval, false)
        && list.tail == (if list.head == null then null else old(list.tail))
      decreases |walk| - k
    {
      var currKPod := kpod;
      kpod := kpod.next;

      UpdateKPod(host, currKPod);

      if currKPod.removePending {
        CloseKPod(list, host, currKPod);
        if exitOnRemoval {
          return true;
        }
      }
      k := k + 1;
    }
  }

  // ---------------------------------------------------------------------
  // The scan countdown (kpodd.c:352-358)

  /** One evaluation of `(deviceScanInterval > 0) && (device_scan_count-- == 0)`
      with the reset that follows a scan: whether to scan, and the new count.
      The C division truncates; with both operands positive it agrees with
      Dafny's. */
  function ScanCountdown(scanInterval: int, updateInterval: int, count: int): (bool, int)
    requires scanInterval > 0 ==> updateInterval >= 1
  {
    if scanInterval <= 0 then (false, count)
    else if count == 0 then (true, scanInterval / updateInterval)
    else (false, count - 1)
  }

  /** `device_scan_count` at the start of tick `tick`. */
  function CountdownBefore(scanInterval: int, updateInterval: int, tick: nat): int
    requires scanInterval > 0 ==> updateInterval >= 1
  {
    if tick == 0 then 0
    else ScanCountdown(scanInterval, updateInterval, CountdownBefore(scanInterval, updateInterval, tick - 1)).1
  }

  /** Scanning is enabled and `tick` is a multiple of `S / U + 1`. */
  predicate ScanDue(scanInterval: int, updateInterval: int, tick: nat)
    requires scanInterval > 0 ==> updateInterval >= 1
  {
    scanInterval > 0 && tick % (scanInterval / updateInterval + 1) == 0
  }

  /** Whether each of the first `n` ticks scans, by running the countdown. */
  function Schedule(scanInterval: int, updateInterval: int, n: nat): seq<bool>
    requires scanInterval > 0 ==> updateInterval >= 1
  {
    if n == 0 then []
    else
      Schedule(scanInterval, updateInterval, n - 1)
      + [ScanCountdown(scanInterval, updateInterval, CountdownBefore(scanInterval, updateInterval, n - 1)).0]
  }

  lemma {:induction false} ScheduleAt(scanInterval: int, updateInterval: int, n: nat)
    requires scanInterval > 0 ==> updateInterval >= 1
    ensures |Schedule(scanInterval, updateInterval, n)| == n
    ensures forall t :: 0 <= t < n ==>
      (Schedule(scanInterval, updateInterval, n)[t] <==> ScanDue(scanInterval, updateInterval, t))
  {
    if n > 0 {
      ScheduleAt(scanInterval, updateInterval, n - 1);
      ScanSchedule(scanInterval, updateInterval, n - 1);
    }
  }

  /** The head of each tick of main_hid: the countdown is compared with 0 and
      decremented, and when it was 0 device_scan runs and the count is
      reset. */
  method ScanStep(productId: int, vendorId: int, list: DeviceList, host: Host,
                  scanInterval: int, updateInterval: int, count: int)
    returns (scanned: bool, newCount: int, ghost first: Option<nat>)
    requires scanInterval > 0 ==> updateInterval >= 1
    requires list.Valid()
    modifies list, host`trace
    ensures (scanned, newCount) == ScanCountdown(scanInterval, updateInterval, count)
    ensures list.Valid() && old(list.Repr) <= list.Repr && fresh(list.Repr - old(list.Repr))
    ensures !scanned ==> host.trace == old(host.trace) && list.head == old(list.head) && list.Repr == old(list.Repr)
    ensures scanned ==> ScanEffect(list, host, vendorId, productId, first)
    ensures old(list.head) != null ==> list.head == old(list.head)
  {
    scanned, newCount, first := false, count, None;
    if scanInterval > 0 {
      var was := newCount;
      newCount := newCount - 1;
      if was == 0 {
        first := DeviceScan(productId, vendorId, list, host);
        newCount := scanInterval / updateInterval;
        scanned := true;
      }
    }
  }

  /** The countdown scans on the first tick and then every `S / U + 1`
      ticks when `S > 0`, and never otherwise, without touching the count. */
  lemma {:induction false} ScanSchedule(scanInterval: int, updateInterval: int, tick: nat)
    requires scanInterval > 0 ==> updateInterval >= 1
    ensures scanInterval <= 0 ==> CountdownBefore(scanInterval, updateInterval, tick) == 0
    ensures scanInterval > 0 ==>
      var period := scanInterval / updateInterval + 1;
      CountdownBefore(scanInterval, updateInterval, tick) == if tick % period == 0 then 0 else period - tick % period
    ensures ScanCountdown(scanInterval, updateInterval, CountdownBefore(scanInterval, updateInterval, tick)).0
            <==> ScanDue(scanInterval, updateInterval, tick)
  {
    if tick > 0 {
      ScanSchedule(scanInterval, updateInterval, tick - 1);
      if scanInterval > 0 {
        ModStep(tick - 1, scanInterval / updateInterval + 1);
      }
    }
  }

  // ---------------------------------------------------------------------
  // The main loop (kpodd.c:331-384)

  /** The value main_hid returns; `code` is never assigned when no device
      path is given, so that return value is indeterminate. */
  datatype ExitCode = Code(value: int) | Indeterminate

  /** Why main_hid returned. */
  datatype Stop = InitFailed | OpenFailed | Disconnected | Interrupted

  /** Where the loop began: the trace then, the list's head then and that
      head's flag then. */
  datatype Start = Start(trace: seq<Action>, head: KPodDevice?, pending: bool)

  /** One tick of the loop as the trace records it. It runs from `begin` to
      `end`, its scan, if any, up to `scanEnd` and its poll after that;
      `polled` is the record the poll updated (null when the list was
      empty), `first` the index, among the enumerated paths, of the one
      whose open gave an empty list that record, `pending` and `flag` that
      record's flag before and after the update, and `head` the list's head
      when the tick ended. */
  datatype Tick = Tick(begin: nat, scanEnd: nat, end: nat, polled: KPodDevice?, first: Option<nat>, pending: bool,
                       flag: bool, head: KPodDevice?)

  /** The list's head when tick `t` begins. */
  function HeadBefore(st: Start, ticks: seq<Tick>, t: nat): KPodDevice?
    requires t <= |ticks|
  {
    if t == 0 then st.head else ticks[t - 1].head
  }

  /** The trace position where tick `t` begins, or where the loop stood
      after its last tick when `t == |ticks|`. */
  function BeginOf(st: Start, ticks: seq<Tick>, t: nat): nat
    requires t <= |ticks|
  {
    if t == 0 then |st.trace| else ticks[t - 1].end
  }

  /** Tick `t` lies in `trace` from where the tick before it ended (or
      from where the loop began) and holds one hid_enumerate when it
      scanned, none otherwise. */
  ghost predicate TickCount(trace: seq<Action>, scans: seq<bool>, ticks: seq<Tick>, st: Start, t: nat)
    requires t < |scans| && t < |ticks|
  {
    var k := ticks[t];
    && BeginOf(st, ticks, t) == k.begin <= k.scanEnd <= k.end <= |trace|
    && Enumerations(trace[k.begin..k.end]) == (if scans[t] then 1 else 0)
  }

  /** A tick `k` that began at the end of `before` with the list's head
      `prev`, its scan ending at `scanTrace` and its poll at `polledTrace`:
      it begins with hid_enumerate, its only one, exactly when it scanned,
      and has no scan part when it did not; it polls `prev`, or, when that
      was null and it scanned, the record linked by the scan's first
      successful hid_open_path, as FirstOpen says, or nothing when every open
      failed; the poll is as PolledHead says and ends the daemon (`exit`) as
      PolledHead says. */
  ghost predicate TickRan(host: Host, before: seq<Action>, scanTrace: seq<Action>, polledTrace: seq<Action>, scanned: bool,
                          k: Tick, prev: KPodDevice?, vendorId: int, productId: int, exitOnRemoval: bool, exit: bool)
  {
    && before <= scanTrace <= polledTrace
    && k.begin == |before| && k.scanEnd == |scanTrace| && k.end == |polledTrace|
    && (scanned <==> |before| < |polledTrace| && polledTrace[|before|] == Hid(Enumerate(vendorId, productId)))
    && Enumerations(polledTrace[|before|..]) == (if scanned then 1 else 0)
    && (!scanned ==> scanTrace == before)
    && (prev != null || !scanned ==> k.polled == prev)
    && (prev == null && scanned ==>
          && |before| < |scanTrace|
          && FirstOpen(host, scanTrace[|before| + 1..], |before| + 1, host.enumerateReply(|before|), k.first, k.polled)
          && (k.polled != null <==> k.first.Some?))
    && (k.polled == null ==> !exit && polledTrace == scanTrace && k.head == null)
    && (k.polled != null ==> PolledHead(host, k.polled, scanTrace, polledTrace, k.pending, k.flag, k.head, exitOnRemoval, exit))
  }

  /** Tick `t` of a loop that began as `st` says, in `trace`: it lies as
      TickCount says and ran as TickRan says from the head the tick before
      it left, ending the daemon when `exits` holds and it is the last tick;
      the record it polled was flagged before its update only if it was the
      loop's first head, flagged from the start, polled by the first tick. */
  ghost predicate TickAt(host: Host, trace: seq<Action>, scans: seq<bool>, ticks: seq<Tick>, vendorId: int, productId: int,
                         exitOnRemoval: bool, st: Start, exits: bool, t: nat)
    requires t < |scans| && t < |ticks|
  {
    var k := ticks[t];
    && TickCount(trace, scans, ticks, st, t)
    && TickRan(host, trace[..k.begin], trace[..k.scanEnd], trace[..k.end], scans[t], k, HeadBefore(st, ticks, t),
               vendorId, productId, exitOnRemoval, exits && t == |ticks| - 1)
    && k.pending == (t == 0 && k.polled != null && k.polled == st.head && st.pending)
  }

  /** Every recorded tick is as TickAt says; when `exits`, there is a last
      tick and it ended the daemon. */
  ghost predicate Ticks(host: Host, trace: seq<Action>, scans: seq<bool>, ticks: seq<Tick>, vendorId: int, productId: int,
                        exitOnRemoval: bool, st: Start, exits: bool)
  {
    && |ticks| == |scans|
    && (exits ==> ticks != [])
    && forall t :: 0 <= t < |scans| ==> TickAt(host, trace, scans, ticks, vendorId, productId, exitOnRemoval, st, exits, t)
  }

  /** What Ticks says of where every tick lies. */
  lemma TicksCount(host: Host, trace: seq<Action>, scans: seq<bool>, ticks: seq<Tick>, vendorId: int, productId: int,
                   exitOnRemoval: bool, st: Start, exits: bool)
    requires Ticks(host, trace, scans, ticks, vendorId, productId, exitOnRemoval, st, exits)
    ensures |ticks| == |scans| && forall t :: 0 <= t < |scans| ==> TickCount(trace, scans, ticks, st, t)
  {
    forall t | 0 <= t < |scans|
      ensures TickCount(trace, scans, ticks, st, t)
    {
      assert TickAt(host, trace, scans, ticks, vendorId, productId, exitOnRemoval, st, exits, t);
    }
  }

  /** The ticks lie in order: tick `u` ends before tick `t` begins. */
  lemma {:induction false} TicksOrdered(trace: seq<Action>, scans: seq<bool>, ticks: seq<Tick>, st: Start, u: nat, t: nat)
    requires |ticks| == |scans| && forall t :: 0 <= t < |scans| ==> TickCount(trace, scans, ticks, st, t)
    requires u < t < |scans|
    ensures ticks[u].end <= ticks[t].begin
    decreases t - u
  {
    assert TickCount(trace, scans, ticks, st, t);
    if u < t - 1 {
      TicksOrdered(trace, scans, ticks, st, u, t - 1);
      assert TickCount(trace, scans, ticks, st, t - 1);
    }
  }

  /** Where each tick lies: inside the trace after the point where the
      loop began, after every earlier tick and right after the one before
      it, beginning with hid_enumerate exactly when it scanned. */
  lemma TickPlaced(host: Host, trace: seq<Action>, scans: seq<bool>, ticks: seq<Tick>, vendorId: int, productId: int,
                   exitOnRemoval: bool, st: Start, exits: bool, t: nat)
    requires Ticks(host, trace, scans, ticks, vendorId, productId, exitOnRemoval, st, exits) && t < |scans|
    ensures |st.trace| <= ticks[t].begin <= ticks[t].end <= |trace|
    ensures forall u :: 0 <= u < t ==> ticks[u].end <= ticks[t].begin
    ensures t > 0 ==> ticks[t - 1].end == ticks[t].begin
    ensures scans[t] <==> ticks[t].begin < ticks[t].end && trace[ticks[t].begin] == Hid(Enumerate(vendorId, productId))
  {
    assert TickAt(host, trace, scans, ticks, vendorId, productId, exitOnRemoval, st, exits, t);
    TicksCount(host, trace, scans, ticks, vendorId, productId, exitOnRemoval, st, exits);
    assert TickCount(trace, scans, ticks, st, 0);
    forall u | 0 <= u < t
      ensures ticks[u].end <= ticks[t].begin
    {
      TicksOrdered(trace, scans, ticks, st, u, t);
    }
  }

  /** The number of ticks that scanned. */
  function Scans(scans: seq<bool>): nat
  {
    if scans == [] then 0 else Scans(scans[..|scans| - 1]) + (if scans[|scans| - 1] then 1 else 0)
  }

  /** The first `n` ticks hold one hid_enumerate for each of them that
      scanned and no other. */
  lemma {:induction false} EnumerationsOfTicks(trace: seq<Action>, scans: seq<bool>, ticks: seq<Tick>, st: Start, n: nat)
    requires |ticks| == |scans| && forall t :: 0 <= t < |scans| ==> TickCount(trace, scans, ticks, st, t)
    requires |st.trace| <= |trace| && n <= |scans|
    ensures |st.trace| <= BeginOf(st, ticks, n) <= |trace|
    ensures Enumerations(trace[|st.trace|..BeginOf(st, ticks, n)]) == Scans(scans[..n])
  {
    var a := |st.trace|;
    if n == 0 {
      assert trace[a..a] == [];
    } else {
      EnumerationsOfTicks(trace, scans, ticks, st, n - 1);
      assert TickCount(trace, scans, ticks, st, n - 1);
      var b, c := BeginOf(st, ticks, n - 1), BeginOf(st, ticks, n);
      assert trace[a..c] == trace[a..b] + trace[b..c];
      EnumerationsAppend(trace[a..b], trace[b..c]);
      assert scans[..n][..n - 1] == scans[..n - 1];
    }
  }

  /** A trace that extends the one the loop began with by its ticks, and
      after them by calls none of which is hid_enumerate, holds one more
      hid_enumerate for each tick that scanned. */
  lemma CountTicks(host: Host, trace: seq<Action>, scans: seq<bool>, ticks: seq<Tick>, vendorId: int, productId: int,
                   exitOnRemoval: bool, st: Start, exits: bool)
    requires Ticks(host, trace, scans, ticks, vendorId, productId, exitOnRemoval, st, exits)
    requires st.trace <= trace && BeginOf(st, ticks, |ticks|) <= |trace|
    requires Enumerations(trace[BeginOf(st, ticks, |ticks|)..]) == 0
    ensures Enumerations(trace) == Enumerations(st.trace) + Scans(scans)
  {
    TicksCount(host, trace, scans, ticks, vendorId, productId, exitOnRemoval, st, exits);
    EnumerationsOfTicks(trace, scans, ticks, st, |scans|);
    assert scans[..|scans|] == scans;
    EnumerationsAround(st.trace, trace, BeginOf(st, ticks, |ticks|), Scans(scans));
  }

  /** No tick scanned: no tick counts. */
  lemma {:induction false} ScansNone(scans: seq<bool>)
    requires forall t :: 0 <= t < |scans| ==> !scans[t]
    ensures Scans(scans) == 0
  {
    if scans != [] {
      ScansNone(scans[..|scans| - 1]);
    }
  }

  /** A recorded tick stays as it was when the trace grows and more ticks
      are recorded after it. */
  lemma TickGrow(host: Host, trace: seq<Action>, trace': seq<Action>, scans: seq<bool>, ticks: seq<Tick>,
                 scans': seq<bool>, ticks': seq<Tick>, vendorId: int, productId: int, exitOnRemoval: bool, st: Start,
                 exits: bool, exits': bool, t: nat)
    requires t < |scans| && t < |ticks|
    requires TickAt(host, trace, scans, ticks, vendorId, productId, exitOnRemoval, st, exits, t)
    requires trace <= trace' && scans <= scans' && ticks <= ticks'
    requires (exits && t == |ticks| - 1) == (exits' && t == |ticks'| - 1)
    ensures TickAt(host, trace', scans', ticks', vendorId, productId, exitOnRemoval, st, exits', t)
  {
    var k := ticks[t];
    assert trace'[..|trace|] == trace;
    assert trace'[k.begin..k.end] == trace[k.begin..k.end] by {
      assert trace'[..|trace|][k.begin..k.end] == trace'[k.begin..k.end];
    }
    assert trace'[..k.begin] == trace[..k.begin];
    assert trace'[..k.scanEnd] == trace[..k.scanEnd];
    assert trace'[..k.end] == trace[..k.end];
  }

  /** Later calls leave the ticks already recorded as they were. */
  lemma TicksGrow(host: Host, trace: seq<Action>, trace': seq<Action>, scans: seq<bool>, ticks: seq<Tick>,
                  vendorId: int, productId: int, exitOnRemoval: bool, st: Start, exits: bool)
    requires Ticks(host, trace, scans, ticks, vendorId, productId, exitOnRemoval, st, exits) && trace <= trace'
    ensures Ticks(host, trace', scans, ticks, vendorId, productId, exitOnRemoval, st, exits)
  {
    forall t | 0 <= t < |scans|
      ensures TickAt(host, trace', scans, ticks, vendorId, productId, exitOnRemoval, st, exits, t)
    {
      TickGrow(host, trace, trace', scans, ticks, scans, ticks, vendorId, productId, exitOnRemoval, st, exits, exits, t);
    }
  }

  /** The ticks recorded so far stay as TickAt says when the trace grows
      and one more tick is recorded after them. */
  lemma TicksBefore(host: Host, trace: seq<Action>, trace': seq<Action>, scans: seq<bool>, ticks: seq<Tick>,
                    scans': seq<bool>, ticks': seq<Tick>, vendorId: int, productId: int, exitOnRemoval: bool, st: Start,
                    exit: bool)
    requires Ticks(host, trace, scans, ticks, vendorId, productId, exitOnRemoval, st, false)
    requires trace <= trace' && scans <= scans' && ticks <= ticks' && |ticks'| == |ticks| + 1
    ensures forall t :: 0 <= t < |scans| ==> TickAt(host, trace', scans', ticks', vendorId, productId, exitOnRemoval, st, exit, t)
  {
    forall t | 0 <= t < |scans|
      ensures TickAt(host, trace', scans', ticks', vendorId, productId, exitOnRemoval, st, exit, t)
    {
      TickGrow(host, trace, trace', scans, ticks, scans', ticks', vendorId, productId, exitOnRemoval, st, false, exit, t);
    }
  }

  /** The last recorded tick, run as TickRan says from where the tick
      before it ended, is as TickAt says. */
  lemma TickLast(host: Host, before: seq<Action>, scanTrace: seq<Action>, polledTrace: seq<Action>, trace': seq<Action>,
                 scans': seq<bool>, ticks': seq<Tick>, vendorId: int, productId: int, exitOnRemoval: bool, st: Start,
                 exit: bool)
    requires |ticks'| == |scans'| > 0 && polledTrace <= trace'
    requires BeginOf(st, ticks', |ticks'| - 1) == |before|
    requires TickRan(host, before, scanTrace, polledTrace, scans'[|scans'| - 1], ticks'[|ticks'| - 1],
                     HeadBefore(st, ticks', |ticks'| - 1), vendorId, productId, exitOnRemoval, exit)
    requires ticks'[|ticks'| - 1].pending
             == (|ticks'| == 1 && ticks'[0].polled != null && ticks'[0].polled == st.head && st.pending)
    ensures TickAt(host, trace', scans', ticks', vendorId, productId, exitOnRemoval, st, exit, |scans'| - 1)
  {
    var k := ticks'[|ticks'| - 1];
    assert trace'[..|polledTrace|] == polledTrace;
    assert trace'[..|scanTrace|] == scanTrace;
    assert trace'[..|before|] == before;
    assert trace'[k.begin..k.end] == polledTrace[|before|..];
  }

  /** One more tick `k`, from the end of the ticks so far, run as TickRan
      says, whose polled record was flagged before its update only if it is
      the loop's first head, flagged from the start, polled by the first
      tick. */
  lemma TicksExtend(host: Host, before: seq<Action>, scanTrace: seq<Action>, polledTrace: seq<Action>, trace': seq<Action>,
                    scans: seq<bool>, ticks: seq<Tick>, scanned: bool, k: Tick, vendorId: int, productId: int,
                    exitOnRemoval: bool, st: Start, exit: bool)
    requires Ticks(host, before, scans, ticks, vendorId, productId, exitOnRemoval, st, false)
    requires BeginOf(st, ticks, |ticks|) == |before| && polledTrace <= trace'
    requires TickRan(host, before, scanTrace, polledTrace, scanned, k, HeadBefore(st, ticks, |ticks|), vendorId, productId,
                     exitOnRemoval, exit)
    requires k.pending == (|ticks| == 0 && k.polled != null && k.polled == st.head && st.pending)
    ensures Ticks(host, trace', scans + [scanned], ticks + [k], vendorId, productId, exitOnRemoval, st, exit)
  {
    var scans', ticks' := scans + [scanned], ticks + [k];
    assert before <= trace' by {
      assert TickRan(host, before, scanTrace, polledTrace, scanned, k, HeadBefore(st, ticks, |ticks|), vendorId, productId,
                     exitOnRemoval, exit);
    }
    TicksBefore(host, before, trace', scans, ticks, scans', ticks', vendorId, productId, exitOnRemoval, st, exit);
    assert HeadBefore(st, ticks', |ticks|) == HeadBefore(st, ticks, |ticks|);
    assert BeginOf(st, ticks', |ticks|) == BeginOf(st, ticks, |ticks|);
    TickLast(host, before, scanTrace, polledTrace, trace', scans', ticks', vendorId, productId, exitOnRemoval, st, exit);
  }

  /** The poll of one tick and, when it ends the daemon, the hid_exit that
      follows: `polledTrace` is the trace after the poll, which updates the
      head, if there is one, as PolledHead says, and calls no hid_enumerate;
      in explicit-path mode an update that fails removes the head, and then
      `onDeviceRemoved`, hid_close and hid_exit are the last calls. */
  method PollAndExit(list: DeviceList, host: Host, exitOnRemoval: bool)
    returns (exit: bool, ghost removed: KPodDevice?, ghost polledTrace: seq<Action>)
    requires list.Valid()
    modifies list, list.Repr, host`trace
    ensures list.Valid() && list.Repr == old(list.Repr)
    ensures old(host.trace) <= polledTrace && host.trace == polledTrace + (if exit then [Hid(Exit)] else [])
    ensures old(list.head) == null ==> !exit && polledTrace == old(host.trace) && list.head == null
    ensures old(list.head) != null ==>
      PolledHead(host, old(list.head), old(host.trace), polledTrace, old(list.head.removePending), old(list.head).removePending,
                 list.head, exitOnRemoval, exit)
    ensures Enumerations(polledTrace[|old(host.trace)|..]) == 0
    ensures exit ==>
      && exitOnRemoval && removed == old(list.head) && removed != null && removed in list.Repr && |host.trace| >= 3
      && host.trace[|host.trace| - 3..] == [Dispatch(GlobalListener(OnDeviceRemoved, removed)), Hid(Close(removed.handle)), Hid(Exit)]
    ensures exitOnRemoval && old(list.head) != null && !exit ==> list.head == old(list.head)
    ensures exitOnRemoval && old(list.head) != null && (forall n: nat :: UpdateFails(host, n)) ==> exit
  {
    removed := list.head;
    ghost var pending := removed != null && removed.removePending;
    exit := PollDevices(list, host, exitOnRemoval);
    polledTrace := host.trace;
    if exit {
      host.HidExit();
    }
    if removed != null {
      PollTail(host, old(host.trace), polledTrace, removed, pending, pending || UpdateFails(host, |old(host.trace)|), exit);
    } else {
      assert polledTrace[|old(host.trace)|..] == [];
    }
  }

  /** One tick of main_hid's loop: the countdown and the scan it may start,
      then the poll, as TickRan says of the tick `k` it returns, whose scan
      ends at `scanTrace` and poll at `polledTrace`; `k.polled` is the head
      after the scan, flagged before its update only when it is the head the
      tick began with and that was flagged, and `k.flag` its flag after the
      update. With an explicit device path the first removal ends the daemon
      (`exit`) with hid_exit. */
  method RunTick(productId: int, vendorId: int, list: DeviceList, host: Host, exitOnRemoval: bool,
                 updateInterval: int, deviceScanInterval: int, count: int,
                 ghost tick: nat)
    returns (exit: bool, scanned: bool, newCount: int, ghost removed: KPodDevice?, ghost k: Tick,
             ghost scanTrace: seq<Action>, ghost polledTrace: seq<Action>)
    requires deviceScanInterval > 0 ==> updateInterval >= 1
    requires list.Valid()
    requires count == CountdownBefore(deviceScanInterval, updateInterval, tick)
    modifies list, list.Repr, host`trace
    ensures (scanned, newCount) == ScanCountdown(deviceScanInterval, updateInterval, count)
    ensures newCount == CountdownBefore(deviceScanInterval, updateInterval, tick + 1)
    ensures list.Valid() && fresh(list.Repr - old(list.Repr))
    ensures host.trace == polledTrace + (if exit then [Hid(Exit)] else [])
    ensures TickRan(host, old(host.trace), scanTrace, polledTrace, scanned, k, old(list.head), vendorId, productId,
                    exitOnRemoval, exit)
    ensures k.pending == (old(list.head) != null && k.polled == old(list.head) && old(list.head.removePending))
    ensures k.head == list.head && (k.polled != null ==> k.flag == k.polled.removePending)
    ensures exit ==>
      && exitOnRemoval && removed != null && removed in list.Repr && |host.trace| >= 3
      && host.trace[|host.trace| - 3..] == [Dispatch(GlobalListener(OnDeviceRemoved, removed)), Hid(Close(removed.handle)), Hid(Exit)]
    ensures exitOnRemoval && old(list.head) != null && !exit ==> list.head == old(list.head)
    ensures exitOnRemoval && old(list.head) != null && (forall n: nat :: UpdateFails(host, n)) ==> exit
  {
    ghost var first;
    scanned, newCount, first := ScanStep(productId, vendorId, list, host, deviceScanInterval, updateInterval, count);
    scanTrace := host.trace;
    ghost var polled := list.head;
    ghost var pending := polled != null && polled.removePending;
    exit, removed, polledTrace := PollAndExit(list, host, exitOnRemoval);
    TickEnumerations(old(host.trace), scanTrace, polledTrace, scanned, vendorId, productId);
    k := Tick(|old(host.trace)|, |scanTrace|, |polledTrace|, polled, first, polled == old(list.head) && pending,
              polled != null && polled.removePending, list.head);
  }

  /** A tick that scans holds the hid_enumerate that begins it and no other
      when neither the rest of the scan nor the poll enumerates; one that
      does not scan holds none. */
  lemma TickEnumerations(before: seq<Action>, scanTrace: seq<Action>, after: seq<Action>, scanned: bool,
                         vendorId: int, productId: int)
    requires scanTrace <= after
    requires scanned ==> before + [Hid(Enumerate(vendorId, productId))] <= scanTrace
                         && Enumerations(scanTrace[|before| + 1..]) == 0
    requires !scanned ==> scanTrace == before
    requires Enumerations(after[|scanTrace|..]) == 0
    ensures before <= after
    ensures scanned <==> |before| < |after| && after[|before|] == Hid(Enumerate(vendorId, productId))
    ensures Enumerations(after[|before|..]) == if scanned then 1 else 0
  {
    var b := |before|;
    EnumerationsSplit(after, b, |scanTrace|);
    assert after[..|scanTrace|] == scanTrace;
    assert after[b..|scanTrace|] == scanTrace[b..];
    if scanned {
      EnumerationsSplit(scanTrace, b, b + 1);
      assert scanTrace[b..b + 1] == [Hid(Enumerate(vendorId, productId))];
      assert scanTrace[b..b + 1][..0] == [];
    } else if b < |after| {
      EnumerationsFirst(after[b..]);
    }
  }

  /** main_hid's shutdown after the ticks of a loop that began as `st`
      says: from where the last tick ended (or from where the loop began,
      with no tick), the trace `final` is close_kpods on the record
      reachable from the head then, then hid_exit. */
  ghost predicate ShutDown(final: seq<Action>, st: Start, ticks: seq<Tick>)
  {
    var at, h := BeginOf(st, ticks, |ticks|), HeadBefore(st, ticks, |ticks|);
    && at <= |final|
    && final[at..] == RemovalActions(if h == null then [] else [h]) + [Hid(Exit)]
  }

  /** What holds between two ticks of main_hid's loop, after `tick` ticks
      of a loop that began as `st` says: the ticks are as Ticks says and end
      where the trace ends, the list's head is the one the last tick left,
      and a head that has been polled has its flag clear. */
  ghost predicate Between(host: Host, list: DeviceList, exitOnRemoval: bool, st: Start, tick: nat, scans: seq<bool>,
                          ticks: seq<Tick>, vendorId: int, productId: int)
    reads host, list, list.Repr
  {
    && list.Valid()
    && |scans| == tick
    && Ticks(host, host.trace, scans, ticks, vendorId, productId, exitOnRemoval, st, false)
    && st.trace <= host.trace
    && BeginOf(st, ticks, tick) == |host.trace|
    && list.head == HeadBefore(st, ticks, tick)
    && (tick == 0 ==> st.pending == (st.head != null && st.head.removePending))
    && (tick > 0 && list.head != null ==> !list.head.removePending)
  }

  /** main_hid's loop ended by a removal in explicit-path mode: every tick
      is as Ticks says, the last one having ended the daemon, hid_exit
      follows it at once, and `removed`'s onDeviceRemoved, hid_close and that
      hid_exit are the last calls; the loop called hid_enumerate once for
      each tick that scanned and at no other time. */
  ghost predicate Exited(host: Host, st: Start, scans: seq<bool>, ticks: seq<Tick>, removed: KPodDevice?,
                         vendorId: int, productId: int, exitOnRemoval: bool)
    reads host
  {
    && exitOnRemoval && st.trace <= host.trace
    && Ticks(host, host.trace, scans, ticks, vendorId, productId, exitOnRemoval, st, true)
    && BeginOf(st, ticks, |ticks|) <= |host.trace|
    && host.trace[BeginOf(st, ticks, |ticks|)..] == [Hid(Exit)]
    && removed != null && |host.trace| >= 3
    && host.trace[|host.trace| - 3..] == [Dispatch(GlobalListener(OnDeviceRemoved, removed)), Hid(Close(removed.handle)), Hid(Exit)]
    && Enumerations(host.trace) == Enumerations(st.trace) + Scans(scans)
  }

  /** A loop whose last tick ended the daemon, with hid_exit right after
      it, has called hid_enumerate once for each tick that scanned. */
  lemma ExitAfterTicks(host: Host, st: Start, scans: seq<bool>, ticks: seq<Tick>, removed: KPodDevice?,
                       vendorId: int, productId: int, exitOnRemoval: bool)
    requires exitOnRemoval && st.trace <= host.trace
    requires Ticks(host, host.trace, scans, ticks, vendorId, productId, exitOnRemoval, st, true)
    requires BeginOf(st, ticks, |ticks|) <= |host.trace| && host.trace[BeginOf(st, ticks, |ticks|)..] == [Hid(Exit)]
    requires removed != null && |host.trace| >= 3
    requires host.trace[|host.trace| - 3..] == [Dispatch(GlobalListener(OnDeviceRemoved, removed)), Hid(Close(removed.handle)), Hid(Exit)]
    ensures Exited(host, st, scans, ticks, removed, vendorId, productId, exitOnRemoval)
  {
    assert [Hid(Exit)][..0] == [];
    CountTicks(host, host.trace, scans, ticks, vendorId, productId, exitOnRemoval, st, true);
  }

  /** One pass of main_hid's loop: RunTick, recorded as tick `tick`. Unless
      it ends the daemon, what holds between ticks holds again; when it
      does, the recorded tick ended it and hid_exit follows it. */
  method LoopTick(productId: int, vendorId: int, list: DeviceList, host: Host, exitOnRemoval: bool,
                  updateInterval: int, deviceScanInterval: int, count: int,
                  ghost st: Start, ghost tick: nat, ghost scans: seq<bool>, ghost ticks: seq<Tick>)
    returns (exit: bool, newCount: int, ghost removed: KPodDevice?, ghost scans': seq<bool>, ghost ticks': seq<Tick>)
    requires deviceScanInterval > 0 ==> updateInterval >= 1
    requires count == CountdownBefore(deviceScanInterval, updateInterval, tick)
    requires Between(host, list, exitOnRemoval, st, tick, scans, ticks, vendorId, productId)
    modifies list, list.Repr, host`trace
    ensures newCount == CountdownBefore(deviceScanInterval, updateInterval, tick + 1)
    ensures scans' == scans + [ScanCountdown(deviceScanInterval, updateInterval, count).0]
    ensures fresh(list.Repr - old(list.Repr))
    ensures !exit ==> Between(host, list, exitOnRemoval, st, tick + 1, scans', ticks', vendorId, productId)
    ensures exit ==>
      && list.Valid() && removed in list.Repr
      && Exited(host, st, scans', ticks', removed, vendorId, productId, exitOnRemoval)
    ensures exitOnRemoval && old(list.head) != null && !exit ==> list.head == old(list.head)
    ensures exitOnRemoval && old(list.head) != null && (forall n: nat :: UpdateFails(host, n)) ==> exit
  {
    ghost var before := host.trace;
    var scanned;
    ghost var k, scanTrace, polledTrace;
    exit, scanned, newCount, removed, k, scanTrace, polledTrace :=
      RunTick(productId, vendorId, list, host, exitOnRemoval, updateInterval, deviceScanInterval, count, tick);
    TicksExtend(host, before, scanTrace, polledTrace, host.trace, scans, ticks, scanned, k, vendorId, productId,
                exitOnRemoval, st, exit);
    scans', ticks' := scans + [scanned], ticks + [k];
    if exit {
      ExitAfterTicks(host, st, scans', ticks', removed, vendorId, productId, exitOnRemoval);
    }
  }

  /** The `while (!sigint)` loop of main_hid, run until `sigint` is seen set
      before tick `sigintTick` or, with `exitOnRemoval`, until the first
      removal (`exit`), which calls hid_exit right after the tick that made
      it. The loop begins as `st` says; `scans[t]` says whether tick t
      scanned and `ticks[t]` what it did. Without `exit`, what holds between
      ticks holds after the last one. */
  method LoopTicks(productId: int, vendorId: int, list: DeviceList, host: Host, exitOnRemoval: bool,
                   updateInterval: int, deviceScanInterval: int, sigintTick: nat, ghost st: Start)
    returns (exit: bool, ghost scans: seq<bool>, ghost ticks: seq<Tick>, ghost removed: KPodDevice?)
    requires deviceScanInterval > 0 ==> updateInterval >= 1
    requires list.Valid() && st == Start(host.trace, list.head, list.head != null && list.head.removePending)
    modifies list, list.Repr, host`trace
    ensures fresh(list.Repr - old(list.Repr))
    ensures scans == Schedule(deviceScanInterval, updateInterval, |scans|)
    ensures !exit ==> |scans| == sigintTick && Between(host, list, exitOnRemoval, st, |scans|, scans, ticks, vendorId, productId)
    ensures exit ==>
      && 0 < |scans| <= sigintTick && list.Valid() && removed in list.Repr
      && Exited(host, st, scans, ticks, removed, vendorId, productId, exitOnRemoval)
    ensures exitOnRemoval && st.head != null && sigintTick > 0 && (forall n: nat :: UpdateFails(host, n)) ==>
      exit && |scans| == 1
  {
    scans, ticks, removed := [], [], null;
    exit := false;
    var deviceScanCount := 0;
    var tick := 0;
    while tick < sigintTick
      invariant 0 <= tick <= sigintTick
      invariant scans == Schedule(deviceScanInterval, updateInterval, tick)
      invariant deviceScanCount == CountdownBefore(deviceScanInterval, updateInterval, tick)
      invariant fresh(list.Repr - old(list.Repr))
      invariant Between(host, list, exitOnRemoval, st, tick, scans, ticks, vendorId, productId)
      invariant exitOnRemoval && st.head != null ==> list.head == st.head
      invariant exitOnRemoval && st.head != null && (forall n: nat :: UpdateFails(host, n)) ==> tick == 0
      decreases sigintTick - tick
    {
      exit, deviceScanCount, removed, scans, ticks :=
        LoopTick(productId, vendorId, list, host, exitOnRemoval, updateInterval, deviceScanInterval, deviceScanCount,
                 st, tick, scans, ticks);
      if exit {
        return;
      }
      tick := tick + 1;
    }
  }

  /** The end of main_hid once `sigint` is seen: close_kpods, then hid_exit,
      as ShutDown says; the ticks recorded so far stay as they were, and no
      hid_enumerate is added. */
  method Drain(productId: int, vendorId: int, list: DeviceList, host: Host, exitOnRemoval: bool,
               ghost st: Start, ghost scans: seq<bool>, ghost ticks: seq<Tick>)
    requires Between(host, list, exitOnRemoval, st, |scans|, scans, ticks, vendorId, productId)
    modifies list, list.Repr, host`trace
    ensures list.Valid() && list.Repr == old(list.Repr) && list.head == null
    ensures ShutDown(host.trace, st, ticks) && st.trace <= host.trace
    ensures Ticks(host, host.trace, scans, ticks, vendorId, productId, exitOnRemoval, st, false)
    ensures Enumerations(host.trace) == Enumerations(st.trace) + Scans(scans)
  {
    CloseAndExit(list, host);
    TicksGrow(host, old(host.trace), host.trace, scans, ticks, vendorId, productId, exitOnRemoval, st, false);
    CountTicks(host, host.trace, scans, ticks, vendorId, productId, exitOnRemoval, st, false);
  }

  /** The event loop of main_hid (kpodd.c:351-383), begun as `st` says and
      run until `sigint` is seen set before tick `sigintTick`, after which
      every device is closed and hid_exit called, as ShutDown says, or, with
      `exitOnRemoval`, until the first removal (`exit`), which calls
      hid_exit right after the tick that made it. `scans[t]` says whether
      tick t scanned, which is when ScanDue says, and `ticks[t]` what it did,
      as Ticks says; the loop calls hid_enumerate once for each tick that
      scanned and at no other time. */
  method EventLoop(productId: int, vendorId: int, list: DeviceList, host: Host, exitOnRemoval: bool,
                   updateInterval: int, deviceScanInterval: int, sigintTick: nat, ghost st: Start)
    returns (exit: bool, ghost scans: seq<bool>, ghost ticks: seq<Tick>, ghost removed: KPodDevice?)
    requires deviceScanInterval > 0 ==> updateInterval >= 1
    requires list.Valid() && st == Start(host.trace, list.head, list.head != null && list.head.removePending)
    modifies list, list.Repr, host`trace
    ensures list.Valid() && fresh(list.Repr - old(list.Repr))
    ensures old(host.trace) <= host.trace
    ensures Ticks(host, host.trace, scans, ticks, vendorId, productId, exitOnRemoval, st, exit)
    ensures forall t :: 0 <= t < |scans| ==> (scans[t] <==> ScanDue(deviceScanInterval, updateInterval, t))
    ensures exit ==>
      && exitOnRemoval && 0 < |scans| <= sigintTick
      && BeginOf(st, ticks, |ticks|) <= |host.trace| && host.trace[BeginOf(st, ticks, |ticks|)..] == [Hid(Exit)]
      && removed != null && removed in list.Repr && |host.trace| >= 3
      && host.trace[|host.trace| - 3..] == [Dispatch(GlobalListener(OnDeviceRemoved, removed)), Hid(Close(removed.handle)), Hid(Exit)]
    ensures !exit ==> |scans| == sigintTick && list.head == null && ShutDown(host.trace, st, ticks)
    ensures Enumerations(host.trace) == Enumerations(old(host.trace)) + Scans(scans)
    ensures deviceScanInterval <= 0 ==> Scans(scans) == 0
    ensures exitOnRemoval && st.head != null && sigintTick > 0 && (forall n: nat :: UpdateFails(host, n)) ==>
      exit && |scans| == 1
  {
    exit, scans, ticks, removed :=
      LoopTicks(productId, vendorId, list, host, exitOnRemoval, updateInterval, deviceScanInterval, sigintTick, st);
    if !exit {
      Drain(productId, vendorId, list, host, exitOnRemoval, st, scans, ticks);
    }
    ScheduleDue(deviceScanInterval, updateInterval, scans);
  }

  /** The countdown's schedule scans exactly on the ticks where ScanDue
      holds, so never when scanning is disabled. */
  lemma ScheduleDue(scanInterval: int, updateInterval: int, scans: seq<bool>)
    requires scanInterval > 0 ==> updateInterval >= 1
    requires scans == Schedule(scanInterval, updateInterval, |scans|)
    ensures forall t :: 0 <= t < |scans| ==> (scans[t] <==> ScanDue(scanInterval, updateInterval, t))
    ensures scanInterval <= 0 ==> Scans(scans) == 0
  {
    ScheduleAt(scanInterval, updateInterval, |scans|);
    if scanInterval <= 0 {
      ScansNone(scans);
    }
  }

  /** The enumerations of a trace that extends `start` by `k` of them up
      to position `to` and by none after it. */
  lemma EnumerationsAround(start: seq<Action>, trace: seq<Action>, to: nat, k: nat)
    requires start <= trace && |start| <= to <= |trace|
    requires Enumerations(trace[|start|..to]) == k && Enumerations(trace[to..]) == 0
    ensures Enumerations(trace) == Enumerations(start) + k
  {
    EnumerationsSplit(trace, 0, |start|);
    EnumerationsSplit(trace, |start|, to);
    assert trace[..|start|] == start;
    assert trace[0..] == trace;
  }

  /** main_hid reached its loop: `start` is the trace then, after hid_init
      and, with an explicit device path, the open_kpod of it, which gave the
      list its head `head`. */
  ghost predicate Started(host: Host, before: seq<Action>, devicePath: Option<string>, start: seq<Action>, head: KPodDevice?)
  {
    && (head != null <==> devicePath.Some?)
    && start == before + [Hid(Init)]
                + (if head != null
                   then [Hid(OpenPath(devicePath.value)), Hid(SetNonblocking(|before| + 1, 0)), Dispatch(GlobalListener(OnDeviceAdded, head))]
                   else [])
    && (head != null ==> head.path == devicePath.value && head.handle == |before| + 1)
  }

  /** The start of main_hid: hid_init, which ends it when it fails, then,
      with an explicit device path, open_kpod of it, whose code `c` ends it
      when it is not 0. */
  method StartHid(devicePath: Option<string>, list: DeviceList, host: Host) returns (failed: bool, c: int, ghost added: KPodDevice?)
    requires list.Valid() && list.head == null
    modifies list, host`trace
    ensures list.Valid() && fresh(list.Repr - old(list.Repr))
    ensures failed == !host.initOk
    ensures c == if host.initOk && devicePath.Some? && !host.openReply(|old(host.trace)| + 1) then 3 else 0
    ensures failed ==> host.trace == old(host.trace) + [Hid(Init)]
    ensures !failed && c != 0 ==> host.trace == old(host.trace) + [Hid(Init), Hid(OpenPath(devicePath.value))]
    ensures !failed && c == 0 ==>
      && Started(host, old(host.trace), devicePath, host.trace, added) && list.head == added
      && (added != null ==> fresh(added) && !added.removePending)
    ensures Enumerations(host.trace) == Enumerations(old(host.trace))
  {
    failed := host.HidInit();
    c, added := 0, null;
    if !failed && devicePath.Some? {
      c, added := OpenKPod(list, host, devicePath.value);
    }
    EnumerationsAppend(old(host.trace), host.trace[|old(host.trace)|..]);
    assert old(host.trace) + host.trace[|old(host.trace)|..] == host.trace;
    NoEnumerations(host.trace[|old(host.trace)|..]);
  }

  /** main_hid. `sigint` is read once per tick and is first seen set before
      tick `sigintTick`. The loop begins as `st` says; `scans[t]` says
      whether tick t scanned and `ticks[t]` what it did. main_hid calls
      hid_enumerate once for each tick that scanned and at no other time.
      The scan countdown divides by `updateInterval` when scanning is
      enabled. */
  method MainHid(productId: int, vendorId: int, devicePath: Option<string>,
                 updateInterval: int, deviceScanInterval: int, host: Host, sigintTick: nat)
    returns (code: ExitCode, ghost openKPods: DeviceList, ghost stop: Stop, ghost scans: seq<bool>, ghost ticks: seq<Tick>,
             ghost removed: KPodDevice?, ghost st: Start)
    requires deviceScanInterval > 0 ==> updateInterval >= 1
    modifies host`trace
    ensures (stop == InitFailed) == !host.initOk
    ensures (stop == OpenFailed) == (host.initOk && devicePath.Some? && !host.openReply(|old(host.trace)| + 1))
    ensures stop == InitFailed ==> code == Code(3) && host.trace == old(host.trace) + [Hid(Init)] && scans == []
    ensures stop == OpenFailed ==>
      && devicePath.Some? && code == Code(3) && scans == []
      && host.trace == old(host.trace) + [Hid(Init), Hid(OpenPath(devicePath.value))]
    ensures stop == Disconnected || stop == Interrupted ==>
      && Started(host, old(host.trace), devicePath, st.trace, st.head) && !st.pending
      && Ticks(host, host.trace, scans, ticks, vendorId, productId, devicePath.Some?, st, stop == Disconnected)
    ensures stop == Disconnected ==>
      && devicePath.Some? && code == Code(0) && 0 < |scans| <= sigintTick
      && BeginOf(st, ticks, |ticks|) <= |host.trace| && host.trace[BeginOf(st, ticks, |ticks|)..] == [Hid(Exit)]
      && removed != null && removed in openKPods.Repr && |host.trace| >= 3
      && host.trace[|host.trace| - 3..] == [Dispatch(GlobalListener(OnDeviceRemoved, removed)), Hid(Close(removed.handle)), Hid(Exit)]
    ensures stop == Interrupted ==>
      && code == (if devicePath.Some? then Code(0) else Indeterminate)
      && |scans| == sigintTick && openKPods.head == null
      && ShutDown(host.trace, st, ticks)
    ensures forall t :: 0 <= t < |scans| ==> (scans[t] <==> ScanDue(deviceScanInterval, updateInterval, t))
    ensures Enumerations(host.trace) == Enumerations(old(host.trace)) + Scans(scans)
    ensures deviceScanInterval <= 0 ==> Enumerations(host.trace) == Enumerations(old(host.trace))
    ensures (devicePath.Some? && host.initOk && host.openReply(|old(host.trace)| + 1) && sigintTick > 0
             && (forall n: nat :: UpdateFails(host, n))) ==> stop == Disconnected && |scans| == 1
  {
    var kpods := new DeviceList();
    openKPods := kpods;
    scans, ticks, removed, st := [], [], null, Start([], null, false);
    code := Indeterminate;

    var failed, c;
    ghost var startHead;
    failed, c, startHead := StartHid(devicePath, kpods, host);
    st := Start(host.trace, startHead, false);
    if failed {
      code, stop := Code(3), InitFailed;
    } else {
      if devicePath.Some? {
        code := Code(c);
      }
      if c != 0 {
        stop := OpenFailed;
      } else {
        var exit;
        exit, scans, ticks, removed := EventLoop(productId, vendorId, kpods, host, devicePath.Some?,
                                                 updateInterval, deviceScanInterval, sigintTick, st);
        stop := if exit then Disconnected else Interrupted;
        if exit {
          code := Code(0);
        }
      }
    }
  }

  /** The end of main_hid once `sigint` is seen: close_kpods, then
      hid_exit, neither of which enumerates. */
  method CloseAndExit(list: DeviceList, host: Host)
    requires list.Valid()
    modifies list, list.Repr, host`trace
    ensures list.Valid() && list.Repr == old(list.Repr) && list.Forward() == [] && list.head == null
    ensures host.trace == old(host.trace) + RemovalActions(old(list.Forward())) + [Hid(Exit)]
    ensures host.trace[|old(host.trace)|..] == RemovalActions(if old(list.head) == null then [] else [old(list.head)]) + [Hid(Exit)]
    ensures Enumerations(host.trace[|old(host.trace)|..]) == 0
  {
    ghost var h := list.head;
    var _ := CloseKPods(list, host);
    host.HidExit();
    if h != null {
      assert RemovalActions([h]) == [Dispatch(GlobalListener(OnDeviceRemoved, h)), Hid(Close(h.handle))] + RemovalActions([]);
    }
    NoEnumerations(host.trace[|old(host.trace)|..]);
  }

  // ---------------------------------------------------------------------
  // The configuration path (kpodd.c:467-475)

  /** `snprintf(buf, size, "%s/%s", a, b)`: the formatted text, cut to
      `size - 1` characters. */
  function FormatPath(size: int, a: string, b: string): string
    requires size >= 1
  {
    var s := a + "/" + b;
    if |s| <= size - 1 then s else s[..size - 1]
  }

  /** The `~/` expansion of the configuration path with `$HOME`. The buffer
      of `strlen(configPath) + strlen(home)` bytes holds the expansion with
      its terminating NUL exactly, so nothing is cut. */
  function ExpandConfigPath(configPath: string, home: string): (r: string)
    ensures |configPath| >= 2 && configPath[0] == '~' && configPath[1] == '/' ==> r == home + "/" + configPath[2..]
    ensures !(|configPath| >= 2 && configPath[0] == '~' && configPath[1] == '/') ==> r == configPath
  {
    if |configPath| >= 2 && configPath[0] == '~' && configPath[1] == '/' then
      var len := |configPath| + |home|;
      FormatPath(len, home, configPath[2..])
    else
      configPath
  }
}
