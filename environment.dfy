/** What the daemon talks to: the hidapi transport and the V7 interpreter
    that runs the handlers. Both are stand-ins: every hidapi result is read
    from a fixed oracle indexed by the position of the call in one shared
    trace, and every handler invocation is appended to that trace. */
module Environment {
  import opened Wire
  import opened Wrappers
  import opened Registry

  /** The hidapi calls the daemon makes. */
  datatype HidCall =
    | Init
    | Enumerate(vendorId: int, productId: int)
    | OpenPath(path: string)
    | SetNonblocking(handle: nat, nonblock: int)
    | Write(handle: nat, frame: Frame)
    | ReadTimeout(handle: nat, length: nat, milliseconds: nat)
    | Close(handle: nat)
    | Exit

  /** The names of the handlers the daemon invokes. */
  const OnDeviceAdded := "onDeviceAdded"
  const OnDeviceRemoved := "onDeviceRemoved"
  const OnUpdateReport := "onUpdateReport"

  /** A handler invocation. Added and removed go to global functions with
      the device object as argument (kpodd.c:161-175); the update report goes
      to the device object's own method, with the device as `this` and the
      report array as argument (kpodd.c:289-299). */
  datatype Event =
    | GlobalListener(name: string, device: KPodDevice)
    | DeviceListener(device: KPodDevice, name: string, report: seq<int>)

  datatype Action = Hid(call: HidCall) | Dispatch(event: Event)

  /** The handler invocations of a trace, in order. */
  function Dispatched(trace: seq<Action>): seq<Event>
  {
    if trace == [] then []
    else Dispatched(trace[..|trace| - 1])
         + (if trace[|trace| - 1].Dispatch? then [trace[|trace| - 1].event] else [])
  }

  /** The handler log of a concatenation is the concatenation of the logs. */
  lemma {:induction false} DispatchedAppend(a: seq<Action>, b: seq<Action>)
    ensures Dispatched(a + b) == Dispatched(a) + Dispatched(b)
  {
    if b == [] {
      assert a + b == a;
    } else {
      var b' := b[..|b| - 1];
      assert (a + b)[..|a + b| - 1] == a + b';
      assert (a + b)[|a + b| - 1] == b[|b| - 1];
      DispatchedAppend(a, b');
    }
  }

  /** The paths of the hid_open_path calls of a trace, in order. */
  function OpenedPaths(trace: seq<Action>): seq<string>
  {
    if trace == [] then []
    else OpenedPaths(trace[..|trace| - 1])
         + (if trace[|trace| - 1].Hid? && trace[|trace| - 1].call.OpenPath? then [trace[|trace| - 1].call.path] else [])
  }

  /** The opened paths of a concatenation are the concatenation of both. */
  lemma {:induction false} OpenedAppend(a: seq<Action>, b: seq<Action>)
    ensures OpenedPaths(a + b) == OpenedPaths(a) + OpenedPaths(b)
  {
    if b == [] {
      assert a + b == a;
    } else {
      var b' := b[..|b| - 1];
      assert (a + b)[..|a + b| - 1] == a + b';
      assert (a + b)[|a + b| - 1] == b[|b| - 1];
      OpenedAppend(a, b');
    }
  }

  /** The number of hid_enumerate calls in a trace. */
  function Enumerations(trace: seq<Action>): nat
  {
    if trace == [] then 0
    else Enumerations(trace[..|trace| - 1])
         + (if trace[|trace| - 1].Hid? && trace[|trace| - 1].call.Enumerate? then 1 else 0)
  }

  /** The enumerations of a concatenation are those of both parts. */
  lemma {:induction false} EnumerationsAppend(a: seq<Action>, b: seq<Action>)
    ensures Enumerations(a + b) == Enumerations(a) + Enumerations(b)
  {
    if b == [] {
      assert a + b == a;
    } else {
      var b' := b[..|b| - 1];
      assert (a + b)[..|a + b| - 1] == a + b';
      assert (a + b)[|a + b| - 1] == b[|b| - 1];
      EnumerationsAppend(a, b');
    }
  }

  /** The enumerations from position `from` on: those up to `to`, then
      those after it. */
  lemma EnumerationsSplit(trace: seq<Action>, from: nat, to: nat)
    requires from <= to <= |trace|
    ensures Enumerations(trace[from..]) == Enumerations(trace[from..to]) + Enumerations(trace[to..])
  {
    assert trace[from..] == trace[from..to] + trace[to..];
    EnumerationsAppend(trace[from..to], trace[to..]);
  }

  /** A trace that starts with hid_enumerate counts at least that one. */
  lemma {:induction false} EnumerationsFirst(trace: seq<Action>)
    requires trace != []
    ensures trace[0].Hid? && trace[0].call.Enumerate? ==> Enumerations(trace) >= 1
  {
    if |trace| > 1 {
      EnumerationsFirst(trace[..|trace| - 1]);
    }
  }

  /** A trace none of whose calls is hid_enumerate counts none. */
  lemma {:induction false} NoEnumerations(trace: seq<Action>)
    requires forall i :: 0 <= i < |trace| ==> !(trace[i].Hid? && trace[i].call.Enumerate?)
    ensures Enumerations(trace) == 0
  {
    if trace != [] {
      NoEnumerations(trace[..|trace| - 1]);
    }
  }

  class Host {
    /** The result of hid_init: success or not. */
    const initOk: bool
    /** The paths hid_enumerate lists for a call at a given trace position. */
    const enumerateReply: nat -> seq<string>
    /** Whether hid_open_path succeeds for a call at a given trace position. */
    const openReply: nat -> bool
    /** The count hid_write returns for a call at a given trace position. */
    const writeReply: nat -> int
    /** The count and bytes hid_read_timeout yields at a given trace position. */
    const readReply: nat -> ReadReply
    var trace: seq<Action>

    constructor (initOk: bool, enumerateReply: nat -> seq<string>, openReply: nat -> bool,
                 writeReply: nat -> int, readReply: nat -> ReadReply)
      ensures this.initOk == initOk && this.enumerateReply == enumerateReply
      ensures this.openReply == openReply && this.writeReply == writeReply
      ensures this.readReply == readReply && trace == []
    {
      this.initOk := initOk;
      this.enumerateReply := enumerateReply;
      this.openReply := openReply;
      this.writeReply := writeReply;
      this.readReply := readReply;
      trace := [];
    }

    /** hid_init: 0 on success. */
    method HidInit() returns (failed: bool)
      modifies `trace
      ensures trace == old(trace) + [Hid(Init)]
      ensures failed == !initOk
    {
      trace := trace + [Hid(Init)];
      failed := !initOk;
    }

    method HidEnumerate(vendorId: int, productId: int) returns (paths: seq<string>)
      modifies `trace
      ensures trace == old(trace) + [Hid(Enumerate(vendorId, productId))]
      ensures paths == enumerateReply(|old(trace)|)
    {
      paths := enumerateReply(|trace|);
      trace := trace + [Hid(Enumerate(vendorId, productId))];
    }

    /** hid_open_path: a handle, here the trace position of the call, or NULL. */
    method HidOpenPath(path: string) returns (handle: Option<nat>)
      modifies `trace
      ensures trace == old(trace) + [Hid(OpenPath(path))]
      ensures handle == if openReply(|old(trace)|) then Some(|old(trace)|) else None
    {
      handle := if openReply(|trace|) then Some(|trace|) else None;
      trace := trace + [Hid(OpenPath(path))];
    }

    method HidSetNonblocking(handle: nat, nonblock: int)
      modifies `trace
      ensures trace == old(trace) + [Hid(SetNonblocking(handle, nonblock))]
    {
      trace := trace + [Hid(SetNonblocking(handle, nonblock))];
    }

    method HidWrite(handle: nat, frame: Frame) returns (written: int)
      modifies `trace
      ensures trace == old(trace) + [Hid(Write(handle, frame))]
      ensures written == writeReply(|old(trace)|)
    {
      written := writeReply(|trace|);
      trace := trace + [Hid(Write(handle, frame))];
    }

    method HidReadTimeout(handle: nat, length: nat, milliseconds: nat) returns (reply: ReadReply)
      modifies `trace
      ensures trace == old(trace) + [Hid(ReadTimeout(handle, length, milliseconds))]
      ensures reply == readReply(|old(trace)|)
    {
      reply := readReply(|trace|);
      trace := trace + [Hid(ReadTimeout(handle, length, milliseconds))];
    }

    method HidClose(handle: nat)
      modifies `trace
      ensures trace == old(trace) + [Hid(Close(handle))]
    {
      trace := trace + [Hid(Close(handle))];
    }

    method HidExit()
      modifies `trace
      ensures trace == old(trace) + [Hid(Exit)]
    {
      trace := trace + [Hid(Exit)];
    }

    /** v7_apply of a handler. Whether the handler exists or throws only
        changes what is printed, so every invocation is simply recorded. */
    method Apply(event: Event)
      modifies `trace
      ensures trace == old(trace) + [Dispatch(event)]
    {
      trace := trace + [Dispatch(event)];
    }
  }
}
