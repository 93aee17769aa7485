/** The script side of the daemon, kpod.js: the decoding of update reports,
    the running position of each device, and the command helpers that the
    device objects inherit from the `KPod` prototype. */
module KPodScript {
  import opened Wrappers
  import opened Wire
  import opened Registry
  import opened Environment
  import Daemon
  import opened Arithmetic

  // ---------------------------------------------------------------------
  // The `&` of the script on non-negative numbers

  /** `x & y` for non-negative numbers, bit by bit from the lowest. */
  function BitAnd(x: nat, y: nat): (r: nat)
    ensures r <= x && r <= y
  {
    if x == 0 || y == 0 then 0
    else 2 * BitAnd(x / 2, y / 2) + (if x % 2 == 1 && y % 2 == 1 then 1 else 0)
  }

  /** `x >> k` for a non-negative number. */
  function Shr(x: nat, k: nat): nat
  {
    if k == 0 then x else Shr(x / 2, k - 1)
  }

  /** `x << k`. */
  function Shl(x: nat, k: nat): nat
  {
    if k == 0 then x else 2 * Shl(x, k - 1)
  }

  /** Shifting right by `k` divides by 2^k. */
  lemma {:induction false} ShrIsDiv(x: nat, k: nat)
    ensures Shr(x, k) == x / Pow2(k)
  {
    if k > 0 {
      ShrIsDiv(x / 2, k - 1);
      DivDiv(x, 2, Pow2(k - 1));
    }
  }

  /** Shifting left by `k` multiplies by 2^k. */
  lemma {:induction false} ShlIsMul(x: nat, k: nat)
    ensures Shl(x, k) == x * Pow2(k)
  {
    if k > 0 {
      ShlIsMul(x, k - 1);
      assert x * Pow2(k) == 2 * (x * Pow2(k - 1));
    }
  }

  /** A mask of the `j` lowest bits keeps the remainder modulo 2^j. */
  lemma {:induction false} AndLowBits(x: nat, j: nat)
    ensures BitAnd(x, Pow2(j) - 1) == x % Pow2(j)
  {
    if j == 0 {
      assert Pow2(0) == 1;
    } else if x == 0 {
      DivModUnique(0, Pow2(j), 0, 0);
    } else {
      var p := Pow2(j - 1);
      var m := Pow2(j) - 1;
      assert m == 2 * (p - 1) + 1;
      assert m / 2 == p - 1 && m % 2 == 1;
      assert BitAnd(x, m) == 2 * BitAnd(x / 2, m / 2) + (if x % 2 == 1 then 1 else 0);
      AndLowBits(x / 2, j - 1);
      HalfMod(x, p);
    }
  }

  /** Masking with a doubled mask is masking the halves, doubled. */
  lemma AndDouble(x: nat, m: nat)
    ensures BitAnd(x, 2 * m) == 2 * BitAnd(x / 2, m)
  {
    if x == 0 {
      assert BitAnd(x / 2, m) == 0;
    }
  }

  /** A mask of `j` bits starting at bit `k` keeps that field of `x`, in place. */
  lemma {:induction false} AndField(x: nat, j: nat, k: nat)
    ensures BitAnd(x, Shl(Pow2(j) - 1, k)) == Shl(Shr(x, k) % Pow2(j), k)
  {
    if k == 0 {
      AndLowBits(x, j);
    } else {
      AndDouble(x, Shl(Pow2(j) - 1, k - 1));
      AndField(x / 2, j, k - 1);
    }
  }

  // ---------------------------------------------------------------------
  // Report decoding (kpod.js:15-22)

  /** The tick count of a report: bytes 1 and 2 read as a little-endian
      number, made negative when bit 15 is set. */
  function DecodeTicks(lo: byte, hi: byte): (ticks: int)
    ensures -32768 <= ticks <= 32767
    ensures (ticks - (lo + 256 * hi)) % 65536 == 0
    ensures ticks < 0 <==> hi >= 128
  {
    var raw := hi as int * 256 + lo as int;
    if SignBitSet(raw) then -65536 + raw else raw
  }

  /** The test `raw & 0x8000`: bit 15. */
  function SignBitSet(raw: nat): (on: bool)
    ensures on <==> (raw / 0x8000) % 2 == 1
  {
    AndField(raw, 1, 15);
    ShrIsDiv(raw, 15);
    ShlIsMul(Shr(raw, 15) % 2, 15);
    assert Pow2(1) == 2 && Pow2(15) == 0x8000 && Shl(1, 15) == 0x8000;
    BitAnd(raw, 0x8000) != 0
  }

  /** Decoding inverts the int16 encoding of the report structure. */
  lemma DecodeEncodeTicks(ticks: int)
    requires -32768 <= ticks <= 32767
    ensures DecodeTicks(EncodeTicks(ticks).0, EncodeTicks(ticks).1) == ticks
  {
    var (lo, hi) := EncodeTicks(ticks);
    var u := ticks % 65536;
    assert u == lo + 256 * hi;
    assert u == if ticks < 0 then ticks + 65536 else ticks;
  }

  /** Encoding inverts decoding, for every pair of bytes. */
  lemma EncodeDecodeTicks(lo: byte, hi: byte)
    ensures EncodeTicks(DecodeTicks(lo, hi)) == (lo, hi)
  {
    var t := DecodeTicks(lo, hi);
    var raw := hi as int * 256 + lo as int;
    if t == raw {
      DivModUnique(t, 65536, 0, raw);
    } else {
      assert t == raw - 65536;
      DivModUnique(t, 65536, -1, raw);
    }
    DivModUnique(raw, 256, hi, lo);
  }

  /** The button number: the low four bits of the controls byte. */
  function Button(controls: byte): (button: int)
    ensures 0 <= button <= 15
    ensures button == controls % 16
  {
    AndLowBits(controls, 4);
    assert Pow2(4) == 16;
    BitAnd(controls, 0x0F)
  }

  /** The hold flag: bit 4 of the controls byte. */
  function Hold(controls: byte): (hold: bool)
    ensures hold <==> (controls / 16) % 2 == 1
  {
    AndField(controls, 1, 4);
    ShrIsDiv(controls, 4);
    ShlIsMul(Shr(controls, 4) % 2, 4);
    assert Pow2(1) == 2 && Pow2(4) == 0x10 && Shl(1, 4) == 0x10;
    BitAnd(controls, 0x10) != 0
  }

  /** The rocker index: bits 5 and 6 of the controls byte. */
  function RockerIndex(controls: byte): (ri: int)
    ensures 0 <= ri <= 3
    ensures ri == (controls / 32) % 4
  {
    AndField(controls, 2, 5);
    ShrIsDiv(controls, 5);
    ShlIsMul(Shr(controls, 5) % 4, 5);
    ShrIsDiv(Shl(Shr(controls, 5) % 4, 5), 5);
    assert Pow2(2) == 4 && Pow2(5) == 32 && Shl(3, 5) == 0x60;
    Shr(BitAnd(controls, 0x60), 5)
  }

  /** The rocker labels "center", "right", "left" and "error". */
  datatype Rocker = Center | Right | Left | Error

  function RockerOf(ri: int): (rocker: Rocker)
    ensures rocker == Center <==> ri == 0
    ensures rocker == Right <==> ri == 1
    ensures rocker == Left <==> ri == 2
  {
    if ri == 0 then Center else if ri == 1 then Right else if ri == 2 then Left else Error
  }

  /** The label of every controls byte by its bits 5 and 6: 00 is center,
      01 right, 10 left, and 11 error. */
  lemma RockerTotal(controls: byte)
    ensures var r, bits := RockerOf(RockerIndex(controls)), (controls / 32) % 4;
      && (r == Center <==> bits == 0)
      && (r == Right <==> bits == 1)
      && (r == Left <==> bits == 2)
      && (r == Error <==> bits == 3)
  {
  }

  /** The values onUpdateReport computes from one report. */
  datatype UpdateReport = UpdateReport(ticks: int, button: int, hold: bool, rocker: Rocker)

  function DecodeReport(report: Frame): (u: UpdateReport)
    ensures u.ticks == DecodeTicks(report[1], report[2])
    ensures u.button == report[3] % 16 && u.hold == ((report[3] / 16) % 2 == 1)
    ensures u.rocker == RockerOf((report[3] / 32) % 4)
  {
    UpdateReport(DecodeTicks(report[1], report[2]), Button(report[3]), Hold(report[3]),
                 RockerOf(RockerIndex(report[3])))
  }

  // ---------------------------------------------------------------------
  // Command payloads and tags (kpod.js:28-56)

  const BeepTag: int := 0x5A
  const ConfigureTag: int := 0x43
  const GetIdTag: int := 0x3D
  const LedAuxTag: int := 0x4F
  const ResetTag: int := 0x72
  const VersionTag: int := 0x76

  /** The configure payload: 2 for a scale of 100, plus 1 for mute. */
  function ConfigurePayload(scale: int, mute: bool): (payload: int)
    ensures 0 <= payload <= 3
    ensures payload / 2 == 1 <==> scale == 100
    ensures payload % 2 == 1 <==> mute
  {
    (if scale == 100 then 2 else 0) + (if mute then 1 else 0)
  }

  /** The LED and aux byte: rocker LED in bit 7, LEDs 4 to 1 in bits 6 to
      3, aux outputs 3 to 1 in bits 2 to 0. */
  function LedAuxPayload(led1: bool, led2: bool, led3: bool, led4: bool,
                         rockerLed: bool, aux1: bool, aux2: bool, aux3: bool): (payload: bv8)
    ensures (payload & 0x80 != 0) == rockerLed && (payload & 0x40 != 0) == led4
    ensures (payload & 0x20 != 0) == led3 && (payload & 0x10 != 0) == led2 && (payload & 0x08 != 0) == led1
    ensures (payload & 0x04 != 0) == aux3 && (payload & 0x02 != 0) == aux2 && (payload & 0x01 != 0) == aux1
  {
    (if rockerLed then 0x80 else 0) |
    (if led4 then 0x40 else 0) | (if led3 then 0x20 else 0) | (if led2 then 0x10 else 0) | (if led1 then 0x08 else 0) |
    (if aux3 then 0x04 else 0) | (if aux2 then 0x02 else 0) | (if aux1 then 0x01 else 0)
  }

  /** The argument lists the helpers pass to send. */
  function BeepArgs(toneFrequency: int, toneLevel: int, duration: int): seq<int>
  {
    [BeepTag, toneFrequency, toneLevel, duration]
  }

  function ConfigureArgs(scale: int, mute: bool): seq<int>
  {
    [ConfigureTag, ConfigurePayload(scale, mute)]
  }

  function LedAuxArgs(led1: bool, led2: bool, led3: bool, led4: bool,
                      rockerLed: bool, aux1: bool, aux2: bool, aux3: bool): seq<int>
  {
    [LedAuxTag, LedAuxPayload(led1, led2, led3, led4, rockerLed, aux1, aux2, aux3) as int]
  }

  /** The frame beep() puts on the wire: its tag, then frequency, level and
      duration in that order. */
  lemma BeepFrame(toneFrequency: int, toneLevel: int, duration: int)
    ensures CommandFrame(BeepArgs(toneFrequency, toneLevel, duration))
            == [0x5A, LowByte(toneFrequency), LowByte(toneLevel), LowByte(duration), 0, 0, 0, 0]
  {
    assert LowByte(BeepTag) == 0x5A;
  }

  /** The frame configure() puts on the wire: its tag and the payload. */
  lemma ConfigureFrame(scale: int, mute: bool)
    ensures CommandFrame(ConfigureArgs(scale, mute)) == [0x43, ConfigurePayload(scale, mute), 0, 0, 0, 0, 0, 0]
  {
    assert LowByte(ConfigureTag) == 0x43;
    assert LowByte(ConfigurePayload(scale, mute)) == ConfigurePayload(scale, mute);
  }

  /** The frame ledAuxControl() puts on the wire: its tag and the payload. */
  lemma LedAuxFrame(led1: bool, led2: bool, led3: bool, led4: bool,
                    rockerLed: bool, aux1: bool, aux2: bool, aux3: bool)
    ensures CommandFrame(LedAuxArgs(led1, led2, led3, led4, rockerLed, aux1, aux2, aux3))
            == [0x4F, LedAuxPayload(led1, led2, led3, led4, rockerLed, aux1, aux2, aux3) as int, 0, 0, 0, 0, 0, 0]
  {
    var v := LedAuxPayload(led1, led2, led3, led4, rockerLed, aux1, aux2, aux3) as int;
    assert 0 <= v < 256;
    assert LowByte(LedAuxTag) == 0x4F && LowByte(v) == v;
  }

  /** getId(), reset() and version() send their tag alone. */
  lemma TagFrames()
    ensures CommandFrame([GetIdTag]) == [0x3D, 0, 0, 0, 0, 0, 0, 0]
    ensures CommandFrame([ResetTag]) == [0x72, 0, 0, 0, 0, 0, 0, 0]
    ensures CommandFrame([VersionTag]) == [0x76, 0, 0, 0, 0, 0, 0, 0]
  {
    assert LowByte(GetIdTag) == 0x3D && LowByte(ResetTag) == 0x72 && LowByte(VersionTag) == 0x76;
  }

  /** The identifier in a getId reply: the characters of bytes 1 onwards, up
      to the first zero byte. */
  method IdFromReport(report: seq<byte>) returns (id: string)
    ensures |report| >= 1 ==> |id| <= |report| - 1
    ensures |report| <= 1 ==> id == []
    ensures forall k :: 0 <= k < |id| ==> id[k] == report[k + 1] as char && id[k] != 0 as char
    ensures |report| >= 1 ==> 1 + |id| == |report| || report[1 + |id|] == 0
  {
    id := "";
    var i := 1;
    while i < |report|
      invariant 1 <= i && (i <= |report| || i == 1)
      invariant |id| == i - 1
      invariant forall k :: 0 <= k < |id| ==> id[k] == report[k + 1] as char
      invariant forall k :: 1 <= k < i ==> report[k] != 0
    {
      if report[i] == 0 {
        break;
      }
      ghost var before := id;
      id := id + [report[i] as char];
      assert forall k :: 0 <= k < |before| ==> id[k] == before[k];
      i := i + 1;
    }
  }

  /** The number version() divides by 100: bytes 1 and 2, little-endian. */
  function VersionNumber(report: Frame): (v: int)
    ensures 0 <= v < 65536
    ensures v % 256 == report[1] && v / 256 == report[2]
  {
    report[2] as int * 256 + report[1] as int
  }

  // ---------------------------------------------------------------------
  // The device object (kpod.js:12-57)

  /** A device object: the record it is bound to and its own `pos`, which
      starts at the prototype's 0. */
  class KPod {
    const device: KPodDevice
    var pos: int

    constructor (device: KPodDevice)
      ensures this.device == device && pos == 0
    {
      this.device := device;
      pos := 0;
    }

    /** onUpdateReport: decodes the report and adds its ticks to `pos`. */
    method OnUpdateReport(report: Frame) returns (decoded: UpdateReport)
      modifies `pos
      ensures decoded == DecodeReport(report)
      ensures pos == old(pos) + decoded.ticks
    {
      var ticks := report[2] as int * 256 + report[1] as int;
      if SignBitSet(ticks) {
        ticks := -65536 + ticks;
      }
      var button := Button(report[3]);
      var hold := Hold(report[3]);
      var ri := RockerIndex(report[3]);
      var rocker := RockerOf(ri);
      pos := pos + ticks;
      decoded := UpdateReport(ticks, button, hold, rocker);
    }

    method Beep(host: Host, toneFrequency: int, toneLevel: int, duration: int) returns (r: Result<seq<int>, Failure>)
      modifies host`trace, device`removePending
      ensures device.removePending == (old(device.removePending) || r.Failure?)
      ensures r == Daemon.SendResult(host, |old(host.trace)|, BeepArgs(toneFrequency, toneLevel, duration))
      ensures host.trace == old(host.trace)
        + Daemon.SendActions(host, |old(host.trace)|, device.handle, BeepArgs(toneFrequency, toneLevel, duration))
    {
      r := Daemon.Send(device, host, BeepArgs(toneFrequency, toneLevel, duration));
    }

    method Configure(host: Host, scale: int, mute: bool) returns (r: Result<seq<int>, Failure>)
      modifies host`trace, device`removePending
      ensures device.removePending == (old(device.removePending) || r.Failure?)
      ensures r == Daemon.SendResult(host, |old(host.trace)|, ConfigureArgs(scale, mute))
      ensures host.trace == old(host.trace)
        + Daemon.SendActions(host, |old(host.trace)|, device.handle, ConfigureArgs(scale, mute))
    {
      r := Daemon.Send(device, host, ConfigureArgs(scale, mute));
    }

    method LedAuxControl(host: Host, led1: bool, led2: bool, led3: bool, led4: bool,
                         rockerLed: bool, aux1: bool, aux2: bool, aux3: bool) returns (r: Result<seq<int>, Failure>)
      modifies host`trace, device`removePending
      ensures device.removePending == (old(device.removePending) || r.Failure?)
      ensures r == Daemon.SendResult(host, |old(host.trace)|, LedAuxArgs(led1, led2, led3, led4, rockerLed, aux1, aux2, aux3))
      ensures host.trace == old(host.trace)
        + Daemon.SendActions(host, |old(host.trace)|, device.handle, LedAuxArgs(led1, led2, led3, led4, rockerLed, aux1, aux2, aux3))
    {
      r := Daemon.Send(device, host, LedAuxArgs(led1, led2, led3, led4, rockerLed, aux1, aux2, aux3));
    }

    method Reset(host: Host) returns (r: Result<seq<int>, Failure>)
      modifies host`trace, device`removePending
      ensures device.removePending == (old(device.removePending) || r.Failure?)
      ensures r == Daemon.SendResult(host, |old(host.trace)|, [ResetTag])
      ensures host.trace == old(host.trace) + Daemon.SendActions(host, |old(host.trace)|, device.handle, [ResetTag])
    {
      r := Daemon.Send(device, host, [ResetTag]);
    }

    /** getId: the identifier, or the failure send throws. */
    method GetId(host: Host) returns (r: Result<string, Failure>)
      modifies host`trace, device`removePending
      ensures device.removePending == (old(device.removePending) || r.Failure?)
      ensures var sent := Daemon.SendResult(host, |old(host.trace)|, [GetIdTag]);
        && (sent.Failure? ==> r == Failure(sent.error))
        && (sent.Success? ==>
              && r.Success? && |r.value| <= 7
              && (forall k :: 0 <= k < |r.value| ==> r.value[k] == sent.value[k + 1] as char && r.value[k] != 0 as char)
              && (|r.value| == 7 || sent.value[1 + |r.value|] == 0))
      ensures host.trace == old(host.trace) + Daemon.SendActions(host, |old(host.trace)|, device.handle, [GetIdTag])
    {
      var sent := Daemon.Send(device, host, [GetIdTag]);
      if sent.Failure? {
        return Failure(sent.error);
      }
      var report: Frame := sent.value;
      var id := IdFromReport(report);
      return Success(id);
    }

    /** version: the integer that the script divides by 100. */
    method Version(host: Host) returns (r: Result<int, Failure>)
      modifies host`trace, device`removePending
      ensures device.removePending == (old(device.removePending) || r.Failure?)
      ensures var sent := Daemon.SendResult(host, |old(host.trace)|, [VersionTag]);
        && (sent.Failure? ==> r == Failure(sent.error))
        && (sent.Success? ==> r == Success(VersionNumber(host.readReply(|old(host.trace)| + 1).report)))
      ensures host.trace == old(host.trace) + Daemon.SendActions(host, |old(host.trace)|, device.handle, [VersionTag])
    {
      var sent := Daemon.Send(device, host, [VersionTag]);
      if sent.Failure? {
        return Failure(sent.error);
      }
      var report: Frame := sent.value;
      return Success(VersionNumber(report));
    }
  }
}
