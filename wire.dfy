/** The fixed 8-byte wire protocol of the KPod (kpodd.c:24-42): command
    frames, the failure classification of one write/read exchange, and the
    signed 16-bit tick field of a report. */
module Wire {

  /** An `unsigned char` of the daemon. The script sees the same values as numbers. */
  type byte = x: int | 0 <= x < 256

  /** A `struct KPod_cmd_packet` or a `struct KPod_report_packet`: exactly 8 bytes. */
  type Frame = s: seq<byte> | |s| == 8 witness [0, 0, 0, 0, 0, 0, 0, 0]

  /** HID_READ_TIMEOUT, in milliseconds. */
  const HidReadTimeout: nat := 20
  /** HID_RESPONSE_LENGTH */
  const HidResponseLength: nat := 8
  /** sizeof(struct KPod_cmd_packet) */
  const CommandLength: nat := 8
  /** The tag of the update command and of its reply, the character 'u'. */
  const UpdateTag: byte := 'u' as int

  /** The frame update_kpod sends: `{0}` with `cmd = 'u'`. */
  const UpdateCommandFrame: Frame := [UpdateTag, 0, 0, 0, 0, 0, 0, 0]

  /** The C conversion `(unsigned char) x`: reduction modulo 256. */
  function LowByte(x: int): byte
  {
    x % 256
  }

  /** The frame js_kpod_send builds from its arguments: the command byte from
      the first one, payload byte i - 1 from argument i, the rest zero. */
  function CommandFrame(args: seq<int>): Frame
    requires 1 <= |args| <= 8
  {
    seq(8, i requires 0 <= i < 8 => if i < |args| then LowByte(args[i]) else 0)
  }

  /** Lines 124-128 of kpodd.c: fill a zeroed command packet from the arguments. */
  method BuildCommandFrame(args: seq<int>) returns (frame: Frame)
    requires 1 <= |args| <= 8
    ensures frame[0] == LowByte(args[0])
    ensures forall i :: 1 <= i < |args| ==> frame[i] == LowByte(args[i])
    ensures forall i :: |args| <= i < 8 ==> frame[i] == 0
    ensures frame == CommandFrame(args)
  {
    var cmd := LowByte(args[0]);
    var data := new byte[7](_ => 0);
    var i := 1;
    while i < |args|
      invariant 1 <= i <= |args|
      invariant forall j :: 0 <= j < i - 1 ==> data[j] == LowByte(args[j + 1])
      invariant forall j :: i - 1 <= j < 7 ==> data[j] == 0
    {
      data[i - 1] := LowByte(args[i]);
      i := i + 1;
    }
    frame := [cmd] + data[..];
    assert forall i :: 1 <= i < 8 ==> frame[i] == data[i - 1];
  }

  /** The update frame is the command frame of the single argument 'u'. */
  lemma UpdateFrameIsCommandFrame()
    ensures CommandFrame([UpdateTag as int]) == UpdateCommandFrame
  {
  }

  /** What hid_read_timeout reports: the count it returns and the first 8
      bytes of the zero-initialised report buffer afterwards. */
  datatype ReadReply = ReadReply(count: int, report: Frame)

  /** The ways an exchange with a device can fail (kpodd.c:133-157, 264-276). */
  datatype Failure =
    | CmdDataMissing
    | WriteFailed
    | ShortRead(got: int)
    | ReadTimedOut
    | ReadFailed

  datatype Exchange = Received(report: Frame) | Failed(failure: Failure)

  /** The classification shared by update_kpod and js_kpod_send: a write of
      other than 8 bytes fails, then a positive count other than 8 is a short
      read, 0 a timeout and a negative count a transport error. */
  function Classify(written: int, reply: ReadReply): (e: Exchange)
    ensures e.Received? <==> written == CommandLength && reply.count == HidResponseLength
    ensures e.Received? ==> e.report == reply.report
    ensures e.Failed? ==> e.failure != CmdDataMissing
  {
    if written != CommandLength then Failed(WriteFailed)
    else if reply.count > 0 && reply.count != HidResponseLength then Failed(ShortRead(reply.count))
    else if reply.count == 0 then Failed(ReadTimedOut)
    else if reply.count < 0 then Failed(ReadFailed)
    else Received(reply.report)
  }

  /** The examples of failure classification: a timeout, a 5-byte read and a
      short write. */
  lemma ClassifyExamples(report: Frame)
    ensures Classify(8, ReadReply(0, report)) == Failed(ReadTimedOut)
    ensures Classify(8, ReadReply(5, report)) == Failed(ShortRead(5))
    ensures forall w, r :: 0 <= w < 8 ==> Classify(w, r) == Failed(WriteFailed)
  {
  }

  /** The `int16_t ticks` field of `struct KPod_report_packet` (kpodd.c:34):
      two's complement, low byte first. */
  function EncodeTicks(ticks: int): (bytes: (byte, byte))
    requires -32768 <= ticks <= 32767
  {
    var u := ticks % 65536;
    (u % 256, u / 256)
  }
}
