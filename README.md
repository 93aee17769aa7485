# kpodd: a Dafny model of the KPod daemon core

kpodd drives Elecraft KPod USB tuning knobs through hidapi. It keeps an
intrusive doubly-linked list of open devices. Discovery scans for new devices
on a countdown. Every tick it sends each device an 8-byte `'u'` update
command and classifies the exchange: short read, timeout, read error, write
failure or success. After any failure it closes the device. The daemon
reports what happens to a small JavaScript script (`kpod.js`, run by the V7
interpreter) through three handlers:

- `onDeviceAdded`;
- `onDeviceRemoved`;
- the device object's `onUpdateReport`.

The script decodes the update reports and accumulates a position. Its
helpers send commands (beep, configure, LED/aux control, id, reset and
version) through the `send` method that the daemon installs on each device
object.

The model has eight modules:

- `Wire`: the 8-byte frames, the command frame that `send` builds, the
  failure classification shared by update and send, and the int16 tick field.
- `Registry`: the device record (`KPodDevice`) and the list (`DeviceList`) as
  classes whose methods rewrite `head`, `tail`, `prev` and `next` in place.
- `Environment`: one `Host` object that stands in for both hidapi and the
  interpreter.
  - Each hidapi result comes from a fixed oracle indexed by the call's
    position in one shared trace.
  - Each handler invocation is appended to the same trace.
  - A device's handle is the trace position of its `hid_open_path` call.
- `Daemon`: `update_kpod`, `js_kpod_send`, device open and close, discovery,
  the poll of one tick, the scan countdown, `main_hid`, and the `~/`
  expansion of the configuration path.
- `KPodScript`: the report decoder, the command payloads and tags, the id
  extractor, and a `KPod` class for one device object with its own `pos`.
  kpod.js uses `&`, `>>` and `|` on non-negative numbers. `&` and `>>`
  become the functions `BitAnd` and `Shr` on natural numbers; the `|` of
  the LED and aux flags is the `|` of `bv8` in `LedAuxPayload`. `Shl` is
  only a proof device, used to state the masks 0x8000, 0x10 and 0x60 as
  powers of two.
- `Scenarios`: concrete runs against scripted hosts.
- `Wrappers`: `Option` and `Result`.
- `Arithmetic`: division and power-of-two facts the proofs need.

### Behaviour of the code that the model keeps

- `add_kpod_device` never sets the old tail's `next` (kpodd.c:92-96).
  - `DeviceList.Valid` records the consequence as an invariant: no record's
    `next` is ever set, and the head has no predecessor.
  - So the walk forward from `head` sees at most the head
    (`DeviceList.ForwardReachesOnlyHead`).
  - Lookup, polling and `close_kpods` therefore see only the head. Closing
    the head empties the list and orphans any later record.
- The scan lookup only sees the head. So with two devices attached, every
  scan opens the second device again (`Daemon.DeviceScan`, `Scenarios.Rescan`).
- Scanning is not idempotent once two devices are attached, and
  `add_kpod_device` links a record whose path is already in the list
  (kpodd.c:86-97, 320-326).
- The scan runs before the poll of the same tick (kpodd.c:352-375), so a head
  found by a scan is updated in that same tick (`Daemon.RunTick`). On an
  empty list that head is the record of the scan's first successful
  hid_open_path (`Daemon.FirstOpen`).
- The poll reaches only the head (kpodd.c:360-375 with the link invariant
  above), so of several open devices only the first is updated.
- `code` in `main_hid` is never assigned when no device path is given. Its
  value on return is then `Indeterminate` (kpodd.c:336, 383).
- `js_kpod_send` stores argument `i` in `data[i - 1]` without a bound. So it
  requires at most 8 arguments.
- `updateInterval < 1` is only warned about (kpodd.c:463-465), after which
  the countdown divides by it. So the main loop requires `updateInterval >= 1`
  when scanning is enabled.
- Scanning also runs when an explicit device path is given. In that mode the
  first removal of any device ends the daemon with 0.

## Model

| member | source | states |
|---|---|---|
| Wire.BuildCommandFrame | kpodd.c:122-128 | the command byte is the low byte of argument 0, payload byte i-1 is the low byte of argument i, and the rest is zero |
| Wire.UpdateFrameIsCommandFrame | kpodd.c:258-259 | the update frame is the command frame of the single argument 'u' |
| Wire.Classify | kpodd.c:130-157 | an exchange succeeds exactly when 8 bytes were written and 8 read, and then yields the read bytes; otherwise it fails |
| Wire.ClassifyExamples | kpodd.c:263-276 | a read of 0 is a timeout, a read of 5 a short read, and every write of 0 to 7 bytes a write failure |
| Registry.KPodDevice.constructor | kpodd.c:187-190 | a new record has the path, the handle, a clear `remove_pending` and no links |
| Registry.DeviceList.constructor | kpodd.c:334 | the list starts empty |
| Registry.DeviceList.Forward | kpodd.c:305-313 | the records a walk along `next` from `head` visits form a chain that ends in null, inside the footprint |
| Registry.DeviceList.ForwardReachesOnlyHead | kpodd.c:86-97 | under the list invariant, every forward chain is the walk and has at most one record |
| Registry.DeviceList.Add | kpodd.c:86-97 | on an empty list the record becomes head and tail with null links; otherwise only `tail` and the new `prev` change, the old tail's `next` is untouched, the walk from `head` is unchanged and misses the new record, and the invariant is kept |
| Registry.DeviceList.Remove | kpodd.c:99-110 | head moves to `next` for a record without predecessor, tail moves to `prev` for one without successor, otherwise the neighbours are linked; no other link or flag changes, the record keeps its links, and the invariant is kept |
| Registry.DeviceList.IsOpen | kpodd.c:305-314 | true exactly when a record on the walk from `head` has the path |
| Daemon.ReportArray | kpodd.c:112-117 | the array has 8 elements and element i is report byte i |
| Daemon.UpdateFails | kpodd.c:261-276 | an update fails exactly when the write count is not 8 or the read count is not 8 |
| Daemon.UpdateDispatches | kpodd.c:279-302 | an update invokes exactly one `onUpdateReport`, on the device and with the report, when nothing failed, the flag was clear and byte 0 is 'u', and no handler otherwise; after a failed write there is no read |
| Daemon.UpdateKPod | kpodd.c:257-303 | the flag becomes the old flag or the failure of this exchange and is never cleared; the trace grows by the write, the read after a complete write, and the event |
| Daemon.SendResult | kpodd.c:122-158 | without arguments the result is "cmd data missing"; otherwise it succeeds exactly when 8 bytes were written and 8 read, returns all 8 read bytes whatever byte 0 is, and otherwise carries the classified failure |
| Daemon.SendDispatchesNothing | kpodd.c:119-159 | `send` invokes no handler |
| Daemon.Send | kpodd.c:119-159 | the result is `SendResult`; there is no I/O and no flag change without arguments; otherwise the frame is `CommandFrame`, there is a read only after a complete write, and every failure sets the flag |
| Daemon.OpenKPod | kpodd.c:177-226 | a failed open returns 3 with list unchanged and no handler called; otherwise exactly one fresh record with the path and a clear flag is linked, hid_set_nonblocking(0) is called, then one `onDeviceAdded` on it, and the result is 0 |
| Daemon.CloseKPod | kpodd.c:228-236 | `onDeviceRemoved` fires before hid_close, and both come before the unlink; closing the head empties the list |
| Daemon.RemovalDispatches | kpodd.c:238-250 | closing a sequence of records invokes `onDeviceRemoved` once for each, in order |
| Daemon.CloseKPods | kpodd.c:238-250 | every record on the walk from `head` is closed in order, the walk is then empty, and the result is 0 |
| Daemon.WithoutMembers | kpodd.c:316-329 | the paths a scan hands over keep exactly the enumerated paths other than the head's, and on distinct paths drop exactly one |
| Daemon.HandedSnoc | kpodd.c:320-326 | one more enumerated path is handed to open_kpod exactly when it differs from the path of the current head |
| Daemon.OpenKPodOpens | kpodd.c:177-226 | the calls of a successful open_kpod contain exactly one hid_open_path, on the path it was given |
| Daemon.ScanPath | kpodd.c:322-324 | open_kpod is called for a path exactly when the lookup misses it, and then its first call is hid_open_path on that path and it opens nothing else; otherwise it calls nothing and the list is unchanged; a record is linked exactly when that hid_open_path succeeds, and a failed one is the only call and leaves the list as it was; an existing head is kept, and a record linked to an empty list has its flag clear and that call's position as handle |
| Daemon.HandedStep | kpodd.c:320-326 | one more path of the loop, by index, is handed to open_kpod exactly when it differs from the path of the current head |
| Daemon.ScanNext | kpodd.c:320-326 | one path of the loop: the hid_open_path calls so far become `Handed` of the paths up to this one, an existing head stays, and on a list that began empty `first` is still the first successful open, as `FirstOpen` says |
| Daemon.FirstOpenStep | kpodd.c:320-326 | on a list that began empty, one more pass keeps the first successful open; with none so far, the open of this path becomes the first exactly when it succeeded and linked the head, and otherwise every open so far still failed |
| Daemon.FirstOpenNew | kpodd.c:320-326 | after opens of the earlier paths that all failed, the successful open of the next path, which linked the head, is the first |
| Daemon.FirstOpenUnique | kpodd.c:320-326 | `FirstOpen` fixes `first`: the same calls admit only one index, and the head it names has one handle and one path |
| Daemon.ScanPaths | kpodd.c:320-326 | the hid_open_path calls of the loop are exactly `Handed` of the enumerated paths, in order; on an empty list the opens before that of `paths[first]` all failed and that one succeeded and linked the head, and with no `first` every open failed and the list stays empty |
| Daemon.DeviceScan | kpodd.c:316-329 | hid_enumerate comes first, and the hid_open_path calls after it are exactly `Handed`: with a head, every enumerated path but the head's; on an empty list, every path up to the first successful open, then every later path but that one; on an empty list the opens before that of `paths[first]` all failed, that one succeeded, and the record it linked, whose handle is that call's position, is the head (`FirstOpen`); with no `first` every open failed and the list stays empty; a failed open does not stop the scan, and an existing head stays |
| Daemon.OpenedThroughScan | kpodd.c:316-329 | the hid_open_path calls of a trace that passed through a scan are those before its hid_enumerate followed by those of the scan |
| Daemon.PollDevices | kpodd.c:360-375 | the first call is the update write to the head; its flag becomes the old flag or the failure of this exchange; a head whose flag is then set is closed at once, leaving the list empty; the poll stops the daemon exactly when a device was removed in explicit-path mode |
| Daemon.ScanStep | kpodd.c:352-358 | the countdown is compared with 0 and decremented only when scanning is enabled, and a scan at 0 resets it to `S / U`; when it scans, the calls are those of `device_scan` (hid_enumerate first, then the opens `Handed` states), and otherwise nothing is called and the list is unchanged |
| Daemon.ScheduleAt | kpodd.c:352-358 | the countdown's schedule has one entry per tick, and tick t scans exactly when `ScanDue` holds: `S > 0` and t a multiple of `S / U + 1` |
| Daemon.ScanSchedule | kpodd.c:352-358 | with `S > 0` the count before tick t is 0 on multiples of `S / U + 1` and the distance to the next multiple otherwise, so a scan happens exactly on those ticks; with `S <= 0` there is never a scan and the count stays 0 |
| Daemon.ScheduleDue | kpodd.c:352-358 | the schedule scans exactly on the ticks where `ScanDue` holds, and never when `S <= 0` |
| Daemon.TicksOrdered | kpodd.c:351-377 | a tick ends before any later tick begins |
| Daemon.TickPlaced | kpodd.c:351-377 | every tick lies inside the trace, after the point where the loop began, after every earlier tick and right after the one before it, and begins with hid_enumerate exactly when it scanned |
| Daemon.EnumerationsOfTicks | kpodd.c:351-377 | the first n ticks hold exactly one hid_enumerate for each of them that scanned |
| Daemon.CountTicks | kpodd.c:351-383 | a trace made of the starting trace, the ticks and calls that do not enumerate holds one more hid_enumerate than the starting trace for each tick that scanned |
| Daemon.TicksGrow | kpodd.c:351-383 | later calls leave every recorded tick as it was |
| Daemon.TicksBefore | kpodd.c:351-377 | the ticks recorded so far stay as `TickAt` says when the trace grows and one more tick is recorded |
| Daemon.TickLast | kpodd.c:351-377 | a tick run as `TickRan` says from where the one before it ended is recorded as `TickAt` says |
| Daemon.TicksExtend | kpodd.c:351-377 | a tick run after the ticks so far is recorded as `TickAt` says: it begins where they ended, with hid_enumerate exactly when it scanned, and polls the head it began with or, on an empty list, the record linked by its scan's first successful hid_open_path (`FirstOpen`), or nothing when every open failed; the earlier ticks stay as they were |
| Daemon.PollAndExit | kpodd.c:360-375 | the first call is the update write to the head, if any; the poll calls no hid_enumerate; in explicit-path mode an open head stays until an update fails, and a failed update ends the daemon with `onDeviceRemoved`, hid_close and hid_exit last; with no head nothing is called |
| Daemon.RunTick | kpodd.c:352-375 | one tick: the countdown step, then the poll; the count afterwards is the count before the next tick; the tick begins with hid_enumerate, its only one, exactly when it scanned; the poll updates the head after the scan as `PolledHead` says: the old head or, on an empty list, the record linked by the scan's first successful hid_open_path, that of the enumerated path `first` (`FirstOpen`), and nothing when every open failed; these are `TickRan`; in explicit-path mode an open head stays until an update fails, and a failed update ends the daemon with `onDeviceRemoved`, hid_close and hid_exit last |
| Daemon.ExitAfterTicks | kpodd.c:351-377 | a loop whose last tick ended the daemon, with hid_exit right after it, has called hid_enumerate once per scanning tick |
| Daemon.LoopTick | kpodd.c:351-376 | one pass of the loop is recorded as `TickAt` says after the earlier ones (so a tick that began with an empty list and scanned polls the record of the scan's first successful open); unless it ends the daemon, the trace ends where the tick ended, and the list's head is the one the tick left, with its flag clear; when it ends the daemon, hid_exit follows the tick at once and the trace holds one hid_enumerate per scanning tick (`Exited`) |
| Daemon.LoopTicks | kpodd.c:351-377 | the `while (!sigint)` loop: which ticks scan is the countdown's `Schedule`; it runs `sigintTick` ticks unless a removal in explicit-path mode ends it earlier, with hid_exit right after that tick; every tick is as `TickAt` says |
| Daemon.Drain | kpodd.c:379-383 | after the interrupt, the record at the head the last tick left is closed (`onDeviceRemoved`, then hid_close), then hid_exit; the ticks stay as they were, and the trace holds one hid_enumerate more than at the start for each tick that scanned |
| Daemon.EventLoop | kpodd.c:351-383 | tick t scans exactly when `ScanDue` holds; every tick begins where the one before it ended, begins with hid_enumerate, its only one, exactly when it scanned, and updates the head it began with, or with none the record linked by its scan's first successful hid_open_path (`FirstOpen`), as `PolledHead` says (update, then close on failure or a set flag); after `sigintTick` ticks the head the last tick left is closed and hid_exit is called; in explicit-path mode the first removal stops the loop with hid_exit right after that tick; hid_enumerate is called once per scanning tick and never when `S <= 0`; an open explicit device whose every update fails stops it after the first tick |
| Daemon.CloseAndExit | kpodd.c:379-383 | close_kpods closes the record reachable from the head, `onDeviceRemoved` before hid_close, then hid_exit is the last call; the list is empty and nothing enumerates |
| Daemon.StartHid | kpodd.c:338-346 | hid_init first, ending with 3 when it fails; with an explicit path open_kpod of it, ending with 3 when the open fails; otherwise the list's head is the fresh record of that open, with its flag clear, and no hid_enumerate is called |
| Daemon.MainHid | kpodd.c:331-384 | hid_init failure returns 3; a failed explicit open returns 3 after it; a removal in explicit-path mode returns 0, hid_exit following the tick that removed; an interrupt closes the head the last tick left and calls hid_exit, returning 0 with a path and an indeterminate code without; every tick of the loop is as `TickAt` says, from the trace after hid_init and the explicit open; tick t scans exactly when `ScanDue` holds, and hid_enumerate is called once per scanning tick; an open explicit device whose every update fails stops the daemon after one tick |
| Daemon.ExpandConfigPath | kpodd.c:467-475 | a path starting with `~/` becomes `$HOME/` plus the rest, because the buffer fits exactly; any other path is unchanged |
| KPodScript.BitAnd | kpod.js:16-21 | the script's `&` on non-negative numbers is at most either operand |
| KPodScript.AndLowBits | kpod.js:19 | masking with 2^j - 1 keeps the remainder modulo 2^j |
| KPodScript.AndField | kpod.js:16-21 | masking with j one-bits shifted by k keeps bits k to k+j-1 of the number in place |
| KPodScript.ShrIsDiv | kpod.js:21 | shifting right by k divides by 2^k |
| KPodScript.SignBitSet | kpod.js:16 | `raw & 0x8000` is non-zero exactly when bit 15 of raw is set |
| KPodScript.DecodeTicks | kpod.js:15-18 | the ticks lie in -32768..32767, agree with the little-endian value modulo 65536, and are negative exactly when the high byte's top bit is set |
| KPodScript.DecodeEncodeTicks | kpod.js:15-18 | decoding the int16 encoding of any tick count gives it back |
| KPodScript.EncodeDecodeTicks | kpod.js:15-18 | encoding the decoded value gives back any two bytes |
| KPodScript.Button | kpod.js:19 | the button is the controls byte modulo 16, in 0..15 |
| KPodScript.Hold | kpod.js:20 | hold is bit 4 of the controls byte |
| KPodScript.RockerIndex | kpod.js:21 | the rocker index is bits 5 and 6 of the controls byte, in 0..3 |
| KPodScript.RockerOf | kpod.js:22 | index 0 is center, 1 right, 2 left, anything else error |
| KPodScript.RockerTotal | kpod.js:21-22 | bits 5-6 of the controls byte equal to 0, 1, 2 and 3 give exactly center, right, left and error |
| KPodScript.DecodeReport | kpod.js:15-22 | the decoded report's ticks, button, hold and rocker come from bytes 1-3 as above |
| KPodScript.ConfigurePayload | kpod.js:31-33 | the payload is in 0..3, bit 1 is `scale == 100` and bit 0 is mute |
| KPodScript.LedAuxPayload | kpod.js:45-49 | bit 7 is the rocker LED, bits 6-3 are LEDs 4-1, bits 2-0 are aux 3-1, each flag setting only its own bit |
| KPodScript.BeepFrame | kpod.js:28-30 | beep sends 0x5A with the low bytes of frequency, level and duration in that order, the rest zero |
| KPodScript.ConfigureFrame | kpod.js:31-33 | configure sends 0x43 and its payload, the rest zero |
| KPodScript.LedAuxFrame | kpod.js:45-49 | LED/aux control sends 0x4F and its payload byte, the rest zero |
| KPodScript.TagFrames | kpod.js:34-56 | getId sends 0x3D, reset 0x72 and version 0x76 alone |
| KPodScript.IdFromReport | kpod.js:36-43 | the id is the characters of bytes 1 onwards up to the first zero byte: none is NUL, and it is at most one shorter than the report |
| KPodScript.VersionNumber | kpod.js:55 | the version number is in 0..65535 with low byte report[1] and high byte report[2] |
| KPodScript.KPod.constructor | kpod.js:12-13 | a device object starts at `pos` 0 |
| KPodScript.KPod.OnUpdateReport | kpod.js:14-27 | only `pos` changes, by the decoded ticks, and the decoded fields are those of `DecodeReport` |
| KPodScript.KPod.Beep | kpod.js:28-30 | sends the beep arguments through `send`; the device's flag becomes the old flag or the failure of the send |
| KPodScript.KPod.Configure | kpod.js:31-33 | sends tag 0x43 and the configure payload through `send`; the device's flag becomes the old flag or the failure of the send |
| KPodScript.KPod.GetId | kpod.js:34-44 | a send failure propagates and sets the device's flag; otherwise the id is at most 7 characters of the reply, taken up to its first zero byte, none of them NUL |
| KPodScript.KPod.LedAuxControl | kpod.js:45-49 | sends tag 0x4F and the LED/aux payload through `send`; the device's flag becomes the old flag or the failure of the send |
| KPodScript.KPod.Reset | kpod.js:50-52 | sends tag 0x72 alone through `send`; the device's flag becomes the old flag or the failure of the send |
| KPodScript.KPod.Version | kpod.js:53-56 | a send failure propagates and sets the device's flag; otherwise the result is the version number of the reply |
| Scenarios.UpdateEvent | kpodd.c:257-303 | a healthy reply `u 10 0 3 ...` gives one `onUpdateReport` with those bytes and a clear flag |
| Scenarios.ForwardReport | kpod.js:15-22 | a report with bytes 1-3 equal to 10, 0, 3 decodes to 10 ticks, button 3, rocker centred, no hold |
| Scenarios.BackwardReport | kpod.js:15-22 | a report with bytes 1-3 equal to F6, FF, 55 decodes to -10 ticks, button 5, hold, rocker left |
| Scenarios.TimeoutRemoval | kpodd.c:360-375 | a read timeout marks the device, fires `onDeviceRemoved` before hid_close, and empties the list |
| Scenarios.ExplicitPathExit | kpodd.c:342-384 | with an explicit path that opens and a device whose reads all fail, main_hid returns 0: after exactly one tick, through the removal, or at once when interrupted before it |
| Scenarios.OpenFirst | kpodd.c:177-226 | open_kpod on a fresh host whose open succeeds makes the device the head, and its hid_open_path is the only one on the trace |
| Scenarios.ScanWithHead | kpodd.c:316-329 | a scan while a device is open keeps the head and calls hid_open_path on every listed path but the head's |
| Scenarios.Rescan | kpodd.c:316-329 | with two unchanged devices and the first open, the hid_open_path calls are hidraw0, then hidraw1 at each of two scans |

## Left out

- hidapi itself: the results of hid_init, hid_enumerate, hid_open_path, hid_write and hid_read_timeout come from an oracle, and hid_error's texts, hid_free_enumeration and the diagnostics on standard error are not modelled.
- The device identity strings (kpodd.c:202-221): hid_get_product_string and the related calls are foreign calls not modelled, so the optional `product`, `manufacturer` and `serial` properties are absent.
- The V7 interpreter: object creation, prototypes, user data and `v7_own`/`v7_disown` are replaced by binding the script object to the record. A handler invocation is recorded in the trace but its body is not run. In particular the global `onDeviceAdded` and `onDeviceRemoved` functions of kpod.js:1-10, which print and call the helpers, are not modelled, and neither are handler exceptions.
- Only integer arguments reach `send`; v7_get_int's conversion of other values is not modelled.
- Configuration loading and option parsing (kpodd.c:386-462) are not modelled; `ExpandConfigPath` takes `$HOME` as a parameter.
- Signals, `kpod_sleep` and timing: `sigint` is seen once per tick and is first seen set before tick `sigintTick`.
- Memory management: `free` is not modelled, and a closed record stays in the list's footprint.
- `ROCKER_*`, `server` and `port` are unused by the code and are left out.
- `pos` is a JavaScript number (a double) and is modelled as an unbounded integer, which is exact while it stays below 2^53 in magnitude.
- version(): the division by 100 is floating point; `KPodScript.VersionNumber` and `KPodScript.KPod.Version` give the integer before it.
- `print` in kpod.js is not modelled; `KPodScript.KPod.OnUpdateReport` returns the values it prints.
- Daemon.Send: requires at most 8 arguments, because the code writes past the command packet for more; that overflow is not modelled.
- Daemon.DeviceScan: states that hid_enumerate comes first and which hid_open_path calls follow, in order, but not every other hidapi and handler call of each open.
- Daemon.EventLoop: of each tick's scan it states the hid_enumerate that begins it and, on an empty list, which open was the first to succeed and that its record is the one polled, but not the complete list of the scan's hid_open_path calls; `Daemon.DeviceScan` states those, and `TickAt` does not repeat them.
- Daemon.MainHid: of each tick's scan it states what `Daemon.EventLoop` states, for the same reason.
- Daemon.OpenKPod: handler bodies are not run, so the clear flag it states is the one before `onDeviceAdded` runs. In kpod.js that handler sends commands, and a failed send would set the flag. The poll handles a flag that is already set: it closes the device.
- Daemon.ExpandConfigPath: assumes HOME is set; the code dereferences NULL otherwise (kpodd.c:469-471).
- Daemon.PollDevices: under the list invariant only the head is ever reachable, so saving `next` before the update matters only for a list this daemon cannot build; the contract speaks of the head alone.
