# CtrlM command library, modelled in Dafny

`CtrlM_funcs.h` is an Arduino helper library that drives a CtrlM LED controller
over a two-wire (I2C) bus. Each `CtrlM_*` command sends one frame to a bus address.
A frame is one ASCII opcode byte followed by a fixed number of argument bytes.
Some commands then read back a fixed-length reply and decode it. Two loops probe
the bus for devices. Two generic helpers copy bytes between caller buffers and the bus.

The model has four modules:

- `Bytes` (`bytes.dfy`): the fixed-width integers of the target (`byte`, `uint16_t`,
  `uint32_t`, and the 16-bit AVR `int`). It also holds the additive checksum and
  big-endian packing of 16- and 32-bit values, with both round trips proved.
- `Protocol` (`protocol.dfy`): a `Command` datatype with one constructor per frame,
  and `Frame`, the exact bytes each command sends. It has `Parse`, a decoder that
  accepts exactly the frames `Frame` builds: it checks the length, the fixed bytes, the
  `setAddress` confirmation pattern and the FreeM checksum. `Frame` and `Parse` are
  proved inverse in both directions, so every command has a distinct frame. This
  module also holds the reply decoders for `getAddress`/`getInputsO`, `getVersion`
  and `checkAddress`.
- `Wire` (`wire.dfy`): the bus as a `Bus` class. It keeps a log of transactions
  (`Write(addr, bytes)`, with a zero-length write as a presence probe, and
  `Read(addr, count)`), a fixed set `acks` of addresses where a device
  acknowledges, and a script of replies that read requests consume in order. It
  also holds the received bytes not yet consumed and the transmission being
  assembled. Its methods are the `Wire` and `twi` calls the library makes.
- `CtrlM` (`ctrlm.dfy`): one method per `CtrlM_*` function, driving the bus step
  by step as the library does.
  - A write-only command ensures that the log grows by exactly `Write(addr, Frame(cmd))`,
    that the last transmission is that frame to that address, and that neither the
    pending replies nor the received bytes change.
  - A query ensures that the log grows by its frame and one `Read`, and that its
    result is the decoder applied to the delivered bytes.
  - `scanI2CBus` and `findFirstI2CDevice` are proved against the functions `ScanCalls`
    and `FirstAck`, whose contracts state ascending order, coverage and minimality.

Bus transport assumptions (the `Wire` library is not part of this model):
- `requestFrom(addr, n)` delivers the next scripted reply, cut to `n` bytes.
- `receive()` returns 0 once the delivered bytes are used up, as Arduino's `Wire` does.
- A write's status is 0 when a device acknowledges the address. Otherwise it is 2,
  the value the source's comment at `CtrlM_funcs.h:25-26` names.

Where the code and its comments differ, the model follows the code. For example,
`findFirstI2CDevice`'s comment says "addrs 1-120", but its loop stops before 120.
The model probes 1..119.

## Model

| member | source | states |
|---|---|---|
| `Bytes.FromU16Bytes` | ctrlm/examples/CtrlMTester/CtrlM_funcs.h:216-217 | the value rebuilt from a most- and least-significant byte splits back into those two bytes |
| `Bytes.U16Bytes` | ctrlm/examples/CtrlMTester/CtrlM_funcs.h:216-217 | the `irfreq >> 8` and `irfreq & 0xff` bytes are two bytes that rebuild the original 16-bit value |
| `Bytes.U32Bytes` | ctrlm/examples/CtrlMTester/CtrlM_funcs.h:237-240 | the four shifted-and-masked bytes of a 32-bit code are four bytes that, read most significant first, rebuild the code |
| `Bytes.U32RoundTrip` | ctrlm/examples/CtrlMTester/CtrlM_funcs.h:237-240 | the four shifted-and-masked bytes of a 32-bit code, read most significant first, give the code back |
| `Bytes.U32Split` | ctrlm/examples/CtrlMTester/CtrlM_funcs.h:237-240 | any four bytes packed big-endian and split again by the same shifts are the same four bytes, so the code encoding is a bijection |
| `Protocol.Frame` | ctrlm/examples/CtrlMTester/CtrlM_funcs.h:119-381 | every command frame starts with its command's opcode and has exactly the argument count that opcode fixes in the wire-format table `ArgCount` |
| `Protocol.ParseFrame` | ctrlm/examples/CtrlMTester/CtrlM_funcs.h:119-381 | every frame the library builds reads back as the command and arguments it was built from |
| `Protocol.FrameOfParse` | ctrlm/examples/CtrlMTester/CtrlM_funcs.h:119-381 | every byte sequence accepted as a command is exactly that command's frame, so `Parse` accepts nothing else |
| `Protocol.FrameInjective` | ctrlm/examples/CtrlMTester/CtrlM_funcs.h:119-381 | two commands with the same frame are the same command with the same arguments |
| `Protocol.SetAddressPattern` | ctrlm/examples/CtrlMTester/CtrlM_funcs.h:119-127 | the `setAddress` frame repeats the new address in bytes 1 and 4 around 0xD0 0x0D, and it is accepted as that address change |
| `Protocol.FreeMChecksum` | ctrlm/examples/CtrlMTester/CtrlM_funcs.h:196 | the checksum, added up in an `int` and stored into a `byte`, equals the additive 8-bit checksum of the seven payload bytes 0x55, freem address, 0xFF, 0xFF, 0, 0, 0 |
| `Protocol.FreeMChecksumIsPayloadSum` | ctrlm/examples/CtrlMTester/CtrlM_funcs.h:194-207 | the `writeFreeMAddress` frame has 9 bytes, and its last byte is the sum of the seven payload bytes before it modulo 256, with byte wrap-around |
| `Protocol.IRFreqBigEndian` | ctrlm/examples/CtrlMTester/CtrlM_funcs.h:212-219 | the `setIRFreq` frame has 4 bytes, with msb·256 + lsb equal to the frequency, followed by the duty byte |
| `Protocol.IRCodeBigEndian` | ctrlm/examples/CtrlMTester/CtrlM_funcs.h:232-241 | the `sendIRCode` frame has 6 bytes: the code type, then the code most significant byte first (b3·2^24 + b2·2^16 + b1·2^8 + b0 equals the code) |
| `Protocol.ByteReply` | ctrlm/examples/CtrlMTester/CtrlM_funcs.h:140-145 | a one-byte query returns -1 exactly when nothing was delivered, and otherwise returns the received byte (0..255) |
| `Protocol.VersionOf` | ctrlm/examples/CtrlMTester/CtrlM_funcs.h:154-160 | the version is -1 exactly when nothing was delivered, and otherwise lies in 0..65535, with the major byte as its high byte and the minor byte as its low byte |
| `Protocol.VersionDistinguishesReplies` | ctrlm/examples/CtrlMTester/CtrlM_funcs.h:154-160 | a two-byte reply never reads as -1, and two replies give the same version exactly when they are the same bytes |
| `Protocol.VersionOfInt16` | ctrlm/examples/CtrlMTester/CtrlM_funcs.h:154-160 | as written for the 16-bit AVR `int`: -1 without a reply, otherwise the packed version reinterpreted as a signed 16-bit value, which is negative exactly when the major byte is 0x80 or more |
| `Protocol.VersionInt16Collides` | ctrlm/examples/CtrlMTester/CtrlM_funcs.h:158 | with the 16-bit `int` of the target, the reply 0xFF 0xFF gives -1, the same result as no reply |
| `Protocol.CheckAddressOf` | ctrlm/examples/CtrlMTester/CtrlM_funcs.h:165-178 | `checkAddress` gives -1 exactly when `getAddress` gives -1, 0 exactly when the echoed byte equals the queried address, and 1 exactly when it differs |
| `Wire.Delivered` | ctrlm/examples/CtrlMTester/CtrlM_funcs.h:108 | a read request delivers a prefix of the device's reply of at most the requested length, and all of the reply when it is shorter |
| `Wire.Probes` | ctrlm/examples/CtrlMTester/CtrlM_funcs.h:33-34 | the probe log of a range has one zero-length write per address, in ascending order |
| `Wire.Bus.WriteTo` | ctrlm/examples/CtrlMTester/CtrlM_funcs.h:34 | a `twi_writeTo` appends one write to the log and returns 0 exactly when a device acknowledges the address |
| `Wire.Bus.BeginTransmission` | ctrlm/examples/CtrlMTester/CtrlM_funcs.h:97 | starts an empty transmission to the address |
| `Wire.Bus.Send` | ctrlm/examples/CtrlMTester/CtrlM_funcs.h:99 | queues one byte after those already queued |
| `Wire.Bus.EndTransmission` | ctrlm/examples/CtrlMTester/CtrlM_funcs.h:100 | appends the queued bytes as one write to the log |
| `Wire.Bus.RequestFrom` | ctrlm/examples/CtrlMTester/CtrlM_funcs.h:108 | logs one read request, makes the delivered bytes pending and consumes one scripted reply |
| `Wire.Bus.Available` | ctrlm/examples/CtrlMTester/CtrlM_funcs.h:109 | the number of delivered bytes not yet received |
| `Wire.Bus.Receive` | ctrlm/examples/CtrlMTester/CtrlM_funcs.h:111 | takes the next pending byte, or gives 0 when none is pending |
| `CtrlM.ScanCalls` | ctrlm/examples/CtrlMTester/CtrlM_funcs.h:28-37 | a scan reports every address of its range exactly once, in ascending order, each with the status of its probe |
| `CtrlM.ScanI2CBus` | ctrlm/examples/CtrlMTester/CtrlM_funcs.h:28-37 | for `to` < 255, the callbacks are exactly `ScanCalls` over `from`..`to` inclusive (none when `from` > `to`), and the log grows by one probe per address in that order |
| `CtrlM.FirstAck` | ctrlm/examples/CtrlMTester/CtrlM_funcs.h:41-50 | gives -1 exactly when no address in the range acknowledges, and otherwise the smallest acknowledging address in the range |
| `CtrlM.FindFirstI2CDevice` | ctrlm/examples/CtrlMTester/CtrlM_funcs.h:41-50 | returns the smallest acknowledging address in 1..119, or -1; it probes only 1..119, ascending, and stops right after the first acknowledgement |
| `CtrlM.FirstAckIsFirstScanHit` | ctrlm/examples/CtrlMTester/CtrlM_funcs.h:28-50 | `findFirstI2CDevice`'s answer is the first call with status 0 in a scan of 1..119, and it is -1 exactly when that scan has no such call |
| `CtrlM.SendCmd` | ctrlm/examples/CtrlMTester/CtrlM_funcs.h:95-101 | appends exactly one write of `cmd[0..cmdlen)` (empty for `cmdlen` ≤ 0) to the address, leaves those bytes as the last transmission, and changes neither the pending replies nor the received bytes |
| `CtrlM.ReceiveBytes` | ctrlm/examples/CtrlMTester/CtrlM_funcs.h:106-115 | with data delivered, it returns 0 and writes `resp[0..len)` with the received bytes in order, leaving the rest of `resp` alone; with none, it returns -1 and leaves `resp` unchanged |
| `CtrlM.SetAddress` | ctrlm/examples/CtrlMTester/CtrlM_funcs.h:119-129 | appends exactly one write of the `setAddress` frame to the general-call address 0 |
| `CtrlM.GetAddress` | ctrlm/examples/CtrlMTester/CtrlM_funcs.h:135-146 | sends `'a'`, requests one byte, and returns the echoed byte or -1 |
| `CtrlM.CheckAddress` | ctrlm/examples/CtrlMTester/CtrlM_funcs.h:165-179 | performs exactly the `getAddress` exchange and returns the three-valued check of its reply |
| `CtrlM.SetSendAddress` | ctrlm/examples/CtrlMTester/CtrlM_funcs.h:182-191 | appends exactly the frame `'@'`, freem address, target address, 0 |
| `CtrlM.WriteFreeMAddress` | ctrlm/examples/CtrlMTester/CtrlM_funcs.h:194-209 | appends exactly the 9-byte FreeM frame, with its checksum computed as the library computes it |
| `CtrlM.GetVersion` | ctrlm/examples/CtrlMTester/CtrlM_funcs.h:149-161 | always sends `'Z'` first, requests two bytes, and returns the packed version or -1 |
| `CtrlM.SetIRFreq` | ctrlm/examples/CtrlMTester/CtrlM_funcs.h:212-220 | appends exactly the `setIRFreq` frame |
| `CtrlM.TurnIRLED` | ctrlm/examples/CtrlMTester/CtrlM_funcs.h:222-230 | appends exactly `'%'`, on, 0, 0 |
| `CtrlM.SendIRCode` | ctrlm/examples/CtrlMTester/CtrlM_funcs.h:232-242 | appends exactly the `sendIRCode` frame |
| `CtrlM.SetFadeSpeed` | ctrlm/examples/CtrlMTester/CtrlM_funcs.h:246-252 | appends exactly `'f'`, speed |
| `CtrlM.SetTimeAdj` | ctrlm/examples/CtrlMTester/CtrlM_funcs.h:257-263 | appends exactly `'t'`, time adjust |
| `CtrlM.FadeToRGB` | ctrlm/examples/CtrlMTester/CtrlM_funcs.h:266-274 | appends exactly `'c'`, red, green, blue |
| `CtrlM.FadeToHSB` | ctrlm/examples/CtrlMTester/CtrlM_funcs.h:277-285 | appends exactly `'h'`, hue, saturation, brightness |
| `CtrlM.SetRGB` | ctrlm/examples/CtrlMTester/CtrlM_funcs.h:288-296 | appends exactly `'n'`, red, green, blue |
| `CtrlM.FadeToRandomRGB` | ctrlm/examples/CtrlMTester/CtrlM_funcs.h:299-307 | appends exactly `'C'` and the three random bounds |
| `CtrlM.FadeToRandomHSB` | ctrlm/examples/CtrlMTester/CtrlM_funcs.h:309-317 | appends exactly `'H'` and the three random bounds |
| `CtrlM.GetRGBColor` | ctrlm/examples/CtrlMTester/CtrlM_funcs.h:320-331 | sends `'g'` and requests three bytes; with a reply it writes them through r, g, b in that order, and without one it leaves r, g and b untouched |
| `CtrlM.StopScript` | ctrlm/examples/CtrlMTester/CtrlM_funcs.h:334-339 | appends exactly `'o'` |
| `CtrlM.PlayScript` | ctrlm/examples/CtrlMTester/CtrlM_funcs.h:342-350 | appends exactly `'p'`, script id, repeats, position |
| `CtrlM.StopCtrlMScript` | ctrlm/examples/CtrlMTester/CtrlM_funcs.h:352-357 | appends exactly `'O'` |
| `CtrlM.PlayCtrlMScript` | ctrlm/examples/CtrlMTester/CtrlM_funcs.h:358-366 | appends exactly `'P'`, 0, repeats, position |
| `CtrlM.SetStartupParams` | ctrlm/examples/CtrlMTester/CtrlM_funcs.h:370-381 | appends exactly `'B'` and the five startup parameters |
| `CtrlM.GetInputsO` | ctrlm/examples/CtrlMTester/CtrlM_funcs.h:386-397 | sends `'i'`, requests one byte, and returns it or -1 |
| `CtrlM.GetInputs` | ctrlm/examples/CtrlMTester/CtrlM_funcs.h:402-416 | sends `'i'`, requests four bytes, stores the four delivered bytes in `inputs[0..4)` in order, and returns 0 |

## Left out

- Power control (`CtrlM_startPowerWithPins`, `CtrlM_stopPowerWithPins`, `CtrlM_startPower`, `CtrlM_stopPower`): these set AVR port registers directly and have no logic to model.
- Initialisation (`CtrlM_begin`, `CtrlM_beginWithPowerPins`, `CtrlM_beginWithPower`) and every `delay(...)` call: bus start-up and timing are not modelled.
- The `Wire` and `twi` libraries are not part of this model. Arbitration, clocking and electrical ACK/NACK become the `acks` set and the reply script. Their 32-byte transmit and receive buffers are not modelled, so a write or read of more than 32 bytes is not truncated here.
- The set of acknowledging devices is fixed for the whole run. A `setAddress` does not move a device to its new address, and replies are not tied to the address they were requested from.
- `CtrlM.GetInputs`: the library waits without bound until four bytes are pending. The model requires that the next reply has at least four bytes and omits the wait, so the hang is not modelled.
- `CtrlM.ScanI2CBus`: with `to` = 255 the byte counter wraps and the loop never ends. The model requires `to` < 255. The callback function pointer is replaced by the returned sequence of (address, status) calls.
- `CtrlM.SendCmd`: with `cmdlen` > 255 the byte counter wraps and the loop never ends. The model requires `cmdLen` ≤ 255.
- `CtrlM.SendCmd`, `CtrlM.ReceiveBytes`, `CtrlM.GetInputs`: C pointers become Dafny arrays. The callers' buffers must be long enough, which the C code assumes without checking.
- `CtrlM.GetVersion`: the model returns the packed version in an unbounded integer, not the 16-bit `int` the library returns on its AVR target (see Findings).
- The status returned by `endTransmission` is ignored by every command, as in the library.

## Findings

| source | as written | input that shows it | evidently intended | confidence | as-written member | corrected member |
|---|---|---|---|---|---|---|
| ctrlm/examples/CtrlMTester/CtrlM_funcs.h:158 | `(major_ver<<8) + minor_ver` is computed and returned in `int`, which has 16 bits on the AVR target, so a major version of 0x80 or more wraps to a negative value | reply 0xFF 0xFF: the result is -1, the same value as "no response" | a version in 0..65535 that never collides with the -1 sentinel | not executed | `Protocol.VersionInt16Collides` (about `Protocol.VersionOfInt16`) | `Protocol.VersionOf` with `Protocol.VersionDistinguishesReplies` |
