/** The CtrlM wire format: every command is one ASCII opcode byte followed by
    a fixed number of argument bytes, and some commands are answered by a
    fixed-length reply. `Frame` is the encoder the library implements;
    `Parse` is a decoder that accepts exactly the frames `Frame` builds, and
    the two are proved to be inverse to each other. */
module Protocol {
  import opened Bytes

  datatype Option<T> = None | Some(value: T)

  /** One constructor per command frame the library sends. `CtrlM_getInputsO`
      and `CtrlM_getInputs` send the same frame, `GetInputs`. */
  datatype Command =
    | SetAddress(newAddress: byte)
    | GetAddress
    | GetVersion
    | SetSendAddress(freemAddr: byte, blinkmAddr: byte)
    | WriteFreeMAddress(freemAddr: byte)
    | SetIRFreq(irFreq: u16, dutyPercent: byte)
    | TurnIRLED(on: byte)
    | SendIRCode(codeType: byte, code: u32)
    | SetFadeSpeed(fadeSpeed: byte)
    | SetTimeAdj(timeAdj: byte)
    | FadeToRGB(red: byte, grn: byte, blu: byte)
    | FadeToHSB(hue: byte, saturation: byte, brightness: byte)
    | SetRGB(red: byte, grn: byte, blu: byte)
    | FadeToRandomRGB(rrnd: byte, grnd: byte, brnd: byte)
    | FadeToRandomHSB(hrnd: byte, srnd: byte, brnd: byte)
    | GetRGBColor
    | StopScript
    | PlayScript(scriptId: byte, reps: byte, pos: byte)
    | StopCtrlMScript
    | PlayCtrlMScript(reps: byte, pos: byte)
    | SetStartupParams(mode: byte, scriptId: byte, reps: byte, fadeSpeed: byte, timeAdj: byte)
    | GetInputs

  /** The opcode of each command, as the ASCII character the library sends first. */
  function Opcode(c: Command): (op: char)
    ensures '!' <= op <= 'z'
  {
    match c
    case SetAddress(_) => 'A'
    case GetAddress => 'a'
    case GetVersion => 'Z'
    case SetSendAddress(_, _) => '@'
    case WriteFreeMAddress(_) => '!'
    case SetIRFreq(_, _) => '#'
    case TurnIRLED(_) => '%'
    case SendIRCode(_, _) => '$'
    case SetFadeSpeed(_) => 'f'
    case SetTimeAdj(_) => 't'
    case FadeToRGB(_, _, _) => 'c'
    case FadeToHSB(_, _, _) => 'h'
    case SetRGB(_, _, _) => 'n'
    case FadeToRandomRGB(_, _, _) => 'C'
    case FadeToRandomHSB(_, _, _) => 'H'
    case GetRGBColor => 'g'
    case StopScript => 'o'
    case PlayScript(_, _, _) => 'p'
    case StopCtrlMScript => 'O'
    case PlayCtrlMScript(_, _) => 'P'
    case SetStartupParams(_, _, _, _, _) => 'B'
    case GetInputs => 'i'
  }

  /** Number of argument bytes that follow each opcode: a table of the wire
      format, independent of how the frames are built. Unknown opcodes take none. */
  function ArgCount(op: byte): (n: nat)
    ensures n <= 8
  {
    if op == 'A' as int then 4
    else if op == '@' as int then 3
    else if op == '!' as int then 8
    else if op == '#' as int then 3
    else if op == '%' as int then 3
    else if op == '$' as int then 5
    else if op == 'f' as int || op == 't' as int then 1
    else if op == 'c' as int || op == 'h' as int || op == 'n' as int then 3
    else if op == 'C' as int || op == 'H' as int || op == 'p' as int || op == 'P' as int then 3
    else if op == 'B' as int then 5
    else 0
  }

  /** Fixed bytes of the `setAddress` confirmation pattern. */
  const AddressMagic1: byte := 0xD0
  const AddressMagic2: byte := 0x0D

  /** Start byte of the FreeM address payload. */
  const FreeMStart: byte := 0x55

  /** Checksum of `writeFreeMAddress`, computed as the library does:
      the seven payload bytes added in an `int` and stored into a `byte`. */
  function FreeMChecksum(freemAddr: byte): (sum: byte)
    ensures sum == Checksum([FreeMStart, freemAddr, 0xff, 0xff, 0x00, 0x00, 0x00])
  {
    SumAppend([FreeMStart, freemAddr], [0xff, 0xff, 0x00, 0x00, 0x00]);
    assert [FreeMStart, freemAddr] + [0xff, 0xff, 0x00, 0x00, 0x00] == [FreeMStart, freemAddr, 0xff, 0xff, 0x00, 0x00, 0x00];
    Truncate(0x55 + freemAddr + 0xff + 0xff + 0x00 + 0x00 + 0x00)
  }

  /** The exact bytes each command puts on the bus, opcode first. */
  function Frame(c: Command): (f: seq<byte>)
    ensures |f| >= 1 && |f| == 1 + ArgCount(f[0])
    ensures f[0] == Opcode(c) as int
  {
    match c
    case SetAddress(n) => ['A' as int, n, AddressMagic1, AddressMagic2, n]
    case GetAddress => ['a' as int]
    case GetVersion => ['Z' as int]
    case SetSendAddress(freem, blinkm) => ['@' as int, freem, blinkm, 0]
    case WriteFreeMAddress(freem) =>
      ['!' as int, FreeMStart, freem, 0xff, 0xff, 0x00, 0x00, 0x00, FreeMChecksum(freem)]
    case SetIRFreq(irFreq, duty) => ['#' as int] + U16Bytes(irFreq) + [duty]
    case TurnIRLED(on) => ['%' as int, on, 0, 0]
    case SendIRCode(codeType, code) => ['$' as int, codeType] + U32Bytes(code)
    case SetFadeSpeed(speed) => ['f' as int, speed]
    case SetTimeAdj(adj) => ['t' as int, adj]
    case FadeToRGB(r, g, b) => ['c' as int, r, g, b]
    case FadeToHSB(h, s, b) => ['h' as int, h, s, b]
    case SetRGB(r, g, b) => ['n' as int, r, g, b]
    case FadeToRandomRGB(r, g, b) => ['C' as int, r, g, b]
    case FadeToRandomHSB(h, s, b) => ['H' as int, h, s, b]
    case GetRGBColor => ['g' as int]
    case StopScript => ['o' as int]
    case PlayScript(id, reps, pos) => ['p' as int, id, reps, pos]
    case StopCtrlMScript => ['O' as int]
    case PlayCtrlMScript(reps, pos) => ['P' as int, 0, reps, pos]
    case SetStartupParams(mode, id, reps, speed, adj) => ['B' as int, mode, id, reps, speed, adj]
    case GetInputs => ['i' as int]
  }

  /** Decodes a frame into the command it encodes. A frame is accepted only
      with the opcode's exact length and its fixed bytes in place: the
      `setAddress` confirmation pattern (new address repeated around 0xD0 0x0D),
      the FreeM start byte, placeholders and checksum, and the zero bytes of
      `setSendAddress`, `turnIRLED` and `playCtrlMScript`. */
  function Parse(f: seq<byte>): (r: Option<Command>)
    ensures r.Some? ==> f != [] && |f| == 1 + ArgCount(f[0]) && f[0] == Opcode(r.value) as int
  {
    if f == [] || |f| != 1 + ArgCount(f[0]) then None
    else
      var op := f[0];
      if op == 'A' as int then
        if f[2] == AddressMagic1 && f[3] == AddressMagic2 && f[4] == f[1] then Some(SetAddress(f[1])) else None
      else if op == 'a' as int then Some(GetAddress)
      else if op == 'Z' as int then Some(GetVersion)
      else if op == '@' as int then
        if f[3] == 0 then Some(SetSendAddress(f[1], f[2])) else None
      else if op == '!' as int then
        if f[1] == FreeMStart && f[3..8] == [0xff, 0xff, 0, 0, 0] && f[8] == Checksum(f[1..8])
        then Some(WriteFreeMAddress(f[2])) else None
      else if op == '#' as int then Some(SetIRFreq(FromU16Bytes(f[1], f[2]), f[3]))
      else if op == '%' as int then
        if f[2] == 0 && f[3] == 0 then Some(TurnIRLED(f[1])) else None
      else if op == '$' as int then Some(SendIRCode(f[1], FromU32Bytes(f[2], f[3], f[4], f[5])))
      else if op == 'f' as int then Some(SetFadeSpeed(f[1]))
      else if op == 't' as int then Some(SetTimeAdj(f[1]))
      else if op == 'c' as int then Some(FadeToRGB(f[1], f[2], f[3]))
      else if op == 'h' as int then Some(FadeToHSB(f[1], f[2], f[3]))
      else if op == 'n' as int then Some(SetRGB(f[1], f[2], f[3]))
      else if op == 'C' as int then Some(FadeToRandomRGB(f[1], f[2], f[3]))
      else if op == 'H' as int then Some(FadeToRandomHSB(f[1], f[2], f[3]))
      else if op == 'g' as int then Some(GetRGBColor)
      else if op == 'o' as int then Some(StopScript)
      else if op == 'p' as int then Some(PlayScript(f[1], f[2], f[3]))
      else if op == 'O' as int then Some(StopCtrlMScript)
      else if op == 'P' as int then
        if f[1] == 0 then Some(PlayCtrlMScript(f[2], f[3])) else None
      else if op == 'B' as int then Some(SetStartupParams(f[1], f[2], f[3], f[4], f[5]))
      else if op == 'i' as int then Some(GetInputs)
      else None
  }

  /** The FreeM checksum is the sum of the seven payload bytes before it, modulo 256. */
  lemma FreeMChecksumIsPayloadSum(freemAddr: byte)
    ensures var f := Frame(WriteFreeMAddress(freemAddr));
      |f| == 9 && f[8] == Checksum(f[1..8])
  {
    var f := Frame(WriteFreeMAddress(freemAddr));
    var payload := f[1..8];
    assert payload == [FreeMStart, freemAddr] + [0xff, 0xff, 0, 0, 0];
    SumAppend([FreeMStart, freemAddr], [0xff, 0xff, 0, 0, 0]);
    assert Sum([0xff, 0xff, 0, 0, 0]) == 0x1fe;
  }

  /** `setAddress` repeats the new address around the two fixed bytes 0xD0 0x0D. */
  lemma SetAddressPattern(n: byte)
    ensures var f := Frame(SetAddress(n));
      Parse(f) == Some(SetAddress(n)) && f[1] == f[4] == n && f[2..4] == [0xD0, 0x0D]
  {
  }

  /** The `setIRFreq` frame carries the frequency most significant byte first. */
  lemma IRFreqBigEndian(irFreq: u16, duty: byte)
    ensures var f := Frame(SetIRFreq(irFreq, duty));
      |f| == 4 && f[1] as int * 0x100 + f[2] == irFreq && f[3] == duty
  {
  }

  /** The `sendIRCode` frame carries the code most significant byte first. */
  lemma IRCodeBigEndian(codeType: byte, code: u32)
    ensures var f := Frame(SendIRCode(codeType, code));
      |f| == 6 && f[1] == codeType &&
      f[2] as int * 0x100_0000 + f[3] as int * 0x1_0000 + f[4] as int * 0x100 + f[5] == code
  {
  }

  /** Every frame the library sends reads back as the command it encodes. */
  lemma ParseFrame(c: Command)
    ensures Parse(Frame(c)) == Some(c)
  {
    var f := Frame(c);
    match c
    case WriteFreeMAddress(freem) =>
      FreeMChecksumIsPayloadSum(freem);
      assert f[3..8] == [0xff, 0xff, 0, 0, 0];
    case _ =>
  }

  /** Every accepted frame is exactly the frame of the command it reads as. */
  lemma FrameOfParse(f: seq<byte>)
    requires Parse(f).Some?
    ensures Frame(Parse(f).value) == f
  {
    var c := Parse(f).value;
    if c.WriteFreeMAddress? {
      FreeMChecksumIsPayloadSum(c.freemAddr);
      assert Frame(c)[1..8] == f[1..8];
    } else if c.SendIRCode? {
      U32Split(f[2], f[3], f[4], f[5]);
    }
  }

  /** Different commands never share a frame, so a frame names its command. */
  lemma FrameInjective(c1: Command, c2: Command)
    requires Frame(c1) == Frame(c2)
    ensures c1 == c2
  {
    ParseFrame(c1);
    ParseFrame(c2);
  }

  // Replies. `rx` is what the bus delivered for a request; reading past its end
  // yields 0, as the bus library's receive does when nothing is pending.

  /** The `i`-th received byte, or 0 when fewer bytes were delivered. */
  function ReplyByte(rx: seq<byte>, i: nat): (b: byte)
    ensures i < |rx| ==> b == rx[i]
  {
    if i < |rx| then rx[i] else 0
  }

  /** Result of a one-byte query (`getAddress`, `getInputsO`): the byte, or -1 without a reply. */
  function ByteReply(rx: seq<byte>): (r: int)
    ensures -1 <= r < 0x100
    ensures r == -1 <==> rx == []
    ensures rx != [] ==> r == rx[0]
  {
    if rx == [] then -1 else rx[0]
  }

  /** Result of `getVersion` on an integer wide enough for 0..65535: major and
      minor packed as `(major << 8) + minor`, or -1 without a reply. */
  function VersionOf(rx: seq<byte>): (r: int)
    ensures r == -1 <==> rx == []
    ensures r != -1 ==> 0 <= r < 0x1_0000 && r / 0x100 == ReplyByte(rx, 0) && r % 0x100 == ReplyByte(rx, 1)
  {
    if rx == [] then -1 else ReplyByte(rx, 0) * 0x100 + ReplyByte(rx, 1)
  }

  /** Result of `getVersion` as written for the AVR target, where `int` has 16
      bits: `(major << 8) + minor` wraps to a negative value once major >= 0x80. */
  function VersionOfInt16(rx: seq<byte>): (r: i16)
    ensures rx == [] ==> r == -1
    ensures rx != [] ==> r == ToInt16(VersionOf(rx))
    ensures rx != [] ==> (r < 0 <==> ReplyByte(rx, 0) >= 0x80)
  {
    if rx == [] then -1 else ToInt16(ReplyByte(rx, 0) * 0x100 + ReplyByte(rx, 1))
  }

  /** As written, version 0xFF.0xFF reads as -1, the same value as no reply at all. */
  lemma VersionInt16Collides()
    ensures VersionOfInt16([0xff, 0xff]) == VersionOfInt16([]) == -1
    ensures VersionOf([0xff, 0xff]) == 0xffff
  {
  }

  /** With a wide enough result, the packed version and "no reply" never meet,
      and distinct replies give distinct versions. */
  lemma VersionDistinguishesReplies(rx1: seq<byte>, rx2: seq<byte>)
    requires |rx1| == |rx2| == 2
    ensures VersionOf(rx1) != -1
    ensures VersionOf(rx1) == VersionOf(rx2) <==> rx1 == rx2
  {
    if VersionOf(rx1) == VersionOf(rx2) {
      assert rx1 == [ReplyByte(rx1, 0), ReplyByte(rx1, 1)] == [ReplyByte(rx2, 0), ReplyByte(rx2, 1)] == rx2;
    }
  }

  /** Result of `checkAddress(addr)` from the one-byte reply to `getAddress`:
      -1 when `getAddress` has no response, 0 when the echoed address matches,
      1 when it differs. */
  function CheckAddressOf(addr: byte, rx: seq<byte>): (r: int)
    ensures r in {-1, 0, 1}
    ensures r == -1 <==> ByteReply(rx) == -1
    ensures r == 0 <==> rx != [] && rx[0] == addr
    ensures r == 1 <==> rx != [] && rx[0] != addr
  {
    var b := ByteReply(rx);
    if b == -1 then -1
    else if b != addr then 1
    else 0
  }
}
