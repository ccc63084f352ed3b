/** The CtrlM command library: one method per `CtrlM_*` function, each driving
    the bus step by step as the library does. A write-only command appends
    exactly its frame to the bus log, leaves that frame as the last transmission,
    and changes neither the pending replies nor the received bytes; a query appends
    its frame and one read request, and decodes the delivered bytes. */
module CtrlM {
  import opened Bytes
  import opened Wire
  import P = Protocol

  /** A `byte` variable the library writes through a pointer. */
  class ByteVar {
    var value: byte

    constructor (v: byte)
      ensures value == v
    {
      value := v;
    }
  }

  // ----- Bus discovery -----

  /** One callback of a bus scan: the address probed and the status it returned. */
  datatype ScanCall = ScanCall(addr: byte, status: byte)

  /** The callbacks of a scan over the addresses `lo` .. `hi - 1`: every address
      once, in ascending order, each with the status of its probe. */
  function ScanCalls(acks: set<byte>, lo: nat, hi: nat): (calls: seq<ScanCall>)
    requires hi <= 0x100
    ensures |calls| == if lo <= hi then hi - lo else 0
    ensures forall k :: 0 <= k < |calls| ==> calls[k] == ScanCall(lo + k, WriteStatus(acks, lo + k))
    decreases hi
  {
    if hi <= lo then [] else ScanCalls(acks, lo, hi - 1) + [ScanCall(hi - 1, WriteStatus(acks, hi - 1))]
  }

  /** One past the last address an inclusive scan from `from` to `to` visits. */
  function ScanEnd(from: byte, to: byte): (end: nat)
    ensures from <= end <= 0x100 && (from <= to ==> end == to + 1)
  {
    if from <= to then to + 1 else from
  }

  /** `CtrlM_scanI2CBus(from, to, callback)`: probes every address from `from` to
      `to` inclusive, ascending, and reports each (address, status) pair; the
      callbacks are returned in the order they are made. The byte counter never
      passes 255, so `to` must be below it for the loop to end. */
  method ScanI2CBus(bus: Bus, from: byte, to: byte) returns (calls: seq<ScanCall>)
    requires to < 255
    modifies bus
    ensures calls == ScanCalls(bus.acks, from, ScanEnd(from, to))
    ensures bus.log == old(bus.log) + Probes(from, ScanEnd(from, to))
    ensures bus.replies == old(bus.replies) && bus.rx == old(bus.rx)
  {
    calls := [];
    var addr: nat := from;
    while addr <= to
      invariant from <= addr <= ScanEnd(from, to)
      invariant calls == ScanCalls(bus.acks, from, addr)
      invariant bus.log == old(bus.log) + Probes(from, addr)
      invariant bus.replies == old(bus.replies) && bus.rx == old(bus.rx)
    {
      var rc := bus.WriteTo(addr, []);
      calls := calls + [ScanCall(addr, rc)];
      addr := addr + 1;
    }
  }

  /** The lowest address from `from` up to 119 at which a device acknowledges, or -1. */
  function FirstAck(acks: set<byte>, from: nat): (r: int)
    requires from <= 120
    ensures r == -1 <==> forall a: byte :: from <= a < 120 ==> a !in acks
    ensures r != -1 ==> from <= r < 120 && r in acks
    ensures r != -1 ==> forall a: byte :: from <= a < r ==> a !in acks
    decreases 120 - from
  {
    if from == 120 then -1
    else if from in acks then from
    else FirstAck(acks, from + 1)
  }

  /** `CtrlM_findFirstI2CDevice()`: probes 1, 2, ... 119 in turn and stops at the
      first address that acknowledges, returning it, or -1 when none does. */
  method FindFirstI2CDevice(bus: Bus) returns (r: int)
    modifies bus
    ensures r == FirstAck(bus.acks, 1)
    ensures bus.log == old(bus.log) + Probes(1, if r == -1 then 120 else r + 1)
    ensures bus.replies == old(bus.replies) && bus.rx == old(bus.rx)
  {
    var addr: nat := 1;
    while addr < 120
      invariant 1 <= addr <= 120
      invariant FirstAck(bus.acks, addr) == FirstAck(bus.acks, 1)
      invariant bus.log == old(bus.log) + Probes(1, addr)
      invariant bus.replies == old(bus.replies) && bus.rx == old(bus.rx)
    {
      var rc := bus.WriteTo(addr, []);
      if rc == 0 {
        return addr;
      }
      addr := addr + 1;
    }
    return -1;
  }

  /** The device `findFirstI2CDevice` reports is the first hit of a scan over
      1 .. 119, and it reports -1 exactly when that scan has no hit. */
  lemma FirstAckIsFirstScanHit(acks: set<byte>)
    ensures var calls, r := ScanCalls(acks, 1, 120), FirstAck(acks, 1);
      (r == -1 <==> forall k :: 0 <= k < |calls| ==> calls[k].status != 0) &&
      (r != -1 ==> calls[r - 1] == ScanCall(r, 0) && forall k :: 0 <= k < r - 1 ==> calls[k].status != 0)
  {
    var calls, r := ScanCalls(acks, 1, 120), FirstAck(acks, 1);
    if r == -1 {
      forall k | 0 <= k < |calls| ensures calls[k].status != 0 {
        assert calls[k] == ScanCall(1 + k, WriteStatus(acks, 1 + k));
      }
    } else {
      assert calls[r - 1] == ScanCall(r, WriteStatus(acks, r));
      forall k | 0 <= k < r - 1 ensures calls[k].status != 0 {
        assert calls[k] == ScanCall(1 + k, WriteStatus(acks, 1 + k));
      }
    }
  }

  // ----- Generic transport -----

  /** `CtrlM_sendCmd(addr, cmd, cmdlen)`: sends `cmd[0..cmdlen)` as one write
      (nothing when `cmdlen` is not positive). The byte loop counter cannot pass
      255, so longer commands are excluded. */
  method SendCmd(bus: Bus, addr: byte, cmd: array<byte>, cmdLen: int)
    requires cmdLen <= 255 && cmdLen <= cmd.Length
    modifies bus
    ensures bus.log == old(bus.log) + [Write(addr, cmd[..if cmdLen < 0 then 0 else cmdLen])]
    ensures bus.txAddr == addr && bus.tx == cmd[..if cmdLen < 0 then 0 else cmdLen]
    ensures bus.replies == old(bus.replies) && bus.rx == old(bus.rx)
  {
    bus.BeginTransmission(addr);
    var i := 0;
    while i < cmdLen
      invariant 0 <= i <= (if cmdLen < 0 then 0 else cmdLen)
      invariant bus.txAddr == addr && bus.tx == cmd[..i]
      invariant bus.log == old(bus.log)
      invariant bus.replies == old(bus.replies) && bus.rx == old(bus.rx)
    {
      bus.Send(cmd[i]);
      i := i + 1;
    }
    var _ := bus.EndTransmission();
  }

  /** `CtrlM_receiveBytes(addr, resp, len)`: requests `len` bytes; if any arrive,
      stores `len` received bytes into `resp[0..len)` in order and returns 0,
      otherwise returns -1 and leaves `resp` as it was. */
  method ReceiveBytes(bus: Bus, addr: byte, resp: array<byte>, len: byte) returns (rc: int)
    requires len <= resp.Length
    modifies bus, resp
    ensures bus.log == old(bus.log) + [Read(addr, len)]
    ensures bus.replies == Rest(old(bus.replies)) && bus.rx == []
    ensures var got := Delivered(old(bus.replies), len);
      (got == [] ==> rc == -1 && resp[..] == old(resp[..])) &&
      (got != [] ==> rc == 0 && (forall i :: 0 <= i < len ==> resp[i] == P.ReplyByte(got, i)) &&
                     resp[len..] == old(resp[len..]))
  {
    bus.RequestFrom(addr, len);
    ghost var got := bus.rx;
    var n := bus.Available();
    if n == 0 {
      return -1;
    }
    var i := 0;
    while i < len
      invariant 0 <= i <= len
      invariant bus.rx == if i <= |got| then got[i..] else []
      invariant forall k :: 0 <= k < i ==> resp[k] == P.ReplyByte(got, k)
      invariant forall k :: i <= k < resp.Length ==> resp[k] == old(resp[k])
      invariant bus.log == old(bus.log) + [Read(addr, len)]
      invariant bus.replies == Rest(old(bus.replies))
    {
      var b := bus.Receive();
      resp[i] := b;
      i := i + 1;
    }
    return 0;
  }

  // ----- Addressing -----

  /** `CtrlM_setAddress(newaddress)`: sends the confirmation-pattern frame to the
      general-call address. */
  method SetAddress(bus: Bus, newAddress: byte)
    modifies bus
    ensures bus.log == old(bus.log) + [Write(GeneralCall, P.Frame(P.SetAddress(newAddress)))]
    ensures bus.txAddr == GeneralCall && bus.tx == P.Frame(P.SetAddress(newAddress))
    ensures bus.replies == old(bus.replies) && bus.rx == old(bus.rx)
  {
    bus.BeginTransmission(GeneralCall);
    bus.Send('A' as int);
    bus.Send(newAddress);
    bus.Send(0xD0);
    bus.Send(0x0D);
    bus.Send(newAddress);
    assert bus.tx == P.Frame(P.SetAddress(newAddress));
    var _ := bus.EndTransmission();
  }

  /** `CtrlM_getAddress(addr)`: asks the device for its address; the echoed byte, or -1. */
  method GetAddress(bus: Bus, addr: byte) returns (r: int)
    modifies bus
    ensures bus.log == old(bus.log) + [Write(addr, P.Frame(P.GetAddress)), Read(addr, 1)]
    ensures bus.replies == Rest(old(bus.replies)) && bus.rx == []
    ensures r == P.ByteReply(Delivered(old(bus.replies), 1))
  {
    bus.BeginTransmission(addr);
    bus.Send('a' as int);
    assert bus.tx == P.Frame(P.GetAddress);
    var _ := bus.EndTransmission();
    bus.RequestFrom(addr, 1);
    var n := bus.Available();
    if n > 0 {
      var b := bus.Receive();
      return b;
    }
    return -1;
  }

  /** `CtrlM_checkAddress(addr)`: -1 without a reply, 1 if the device reports
      another address, 0 if it reports `addr`. */
  method CheckAddress(bus: Bus, addr: byte) returns (r: int)
    modifies bus
    ensures bus.log == old(bus.log) + [Write(addr, P.Frame(P.GetAddress)), Read(addr, 1)]
    ensures bus.replies == Rest(old(bus.replies)) && bus.rx == []
    ensures r == P.CheckAddressOf(addr, Delivered(old(bus.replies), 1))
  {
    var b := GetAddress(bus, addr);
    if b == -1 {
      return -1;
    }
    if b != addr {
      return 1;
    } else {
      return 0;
    }
  }

  /** `CtrlM_setSendAddress(addr, freem_addr, blinkm_addr)`. */
  method SetSendAddress(bus: Bus, addr: byte, freemAddr: byte, blinkmAddr: byte)
    modifies bus
    ensures bus.log == old(bus.log) + [Write(addr, P.Frame(P.SetSendAddress(freemAddr, blinkmAddr)))]
    ensures bus.txAddr == addr && bus.tx == P.Frame(P.SetSendAddress(freemAddr, blinkmAddr))
    ensures bus.replies == old(bus.replies) && bus.rx == old(bus.rx)
  {
    bus.BeginTransmission(addr);
    bus.Send('@' as int);
    bus.Send(freemAddr);
    bus.Send(blinkmAddr);
    bus.Send(0);
    assert bus.tx == P.Frame(P.SetSendAddress(freemAddr, blinkmAddr));
    var _ := bus.EndTransmission();
  }

  /** `CtrlM_writeFreeMAddress(addr, freem_addr)`: eight payload bytes, the last
      a checksum of the seven before it. */
  method WriteFreeMAddress(bus: Bus, addr: byte, freemAddr: byte)
    modifies bus
    ensures bus.log == old(bus.log) + [Write(addr, P.Frame(P.WriteFreeMAddress(freemAddr)))]
    ensures bus.txAddr == addr && bus.tx == P.Frame(P.WriteFreeMAddress(freemAddr))
    ensures bus.replies == old(bus.replies) && bus.rx == old(bus.rx)
  {
    var chksum := Truncate(0x55 + freemAddr + 0xff + 0xff + 0x00 + 0x00 + 0x00);
    bus.BeginTransmission(addr);
    bus.Send('!' as int);
    bus.Send(0x55);
    bus.Send(freemAddr);
    bus.Send(0xff);
    bus.Send(0xff);
    bus.Send(0x00);
    bus.Send(0x00);
    bus.Send(0x00);
    bus.Send(chksum);
    assert bus.tx == P.Frame(P.WriteFreeMAddress(freemAddr));
    var _ := bus.EndTransmission();
  }

  // ----- Identity -----

  /** `CtrlM_getVersion(addr)`: the major and minor version bytes packed as
      `(major << 8) + minor`, or -1 without a reply. */
  method GetVersion(bus: Bus, addr: byte) returns (r: int)
    modifies bus
    ensures bus.log == old(bus.log) + [Write(addr, P.Frame(P.GetVersion)), Read(addr, 2)]
    ensures bus.replies == Rest(old(bus.replies)) && bus.rx == []
    ensures r == P.VersionOf(Delivered(old(bus.replies), 2))
  {
    bus.BeginTransmission(addr);
    bus.Send('Z' as int);
    assert bus.tx == P.Frame(P.GetVersion);
    var _ := bus.EndTransmission();
    bus.RequestFrom(addr, 2);
    var n := bus.Available();
    if n > 0 {
      var majorVer := bus.Receive();
      var minorVer := bus.Receive();
      return majorVer as int * 0x100 + minorVer;
    }
    return -1;
  }

  // ----- Infrared -----

  /** `CtrlM_setIRFreq(addr, irfreq, duty_percent)`. */
  method SetIRFreq(bus: Bus, addr: byte, irFreq: u16, dutyPercent: byte)
    modifies bus
    ensures bus.log == old(bus.log) + [Write(addr, P.Frame(P.SetIRFreq(irFreq, dutyPercent)))]
    ensures bus.txAddr == addr && bus.tx == P.Frame(P.SetIRFreq(irFreq, dutyPercent))
    ensures bus.replies == old(bus.replies) && bus.rx == old(bus.rx)
  {
    bus.BeginTransmission(addr);
    bus.Send('#' as int);
    bus.Send(irFreq / 0x100);
    bus.Send(irFreq % 0x100);
    bus.Send(dutyPercent);
    assert bus.tx == P.Frame(P.SetIRFreq(irFreq, dutyPercent));
    var _ := bus.EndTransmission();
  }

  /** `CtrlM_turnIRLED(addr, on)`. */
  method TurnIRLED(bus: Bus, addr: byte, on: byte)
    modifies bus
    ensures bus.log == old(bus.log) + [Write(addr, P.Frame(P.TurnIRLED(on)))]
    ensures bus.txAddr == addr && bus.tx == P.Frame(P.TurnIRLED(on))
    ensures bus.replies == old(bus.replies) && bus.rx == old(bus.rx)
  {
    bus.BeginTransmission(addr);
    bus.Send('%' as int);
    bus.Send(on);
    bus.Send(0);
    bus.Send(0);
    assert bus.tx == P.Frame(P.TurnIRLED(on));
    var _ := bus.EndTransmission();
  }

  /** `CtrlM_sendIRCode(addr, codetype, code)`: the code goes out upper byte first. */
  method SendIRCode(bus: Bus, addr: byte, codeType: byte, code: u32)
    modifies bus
    ensures bus.log == old(bus.log) + [Write(addr, P.Frame(P.SendIRCode(codeType, code)))]
    ensures bus.txAddr == addr && bus.tx == P.Frame(P.SendIRCode(codeType, code))
    ensures bus.replies == old(bus.replies) && bus.rx == old(bus.rx)
  {
    bus.BeginTransmission(addr);
    bus.Send('$' as int);
    bus.Send(codeType);
    bus.Send((code / 0x100_0000) % 0x100);
    bus.Send((code / 0x1_0000) % 0x100);
    bus.Send((code / 0x100) % 0x100);
    bus.Send(code % 0x100);
    assert bus.tx == P.Frame(P.SendIRCode(codeType, code));
    var _ := bus.EndTransmission();
  }

  // ----- Colour and fading -----

  /** `CtrlM_setFadeSpeed(addr, fadespeed)`. */
  method SetFadeSpeed(bus: Bus, addr: byte, fadeSpeed: byte)
    modifies bus
    ensures bus.log == old(bus.log) + [Write(addr, P.Frame(P.SetFadeSpeed(fadeSpeed)))]
    ensures bus.txAddr == addr && bus.tx == P.Frame(P.SetFadeSpeed(fadeSpeed))
    ensures bus.replies == old(bus.replies) && bus.rx == old(bus.rx)
  {
    bus.BeginTransmission(addr);
    bus.Send('f' as int);
    bus.Send(fadeSpeed);
    assert bus.tx == P.Frame(P.SetFadeSpeed(fadeSpeed));
    var _ := bus.EndTransmission();
  }

  /** `CtrlM_setTimeAdj(addr, timeadj)`. */
  method SetTimeAdj(bus: Bus, addr: byte, timeAdj: byte)
    modifies bus
    ensures bus.log == old(bus.log) + [Write(addr, P.Frame(P.SetTimeAdj(timeAdj)))]
    ensures bus.txAddr == addr && bus.tx == P.Frame(P.SetTimeAdj(timeAdj))
    ensures bus.replies == old(bus.replies) && bus.rx == old(bus.rx)
  {
    bus.BeginTransmission(addr);
    bus.Send('t' as int);
    bus.Send(timeAdj);
    assert bus.tx == P.Frame(P.SetTimeAdj(timeAdj));
    var _ := bus.EndTransmission();
  }

  /** `CtrlM_fadeToRGB(addr, red, grn, blu)`. */
  method FadeToRGB(bus: Bus, addr: byte, red: byte, grn: byte, blu: byte)
    modifies bus
    ensures bus.log == old(bus.log) + [Write(addr, P.Frame(P.FadeToRGB(red, grn, blu)))]
    ensures bus.txAddr == addr && bus.tx == P.Frame(P.FadeToRGB(red, grn, blu))
    ensures bus.replies == old(bus.replies) && bus.rx == old(bus.rx)
  {
    bus.BeginTransmission(addr);
    bus.Send('c' as int);
    bus.Send(red);
    bus.Send(grn);
    bus.Send(blu);
    assert bus.tx == P.Frame(P.FadeToRGB(red, grn, blu));
    var _ := bus.EndTransmission();
  }

  /** `CtrlM_fadeToHSB(addr, hue, saturation, brightness)`. */
  method FadeToHSB(bus: Bus, addr: byte, hue: byte, saturation: byte, brightness: byte)
    modifies bus
    ensures bus.log == old(bus.log) + [Write(addr, P.Frame(P.FadeToHSB(hue, saturation, brightness)))]
    ensures bus.txAddr == addr && bus.tx == P.Frame(P.FadeToHSB(hue, saturation, brightness))
    ensures bus.replies == old(bus.replies) && bus.rx == old(bus.rx)
  {
    bus.BeginTransmission(addr);
    bus.Send('h' as int);
    bus.Send(hue);
    bus.Send(saturation);
    bus.Send(brightness);
    assert bus.tx == P.Frame(P.FadeToHSB(hue, saturation, brightness));
    var _ := bus.EndTransmission();
  }

  /** `CtrlM_setRGB(addr, red, grn, blu)`. */
  method SetRGB(bus: Bus, addr: byte, red: byte, grn: byte, blu: byte)
    modifies bus
    ensures bus.log == old(bus.log) + [Write(addr, P.Frame(P.SetRGB(red, grn, blu)))]
    ensures bus.txAddr == addr && bus.tx == P.Frame(P.SetRGB(red, grn, blu))
    ensures bus.replies == old(bus.replies) && bus.rx == old(bus.rx)
  {
    bus.BeginTransmission(addr);
    bus.Send('n' as int);
    bus.Send(red);
    bus.Send(grn);
    bus.Send(blu);
    assert bus.tx == P.Frame(P.SetRGB(red, grn, blu));
    var _ := bus.EndTransmission();
  }

  /** `CtrlM_fadeToRandomRGB(addr, rrnd, grnd, brnd)`. */
  method FadeToRandomRGB(bus: Bus, addr: byte, rrnd: byte, grnd: byte, brnd: byte)
    modifies bus
    ensures bus.log == old(bus.log) + [Write(addr, P.Frame(P.FadeToRandomRGB(rrnd, grnd, brnd)))]
    ensures bus.txAddr == addr && bus.tx == P.Frame(P.FadeToRandomRGB(rrnd, grnd, brnd))
    ensures bus.replies == old(bus.replies) && bus.rx == old(bus.rx)
  {
    bus.BeginTransmission(addr);
    bus.Send('C' as int);
    bus.Send(rrnd);
    bus.Send(grnd);
    bus.Send(brnd);
    assert bus.tx == P.Frame(P.FadeToRandomRGB(rrnd, grnd, brnd));
    var _ := bus.EndTransmission();
  }

  /** `CtrlM_fadeToRandomHSB(addr, hrnd, srnd, brnd)`. */
  method FadeToRandomHSB(bus: Bus, addr: byte, hrnd: byte, srnd: byte, brnd: byte)
    modifies bus
    ensures bus.log == old(bus.log) + [Write(addr, P.Frame(P.FadeToRandomHSB(hrnd, srnd, brnd)))]
    ensures bus.txAddr == addr && bus.tx == P.Frame(P.FadeToRandomHSB(hrnd, srnd, brnd))
    ensures bus.replies == old(bus.replies) && bus.rx == old(bus.rx)
  {
    bus.BeginTransmission(addr);
    bus.Send('H' as int);
    bus.Send(hrnd);
    bus.Send(srnd);
    bus.Send(brnd);
    assert bus.tx == P.Frame(P.FadeToRandomHSB(hrnd, srnd, brnd));
    var _ := bus.EndTransmission();
  }

  /** `CtrlM_getRGBColor(addr, r, g, b)`: on a reply, writes the three received
      bytes through `r`, `g`, `b` in that order (so with aliased pointers the
      later write wins); without a reply leaves all three untouched. */
  method GetRGBColor(bus: Bus, addr: byte, r: ByteVar, g: ByteVar, b: ByteVar)
    modifies bus, r, g, b
    ensures bus.log == old(bus.log) + [Write(addr, P.Frame(P.GetRGBColor)), Read(addr, 3)]
    ensures bus.replies == Rest(old(bus.replies)) && bus.rx == []
    ensures var got := Delivered(old(bus.replies), 3);
      (got == [] ==> r.value == old(r.value) && g.value == old(g.value) && b.value == old(b.value)) &&
      (got != [] ==> b.value == P.ReplyByte(got, 2) &&
                     (g != b ==> g.value == P.ReplyByte(got, 1)) &&
                     (r != g && r != b ==> r.value == P.ReplyByte(got, 0)))
  {
    bus.BeginTransmission(addr);
    bus.Send('g' as int);
    assert bus.tx == P.Frame(P.GetRGBColor);
    var _ := bus.EndTransmission();
    bus.RequestFrom(addr, 3);
    var n := bus.Available();
    if n > 0 {
      var x := bus.Receive();
      r.value := x;
      x := bus.Receive();
      g.value := x;
      x := bus.Receive();
      b.value := x;
    }
  }

  // ----- Light scripts -----

  /** `CtrlM_stopScript(addr)`. */
  method StopScript(bus: Bus, addr: byte)
    modifies bus
    ensures bus.log == old(bus.log) + [Write(addr, P.Frame(P.StopScript))]
    ensures bus.txAddr == addr && bus.tx == P.Frame(P.StopScript)
    ensures bus.replies == old(bus.replies) && bus.rx == old(bus.rx)
  {
    bus.BeginTransmission(addr);
    bus.Send('o' as int);
    assert bus.tx == P.Frame(P.StopScript);
    var _ := bus.EndTransmission();
  }

  /** `CtrlM_playScript(addr, script_id, reps, pos)`. */
  method PlayScript(bus: Bus, addr: byte, scriptId: byte, reps: byte, pos: byte)
    modifies bus
    ensures bus.log == old(bus.log) + [Write(addr, P.Frame(P.PlayScript(scriptId, reps, pos)))]
    ensures bus.txAddr == addr && bus.tx == P.Frame(P.PlayScript(scriptId, reps, pos))
    ensures bus.replies == old(bus.replies) && bus.rx == old(bus.rx)
  {
    bus.BeginTransmission(addr);
    bus.Send('p' as int);
    bus.Send(scriptId);
    bus.Send(reps);
    bus.Send(pos);
    assert bus.tx == P.Frame(P.PlayScript(scriptId, reps, pos));
    var _ := bus.EndTransmission();
  }

  /** `CtrlM_stopCtrlMScript(addr)`. */
  method StopCtrlMScript(bus: Bus, addr: byte)
    modifies bus
    ensures bus.log == old(bus.log) + [Write(addr, P.Frame(P.StopCtrlMScript))]
    ensures bus.txAddr == addr && bus.tx == P.Frame(P.StopCtrlMScript)
    ensures bus.replies == old(bus.replies) && bus.rx == old(bus.rx)
  {
    bus.BeginTransmission(addr);
    bus.Send('O' as int);
    assert bus.tx == P.Frame(P.StopCtrlMScript);
    var _ := bus.EndTransmission();
  }

  /** `CtrlM_playCtrlMScript(addr, reps, pos)`: a fixed 0 precedes the arguments. */
  method PlayCtrlMScript(bus: Bus, addr: byte, reps: byte, pos: byte)
    modifies bus
    ensures bus.log == old(bus.log) + [Write(addr, P.Frame(P.PlayCtrlMScript(reps, pos)))]
    ensures bus.txAddr == addr && bus.tx == P.Frame(P.PlayCtrlMScript(reps, pos))
    ensures bus.replies == old(bus.replies) && bus.rx == old(bus.rx)
  {
    bus.BeginTransmission(addr);
    bus.Send('P' as int);
    bus.Send(0);
    bus.Send(reps);
    bus.Send(pos);
    assert bus.tx == P.Frame(P.PlayCtrlMScript(reps, pos));
    var _ := bus.EndTransmission();
  }

  /** `CtrlM_setStartupParams(addr, mode, script_id, reps, fadespeed, timeadj)`. */
  method SetStartupParams(bus: Bus, addr: byte, mode: byte, scriptId: byte, reps: byte,
                          fadeSpeed: byte, timeAdj: byte)
    modifies bus
    ensures bus.log == old(bus.log) +
      [Write(addr, P.Frame(P.SetStartupParams(mode, scriptId, reps, fadeSpeed, timeAdj)))]
    ensures bus.txAddr == addr && bus.tx == P.Frame(P.SetStartupParams(mode, scriptId, reps, fadeSpeed, timeAdj))
    ensures bus.replies == old(bus.replies) && bus.rx == old(bus.rx)
  {
    bus.BeginTransmission(addr);
    bus.Send('B' as int);
    bus.Send(mode);
    bus.Send(scriptId);
    bus.Send(reps);
    bus.Send(fadeSpeed);
    bus.Send(timeAdj);
    assert bus.tx == P.Frame(P.SetStartupParams(mode, scriptId, reps, fadeSpeed, timeAdj));
    var _ := bus.EndTransmission();
  }

  // ----- Digital inputs -----

  /** `CtrlM_getInputsO(addr)`: the input bitfield byte, or -1 without a reply. */
  method GetInputsO(bus: Bus, addr: byte) returns (r: int)
    modifies bus
    ensures bus.log == old(bus.log) + [Write(addr, P.Frame(P.GetInputs)), Read(addr, 1)]
    ensures bus.replies == Rest(old(bus.replies)) && bus.rx == []
    ensures r == P.ByteReply(Delivered(old(bus.replies), 1))
  {
    bus.BeginTransmission(addr);
    bus.Send('i' as int);
    assert bus.tx == P.Frame(P.GetInputs);
    var _ := bus.EndTransmission();
    bus.RequestFrom(addr, 1);
    var n := bus.Available();
    if n > 0 {
      var b := bus.Receive();
      return b;
    }
    return -1;
  }

  /** `CtrlM_getInputs(addr, inputs)`: requests four bytes and stores them in
      `inputs[0..4)`. The library waits without bound until four bytes are
      pending; the model covers only the case where the reply has them. */
  method GetInputs(bus: Bus, addr: byte, inputs: array<byte>) returns (r: int)
    requires inputs.Length >= 4
    requires |NextReply(bus.replies)| >= 4
    modifies bus, inputs
    ensures bus.log == old(bus.log) + [Write(addr, P.Frame(P.GetInputs)), Read(addr, 4)]
    ensures bus.replies == Rest(old(bus.replies)) && bus.rx == []
    ensures r == 0
    ensures inputs[..4] == NextReply(old(bus.replies))[..4]
    ensures inputs[4..] == old(inputs[4..])
  {
    bus.BeginTransmission(addr);
    bus.Send('i' as int);
    assert bus.tx == P.Frame(P.GetInputs);
    var _ := bus.EndTransmission();
    bus.RequestFrom(addr, 4);
    var n := bus.Available();
    assert n >= 4;
    var b := bus.Receive();
    inputs[0] := b;
    b := bus.Receive();
    inputs[1] := b;
    b := bus.Receive();
    inputs[2] := b;
    b := bus.Receive();
    inputs[3] := b;
    return 0;
  }
}
