/** The two-wire bus as the CtrlM library sees it through the Arduino `Wire`
    object and `twi_writeTo`. The electrical protocol is replaced by a log of
    transactions, a fixed set of addresses at which a device acknowledges, and
    a script of the replies devices give to read requests, consumed in order. */
module Wire {
  import opened Bytes

  /** One bus transaction: a write of some bytes to an address (a zero-length
      write is a presence probe), or a read request for a number of bytes. */
  datatype Transaction = Write(addr: byte, data: seq<byte>) | Read(addr: byte, count: byte)

  /** The general-call (broadcast) address. */
  const GeneralCall: byte := 0

  /** Status reported when no device acknowledges a write. */
  const NackStatus: byte := 2

  /** Status of a write to `addr`: 0 if a device acknowledges, otherwise `NackStatus`. */
  function WriteStatus(acks: set<byte>, addr: byte): (status: byte)
    ensures status == 0 <==> addr in acks
  {
    if addr in acks then 0 else NackStatus
  }

  /** The reply the device gives to the next read request; none when the script is exhausted. */
  function NextReply(replies: seq<seq<byte>>): (reply: seq<byte>)
    ensures replies != [] ==> reply == replies[0]
  {
    if replies == [] then [] else replies[0]
  }

  /** The scripted replies left after one read request. */
  function Rest(replies: seq<seq<byte>>): (rest: seq<seq<byte>>)
    ensures replies != [] ==> [NextReply(replies)] + rest == replies
  {
    if replies == [] then [] else replies[1..]
  }

  /** The bytes a read request for `count` bytes delivers: the next reply, cut to `count`. */
  function Delivered(replies: seq<seq<byte>>, count: nat): (rx: seq<byte>)
    ensures |rx| <= count && |rx| <= |NextReply(replies)|
    ensures rx == NextReply(replies)[..|rx|]
    ensures |rx| < count ==> rx == NextReply(replies)
  {
    var r := NextReply(replies);
    if |r| <= count then r else r[..count]
  }

  /** The presence probes of the addresses `lo` .. `hi - 1`, in ascending order. */
  function Probes(lo: nat, hi: nat): (ps: seq<Transaction>)
    requires hi <= 0x100
    ensures |ps| == if lo <= hi then hi - lo else 0
    ensures forall k :: 0 <= k < |ps| ==> ps[k] == Write(lo + k, [])
    decreases hi
  {
    if hi <= lo then [] else Probes(lo, hi - 1) + [Write(hi - 1, [])]
  }

  class Bus {
    /** Every transaction so far, oldest first. */
    var log: seq<Transaction>
    /** Addresses at which a device acknowledges. */
    const acks: set<byte>
    /** Replies still to be given to read requests, in order. */
    var replies: seq<seq<byte>>
    /** Received bytes not yet consumed. */
    var rx: seq<byte>
    /** The transmission being assembled: its address and the bytes queued so far. */
    var txAddr: byte
    var tx: seq<byte>

    constructor (acks: set<byte>, replies: seq<seq<byte>>)
      ensures this.acks == acks && this.replies == replies
      ensures log == [] && rx == [] && tx == []
    {
      this.acks := acks;
      this.replies := replies;
      log := [];
      rx := [];
      txAddr := 0;
      tx := [];
    }

    /** `Wire.beginTransmission(addr)`: starts a transmission with an empty queue. */
    method BeginTransmission(addr: byte)
      modifies this`txAddr, this`tx
      ensures txAddr == addr && tx == []
    {
      txAddr := addr;
      tx := [];
    }

    /** `Wire.send(b)`: queues one byte. */
    method Send(b: byte)
      modifies this`tx
      ensures tx == old(tx) + [b]
    {
      tx := tx + [b];
    }

    /** `Wire.endTransmission()`: puts the queued bytes on the bus as one write. */
    method EndTransmission() returns (status: byte)
      modifies this`log
      ensures log == old(log) + [Write(txAddr, tx)]
      ensures status == WriteStatus(acks, txAddr)
    {
      log := log + [Write(txAddr, tx)];
      status := WriteStatus(acks, txAddr);
    }

    /** `twi_writeTo(addr, data, len, wait)`: one write outside the `Wire` queue;
        with no data it probes whether a device answers at `addr`. */
    method WriteTo(addr: byte, data: seq<byte>) returns (status: byte)
      modifies this`log
      ensures log == old(log) + [Write(addr, data)]
      ensures status == WriteStatus(acks, addr)
      ensures status == 0 <==> addr in acks
    {
      log := log + [Write(addr, data)];
      status := WriteStatus(acks, addr);
    }

    /** `Wire.requestFrom(addr, count)`: reads up to `count` bytes of the next reply. */
    method RequestFrom(addr: byte, count: byte)
      modifies this`log, this`replies, this`rx
      ensures log == old(log) + [Read(addr, count)]
      ensures rx == Delivered(old(replies), count)
      ensures replies == Rest(old(replies))
    {
      log := log + [Read(addr, count)];
      rx := Delivered(replies, count);
      replies := Rest(replies);
    }

    /** `Wire.available()`: number of received bytes not yet consumed. */
    method Available() returns (n: nat)
      ensures n == |rx|
    {
      n := |rx|;
    }

    /** `Wire.receive()`: consumes the next received byte, or gives 0 when none is pending. */
    method Receive() returns (b: byte)
      modifies this`rx
      ensures old(rx) != [] ==> b == old(rx)[0] && rx == old(rx)[1..]
      ensures old(rx) == [] ==> b == 0 && rx == []
    {
      if rx == [] {
        b := 0;
      } else {
        b := rx[0];
        rx := rx[1..];
      }
    }
  }
}
