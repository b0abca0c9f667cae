/** The firmware's I2C transaction layer over the TM4C123 master. The
    master is modelled as a bus object that records every driverlib call
    the firmware makes (slave address and direction, data put, control
    command) and that is fed by the slave with a queue of bytes: each
    receive command latches the next byte into the master's data register,
    where I2CMasterDataGet finds it. Each `while (I2CMasterBusy(...))` spin
    is a completed step and leaves no trace. */
module I2c {
  import opened CInt
  import opened Bmp180

  /** The I2C_MASTER_CMD_* codes the firmware issues. */
  datatype MasterCommand =
    | SingleSend
    | SingleReceive
    | BurstSendStart
    | BurstSendFinish
    | BurstReceiveStart
    | BurstReceiveCont
    | BurstReceiveFinish

  /** Whether a command clocks one byte in from the slave. */
  predicate IsReceive(cmd: MasterCommand) {
    cmd.SingleReceive? || cmd.BurstReceiveStart? || cmd.BurstReceiveCont? || cmd.BurstReceiveFinish?
  }

  /** One driverlib call on the master. */
  datatype BusEvent =
    | AddressSet(address: byte, receive: bool)
    | DataPut(value: byte)
    | Control(command: MasterCommand)

  /** The byte a receive latches: the slave's next byte, or 0xFF (the idle,
      pulled-up bus) when the slave has nothing more to send. */
  function NextByte(rx: seq<byte>): byte {
    if rx == [] then 0xFF else rx[0]
  }

  function AfterNext(rx: seq<byte>): seq<byte> {
    if rx == [] then [] else rx[1..]
  }

  /** The n bytes n receives latch from the queue rx, in order. */
  function Supply(rx: seq<byte>, n: nat): (s: seq<byte>)
    ensures |s| == n
  {
    seq(n, i requires 0 <= i < n => if i < |rx| then rx[i] else 0xFF)
  }

  /** What is left of the queue after n receives. */
  function Remaining(rx: seq<byte>, n: nat): seq<byte> {
    if n <= |rx| then rx[n..] else []
  }

  /** One more receive takes the head of what is left of the queue. */
  lemma SupplyStep(rx: seq<byte>, n: nat)
    ensures Supply(rx, n + 1) == Supply(rx, n) + [NextByte(Remaining(rx, n))]
    ensures Remaining(rx, n + 1) == AfterNext(Remaining(rx, n))
  {
    assert Supply(rx, n + 1)[n] == NextByte(Remaining(rx, n));
  }

  /** The I2C0 master together with the slave's side of the wire. */
  class Bus {
    /** Every call made on the master so far, oldest first. */
    var trace: seq<BusEvent>
    /** The bytes the slave will send, in order. */
    var rx: seq<byte>
    /** The master's receive data register. */
    var latched: byte

    constructor(incoming: seq<byte>)
      ensures trace == [] && rx == incoming && latched == 0xFF
    {
      trace := [];
      rx := incoming;
      latched := 0xFF;
    }

    /** I2CMasterSlaveAddrSet. */
    method MasterSlaveAddrSet(address: byte, receive: bool)
      modifies this
      ensures trace == old(trace) + [AddressSet(address, receive)]
      ensures rx == old(rx) && latched == old(latched)
    {
      trace := trace + [AddressSet(address, receive)];
    }

    /** I2CMasterDataPut. */
    method MasterDataPut(value: byte)
      modifies this
      ensures trace == old(trace) + [DataPut(value)]
      ensures rx == old(rx) && latched == old(latched)
    {
      trace := trace + [DataPut(value)];
    }

    /** I2CMasterControl, followed by the wait until the master is idle: a
        receive command latches one byte from the slave. */
    method MasterControl(cmd: MasterCommand)
      modifies this
      ensures trace == old(trace) + [Control(cmd)]
      ensures IsReceive(cmd) ==> latched == NextByte(old(rx)) && rx == AfterNext(old(rx))
      ensures !IsReceive(cmd) ==> latched == old(latched) && rx == old(rx)
    {
      trace := trace + [Control(cmd)];
      if IsReceive(cmd) {
        latched := NextByte(rx);
        rx := AfterNext(rx);
      }
    }

    /** I2CMasterDataGet: reads the data register and changes nothing. */
    method MasterDataGet() returns (b: byte)
      ensures b == latched
    {
      b := latched;
    }
  }

  /** The calls I2C_write makes: address the sensor for transmit, send the
      register with a burst start, then the value with a burst finish. */
  function WriteFrame(reg: byte, value: byte): seq<BusEvent> {
    [AddressSet(SlaveAddress, false), DataPut(reg), Control(BurstSendStart),
     DataPut(value), Control(BurstSendFinish)]
  }

  /** The register-pointer phase of I2C_read_multiple: the register sent in
      a single transmit, then the master turned round to receive. */
  function PointerPhase(reg: byte): seq<BusEvent> {
    [AddressSet(SlaveAddress, false), DataPut(reg), Control(SingleSend), AddressSet(SlaveAddress, true)]
  }

  /** k copies of one event. */
  function Repeat(e: BusEvent, k: nat): (s: seq<BusEvent>)
    ensures |s| == k
  {
    if k == 0 then [] else Repeat(e, k - 1) + [e]
  }

  /** The receive commands for an n-byte read: one single receive for one
      byte; otherwise a burst start, n - 2 continues and a finish. */
  function ReceivePhases(n: nat): seq<BusEvent>
    requires n >= 1
  {
    if n == 1 then [Control(SingleReceive)]
    else [Control(BurstReceiveStart)] + Repeat(Control(BurstReceiveCont), n - 2) + [Control(BurstReceiveFinish)]
  }

  /** The calls I2C_read_multiple makes for a read of n >= 1 bytes. */
  function ReadFrame(reg: byte, n: nat): seq<BusEvent>
    requires n >= 1
  {
    PointerPhase(reg) + ReceivePhases(n)
  }

  /** The number of receive commands in a trace: the number of bytes the
      master clocks in from the slave. */
  function Receives(t: seq<BusEvent>): nat {
    if t == [] then 0
    else (if IsReceiveEvent(t[0]) then 1 else 0) + Receives(t[1..])
  }

  lemma {:induction false} ReceivesAppend(a: seq<BusEvent>, b: seq<BusEvent>)
    ensures Receives(a + b) == Receives(a) + Receives(b)
  {
    if a == [] {
      assert a + b == b;
    } else {
      assert (a + b)[1..] == a[1..] + b;
      ReceivesAppend(a[1..], b);
    }
  }

  /** Whether an event clocks a byte in. */
  predicate IsReceiveEvent(e: BusEvent) {
    e.Control? && IsReceive(e.command)
  }

  lemma {:induction false} NoReceives(t: seq<BusEvent>)
    requires forall i :: 0 <= i < |t| ==> !IsReceiveEvent(t[i])
    ensures Receives(t) == 0
  {
    if t != [] {
      NoReceives(t[1..]);
    }
  }

  lemma {:induction false} ReceivesRepeat(cmd: MasterCommand, k: nat)
    ensures Receives(Repeat(Control(cmd), k)) == if IsReceive(cmd) then k else 0
  {
    if k > 0 {
      ReceivesRepeat(cmd, k - 1);
      ReceivesAppend(Repeat(Control(cmd), k - 1), [Control(cmd)]);
    }
  }

  lemma {:induction false} RepeatAt(e: BusEvent, k: nat, j: nat)
    requires j < k
    ensures Repeat(e, k)[j] == e
  {
    if j < k - 1 {
      RepeatAt(e, k - 1, j);
    }
  }

  /** An n-byte read clocks in exactly n bytes, and a register write none:
      the framing agrees with what ReadMultiple stores. */
  lemma FrameReceives(reg: byte, value: byte, n: nat)
    requires n >= 1
    ensures Receives(ReadFrame(reg, n)) == n
    ensures Receives(WriteFrame(reg, value)) == 0
  {
    NoReceives(WriteFrame(reg, value));
    NoReceives(PointerPhase(reg));
    ReceivesAppend(PointerPhase(reg), ReceivePhases(n));
    if n == 1 {
      assert Receives(ReceivePhases(n)) == 1 + Receives([]);
    } else {
      var start, conts, finish := [Control(BurstReceiveStart)], Repeat(Control(BurstReceiveCont), n - 2),
        [Control(BurstReceiveFinish)];
      ReceivesAppend(start, conts);
      ReceivesAppend(start + conts, finish);
      ReceivesRepeat(BurstReceiveCont, n - 2);
      assert Receives(start) == 1 + Receives([]);
      assert Receives(finish) == 1 + Receives([]);
    }
  }

  /** The receive commands of a read of two or more bytes, position by
      position: a burst start first, a burst finish last and burst
      continues in between; a one-byte read is a single receive. */
  lemma ReceivePhasesOrder(n: nat, j: nat)
    requires 1 <= n && j < n
    ensures |ReceivePhases(n)| == n
    ensures ReceivePhases(n)[j] == Control(
      if n == 1 then SingleReceive
      else if j == 0 then BurstReceiveStart
      else if j == n - 1 then BurstReceiveFinish
      else BurstReceiveCont)
  {
    if n >= 2 && 0 < j < n - 1 {
      RepeatAt(Control(BurstReceiveCont), n - 2, j - 1);
    }
  }

  /** Two consecutive reads of a and b bytes receive what one read of
      a + b bytes would, and leave the same queue behind. */
  lemma SupplySplit(rx: seq<byte>, a: nat, b: nat)
    ensures Supply(rx, a + b) == Supply(rx, a) + Supply(Remaining(rx, a), b)
    ensures Remaining(rx, a + b) == Remaining(Remaining(rx, a), b)
  {
    var whole, parts := Supply(rx, a + b), Supply(rx, a) + Supply(Remaining(rx, a), b);
    forall i | 0 <= i < a + b
      ensures whole[i] == parts[i]
    {
      if i >= a {
        assert parts[i] == Supply(Remaining(rx, a), b)[i - a];
      }
    }
  }

  /** While the slave has bytes left, a read takes exactly the next ones
      from the queue: nothing is lost or repeated. */
  lemma SupplyExact(rx: seq<byte>, n: nat)
    requires n <= |rx|
    ensures Supply(rx, n) == rx[..n]
    ensures Supply(rx, n) + Remaining(rx, n) == rx
  {
    assert rx[..n] + rx[n..] == rx;
  }

  lemma Regroup<T>(a: seq<T>, b: seq<T>, c: seq<T>, d: seq<T>)
    ensures (a + b) + c + d == a + (b + (c + d))
  {
  }

  /** I2C_write: one register write, nothing received. */
  method Write(bus: Bus, reg: byte, value: byte)
    modifies bus
    ensures bus.trace == old(bus.trace) + WriteFrame(reg, value)
    ensures bus.rx == old(bus.rx) && bus.latched == old(bus.latched)
  {
    bus.MasterSlaveAddrSet(SlaveAddress, false);
    bus.MasterDataPut(reg);
    bus.MasterControl(BurstSendStart);
    bus.MasterDataPut(value);
    bus.MasterControl(BurstSendFinish);
  }

  /** One receive phase of I2C_read_multiple: issue a receive command, wait,
      and store the byte it latched at data[i]. Having consumed i bytes of
      the queue rx0 before, the read has now consumed i + 1. */
  method ReceiveInto(bus: Bus, cmd: MasterCommand, data: array<byte>, i: nat, ghost rx0: seq<byte>)
    requires IsReceive(cmd) && i < data.Length
    requires data[..i] == Supply(rx0, i) && bus.rx == Remaining(rx0, i)
    modifies bus, data
    ensures bus.trace == old(bus.trace) + [Control(cmd)]
    ensures data[..i + 1] == Supply(rx0, i + 1) && data[i + 1..] == old(data[i + 1..])
    ensures bus.rx == Remaining(rx0, i + 1)
  {
    ghost var before := data[..];
    bus.MasterControl(cmd);
    var b := bus.MasterDataGet();
    data[i] := b;
    SupplyStep(rx0, i);
    assert data[..i + 1] == before[..i] + [b];
    assert data[i + 1..] == before[i + 1..];
  }

  /** I2C_read_multiple: reads count bytes starting at reg into
      data[0..count). A zero count does nothing and returns 0; otherwise
      the bytes land in data in the order the slave sent them, nothing
      else in data changes, and the result is 1. */
  method ReadMultiple(bus: Bus, reg: byte, count: byte, data: array<byte>) returns (r: uint32)
    requires count <= data.Length
    modifies bus, data
    ensures count == 0 ==> r == 0 && bus.trace == old(bus.trace) && bus.rx == old(bus.rx)
    ensures count == 0 ==> bus.latched == old(bus.latched) && data[..] == old(data[..])
    ensures count > 0 ==> r == 1 && bus.trace == old(bus.trace) + ReadFrame(reg, count)
    ensures count > 0 ==> data[..count] == Supply(old(bus.rx), count) && data[count..] == old(data[count..])
    ensures count > 0 ==> bus.rx == Remaining(old(bus.rx), count)
  {
    if count == 0 {
      return 0;
    }
    ghost var rx0 := bus.rx;
    bus.MasterSlaveAddrSet(SlaveAddress, false);
    bus.MasterDataPut(reg);
    bus.MasterControl(SingleSend);
    bus.MasterSlaveAddrSet(SlaveAddress, true);
    assert bus.trace == old(bus.trace) + PointerPhase(reg);
    ghost var pointed := bus.trace;
    if count == 1 {
      ReceiveInto(bus, SingleReceive, data, 0, rx0);
      return 1;
    }
    ReceiveInto(bus, BurstReceiveStart, data, 0, rx0);
    var i, left := 1, count - 1;
    while left > 1
      invariant 1 <= i && i + left == count as int && left >= 1
      invariant bus.trace == pointed + ([Control(BurstReceiveStart)] + Repeat(Control(BurstReceiveCont), i - 1))
      invariant data[..i] == Supply(rx0, i) && data[i..] == old(data[i..])
      invariant bus.rx == Remaining(rx0, i)
    {
      assert data[i + 1..] == old(data[i + 1..]) by {
        assert data[i + 1..] == data[i..][1..];
      }
      ReceiveInto(bus, BurstReceiveCont, data, i, rx0);
      i, left := i + 1, left - 1;
    }
    assert data[i + 1..] == old(data[i + 1..]) by {
      assert data[i + 1..] == data[i..][1..];
    }
    ReceiveInto(bus, BurstReceiveFinish, data, i, rx0);
    Regroup(old(bus.trace), PointerPhase(reg), [Control(BurstReceiveStart)] + Repeat(Control(BurstReceiveCont), i - 1),
      [Control(BurstReceiveFinish)]);
    return 1;
  }
}
