/** The I2C target's write path: bytes of one transaction become at most one queued register write. */
module I2cTarget {
  import opened Arith
  import opened RegisterSpec
  import opened Subsequences

  const RX_BUFFER_LENGTH: nat := MAX_PAYLOAD_LENGTH + 1
  const WRITE_QUEUE_LENGTH: nat := 8

  /** A queued register write. */
  datatype Write = Write(reg: Byte, data: seq<Byte>)

  /** The bits of the error word. */
  datatype ErrorFlag = RxOverflow | DroppedWrite | TxUnderflow | ArbitrationLost | InterruptOverflow | BusStuckRecovery

  datatype Target = Target(
    rx: seq<Byte>, overflow: bool, selected: Byte, queue: seq<Write>, dropped: Word32, errors: set<ErrorFlag>,
    recoveries: Word32)

  /** The first byte of a transaction selects the register that reads start at. */
  function StoreByte(t: Target, value: Byte): Target {
    if |t.rx| < RX_BUFFER_LENGTH
    then t.(rx := t.rx + [value], selected := if t.rx == [] then value else t.selected)
    else t.(overflow := true, errors := t.errors + {RxOverflow})
  }

  function QueueWrite(t: Target): Target {
    if |t.rx| <= 1 || t.overflow then t
    else if |t.queue| >= WRITE_QUEUE_LENGTH
    then t.(dropped := Wrap32(t.dropped + 1), errors := t.errors + {DroppedWrite})
    else t.(queue := t.queue + [Write(t.rx[0], t.rx[1..])])
  }

  function ResetRx(t: Target): Target {
    t.(rx := [], overflow := false)
  }

  function Wrapped(slot: nat): nat {
    if slot < WRITE_QUEUE_LENGTH then slot else slot - WRITE_QUEUE_LENGTH
  }

  class I2cTarget {
    var selectedReg: Byte
    const rxBuffer: array<Byte>
    const writeReg: array<Byte>
    const writeLength: array<Byte>
    const writeData: array2<Byte>
    var rxCount: nat
    var rxOverflowCurrent: bool
    var writeHead: nat
    var writeTail: nat
    var writeCount: nat
    var droppedWrites: Word32
    var errorFlags: set<ErrorFlag>
    var recoveryCount: Word32

    ghost predicate Valid()
      reads this, writeLength
    {
      rxBuffer.Length == RX_BUFFER_LENGTH && rxBuffer != writeReg && rxBuffer != writeLength &&
      rxCount <= RX_BUFFER_LENGTH && QueueValid()
    }

    ghost predicate QueueValid()
      reads `writeHead, `writeTail, `writeCount, writeLength
    {
      writeReg.Length == WRITE_QUEUE_LENGTH && writeLength.Length == WRITE_QUEUE_LENGTH && writeReg != writeLength &&
      writeData.Length0 == WRITE_QUEUE_LENGTH && writeData.Length1 == MAX_PAYLOAD_LENGTH &&
      writeHead < WRITE_QUEUE_LENGTH && writeCount <= WRITE_QUEUE_LENGTH &&
      writeTail == Wrapped(writeHead + writeCount) &&
      forall i :: 0 <= i < WRITE_QUEUE_LENGTH ==> writeLength[i] <= MAX_PAYLOAD_LENGTH
    }

    /** The write stored in one slot of the ring. */
    ghost function Slot(slot: nat): Write
      requires writeReg.Length == WRITE_QUEUE_LENGTH && writeLength.Length == WRITE_QUEUE_LENGTH
      requires writeData.Length0 == WRITE_QUEUE_LENGTH && writeData.Length1 == MAX_PAYLOAD_LENGTH
      requires slot < WRITE_QUEUE_LENGTH && writeLength[slot] <= MAX_PAYLOAD_LENGTH
      reads writeReg, writeLength, writeData
    {
      Write(writeReg[slot],
            seq(writeLength[slot], i
              requires 0 <= i < MAX_PAYLOAD_LENGTH && writeData.Length0 == WRITE_QUEUE_LENGTH &&
                       writeData.Length1 == MAX_PAYLOAD_LENGTH
              reads writeData => writeData[slot, i]))
    }

    ghost function Queue(): seq<Write>
      requires QueueValid()
      reads `writeHead, `writeTail, `writeCount, writeReg, writeLength, writeData
    {
      QueuePart(writeHead, writeCount)
    }

    /** The writes in `count` slots starting at `head`. */
    ghost function QueuePart(head: nat, count: nat): (q: seq<Write>)
      requires writeReg.Length == WRITE_QUEUE_LENGTH && writeLength.Length == WRITE_QUEUE_LENGTH
      requires writeData.Length0 == WRITE_QUEUE_LENGTH && writeData.Length1 == MAX_PAYLOAD_LENGTH
      requires forall i :: 0 <= i < WRITE_QUEUE_LENGTH ==> writeLength[i] <= MAX_PAYLOAD_LENGTH
      requires head < WRITE_QUEUE_LENGTH && count <= WRITE_QUEUE_LENGTH
      reads writeReg, writeLength, writeData
      ensures |q| == count && forall k :: 0 <= k < count ==> q[k] == Slot(Wrapped(head + k))
      decreases count
    {
      if count == 0 then [] else QueuePart(head, count - 1) + [Slot(Wrapped(head + count - 1))]
    }

    ghost function View(): Target
      requires Valid()
      reads this, rxBuffer, writeReg, writeLength, writeData
    {
      Target(rxBuffer[..rxCount], rxOverflowCurrent, selectedReg, Queue(), droppedWrites, errorFlags, recoveryCount)
    }

    constructor ()
      ensures Valid() && View() == POWERED_UP
      ensures fresh(rxBuffer) && fresh(writeReg) && fresh(writeLength) && fresh(writeData)
    {
      rxBuffer := new Byte[RX_BUFFER_LENGTH](i => 0);
      writeReg := new Byte[WRITE_QUEUE_LENGTH](i => 0);
      writeLength := new Byte[WRITE_QUEUE_LENGTH](i => 0);
      writeData := new Byte[WRITE_QUEUE_LENGTH, MAX_PAYLOAD_LENGTH]((i, j) => 0);
      rxCount, rxOverflowCurrent, writeHead, writeTail, writeCount, droppedWrites := 0, false, 0, 0, 0, 0;
      selectedReg, errorFlags, recoveryCount := 0, {}, 0;
    }

    method ResetRxTransaction()
      requires Valid()
      modifies this
      ensures Valid() && View() == ResetRx(old(View()))
    {
      rxCount := 0;
      rxOverflowCurrent := false;
    }

    method StoreRxByte(value: Byte)
      requires Valid()
      modifies this, rxBuffer
      ensures Valid() && View() == StoreByte(old(View()), value)
    {
      if rxCount == 0 { selectedReg := value; }
      if rxCount < RX_BUFFER_LENGTH {
        rxBuffer[rxCount] := value;
        rxCount := rxCount + 1;
        assert rxBuffer[..rxCount] == old(rxBuffer[..rxCount]) + [value];
      } else {
        rxOverflowCurrent := true;
        errorFlags := errorFlags + {RxOverflow};
      }
      assert Queue() == old(Queue());
    }

    /** Copies the received transaction into the free slot at the tail. */
    method CopyToSlot(slot: nat, length: Byte)
      requires Valid() && slot < WRITE_QUEUE_LENGTH && 1 <= length && length + 1 == rxCount
      modifies writeReg, writeLength, writeData
      ensures Valid()
      ensures Slot(slot) == Write(rxBuffer[0], rxBuffer[1..rxCount])
      ensures forall other :: 0 <= other < WRITE_QUEUE_LENGTH && other != slot ==> Slot(other) == old(Slot(other))
    {
      writeReg[slot] := rxBuffer[0];
      writeLength[slot] := length;
      for i := 0 to length
        invariant Valid() && writeLength[slot] == length && writeReg[slot] == rxBuffer[0]
        invariant forall other :: 0 <= other < WRITE_QUEUE_LENGTH && other != slot ==>
          writeReg[other] == old(writeReg[other]) && writeLength[other] == old(writeLength[other])
        invariant forall other, j :: 0 <= other < WRITE_QUEUE_LENGTH && other != slot && 0 <= j < MAX_PAYLOAD_LENGTH ==>
          writeData[other, j] == old(writeData[other, j])
        invariant forall j :: 0 <= j < i ==> writeData[slot, j] == rxBuffer[j + 1]
      {
        writeData[slot, i] := rxBuffer[i + 1];
      }
    }

    method QueueWriteFromRx()
      requires Valid()
      modifies this, writeReg, writeLength, writeData
      ensures Valid() && View() == QueueWrite(old(View()))
    {
      hide QueuePart;
      if rxCount <= 1 || rxOverflowCurrent { return; }
      if writeCount >= WRITE_QUEUE_LENGTH {
        droppedWrites := Wrap32(droppedWrites + 1);
        errorFlags := errorFlags + {DroppedWrite};
        return;
      }
      ghost var before := Queue();
      var slot := writeTail;
      CopyToSlot(slot, rxCount - 1);
      assert Queue() == before;
      writeTail := Wrapped(writeTail + 1);
      writeCount := writeCount + 1;
      assert Queue() == before + [Slot(slot)];
    }

    method OnStart(drained: seq<Byte>)
      requires Valid()
      modifies this, rxBuffer
      ensures Valid() && View() == Handle(old(View()), Start(drained))
    {
      DrainRxFifo(drained);
      ResetRxTransaction();
    }

    method DrainRxFifo(bytes: seq<Byte>)
      requires Valid()
      modifies this, rxBuffer
      ensures Valid() && View() == StoreAll(old(View()), bytes)
    {
      for i := 0 to |bytes|
        invariant Valid() && StoreAll(old(View()), bytes) == StoreAll(View(), bytes[i..])
      {
        StoreRxByte(bytes[i]);
      }
    }

    method OnStop(drained: seq<Byte>)
      requires Valid()
      modifies this, rxBuffer, writeReg, writeLength, writeData
      ensures Valid() && View() == Handle(old(View()), Stop(drained))
    {
      DrainRxFifo(drained);
      QueueWriteFromRx();
      ResetRxTransaction();
    }

    /** Takes the oldest queued write. */
    method TakeWrite() returns (write: Option<Write>)
      requires Valid()
      modifies this
      ensures Valid() && View() == Handle(old(View()), Take)
      ensures write == if old(View()).queue == [] then None else Some(old(View()).queue[0])
    {
      hide QueuePart;
      if writeCount == 0 { return None; }
      ghost var before := Queue();
      var slot := writeHead;
      var data: seq<Byte> := [];
      for i := 0 to writeLength[slot]
        invariant data == Slot(slot).data[..i]
      {
        data := data + [writeData[slot, i]];
      }
      write := Some(Write(writeReg[slot], data));
      writeHead := Wrapped(writeHead + 1);
      writeCount := writeCount - 1;
      assert before[0] == write.value;
      assert Queue() == before[1..];
    }

    /** Bus recovery forgets the transaction and everything queued. */
    method RecoverTargetPeripheral()
      requires Valid()
      modifies this
      ensures Valid() && View() == Handle(old(View()), Recover)
    {
      hide QueuePart;
      ResetRxTransaction();
      writeHead, writeTail, writeCount := 0, 0, 0;
      errorFlags := errorFlags + {BusStuckRecovery};
      recoveryCount := Wrap32(recoveryCount + 1);
    }

    /** The selected register's number for one byte sent to the controller; the next byte is of the next register. */
    method ReadSelectedRegister() returns (reg: Byte)
      requires Valid()
      modifies `selectedReg
      ensures Valid() && reg == old(selectedReg) && View() == Handle(old(View()), Send(1))
    {
      reg := selectedReg;
      if selectedReg != 0xFF { selectedReg := selectedReg + 1; }
    }
  }

  // ----- any interleaving of bus events and main-loop reads -----

  /** `Send` puts bytes into the transmit FIFO; `Trouble` is an interrupt that only reports. */
  datatype BusEvent =
    | Start(drained: seq<Byte>)
    | Receive(bytes: seq<Byte>)
    | Stop(drained: seq<Byte>)
    | Send(count: nat)
    | Trouble(flag: ErrorFlag)
    | Take
    | Recover

  /** Nothing received, queued or reported. */
  const POWERED_UP := Target([], false, 0, [], 0, {}, 0)

  predicate OnlyReports(flag: ErrorFlag) {
    flag == TxUnderflow || flag == ArbitrationLost || flag == InterruptOverflow
  }

  function StoreAll(t: Target, bytes: seq<Byte>): Target
    decreases |bytes|
  {
    if bytes == [] then t else StoreAll(StoreByte(t, bytes[0]), bytes[1..])
  }

  lemma {:induction false} StoreAllKeepsQueue(t: Target, bytes: seq<Byte>)
    ensures var u := StoreAll(t, bytes);
            u.queue == t.queue && u.dropped == t.dropped && u.recoveries == t.recoveries &&
            u.errors - {RxOverflow} == t.errors - {RxOverflow} && t.errors <= u.errors
    decreases |bytes|
  {
    if bytes != [] { StoreAllKeepsQueue(StoreByte(t, bytes[0]), bytes[1..]); }
  }

  function Handle(t: Target, e: BusEvent): Target {
    match e
    case Start(drained) => ResetRx(StoreAll(t, drained))
    case Receive(bytes) => StoreAll(t, bytes)
    case Stop(drained) => ResetRx(QueueWrite(StoreAll(t, drained)))
    case Send(count) => t.(selected := Min(t.selected + count, 0xFF))
    case Trouble(flag) => if OnlyReports(flag) then t.(errors := t.errors + {flag}) else t
    case Take => if t.queue == [] then t else t.(queue := t.queue[1..])
    case Recover =>
      t.(rx := [], overflow := false, queue := [], errors := t.errors + {BusStuckRecovery},
         recoveries := Wrap32(t.recoveries + 1))
  }

  /** A fault the controller reports and no other is recorded, and nothing else changes. */
  lemma TroubleIsRecorded(t: Target, flag: ErrorFlag)
    ensures var u := Handle(t, Trouble(flag));
            (flag in {TxUnderflow, ArbitrationLost, InterruptOverflow} ==> flag in u.errors) &&
            (forall other :: other != flag ==> (other in u.errors <==> other in t.errors)) &&
            u == t.(errors := u.errors)
  {
  }

  /** A run, with the bytes seen on the wire since the last START or STOP, the first byte of the last transaction
      that had any and the bytes sent since, and the true number of recoveries. */
  datatype BusRun = BusRun(
    target: Target, wire: seq<Byte>, completed: seq<Write>, taken: seq<Write>, lost: nat, dropped: nat,
    pointer: Byte, sent: nat, recovered: nat)

  /** A transaction of 1 to 32 data bytes after the register address. */
  predicate CompleteWrite(wire: seq<Byte>) {
    2 <= |wire| <= MAX_PAYLOAD_LENGTH + 1
  }

  /** Bytes seen on the wire; the first of a transaction is a register pointer. */
  function OnWire(s: BusRun, bytes: seq<Byte>): BusRun {
    if s.wire == [] && bytes != [] then s.(wire := bytes, pointer := bytes[0], sent := 0)
    else s.(wire := s.wire + bytes)
  }

  /** At STOP a complete transaction is queued, or dropped when the queue is full. */
  function EndTransaction(r: BusRun): BusRun {
    var t' := ResetRx(QueueWrite(r.target));
    if CompleteWrite(r.wire) then
      r.(target := t', wire := [], completed := r.completed + [Write(r.wire[0], r.wire[1..])],
         dropped := if |r.target.queue| >= WRITE_QUEUE_LENGTH then r.dropped + 1 else r.dropped)
    else r.(target := t', wire := [])
  }

  function StepBus(s: BusRun, e: BusEvent): BusRun {
    var t' := Handle(s.target, e);
    match e
    case Start(drained) => OnWire(s, drained).(target := t', wire := [])
    case Receive(bytes) => OnWire(s, bytes).(target := t')
    case Stop(drained) =>
      EndTransaction(OnWire(s, drained).(target := StoreAll(s.target, drained)))
    case Send(count) => s.(target := t', sent := s.sent + count)
    case Trouble(flag) => s.(target := t')
    case Take => s.(target := t', taken := if s.target.queue == [] then s.taken else s.taken + [s.target.queue[0]])
    case Recover => s.(target := t', wire := [], lost := s.lost + |s.target.queue|, recovered := s.recovered + 1)
  }

  function RunBus(s: BusRun, events: seq<BusEvent>): BusRun
    decreases |events|
  {
    if events == [] then s else RunBus(StepBus(s, events[0]), events[1..])
  }

  /** The receive buffer is the first 33 wire bytes, and the overflow mark says whether there were more. */
  ghost predicate RxMirrorsWire(t: Target, wire: seq<Byte>) {
    t.rx == (if |wire| <= RX_BUFFER_LENGTH then wire else wire[..RX_BUFFER_LENGTH]) &&
    t.overflow == (|wire| > RX_BUFFER_LENGTH)
  }

  /** What was taken and what is queued is the completed list, in order, minus what was lost or dropped. */
  ghost predicate Accounted(taken: seq<Write>, queue: seq<Write>, completed: seq<Write>, lost: nat, dropped: nat) {
    Subsequence(taken + queue, completed) &&
    |taken| + |queue| + lost + dropped == |completed| &&
    (lost == 0 && dropped == 0 ==> taken + queue == completed)
  }

  /** The counters are the true counts modulo 2^32, and the error word tells of every dropped write and recovery. */
  ghost predicate ErrorsTell(t: Target, dropped: nat, recovered: nat) {
    t.dropped == Wrap32(dropped) && (DroppedWrite in t.errors <==> dropped > 0) &&
    t.recoveries == Wrap32(recovered) && (BusStuckRecovery in t.errors <==> recovered > 0) &&
    (t.overflow ==> RxOverflow in t.errors)
  }

  ghost predicate BusInvariant(s: BusRun) {
    RxMirrorsWire(s.target, s.wire) &&
    s.target.selected == Min(s.pointer + s.sent, 0xFF) &&
    |s.target.queue| <= WRITE_QUEUE_LENGTH &&
    Accounted(s.taken, s.target.queue, s.completed, s.lost, s.dropped) &&
    ErrorsTell(s.target, s.dropped, s.recovered)
  }

  lemma {:induction false} StoreAllMirrors(t: Target, wire: seq<Byte>, bytes: seq<Byte>)
    requires RxMirrorsWire(t, wire)
    ensures RxMirrorsWire(StoreAll(t, bytes), wire + bytes)
    decreases |bytes|
  {
    if bytes == [] {
      assert wire + bytes == wire;
    } else {
      var wire' := wire + [bytes[0]];
      assert wire + bytes == wire' + bytes[1..];
      StoreAllMirrors(StoreByte(t, bytes[0]), wire', bytes[1..]);
    }
  }

  /** At STOP exactly the complete transactions are queued, or counted when the queue is full. */
  lemma QueuesCompleteWrites(t: Target, wire: seq<Byte>)
    requires RxMirrorsWire(t, wire)
    ensures QueueWrite(t) ==
            if !CompleteWrite(wire) then t
            else if |t.queue| >= WRITE_QUEUE_LENGTH
            then t.(dropped := Wrap32(t.dropped + 1), errors := t.errors + {DroppedWrite})
            else t.(queue := t.queue + [Write(wire[0], wire[1..])])
  {
  }

  lemma AccountQueued(taken: seq<Write>, queue: seq<Write>, completed: seq<Write>, lost: nat, dropped: nat, w: Write)
    requires Accounted(taken, queue, completed, lost, dropped)
    ensures Accounted(taken, queue + [w], completed + [w], lost, dropped)
    ensures Accounted(taken, queue, completed + [w], lost, dropped + 1)
  {
    TakeLast(taken + queue, completed, w);
    SkipLast(taken + queue, completed, w);
    assert taken + (queue + [w]) == taken + queue + [w];
  }

  lemma AccountTaken(taken: seq<Write>, queue: seq<Write>, completed: seq<Write>, lost: nat, dropped: nat)
    requires Accounted(taken, queue, completed, lost, dropped)
    ensures queue != [] ==> Accounted(taken + [queue[0]], queue[1..], completed, lost, dropped)
    ensures Accounted(taken, [], completed, lost + |queue|, dropped)
  {
    if queue != [] { assert taken + [queue[0]] + queue[1..] == taken + queue; }
    Prefix(taken, queue, completed);
    assert taken + [] == taken;
    if queue == [] { assert taken + queue == taken; }
  }

  /** Stored bytes keep buffer, selected register and error word in step with the wire. */
  lemma {:induction false} StoreAllSelects(t: Target, wire: seq<Byte>, bytes: seq<Byte>)
    requires RxMirrorsWire(t, wire) && (t.overflow ==> RxOverflow in t.errors)
    ensures StoreAll(t, bytes).selected == if wire == [] && bytes != [] then bytes[0] else t.selected
    ensures StoreAll(t, bytes).overflow ==> RxOverflow in StoreAll(t, bytes).errors
    decreases |bytes|
  {
    if bytes != [] {
      StoreAllSelects(StoreByte(t, bytes[0]), wire + [bytes[0]], bytes[1..]);
    }
  }

  lemma ReceiveKeepsInvariant(s: BusRun, bytes: seq<Byte>)
    requires BusInvariant(s)
    ensures BusInvariant(OnWire(s, bytes).(target := StoreAll(s.target, bytes)))
    ensures OnWire(s, bytes).wire == s.wire + bytes
  {
    hide Accounted;
    StoreAllMirrors(s.target, s.wire, bytes);
    StoreAllSelects(s.target, s.wire, bytes);
    StoreAllKeepsQueue(s.target, bytes);
    ErrorsStay(s.target, StoreAll(s.target, bytes), s.dropped, s.recovered);
    if s.wire == [] { assert s.wire + bytes == bytes; }
    if bytes == [] { assert s.wire + bytes == s.wire; }
  }

  lemma ErrorsStay(t: Target, u: Target, dropped: nat, recovered: nat)
    requires ErrorsTell(t, dropped, recovered) && u.dropped == t.dropped && u.recoveries == t.recoveries
    requires u.errors - {RxOverflow} == t.errors - {RxOverflow} && (u.overflow ==> RxOverflow in u.errors)
    ensures ErrorsTell(u, dropped, recovered)
  {
    assert DroppedWrite in u.errors - {RxOverflow} <==> DroppedWrite in t.errors - {RxOverflow};
    assert BusStuckRecovery in u.errors - {RxOverflow} <==> BusStuckRecovery in t.errors - {RxOverflow};
  }

  lemma EndKeepsInvariant(r: BusRun)
    requires BusInvariant(r)
    ensures BusInvariant(EndTransaction(r))
  {
    hide Accounted, QueueWrite;
    QueuesCompleteWrites(r.target, r.wire);
    if CompleteWrite(r.wire) {
      AccountQueued(r.taken, r.target.queue, r.completed, r.lost, r.dropped, Write(r.wire[0], r.wire[1..]));
    }
  }

  lemma StopKeepsInvariant(s: BusRun, drained: seq<Byte>)
    requires BusInvariant(s)
    ensures BusInvariant(StepBus(s, Stop(drained)))
  {
    hide BusInvariant, EndTransaction, StoreAll, OnWire, QueueWrite;
    ReceiveKeepsInvariant(s, drained);
    EndKeepsInvariant(OnWire(s, drained).(target := StoreAll(s.target, drained)));
  }

  lemma StepKeepsBusInvariant(s: BusRun, e: BusEvent)
    requires BusInvariant(s)
    ensures BusInvariant(StepBus(s, e))
  {
    hide Accounted;
    match e
    case Start(drained) => ReceiveKeepsInvariant(s, drained);
    case Receive(bytes) => ReceiveKeepsInvariant(s, bytes);
    case Stop(drained) => StopKeepsInvariant(s, drained);
    case Send(count) =>
    case Trouble(flag) =>
    case Take => AccountTaken(s.taken, s.target.queue, s.completed, s.lost, s.dropped);
    case Recover => AccountTaken(s.taken, s.target.queue, s.completed, s.lost, s.dropped);
  }

  /** For any interleaving, the main loop gets the completed transactions of 1 to 32 data bytes
      whole, in order and once each, minus those counted as dropped or lost to recovery; the error word tells of
      every drop and every recovery, and reads go on from the register the last transaction selected. */
  lemma {:induction false} BusDelivers(s: BusRun, events: seq<BusEvent>)
    requires BusInvariant(s)
    ensures BusInvariant(RunBus(s, events))
    decreases |events|
  {
    if events != [] {
      StepKeepsBusInvariant(s, events[0]);
      BusDelivers(StepBus(s, events[0]), events[1..]);
    }
  }

  function PowerOn(): BusRun {
    BusRun(POWERED_UP, [], [], [], 0, 0, 0, 0, 0)
  }

  lemma PowerOnBusInvariant()
    ensures BusInvariant(PowerOn())
  {
  }

  /** From power-on, for any interleaving. */
  lemma BusDeliversFromPowerOn(events: seq<BusEvent>)
    ensures BusInvariant(RunBus(PowerOn(), events))
  {
    PowerOnBusInvariant();
    BusDelivers(PowerOn(), events);
  }
}
