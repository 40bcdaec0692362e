/** The receive ring between the UART interrupt and the main loop. */
module UartLink {
  import opened Arith
  import opened Subsequences

  class UartLink {
    var rxBuffer: array<Byte>
    var rxHead: nat
    var rxTail: nat
    var rxDroppedCount: Word32
    var initialized: bool

    ghost predicate Valid()
      reads this
    {
      initialized ==> 1 < rxBuffer.Length < 0x1_0000 && rxHead < rxBuffer.Length && rxTail < rxBuffer.Length
    }

    /** The bytes waiting to be read, oldest first. */
    ghost function Held(): seq<Byte>
      requires Valid()
      reads this, rxBuffer
    {
      if !initialized then []
      else if rxTail <= rxHead then rxBuffer[rxTail..rxHead]
      else rxBuffer[rxTail..] + rxBuffer[..rxHead]
    }

    ghost function Capacity(): int
      reads this
    {
      rxBuffer.Length - 1
    }

    constructor ()
      ensures Valid() && !initialized
    {
      rxBuffer := new Byte[0];
      rxHead, rxTail, rxDroppedCount, initialized := 0, 0, 0, false;
    }

    /** Adopts a buffer. A configuration without peripheral, buffer or transmit patience, or with a buffer of fewer
        than two bytes, is refused and changes nothing. */
    method Init(hasUart: bool, buffer: array?<Byte>, txTimeoutIterations: Word32) returns (ok: bool)
      requires Valid() && (buffer != null ==> buffer.Length < 0x1_0000)
      modifies this
      ensures Valid() && ok == (hasUart && buffer != null && buffer.Length > 1 && txTimeoutIterations > 0)
      ensures ok ==> initialized && rxBuffer == buffer && Held() == [] && rxDroppedCount == 0
      ensures !ok ==>
                initialized == old(initialized) && rxBuffer == old(rxBuffer) && Held() == old(Held()) &&
                rxDroppedCount == old(rxDroppedCount)
    {
      if !hasUart || buffer == null || buffer.Length <= 1 || txTimeoutIterations == 0 { return false; }
      rxBuffer := buffer;
      rxHead, rxTail, rxDroppedCount, initialized := 0, 0, 0, true;
      ok := true;
    }

    method NextRxIndex(index: nat) returns (next: nat)
      requires Valid() && initialized && index < rxBuffer.Length
      ensures next == if index + 1 == rxBuffer.Length then 0 else index + 1
    {
      next := index + 1;
      if next >= rxBuffer.Length { next := 0; }
    }

    /** Interrupt side: appends the byte, or counts it as dropped when the ring is full. */
    method PushRxFromIsr(value: Byte)
      requires Valid() && initialized
      modifies this, rxBuffer
      ensures Valid() && initialized && rxBuffer == old(rxBuffer)
      ensures Held() == Pushed(Capacity(), old(Held()), value)
      ensures rxDroppedCount ==
              if |old(Held())| < Capacity() then old(rxDroppedCount) else Wrap32(old(rxDroppedCount) + 1)
    {
      var nextHead := NextRxIndex(rxHead);
      if nextHead == rxTail {
        rxDroppedCount := Wrap32(rxDroppedCount + 1);
        return;
      }
      rxBuffer[rxHead] := value;
      rxHead := nextHead;
    }

    /** Main-loop side: takes the oldest byte. */
    method ReadByte() returns (value: Option<Byte>)
      requires Valid()
      modifies this
      ensures Valid() && initialized == old(initialized) && rxBuffer == old(rxBuffer) &&
              rxDroppedCount == old(rxDroppedCount)
      ensures value == if old(Held()) == [] then None else Some(old(Held())[0])
      ensures Held() == if old(Held()) == [] then [] else old(Held())[1..]
    {
      if !initialized || rxHead == rxTail { return None; }
      value := Some(rxBuffer[rxTail]);
      rxTail := NextRxIndex(rxTail);
    }

    method RxAvailable() returns (count: nat)
      requires Valid()
      ensures count == |Held()|
      ensures initialized ==> count <= Capacity()
    {
      if !initialized { return 0; }
      if rxHead >= rxTail { return rxHead - rxTail; }
      return rxBuffer.Length - rxTail + rxHead;
    }
  }

  function Pushed(capacity: int, held: seq<Byte>, value: Byte): seq<Byte> {
    if |held| < capacity then held + [value] else held
  }

  // ----- any interleaving of the two sides -----

  datatype RingStep = Receive(value: Byte) | Read

  /** A run: what the line brought, what was let in, what the main loop got, what is left. */
  datatype RingRun = RingRun(received: seq<Byte>, accepted: seq<Byte>, delivered: seq<Byte>, held: seq<Byte>,
                             dropped: nat)

  function StepRing(capacity: int, s: RingRun, step: RingStep): RingRun {
    match step
    case Receive(v) =>
      var s' := s.(received := s.received + [v], held := Pushed(capacity, s.held, v));
      if |s.held| < capacity then s'.(accepted := s.accepted + [v]) else s'.(dropped := s.dropped + 1)
    case Read =>
      if s.held == [] then s else s.(delivered := s.delivered + [s.held[0]], held := s.held[1..])
  }

  function RunRing(capacity: int, s: RingRun, steps: seq<RingStep>): RingRun
    decreases |steps|
  {
    if steps == [] then s else RunRing(capacity, StepRing(capacity, s, steps[0]), steps[1..])
  }

  ghost predicate Conserved(capacity: int, s: RingRun) {
    s.delivered + s.held == s.accepted &&
    |s.accepted| + s.dropped == |s.received| &&
    |s.held| <= capacity &&
    Subsequence(s.accepted, s.received) &&
    (s.dropped == 0 ==> s.accepted == s.received)
  }

  lemma StepConserves(capacity: int, s: RingRun, step: RingStep)
    requires Conserved(capacity, s)
    ensures Conserved(capacity, StepRing(capacity, s, step))
  {
    hide Subsequence;
    match step
    case Receive(v) =>
      TakeLast(s.accepted, s.received, v);
      SkipLast(s.accepted, s.received, v);
      assert s.delivered + (s.held + [v]) == s.delivered + s.held + [v];
    case Read =>
      if s.held != [] {
        assert s.delivered + [s.held[0]] + s.held[1..] == s.delivered + s.held;
      }
  }

  /** Whatever the interleaving, the main loop receives exactly the accepted bytes in order,
      accepted plus dropped is received, and at most size - 1 bytes are held. */
  lemma {:induction false} RunConserves(capacity: int, s: RingRun, steps: seq<RingStep>)
    requires Conserved(capacity, s)
    ensures Conserved(capacity, RunRing(capacity, s, steps))
    decreases |steps|
  {
    if steps != [] {
      StepConserves(capacity, s, steps[0]);
      RunConserves(capacity, StepRing(capacity, s, steps[0]), steps[1..]);
    }
  }

  lemma RingDelivers(size: nat, steps: seq<RingStep>)
    requires size > 1
    ensures Conserved(size - 1, RunRing(size - 1, RingRun([], [], [], [], 0), steps))
  {
    RunConserves(size - 1, RingRun([], [], [], [], 0), steps);
  }
}
