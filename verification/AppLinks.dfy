/** The whole motor driver: receive ring, I2C queue and main loop under any interleaving of interrupts and passes. */
module AppLinks {
  import opened Arith
  import opened RegisterSpec
  import opened SerialFrame
  import opened AppSpec
  import opened AppHistory
  import opened AppSafety
  import opened AppTraffic
  import opened AppDelivery
  import Uart = UartLink
  import I2C = I2cTarget

  /** What can happen while a pass drains ring and queue: interrupts, and the main loop looking for the next byte or
      write, after which the encoders read `e`. */
  datatype Slot =
    | LineByte(value: Byte)
    | BusHappens(event: I2C.BusEvent)
    | ReadByte(ms: nat, e: Encoders)
    | TakeWrite(ms: nat, e: Encoders)

  datatype SystemStep =
    | Arrives(value: Byte)
    | Happens(event: I2C.BusEvent)
    | RunPass(slots: seq<Slot>, encoders: Encoders, busTrip: bool, msBeforeCheck: nat, msBeforeControl: nat)

  /** Ring and queue while a pass drains them, and what it has taken so far. */
  datatype Links = Links(ring: Uart.RingRun, bus: I2C.BusRun, serial: seq<SerialInput>, i2c: seq<I2cInput>)

  /** `inputs` is history: what each pass so far took in. */
  datatype System = System(ring: Uart.RingRun, bus: I2C.BusRun, inputs: seq<PassInput>, app: App)

  /** An event on the bus; taking a write is the main loop's side. */
  function OnBus(bus: I2C.BusRun, event: I2C.BusEvent): I2C.BusRun {
    if event.Take? then bus else I2C.StepBus(bus, event)
  }

  function Drain(capacity: int, l: Links, slot: Slot): Links {
    match slot
    case LineByte(value) => l.(ring := Uart.StepRing(capacity, l.ring, Uart.Receive(value)))
    case BusHappens(event) => l.(bus := OnBus(l.bus, event))
    case ReadByte(ms, e) =>
      if l.ring.held == [] then l
      else l.(ring := Uart.StepRing(capacity, l.ring, Uart.Read),
              serial := l.serial + [SerialInput(ms, l.ring.held[0], e)])
    case TakeWrite(ms, e) =>
      if l.bus.target.queue == [] then l
      else l.(bus := I2C.StepBus(l.bus, I2C.Take), i2c := l.i2c + [I2cInput(ms, l.bus.target.queue[0], e)])
  }

  function DrainAll(capacity: int, l: Links, slots: seq<Slot>): Links
    decreases |slots|
  {
    if slots == [] then l else DrainAll(capacity, Drain(capacity, l, slots[0]), slots[1..])
  }

  /** One interrupt, or one pass with whatever interrupts come in between; a bus trip recovers the target. */
  function SystemNext(capacity: int, s: System, step: SystemStep): System
    requires ParserInvariant(s.app.parser)
  {
    match step
    case Arrives(value) => s.(ring := Uart.StepRing(capacity, s.ring, Uart.Receive(value)))
    case Happens(event) => s.(bus := OnBus(s.bus, event))
    case RunPass(slots, encoders, busTrip, msBeforeCheck, msBeforeControl) =>
      var l := DrainAll(capacity, Links(s.ring, s.bus, [], []), slots);
      var input := PassInput(encoders, l.serial, l.i2c, busTrip, msBeforeCheck, msBeforeControl);
      System(l.ring, if busTrip then I2C.StepBus(l.bus, I2C.Recover) else l.bus, s.inputs + [input], Pass(s.app, input))
  }

  /** Both links keep their books, and the application is where passes over exactly the bytes delivered by the ring
      and the writes taken from the queue lead it. */
  ghost predicate SystemHolds(capacity: int, start: App, s: System) {
    ParserInvariant(start.parser) && Uart.Conserved(capacity, s.ring) && I2C.BusInvariant(s.bus) &&
    AllBytes(s.inputs) == s.ring.delivered && AllWrites(s.inputs) == s.bus.taken && s.app == Passes(start, s.inputs)
  }

  ghost predicate LinksHold(capacity: int, l: Links, bytes: seq<Byte>, writes: seq<I2C.Write>) {
    Uart.Conserved(capacity, l.ring) && I2C.BusInvariant(l.bus) &&
    l.ring.delivered == bytes + Values(l.serial) && l.bus.taken == writes + WritesOf(l.i2c)
  }

  lemma OnBusKeeps(bus: I2C.BusRun, event: I2C.BusEvent)
    requires I2C.BusInvariant(bus)
    ensures I2C.BusInvariant(OnBus(bus, event)) && OnBus(bus, event).taken == bus.taken
  {
    if !event.Take? { I2C.StepKeepsBusInvariant(bus, event); }
  }

  lemma DrainKeeps(capacity: int, l: Links, slot: Slot, bytes: seq<Byte>, writes: seq<I2C.Write>)
    requires LinksHold(capacity, l, bytes, writes)
    ensures LinksHold(capacity, Drain(capacity, l, slot), bytes, writes)
  {
    hide Uart.Conserved, I2C.BusInvariant;
    match slot
    case LineByte(value) => Uart.StepConserves(capacity, l.ring, Uart.Receive(value));
    case BusHappens(event) => OnBusKeeps(l.bus, event);
    case ReadByte(ms, e) =>
      Uart.StepConserves(capacity, l.ring, Uart.Read);
      if l.ring.held != [] {
        var x := SerialInput(ms, l.ring.held[0], e);
        assert Values(l.serial + [x]) == Values(l.serial) + [x.value];
      }
    case TakeWrite(ms, e) =>
      I2C.StepKeepsBusInvariant(l.bus, I2C.Take);
      if l.bus.target.queue != [] {
        var x := I2cInput(ms, l.bus.target.queue[0], e);
        assert WritesOf(l.i2c + [x]) == WritesOf(l.i2c) + [x.write];
      }
  }

  lemma {:induction false} DrainAllKeeps(capacity: int, l: Links, slots: seq<Slot>, bytes: seq<Byte>,
                                         writes: seq<I2C.Write>)
    requires LinksHold(capacity, l, bytes, writes)
    ensures LinksHold(capacity, DrainAll(capacity, l, slots), bytes, writes)
    decreases |slots|
  {
    if slots != [] {
      DrainKeeps(capacity, l, slots[0], bytes, writes);
      DrainAllKeeps(capacity, Drain(capacity, l, slots[0]), slots[1..], bytes, writes);
    }
  }

  lemma {:induction false} AllAppend(inputs: seq<PassInput>, last: PassInput)
    ensures AllBytes(inputs + [last]) == AllBytes(inputs) + Values(last.serial)
    ensures AllWrites(inputs + [last]) == AllWrites(inputs) + WritesOf(last.i2c)
    decreases |inputs|
  {
    if inputs == [] {
      assert [] + [last] == [last] && [last][1..] == [];
    } else {
      assert (inputs + [last])[1..] == inputs[1..] + [last];
      AllAppend(inputs[1..], last);
    }
  }

  lemma {:induction false} PassesAppend(a: App, inputs: seq<PassInput>, last: PassInput)
    requires ParserInvariant(a.parser)
    ensures ParserInvariant(Passes(a, inputs).parser)
    ensures Passes(a, inputs + [last]) == Pass(Passes(a, inputs), last)
    decreases |inputs|
  {
    hide Pass, ParserInvariant;
    if inputs == [] {
      assert [] + [last] == [last] && [last][1..] == [];
      PassExtends(a, last);
      assert Passes(Pass(a, last), []) == Pass(a, last);
    } else {
      assert (inputs + [last])[1..] == inputs[1..] + [last];
      PassExtends(a, inputs[0]);
      PassesAppend(Pass(a, inputs[0]), inputs[1..], last);
    }
  }

  lemma StepHolds(capacity: int, start: App, s: System, step: SystemStep)
    requires SystemHolds(capacity, start, s)
    ensures ParserInvariant(s.app.parser) && SystemHolds(capacity, start, SystemNext(capacity, s, step))
  {
    hide ParserInvariant, Uart.Conserved, I2C.BusInvariant, DrainAll;
    PassesExtend(start, s.inputs);
    match step
    case Arrives(value) => Uart.StepConserves(capacity, s.ring, Uart.Receive(value));
    case Happens(event) => OnBusKeeps(s.bus, event);
    case RunPass(slots, encoders, busTrip, msBeforeCheck, msBeforeControl) => PassHolds(capacity, start, s, step);
  }

  lemma PassHolds(capacity: int, start: App, s: System, step: SystemStep)
    requires SystemHolds(capacity, start, s) && ParserInvariant(s.app.parser) && step.RunPass?
    ensures SystemHolds(capacity, start, SystemNext(capacity, s, step))
  {
    hide Uart.Conserved, I2C.BusInvariant, ParserInvariant, Pass, Drain, DrainAll;
    var first := Links(s.ring, s.bus, [], []);
    assert Values([]) == [] && WritesOf([]) == [];
    assert LinksHold(capacity, first, AllBytes(s.inputs), AllWrites(s.inputs));
    DrainAllKeeps(capacity, first, step.slots, AllBytes(s.inputs), AllWrites(s.inputs));
    var l := DrainAll(capacity, first, step.slots);
    var input := PassInput(step.encoders, l.serial, l.i2c, step.busTrip, step.msBeforeCheck, step.msBeforeControl);
    AllAppend(s.inputs, input);
    PassesAppend(start, s.inputs, input);
    if step.busTrip { RecoverKeeps(l.bus); }
  }

  lemma RecoverKeeps(bus: I2C.BusRun)
    requires I2C.BusInvariant(bus)
    ensures I2C.BusInvariant(I2C.StepBus(bus, I2C.Recover)) && I2C.StepBus(bus, I2C.Recover).taken == bus.taken
  {
    I2C.StepKeepsBusInvariant(bus, I2C.Recover);
  }

  function SystemRun(capacity: int, start: App, s: System, steps: seq<SystemStep>): System
    requires SystemHolds(capacity, start, s)
    decreases |steps|
  {
    if steps == [] then s
    else
      StepHolds(capacity, start, s, steps[0]);
      SystemRun(capacity, start, SystemNext(capacity, s, steps[0]), steps[1..])
  }

  lemma {:induction false} RunHolds(capacity: int, start: App, s: System, steps: seq<SystemStep>)
    requires SystemHolds(capacity, start, s)
    ensures SystemHolds(capacity, start, SystemRun(capacity, start, s, steps))
    decreases |steps|
  {
    if steps != [] {
      StepHolds(capacity, start, s, steps[0]);
      RunHolds(capacity, start, SystemNext(capacity, s, steps[0]), steps[1..]);
    }
  }

  /** Ring and queue empty, the application as given. */
  function Cold(start: App): System {
    System(Uart.RingRun([], [], [], [], 0), I2C.PowerOn(), [], start)
  }

  lemma ColdHolds(capacity: int, start: App)
    requires capacity >= 0 && ParserInvariant(start.parser)
    ensures SystemHolds(capacity, start, Cold(start))
  {
    I2C.PowerOnBusInvariant();
  }

  /** Nothing is lost between ring and parser, and the registers saw exactly the accepted writes of the passes. */
  predicate Delivered(start: App, s: System) {
    s.ring.delivered + s.ring.held == s.ring.accepted &&
    s.app.parser == Feed(start.parser, s.ring.delivered) &&
    AddsWrites(start, s.app, RunWrites(start.parser, s.inputs)) &&
    Interleaves(RunWrites(start.parser, s.inputs), SerialWrites(Events(start.parser, s.ring.delivered)),
                Accepted(s.bus.taken))
  }

  /** A run of the system from then on. */
  function ColdRun(size: nat, start: App, steps: seq<SystemStep>): System
    requires size > 1 && ParserInvariant(start.parser)
  {
    ColdHolds(size - 1, start);
    SystemRun(size - 1, start, Cold(start), steps)
  }

  /** For any interleaving of line, bus and passes the application acts on exactly the accepted bytes, but for those
      still in the ring, and on exactly the completed transactions, minus those dropped, lost or still queued: its
      registers are written by the accepted writes among them, once each and in order, and every bridge is safe. */
  lemma SystemDelivers(size: nat, address: Byte, e: Encoders, a: App, steps: seq<SystemStep>)
    requires size > 1 && a == Start(address, e)
    ensures ParserInvariant(a.parser)
    ensures var s := ColdRun(size, a, steps); SystemHolds(size - 1, a, s) && Delivered(a, s) && Safe(s.app)
  {
    hide Start, Safe, Invariant, AddsWrites, I2C.BusInvariant;
    StartIsIdle(address, e);
    InvariantParser(a);
    ColdHolds(size - 1, a);
    RunHolds(size - 1, a, Cold(a), steps);
    var s := ColdRun(size, a, steps);
    RunCommits(a, s.inputs);
    RunInterleaves(a.parser, s.inputs);
    RunFromStartSafe(address, e, s.inputs);
  }
}
