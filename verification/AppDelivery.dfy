/** From the line and the bus to the registers over whole runs: which writes are committed, however the traffic
    is cut into passes and however it interleaves with the main loop. */
module AppDelivery {
  import opened Arith
  import opened RegisterSpec
  import opened RegisterInvariants
  import opened SerialFrame
  import opened ControlSpec
  import opened AppSpec
  import opened AppFrames
  import opened AppHistory
  import opened AppSafety
  import opened AppTraffic
  import I2C = I2cTarget

  // ----- writes among operations, events and inputs -----

  /** The committed writes among some operations. */
  function Commits(ops: seq<RegOp>): seq<RegOp>
    decreases |ops|
  {
    if ops == [] then [] else CommitOf(ops[0]) + Commits(ops[1..])
  }

  function CommitOf(op: RegOp): seq<RegOp> {
    if op.Commit? then [op] else []
  }

  predicate AcceptedWrite(e: Event) {
    e.Frame? && e.request.cmd == CMD_WRITE && e.request.length > 0 && CommitAccepted(e.request.reg, e.request.data)
  }

  function WriteOf(e: Event): seq<RegOp> {
    if AcceptedWrite(e) then [Commit(e.request.reg, e.request.data)] else []
  }

  /** The writes that some parser events ask for and the registers accept. */
  function SerialWrites(events: seq<Event>): seq<RegOp>
    decreases |events|
  {
    if events == [] then [] else WriteOf(events[0]) + SerialWrites(events[1..])
  }

  function OfBus(w: I2C.Write): seq<RegOp> {
    if CommitAccepted(w.reg, w.data) then [Commit(w.reg, w.data)] else []
  }

  /** The queued writes that the registers accept. */
  function Accepted(writes: seq<I2C.Write>): seq<RegOp>
    decreases |writes|
  {
    if writes == [] then [] else OfBus(writes[0]) + Accepted(writes[1..])
  }

  function WritesOf(inputs: seq<I2cInput>): seq<I2C.Write> {
    seq(|inputs|, i requires 0 <= i < |inputs| => inputs[i].write)
  }

  lemma {:induction false} CommitsConcat(x: seq<RegOp>, y: seq<RegOp>)
    ensures Commits(x + y) == Commits(x) + Commits(y)
    decreases |x|
  {
    if x == [] {
      assert x + y == y;
    } else {
      hide CommitOf;
      assert (x + y)[0] == x[0] && (x + y)[1..] == x[1..] + y;
      CommitsConcat(x[1..], y);
    }
  }

  lemma {:induction false} NoCommits(ops: seq<RegOp>)
    requires forall i :: 0 <= i < |ops| ==> !ops[i].Commit?
    ensures Commits(ops) == []
    decreases |ops|
  {
    if ops != [] { NoCommits(ops[1..]); }
  }

  lemma {:induction false} SerialWritesConcat(x: seq<Event>, y: seq<Event>)
    ensures SerialWrites(x + y) == SerialWrites(x) + SerialWrites(y)
    decreases |x|
  {
    if x == [] {
      assert x + y == y;
    } else {
      hide WriteOf;
      assert (x + y)[0] == x[0] && (x + y)[1..] == x[1..] + y;
      SerialWritesConcat(x[1..], y);
    }
  }

  // ----- what each step commits -----

  /** `b` has committed these writes since `a`. */
  predicate AddsWrites(a: App, b: App, writes: seq<RegOp>) {
    Commits(b.log) == Commits(a.log) + writes
  }

  lemma AddsWritesThen(a: App, b: App, c: App, first: seq<RegOp>, second: seq<RegOp>)
    requires AddsWrites(a, b, first) && AddsWrites(b, c, second)
    ensures AddsWrites(a, c, first + second)
  {
    assert Commits(a.log) + first + second == Commits(a.log) + (first + second);
  }

  lemma DoCommits(a: App, ops: seq<RegOp>)
    ensures AddsWrites(a, Do(a, ops), Commits(ops))
  {
    CommitsConcat(a.log, ops);
  }

  lemma ReportsCommitNothing(a: App, ops: seq<RegOp>)
    requires forall i :: 0 <= i < |ops| ==> !ops[i].Commit?
    ensures AddsWrites(a, Do(a, ops), [])
  {
    DoCommits(a, ops);
    NoCommits(ops);
  }

  lemma AfterWriteCommits(a: App, e: Encoders)
    ensures AddsWrites(a, AfterWrite(a, e), [])
  {
    var ops := EncoderControlOps(a.file.regs, e);
    ReportsCommitNothing(a, ops);
    var b := Do(a, ops);
    ReportsCommitNothing(b, [SetTimeout(false)]);
    AddsWritesThen(a, b, Do(b, [SetTimeout(false)]), [], []);
    assert AfterWrite(a, e).log == Do(b, [SetTimeout(false)]).log;
  }

  lemma WriteCommits(a: App, op: RegOp, e: Encoders)
    requires op.Commit?
    ensures AddsWrites(a, AfterWrite(Do(a, [op]), e), [op])
  {
    DoCommits(a, [op]);
    assert [op][1..] == [] && Commits([op]) == [op];
    AfterWriteCommits(Do(a, [op]), e);
    AddsWritesThen(a, Do(a, [op]), AfterWrite(Do(a, [op]), e), [op], []);
    assert [op] + [] == [op];
  }

  lemma ByteCommits(a: App, value: Byte, e: Encoders)
    requires ParserInvariant(a.parser)
    ensures AddsWrites(a, OnByte(a, value, e), WriteOf(Step(a.parser, value).1))
  {
    hide AfterWrite, Committed, Step, ParserInvariant;
    StepSound(a.parser, value);
    var (next, event) := Step(a.parser, value);
    var b := a.(parser := next);
    if AcceptedWrite(event) {
      WriteCommits(b, Commit(event.request.reg, event.request.data), e);
    } else {
      assert OnByte(a, value, e).log == a.log;
    }
  }

  lemma InputCommits(a: App, x: SerialInput, b: App)
    requires ParserInvariant(a.parser) && b == OnByte(Tick(a, x.ms), x.value, x.encoders)
    ensures ParserInvariant(b.parser) && b.parser == Step(a.parser, x.value).0
    ensures AddsWrites(a, b, WriteOf(Step(a.parser, x.value).1))
  {
    hide OnByte, WriteOf, ParserInvariant, Step;
    OnByteParser(Tick(a, x.ms), x.value, x.encoders);
    ByteCommits(Tick(a, x.ms), x.value, x.encoders);
  }

  lemma SerialFirst(a: App, inputs: seq<SerialInput>, b: App)
    requires ParserInvariant(a.parser) && inputs != []
    requires b == OnByte(Tick(a, inputs[0].ms), inputs[0].value, inputs[0].encoders) && ParserInvariant(b.parser)
    ensures SerialRx(a, inputs) == SerialRx(b, inputs[1..])
    ensures Values(inputs) != [] && Values(inputs)[0] == inputs[0].value && Values(inputs)[1..] == Values(inputs[1..])
    ensures Feed(a.parser, Values(inputs)) == Feed(Step(a.parser, inputs[0].value).0, Values(inputs[1..]))
  {
    hide OnByte, ParserInvariant, Step, Tick;
    assert Values(inputs)[1..] == Values(inputs[1..]);
  }

  lemma {:induction false} SerialCommits(a: App, inputs: seq<SerialInput>)
    requires ParserInvariant(a.parser)
    ensures SerialRx(a, inputs).parser == Feed(a.parser, Values(inputs))
    ensures AddsWrites(a, SerialRx(a, inputs), SerialWrites(Events(a.parser, Values(inputs))))
    decreases |inputs|
  {
    if inputs == [] {
      assert Values(inputs) == [];
    } else {
      hide OnByte, WriteOf, ParserInvariant, Step, AddsWrites, SerialWrites, Tick, Events, SerialRx, Feed, Values;
      var bytes, rest := Values(inputs), inputs[1..];
      var b := OnByte(Tick(a, inputs[0].ms), inputs[0].value, inputs[0].encoders);
      InputCommits(a, inputs[0], b);
      SerialFirst(a, inputs, b);
      SerialCommits(b, rest);
      FirstWrite(a.parser, bytes);
      AddsWritesThen(a, b, SerialRx(b, rest), WriteOf(Step(a.parser, bytes[0]).1),
                     SerialWrites(Events(b.parser, Values(rest))));
    }
  }

  lemma FirstWrite(p: Parser, bytes: seq<Byte>)
    requires bytes != []
    ensures var (next, event) := Step(p, bytes[0]);
            SerialWrites(Events(p, bytes)) == WriteOf(event) + SerialWrites(Events(next, bytes[1..]))
  {
    var (next, event) := Step(p, bytes[0]);
    var rest := Events(next, bytes[1..]);
    if event == Quiet {
      assert Events(p, bytes) == [] + rest == rest;
    } else {
      assert Events(p, bytes) == [event] + rest;
      assert ([event] + rest)[1..] == rest;
    }
  }

  lemma {:induction false} BusCommits(a: App, inputs: seq<I2cInput>)
    ensures AddsWrites(a, I2cWrites(a, inputs), Accepted(WritesOf(inputs)))
    decreases |inputs|
  {
    if inputs != [] {
      hide AfterWrite, Accepted, OfBus, OnI2cWrite, AddsWrites, CommitAccepted;
      var b := OnI2cWrite(Tick(a, inputs[0].ms), inputs[0].write, inputs[0].encoders);
      OneBusWrite(a, inputs[0], b);
      BusCommits(b, inputs[1..]);
      assert WritesOf(inputs)[1..] == WritesOf(inputs[1..]);
      FirstAccepted(WritesOf(inputs));
      AddsWritesThen(a, b, I2cWrites(b, inputs[1..]), OfBus(inputs[0].write), Accepted(WritesOf(inputs[1..])));
    }
  }

  lemma FirstAccepted(writes: seq<I2C.Write>)
    requires writes != []
    ensures Accepted(writes) == OfBus(writes[0]) + Accepted(writes[1..])
  {
  }

  lemma OneBusWrite(a: App, x: I2cInput, b: App)
    requires b == OnI2cWrite(Tick(a, x.ms), x.write, x.encoders)
    ensures AddsWrites(a, b, OfBus(x.write))
  {
    hide AfterWrite, CommitAccepted;
    if CommitAccepted(x.write.reg, x.write.data) {
      WriteCommits(Tick(a, x.ms), Commit(x.write.reg, x.write.data), x.encoders);
    }
  }

  // ----- passes -----

  /** The writes of one pass that are accepted: from the line, then from the bus. */
  function PassWrites(p: Parser, input: PassInput): seq<RegOp> {
    SerialWrites(Events(p, Values(input.serial))) + Accepted(WritesOf(input.i2c))
  }

  /** The inputs of a pass but for a bus trip. */
  function Received(a: App, input: PassInput): App
    requires ParserInvariant(a.parser)
  {
    I2cWrites(SerialRx(Do(a, SyncOps(a.file.regs, input.encoders)), input.serial), input.i2c)
  }

  lemma ReceivedCommits(a: App, input: PassInput)
    requires ParserInvariant(a.parser)
    ensures AddsWrites(a, Received(a, input), PassWrites(a.parser, input))
    ensures Received(a, input).parser == Feed(a.parser, Values(input.serial))
  {
    hide ParserInvariant, Feed, Events, AddsWrites;
    var ops := SyncOps(a.file.regs, input.encoders);
    var synced := Do(a, ops);
    ReportsCommitNothing(a, ops);
    SerialCommits(synced, input.serial);
    SerialExtends(synced, input.serial);
    var received := SerialRx(synced, input.serial);
    BusCommits(received, input.i2c);
    I2cExtends(received, input.i2c);
    var fromLine := SerialWrites(Events(a.parser, Values(input.serial)));
    AddsWritesThen(a, synced, received, [], fromLine);
    assert [] + fromLine == fromLine;
    AddsWritesThen(a, received, Received(a, input), fromLine, Accepted(WritesOf(input.i2c)));
  }

  lemma TripCommits(a: App)
    ensures AddsWrites(a, OnBusTrip(a), []) && OnBusTrip(a).parser == a.parser
  {
    ReportsCommitNothing(a, [ForceCoast]);
  }

  lemma InputsCommit(a: App, input: PassInput)
    requires ParserInvariant(a.parser)
    ensures AddsWrites(a, Inputs(a, input), PassWrites(a.parser, input))
    ensures Inputs(a, input).parser == Feed(a.parser, Values(input.serial))
  {
    hide ParserInvariant, Feed, PassWrites, AddsWrites, OnBusTrip, SerialRx, I2cWrites;
    ReceivedCommits(a, input);
    var b := Received(a, input);
    if input.busTrip {
      TripCommits(b);
      AddsWritesThen(a, b, OnBusTrip(b), PassWrites(a.parser, input), []);
      assert PassWrites(a.parser, input) + [] == PassWrites(a.parser, input);
    }
  }

  lemma CheckCommits(a: App)
    ensures AddsWrites(a, CheckWatchdog(a), []) && CheckWatchdog(a).parser == a.parser
  {
    ReportsCommitNothing(a, [ForceCoast]);
    assert CheckWatchdog(a).log == a.log || CheckWatchdog(a).log == Do(a, [ForceCoast]).log;
  }

  lemma StepsCommitNothing(a: App, p: Pid, m: Motor, count: Int32, rpm: Int16)
    ensures AddsWrites(a, Do(a, ControlStep(a.file.regs, p, m, count, rpm, a.Millis()).ops), [])
  {
    var ops := ControlStep(a.file.regs, p, m, count, rpm, a.Millis()).ops;
    ControlOpsOwned(a.file.regs, p, m, count, rpm, a.Millis());
    hide ControlStep;
    forall i | 0 <= i < |ops| ensures !ops[i].Commit? {
      assert Owned(ops[i], m);
    }
    ReportsCommitNothing(a, ops);
  }

  lemma ControlCommits(a: App, fb: Feedback)
    ensures AddsWrites(a, Control(a, fb), []) && Control(a, fb).parser == a.parser
  {
    hide ControlStep;
    if !a.timeout && Enabled(a.file.regs) {
      var s1 := ControlStep(a.file.regs, a.pid1, M1, fb.count1, fb.rpm1, a.Millis());
      StepsCommitNothing(a, a.pid1, M1, fb.count1, fb.rpm1);
      var b := Do(a, s1.ops).(pid1 := s1.pid);
      StepsCommitNothing(b, b.pid2, M2, fb.count2, fb.rpm2);
      AddsWritesThen(a, b, Control(a, fb), [], []);
    }
  }

  lemma SteerCommits(a: App, ms: nat, fb: Feedback)
    ensures AddsWrites(a, Steer(a, ms, fb), []) && Steer(a, ms, fb).parser == a.parser
  {
    hide Control, Output;
    var later := Tick(a, ms);
    ControlCommits(later, fb);
    var c := Control(later, fb);
    ReportsCommitNothing(c, [SetTimeout(c.file.timeoutActive)]);
  }

  /** One pass commits exactly the accepted writes among its inputs, each once, the line's before the bus's. */
  lemma PassCommits(a: App, input: PassInput)
    requires ParserInvariant(a.parser)
    ensures AddsWrites(a, Pass(a, input), PassWrites(a.parser, input))
    ensures Pass(a, input).parser == Feed(a.parser, Values(input.serial))
  {
    hide PassWrites, Inputs, CheckWatchdog, Steer, ParserInvariant, Feed;
    InputsCommit(a, input);
    var later := Tick(Inputs(a, input), input.msBeforeCheck);
    CheckCommits(later);
    var b := Checked(a, input);
    var fb := FeedbackFrom(a.file.regs, input.encoders);
    SteerCommits(b, input.msBeforeControl, fb);
    AddsWritesThen(a, later, b, PassWrites(a.parser, input), []);
    AddsWritesThen(a, b, Steer(b, input.msBeforeControl, fb), PassWrites(a.parser, input), []);
  }

  // ----- runs -----

  /** All bytes, and all queued writes, that the passes of a run took in. */
  function AllBytes(inputs: seq<PassInput>): seq<Byte>
    decreases |inputs|
  {
    if inputs == [] then [] else Values(inputs[0].serial) + AllBytes(inputs[1..])
  }

  function AllWrites(inputs: seq<PassInput>): seq<I2C.Write>
    decreases |inputs|
  {
    if inputs == [] then [] else WritesOf(inputs[0].i2c) + AllWrites(inputs[1..])
  }

  /** What the parser reports, pass by pass. */
  function RunEvents(p: Parser, inputs: seq<PassInput>): seq<Event>
    decreases |inputs|
  {
    if inputs == [] then []
    else
      var bytes := Values(inputs[0].serial);
      Events(p, bytes) + RunEvents(Feed(p, bytes), inputs[1..])
  }

  function RunWrites(p: Parser, inputs: seq<PassInput>): seq<RegOp>
    decreases |inputs|
  {
    if inputs == [] then []
    else PassWrites(p, inputs[0]) + RunWrites(Feed(p, Values(inputs[0].serial)), inputs[1..])
  }

  /** However the bytes are cut into passes, the parser reports the same events in the same order, each in the pass
      in which its last byte arrives. */
  lemma {:induction false} CutsDoNotMatter(p: Parser, inputs: seq<PassInput>)
    ensures RunEvents(p, inputs) == Events(p, AllBytes(inputs))
    decreases |inputs|
  {
    if inputs != [] {
      var bytes := Values(inputs[0].serial);
      CutsDoNotMatter(Feed(p, bytes), inputs[1..]);
      FeedConcat(p, bytes, AllBytes(inputs[1..]));
    }
  }

  /** Over any run the registers are written by exactly the accepted writes of each pass, in order and once each, and
      the parser stands where all the bytes together lead it. */
  lemma {:induction false} RunCommits(a: App, inputs: seq<PassInput>)
    requires ParserInvariant(a.parser)
    ensures AddsWrites(a, Passes(a, inputs), RunWrites(a.parser, inputs))
    ensures Passes(a, inputs).parser == Feed(a.parser, AllBytes(inputs))
    decreases |inputs|
  {
    if inputs != [] {
      hide PassWrites, Pass, ParserInvariant;
      var b, bytes := Pass(a, inputs[0]), Values(inputs[0].serial);
      PassCommits(a, inputs[0]);
      PassExtends(a, inputs[0]);
      RunCommits(b, inputs[1..]);
      FeedConcat(a.parser, bytes, AllBytes(inputs[1..]));
      AddsWritesThen(a, b, Passes(b, inputs[1..]), PassWrites(a.parser, inputs[0]), RunWrites(b.parser, inputs[1..]));
    }
  }

  // ----- line and bus together -----

  /** `all` consists of `x` and `y`, each in its order. */
  predicate Interleaves(all: seq<RegOp>, x: seq<RegOp>, y: seq<RegOp>)
    decreases |all|
  {
    if all == [] then x == [] && y == []
    else (x != [] && all[0] == x[0] && Interleaves(all[1..], x[1..], y)) ||
         (y != [] && all[0] == y[0] && Interleaves(all[1..], x, y[1..]))
  }

  lemma {:induction false} OneSided(x: seq<RegOp>)
    ensures Interleaves(x, x, []) && Interleaves(x, [], x)
    decreases |x|
  {
    if x != [] { OneSided(x[1..]); }
  }

  /** Without bus writes nothing but the line's is left. */
  lemma {:induction false} OnlyOneSide(all: seq<RegOp>, x: seq<RegOp>)
    requires Interleaves(all, x, [])
    ensures all == x
    decreases |all|
  {
    if all != [] { OnlyOneSide(all[1..], x[1..]); }
  }

  lemma {:induction false} InterleavesConcat(all: seq<RegOp>, x: seq<RegOp>, y: seq<RegOp>,
                                             all': seq<RegOp>, x': seq<RegOp>, y': seq<RegOp>)
    requires Interleaves(all, x, y) && Interleaves(all', x', y')
    ensures Interleaves(all + all', x + x', y + y')
    decreases |all|
  {
    if all == [] {
      assert all + all' == all' && x + x' == x' && y + y' == y';
    } else {
      assert (all + all')[0] == all[0] && (all + all')[1..] == all[1..] + all';
      if x != [] && all[0] == x[0] && Interleaves(all[1..], x[1..], y) {
        assert (x + x')[0] == x[0] && (x + x')[1..] == x[1..] + x';
        InterleavesConcat(all[1..], x[1..], y, all', x', y');
      } else {
        assert (y + y')[0] == y[0] && (y + y')[1..] == y[1..] + y';
        InterleavesConcat(all[1..], x, y[1..], all', x', y');
      }
    }
  }

  lemma {:induction false} AcceptedConcat(x: seq<I2C.Write>, y: seq<I2C.Write>)
    ensures Accepted(x + y) == Accepted(x) + Accepted(y)
    decreases |x|
  {
    if x == [] {
      assert x + y == y;
    } else {
      hide OfBus;
      assert (x + y)[0] == x[0] && (x + y)[1..] == x[1..] + y;
      AcceptedConcat(x[1..], y);
    }
  }

  lemma PassInterleaves(p: Parser, input: PassInput)
    ensures Interleaves(PassWrites(p, input), SerialWrites(Events(p, Values(input.serial))),
                        Accepted(WritesOf(input.i2c)))
  {
    hide Interleaves;
    var x, y := SerialWrites(Events(p, Values(input.serial))), Accepted(WritesOf(input.i2c));
    OneSided(x);
    OneSided(y);
    InterleavesConcat(x, x, [], y, [], y);
    assert x + [] == x && [] + y == y;
  }

  /** Whatever else happens: the writes of a run are those the line's frames ask for, in their order, interleaved
      with those taken from the bus, in theirs. */
  lemma {:induction false} RunInterleaves(p: Parser, inputs: seq<PassInput>)
    ensures Interleaves(RunWrites(p, inputs), SerialWrites(Events(p, AllBytes(inputs))), Accepted(AllWrites(inputs)))
    decreases |inputs|
  {
    if inputs != [] {
      hide Interleaves, PassWrites;
      var bytes, rest := Values(inputs[0].serial), inputs[1..];
      var next := Feed(p, bytes);
      PassInterleaves(p, inputs[0]);
      RunInterleaves(next, rest);
      InterleavesConcat(PassWrites(p, inputs[0]), SerialWrites(Events(p, bytes)), Accepted(WritesOf(inputs[0].i2c)),
                        RunWrites(next, rest), SerialWrites(Events(next, AllBytes(rest))), Accepted(AllWrites(rest)));
      FeedConcat(p, bytes, AllBytes(rest));
      SerialWritesConcat(Events(p, bytes), Events(next, AllBytes(rest)));
      AcceptedConcat(WritesOf(inputs[0].i2c), AllWrites(rest));
    }
  }

  /** Any frames sent over the noisy line, cut into passes anywhere, also inside a frame, while the bus writes too:
      every accepted write of the line is committed exactly once and in the order sent, interleaved with exactly the
      accepted writes of the bus in the order queued, and the parser ends idle. */
  lemma FramesCommitOnce(a: App, inputs: seq<PassInput>, sent: seq<Sent>)
    requires a.parser == IDLE && ParserInvariant(a.parser)
    requires forall i :: 0 <= i < |sent| ==> Noise(sent[i].noise) && SerialFrame.WellFormed(sent[i].request)
    requires AllBytes(inputs) == Transmission(sent)
    ensures Passes(a, inputs).parser == IDLE && AddsWrites(a, Passes(a, inputs), RunWrites(IDLE, inputs))
    ensures Interleaves(RunWrites(IDLE, inputs), SerialWrites(Reports(sent)), Accepted(AllWrites(inputs)))
  {
    hide Interleaves, AddsWrites, RunWrites, Passes;
    DecodeAll(sent);
    RunInterleaves(IDLE, inputs);
    RunCommits(a, inputs);
  }

  /** Without bus writes the line's accepted writes are all. */
  lemma FramesAlone(a: App, inputs: seq<PassInput>, sent: seq<Sent>)
    requires a.parser == IDLE && ParserInvariant(a.parser) && AllWrites(inputs) == []
    requires forall i :: 0 <= i < |sent| ==> Noise(sent[i].noise) && SerialFrame.WellFormed(sent[i].request)
    requires AllBytes(inputs) == Transmission(sent)
    ensures AddsWrites(a, Passes(a, inputs), SerialWrites(Reports(sent)))
  {
    hide Interleaves, AddsWrites, RunWrites, Passes;
    FramesCommitOnce(a, inputs, sent);
    OnlyOneSide(RunWrites(IDLE, inputs), SerialWrites(Reports(sent)));
  }
}
