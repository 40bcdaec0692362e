/** What the serial line does to the application: whole frames act, everything else does not. */
module AppTraffic {
  import opened Arith
  import opened RegisterSpec
  import opened RegisterInvariants
  import opened Crc8
  import opened SerialFrame
  import opened AppSpec
  import opened AppSafety

  /** The application at time `t`. */
  function At(a: App, t: nat): App {
    a.(now := t)
  }

  function Values(inputs: seq<SerialInput>): seq<Byte> {
    seq(|inputs|, i requires 0 <= i < |inputs| => inputs[i].value)
  }

  lemma {:induction false} SerialConcat(a: App, x: seq<SerialInput>, y: seq<SerialInput>)
    requires ParserInvariant(a.parser)
    ensures ParserInvariant(SerialRx(a, x).parser) && SerialRx(a, x + y) == SerialRx(SerialRx(a, x), y)
    decreases |x|
  {
    if x == [] {
      assert x + y == y;
    } else {
      hide OnByte, ParserInvariant, Step;
      var t := Tick(a, x[0].ms);
      OnByteParser(t, x[0].value, x[0].encoders);
      assert (x + y)[0] == x[0] && (x + y)[1..] == x[1..] + y;
      SerialConcat(OnByte(t, x[0].value, x[0].encoders), x[1..], y);
    }
  }

  predicate NoFrame(events: seq<Event>) {
    forall i :: 0 <= i < |events| ==> !events[i].Frame?
  }

  lemma NoFrameFirst(p: Parser, bytes: seq<Byte>)
    requires bytes != [] && NoFrame(Events(p, bytes))
    ensures !Step(p, bytes[0]).1.Frame? && NoFrame(Events(Step(p, bytes[0]).0, bytes[1..]))
  {
    hide Step;
    var (next, event) := Step(p, bytes[0]);
    var all, rest := Events(p, bytes), Events(next, bytes[1..]);
    assert all == (if event == Quiet then [] else [event]) + rest;
    if event != Quiet { assert all[0] == event; }
    forall i | 0 <= i < |rest| ensures !rest[i].Frame? {
      assert rest[i] == all[if event == Quiet then i else i + 1];
    }
  }

  lemma QuietByte(a: App, value: Byte, e: Encoders)
    requires ParserInvariant(a.parser) && !Step(a.parser, value).1.Frame?
    ensures OnByte(a, value, e) == a.(parser := Step(a.parser, value).0)
    ensures ParserInvariant(Step(a.parser, value).0)
  {
    StepSound(a.parser, value);
  }

  /** Bytes that complete no frame, whatever else they are, leave everything but time and parser as it was. */
  lemma {:induction false} OnlyFramesAct(a: App, inputs: seq<SerialInput>)
    requires ParserInvariant(a.parser) && NoFrame(Events(a.parser, Values(inputs)))
    ensures SerialRx(a, inputs) == a.(parser := Feed(a.parser, Values(inputs)), now := a.now + SerialMs(inputs))
    decreases |inputs|
  {
    hide OnByte, ParserInvariant, Step, NoFrame;
    if inputs == [] {
      assert Values(inputs) == [];
    } else {
      var t := Tick(a, inputs[0].ms);
      NoFrameFirst(a.parser, Values(inputs));
      assert Values(inputs)[1..] == Values(inputs[1..]);
      QuietByte(t, inputs[0].value, inputs[0].encoders);
      OnlyFramesAct(t.(parser := Step(a.parser, inputs[0].value).0), inputs[1..]);
    }
  }

  /** A write frame with one register, data or CRC byte changed commits nothing, feeds no lease and
      leaves the parser ready for the next frame. */
  lemma CorruptFrameIgnored(a: App, r: Request, k: nat, x: Byte, inputs: seq<SerialInput>)
    requires a.parser == IDLE && SerialFrame.WellFormed(r) && k < |Encode(r)|
    requires (k == 2 || k >= 4) && x != Encode(r)[k]
    requires Values(inputs) == Encode(r)[k := x]
    ensures ParserInvariant(a.parser) && SerialRx(a, inputs) == a.(now := a.now + SerialMs(inputs))
  {
    CorruptionIsDropped(r, k, x);
    OnlyFramesAct(a, inputs);
  }

  /** What one complete request does. */
  function OnRequest(a: App, r: Request, e: Encoders): App
    requires SerialFrame.WellFormed(r)
  {
    if r.cmd == CMD_HEARTBEAT && r.length == 0 then AfterKeepalive(a)
    else if r.cmd == CMD_WRITE && CommitAccepted(r.reg, r.data) then AfterWrite(Do(a, [Commit(r.reg, r.data)]), e)
    else a
  }

  lemma {:induction false} SerialMsConcat(x: seq<SerialInput>, y: seq<SerialInput>)
    ensures SerialMs(x + y) == SerialMs(x) + SerialMs(y)
    decreases |x|
  {
    if x == [] {
      assert x + y == y;
    } else {
      assert (x + y)[1..] == x[1..] + y;
      SerialMsConcat(x[1..], y);
    }
  }

  /** A frame acts once, when its last byte arrives. */
  lemma FrameActsOnce(a: App, r: Request, inputs: seq<SerialInput>, t: nat, e: Encoders)
    requires a.parser == IDLE && ParserInvariant(a.parser) && SerialFrame.WellFormed(r) && Values(inputs) == Encode(r)
    requires |inputs| > 0 && e == inputs[|inputs| - 1].encoders && t == a.now + SerialMs(inputs)
    ensures SerialRx(a, inputs) == OnRequest(At(a, t), r, e)
  {
    var n := |inputs| - 1;
    SplitLast(r, inputs);
    var body, last := inputs[..n], inputs[n];
    var ms := SerialMs(body);
    var b := AfterBody(a, r, ms);
    SerialMsConcat(body, [last]);
    FrameBody(a, r, body, ms);
    OneByte(b, last);
    SerialSplit(a, body, [last], b);
    LastByte(a, r, ms, last, t);
  }

  lemma SerialSplit(a: App, x: seq<SerialInput>, y: seq<SerialInput>, b: App)
    requires ParserInvariant(a.parser) && b == SerialRx(a, x)
    ensures ParserInvariant(b.parser) && SerialRx(a, x + y) == SerialRx(b, y)
  {
    SerialConcat(a, x, y);
  }

  /** The application once everything but the CRC byte of a frame has arrived. */
  function AfterBody(a: App, r: Request, ms: nat): App {
    a.(parser := Feed(IDLE, Body(r)), now := a.now + ms)
  }

  lemma SplitLast(r: Request, inputs: seq<SerialInput>)
    requires Values(inputs) == Encode(r)
    ensures |inputs| > 0
    ensures var n := |inputs| - 1;
            Values(inputs[..n]) == Body(r) && inputs[n].value == Checksum(Body(r)) &&
            inputs == inputs[..n] + [inputs[n]]
  {
    var n := |inputs| - 1;
    assert |Values(inputs)| == |Body(r)| + 1;
    assert Values(inputs[..n]) == Values(inputs)[..n] == Body(r);
    assert inputs[n].value == Values(inputs)[n];
  }

  lemma FrameBody(a: App, r: Request, body: seq<SerialInput>, ms: nat)
    requires a.parser == IDLE && ParserInvariant(a.parser) && SerialFrame.WellFormed(r)
    requires Values(body) == Body(r) && ms == SerialMs(body)
    ensures AfterBody(a, r, ms) == SerialRx(a, body)
    ensures ParserInvariant(AfterBody(a, r, ms).parser)
  {
    FeedBody(r);
    OnlyFramesAct(a, body);
    SerialConcat(a, body, []);
  }

  lemma OneByte(b: App, last: SerialInput)
    requires ParserInvariant(b.parser)
    ensures SerialRx(b, [last]) == OnByte(Tick(b, last.ms), last.value, last.encoders)
    ensures SerialMs([last]) == last.ms
  {
    assert [last][1..] == [];
    OnByteParser(Tick(b, last.ms), last.value, last.encoders);
    var c := OnByte(Tick(b, last.ms), last.value, last.encoders);
    assert SerialRx(c, []) == c;
  }

  lemma LastByte(a: App, r: Request, ms: nat, last: SerialInput, t: nat)
    requires a.parser == IDLE && SerialFrame.WellFormed(r) && last.value == Checksum(Body(r)) &&
             t == a.now + ms + last.ms
    requires ParserInvariant(AfterBody(a, r, ms).parser)
    ensures OnByte(Tick(AfterBody(a, r, ms), last.ms), last.value, last.encoders) ==
            OnRequest(At(a, t), r, last.encoders)
  {
    hide AfterWrite, AfterKeepalive, Committed;
    var b := Tick(AfterBody(a, r, ms), last.ms);
    FeedBody(r);
    assert Step(b.parser, last.value) == (IDLE, Frame(r));
    assert b.(parser := IDLE) == At(a, t);
  }

  /** Line noise and then the bytes of one request. */
  datatype Arrival = Arrival(noise: seq<SerialInput>, request: Request, bytes: seq<SerialInput>)

  predicate Proper(x: Arrival) {
    Noise(Values(x.noise)) && SerialFrame.WellFormed(x.request) && Values(x.bytes) == Encode(x.request) && |x.bytes| > 0
  }

  function Line(arrivals: seq<Arrival>): seq<SerialInput>
    decreases |arrivals|
  {
    if arrivals == [] then [] else (arrivals[0].noise + arrivals[0].bytes) + Line(arrivals[1..])
  }

  /** The request handled at the time its last byte arrived. */
  function HandledOne(a: App, x: Arrival): App
    requires Proper(x)
  {
    OnRequest(At(a, a.now + SerialMs(x.noise) + SerialMs(x.bytes)), x.request, x.bytes[|x.bytes| - 1].encoders)
  }

  /** Each request handled once, in order. */
  function Handled(a: App, arrivals: seq<Arrival>): App
    requires forall i :: 0 <= i < |arrivals| ==> Proper(arrivals[i])
    decreases |arrivals|
  {
    if arrivals == [] then a
    else
      assert Proper(arrivals[0]);
      Handled(HandledOne(a, arrivals[0]), arrivals[1..])
  }

  lemma RequestKeepsParser(a: App, r: Request, e: Encoders)
    requires SerialFrame.WellFormed(r)
    ensures OnRequest(a, r, e).parser == a.parser
  {
  }

  lemma OneArrival(a: App, x: Arrival)
    requires a.parser == IDLE && ParserInvariant(a.parser) && Proper(x)
    ensures SerialRx(a, x.noise + x.bytes) == HandledOne(a, x) && HandledOne(a, x).parser == IDLE
  {
    hide OnRequest, HandledOne, SerialRx, SerialMs, At, ParserInvariant, SerialFrame.WellFormed, SerialFrame.Noise,
         SerialFrame.Encode;
    var t1 := a.now + SerialMs(x.noise);
    var t2 := t1 + SerialMs(x.bytes);
    var b, e := At(a, t1), x.bytes[|x.bytes| - 1].encoders;
    AtTwice(a, t1, t2);
    NoisePasses(a, x.noise, t1);
    SerialSplit(a, x.noise, x.bytes, b);
    FrameActsOnce(b, x.request, x.bytes, t2, e);
    HandledOneAt(a, x, t2, e);
  }

  lemma HandledOneAt(a: App, x: Arrival, t: nat, e: Encoders)
    requires Proper(x) && t == a.now + SerialMs(x.noise) + SerialMs(x.bytes) && e == x.bytes[|x.bytes| - 1].encoders
    ensures OnRequest(At(a, t), x.request, e) == HandledOne(a, x) && HandledOne(a, x).parser == a.parser
  {
    hide OnRequest, SerialFrame.WellFormed, SerialMs, SerialFrame.Noise, SerialFrame.Encode;
    RequestKeepsParser(At(a, t), x.request, e);
  }

  lemma AtTwice(a: App, s: nat, t: nat)
    ensures At(At(a, s), t) == At(a, t) && At(a, s).parser == a.parser && At(a, s).now == s
  {
  }

  lemma NoisePasses(a: App, noise: seq<SerialInput>, t: nat)
    requires a.parser == IDLE && ParserInvariant(a.parser) && Noise(Values(noise)) && t == a.now + SerialMs(noise)
    ensures At(a, t) == SerialRx(a, noise)
  {
    NoiseIsIgnored(Values(noise));
    OnlyFramesAct(a, noise);
  }

  /** From bytes to behaviour: any list of well-formed requests sent over a noisy line acts on the
      application exactly as the requests handled one by one. */
  lemma {:induction false} LineDelivers(a: App, arrivals: seq<Arrival>)
    requires a.parser == IDLE && ParserInvariant(a.parser)
    requires forall i :: 0 <= i < |arrivals| ==> Proper(arrivals[i])
    ensures SerialRx(a, Line(arrivals)) == Handled(a, arrivals)
    decreases |arrivals|
  {
    if arrivals != [] {
      var x := arrivals[0];
      assert Proper(x);
      OneArrival(a, x);
      SerialConcat(a, x.noise + x.bytes, Line(arrivals[1..]));
      LineDelivers(HandledOne(a, x), arrivals[1..]);
    }
  }

  lemma HeededEvents(f: RegFile, e: Event)
    requires e.Frame? ==> SerialFrame.WellFormed(e.request)
    ensures HandleEvent(f, e).committed ==>
              e.Frame? && e.request.cmd == CMD_WRITE && CommitAccepted(e.request.reg, e.request.data)
    ensures HandleEvent(f, e).keepalive ==> e.Frame? && e.request.cmd == CMD_HEARTBEAT && e.request.length == 0
  {
  }

  /** Only an accepted write or an accepted heartbeat renews the lease. */
  lemma LeaseNeedsTraffic(a: App, value: Byte, e: Encoders)
    requires ParserInvariant(a.parser)
    ensures OnByte(a, value, e).leaseAt != a.leaseAt ==>
              exists r :: Step(a.parser, value).1 == Frame(r) &&
                ((r.cmd == CMD_WRITE && CommitAccepted(r.reg, r.data)) ||
                 (r.cmd == CMD_HEARTBEAT && r.length == 0 && !a.timeout && HasActiveCommand(a.file)))
  {
    hide ParserInvariant, HasActiveCommand, Step, HandleEvent, Committed, AfterWrite;
    StepSound(a.parser, value);
    var event := Step(a.parser, value).1;
    HeededEvents(a.file, event);
    if event.Frame? { assert event == Frame(event.request); }
  }
}
