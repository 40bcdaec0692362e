/** Frames on the serial link and the byte-at-a-time parser, as values. */
module SerialFrame {
  import opened Arith
  import opened RegisterSpec
  import opened Crc8

  const SOF: Byte := 0xAA
  const CMD_READ: Byte := 0x01
  const CMD_WRITE: Byte := 0x02
  const CMD_HEARTBEAT: Byte := 0x03
  const STATUS_OK: Byte := 0x00
  const STATUS_ERROR: Byte := 0x01
  const MAX_FRAME_LENGTH: nat := 4 + MAX_PAYLOAD_LENGTH + 1

  /** What a frame asks for. Only a write carries data; a read's length says how much to return. */
  datatype Request = Request(cmd: Byte, reg: Byte, length: Byte, data: seq<Byte>)

  predicate WellFormed(r: Request) {
    r.length <= MAX_PAYLOAD_LENGTH && |r.data| == if r.cmd == CMD_WRITE then r.length else 0
  }

  function Body(r: Request): seq<Byte> {
    [SOF, r.cmd, r.reg, r.length] + r.data
  }

  function Encode(r: Request): seq<Byte> {
    Body(r) + [Checksum(Body(r))]
  }

  // ----- the parser -----

  datatype ParserState = WaitSof | Command | Register | Length | Data | Crc

  datatype Parser = Parser(state: ParserState, crc: Byte, cmd: Byte, reg: Byte, length: Byte, data: seq<Byte>)

  datatype Event = Quiet | Oversize(cmd: Byte, reg: Byte) | BadCrc | Frame(request: Request)

  const IDLE: Parser := Parser(WaitSof, 0, 0, 0, 0, [])

  function Step(p: Parser, value: Byte): (Parser, Event) {
    match p.state
    case WaitSof =>
      (if value == SOF then p.(crc := Update(0, value), state := Command) else p, Quiet)
    case Command =>
      (p.(cmd := value, crc := Update(p.crc, value), state := Register), Quiet)
    case Register =>
      (p.(reg := value, crc := Update(p.crc, value), state := Length), Quiet)
    case Length =>
      if value > MAX_PAYLOAD_LENGTH then (IDLE, Oversize(p.cmd, p.reg))
      else (p.(length := value, data := [], crc := Update(p.crc, value),
               state := if p.cmd == CMD_WRITE && value > 0 then Data else Crc), Quiet)
    case Data =>
      (p.(data := p.data + [value], crc := Update(p.crc, value),
          state := if |p.data| + 1 >= p.length then Crc else Data), Quiet)
    case Crc =>
      (IDLE, if p.crc != value then BadCrc else Frame(Request(p.cmd, p.reg, p.length, p.data)))
  }

  function Feed(p: Parser, bytes: seq<Byte>): Parser
    decreases |bytes|
  {
    if bytes == [] then p else Feed(Step(p, bytes[0]).0, bytes[1..])
  }

  /** Everything the parser reports while reading `bytes`, in order. */
  function Events(p: Parser, bytes: seq<Byte>): seq<Event>
    decreases |bytes|
  {
    if bytes == [] then [] else
      var (next, event) := Step(p, bytes[0]);
      (if event == Quiet then [] else [event]) + Events(next, bytes[1..])
  }

  lemma {:induction false} FeedConcat(p: Parser, a: seq<Byte>, b: seq<Byte>)
    ensures Feed(p, a + b) == Feed(Feed(p, a), b)
    ensures Events(p, a + b) == Events(p, a) + Events(Feed(p, a), b)
    decreases |a|
  {
    if a == [] {
      assert a + b == b;
    } else {
      assert (a + b)[1..] == a[1..] + b;
      FeedConcat(Step(p, a[0]).0, a[1..], b);
    }
  }

  // ----- soundness: what the parser holds is what it was sent -----

  /** The bytes since the start byte, rebuilt from the parser's fields. */
  function Pending(p: Parser): seq<Byte> {
    match p.state
    case WaitSof => []
    case Command => [SOF]
    case Register => [SOF, p.cmd]
    case Length => [SOF, p.cmd, p.reg]
    case Data => [SOF, p.cmd, p.reg, p.length] + p.data
    case Crc => [SOF, p.cmd, p.reg, p.length] + p.data
  }

  predicate ParserInvariant(p: Parser) {
    p.crc == Checksum(Pending(p)) &&
    (p.state == Data ==> p.cmd == CMD_WRITE && |p.data| < p.length <= MAX_PAYLOAD_LENGTH) &&
    (p.state == Crc ==> WellFormed(Request(p.cmd, p.reg, p.length, p.data))) &&
    (p.state != Data && p.state != Crc ==> p.data == [])
  }

  predicate EndsWith(s: seq<Byte>, tail: seq<Byte>) {
    |tail| <= |s| && s[|s| - |tail|..] == tail
  }

  lemma EndsWithAppend(s: seq<Byte>, tail: seq<Byte>, value: Byte)
    requires EndsWith(s, tail)
    ensures EndsWith(s + [value], tail + [value])
  {
    assert (s + [value])[|s| - |tail|..] == s[|s| - |tail|..] + [value];
  }

  /** One byte keeps the running CRC equal to the checksum of the pending bytes, and a
      frame is reported only when the pending bytes and this one are its exact encoding. */
  lemma StepSound(p: Parser, value: Byte)
    requires ParserInvariant(p)
    ensures ParserInvariant(Step(p, value).0)
    ensures Pending(Step(p, value).0) == [] || Pending(Step(p, value).0) == Pending(p) + [value]
    ensures match Step(p, value).1
            case Frame(r) => WellFormed(r) && Pending(p) + [value] == Encode(r)
            case BadCrc => value != Checksum(Pending(p))
            case _ => true
  {
    hide Update, UpdateAll, Checksum;
    ChecksumAppend(Pending(p), value);
    ChecksumOfNone(Pending(p));
    ChecksumOfNone([]);
    match p.state
    case WaitSof => assert Pending(p) + [value] == [value];
    case Command => assert Pending(p) + [value] == [SOF, value];
    case Register => assert Pending(p) + [value] == [SOF, p.cmd, value];
    case Length => assert Pending(p) + [value] == [SOF, p.cmd, p.reg, value] + [];
    case Data => assert Pending(p) + [value] == [SOF, p.cmd, p.reg, p.length] + (p.data + [value]);
    case Crc =>
  }

  /** Over every byte stream: the CRC covers exactly the bytes since the start byte,
      the payload stays inside its buffer, and the pending bytes end the stream. */
  lemma {:induction false} StreamSound(p: Parser, history: seq<Byte>, bytes: seq<Byte>)
    requires ParserInvariant(p) && EndsWith(history, Pending(p))
    ensures ParserInvariant(Feed(p, bytes))
    ensures EndsWith(history + bytes, Pending(Feed(p, bytes)))
    ensures |Feed(p, bytes).data| <= MAX_PAYLOAD_LENGTH
    decreases |bytes|
  {
    hide Update, UpdateAll, Checksum, ParserInvariant, EndsWith, Pending, Step;
    if bytes == [] {
      PayloadFits(p);
      assert history + bytes == history;
    } else {
      var next := Step(p, bytes[0]).0;
      OneByteSound(p, history, bytes[0]);
      StreamSound(next, history + [bytes[0]], bytes[1..]);
      assert history + [bytes[0]] + bytes[1..] == history + bytes;
      assert Feed(p, bytes) == Feed(next, bytes[1..]);
    }
  }

  lemma PayloadFits(p: Parser)
    requires ParserInvariant(p)
    ensures |p.data| <= MAX_PAYLOAD_LENGTH
  {
    hide Checksum;
  }

  lemma OneByteSound(p: Parser, history: seq<Byte>, value: Byte)
    requires ParserInvariant(p) && EndsWith(history, Pending(p))
    ensures ParserInvariant(Step(p, value).0) && EndsWith(history + [value], Pending(Step(p, value).0))
  {
    StepSound(p, value);
    EndsWithAppend(history, Pending(p), value);
  }

  /** A reported frame is one the stream really ends with: well formed, with its own checksum. */
  lemma FramesAreReal(bytes: seq<Byte>, value: Byte, r: Request)
    requires Step(Feed(IDLE, bytes), value).1 == Frame(r)
    ensures WellFormed(r) && EndsWith(bytes + [value], Encode(r))
  {
    assert Pending(IDLE) == [] && EndsWith([], []);
    StreamSound(IDLE, [], bytes);
    assert [] + bytes == bytes;
    var p := Feed(IDLE, bytes);
    StepSound(p, value);
    EndsWithAppend(bytes, Pending(p), value);
  }

  // ----- completeness: every well-formed frame is handled exactly once -----

  lemma {:induction false} FeedData(p: Parser, bytes: seq<Byte>)
    requires p.state == Data && |bytes| > 0 && |p.data| + |bytes| == p.length
    ensures Feed(p, bytes) == p.(data := p.data + bytes, crc := UpdateAll(p.crc, bytes), state := Crc)
    ensures Events(p, bytes) == []
    decreases |bytes|
  {
    hide Update, UpdateAll;
    var next := Step(p, bytes[0]).0;
    UpdateAllFirst(p.crc, bytes);
    if |bytes| == 1 {
      UpdateAllNone(next.crc, bytes[1..]);
      assert bytes[1..] == [] && p.data + bytes == p.data + [bytes[0]];
    } else {
      FeedData(next, bytes[1..]);
      assert p.data + [bytes[0]] + bytes[1..] == p.data + bytes;
    }
  }

  /** After header and data the parser waits for the CRC byte of exactly these bytes. */
  lemma FeedBody(r: Request)
    requires WellFormed(r)
    ensures Feed(IDLE, Body(r)) == Parser(Crc, Checksum(Body(r)), r.cmd, r.reg, r.length, r.data)
    ensures Events(IDLE, Body(r)) == []
  {
    var header := [SOF, r.cmd, r.reg, r.length];
    FeedHeader(r);
    UpdateAllConcat(0, header, r.data);
    FeedConcat(IDLE, header, r.data);
    if r.data != [] { FeedData(Feed(IDLE, header), r.data); }
  }

  lemma FeedHeader(r: Request)
    requires WellFormed(r)
    ensures Feed(IDLE, [SOF, r.cmd, r.reg, r.length]) ==
            Parser(if r.data != [] then Data else Crc,
                   Checksum([SOF, r.cmd, r.reg, r.length]), r.cmd, r.reg, r.length, [])
    ensures Events(IDLE, [SOF, r.cmd, r.reg, r.length]) == []
  {
    hide Checksum, Update;
    FeedOne(IDLE, [], SOF);
    FeedOne(IDLE, [SOF], r.cmd);
    FeedOne(IDLE, [SOF, r.cmd], r.reg);
    FeedOne(IDLE, [SOF, r.cmd, r.reg], r.length);
    ChecksumOfNone([]);
    ChecksumAppend([], SOF);
    ChecksumAppend([SOF], r.cmd);
    ChecksumAppend([SOF, r.cmd], r.reg);
    ChecksumAppend([SOF, r.cmd, r.reg], r.length);
    assert [] + [SOF] == [SOF] && [SOF] + [r.cmd] == [SOF, r.cmd];
    assert [SOF, r.cmd] + [r.reg] == [SOF, r.cmd, r.reg];
    assert [SOF, r.cmd, r.reg] + [r.length] == [SOF, r.cmd, r.reg, r.length];
  }

  lemma FeedOne(p: Parser, bytes: seq<Byte>, value: Byte)
    ensures Feed(p, bytes + [value]) == Step(Feed(p, bytes), value).0
    ensures Events(p, bytes + [value]) ==
            Events(p, bytes) + (if Step(Feed(p, bytes), value).1 == Quiet then [] else [Step(Feed(p, bytes), value).1])
  {
    FeedConcat(p, bytes, [value]);
    assert [value][1..] == [];
    assert Events(Step(Feed(p, bytes), value).0, [value][1..]) == [];
  }

  lemma DecodeOne(r: Request)
    requires WellFormed(r)
    ensures Feed(IDLE, Encode(r)) == IDLE
    ensures Events(IDLE, Encode(r)) == [Frame(r)]
  {
    FeedBody(r);
    FeedOne(IDLE, Body(r), Checksum(Body(r)));
  }

  /** Line noise between frames: anything but a start byte. */
  predicate Noise(bytes: seq<Byte>) {
    SOF !in bytes
  }

  lemma {:induction false} NoiseIsIgnored(bytes: seq<Byte>)
    requires Noise(bytes)
    ensures Feed(IDLE, bytes) == IDLE && Events(IDLE, bytes) == []
    decreases |bytes|
  {
    if bytes != [] {
      assert Noise(bytes[1..]);
      NoiseIsIgnored(bytes[1..]);
    }
  }

  datatype Sent = Sent(noise: seq<Byte>, request: Request)

  /** What the parser ought to report. */
  function Reports(sent: seq<Sent>): seq<Event> {
    seq(|sent|, i requires 0 <= i < |sent| => Frame(sent[i].request))
  }

  function Transmission(sent: seq<Sent>): seq<Byte>
    decreases |sent|
  {
    if sent == [] then [] else sent[0].noise + Encode(sent[0].request) + Transmission(sent[1..])
  }

  /** Any list of well-formed frames, with any noise between them, is reported exactly
      once each and in order, and leaves the parser waiting for the next start byte. */
  lemma {:induction false} DecodeAll(sent: seq<Sent>)
    requires forall i :: 0 <= i < |sent| ==> Noise(sent[i].noise) && WellFormed(sent[i].request)
    ensures Feed(IDLE, Transmission(sent)) == IDLE
    ensures Events(IDLE, Transmission(sent)) == Reports(sent)
    decreases |sent|
  {
    hide Step, Encode, Body, WellFormed, Feed, Events;
    if sent == [] {
      FeedNone(IDLE);
    } else {
      hide Reports;
      FirstReport(sent);
      DecodeAll(sent[1..]);
      FirstDecodes(sent[0], Transmission(sent[1..]));
    }
  }

  lemma FirstReport(sent: seq<Sent>)
    requires sent != []
    ensures Reports(sent) == [Frame(sent[0].request)] + Reports(sent[1..])
  {
  }

  lemma FeedNone(p: Parser)
    ensures Feed(p, []) == p && Events(p, []) == []
  {
  }

  /** A frame with noise before it is reported, and the parser is where it was for what follows. */
  lemma FirstDecodes(x: Sent, rest: seq<Byte>)
    requires Noise(x.noise) && WellFormed(x.request)
    ensures Feed(IDLE, x.noise + Encode(x.request) + rest) == Feed(IDLE, rest)
    ensures Events(IDLE, x.noise + Encode(x.request) + rest) == [Frame(x.request)] + Events(IDLE, rest)
  {
    hide Step, Encode, Body, WellFormed, Noise, Feed, Events;
    NoiseIsIgnored(x.noise);
    DecodeOne(x.request);
    FeedConcat(IDLE, x.noise, Encode(x.request));
    FeedConcat(IDLE, x.noise + Encode(x.request), rest);
    assert [] + [Frame(x.request)] == [Frame(x.request)];
  }

  // ----- single-byte corruption -----

  /** Changing the register, a data byte or the CRC of a frame makes the parser drop it. */
  lemma CorruptionIsDropped(r: Request, k: nat, x: Byte)
    requires WellFormed(r) && k < |Encode(r)|
    requires k == 2 || k >= 4
    requires x != Encode(r)[k]
    ensures Feed(IDLE, Encode(r)[k := x]) == IDLE
    ensures Events(IDLE, Encode(r)[k := x]) == [BadCrc]
  {
    var body, crc := Body(r), Checksum(Body(r));
    if k == |body| {
      assert Encode(r)[k := x] == body + [x];
      DropWrongCrc(r, x);
    } else {
      var r' := if k == 2 then r.(reg := x) else r.(data := r.data[k - 4 := x]);
      assert Body(r') == body[k := x];
      assert Encode(r)[k := x] == Body(r') + [crc];
      ChecksumDetectsOneByte(body, k, x);
      DropWrongCrc(r', crc);
    }
  }

  lemma DropWrongCrc(r: Request, x: Byte)
    requires WellFormed(r) && x != Checksum(Body(r))
    ensures Feed(IDLE, Body(r) + [x]) == IDLE
    ensures Events(IDLE, Body(r) + [x]) == [BadCrc]
  {
    FeedBody(r);
    FeedOne(IDLE, Body(r), x);
  }

  // ----- handling -----

  /** The reply to a request: the same framing, with the top bit of the command set. */
  function Response(cmd: Byte, reg: Byte, data: seq<Byte>): seq<Byte>
    requires |data| <= MAX_PAYLOAD_LENGTH
  {
    var body := ResponseHeader(cmd, reg, |data|) + data;
    body + [Checksum(body)]
  }

  function ResponseHeader(cmd: Byte, reg: Byte, length: Byte): seq<Byte> {
    [SOF, if cmd < 0x80 then cmd + 0x80 else cmd, reg, length]
  }

  function StatusResponse(cmd: Byte, reg: Byte, ok: bool): seq<Byte> {
    Response(cmd, reg, [if ok then STATUS_OK else STATUS_ERROR])
  }

  predicate Readable(start: Byte, length: Byte) {
    length > 0 && start + length <= REGISTER_COUNT
  }

  datatype Outcome = Outcome(file: RegFile, response: seq<Byte>, committed: bool, keepalive: bool)

  function HandleRequest(f: RegFile, r: Request): Outcome
    requires WellFormed(r)
  {
    if r.cmd == CMD_HEARTBEAT then
      Outcome(f, StatusResponse(r.cmd, r.reg, r.length == 0), false, r.length == 0)
    else if r.cmd == CMD_READ then
      Outcome(f, if Readable(r.reg, r.length) then Response(r.cmd, r.reg, f.regs[r.reg..r.reg + r.length])
                 else StatusResponse(r.cmd, r.reg, false), false, false)
    else if r.cmd == CMD_WRITE then
      var ok := r.length > 0 && CommitAccepted(r.reg, r.data);
      Outcome(if ok then Committed(f, r.reg, r.data) else f, StatusResponse(r.cmd, r.reg, ok), ok, false)
    else
      Outcome(f, StatusResponse(r.cmd, r.reg, false), false, false)
  }

  function HandleEvent(f: RegFile, e: Event): Outcome
    requires e.Frame? ==> WellFormed(e.request)
  {
    match e
    case Quiet => Outcome(f, [], false, false)
    case BadCrc => Outcome(f, [], false, false)
    case Oversize(cmd, reg) => Outcome(f, StatusResponse(cmd, reg, false), false, false)
    case Frame(r) => HandleRequest(f, r)
  }

  /** Registers change only on an accepted write frame, and then by that write alone. */
  lemma OnlyWritesChangeRegisters(f: RegFile, e: Event)
    requires e.Frame? ==> WellFormed(e.request)
    ensures HandleEvent(f, e).file != f ==> e.Frame? && e.request.cmd == CMD_WRITE && HandleEvent(f, e).committed
    ensures HandleEvent(f, e).committed ==>
              e.Frame? && CommitAccepted(e.request.reg, e.request.data) &&
              HandleEvent(f, e).file == Committed(f, e.request.reg, e.request.data)
    ensures HandleEvent(f, e).keepalive ==> e.Frame? && e.request.cmd == CMD_HEARTBEAT
  {
  }
}
