/** The other end of the serial link: how the main controller sends a request and reads the reply, and what the
    reply of the motor driver tells it. */
module MotorClient {
  import opened Arith
  import opened RegisterSpec
  import opened Crc8
  import opened SerialFrame

  /** What comes back within the time allowed: nothing whole, something damaged, or a frame. */
  datatype Answer = Timeout | Broken | Answer(cmd: Byte, reg: Byte, data: seq<Byte>)

  /** The first frame on the line, from the bytes that arrive in time. */
  function Receive(line: seq<Byte>): Answer
    decreases |line|
  {
    if line == [] then Timeout
    else if line[0] != SOF then Receive(line[1..])
    else ReceiveFrom(line)
  }

  function ReceiveFrom(line: seq<Byte>): Answer
    requires line != []
  {
    if |line| < 4 then Timeout
    else if line[3] > MAX_PAYLOAD_LENGTH then Broken
    else if |line| < 5 + line[3] then Timeout
    else if Checksum(line[..4 + line[3]]) != line[4 + line[3]] then Broken
    else Answer(line[1], line[2], line[4..4 + line[3]])
  }

  /** The answer to a request: a frame for another command or register is refused. */
  function Asked(cmd: Byte, reg: Byte, line: seq<Byte>): Answer {
    var answer := Receive(line);
    if answer.Answer? && (answer.cmd != ReplyTo(cmd) || answer.reg != reg) then Broken else answer
  }

  function ReplyTo(cmd: Byte): Byte { cmd % 0x80 + 0x80 }

  predicate SaysOk(answer: Answer) { answer.Answer? && answer.data == [0x00] }

  lemma {:induction false} NoiseIsSkipped(noise: seq<Byte>, line: seq<Byte>)
    requires Noise(noise)
    ensures Receive(noise + line) == Receive(line)
  {
    if noise == [] {
      assert noise + line == line;
    } else {
      assert (noise + line)[1..] == noise[1..] + line;
      NoiseIsSkipped(noise[1..], line);
    }
  }

  /** A frame on the line, with its checksum. */
  predicate Framed(line: seq<Byte>, cmd: Byte, reg: Byte, data: seq<Byte>) {
    |data| <= MAX_PAYLOAD_LENGTH &&
    var body := [SOF, cmd, reg, |data|] + data;
    line == body + [Checksum(body)]
  }

  lemma FramedReceived(line: seq<Byte>, rest: seq<Byte>, cmd: Byte, reg: Byte, data: seq<Byte>)
    requires Framed(line, cmd, reg, data)
    ensures Receive(line + rest) == Answer(cmd, reg, data)
  {
    hide Checksum;
    var all, body := line + rest, [SOF, cmd, reg, |data|] + data;
    assert all[3] == |data| && all[..4 + |data|] == body && all[4..4 + |data|] == data;
    assert all[4 + |data|] == line[4 + |data|] == Checksum(body);
  }

  /** Whatever is received stood on the line as a frame, after bytes that start none. */
  lemma {:induction false} ReceivedWasSent(line: seq<Byte>) returns (at: nat, end: nat)
    requires Receive(line).Answer?
    ensures at <= end <= |line| && Noise(line[..at])
    ensures Framed(line[at..end], Receive(line).cmd, Receive(line).reg, Receive(line).data)
  {
    hide Checksum;
    if line[0] != SOF {
      var a, b := ReceivedWasSent(line[1..]);
      at, end := a + 1, b + 1;
      assert line[at..end] == line[1..][a..b];
      assert line[..at] == [line[0]] + line[1..][..a];
    } else {
      at, end := 0, 5 + line[3];
      var body := line[..4 + line[3]];
      assert body == [SOF, line[1], line[2], line[3]] + line[4..4 + line[3]];
      assert line[0..end] == body + [line[4 + line[3]]];
    }
  }

  // ----- the driver's replies -----

  /** Every event that is answered at all is answered by one whole frame for its own command and register. */
  lemma RepliesAreFrames(f: RegFile, e: Event)
    requires e.Frame? ==> SerialFrame.WellFormed(e.request)
    ensures var reply := HandleEvent(f, e).response;
            match e
            case Quiet => reply == []
            case BadCrc => reply == []
            case Oversize(cmd, reg) => Framed(reply, ReplyTo(cmd), reg, [0x01])
            case Frame(r) => |reply| > 5 && Framed(reply, ReplyTo(r.cmd), r.reg, reply[4..|reply| - 1])
  {
    hide Checksum, Committed, CommitAccepted;
  }

  lemma ResponseParts(reply: seq<Byte>, cmd: Byte, reg: Byte, data: seq<Byte>, sent: seq<Byte>)
    requires Framed(reply, ReplyTo(cmd), reg, data)
    requires |sent| <= MAX_PAYLOAD_LENGTH && reply == Response(cmd, reg, sent)
    ensures data == sent
  {
    hide Checksum;
    assert data == reply[4..|reply| - 1] && sent == reply[4..|reply| - 1];
  }

  predicate ReadsRegisters(r: Request) { r.cmd == 0x01 && r.length > 0 && r.reg + r.length <= 0x7F }

  /** What the driver answers, byte for byte: reads get the registers, the rest a status that is 0 exactly when the
      request was carried out. */
  lemma ReplyBytes(f: RegFile, r: Request, data: seq<Byte>)
    requires SerialFrame.WellFormed(r) && Framed(HandleRequest(f, r).response, ReplyTo(r.cmd), r.reg, data)
    ensures ReadsRegisters(r) ==>
              |data| == r.length && forall i :: 0 <= i < r.length ==> data[i] == f.regs[r.reg + i]
    ensures var o := HandleRequest(f, r);
            !ReadsRegisters(r) ==>
              data == [if (r.cmd == 0x02 && o.committed) || (r.cmd == 0x03 && o.keepalive) then 0 else 1]
  {
    hide Checksum, Committed, CommitAccepted, Framed, Response;
    var o := HandleRequest(f, r);
    if ReadsRegisters(r) {
      ResponseParts(o.response, r.cmd, r.reg, data, f.regs[r.reg..r.reg + r.length]);
    } else if (r.cmd == 0x02 && o.committed) || (r.cmd == 0x03 && o.keepalive) {
      ResponseParts(o.response, r.cmd, r.reg, data, [0]);
    } else {
      ResponseParts(o.response, r.cmd, r.reg, data, [1]);
    }
  }

  // ----- a whole exchange -----

  /** A request to an idle driver, with noise before the reply, and bytes after it. */
  lemma RequestAnswered(f: RegFile, r: Request, noise: seq<Byte>, rest: seq<Byte>)
    requires SerialFrame.WellFormed(r) && Noise(noise)
    ensures var o := HandleRequest(f, r);
            Events(IDLE, Encode(r)) == [Frame(r)] && HandleEvent(f, Frame(r)) == o &&
            var answer := Asked(r.cmd, r.reg, noise + (o.response + rest));
            answer.Answer? && Framed(o.response, answer.cmd, answer.reg, answer.data) &&
            answer.cmd == ReplyTo(r.cmd) && answer.reg == r.reg
  {
    hide HandleRequest, Receive, Encode, Framed;
    var o := HandleRequest(f, r);
    DecodeOne(r);
    assert HandleEvent(f, Frame(r)) == o;
    RepliesAreFrames(f, Frame(r));
    NoiseIsSkipped(noise, o.response + rest);
    FramedReceived(o.response, rest, ReplyTo(r.cmd), r.reg, o.response[4..|o.response| - 1]);
  }

  /** A write is reported carried out exactly when the registers took it, and refused only if nothing changed. */
  lemma WriteToldTruly(f: RegFile, r: Request, noise: seq<Byte>, rest: seq<Byte>, answer: Answer)
    requires SerialFrame.WellFormed(r) && Noise(noise) && r.cmd == 0x02
    requires answer == Asked(r.cmd, r.reg, noise + (HandleRequest(f, r).response + rest))
    ensures var o := HandleRequest(f, r);
            answer.Answer? && (SaysOk(answer) <==> CommitAccepted(r.reg, r.data)) &&
            (SaysOk(answer) <==> o.committed) &&
            o.file == if SaysOk(answer) then Committed(f, r.reg, r.data) else f
  {
    hide Asked, Committed;
    RequestAnswered(f, r, noise, rest);
    ReplyBytes(f, r, answer.data);
  }

  /** A heartbeat is acknowledged exactly when it may renew the lease: when it announces no payload. */
  lemma HeartbeatToldTruly(f: RegFile, r: Request, noise: seq<Byte>, rest: seq<Byte>, answer: Answer)
    requires SerialFrame.WellFormed(r) && Noise(noise) && r.cmd == 0x03
    requires answer == Asked(r.cmd, r.reg, noise + (HandleRequest(f, r).response + rest))
    ensures var o := HandleRequest(f, r);
            answer.Answer? && (SaysOk(answer) <==> r.length == 0) && (SaysOk(answer) <==> o.keepalive) && o.file == f
  {
    hide Asked;
    RequestAnswered(f, r, noise, rest);
    ReplyBytes(f, r, answer.data);
  }

  /** A read of registers that exist returns them; any other read returns the single byte 1, so the length tells a
      refusal, except of a read of one register: that looks like a register holding 1. */
  lemma ReadToldTruly(f: RegFile, r: Request, noise: seq<Byte>, rest: seq<Byte>, answer: Answer)
    requires SerialFrame.WellFormed(r) && Noise(noise) && r.cmd == 0x01
    requires answer == Asked(r.cmd, r.reg, noise + (HandleRequest(f, r).response + rest))
    ensures var o := HandleRequest(f, r);
            answer.Answer? && o.file == f &&
            (if r.length > 0 && r.reg + r.length <= 0x7F then
               |answer.data| == r.length && forall i :: 0 <= i < r.length ==> answer.data[i] == f.regs[r.reg + i]
             else answer.data == [1] && (|answer.data| == r.length <==> r.length == 1 && r.reg >= 0x7F))
  {
    hide Asked;
    RequestAnswered(f, r, noise, rest);
    ReplyBytes(f, r, answer.data);
  }

  /** One changed byte in a reply, other than the start and the length, is noticed. */
  lemma CorruptReplyIsBroken(line: seq<Byte>, rest: seq<Byte>, cmd: Byte, reg: Byte, data: seq<Byte>, k: nat, x: Byte)
    requires Framed(line, cmd, reg, data) && k < |line| && k !in {0, 3} && x != line[k]
    ensures Receive(line[k := x] + rest) == Broken
  {
    hide Checksum;
    var all, body := line[k := x] + rest, [SOF, cmd, reg, |data|] + data;
    assert all[3] == |data|;
    if k < |body| {
      assert all[..|body|] == body[k := x];
      assert all[|body|] == Checksum(body);
      ChecksumDetectsOneByte(body, k, x);
    } else {
      assert all[..|body|] == body && all[|body|] == x;
    }
  }

  // ----- the loops of the client -----

  /** Sends a frame byte by byte, or nothing when the payload is too long. */
  method SendFrame(cmd: Byte, reg: Byte, data: seq<Byte>, length: Byte) returns (ok: bool, sent: seq<Byte>)
    requires |data| == if cmd == CMD_WRITE then length else 0
    ensures ok <==> length <= MAX_PAYLOAD_LENGTH
    ensures sent == if ok then Encode(Request(cmd, reg, length, data)) else []
  {
    hide Checksum;
    if length > MAX_PAYLOAD_LENGTH { return false, []; }
    var header, crc := [SOF, cmd, reg, length], 0;
    sent := [];
    ChecksumOfNone([]);
    for i := 0 to 4
      invariant sent == header[..i] && crc == Checksum(sent)
    {
      sent, crc := Emit(sent, crc, header[i]);
    }
    for i := 0 to |data|
      invariant sent == header + data[..i] && crc == Checksum(sent)
    {
      sent, crc := Emit(sent, crc, data[i]);
    }
    assert sent == Body(Request(cmd, reg, length, data));
    return true, sent + [crc];
  }

  method Emit(sent: seq<Byte>, crc: Byte, value: Byte) returns (line: seq<Byte>, next: Byte)
    requires crc == Checksum(sent)
    ensures line == sent + [value] && next == Checksum(line)
  {
    ChecksumAppend(sent, value);
    next := Crc8Update(crc, value);
    line := sent + [value];
  }

  /** Reads the line byte by byte up to the end of the first frame. */
  method ReceiveFrame(line: seq<Byte>) returns (answer: Answer)
    ensures answer == Receive(line)
  {
    hide Checksum, Update;
    var at := 0;
    while at < |line| && line[at] != SOF
      invariant at <= |line| && Receive(line) == Receive(line[at..])
    {
      assert line[at..][1..] == line[at + 1..];
      at := at + 1;
    }
    if |line| - at < 4 { return Timeout; }
    ghost var frame := line[at..];
    ChecksumOfNone([]);
    var crc := 0;
    for i := 0 to 4
      invariant crc == Checksum(frame[..i])
    {
      crc := Absorbed(frame, i, crc, line[at + i]);
    }
    var length := line[at + 3];
    if length > MAX_PAYLOAD_LENGTH { return Broken; }
    var data := [];
    for i := 0 to length
      invariant 4 + i <= |frame| && data == frame[4..4 + i] && crc == Checksum(frame[..4 + i])
    {
      if at + 4 + i == |line| { return Timeout; }
      crc := Absorbed(frame, 4 + i, crc, line[at + 4 + i]);
      data := data + [line[at + 4 + i]];
    }
    if at + 4 + length == |line| { return Timeout; }
    return if crc == line[at + 4 + length] then Answer(line[at + 1], line[at + 2], data) else Broken;
  }

  method Absorbed(ghost frame: seq<Byte>, ghost i: nat, crc: Byte, value: Byte) returns (next: Byte)
    requires i < |frame| && frame[i] == value && crc == Checksum(frame[..i])
    ensures next == Checksum(frame[..i + 1])
  {
    ChecksumAppend(frame[..i], value);
    assert frame[..i + 1] == frame[..i] + [value];
    next := Crc8Update(crc, value);
  }
}
