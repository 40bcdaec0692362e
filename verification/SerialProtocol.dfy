/** The serial parser as the firmware keeps it: fields and a payload buffer updated byte by byte. */
module SerialProtocol {
  import opened Arith
  import opened RegisterSpec
  import opened Crc8
  import opened SerialFrame
  import RM = RegisterMap

  /** Buffer the firmware fills with a reply. */
  class SerialResponse {
    const bytes: array<Byte>
    var length: nat

    ghost predicate Valid()
      reads this
    {
      bytes.Length == MAX_FRAME_LENGTH && length <= MAX_FRAME_LENGTH
    }

    function Contents(): seq<Byte>
      requires length <= bytes.Length
      reads this, bytes
    {
      bytes[..length]
    }

    constructor ()
      ensures Valid() && fresh(bytes) && Contents() == []
    {
      bytes := new Byte[MAX_FRAME_LENGTH](i => 0);
      length := 0;
    }
  }

  class SerialProtocol {
    const registers: RM.RegisterMap
    const data: array<Byte>
    var state: ParserState
    var crc: Byte
    var cmd: Byte
    var reg: Byte
    var length: Byte
    var dataIndex: nat

    ghost predicate Valid()
      reads this, data
    {
      data.Length == MAX_PAYLOAD_LENGTH && dataIndex <= MAX_PAYLOAD_LENGTH &&
      registers.Valid() && data != registers.registers &&
      ParserInvariant(View())
    }

    /** The abstract parser: the payload is the filled part of the buffer. */
    function View(): Parser
      requires dataIndex <= data.Length
      reads this, data
    {
      Parser(state, crc, cmd, reg, length, data[..dataIndex])
    }

    constructor (file: RM.RegisterMap)
      requires file.Valid()
      ensures Valid() && fresh(data) && registers == file && View() == IDLE
    {
      registers := file;
      data := new Byte[MAX_PAYLOAD_LENGTH](i => 0);
      state, crc, cmd, reg, length, dataIndex := WaitSof, 0, 0, 0, 0, 0;
    }

    method ResetParser()
      modifies this
      ensures dataIndex == 0 && View() == IDLE
    {
      state, crc, cmd, reg, length, dataIndex := WaitSof, 0, 0, 0, 0, 0;
    }

    /** Feeds one byte: the parser takes the step, the registers and the reply follow the event. */
    method ProcessByte(value: Byte, response: SerialResponse)
      returns (ready: bool, writeCommitted: bool, keepalive: bool)
      requires Valid() && response.Valid()
      requires response.bytes != data && response.bytes != registers.registers
      modifies this, data, response, response.bytes, registers, registers.registers
      ensures Valid() && response.Valid()
      ensures View() == Step(old(View()), value).0
      ensures var outcome := HandleEvent(old(registers.View()), Step(old(View()), value).1);
              registers.View() == outcome.file && response.Contents() == outcome.response &&
              writeCommitted == outcome.committed && keepalive == outcome.keepalive &&
              ready == (outcome.response != [])
    {
      hide Crc8.Update, HandleRequest;
      ghost var before := View();
      StepSound(before, value);
      response.length := 0;
      ready, writeCommitted, keepalive := false, false, false;
      match state {
        case WaitSof => TakeHeader(value);
        case Command => TakeHeader(value);
        case Register => TakeHeader(value);
        case Length =>
          ready := TakeLength(value, response);
        case Data =>
          TakeData(value);
        case Crc =>
          if crc == value {
            ready, writeCommitted, keepalive := HandleFrame(response);
          }
          ResetParser();
      }
      assert View() == Step(before, value).0;
    }

    method TakeHeader(value: Byte)
      requires Valid() && (state == WaitSof || state == Command || state == Register)
      modifies this
      ensures dataIndex == old(dataIndex) && View() == Step(old(View()), value).0
    {
      hide Update, UpdateAll;
      if state == WaitSof {
        if value == SOF {
          crc := Crc8Update(0, value);
          state := Command;
        }
      } else if state == Command {
        cmd := value;
        crc := Crc8Update(crc, value);
        state := Register;
      } else {
        reg := value;
        crc := Crc8Update(crc, value);
        state := Length;
      }
    }

    method TakeLength(value: Byte, response: SerialResponse) returns (ready: bool)
      requires Valid() && response.Valid() && state == Length && response.length == 0
      requires response.bytes != data && response.bytes != registers.registers
      modifies this, response, response.bytes
      ensures response.Valid() && dataIndex <= MAX_PAYLOAD_LENGTH
      ensures View() == Step(old(View()), value).0
      ensures response.Contents() == HandleEvent(registers.View(), Step(old(View()), value).1).response
      ensures ready == (response.Contents() != [])
    {
      hide Update, Checksum, ResponseHeader;
      ready := false;
      length := value;
      dataIndex := 0;
      crc := Crc8Update(crc, value);
      if length > MAX_PAYLOAD_LENGTH {
        BuildStatusResponse(cmd, reg, false, response);
        ResetParser();
        ready := true;
      } else if cmd == CMD_WRITE && length > 0 {
        state := Data;
      } else {
        state := Crc;
      }
      assert data[..dataIndex] == [];
    }

    method TakeData(value: Byte)
      requires Valid() && state == Data
      modifies this, data
      ensures dataIndex <= MAX_PAYLOAD_LENGTH
      ensures View() == Step(old(View()), value).0
    {
      data[dataIndex] := value;
      dataIndex := dataIndex + 1;
      crc := Crc8Update(crc, value);
      if dataIndex >= length { state := Crc; }
      assert data[..dataIndex] == old(data[..dataIndex]) + [value];
    }

    method HandleFrame(response: SerialResponse) returns (ready: bool, writeCommitted: bool, keepalive: bool)
      requires Valid() && response.Valid() && state == Crc
      requires response.bytes != data && response.bytes != registers.registers
      modifies response, response.bytes, registers, registers.registers
      ensures Valid() && response.Valid() && ready && View() == old(View())
      ensures var outcome := HandleRequest(old(registers.View()), Request(cmd, reg, length, data[..dataIndex]));
              registers.View() == outcome.file && response.Contents() == outcome.response != [] &&
              writeCommitted == outcome.committed && keepalive == outcome.keepalive
    {
      hide Committed, Merged, CommitAccepted, Checksum;
      ready, writeCommitted, keepalive := true, false, false;
      if cmd == CMD_HEARTBEAT {
        keepalive := length == 0;
        BuildStatusResponse(cmd, reg, length == 0, response);
      } else if cmd == CMD_READ {
        var block := registers.ReadBlock(reg, length);
        if length > 0 && block.Some? {
          BuildResponse(cmd, reg, block.value, response);
        } else {
          BuildStatusResponse(cmd, reg, false, response);
        }
      } else if cmd == CMD_WRITE {
        var ok := false;
        if length > 0 {
          var controlChanged;
          ok, controlChanged := registers.CommitWrite(reg, data[..length]);
        }
        writeCommitted := ok;
        BuildStatusResponse(cmd, reg, ok, response);
      } else {
        BuildStatusResponse(cmd, reg, false, response);
      }
    }

    static method WriteHeader(bytes: array<Byte>, requestCmd: Byte, reg: Byte, length: Byte) returns (crc: Byte)
      requires bytes.Length == MAX_FRAME_LENGTH
      modifies bytes
      ensures bytes[..4] == ResponseHeader(requestCmd, reg, length)
      ensures crc == Checksum(bytes[..4])
    {
      bytes[0] := SOF;
      bytes[1] := if requestCmd < 0x80 then requestCmd + 0x80 else requestCmd;
      bytes[2] := reg;
      bytes[3] := length;
      crc := 0;
      for index := 0 to 4
        invariant bytes[..4] == ResponseHeader(requestCmd, reg, length)
        invariant crc == Checksum(bytes[..index])
      {
        ChecksumAppend(bytes[..index], bytes[index]);
        assert bytes[..index + 1] == bytes[..index] + [bytes[index]];
        crc := Crc8Update(crc, bytes[index]);
      }
    }

    static method BuildResponse(requestCmd: Byte, reg: Byte, payload: seq<Byte>, response: SerialResponse)
      requires |payload| <= MAX_PAYLOAD_LENGTH && response.Valid()
      modifies response, response.bytes
      ensures response.Valid() && response.Contents() == Response(requestCmd, reg, payload)
    {
      hide ResponseHeader, Checksum;
      var bytes := response.bytes;
      ghost var header := ResponseHeader(requestCmd, reg, |payload|);
      var crc := WriteHeader(bytes, requestCmd, reg, |payload|);
      for index := 0 to |payload|
        invariant bytes[..4 + index] == header + payload[..index]
        invariant crc == Checksum(header + payload[..index])
      {
        ChecksumAppend(header + payload[..index], payload[index]);
        assert header + payload[..index + 1] == header + payload[..index] + [payload[index]];
        bytes[4 + index] := payload[index];
        crc := Crc8Update(crc, payload[index]);
      }
      assert payload[..|payload|] == payload;
      bytes[4 + |payload|] := crc;
      response.length := 5 + |payload|;
      assert response.Contents() == (header + payload) + [crc];
    }

    static method BuildStatusResponse(requestCmd: Byte, reg: Byte, ok: bool, response: SerialResponse)
      requires response.Valid()
      modifies response, response.bytes
      ensures response.Valid() && response.Contents() == StatusResponse(requestCmd, reg, ok)
    {
      BuildResponse(requestCmd, reg, [if ok then STATUS_OK else STATUS_ERROR], response);
    }
  }
}
