/** The request and response bytes of the library's own test suite, checked against the model. */
module TestVectors {
  import opened Bytes
  import opened ModbusCodes
  import opened TcpCodec
  import TcpCommandFactory
  import EventFactory
  import ModbusCommands

  /** The bits of `e`, least significant first, are the eight flags `f`. */
  lemma ByteBits(e: Byte, f: seq<bool>)
    requires |f| == 8
    requires BitAt(e, 0) == f[0] && BitAt(e, 1) == f[1] && BitAt(e, 2) == f[2] && BitAt(e, 3) == f[3]
    requires BitAt(e, 4) == f[4] && BitAt(e, 5) == f[5] && BitAt(e, 6) == f[6] && BitAt(e, 7) == f[7]
    ensures forall j :: 0 <= j < 8 ==> BitAt(e, j) == f[j]
  {
    forall j | 0 <= j < 8
      ensures BitAt(e, j) == f[j]
    {
      assert j == 0 || j == 1 || j == 2 || j == 3 || j == 4 || j == 5 || j == 6 || j == 7;
    }
  }

  // ---------------------------------------------------------------- read coil status

  /** A read of 37 coils from offset 0x0110, unit 5, transaction 1. */
  const CoilRequest: Packet := [0x00, 0x01, 0x00, 0x00, 0x00, 0x06, 0x05, 0x01, 0x01, 0x10, 0x00, 0x25]

  const CoilStatuses: seq<bool> := [
    true, false, true, true, false, false, true, true,
    true, true, false, true, false, true, true, false,
    false, true, false, false, true, true, false, true,
    false, true, true, true, false, false, false, false,
    true, true, false, true, true]

  const CoilData: seq<Byte> := [0xCD, 0x6B, 0xB2, 0x0E, 0x1B]

  lemma CoilByte0() ensures forall j :: 0 <= j < 8 ==> BitAt(0xCD, j) == DataBit(CoilStatuses, j)
  {
    ByteBits(0xCD, [true, false, true, true, false, false, true, true]);
  }

  lemma CoilByte1() ensures forall j :: 0 <= j < 8 ==> BitAt(0x6B, j) == DataBit(CoilStatuses, 8 + j)
  {
    ByteBits(0x6B, [true, true, false, true, false, true, true, false]);
  }

  lemma CoilByte2() ensures forall j :: 0 <= j < 8 ==> BitAt(0xB2, j) == DataBit(CoilStatuses, 16 + j)
  {
    ByteBits(0xB2, [false, true, false, false, true, true, false, true]);
  }

  lemma CoilByte3() ensures forall j :: 0 <= j < 8 ==> BitAt(0x0E, j) == DataBit(CoilStatuses, 24 + j)
  {
    ByteBits(0x0E, [false, true, true, true, false, false, false, false]);
  }

  /** The last byte holds five flags; its three high bits are padding. */
  lemma CoilByte4() ensures forall j :: 0 <= j < 8 ==> BitAt(0x1B, j) == DataBit(CoilStatuses, 32 + j)
  {
    ByteBits(0x1B, [true, true, false, true, true, false, false, false]);
  }

  lemma CoilStatusPayload()
    ensures PackedBits(CoilStatuses, 37) == CoilData
  {
    CoilByte0();
    CoilByte1();
    CoilByte2();
    CoilByte3();
    CoilByte4();
    CoilPayloadFromBytes(CoilData);
  }

  lemma CoilPayloadFromBytes(expected: seq<Byte>)
    requires expected == [0xCD, 0x6B, 0xB2, 0x0E, 0x1B]
    requires forall j :: 0 <= j < 8 ==> BitAt(0xCD, j) == DataBit(CoilStatuses, j)
    requires forall j :: 0 <= j < 8 ==> BitAt(0x6B, j) == DataBit(CoilStatuses, 8 + j)
    requires forall j :: 0 <= j < 8 ==> BitAt(0xB2, j) == DataBit(CoilStatuses, 16 + j)
    requires forall j :: 0 <= j < 8 ==> BitAt(0x0E, j) == DataBit(CoilStatuses, 24 + j)
    requires forall j :: 0 <= j < 8 ==> BitAt(0x1B, j) == DataBit(CoilStatuses, 32 + j)
    ensures PackedBits(CoilStatuses, 37) == expected
  {
    forall i, j | 0 <= i < 5 && 0 <= j < 8
      ensures BitAt(expected[i], j) == DataBit(CoilStatuses, 8 * i + j)
    {
      if i == 0 { } else if i == 1 { } else if i == 2 { } else if i == 3 { } else { }
    }
    assert CeilDiv8(37) == 5;
    PackedBitsUnique(CoilStatuses, 37, expected);
  }

  /** A bit-status frame is the header and the packed flags it is built from. */
  lemma BitStatusFrameOf(request: Packet, data: seq<bool>, header: Packet, payload: seq<Byte>)
    requires |request| >= MinRequestLength
    requires ReadResponseHeader(request, CeilDiv8(Quantity(request))) == header
    requires PackedBits(data, Quantity(request)) == payload
    ensures BitStatusFrame(request, data) == header + payload
  {
    var r := BitStatusFrame(request, data);
    assert r == r[..9] + r[9..];
  }

  lemma CoilStatusHeader()
    ensures ReadResponseHeader(CoilRequest, 5) == [0x00, 0x01, 0x00, 0x00, 0x00, 0x08, 0x05, 0x01, 0x05]
  {
  }

  lemma CoilStatusBytes()
    ensures [0x00, 0x01, 0x00, 0x00, 0x00, 0x08, 0x05, 0x01, 0x05] + CoilData == [0x00, 0x01, 0x00, 0x00, 0x00, 0x08, 0x05, 0x01, 0x05, 0xCD, 0x6B, 0xB2, 0x0E, 0x1B]
  {
  }

  /** The 37 flags answer with byte count 5, length 8 and the data bytes `CD 6B B2 0E 1B`. */
  lemma CoilStatusResponse()
    ensures BitStatusFrame(CoilRequest, CoilStatuses) == [0x00, 0x01, 0x00, 0x00, 0x00, 0x08, 0x05, 0x01, 0x05, 0xCD, 0x6B, 0xB2, 0x0E, 0x1B]
  {
    assert Quantity(CoilRequest) == 37 && CeilDiv8(37) == 5;
    CoilStatusHeader();
    CoilStatusPayload();
    CoilStatusBytes();
    BitStatusFrameOf(CoilRequest, CoilStatuses, [0x00, 0x01, 0x00, 0x00, 0x00, 0x08, 0x05, 0x01, 0x05], CoilData);
  }

  /** The exception response to the coil request with exception 4. */
  lemma CoilStatusFailure()
    ensures FailureFrame(CoilRequest, ServerDeviceFailure) == [0x00, 0x01, 0x00, 0x00, 0x00, 0x03, 0x05, 0x81, 0x04]
  {
  }

  /** Address 0x0110 is 272 under simple addressing and 273 in Modicon coil numbering; 37 is the count. */
  lemma CoilRequestFields()
    ensures Address(Coil, true, CoilRequest) == 272 && Address(Coil, false, CoilRequest) == 273
    ensures Quantity(CoilRequest) == 37 && UnitId(CoilRequest) == 5
    ensures TcpCommandFactory.Decode(CoilRequest) == Success(ModbusCommands.ReadCoilStatusCommand)
  {
  }

  // ---------------------------------------------------------------- read input status

  /** A read of 22 inputs from offset 0x0110. */
  const InputRequest: Packet := [0x00, 0x01, 0x00, 0x00, 0x00, 0x06, 0x05, 0x02, 0x01, 0x10, 0x00, 0x16]

  const InputStatuses: seq<bool> := [
    false, false, true, true, false, true, false, true,
    true, true, false, true, true, false, true, true,
    true, false, true, false, true, true]

  const InputData: seq<Byte> := [0xAC, 0xDB, 0x35]

  lemma InputByte0() ensures forall j :: 0 <= j < 8 ==> BitAt(0xAC, j) == DataBit(InputStatuses, j)
  {
    ByteBits(0xAC, [false, false, true, true, false, true, false, true]);
  }

  lemma InputByte1() ensures forall j :: 0 <= j < 8 ==> BitAt(0xDB, j) == DataBit(InputStatuses, 8 + j)
  {
    ByteBits(0xDB, [true, true, false, true, true, false, true, true]);
  }

  /** The last byte holds six flags; its two high bits are padding. */
  lemma InputByte2() ensures forall j :: 0 <= j < 8 ==> BitAt(0x35, j) == DataBit(InputStatuses, 16 + j)
  {
    ByteBits(0x35, [true, false, true, false, true, true, false, false]);
  }

  lemma InputStatusPayload()
    ensures PackedBits(InputStatuses, 22) == InputData
  {
    InputByte0();
    InputByte1();
    InputByte2();
    InputPayloadFromBytes(InputData);
  }

  lemma InputPayloadFromBytes(expected: seq<Byte>)
    requires expected == [0xAC, 0xDB, 0x35]
    requires forall j :: 0 <= j < 8 ==> BitAt(0xAC, j) == DataBit(InputStatuses, j)
    requires forall j :: 0 <= j < 8 ==> BitAt(0xDB, j) == DataBit(InputStatuses, 8 + j)
    requires forall j :: 0 <= j < 8 ==> BitAt(0x35, j) == DataBit(InputStatuses, 16 + j)
    ensures PackedBits(InputStatuses, 22) == expected
  {
    forall i, j | 0 <= i < 3 && 0 <= j < 8
      ensures BitAt(expected[i], j) == DataBit(InputStatuses, 8 * i + j)
    {
      if i == 0 { } else if i == 1 { } else { }
    }
    assert CeilDiv8(22) == 3;
    PackedBitsUnique(InputStatuses, 22, expected);
  }

  lemma InputStatusHeader()
    ensures ReadResponseHeader(InputRequest, 3) == [0x00, 0x01, 0x00, 0x00, 0x00, 0x06, 0x05, 0x02, 0x03]
  {
  }

  lemma InputStatusBytes()
    ensures [0x00, 0x01, 0x00, 0x00, 0x00, 0x06, 0x05, 0x02, 0x03] + InputData == [0x00, 0x01, 0x00, 0x00, 0x00, 0x06, 0x05, 0x02, 0x03, 0xAC, 0xDB, 0x35]
  {
  }

  /** The 22 flags answer with byte count 3, length 6 and the data bytes `AC DB 35`. */
  lemma InputStatusResponse()
    ensures BitStatusFrame(InputRequest, InputStatuses) == [0x00, 0x01, 0x00, 0x00, 0x00, 0x06, 0x05, 0x02, 0x03, 0xAC, 0xDB, 0x35]
  {
    assert Quantity(InputRequest) == 22 && CeilDiv8(22) == 3;
    InputStatusHeader();
    InputStatusPayload();
    InputStatusBytes();
    BitStatusFrameOf(InputRequest, InputStatuses, [0x00, 0x01, 0x00, 0x00, 0x00, 0x06, 0x05, 0x02, 0x03], InputData);
  }

  lemma InputStatusFailure()
    ensures FailureFrame(InputRequest, ServerDeviceFailure) == [0x00, 0x01, 0x00, 0x00, 0x00, 0x03, 0x05, 0x82, 0x04]
  {
  }

  /** 0x0110 is input 10273 in Modicon numbering. */
  lemma InputRequestFields()
    ensures Address(Input, true, InputRequest) == 272 && Address(Input, false, InputRequest) == 10273
    ensures Quantity(InputRequest) == 22
    ensures TcpCommandFactory.Decode(InputRequest) == Success(ModbusCommands.ReadInputStatusCommand)
  {
  }

  // ---------------------------------------------------------------- read holding registers

  /** A read of 3 holding registers from offset 0x0110. */
  const RegisterRequest: Packet := [0x00, 0x01, 0x00, 0x00, 0x00, 0x06, 0x05, 0x03, 0x01, 0x10, 0x00, 0x03]

  const RegisterValues: seq<Uint16> := [0xAE41, 0x5652, 0x4340]

  lemma RegisterValueBytes()
    ensures HighByte(0xAE41) == 0xAE && LowByte(0xAE41) == 0x41
    ensures HighByte(0x5652) == 0x56 && LowByte(0x5652) == 0x52
    ensures HighByte(0x4340) == 0x43 && LowByte(0x4340) == 0x40
  {
  }

  /** Each register is written high byte first. */
  lemma HoldingRegistersPayload()
    ensures RegisterBytes(RegisterValues, 3) == [0xAE, 0x41, 0x56, 0x52, 0x43, 0x40]
  {
    RegisterValueBytes();
    assert RegisterBytes(RegisterValues, 0) == [];
    RegisterBytesStep(RegisterValues, 0);
    RegisterBytesStep(RegisterValues, 1);
    RegisterBytesStep(RegisterValues, 2);
  }

  /** A holding-register frame is the header and the register bytes it is built from. */
  lemma RegisterFrameOf(request: Packet, data: seq<Uint16>, header: Packet, payload: seq<Byte>)
    requires |request| >= MinRequestLength
    requires ReadResponseHeader(request, 2 * Quantity(request)) == header
    requires RegisterBytes(data, Quantity(request)) == payload
    ensures RegisterFrame(request, data) == header + payload
  {
    var r := RegisterFrame(request, data);
    assert r == r[..9] + r[9..];
  }

  lemma HoldingRegistersHeader()
    ensures ReadResponseHeader(RegisterRequest, 6) == [0x00, 0x01, 0x00, 0x00, 0x00, 0x09, 0x05, 0x03, 0x06]
  {
  }

  lemma HoldingRegistersBytes()
    ensures [0x00, 0x01, 0x00, 0x00, 0x00, 0x09, 0x05, 0x03, 0x06] + [0xAE, 0x41, 0x56, 0x52, 0x43, 0x40] == [0x00, 0x01, 0x00, 0x00, 0x00, 0x09, 0x05, 0x03, 0x06, 0xAE, 0x41, 0x56, 0x52, 0x43, 0x40]
  {
  }

  /** Three registers answer with byte count 6 and length 9. */
  lemma HoldingRegistersResponse()
    ensures RegisterFrame(RegisterRequest, RegisterValues) == [0x00, 0x01, 0x00, 0x00, 0x00, 0x09, 0x05, 0x03, 0x06, 0xAE, 0x41, 0x56, 0x52, 0x43, 0x40]
  {
    assert Quantity(RegisterRequest) == 3;
    HoldingRegistersHeader();
    HoldingRegistersPayload();
    HoldingRegistersBytes();
    RegisterFrameOf(RegisterRequest, RegisterValues, [0x00, 0x01, 0x00, 0x00, 0x00, 0x09, 0x05, 0x03, 0x06], [0xAE, 0x41, 0x56, 0x52, 0x43, 0x40]);
  }

  lemma HoldingRegistersFailure()
    ensures FailureFrame(RegisterRequest, ServerDeviceFailure) == [0x00, 0x01, 0x00, 0x00, 0x00, 0x03, 0x05, 0x83, 0x04]
  {
  }

  /** 0x0110 is holding register 40273 in Modicon numbering. */
  lemma RegisterRequestFields()
    ensures Address(HoldingRegister, true, RegisterRequest) == 272 && Address(HoldingRegister, false, RegisterRequest) == 40273
    ensures Quantity(RegisterRequest) == 3
    ensures TcpCommandFactory.Decode(RegisterRequest) == Success(ModbusCommands.ReadHoldingRegistersCommand)
  {
  }

  // ---------------------------------------------------------------- preset single register

  /** Write 3 to register 0 of unit 0x11. */
  const PresetRequest: Packet := [0x00, 0x01, 0x00, 0x00, 0x00, 0x06, 0x11, 0x06, 0x00, 0x00, 0x00, 0x03]

  /** The address is 0, the value 3, the unit 0x11; success echoes the request, failure sets bit 7 of 0x06. */
  lemma PresetSingleRegisterVectors()
    ensures TcpCommandFactory.Decode(PresetRequest) == Success(ModbusCommands.PresetSingleRegisterCommand)
    ensures Address(HoldingRegister, true, PresetRequest) == 0 && Quantity(PresetRequest) == 3
    ensures UnitId(PresetRequest) == 0x11 && TcpCodec.FunctionCode(PresetRequest) == 0x06
    ensures ModbusCommands.SuccessFrame(ModbusCommands.PresetSingleRegisterCommand, PresetRequest, ModbusCommands.NoData) == PresetRequest
    ensures FailureFrame(PresetRequest, ServerDeviceFailure) == [0x00, 0x01, 0x00, 0x00, 0x00, 0x03, 0x11, 0x86, 0x04]
  {
  }

  // ---------------------------------------------------------------- malformed packets

  /** Function code 0x14 is not implemented, and a 10-byte packet is too short. */
  lemma MalformedPackets()
    ensures TcpCommandFactory.Decode([0x00, 0x01, 0x00, 0x00, 0x00, 0x06, 0x11, 0x14, 0x00, 0x00, 0x00, 0x03]) == Failure(FunctionCodeNotImplemented)
    ensures TcpCommandFactory.Decode([0x00, 0x01, 0x00, 0x00, 0x00, 0x06, 0x11, 0x14, 0x00, 0x00]) == Failure(PacketTooShort)
  {
  }

  /** The event factory builds the preset command from the same request, with address 0 and value 3,
      and rejects a coil read, which the TCP factory accepts. */
  lemma EventFactoryVectors()
    ensures EventFactory.Decode(PresetRequest) == Success(ModbusCommands.PresetSingleRegisterCommand)
    ensures EventFactory.RegisterAddress(PresetRequest) == 0 && EventFactory.RegisterValue(PresetRequest) == 3
    ensures EventFactory.UnitId(PresetRequest) == 0x11
    ensures EventFactory.Decode(CoilRequest) == Failure(FunctionCodeNotImplemented)
    ensures EventFactory.Decode([0x00, 0x01, 0x00, 0x00, 0x00, 0x06, 0x11, 0x06, 0x00, 0x00]) == Failure(PacketTooShort)
  {
  }

  // ---------------------------------------------------------------- wrap-around

  /** A read of 128 registers: the byte count 256 is stored as 0 while the length field holds 259. */
  lemma RegisterByteCountWraps(request: Packet, data: seq<Uint16>)
    requires |request| >= MinRequestLength && request[10] == 0x00 && request[11] == 0x80
    ensures var r := RegisterFrame(request, data);
            |r| == 9 + 256 && r[8] == 0 && r[4] == 0x01 && r[5] == 0x03
  {
    var r := RegisterFrame(request, data);
    assert r[..9] == ReadResponseHeader(request, 256);
    assert r[4] == r[..9][4] && r[5] == r[..9][5] && r[8] == r[..9][8];
  }
}
