/** `ModbusTcpEventFactory`: the earlier factory, which builds only preset-single-register commands
    and never translates addresses. */
module EventFactory {
  import opened Bytes
  import opened ModbusCodes
  import TcpCodec
  import TcpCommandFactory
  import opened ModbusCommands

  /** The unit id getter: byte 6. */
  function UnitId(p: Packet): (r: nat)
    requires |p| >= 8
    ensures r == p[6]
  {
    ReadUInt8(p, 6)
  }

  /** The function code getter: byte 7. */
  function FunctionCode(p: Packet): (r: nat)
    requires |p| >= 8
    ensures r == p[7]
  {
    ReadUInt8(p, 7)
  }

  /** The register address getter: the big-endian field at bytes 8-9, as it stands. */
  function RegisterAddress(p: Packet): (r: Uint16)
    requires |p| >= TcpCodec.MinRequestLength
    ensures r == p[8] as int * 0x100 + p[9]
  {
    ReadUInt16BE(p, 8)
  }

  /** The register value getter: the big-endian field at bytes 10-11. */
  function RegisterValue(p: Packet): (r: Uint16)
    requires |p| >= TcpCodec.MinRequestLength
    ensures r == p[10] as int * 0x100 + p[11]
  {
    ReadUInt16BE(p, 10)
  }

  /** The getters agree with the TCP factory's under simple addressing. */
  lemma GettersAgree(p: Packet)
    requires |p| >= TcpCodec.MinRequestLength
    ensures UnitId(p) == TcpCodec.UnitId(p) && FunctionCode(p) == TcpCodec.FunctionCode(p)
    ensures RegisterAddress(p) == TcpCodec.Address(TcpCodec.HoldingRegister, true, p)
    ensures RegisterValue(p) == TcpCodec.Quantity(p)
  {
  }

  /** `_failureGetter`: the source assigns the indices of an empty array in order, each assignment
      appending one element. The bytes are those of the TCP factory's exception response. */
  method FailureGetter(request: Packet, exception: ExceptionCode) returns (response: Packet)
    requires |request| >= 8
    ensures response == TcpCodec.FailureFrame(request, exception)
  {
    response := [];
    response := response + [ReadUInt8(request, 0)];
    response := response + [ReadUInt8(request, 1)];
    response := response + [ReadUInt8(request, 2)];
    response := response + [ReadUInt8(request, 3)];
    response := response + [0x00];
    response := response + [0x03];
    response := response + [ReadUInt8(request, 6)];
    response := response + [TcpCodec.ExceptionFunctionCode(ReadUInt8(request, 7))];
    response := response + [ToUint8(exception.Code())];
    assert response[..4] == request[..4];
    assert response == response[..4] + response[4..];
  }

  /** The decision `fromPacket` takes: only 0x06 builds a command. */
  function Decode(packet: Packet): (r: Result<Kind, ModbusCommandError>)
    ensures |packet| < TcpCodec.MinRequestLength ==> r == Failure(PacketTooShort)
    ensures |packet| >= TcpCodec.MinRequestLength ==> (r.Success? <==> packet[7] == 0x06)
    ensures |packet| >= TcpCodec.MinRequestLength && packet[7] != 0x06 ==> r == Failure(FunctionCodeNotImplemented)
    ensures r.Success? ==> r.value == PresetSingleRegisterCommand
  {
    if |packet| < TcpCodec.MinRequestLength then Failure(PacketTooShort)
    else if FunctionCode(packet) == PresetSingleRegister.Code() then Success(PresetSingleRegisterCommand)
    else Failure(FunctionCodeNotImplemented)
  }

  /** Whatever this factory accepts the TCP factory accepts as the same command, and the two reject
      short packets with the same error. */
  lemma DecodeRefinesTcp(packet: Packet)
    ensures Decode(packet).Success? ==> TcpCommandFactory.Decode(packet) == Decode(packet)
    ensures |packet| < TcpCodec.MinRequestLength ==> TcpCommandFactory.Decode(packet) == Decode(packet)
    ensures TcpCommandFactory.Decode(packet).Failure? ==> Decode(packet) == TcpCommandFactory.Decode(packet)
  {
  }

  /** `_packetCopySuccessGetter`: the success response of every command this factory accepts is
      the request, byte for byte. */
  lemma SuccessEchoesRequest(packet: Packet)
    requires Decode(packet).Success?
    ensures Accepts(Decode(packet).value, NoData)
    ensures SuccessFrame(Decode(packet).value, packet, NoData) == packet
  {
  }

  /** `fromPacket`: a fresh preset-single-register command, or the error `Decode` names. The command
      reads its address untranslated, as this factory's register address getter does. */
  method FromPacket(packet: Packet) returns (r: Result<ModbusCommand, ModbusCommandError>)
    ensures r.Success? <==> Decode(packet).Success?
    ensures r.Failure? ==> r.error == Decode(packet).error
    ensures r.Success? ==> var command := r.value;
      && fresh(command) && command.Valid()
      && command.kind == PresetSingleRegisterCommand
      && command.rawPacket == packet
      && command.simpleAddressing
      && command.responsePacket.None?
      && fresh(command.onComplete) && fresh(command.onSuccess) && fresh(command.onFailure)
      && command.onComplete.listeners == [] && command.onComplete.listenersOncer == []
      && command.onSuccess.listeners == [] && command.onSuccess.listenersOncer == []
      && command.onFailure.listeners == [] && command.onFailure.listenersOncer == []
  {
    var decoded := Decode(packet);
    match decoded {
      case Failure(e) =>
        r := Failure(e);
      case Success(kind) =>
        var command := new ModbusCommand(kind, packet, true);
        r := Success(command);
    }
  }

  /** A command this factory built reports exactly this factory's getters. */
  lemma CommandUsesEventGetters(command: ModbusCommand)
    requires command.Valid() && command.kind == PresetSingleRegisterCommand && command.simpleAddressing
    ensures command.UnitId() == UnitId(command.rawPacket)
    ensures command.FunctionCode() == FunctionCode(command.rawPacket)
    ensures command.RegisterAddress() == RegisterAddress(command.rawPacket)
    ensures command.RegisterValue() == RegisterValue(command.rawPacket)
  {
  }
}
