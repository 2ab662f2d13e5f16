/** `ModbusTcpCommandFactory.fromPacket`: checks the length, dispatches on the function code and
    builds the command with the factory's getters. */
module TcpCommandFactory {
  import opened Bytes
  import opened ModbusCodes
  import TcpCodec
  import opened ModbusCommands

  /** The function codes the factory builds a command for. */
  const ImplementedCodes: set<int> := {0x01, 0x02, 0x03, 0x06}

  /** The decision `fromPacket` takes: the kind of command, or the error it throws. */
  function Decode(packet: Packet): (r: Result<Kind, ModbusCommandError>)
    ensures |packet| < TcpCodec.MinRequestLength ==> r == Failure(PacketTooShort)
    ensures |packet| >= TcpCodec.MinRequestLength ==> (r.Success? <==> packet[7] in ImplementedCodes)
    ensures |packet| >= TcpCodec.MinRequestLength && packet[7] !in ImplementedCodes ==> r == Failure(FunctionCodeNotImplemented)
    ensures r.Success? ==> r.value.Code().Code() == packet[7]
  {
    if |packet| < TcpCodec.MinRequestLength then Failure(PacketTooShort)
    else
      var fc := TcpCodec.FunctionCode(packet);
      if fc == ReadCoilStatus.Code() then Success(ReadCoilStatusCommand)
      else if fc == ReadInputStatus.Code() then Success(ReadInputStatusCommand)
      else if fc == ReadHoldRegisters.Code() then Success(ReadHoldingRegistersCommand)
      else if fc == PresetSingleRegister.Code() then Success(PresetSingleRegisterCommand)
      else Failure(FunctionCodeNotImplemented)
  }

  /** A short packet is rejected whatever its bytes. */
  lemma ShortPacketsRejected(p: Packet, q: Packet)
    requires |p| < TcpCodec.MinRequestLength && |q| < TcpCodec.MinRequestLength
    ensures Decode(p) == Decode(q) == Failure(PacketTooShort)
  {
  }

  /** Only byte 7 decides the kind: two long-enough packets with the same function code decode alike. */
  lemma DecodeDependsOnFunctionCode(p: Packet, q: Packet)
    requires |p| >= TcpCodec.MinRequestLength && |q| >= TcpCodec.MinRequestLength && p[7] == q[7]
    ensures Decode(p) == Decode(q)
  {
  }

  /** Each implemented function code selects its own command: 0x01, 0x02, 0x03 and 0x06 give the
      coil-status, input-status, holding-register and preset-single-register commands. */
  lemma DecodeKinds(p: Packet)
    requires |p| >= TcpCodec.MinRequestLength
    ensures p[7] == 0x01 ==> Decode(p) == Success(ReadCoilStatusCommand)
    ensures p[7] == 0x02 ==> Decode(p) == Success(ReadInputStatusCommand)
    ensures p[7] == 0x03 ==> Decode(p) == Success(ReadHoldingRegistersCommand)
    ensures p[7] == 0x06 ==> Decode(p) == Success(PresetSingleRegisterCommand)
  {
  }

  /** The options object the constructor accepts. */
  datatype CommandFactoryOptions = CommandFactoryOptions(simpleAddressing: Option<bool>)

  /** Simple addressing unless the options turn it off. */
  function SimpleAddressingOf(options: Option<CommandFactoryOptions>): bool
  {
    match options
    case Some(CommandFactoryOptions(Some(b))) => b
    case _ => true
  }

  class ModbusTcpCommandFactory {
    const options: Option<CommandFactoryOptions>
    /** Whether the address getters leave the 0-based offset untranslated. */
    const simpleAddressing: bool

    constructor (options: Option<CommandFactoryOptions> := None)
      ensures this.options == options
      ensures simpleAddressing == SimpleAddressingOf(options)
      ensures options.None? ==> simpleAddressing
    {
      this.options := options;
      simpleAddressing := SimpleAddressingOf(options);
    }

    /** `fromPacket`: a fresh, unresolved command over the packet, or the error `Decode` names. */
    method FromPacket(packet: Packet) returns (r: Result<ModbusCommand, ModbusCommandError>)
      ensures r.Success? <==> Decode(packet).Success?
      ensures r.Failure? ==> r.error == Decode(packet).error
      ensures r.Success? ==> var command := r.value;
        && fresh(command) && command.Valid()
        && command.kind == Decode(packet).value
        && command.rawPacket == packet
        && command.simpleAddressing == simpleAddressing
        && command.responsePacket.None?
        && fresh(command.onComplete) && fresh(command.onSuccess) && fresh(command.onFailure)
        && command.onComplete.listeners == [] && command.onComplete.listenersOncer == []
        && command.onSuccess.listeners == [] && command.onSuccess.listenersOncer == []
        && command.onFailure.listeners == [] && command.onFailure.listenersOncer == []
    {
      var decoded := Decode(packet);
      match decoded {
        case Failure(e) =>
          r := Failure(e);
        case Success(kind) =>
          var command := new ModbusCommand(kind, packet, simpleAddressing);
          r := Success(command);
      }
    }
  }
}
