/** The two numeric enums of the command module, `ModbusFunctionCode` and `ModbusCommandExcepton`,
    and the error value the codec throws. */
module ModbusCodes {
  import opened Bytes

  /** A `ModbusCommandError`: the codec's failures carry only their message. */
  datatype ModbusCommandError = ModbusCommandError(message: string)

  const PacketTooShort := ModbusCommandError("Packet length too short")
  const FunctionCodeNotImplemented := ModbusCommandError("Function code not implemented")
  const ResponseNotReady := ModbusCommandError("Tried to read response packet, but success or fail has not been called.")

  /** The eight Modbus functions the library names. */
  datatype FunctionCode =
    | ReadCoilStatus
    | ReadInputStatus
    | ReadHoldRegisters
    | ReadInputRegisters
    | ForceSingleCoil
    | PresetSingleRegister
    | ForceMultipleCoils
    | PresetMultipleRegisters
  {
    /** The numeric value of the enum member, as it appears in byte 7 of a frame. */
    function Code(): (r: nat)
      ensures r < 0x100
    {
      match this
      case ReadCoilStatus => 0x01
      case ReadInputStatus => 0x02
      case ReadHoldRegisters => 0x03
      case ReadInputRegisters => 0x04
      case ForceSingleCoil => 0x05
      case PresetSingleRegister => 0x06
      case ForceMultipleCoils => 0x0F
      case PresetMultipleRegisters => 0x10
    }
  }

  /** The reverse mapping a numeric enum provides: the member with a given value, if any. */
  function FunctionCodeOf(c: int): (r: Option<FunctionCode>)
    ensures r.Some? ==> r.value.Code() == c
  {
    if c == 0x01 then Some(ReadCoilStatus)
    else if c == 0x02 then Some(ReadInputStatus)
    else if c == 0x03 then Some(ReadHoldRegisters)
    else if c == 0x04 then Some(ReadInputRegisters)
    else if c == 0x05 then Some(ForceSingleCoil)
    else if c == 0x06 then Some(PresetSingleRegister)
    else if c == 0x0F then Some(ForceMultipleCoils)
    else if c == 0x10 then Some(PresetMultipleRegisters)
    else None
  }

  /** Distinct members have distinct values, and the reverse mapping finds each of them. */
  lemma FunctionCodeRoundTrip(f: FunctionCode)
    ensures FunctionCodeOf(f.Code()) == Some(f)
  {
    match f
    case ReadCoilStatus =>
    case ReadInputStatus =>
    case ReadHoldRegisters =>
    case ReadInputRegisters =>
    case ForceSingleCoil =>
    case PresetSingleRegister =>
    case ForceMultipleCoils =>
    case PresetMultipleRegisters =>
  }

  /** The supported function codes are exactly 1 to 6, 15 and 16. */
  lemma SupportedFunctionCodes(c: int)
    ensures FunctionCodeOf(c).Some? <==> c in {0x01, 0x02, 0x03, 0x04, 0x05, 0x06, 0x0F, 0x10}
  {
  }

  /** The Modbus exception codes a failure response can carry. */
  datatype ExceptionCode =
    | IllegalFunction
    | IllegalDataAddress
    | IllegalDataValue
    | ServerDeviceFailure
    | Acknowledge
    | ServerDeviceBusy
    | NegativeAcknowledge
    | MemoryParityError
    | GatewayPathUnavailable
    | GatewayTargetFailedToRespond
  {
    /** The numeric value of the enum member, as it appears in byte 8 of an exception response. */
    function Code(): (r: nat)
      ensures 0 < r < 0x100
    {
      match this
      case IllegalFunction => 0x01
      case IllegalDataAddress => 0x02
      case IllegalDataValue => 0x03
      case ServerDeviceFailure => 0x04
      case Acknowledge => 0x05
      case ServerDeviceBusy => 0x06
      case NegativeAcknowledge => 0x07
      case MemoryParityError => 0x08
      case GatewayPathUnavailable => 0x0A
      case GatewayTargetFailedToRespond => 0x0B
    }
  }

  /** The reverse mapping of the exception enum. */
  function ExceptionCodeOf(c: int): (r: Option<ExceptionCode>)
    ensures r.Some? ==> r.value.Code() == c
  {
    if c == 0x01 then Some(IllegalFunction)
    else if c == 0x02 then Some(IllegalDataAddress)
    else if c == 0x03 then Some(IllegalDataValue)
    else if c == 0x04 then Some(ServerDeviceFailure)
    else if c == 0x05 then Some(Acknowledge)
    else if c == 0x06 then Some(ServerDeviceBusy)
    else if c == 0x07 then Some(NegativeAcknowledge)
    else if c == 0x08 then Some(MemoryParityError)
    else if c == 0x0A then Some(GatewayPathUnavailable)
    else if c == 0x0B then Some(GatewayTargetFailedToRespond)
    else None
  }

  lemma ExceptionCodeRoundTrip(e: ExceptionCode)
    ensures ExceptionCodeOf(e.Code()) == Some(e)
  {
    match e
    case IllegalFunction =>
    case IllegalDataAddress =>
    case IllegalDataValue =>
    case ServerDeviceFailure =>
    case Acknowledge =>
    case ServerDeviceBusy =>
    case NegativeAcknowledge =>
    case MemoryParityError =>
    case GatewayPathUnavailable =>
    case GatewayTargetFailedToRespond =>
  }

  /** The valid exception codes are 1 to 8, 10 and 11: there is no member with value 9. */
  lemma ValidExceptionCodes(c: int)
    ensures ExceptionCodeOf(c).Some? <==> c in {0x01, 0x02, 0x03, 0x04, 0x05, 0x06, 0x07, 0x08, 0x0A, 0x0B}
  {
  }
}
