/** `ModbusCommand` and its subclasses: a read-only request packet, getters applied to it, and the
    `success`/`fail` operations that resolve the command by emitting a response on its events. */
module ModbusCommands {
  import opened Bytes
  import opened ModbusCodes
  import TcpCodec
  import opened TypedEvents

  /** The command classes the factories construct. */
  datatype Kind =
    | ReadCoilStatusCommand
    | ReadInputStatusCommand
    | ReadHoldingRegistersCommand
    | PresetSingleRegisterCommand
  {
    /** The function code a request of this kind carries in byte 7. */
    function Code(): (r: FunctionCode)
      ensures r.Code() in {0x01, 0x02, 0x03, 0x06}
    {
      match this
      case ReadCoilStatusCommand => ReadCoilStatus
      case ReadInputStatusCommand => ReadInputStatus
      case ReadHoldingRegistersCommand => ReadHoldRegisters
      case PresetSingleRegisterCommand => PresetSingleRegister
    }

    /** The Modicon range the kind's address getter translates into. */
    function AddressBase(): TcpCodec.AddressBase
    {
      match this
      case ReadCoilStatusCommand => TcpCodec.Coil
      case ReadInputStatusCommand => TcpCodec.Input
      case _ => TcpCodec.HoldingRegister
    }
  }

  /** What `success` is given: nothing for a write, the flags of a bit read, the registers of a register read. */
  datatype SuccessData = NoData | Bits(bits: seq<bool>) | Registers(registers: seq<Uint16>)

  /** The argument type each command's `success` is declared with. */
  predicate Accepts(kind: Kind, data: SuccessData)
  {
    match kind
    case ReadCoilStatusCommand => data.Bits?
    case ReadInputStatusCommand => data.Bits?
    case ReadHoldingRegistersCommand => data.Registers?
    case PresetSingleRegisterCommand => data.NoData?
  }

  /** The response the command's success getter builds from the request. */
  function SuccessFrame(kind: Kind, request: Packet, data: SuccessData): (r: Packet)
    requires |request| >= TcpCodec.MinRequestLength && Accepts(kind, data)
    ensures kind.PresetSingleRegisterCommand? ==> r == request
    ensures kind.ReadCoilStatusCommand? || kind.ReadInputStatusCommand? ==> r == TcpCodec.BitStatusFrame(request, data.bits)
    ensures kind.ReadHoldingRegistersCommand? ==> r == TcpCodec.RegisterFrame(request, data.registers)
  {
    match kind
    case ReadCoilStatusCommand => TcpCodec.BitStatusFrame(request, data.bits)
    case ReadInputStatusCommand => TcpCodec.BitStatusFrame(request, data.bits)
    case ReadHoldingRegistersCommand => TcpCodec.RegisterFrame(request, data.registers)
    case PresetSingleRegisterCommand => TcpCodec.PacketCopy(request)
  }

  /** The three events of a command. */
  datatype Channel = OnComplete | OnSuccess | OnFailure

  /** One listener call: the event it was registered on, the listener, and the bytes it received. */
  datatype Delivery = Delivery(channel: Channel, listener: Listener<Packet>, packet: Packet)

  /** The calls an `emit` of `packet` on `channel` makes to the listeners `invoked`, in order. */
  function Deliveries(channel: Channel, invoked: seq<Listener<Packet>>, packet: Packet): (r: seq<Delivery>)
    ensures |r| == |invoked|
    ensures forall i :: 0 <= i < |r| ==> r[i] == Delivery(channel, invoked[i], packet)
  {
    seq(|invoked|, i requires 0 <= i < |invoked| => Delivery(channel, invoked[i], packet))
  }

  /** Every call of one emit is on that emit's event and carries that emit's bytes. */
  lemma DeliveriesOnOneChannel(channel: Channel, invoked: seq<Listener<Packet>>, packet: Packet, d: Delivery)
    requires d in Deliveries(channel, invoked, packet)
    ensures d.channel == channel && d.packet == packet && d.listener in invoked
  {
    var r := Deliveries(channel, invoked, packet);
    var i :| 0 <= i < |r| && r[i] == d;
    assert invoked[i] == d.listener;
  }

  class ModbusCommand {
    /** Fires on success or failure, with the response bytes. */
    const onComplete: TypedEvent<Packet>
    /** Fires when `success` is called. */
    const onSuccess: TypedEvent<Packet>
    /** Fires when `fail` is called. */
    const onFailure: TypedEvent<Packet>

    /** The request; read-only. */
    const rawPacket: Packet
    const kind: Kind
    /** Whether the factory that built the command leaves addresses 0-based. */
    const simpleAddressing: bool

    /** The response once `success` or `fail` has been called. */
    var responsePacket: Option<Packet>

    /** The request is long enough for every getter, and the three events are distinct objects. */
    predicate Valid()
    {
      |rawPacket| >= TcpCodec.MinRequestLength && onComplete != onSuccess && onComplete != onFailure && onSuccess != onFailure
    }

    constructor (kind: Kind, rawPacket: Packet, simpleAddressing: bool)
      requires |rawPacket| >= TcpCodec.MinRequestLength
      ensures Valid()
      ensures this.kind == kind && this.rawPacket == rawPacket && this.simpleAddressing == simpleAddressing
      ensures responsePacket == None
      ensures fresh(onComplete) && fresh(onSuccess) && fresh(onFailure)
      ensures onComplete.listeners == [] && onComplete.listenersOncer == []
      ensures onSuccess.listeners == [] && onSuccess.listenersOncer == []
      ensures onFailure.listeners == [] && onFailure.listenersOncer == []
    {
      this.kind := kind;
      this.rawPacket := rawPacket;
      this.simpleAddressing := simpleAddressing;
      responsePacket := None;
      onComplete := new TypedEvent();
      onSuccess := new TypedEvent();
      onFailure := new TypedEvent();
    }

    /** `unitId`: the unit id getter applied to the request. */
    function UnitId(): (r: nat)
      requires Valid()
      ensures r == rawPacket[6]
    {
      TcpCodec.UnitId(rawPacket)
    }

    /** `functionCode`: the function code getter applied to the request. */
    function FunctionCode(): (r: nat)
      requires Valid()
      ensures r == rawPacket[7]
    {
      TcpCodec.FunctionCode(rawPacket)
    }

    /** `coilStartAddress`, `inputStartAddress` and `registerStartAddress` of the read commands. */
    function StartAddress(): (r: nat)
      requires Valid() && !kind.PresetSingleRegisterCommand?
      ensures r == rawPacket[8] as int * 0x100 + rawPacket[9] + (if simpleAddressing then 0 else kind.AddressBase().Offset())
    {
      TcpCodec.Address(kind.AddressBase(), simpleAddressing, rawPacket)
    }

    /** `numberOfCoils`, `numberOfInputs` and `registerLength` of the read commands. */
    function Length(): (r: Uint16)
      requires Valid() && !kind.PresetSingleRegisterCommand?
      ensures r == rawPacket[10] as int * 0x100 + rawPacket[11]
    {
      TcpCodec.Quantity(rawPacket)
    }

    /** `PresetSingleRegisterCommand.registerAddress`: the holding-register address getter. */
    function RegisterAddress(): (r: nat)
      requires Valid() && kind.PresetSingleRegisterCommand?
      ensures r == rawPacket[8] as int * 0x100 + rawPacket[9] + (if simpleAddressing then 0 else 40001)
    {
      TcpCodec.Address(TcpCodec.HoldingRegister, simpleAddressing, rawPacket)
    }

    /** `PresetSingleRegisterCommand.registerValue`: the big-endian field at bytes 10-11. */
    function RegisterValue(): (r: Uint16)
      requires Valid() && kind.PresetSingleRegisterCommand?
      ensures r == rawPacket[10] as int * 0x100 + rawPacket[11]
    {
      TcpCodec.Quantity(rawPacket)
    }

    /** `responsePacket`: the response, or the error the getter throws before the command is resolved. */
    function ResponsePacket(): (r: Result<Packet, ModbusCommandError>)
      reads this
      ensures r.Failure? <==> responsePacket.None?
      ensures r.Failure? ==> r.error == ResponseNotReady
      ensures r.Success? ==> responsePacket == Some(r.value)
    {
      match responsePacket
      case None => Failure(ResponseNotReady)
      case Some(p) => Result.Success(p)
    }

    /** `success`: builds the response with the success getter, stores it, emits it on `onComplete`
        and then on `onSuccess`. `onFailure` is not touched. */
    method Success(data: SuccessData) returns (deliveries: seq<Delivery>)
      requires Valid() && Accepts(kind, data)
      modifies this, onComplete, onSuccess
      ensures responsePacket == Some(SuccessFrame(kind, rawPacket, data))
      ensures deliveries ==
        Deliveries(OnComplete, old(onComplete.listeners) + old(onComplete.listenersOncer), SuccessFrame(kind, rawPacket, data)) +
        Deliveries(OnSuccess, old(onSuccess.listeners) + old(onSuccess.listenersOncer), SuccessFrame(kind, rawPacket, data))
      ensures onComplete.listeners == old(onComplete.listeners) && onComplete.listenersOncer == []
      ensures onSuccess.listeners == old(onSuccess.listeners) && onSuccess.listenersOncer == []
    {
      var successPacket: Packet;
      match kind {
        case ReadCoilStatusCommand =>
          successPacket := TcpCodec.BoolArraySuccess(rawPacket, data.bits);
        case ReadInputStatusCommand =>
          successPacket := TcpCodec.BoolArraySuccess(rawPacket, data.bits);
        case ReadHoldingRegistersCommand =>
          successPacket := TcpCodec.Uint16ArraySuccess(rawPacket, data.registers);
        case PresetSingleRegisterCommand =>
          successPacket := TcpCodec.PacketCopy(rawPacket);
      }
      responsePacket := Some(successPacket);
      var completed := onComplete.Emit(successPacket);
      var succeeded := onSuccess.Emit(successPacket);
      deliveries := Deliveries(OnComplete, completed, successPacket) + Deliveries(OnSuccess, succeeded, successPacket);
    }

    /** `fail`: builds the exception response, stores it, emits it on `onComplete` and then on
        `onFailure`. `onSuccess` is not touched. */
    method Fail(exception: ExceptionCode) returns (deliveries: seq<Delivery>)
      requires Valid()
      modifies this, onComplete, onFailure
      ensures responsePacket == Some(TcpCodec.FailureFrame(rawPacket, exception))
      ensures deliveries ==
        Deliveries(OnComplete, old(onComplete.listeners) + old(onComplete.listenersOncer), TcpCodec.FailureFrame(rawPacket, exception)) +
        Deliveries(OnFailure, old(onFailure.listeners) + old(onFailure.listenersOncer), TcpCodec.FailureFrame(rawPacket, exception))
      ensures onComplete.listeners == old(onComplete.listeners) && onComplete.listenersOncer == []
      ensures onFailure.listeners == old(onFailure.listeners) && onFailure.listenersOncer == []
    {
      var failurePacket := TcpCodec.FailureGetter(rawPacket, exception);
      responsePacket := Some(failurePacket);
      var completed := onComplete.Emit(failurePacket);
      var failed := onFailure.Emit(failurePacket);
      deliveries := Deliveries(OnComplete, completed, failurePacket) + Deliveries(OnFailure, failed, failurePacket);
    }
  }

  /** The calls `success` makes: every one carries the success response, the `onComplete` listeners
      come first, and no call is on `onFailure`. */
  lemma SuccessDeliveries(completeListeners: seq<Listener<Packet>>, successListeners: seq<Listener<Packet>>, packet: Packet)
    ensures var ds := Deliveries(OnComplete, completeListeners, packet) + Deliveries(OnSuccess, successListeners, packet);
            && (forall d :: d in ds ==> d.packet == packet && d.channel != OnFailure)
            && (forall i :: 0 <= i < |completeListeners| ==> ds[i].channel == OnComplete)
            && (forall i :: |completeListeners| <= i < |ds| ==> ds[i].channel == OnSuccess)
  {
    var ds := Deliveries(OnComplete, completeListeners, packet) + Deliveries(OnSuccess, successListeners, packet);
    forall d | d in ds
      ensures d.packet == packet && d.channel != OnFailure
    {
      if d in Deliveries(OnComplete, completeListeners, packet) {
        DeliveriesOnOneChannel(OnComplete, completeListeners, packet, d);
      } else {
        DeliveriesOnOneChannel(OnSuccess, successListeners, packet, d);
      }
    }
  }

  /** The calls `fail` makes: every one carries the exception response, the `onComplete` listeners
      come first, and no call is on `onSuccess`. */
  lemma FailureDeliveries(completeListeners: seq<Listener<Packet>>, failureListeners: seq<Listener<Packet>>, packet: Packet)
    ensures var ds := Deliveries(OnComplete, completeListeners, packet) + Deliveries(OnFailure, failureListeners, packet);
            && (forall d :: d in ds ==> d.packet == packet && d.channel != OnSuccess)
            && (forall i :: 0 <= i < |completeListeners| ==> ds[i].channel == OnComplete)
            && (forall i :: |completeListeners| <= i < |ds| ==> ds[i].channel == OnFailure)
  {
    var ds := Deliveries(OnComplete, completeListeners, packet) + Deliveries(OnFailure, failureListeners, packet);
    forall d | d in ds
      ensures d.packet == packet && d.channel != OnSuccess
    {
      if d in Deliveries(OnComplete, completeListeners, packet) {
        DeliveriesOnOneChannel(OnComplete, completeListeners, packet, d);
      } else {
        DeliveriesOnOneChannel(OnFailure, failureListeners, packet, d);
      }
    }
  }
}
