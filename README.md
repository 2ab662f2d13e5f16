# simple-modbus: the Modbus/TCP command codec in Dafny

This project models the request and response codec of the `simple-modbus` library, together with the
command object and the event emitter it reports through.

- **`ModbusTcpCommandFactory`** turns a Modbus/TCP request frame into a command.
  - It checks that the frame has at least 12 bytes.
  - It reads the unit id from byte 6 and the function code from byte 7.
  - It builds one of four commands, for function codes 0x01, 0x02, 0x03 and 0x06, and rejects every other code.
  - It supplies the getters and response encoders each command uses.
  - The frame layout is the MBAP header of the *Modbus Messaging on TCP/IP Implementation Guide V1.0b*
    (section 3.1.3), followed by the PDU of the *Modbus Application Protocol Specification V1.1b3*.
    The PDUs follow sections 6.1, 6.2, 6.3 and 6.6 for the four functions and section 7 for exception responses.
- **`ModbusCommand`** holds the request read-only.
  - Its accessors are getters applied to that request.
  - `success` and `fail` build a response, store it, and emit it on `onComplete` and then on `onSuccess` or `onFailure`.
- **`ModbusTcpEventFactory`** is the earlier factory. It builds only preset-single-register commands and never translates addresses.
- **`TypedEvent`** keeps a list of persistent listeners and a queue of listeners that fire once.

Modules and files:

| file | module | models |
|---|---|---|
| `bytes.dfy` | `Bytes` | bytes, `readUInt8`/`readUInt16BE`, the `Uint8Array` store, bitwise or and left shift on small numbers, `Array.prototype.slice` |
| `modbus_codes.dfy` | `ModbusCodes` | the `ModbusFunctionCode` and `ModbusCommandExcepton` enums and the error messages |
| `typed_event.dfy` | `TypedEvents` | `TypedEvent` as a class over two listener sequences |
| `tcp_codec.dfy` | `TcpCodec` | the TCP factory's getters, header stub, three success encoders and failure encoder |
| `modbus_commands.dfy` | `ModbusCommands` | the command class, its kinds, its getters, `success` and `fail` |
| `tcp_command_factory.dfy` | `TcpCommandFactory` | `ModbusTcpCommandFactory` and its `fromPacket` |
| `event_factory.dfy` | `EventFactory` | `ModbusTcpEventFactory` and its agreement with the TCP factory |
| `test_vectors.dfy` | `TestVectors` | the frames of the library's own test suite, proved against the model |

How the model is built:

- **Bytes.** A byte is an integer in `[0, 256)`, and a frame is a sequence of bytes.
  - Every value the encoders store passes through `new Uint8Array(...)`, so it is reduced modulo 256 (`ToUint8`, `HighByte`, `LowByte`).
  - For large counts the byte count wraps. `TestVectors.RegisterByteCountWraps` shows 128 registers giving a byte count of 0.
- **Imperative encoders.** The encoders that fill a response index by index are methods.
  - `BoolArraySuccess`, `Uint16ArraySuccess` and `TcpCodec.FailureGetter` fill an `array<Byte>`. Each is proved to produce the frame a function states: `BitStatusFrame`, `RegisterFrame` or `FailureFrame`.
  - `StubTcpHeader` also fills an `array<Byte>`. Its contract states the nine header slots directly rather than through a function.
  - `EventFactory.FailureGetter` assigns to indices of an initially empty JavaScript array, which grows as it is written. The model builds a `seq<Byte>` by appending, and proves it equal to `FailureFrame`.
  - The properties of the frames are proved about those functions.
- **The bit encoder.** It is modelled as the source writes it: a `reduce` of `accumulator | (bit << index)` over each eight-flag slice of the padded list.
  - `PackedBits` proves it packs LSB-first: bit `j` of data byte `i` is flag `8i + j` when that flag exists, and 0 otherwise.
  - `PackedBitsUnique` proves these bits determine the bytes.
- **The command.** It is a class whose three events are `TypedEvent` objects.
  - `Success` and `Fail` return the listener calls they make, in order, as `Delivery` values.
  - They also store the response in the slot that `ResponsePacket` reads.
- **Listeners** are opaque values. `emit` returns the listeners it invokes, in order, instead of calling them.

Where the source is incomplete, the model follows the tests:

- The factory's `fromPacket` matches `ModbusFunctionCode.READ_HOLDING_REGISTERS` (src/tcp/modbus-tcp-command-factory.ts:195). No such member exists: the enum spells it `READ_HOLD_REGISTERS` (src/modbus-commands.ts:3-12).
  - Read as written, that case label would be `undefined` and no frame would match it.
  - The tests expect 0x03 frames to become holding-register reads, so the model takes the label to be 0x03 (`ModbusCodes.ReadHoldRegisters`).
- `simpleAddressing` is read by the address getters (src/tcp/modbus-tcp-command-factory.ts:148, 160, 168) but is defined nowhere.
  - The factory's constructor only stores its options (lines 20-23). The base class `ModbusCommandFactory` (src/modbus-command-factory.ts:3-5) declares no such field, and src/modbus-command-factory.ts does not declare the `ModbusCommandFactoryOptions` that line 14 imports.
  - Read as written, `this.simpleAddressing` would be `undefined`, and every address would be translated.
  - The tests construct the factory with no options, with `{simpleAddressing: true}` and with `{simpleAddressing: false}`. They expect address 0x0110 to read as 272, 272 and 273 respectively (src/tcp/tcp-commands.test.ts:50-66).
  - The model therefore makes it a constructor option that defaults to `true`.

## Model

| member | source | states |
|---|---|---|
| Bytes.ReadUInt8 | src/tcp/modbus-tcp-command-factory.ts:25-31 | `readUInt8(offset)` is the byte at that offset, below 256 |
| Bytes.ReadUInt16BE | src/tcp/modbus-tcp-command-factory.ts:147-173 | `readUInt16BE(offset)` is the number whose high byte is byte `offset` and whose low byte is byte `offset + 1` |
| Bytes.ToUint8 | src/tcp/modbus-tcp-command-factory.ts:75 | a number stored in a `Uint8Array` is kept modulo 256, so a number below 256 is kept unchanged |
| Bytes.HighLowRoundTrip | src/tcp/modbus-tcp-command-factory.ts:114-117 | writing `x >> 8` and `x & 0xFF` and reading them back with `readUInt16BE` gives `x` modulo 65536 |
| Bytes.BitOrBits | src/tcp/modbus-tcp-command-factory.ts:71 | a bit of the bitwise or of `a` and `b` is set exactly when it is set in `a` or in `b` |
| Bytes.OrHighBit | src/tcp/modbus-tcp-command-factory.ts:141 | below `2^(k+1)`, the bitwise or of `x` and `2^k` is `x` when bit `k` is set and `x + 2^k` otherwise |
| Bytes.Slice | src/tcp/modbus-tcp-command-factory.ts:70 | `slice(start, end)` has length `min(end, len) - start` (0 if negative), and element `k` is element `start + k` of the source |
| Bytes.HighByte | src/tcp/modbus-tcp-command-factory.ts:115 | `x >> 8` (also at line 63) stored in a `Uint8Array` is the high byte of `x` modulo 65536 |
| Bytes.LowByte | src/tcp/modbus-tcp-command-factory.ts:116 | `x & 0xFF` (also at line 64) stored in a `Uint8Array` is the byte that, after the high byte, makes up `x` modulo 65536 |
| Bytes.BitOr | src/tcp/modbus-tcp-command-factory.ts:71 | the bitwise or (also at line 141) of `a` and `b` is at least each of them and at most their sum (its bits are characterised by `Bytes.BitOrBits`) |
| Bytes.ShiftLeft | src/tcp/modbus-tcp-command-factory.ts:71 | `(flag ? 1 : 0) << n` has bit `n` set exactly when the flag is true, and no other bit |
| ModbusCodes.FunctionCode.Code | src/modbus-commands.ts:3-12 | every function code fits the function-code byte |
| ModbusCodes.FunctionCodeOf | src/modbus-commands.ts:3-12 | the reverse mapping of the enum returns a member with the given value |
| ModbusCodes.FunctionCodeRoundTrip | src/modbus-commands.ts:3-12 | the reverse mapping finds every member from its value, so no two members share a value |
| ModbusCodes.SupportedFunctionCodes | src/modbus-commands.ts:3-12 | the function codes are exactly 1 to 6, 15 and 16 |
| ModbusCodes.ExceptionCode.Code | src/modbus-commands.ts:14-25 | every exception code is a non-zero byte |
| ModbusCodes.ExceptionCodeOf | src/modbus-commands.ts:14-25 | the reverse mapping returns a member with the given value |
| ModbusCodes.ExceptionCodeRoundTrip | src/modbus-commands.ts:14-25 | the reverse mapping finds every exception member from its value |
| ModbusCodes.ValidExceptionCodes | src/modbus-commands.ts:14-25 | the exception codes are exactly 1 to 8, 10 and 11; 9 is absent |
| TypedEvents.IndexOf | src/util/typed-event.ts:40 | `indexOf` is -1 exactly when the listener is absent, and otherwise the position of its first occurrence |
| TypedEvents.RemoveFirstAbsent | src/util/typed-event.ts:39-42 | `off` of a listener that is not registered leaves the list unchanged |
| TypedEvents.RemoveFirstPresent | src/util/typed-event.ts:39-42 | `off` of a registered listener splices out exactly its first occurrence and keeps the others in order |
| TypedEvents.RemoveFirst | src/util/typed-event.ts:40-41 | `indexOf` followed by `splice(index, 1)` when the index is above -1; characterised by `TypedEvents.RemoveFirstAbsent` and `TypedEvents.RemoveFirstPresent` |
| TypedEvents.RemoveFirstOwnRegistration | src/util/typed-event.ts:28-41 | removing a listener that was absent before it was pushed takes out exactly that registration, whatever was pushed after it |
| TypedEvents.OnThenOffRestores | src/util/typed-event.ts:28-42 | disposing a fresh registration restores the list exactly |
| TypedEvents.OnThenOffSameMultiset | src/util/typed-event.ts:28-42 | `on` then `off` of the same listener keeps every listener's multiplicity |
| TypedEvents.TypedEvent.constructor | src/util/typed-event.ts:25-26 | both listener lists start empty |
| TypedEvents.TypedEvent.On | src/util/typed-event.ts:28-33 | appends to the persistent list, leaves the once-queue, and returns a disposable for that listener on this event |
| TypedEvents.TypedEvent.Once | src/util/typed-event.ts:35-37 | appends to the once-queue and leaves the persistent list |
| TypedEvents.TypedEvent.Off | src/util/typed-event.ts:39-42 | removes the first occurrence from the persistent list and never touches the once-queue |
| TypedEvents.TypedEvent.Emit | src/util/typed-event.ts:44-51 | invokes the persistent listeners in order, then the once-listeners in order, keeps the persistent list and empties the once-queue |
| TypedEvents.TypedEvent.Pipe | src/util/typed-event.ts:53-55 | registers exactly one persistent listener, a newly allocated forwarding closure to the target event that differs from every listener registered before |
| TypedEvents.ForwardClosure.constructor | src/util/typed-event.ts:54 | the closure `(e) => te.emit(e)` forwards to the event it was created for |
| TypedEvents.PipeTwiceDisposeSecond | src/util/typed-event.ts:28-55 | two pipes to the same target are different listeners, and disposing the second one removes only it |
| TypedEvents.Dispose | src/util/typed-event.ts:30-32 | disposing calls `off` with the same listener on the event it came from |
| TcpCodec.UnitId | src/tcp/modbus-tcp-command-factory.ts:25-27 | the unit id is byte 6 |
| TcpCodec.FunctionCode | src/tcp/modbus-tcp-command-factory.ts:29-31 | the function code is byte 7 |
| TcpCodec.Address | src/tcp/modbus-tcp-command-factory.ts:147-169 | the address is the big-endian field at bytes 8-9, plus 1, 10001 or 40001 when simple addressing is off |
| TcpCodec.Quantity | src/tcp/modbus-tcp-command-factory.ts:151-173 | register value, register count, coil count and input count are the big-endian field at bytes 10-11 |
| TcpCodec.AddressRoundTrip | src/tcp/modbus-tcp-command-factory.ts:147-169 | for any 0-based offset written into bytes 8-9, the getter returns the offset, or the offset plus the Modicon base |
| TcpCodec.PacketCopy | src/tcp/modbus-tcp-command-factory.ts:33 | the copy has the request's length and bytes |
| TcpCodec.StubTcpHeader | src/tcp/modbus-tcp-command-factory.ts:35-52 | the stub copies bytes 0-3, 6 and 7 of the request, and every other slot is still 0 |
| TcpCodec.CeilDiv8 | src/tcp/modbus-tcp-command-factory.ts:59 | `ceil(n / 8)` is the least number of bytes that hold `n` bits |
| TcpCodec.AccumulateBits | src/tcp/modbus-tcp-command-factory.ts:71 | one `reduce` step sets bit `currentIndex` when the flag is true, keeps every other bit and stays a byte |
| TcpCodec.ReduceBits | src/tcp/modbus-tcp-command-factory.ts:70-72 | the `reduce` from `index` on sets bit `j` exactly when it was set or flag `j` is true, and stays a byte |
| TcpCodec.Accumulate | src/tcp/modbus-tcp-command-factory.ts:71 | one `reduce` step never lowers the accumulator and leaves it unchanged for a false flag (its bits are characterised by `TcpCodec.AccumulateBits`) |
| TcpCodec.Reduce | src/tcp/modbus-tcp-command-factory.ts:70-72 | the `reduce` from `index` on never lowers the accumulator and leaves it unchanged when every remaining flag is false (its bits are characterised by `TcpCodec.ReduceBits`) |
| TcpCodec.Padded | src/tcp/modbus-tcp-command-factory.ts:67 | the padded list is the data followed by exactly `8 - n % 8` false flags |
| TcpCodec.RegisterAt | src/tcp/modbus-tcp-command-factory.ts:115-116 | `data[i]`, with a register past the end read as 0; characterised by `TcpCodec.RegisterBytes` and `TcpCodec.RegisterFrameReadsBack`, which read each register back from the frame |
| TcpCodec.AddressBase.Offset | src/tcp/modbus-tcp-command-factory.ts:147-169 | the Modicon base added when addressing is not simple: 1 for coils, 10001 for inputs, 40001 for holding registers; characterised by `TcpCodec.Address` and `TestVectors.CoilRequestFields` |
| TcpCodec.PackByte | src/tcp/modbus-tcp-command-factory.ts:70-72 | a slice of up to eight flags gives a byte whose bit `j` is flag `j`, and the missing flags give 0 bits |
| TcpCodec.PackedBits | src/tcp/modbus-tcp-command-factory.ts:66-73 | `ceil(n / 8)` data bytes, bit `j` of byte `i` being flag `8i + j` when it exists and 0 otherwise |
| TcpCodec.PackedBitsUnique | src/tcp/modbus-tcp-command-factory.ts:66-73 | any bytes of that length with those bits are the encoder's data bytes |
| TcpCodec.ReadResponseHeader | src/tcp/modbus-tcp-command-factory.ts:55-64 | request bytes 0-3, 6 and 7 are copied, bytes 4-5 read back as `byteCount + 3`, and byte 8 is the byte count, all modulo the field width |
| TcpCodec.BitStatusFrame | src/tcp/modbus-tcp-command-factory.ts:54-76 | a coil or input response is the header for `ceil(n / 8)` followed by the packed bits, `9 + ceil(n / 8)` bytes in all |
| TcpCodec.WriteLengthFields | src/tcp/modbus-tcp-command-factory.ts:57-64 | stores the byte count at byte 8 and `byteCount + 3` at bytes 4-5, and changes no other byte |
| TcpCodec.WritePackedBits | src/tcp/modbus-tcp-command-factory.ts:68-73 | the loop writes data byte `i` at `9 + i` and leaves the header alone |
| TcpCodec.BoolArraySuccess | src/tcp/modbus-tcp-command-factory.ts:54-100 | `_readCoilSuccessGetter` and `_readInputStatusSuccessGetter` return exactly `BitStatusFrame` |
| TcpCodec.RegisterBytes | src/tcp/modbus-tcp-command-factory.ts:114-117 | register `i` is written high byte at `2i` and low byte at `2i + 1` |
| TcpCodec.RegisterFrame | src/tcp/modbus-tcp-command-factory.ts:102-120 | a register response is the header for `2n` followed by the register bytes, `9 + 2n` bytes in all |
| TcpCodec.RegisterFrameReadsBack | src/tcp/modbus-tcp-command-factory.ts:114-117 | `readUInt16BE(9 + 2i)` of the response returns register `i` |
| TcpCodec.WriteRegisters | src/tcp/modbus-tcp-command-factory.ts:114-117 | the loop writes the register bytes after the header and leaves the header alone |
| TcpCodec.Uint16ArraySuccess | src/tcp/modbus-tcp-command-factory.ts:102-120 | `_readHoldingRegisterSuccessGetter` returns exactly `RegisterFrame` |
| TcpCodec.ExceptionFunctionCode | src/tcp/modbus-tcp-command-factory.ts:141 | or-ing 0x80 into a function code adds 0x80 to a code below 0x80 and keeps any other code |
| TcpCodec.FailureFrame | src/tcp/modbus-tcp-command-factory.ts:122-145 | 9 bytes: request bytes 0-3, then 0x00 0x03 (length 3), the unit id, the function code with bit 7 set, and the exception code |
| TcpCodec.FailureGetter | src/tcp/modbus-tcp-command-factory.ts:122-145 | `_failureGetter` returns exactly `FailureFrame` |
| ModbusCommands.Kind.Code | src/tcp/modbus-tcp-command-factory.ts:184-204 | the four command kinds carry function codes 0x01, 0x02, 0x03 and 0x06 |
| ModbusCommands.SuccessFrame | src/tcp/modbus-tcp-command-factory.ts:186-204 | a preset command echoes the request, a coil or input read gives `BitStatusFrame`, and a register read gives `RegisterFrame` |
| ModbusCommands.Deliveries | src/util/typed-event.ts:44-51 | an emit makes one call per invoked listener, in order, each with the emitted bytes |
| ModbusCommands.DeliveriesOnOneChannel | src/modbus-commands.ts:74-84 | every call of one emit is on that emit's event, with its bytes, to one of its listeners |
| ModbusCommands.ModbusCommand.constructor | src/modbus-commands.ts:40-72 | a fresh command holds the request, three fresh, distinct and empty events, and no response |
| ModbusCommands.ModbusCommand.UnitId | src/modbus-commands.ts:57-59 | `unitId` is byte 6 of the stored request |
| ModbusCommands.ModbusCommand.FunctionCode | src/modbus-commands.ts:61-63 | `functionCode` is byte 7 of the stored request |
| ModbusCommands.ModbusCommand.StartAddress | src/tcp/modbus-tcp-command-factory.ts:147-169 | a read command's start address is bytes 8-9, plus the Modicon base of its kind unless addressing is simple |
| ModbusCommands.ModbusCommand.Length | src/tcp/modbus-tcp-command-factory.ts:155-173 | a read command's count is bytes 10-11 |
| ModbusCommands.ModbusCommand.RegisterAddress | src/modbus-commands.ts:93-95 | `registerAddress` is bytes 8-9, plus 40001 unless addressing is simple |
| ModbusCommands.ModbusCommand.RegisterValue | src/modbus-commands.ts:97-99 | `registerValue` is bytes 10-11 |
| ModbusCommands.ModbusCommand.ResponsePacket | src/tcp/tcp-commands.test.ts:122-128 | reading the response fails with the "not been called" error exactly when neither `success` nor `fail` has run |
| ModbusCommands.ModbusCommand.Success | src/modbus-commands.ts:74-78 | stores the success response and delivers it to every `onComplete` listener and then every `onSuccess` listener |
| ModbusCommands.ModbusCommand.Fail | src/modbus-commands.ts:80-84 | stores the exception response and delivers it to every `onComplete` listener and then every `onFailure` listener |
| ModbusCommands.SuccessDeliveries | src/modbus-commands.ts:74-78 | after `success`, every call carries the success bytes, the `onComplete` calls come first, and `onFailure` never fires |
| ModbusCommands.FailureDeliveries | src/modbus-commands.ts:80-84 | after `fail`, every call carries the failure bytes, the `onComplete` calls come first, and `onSuccess` never fires |
| TcpCommandFactory.Decode | src/tcp/modbus-tcp-command-factory.ts:175-208 | frames shorter than 12 bytes fail as too short; otherwise decoding succeeds exactly when byte 7 is 1, 2, 3 or 6, and any other code fails as not implemented |
| TcpCommandFactory.ShortPacketsRejected | src/tcp/modbus-tcp-command-factory.ts:176-179 | every short frame is rejected alike, whatever its bytes |
| TcpCommandFactory.DecodeDependsOnFunctionCode | src/tcp/modbus-tcp-command-factory.ts:181-184 | two long-enough frames with the same byte 7 decode alike |
| TcpCommandFactory.DecodeKinds | src/tcp/modbus-tcp-command-factory.ts:184-204 | 0x01, 0x02, 0x03 and 0x06 give the coil, input, holding-register and preset commands |
| TcpCommandFactory.ModbusTcpCommandFactory.constructor | src/tcp/modbus-tcp-command-factory.ts:20-23 | the factory keeps its options; addressing is simple unless the options turn it off |
| TcpCommandFactory.ModbusTcpCommandFactory.FromPacket | src/tcp/modbus-tcp-command-factory.ts:175-208 | a fresh, unresolved command of the decoded kind over the frame, whose three events have no listeners, or the decoding error |
| EventFactory.UnitId | src/modbus-event-factory.ts:21-23 | the unit id is byte 6 |
| EventFactory.FunctionCode | src/modbus-event-factory.ts:25-27 | the function code is byte 7 |
| EventFactory.RegisterAddress | src/modbus-event-factory.ts:56-58 | the register address is bytes 8-9, untranslated |
| EventFactory.RegisterValue | src/modbus-event-factory.ts:60-62 | the register value is bytes 10-11 |
| EventFactory.GettersAgree | src/modbus-event-factory.ts:21-62 | these getters equal the TCP factory's under simple addressing |
| EventFactory.FailureGetter | src/modbus-event-factory.ts:31-54 | this factory's exception response is byte-identical to the TCP factory's |
| EventFactory.SuccessEchoesRequest | src/modbus-event-factory.ts:29 | the success response of every command it accepts is the request |
| EventFactory.Decode | src/modbus-event-factory.ts:64-82 | short frames fail as too short; otherwise only 0x06 succeeds, with the preset command, and any other code fails as not implemented |
| EventFactory.DecodeRefinesTcp | src/modbus-event-factory.ts:64-82 | whatever this factory accepts the TCP factory accepts as the same command, and whatever the TCP factory rejects this one rejects with the same error |
| EventFactory.FromPacket | src/modbus-event-factory.ts:64-82 | a fresh, unresolved preset command with simple addressing, whose three events have no listeners, or the decoding error |
| EventFactory.CommandUsesEventGetters | src/modbus-event-factory.ts:75-78 | a command from this factory reports this factory's unit id, function code, address and value |
| TestVectors.CoilStatusPayload | src/tcp/tcp-commands.test.ts:28-36 | the 37 test flags pack to `CD 6B B2 0E 1B` |
| TestVectors.CoilStatusResponse | src/tcp/tcp-commands.test.ts:26-36 | the 37-coil read answers `00 01 00 00 00 08 05 01 05 CD 6B B2 0E 1B` |
| TestVectors.CoilStatusFailure | src/tcp/tcp-commands.test.ts:102 | its exception response with code 4 is `00 01 00 00 00 03 05 81 04` |
| TestVectors.CoilRequestFields | src/tcp/tcp-commands.test.ts:50-66 | the coil address is 272, or 273 in Modicon numbering, and the request decodes as a coil read |
| TestVectors.InputStatusPayload | src/tcp/tcp-commands.test.ts:141-149 | the 22 test flags pack to `AC DB 35` |
| TestVectors.InputStatusResponse | src/tcp/tcp-commands.test.ts:141-149 | the 22-input read answers `00 01 00 00 00 06 05 02 03 AC DB 35` |
| TestVectors.InputStatusFailure | src/tcp/tcp-commands.test.ts:150 | its exception response is `00 01 00 00 00 03 05 82 04` |
| TestVectors.InputRequestFields | src/tcp/tcp-commands.test.ts:164-180 | the input address is 272, or 10273 in Modicon numbering |
| TestVectors.HoldingRegistersPayload | src/tcp/tcp-commands.test.ts:255-257 | the three test registers are written `AE 41 56 52 43 40` |
| TestVectors.HoldingRegistersResponse | src/tcp/tcp-commands.test.ts:253-257 | the three-register read answers `00 01 00 00 00 09 05 03 06 AE 41 56 52 43 40` |
| TestVectors.HoldingRegistersFailure | src/tcp/tcp-commands.test.ts:258 | its exception response is `00 01 00 00 00 03 05 83 04` |
| TestVectors.RegisterRequestFields | src/tcp/tcp-commands.test.ts:272-288 | the register address is 272, or 40273 in Modicon numbering |
| TestVectors.PresetSingleRegisterVectors | test/simple-modbus.test.ts:16-74 | the preset request has address 0, value 3 and unit 0x11, its success response is the request, and its failure response is `... 11 86 04` |
| TestVectors.MalformedPackets | src/tcp/tcp-commands.test.ts:988-1002 | function code 0x14 is not implemented, and a 10-byte frame is too short |
| TestVectors.EventFactoryVectors | src/modbus-event-factory.ts:56-82 | the event factory reads the preset request as address 0 and value 3, rejects a coil read, and rejects a 10-byte frame |
| TestVectors.RegisterByteCountWraps | src/tcp/modbus-tcp-command-factory.ts:106-112 | a 128-register read stores byte count 256 as 0, while the length field holds 259 |

## Left out

- The servers (`src/tcp/modbus-tcp-server.ts`, `src/modbus-tcp-server.ts`, `src/modbus-server.ts`), the socket mock and the examples are not part of this model. They are socket I/O and console logging.
- `src/error/modbus-errors.ts` is not part of this model beyond the messages. A `ModbusCommandError` is modelled as a value that carries its message.
- The decoders for 0x04, 0x05, 0x0F and 0x10 are left out. The tests expect them, but `fromPacket` (src/tcp/modbus-tcp-command-factory.ts:184-207) rejects those codes, and the model follows the factory.
- The `autoRespondSuccess` server option is left out. It belongs to the server.
- The tests expect listeners to receive the command, while `success` and `fail` emit the response bytes. The model follows the source and delivers the bytes.
- The response slot read by `responsePacket` is not declared in src/modbus-commands.ts. It is modelled from the tests: it is empty until `success` or `fail` runs, and each of them overwrites it. Neither is guarded against a second call, as in the source.
- `ModbusCommand.success()` (src/modbus-commands.ts:74-78) takes no argument. src/modbus-commands.ts does not declare the read-command classes, or the bit, register and length getter types, that src/tcp/modbus-tcp-command-factory.ts:1-12 imports from it. `ModbusCommands.ModbusCommand.Success`'s `data` argument, its `Accepts` precondition (flags, registers or nothing), and `StartAddress` and `Length` are reconstructed from the getters the factory passes and from the tests.
- The event factory's commands are built with the same command class as the TCP factory's, with simple addressing.
  - So their `fail` uses the TCP failure encoder.
  - This is sound because `EventFactory.FailureGetter` proves the event factory's encoder gives the same bytes.
  - `EventFactory.CommandUsesEventGetters` proves the same for the getters.
- `Buffer` and the JavaScript arrays that the encoders grow are replaced by sequences and fixed-size arrays.
  - An index the source never assigns (bytes 4-5 and 8 of the stub) holds 0 until it is written.
  - In the source such an index is a hole, and `new Uint8Array` also turns a hole into 0.
- TypedEvents.TypedEvent.Emit: listeners are opaque values. `emit` returns the listeners it would call instead of running them. Callbacks that register or remove listeners while an emit is running are not modelled.
- TypedEvents.TypedEvent.Pipe: each pipe registers a newly allocated `ForwardClosure`, so two pipes to the same target are distinct listeners, as two closures are in JavaScript. What the closure does when called, re-emitting on the target, is not modelled, since listeners are not run.
- TcpCodec.RegisterBytes: a register past the end of the data is read as 0. This stands for the source's `undefined >> 8` and `undefined & 0xFF`, and there is no precondition on the length of the data.
- The bit encoder pads with `8 - n % 8` flags, so a count that is a multiple of 8 gets a whole extra byte of padding. That byte is never read, and the model pads the same way.
