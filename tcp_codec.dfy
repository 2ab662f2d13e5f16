/** The field getters and response encoders of `ModbusTcpCommandFactory`.
    Frames follow the MBAP header of the Modbus Messaging on TCP/IP Implementation Guide V1.0b
    (section 3.1.3): transaction id (bytes 0-1), protocol id (2-3), length (4-5), unit id (6),
    followed by the PDU of the Modbus Application Protocol Specification V1.1b3 (function code at 7). */
module TcpCodec {
  import opened Bytes
  import opened ModbusCodes

  /** The shortest request the factory accepts: MBAP header, function code and four payload bytes. */
  const MinRequestLength: nat := 12

  // ---------------------------------------------------------------- getters

  /** The unit id getter: byte 6. */
  function UnitId(p: Packet): (r: nat)
    requires |p| >= 8
    ensures r == p[6]
  {
    ReadUInt8(p, 6)
  }

  /** The function code getter: byte 7. */
  function FunctionCode(p: Packet): (r: nat)
    requires |p| >= 8
    ensures r == p[7]
  {
    ReadUInt8(p, 7)
  }

  /** The three Modicon address ranges the address getters translate into. */
  datatype AddressBase = Coil | Input | HoldingRegister {
    /** What the Modicon convention adds to a 0-based offset. */
    function Offset(): nat
    {
      match this
      case Coil => 1
      case Input => 10001
      case HoldingRegister => 40001
    }
  }

  /** The coil, input and holding-register address getters: the big-endian field at bytes 8-9, shifted
      into the Modicon range unless the factory uses simple addressing. */
  function Address(base: AddressBase, simpleAddressing: bool, p: Packet): (r: nat)
    requires |p| >= MinRequestLength
    ensures var shift := if simpleAddressing then 0 else base.Offset();
            shift <= r < shift + 0x1_0000 && (r - shift) / 0x100 == p[8] && (r - shift) % 0x100 == p[9]
  {
    if simpleAddressing then ReadUInt16BE(p, 8) else ReadUInt16BE(p, 8) + base.Offset()
  }

  /** The register value, register length, coil length and input length getters all read the
      big-endian field at bytes 10-11. */
  function Quantity(p: Packet): (r: Uint16)
    requires |p| >= MinRequestLength
    ensures r / 0x100 == p[10] && r % 0x100 == p[11]
  {
    ReadUInt16BE(p, 10)
  }

  /** For every 0-based offset written big-endian into bytes 8-9, the getter returns the offset itself
      under simple addressing and the offset plus the Modicon base otherwise. */
  lemma {:induction false} AddressRoundTrip(base: AddressBase, simpleAddressing: bool, offset: Uint16, p: Packet)
    requires |p| >= MinRequestLength
    requires p[8] == HighByte(offset) && p[9] == LowByte(offset)
    ensures simpleAddressing ==> Address(base, simpleAddressing, p) == offset
    ensures !simpleAddressing ==> Address(base, simpleAddressing, p) == offset + base.Offset()
  {
    HighLowRoundTrip(offset, p, 8);
  }

  // ---------------------------------------------------------------- packet copy

  /** `Buffer.from(requestPacket)`: the echo response of single-register writes is the request itself. */
  function PacketCopy(request: Packet): (r: Packet)
    ensures |r| == |request| && forall k :: 0 <= k < |r| ==> r[k] == request[k]
  {
    request
  }

  // ---------------------------------------------------------------- header stub

  /** `_stubTcpHeader`: a response whose transaction id, protocol id, unit id and function code are
      those of the request. The source grows a JavaScript array; here the array is allocated at its final
      size, and the slots not yet written hold 0, which is what `new Uint8Array` makes of a hole. */
  method StubTcpHeader(request: Packet, size: nat) returns (response: array<Byte>)
    requires |request| >= 8 && size >= 9
    ensures fresh(response) && response.Length == size
    ensures response[..4] == request[..4]
    ensures response[6] == request[6] && response[7] == request[7]
    ensures response[4] == 0 && response[5] == 0
    ensures forall k :: 8 <= k < size ==> response[k] == 0
  {
    response := new Byte[size](_ => 0);
    response[0] := request[0];
    response[1] := request[1];
    response[2] := request[2];
    response[3] := request[3];
    response[6] := request[6];
    response[7] := request[7];
  }

  // ---------------------------------------------------------------- bit arrays

  /** `Math.ceil(n / 8.0)`: the number of bytes `n` bits occupy. */
  function CeilDiv8(n: nat): (r: nat)
    ensures 8 * r >= n && (r == 0 || 8 * (r - 1) < n)
  {
    (n + 7) / 8
  }

  /** One step of the `reduce` that builds a data byte: `accumulator | ((currentValue ? 1 : 0) << currentIndex)`. */
  function Accumulate(accumulator: nat, currentValue: bool, currentIndex: nat): (r: nat)
    ensures accumulator <= r
    ensures !currentValue ==> r == accumulator
  {
    BitOr(accumulator, ShiftLeft(if currentValue then 1 else 0, currentIndex))
  }

  /** `bits.slice(index).reduce(...)` with the accumulator reached so far. */
  function Reduce(bits: seq<bool>, accumulator: nat, index: nat): (r: nat)
    requires index <= |bits|
    ensures accumulator <= r
    ensures (forall k :: index <= k < |bits| ==> !bits[k]) ==> r == accumulator
    decreases |bits| - index
  {
    if index == |bits| then accumulator
    else Reduce(bits, Accumulate(accumulator, bits[index], index), index + 1)
  }

  lemma {:induction false} Pow2Grows(i: nat, k: nat)
    requires i < k
    ensures Pow2(i) < Pow2(k)
    decreases k
  {
    if i < k - 1 {
      Pow2Grows(i, k - 1);
    }
  }

  /** One step sets bit `currentIndex` when the value is true and keeps every other bit, within a byte. */
  lemma AccumulateBits(accumulator: nat, currentValue: bool, currentIndex: nat, j: nat)
    requires accumulator < 0x100 && currentIndex < 8
    ensures Accumulate(accumulator, currentValue, currentIndex) < 0x100
    ensures BitAt(Accumulate(accumulator, currentValue, currentIndex), j) == (BitAt(accumulator, j) || (j == currentIndex && currentValue))
  {
    var shifted := ShiftLeft(if currentValue then 1 else 0, currentIndex);
    assert Pow2(8) == 0x100;
    Pow2Grows(currentIndex, 8);
    BitOrBound(accumulator, shifted, 8);
    BitOrBits(accumulator, shifted, j);
    if currentValue {
      BitOfPow2(currentIndex, j);
    } else {
      BitAtZero(j);
    }
  }

  /** Reducing the flags from `index` on sets bit `j` exactly when it was already set or flag `j`
      is among them and true; a byte stays a byte. */
  lemma {:induction false} ReduceBits(bits: seq<bool>, accumulator: nat, index: nat, j: nat)
    requires index <= |bits| <= 8 && accumulator < 0x100
    ensures Reduce(bits, accumulator, index) < 0x100
    ensures BitAt(Reduce(bits, accumulator, index), j) == (BitAt(accumulator, j) || (index <= j < |bits| && bits[j]))
    decreases |bits| - index
  {
    if index < |bits| {
      AccumulateBits(accumulator, bits[index], index, j);
      ReduceBits(bits, Accumulate(accumulator, bits[index], index), index + 1, j);
    }
  }

  /** A slice of at most eight flags packed into a byte, the first flag in the least significant bit. */
  function PackByte(bits: seq<bool>): (r: Byte)
    requires |bits| <= 8
    ensures forall j :: 0 <= j < 8 ==> BitAt(r, j) == (j < |bits| && bits[j])
  {
    ReduceBits(bits, 0, 0, 0);
    var r := Reduce(bits, 0, 0);
    forall j | 0 <= j < 8 ensures BitAt(r, j) == (j < |bits| && bits[j]) {
      ReduceBits(bits, 0, 0, j);
      BitAtZero(j);
    }
    r
  }

  /** The flag list after the source pads it with `8 - n % 8` false values. */
  function Padded(data: seq<bool>, requested: nat): (r: seq<bool>)
    ensures |r| == |data| + 8 - requested % 8
    ensures r[..|data|] == data
    ensures forall k :: |data| <= k < |r| ==> !r[k]
  {
    var r := data + seq(8 - requested % 8, _ => false);
    assert r[..|data|] == data;
    r
  }

  /** Flag `k` as the encoder sees it: `data[k]` when it exists, false otherwise. */
  predicate DataBit(data: seq<bool>, k: nat)
  {
    k < |data| && data[k]
  }

  /** Data byte `i`: the reduction of the `i`-th eight-flag slice of the padded list. */
  function DataByte(data: seq<bool>, requested: nat, i: nat): Byte
  {
    PackByte(Slice(Padded(data, requested), i * 8, 8 + i * 8))
  }

  /** The data bytes of a coil or input status response: `ceil(n / 8)` bytes, packed LSB-first, so
      that bit `j` of byte `i` is flag `8 * i + j`. */
  function PackedBits(data: seq<bool>, requested: nat): (r: seq<Byte>)
    ensures |r| == CeilDiv8(requested)
    ensures forall i :: 0 <= i < |r| ==> r[i] == DataByte(data, requested, i)
    ensures forall i, j :: 0 <= i < |r| && 0 <= j < 8 ==> BitAt(r[i], j) == DataBit(data, 8 * i + j)
  {
    var padded := Padded(data, requested);
    var r := seq(CeilDiv8(requested), i requires 0 <= i => DataByte(data, requested, i));
    forall i, j | 0 <= i < |r| && 0 <= j < 8 ensures BitAt(r[i], j) == DataBit(data, 8 * i + j) {
      var bits := Slice(padded, i * 8, 8 + i * 8);
      assert BitAt(r[i], j) == (j < |bits| && bits[j]);
      if j < |bits| {
        assert bits[j] == padded[8 * i + j];
      }
    }
    r
  }

  /** The data bytes are determined by their bits: any byte sequence of the right length whose bit `j`
      of byte `i` is flag `8 * i + j` is the encoder's output. */
  lemma PackedBitsUnique(data: seq<bool>, requested: nat, expected: seq<Byte>)
    requires |expected| == CeilDiv8(requested)
    requires forall i, j :: 0 <= i < |expected| && 0 <= j < 8 ==> BitAt(expected[i], j) == DataBit(data, 8 * i + j)
    ensures PackedBits(data, requested) == expected
  {
    var r := PackedBits(data, requested);
    assert Pow2(8) == 0x100;
    forall i | 0 <= i < |r|
      ensures r[i] == expected[i]
    {
      BitsDetermine(r[i], expected[i], 8);
    }
  }

  /** The nine bytes that open a read response: the request's transaction id, protocol id, unit id and
      function code, the MBAP length `byteCount + 3` and the PDU byte count, both as the `Uint8Array` stores them. */
  function ReadResponseHeader(request: Packet, byteCount: nat): (r: Packet)
    requires |request| >= 8
    ensures |r| == 9
    ensures r[..4] == request[..4] && r[6] == request[6] && r[7] == request[7]
    ensures ReadUInt16BE(r, 4) == (byteCount + 3) % 0x1_0000
    ensures r[8] == byteCount % 0x100
  {
    var r := request[..4] + [HighByte(byteCount + 3), LowByte(byteCount + 3), request[6], request[7], ToUint8(byteCount)];
    HighLowRoundTrip(byteCount + 3, r, 4);
    r
  }

  /** Nine bytes holding the fields `ReadResponseHeader` describes are that header. */
  lemma HeaderFromFields(request: Packet, byteCount: nat, h: Packet)
    requires |request| >= 8 && |h| == 9
    requires h[..4] == request[..4] && h[6] == request[6] && h[7] == request[7]
    requires h[4] == HighByte(byteCount + 3) && h[5] == LowByte(byteCount + 3) && h[8] == ToUint8(byteCount)
    ensures h == ReadResponseHeader(request, byteCount)
  {
    var r := ReadResponseHeader(request, byteCount);
    assert r == request[..4] + [HighByte(byteCount + 3), LowByte(byteCount + 3), request[6], request[7], ToUint8(byteCount)];
    assert h[..4] == r[..4];
    assert h[4..] == r[4..];
    assert h == h[..4] + h[4..];
  }

  /** The success response of a coil or input status read. */
  function BitStatusFrame(request: Packet, data: seq<bool>): (r: Packet)
    requires |request| >= MinRequestLength
    ensures var byteLength := CeilDiv8(Quantity(request));
            && |r| == 9 + byteLength
            && r[..9] == ReadResponseHeader(request, byteLength)
            && r[9..] == PackedBits(data, Quantity(request))
  {
    var header := ReadResponseHeader(request, CeilDiv8(Quantity(request)));
    var payload := PackedBits(data, Quantity(request));
    assert (header + payload)[..9] == header;
    header + payload
  }

  /** The lines of a read encoder that store the PDU byte count at byte 8 and the MBAP length
      `byteCount + 3` at bytes 4-5, each through the `Uint8Array` conversion. */
  method WriteLengthFields(response: array<Byte>, byteCount: nat)
    requires response.Length >= 9
    modifies response
    ensures response[8] == ToUint8(byteCount)
    ensures response[4] == HighByte(byteCount + 3) && response[5] == LowByte(byteCount + 3)
    ensures forall k :: 0 <= k < response.Length && k != 4 && k != 5 && k != 8 ==> response[k] == old(response[k])
  {
    response[8] := ToUint8(byteCount);
    response[4] := HighByte(byteCount + 3);
    response[5] := LowByte(byteCount + 3);
  }

  /** A packet with the right length, the right header and every data byte in place is the frame. */
  lemma BitStatusFrameFromFields(request: Packet, data: seq<bool>, p: Packet)
    requires |request| >= MinRequestLength
    requires |p| == 9 + CeilDiv8(Quantity(request))
    requires p[..9] == ReadResponseHeader(request, CeilDiv8(Quantity(request)))
    requires forall i :: 0 <= i < CeilDiv8(Quantity(request)) ==> p[9 + i] == DataByte(data, Quantity(request), i)
    ensures p == BitStatusFrame(request, data)
  {
    var r := BitStatusFrame(request, data);
    forall k | 0 <= k < |p|
      ensures p[k] == r[k]
    {
      if k < 9 {
        assert p[k] == p[..9][k] && r[k] == r[..9][k];
      } else {
        assert r[k] == r[9..][k - 9];
      }
    }
  }

  /** The loop of the two bit-status encoders: data byte `i` goes to byte `9 + i`. */
  method WritePackedBits(a: array<Byte>, paddedData: seq<bool>, ghost data: seq<bool>, ghost requested: nat, byteLength: nat)
    requires paddedData == Padded(data, requested) && byteLength == CeilDiv8(requested)
    requires a.Length == 9 + byteLength
    modifies a
    ensures forall k :: 0 <= k < 9 ==> a[k] == old(a[k])
    ensures forall i :: 0 <= i < byteLength ==> a[9 + i] == DataByte(data, requested, i)
  {
    for i := 0 to byteLength
      invariant forall k :: 0 <= k < 9 ==> a[k] == old(a[k])
      invariant forall j :: 0 <= j < i ==> a[9 + j] == DataByte(data, requested, j)
    {
      a[9 + i] := PackByte(Slice(paddedData, i * 8, 8 + i * 8));
    }
  }

  /** `_readCoilSuccessGetter` and `_readInputStatusSuccessGetter` (the two are the same code). */
  method BoolArraySuccess(request: Packet, data: seq<bool>) returns (response: Packet)
    requires |request| >= MinRequestLength
    ensures response == BitStatusFrame(request, data)
  {
    var coilsRequested := Quantity(request);
    var byteLength := CeilDiv8(coilsRequested);
    var a := StubTcpHeader(request, 9 + byteLength);
    WriteLengthFields(a, byteLength);
    HeaderFromFields(request, byteLength, a[..9]);
    ghost var header := a[..9];
    var paddedData := Padded(data, coilsRequested);
    WritePackedBits(a, paddedData, data, coilsRequested, byteLength);
    assert a[..9] == header;
    response := a[..];
    BitStatusFrameFromFields(request, data, response);
  }

  // ---------------------------------------------------------------- register arrays

  /** Register `i` as the encoder sees it: past the end of the data it is `undefined`, and
      `undefined >> 8` and `undefined & 0xFF` are both 0. */
  function RegisterAt(data: seq<Uint16>, i: nat): Uint16
  {
    if i < |data| then data[i] else 0
  }

  /** The data bytes of a holding register response: each register high byte first. */
  function RegisterBytes(data: seq<Uint16>, count: nat): (r: seq<Byte>)
    ensures |r| == 2 * count
    ensures forall i :: 0 <= i < count ==> r[2 * i] == HighByte(RegisterAt(data, i)) && r[2 * i + 1] == LowByte(RegisterAt(data, i))
  {
    var r := seq(2 * count, k requires 0 <= k => if k % 2 == 0 then HighByte(RegisterAt(data, k / 2)) else LowByte(RegisterAt(data, k / 2)));
    assert forall i :: 0 <= i < count ==> (2 * i) / 2 == i && (2 * i + 1) / 2 == i && (2 * i) % 2 == 0 && (2 * i + 1) % 2 == 1;
    r
  }

  /** The success response of a holding register read. The byte count `2n` and the length `2n + 3`
      are stored modulo 256 and 65536, as the `Uint8Array` does. */
  function RegisterFrame(request: Packet, data: seq<Uint16>): (r: Packet)
    requires |request| >= MinRequestLength
    ensures var n := Quantity(request);
            && |r| == 9 + 2 * n
            && r[..9] == ReadResponseHeader(request, 2 * n)
            && r[9..] == RegisterBytes(data, n)
  {
    var header := ReadResponseHeader(request, 2 * Quantity(request));
    var payload := RegisterBytes(data, Quantity(request));
    assert (header + payload)[..9] == header;
    header + payload
  }

  /** Reading the response back with `readUInt16BE` gives every register that was supplied. */
  lemma RegisterFrameReadsBack(request: Packet, data: seq<Uint16>, i: nat)
    requires |request| >= MinRequestLength && i < Quantity(request)
    ensures ReadUInt16BE(RegisterFrame(request, data), 9 + 2 * i) == RegisterAt(data, i)
  {
    var r := RegisterFrame(request, data);
    var payload := RegisterBytes(data, Quantity(request));
    assert r[9..] == payload;
    var x := RegisterAt(data, i);
    assert payload[2 * i] == HighByte(x) && payload[2 * i + 1] == LowByte(x);
    assert r[9 + 2 * i] == r[9..][2 * i] && r[10 + 2 * i] == r[9..][2 * i + 1];
    HighLowRoundTrip(x, r, 9 + 2 * i);
    assert x % 0x1_0000 == x;
  }

  /** One more register appends its two bytes. */
  lemma RegisterBytesStep(data: seq<Uint16>, i: nat)
    ensures RegisterBytes(data, i + 1) == RegisterBytes(data, i) + [HighByte(RegisterAt(data, i)), LowByte(RegisterAt(data, i))]
  {
    var r, s := RegisterBytes(data, i + 1), RegisterBytes(data, i) + [HighByte(RegisterAt(data, i)), LowByte(RegisterAt(data, i))];
    forall k | 0 <= k < 2 * i + 2
      ensures r[k] == s[k]
    {
      if k < 2 * i {
        assert s[k] == RegisterBytes(data, i)[k];
      }
    }
  }

  /** The loop of `_readHoldingRegisterSuccessGetter`: register `i` goes to bytes `9 + 2i` and `10 + 2i`,
      high byte first. */
  method WriteRegisters(a: array<Byte>, data: seq<Uint16>, n: nat)
    requires a.Length == 9 + 2 * n
    modifies a
    ensures a[..9] == old(a[..9])
    ensures a[9..] == RegisterBytes(data, n)
  {
    for i := 0 to n
      invariant a[..9] == old(a[..9])
      invariant a[9..9 + 2 * i] == RegisterBytes(data, i)
    {
      var register := RegisterAt(data, i);
      a[9 + (i * 2)] := HighByte(register);
      a[10 + (i * 2)] := LowByte(register);
      RegisterBytesStep(data, i);
      assert a[9..9 + 2 * (i + 1)] == a[9..9 + 2 * i] + [a[9 + 2 * i], a[10 + 2 * i]];
    }
    assert a[9..] == a[9..9 + 2 * n];
  }

  /** `_readHoldingRegisterSuccessGetter`. */
  method Uint16ArraySuccess(request: Packet, data: seq<Uint16>) returns (response: Packet)
    requires |request| >= MinRequestLength
    ensures response == RegisterFrame(request, data)
  {
    var registersRequested: nat := Quantity(request);
    var byteLength := registersRequested * 2;
    var a := StubTcpHeader(request, 9 + byteLength);
    WriteLengthFields(a, byteLength);
    HeaderFromFields(request, byteLength, a[..9]);
    WriteRegisters(a, data, registersRequested);
    response := a[..];
    assert response == a[..9] + a[9..];
  }

  // ---------------------------------------------------------------- exception response

  /** `code | 0b10000000`: the function code of an exception response. The high bit is set and the
      other seven bits are kept, so a code that already has it passes through unchanged. */
  function ExceptionFunctionCode(code: Byte): (r: Byte)
    ensures r == if code >= 0x80 then code else code + 0x80
  {
    assert Pow2(7) == 0x80;
    OrHighBit(code, 7);
    BitOr(code, 0x80)
  }

  /** The exception response: transaction id, protocol id and unit id copied, length fixed at 3,
      function code with its high bit set, then the exception code. */
  function FailureFrame(request: Packet, exception: ExceptionCode): (r: Packet)
    requires |request| >= 8
    ensures |r| == 9
    ensures r[..4] == request[..4]
    ensures r[4] == 0x00 && r[5] == 0x03 && ReadUInt16BE(r, 4) == 3
    ensures r[6] == request[6]
    ensures r[7] == if request[7] >= 0x80 then request[7] else request[7] + 0x80
    ensures r[8] == exception.Code()
  {
    request[..4] + [0x00, 0x03, request[6], ExceptionFunctionCode(request[7]), ToUint8(exception.Code())]
  }

  /** `_failureGetter`. */
  method FailureGetter(request: Packet, exception: ExceptionCode) returns (response: Packet)
    requires |request| >= 8
    ensures response == FailureFrame(request, exception)
  {
    var a := new Byte[9](_ => 0);
    a[0] := ReadUInt8(request, 0);
    a[1] := ReadUInt8(request, 1);
    a[2] := ReadUInt8(request, 2);
    a[3] := ReadUInt8(request, 3);
    a[4] := 0x00;
    a[5] := 0x03;
    a[6] := ReadUInt8(request, 6);
    a[7] := ExceptionFunctionCode(ReadUInt8(request, 7));
    a[8] := ToUint8(exception.Code());
    response := a[..];
    assert response[..4] == request[..4];
    assert response == response[..4] + response[4..];
  }
}
