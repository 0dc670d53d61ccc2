/**
 * The Modbus RTU frames exchanged with the I/O board on port 2: the request
 * frame builder, the CRC check of a reply and the decoding of its first
 * register.
 *
 * The builder follows the program, not the MODBUS Application Protocol: every
 * frame is 5 + 2n + 2 bytes long, where n is the number of values written or
 * the register count read. A read request is therefore zero-padded after its
 * count field, a write request carries no byte-count byte, and the CRC is
 * placed over the low byte of the last value written.
 */
module ModbusFrame {
  import opened Bytes
  import opened Crc16

  /** The one slave address the program ever sends to. */
  const SlaveAddress: Byte := 0x01

  /** Read Holding Registers (section 6.3 of the MODBUS Application Protocol V1.1b3). */
  const ReadHoldingRegisters: Byte := 0x03

  /** Write Single Register (section 6.6 of the MODBUS Application Protocol V1.1b3). */
  const WriteSingleRegister: Byte := 0x06

  /** Write Multiple Registers (section 6.12 of the MODBUS Application Protocol V1.1b3). */
  const WriteMultipleRegisters: Byte := 0x10

  /** The number of 16-bit words a frame is sized for: the values given, else `count`. */
  function WordCount(data: Option<seq<UShort>>, count: UShort): nat {
    match data
    case Some(ws) => |ws|
    case None => UShortValue(count)
  }

  /** The first six bytes of the buffer: address, function code, register, length field. */
  function Header(functionCode: Byte, reg: Int32Bits, lengthHi: Byte, lengthLo: Byte): (h: seq<Byte>)
    ensures |h| == 6
  {
    [SlaveAddress, functionCode, Byte1(reg), Byte0(reg), lengthHi, lengthLo]
  }

  /** Bytes 4 and 5: `data.Length` on the write path, `count` on the read path, big-endian. */
  function LengthField(data: Option<seq<UShort>>, count: UShort): (Byte, Byte) {
    match data
    case Some(ws) => (Byte1(Bits(|ws|)), Byte0(Bits(|ws|)))
    case None => (Hi(count), Lo(count))
  }

  /** Bytes 6 on: the values big-endian and one zero byte, or 2 * count + 1 zeros. */
  function Payload(data: Option<seq<UShort>>, count: UShort): (p: seq<Byte>)
    ensures |p| == 2 * WordCount(data, count) + 1
  {
    match data
    case Some(ws) => BigEndian(ws) + [0]
    case None => Zeros(2 * UShortValue(count) + 1)
  }

  /** The message buffer just before the CRC is placed, 5 + 2n + 2 bytes. */
  function Unsealed(functionCode: Byte, reg: Int32Bits, data: Option<seq<UShort>>, count: UShort): (b: seq<Byte>)
    ensures |b| == 2 * WordCount(data, count) + 7
  {
    var (lengthHi, lengthLo) := LengthField(data, count);
    Header(functionCode, reg, lengthHi, lengthLo) + Payload(data, count)
  }

  /** The CRC of all bytes but the last two, written over those two, low byte first. */
  function Seal(b: seq<Byte>): (f: seq<Byte>)
    requires |b| >= 2
    ensures |f| == |b| && f[..|b| - 2] == b[..|b| - 2]
  {
    var body := b[..|b| - 2];
    body + Trailer(Crc(body))
  }

  /** What `Seal` overwrites does not matter. */
  lemma SealIgnoresTrailer(a: seq<Byte>, b: seq<Byte>)
    requires |a| == |b| >= 2 && a[..|a| - 2] == b[..|b| - 2]
    ensures Seal(a) == Seal(b)
  {
  }

  /** The frame `CreateModbusMessage` builds. */
  function Frame(functionCode: Byte, reg: Int32Bits, data: Option<seq<UShort>>, count: UShort): (f: seq<Byte>)
    ensures |f| == 2 * WordCount(data, count) + 7
  {
    Seal(Unsealed(functionCode, reg, data, count))
  }

  /** An array holding the header, then the values or zeros, and a zero last byte holds `Unsealed`. */
  lemma Filled(message: array<Byte>, functionCode: Byte, reg: Int32Bits, data: Option<seq<UShort>>, count: UShort)
    requires message.Length == 2 * WordCount(data, count) + 7
    requires message[..6] == Header(functionCode, reg, LengthField(data, count).0, LengthField(data, count).1)
    requires message[6..] == Payload(data, count)
    ensures message[..] == Unsealed(functionCode, reg, data, count)
  {
    assert message[..] == message[..6] + message[6..];
  }

  /** The first six assignments of `CreateModbusMessage`: address, function code, register and length field. */
  method WriteHeader(message: array<Byte>, functionCode: Byte, reg: Int32Bits, lengthHi: Byte, lengthLo: Byte)
    requires message.Length >= 6
    modifies message
    ensures message[..6] == Header(functionCode, reg, lengthHi, lengthLo)
    ensures message[6..] == old(message[6..])
  {
    var addr: Byte := 0x01;
    message[0] := addr;
    message[1] := functionCode;
    message[2] := Byte1(reg);
    message[3] := Byte0(reg);
    message[4] := lengthHi;
    message[5] := lengthLo;
  }

  /** The loop of `CreateModbusMessage` that writes the values big-endian from byte 6 on. */
  method PlaceValues(message: array<Byte>, ws: seq<UShort>)
    requires message.Length == 2 * |ws| + 7
    requires message[message.Length - 1] == 0
    modifies message
    ensures message[..6] == old(message[..6])
    ensures message[6..] == BigEndian(ws) + [0]
  {
    for i := 0 to |ws|
      invariant message[..6] == old(message[..6])
      invariant forall k :: 6 <= k < 6 + 2 * i ==> message[k] == BigEndian(ws)[k - 6]
      invariant message[message.Length - 1] == 0
    {
      BigEndianAt(ws, i);
      message[6 + i * 2] := Hi(ws[i]);
      message[7 + i * 2] := Lo(ws[i]);
    }
    assert message[6..] == BigEndian(ws) + [0];
  }

  /**
   * The last three lines of `CreateModbusMessage`: the CRC of all bytes but the
   * last two is written over those two, low byte first.
   */
  method PlaceCrc(message: array<Byte>)
    requires message.Length >= 2
    modifies message
    ensures message[..] == Seal(old(message[..]))
  {
    var crc := CalculateCrc(message[..message.Length - 2]);
    message[message.Length - 2] := (crc & 0xFF) as Byte;
    message[message.Length - 1] := (crc >> 8) as Byte;
    assert message[..] == message[..message.Length - 2] + [message[message.Length - 2], message[message.Length - 1]];
  }

  /** The write path of `CreateModbusMessage` before the CRC: header, `data.Length`, then the values. */
  method FillValues(message: array<Byte>, functionCode: Byte, reg: Int32Bits, ws: seq<UShort>, count: UShort)
    requires message.Length == 2 * |ws| + 7
    requires message[6..] == Zeros(message.Length - 6)
    modifies message
    ensures message[..] == Unsealed(functionCode, reg, Some(ws), count)
  {
    WriteHeader(message, functionCode, reg, Byte1(Bits(|ws|)), Byte0(Bits(|ws|)));
    PlaceValues(message, ws);
    Filled(message, functionCode, reg, Some(ws), count);
  }

  /** The read path of `CreateModbusMessage` before the CRC: header and `count`, the rest left zero. */
  method FillCount(message: array<Byte>, functionCode: Byte, reg: Int32Bits, count: UShort)
    requires message.Length == 2 * UShortValue(count) + 7
    requires message[6..] == Zeros(message.Length - 6)
    modifies message
    ensures message[..] == Unsealed(functionCode, reg, None, count)
  {
    WriteHeader(message, functionCode, reg, Hi(count), Lo(count));
    Filled(message, functionCode, reg, None, count);
  }

  /** `new byte[length]`: a fresh array of zeros. */
  method NewBuffer(length: nat) returns (message: array<Byte>)
    requires length >= 6
    ensures fresh(message) && message.Length == length
    ensures message[6..] == Zeros(length - 6)
  {
    message := new Byte[length](_ => 0);
    assert message[6..] == Zeros(length - 6);
  }

  /** `CreateModbusMessage`: fills a zeroed array field by field, then places the CRC. */
  method CreateModbusMessage(functionCode: Byte, reg: Int32Bits, data: Option<seq<UShort>>, count: UShort)
    returns (message: array<Byte>)
    ensures fresh(message)
    ensures message[..] == Frame(functionCode, reg, data, count)
  {
    var dataLength := if data.Some? then |data.value| * 2 else UShortValue(count) * 2;
    message := NewBuffer(5 + dataLength + 2);
    if data.Some? {
      FillValues(message, functionCode, reg, data.value, count);
    } else {
      FillCount(message, functionCode, reg, count);
    }
    PlaceCrc(message);
  }

  /** The frame's last two bytes are the CRC of everything before them, low byte first. */
  lemma FrameTrailer(functionCode: Byte, reg: Int32Bits, data: Option<seq<UShort>>, count: UShort)
    ensures var f := Frame(functionCode, reg, data, count);
      f == f[..|f| - 2] + Trailer(Crc(f[..|f| - 2]))
  {
  }

  /** Byte `k` of the buffer lies in the header or in the payload. */
  lemma UnsealedAt(functionCode: Byte, reg: Int32Bits, data: Option<seq<UShort>>, count: UShort, k: nat)
    requires k < 2 * WordCount(data, count) + 7
    ensures var (lengthHi, lengthLo) := LengthField(data, count);
      Unsealed(functionCode, reg, data, count)[k] ==
        if k < 6 then Header(functionCode, reg, lengthHi, lengthLo)[k] else Payload(data, count)[k - 6]
  {
  }

  /** Every byte before the trailer is the one `CreateModbusMessage` wrote there. */
  lemma FrameBody(functionCode: Byte, reg: Int32Bits, data: Option<seq<UShort>>, count: UShort, k: nat)
    requires k < 2 * WordCount(data, count) + 5
    ensures var (lengthHi, lengthLo) := LengthField(data, count);
      Frame(functionCode, reg, data, count)[k] ==
        if k < 6 then Header(functionCode, reg, lengthHi, lengthLo)[k] else Payload(data, count)[k - 6]
  {
    var u := Unsealed(functionCode, reg, data, count);
    assert Frame(functionCode, reg, data, count)[..|u| - 2][k] == u[..|u| - 2][k];
    UnsealedAt(functionCode, reg, data, count, k);
  }

  /**
   * The header: 2n + 7 bytes, address 0x01, the function code, the register
   * truncated to its two low bytes, then the length field, whose low byte
   * survives only when n >= 1.
   */
  lemma FrameHeader(functionCode: Byte, reg: Int32Bits, data: Option<seq<UShort>>, count: UShort)
    ensures var f := Frame(functionCode, reg, data, count);
      && |f| == 5 + 2 * WordCount(data, count) + 2
      && f[0] == SlaveAddress && f[1] == functionCode
      && f[2] == Byte1(reg) && f[3] == Byte0(reg)
      && f[4] == LengthField(data, count).0
      && (WordCount(data, count) >= 1 ==> f[5] == LengthField(data, count).1)
  {
    FrameBody(functionCode, reg, data, count, 0);
    FrameBody(functionCode, reg, data, count, 1);
    FrameBody(functionCode, reg, data, count, 2);
    FrameBody(functionCode, reg, data, count, 3);
    FrameBody(functionCode, reg, data, count, 4);
    if WordCount(data, count) >= 1 {
      FrameBody(functionCode, reg, data, count, 5);
    }
  }

  /**
   * On the write path every value but the last sits big-endian at 6 + 2i and
   * 7 + 2i; of the last one only the high byte survives, at 2n + 4.
   */
  lemma FrameValues(functionCode: Byte, reg: Int32Bits, ws: seq<UShort>, count: UShort, i: nat)
    requires i < |ws|
    ensures var f := Frame(functionCode, reg, Some(ws), count);
      && f[6 + 2 * i] == Hi(ws[i])
      && (i < |ws| - 1 ==> f[7 + 2 * i] == Lo(ws[i]))
  {
    var f := Frame(functionCode, reg, Some(ws), count);
    var p := Payload(Some(ws), count);
    BigEndianAt(ws, i);
    assert f[6 + 2 * i] == Hi(ws[i]) by {
      FrameBody(functionCode, reg, Some(ws), count, 6 + 2 * i);
      assert p[2 * i] == BigEndian(ws)[2 * i];
    }
    if i < |ws| - 1 {
      assert f[7 + 2 * i] == Lo(ws[i]) by {
        FrameBody(functionCode, reg, Some(ws), count, 7 + 2 * i);
        assert p[2 * i + 1] == BigEndian(ws)[2 * i + 1];
      }
    }
  }

  /** On the read path the bytes between the count field and the trailer are zero. */
  lemma FrameReadPadding(functionCode: Byte, reg: Int32Bits, count: UShort, k: nat)
    requires 6 <= k < 2 * UShortValue(count) + 5
    ensures Frame(functionCode, reg, None, count)[k] == 0
  {
    FrameBody(functionCode, reg, None, count, k);
  }

  /** Two value arrays that differ at most in the last value's low byte lay out alike up to that byte. */
  lemma LayoutAgreesButLastLow(ws: seq<UShort>, vs: seq<UShort>)
    requires |ws| == |vs| >= 1
    requires ws[..|ws| - 1] == vs[..|vs| - 1]
    requires Hi(ws[|ws| - 1]) == Hi(vs[|vs| - 1])
    ensures BigEndian(ws)[..2 * |ws| - 1] == BigEndian(vs)[..2 * |vs| - 1]
  {
    LayoutOfLast(ws);
    LayoutOfLast(vs);
  }

  /** Cutting the layout before its last byte leaves the front values and the last value's high byte. */
  lemma LayoutOfLast(ws: seq<UShort>)
    requires |ws| >= 1
    ensures BigEndian(ws)[..2 * |ws| - 1] == BigEndian(ws[..|ws| - 1]) + [Hi(ws[|ws| - 1])]
  {
    var front, last := ws[..|ws| - 1], ws[|ws| - 1];
    DropLast(BigEndian(ws), BigEndian(front), Hi(last), Lo(last));
  }

  /** Dropping the last element of `a + [y, z]` leaves `a + [y]`. */
  lemma DropLast<T>(x: seq<T>, a: seq<T>, y: T, z: T)
    requires x == a + [y, z]
    ensures x[..|x| - 1] == a + [y]
  {
  }

  /** On the write path the buffer is the header for `|ws|` values, the values big-endian and a zero. */
  lemma UnsealedWrite(functionCode: Byte, reg: Int32Bits, ws: seq<UShort>, count: UShort)
    ensures Unsealed(functionCode, reg, Some(ws), count) ==
      Header(functionCode, reg, Byte1(Bits(|ws|)), Byte0(Bits(|ws|))) + BigEndian(ws) + [0]
  {
    assert LengthField(Some(ws), count) == (Byte1(Bits(|ws|)), Byte0(Bits(|ws|)));
    assert Payload(Some(ws), count) == BigEndian(ws) + [0];
  }

  /** The buffers of two such value arrays agree on every byte the CRC does not overwrite. */
  lemma UnsealedAgreeButLastLow(functionCode: Byte, reg: Int32Bits, ws: seq<UShort>, vs: seq<UShort>, count: UShort)
    requires |ws| == |vs| >= 1
    requires ws[..|ws| - 1] == vs[..|vs| - 1]
    requires Hi(ws[|ws| - 1]) == Hi(vs[|vs| - 1])
    ensures Unsealed(functionCode, reg, Some(ws), count)[..2 * |ws| + 5] ==
            Unsealed(functionCode, reg, Some(vs), count)[..2 * |vs| + 5]
  {
    var n := |ws|;
    var h := Header(functionCode, reg, Byte1(Bits(n)), Byte0(Bits(n)));
    UnsealedWrite(functionCode, reg, ws, count);
    UnsealedWrite(functionCode, reg, vs, count);
    LayoutAgreesButLastLow(ws, vs);
    SameBeforeLast(Unsealed(functionCode, reg, Some(ws), count), Unsealed(functionCode, reg, Some(vs), count),
                   h, BigEndian(ws), BigEndian(vs), 0, 2 * n - 1, 2 * n + 5);
  }

  /** Two buffers that differ only in the last element of their middle parts agree up to it. */
  lemma SameBeforeLast<T>(x: seq<T>, y: seq<T>, h: seq<T>, a: seq<T>, b: seq<T>, z: T, k: nat, m: nat)
    requires x == h + a + [z] && y == h + b + [z]
    requires |a| == |b| == k + 1 && m == |h| + k && a[..k] == b[..k]
    ensures x[..m] == y[..m]
  {
    assert x[..m] == h + a[..k];
    assert y[..m] == h + b[..k];
  }

  /**
   * The low byte of the last value never reaches the wire: two value arrays of
   * the same length that differ at most there build the same frame.
   */
  lemma LastLowByteLost(functionCode: Byte, reg: Int32Bits, ws: seq<UShort>, vs: seq<UShort>, count: UShort)
    requires |ws| == |vs| >= 1
    requires ws[..|ws| - 1] == vs[..|vs| - 1]
    requires Hi(ws[|ws| - 1]) == Hi(vs[|vs| - 1])
    ensures Frame(functionCode, reg, Some(ws), count) == Frame(functionCode, reg, Some(vs), count)
  {
    UnsealedAgreeButLastLow(functionCode, reg, ws, vs, count);
    SealIgnoresTrailer(Unsealed(functionCode, reg, Some(ws), count), Unsealed(functionCode, reg, Some(vs), count));
  }

  /**
   * `Com2_MODBUS_SWrite`'s frame is nine bytes, not the eight of a standard
   * Write Single Register request: no byte of it holds the value's low byte.
   */
  lemma SingleWriteFrame(reg: Int32Bits, value: UShort)
    ensures var p := [SlaveAddress, WriteSingleRegister, Byte1(reg), Byte0(reg), 0x00, 0x01, Hi(value)];
      Frame(WriteSingleRegister, reg, Some([value]), 1) == p + Trailer(Crc(p))
  {
    var p := [SlaveAddress, WriteSingleRegister, Byte1(reg), Byte0(reg), 0x00, 0x01, Hi(value)];
    var f := Frame(WriteSingleRegister, reg, Some([value]), 1);
    FrameHeader(WriteSingleRegister, reg, Some([value]), 1);
    FrameValues(WriteSingleRegister, reg, [value], 1, 0);
    FrameTrailer(WriteSingleRegister, reg, Some([value]), 1);
    assert f[..7] == p;
  }

  /** The CRC of the poll request's header. */
  lemma PollHeaderCrc()
    ensures Crc([0x01, 0x03, 0x02, 0x00, 0x00, 0x08]) == 0xB445
  {
    var s: seq<Byte> := [0x01, 0x03, 0x02, 0x00, 0x00, 0x08];
    var cs: seq<UShort> := [0x807E, 0x2140, 0x31A1, 0xB8F0, 0x44B8, 0xB445];
    ShiftsEight(0xFFFF ^ 0x01);
    assert cs[0] == Absorb(Init, s[0]);
    ShiftsEight(0x807E ^ 0x03);
    assert cs[1] == Absorb(cs[0], s[1]);
    ShiftsEight(0x2140 ^ 0x02);
    assert cs[2] == Absorb(cs[1], s[2]);
    ShiftsEight(0x31A1 ^ 0x00);
    assert cs[3] == Absorb(cs[2], s[3]);
    ShiftsEight(0xB8F0 ^ 0x00);
    assert cs[4] == Absorb(cs[3], s[4]);
    ShiftsEight(0x44B8 ^ 0x08);
    assert cs[5] == Absorb(cs[4], s[5]);
    TraceEndsAtCrc(Init, s, cs);
  }

  /** Five steps of the CRC register through zero padding, from 0xB445. */
  lemma ZeroPaddingA()
    ensures CrcFrom(0xB445, Zeros(5)) == 0x3FEA
  {
    var s: seq<Byte> := [0, 0, 0, 0, 0];
    assert s == Zeros(5);
    var cs: seq<UShort> := [0xF375, 0xE732, 0xD566, 0x2A55, 0x3FEA];
    ShiftsEight(0xB445);
    assert cs[0] == Absorb(0xB445, s[0]);
    ShiftsEight(0xF375);
    assert cs[1] == Absorb(cs[0], s[1]);
    ShiftsEight(0xE732);
    assert cs[2] == Absorb(cs[1], s[2]);
    ShiftsEight(0xD566);
    assert cs[3] == Absorb(cs[2], s[3]);
    ShiftsEight(0x2A55);
    assert cs[4] == Absorb(cs[3], s[4]);
    TraceEndsAtCrc(0xB445, s, cs);
  }

  /** Five steps of the CRC register through zero padding, from 0x3FEA. */
  lemma ZeroPaddingB()
    ensures CrcFrom(0x3FEA, Zeros(5)) == 0xC315
  {
    var s: seq<Byte> := [0, 0, 0, 0, 0];
    assert s == Zeros(5);
    var cs: seq<UShort> := [0x8FBE, 0x700F, 0x0430, 0x1404, 0xC315];
    ShiftsEight(0x3FEA);
    assert cs[0] == Absorb(0x3FEA, s[0]);
    ShiftsEight(0x8FBE);
    assert cs[1] == Absorb(cs[0], s[1]);
    ShiftsEight(0x700F);
    assert cs[2] == Absorb(cs[1], s[2]);
    ShiftsEight(0x0430);
    assert cs[3] == Absorb(cs[2], s[3]);
    ShiftsEight(0x1404);
    assert cs[4] == Absorb(cs[3], s[4]);
    TraceEndsAtCrc(0x3FEA, s, cs);
  }

  /** Five steps of the CRC register through zero padding, from 0xC315. */
  lemma ZeroPaddingC()
    ensures CrcFrom(0xC315, Zeros(5)) == 0x8731
  {
    var s: seq<Byte> := [0, 0, 0, 0, 0];
    assert s == Zeros(5);
    var cs: seq<UShort> := [0xCF02, 0xC14E, 0x3441, 0x30F4, 0x8731];
    ShiftsEight(0xC315);
    assert cs[0] == Absorb(0xC315, s[0]);
    ShiftsEight(0xCF02);
    assert cs[1] == Absorb(cs[0], s[1]);
    ShiftsEight(0xC14E);
    assert cs[2] == Absorb(cs[1], s[2]);
    ShiftsEight(0x3441);
    assert cs[3] == Absorb(cs[2], s[3]);
    ShiftsEight(0x30F4);
    assert cs[4] == Absorb(cs[3], s[4]);
    TraceEndsAtCrc(0xC315, s, cs);
  }

  /** The CRC register after the poll request's 15 bytes of zero padding. */
  lemma PollPaddingCrc()
    ensures CrcFrom(0xB445, Zeros(15)) == 0x8731
  {
    assert Zeros(15) == Zeros(5) + Zeros(5) + Zeros(5);
    ZeroPaddingA();
    ZeroPaddingB();
    ZeroPaddingC();
    CrcFromAppend(0xB445, Zeros(5), Zeros(5));
    CrcFromAppend(0xB445, Zeros(5) + Zeros(5), Zeros(5));
  }

  /** The poll `SendPort2Command` issues: 23 bytes, zero-padded, CRC 0x8731. */
  lemma PollFrame()
    ensures Frame(ReadHoldingRegisters, 0x0200, None, 8) ==
      [0x01, 0x03, 0x02, 0x00, 0x00, 0x08] + Zeros(15) + [0x31, 0x87]
  {
    var h: seq<Byte> := [0x01, 0x03, 0x02, 0x00, 0x00, 0x08];
    var f := Frame(ReadHoldingRegisters, 0x0200, None, 8);
    FrameHeader(ReadHoldingRegisters, 0x0200, None, 8);
    forall k | 6 <= k < 21
      ensures f[k] == 0
    {
      FrameReadPadding(ReadHoldingRegisters, 0x0200, 8, k);
    }
    assert f[..21] == h + Zeros(15);
    FrameTrailer(ReadHoldingRegisters, 0x0200, None, 8);
    PollHeaderCrc();
    PollPaddingCrc();
    CrcFromAppend(Init, h, Zeros(15));
  }

  /** `ValidateModbusResponse`'s comparison: the trailing word matches the CRC of the rest iff the CRC of the whole is 0. */
  lemma ResidueMatch(data: seq<Byte>)
    requires |data| >= 2
    ensures var n := |data|;
      WordLE(data[n - 2], data[n - 1]) == Crc(data[..n - 2]) <==> Crc(data) == 0
  {
    var n := |data|;
    var body, lo, hi := data[..n - 2], data[n - 2], data[n - 1];
    assert data == body + [lo, hi];
    CrcFromAppend(Init, body, [lo, hi]);
    TrailerResidue(Crc(body), lo, hi);
  }

  /**
   * `ValidateModbusResponse`: at least five bytes, and the little-endian word
   * in the last two equals the CRC of the others; equivalently, the CRC of
   * the whole reply is zero.
   */
  function ValidateModbusResponse(data: seq<Byte>): (ok: bool)
    ensures ok <==> |data| >= 5 && Crc(data) == 0
  {
    var n := |data|;
    if n < 5 then false
    else
      var receivedCrc := WordLE(data[n - 2], data[n - 1]);
      var calculatedCrc := Crc(data[..n - 2]);
      ResidueMatch(data);
      receivedCrc == calculatedCrc
  }

  /** The comparison in numbers: the trailing bytes read as `lo + 256 * hi` equal the CRC of the rest. */
  lemma ValidateByValue(data: seq<Byte>)
    requires |data| >= 5
    ensures var n := |data|;
      ValidateModbusResponse(data) <==>
        ByteValue(data[n - 2]) + 256 * ByteValue(data[n - 1]) == UShortValue(Crc(data[..n - 2]))
  {
    var n := |data|;
    var received, calculated := WordLE(data[n - 2], data[n - 1]), Crc(data[..n - 2]);
    assert ValidateModbusResponse(data) <==> received == calculated by {
      ResidueMatch(data);
    }
    assert UShortValue(received) == ByteValue(data[n - 2]) + 256 * ByteValue(data[n - 1]) by {
      WordLEValue(data[n - 2], data[n - 1]);
    }
    assert received == calculated <==> UShortValue(received) == UShortValue(calculated) by {
      if UShortValue(received) == UShortValue(calculated) {
        UShortValueInjective(received, calculated);
      }
    }
  }

  /** Every frame `CreateModbusMessage` builds passes `ValidateModbusResponse`. */
  lemma BuiltFrameValidates(functionCode: Byte, reg: Int32Bits, data: Option<seq<UShort>>, count: UShort)
    ensures ValidateModbusResponse(Frame(functionCode, reg, data, count))
  {
    var f := Frame(functionCode, reg, data, count);
    FrameTrailer(functionCode, reg, data, count);
    SealedResidue(f[..|f| - 2]);
  }

  /** A body of three bytes or more with two bytes appended validates iff those two are its CRC, low byte first. */
  lemma ValidatesExactlyWithTrailer(body: seq<Byte>, lo: Byte, hi: Byte)
    requires |body| >= 3
    ensures ValidateModbusResponse(body + [lo, hi]) <==> [lo, hi] == Trailer(Crc(body))
  {
    CrcFromAppend(Init, body, [lo, hi]);
    TrailerResidue(Crc(body), lo, hi);
  }

  /** Changing any one byte of a valid reply makes it invalid. */
  lemma ValidateRejectsByteChange(data: seq<Byte>, i: nat, b: Byte)
    requires ValidateModbusResponse(data)
    requires i < |data| && b != data[i]
    ensures !ValidateModbusResponse(data[i := b])
  {
    var p, s := data[..i], data[i + 1..];
    assert data == p + [data[i]] + s;
    assert data[i := b] == p + [b] + s;
    CrcDetectsByteChange(p, data[i], b, s);
  }

  /** Why `ProcessModbusData` throws instead of returning a value. */
  datatype DecodeError =
    | ByteCountMissing  // `data[2]` is outside the array
    | PayloadTooShort   // `BitConverter.ToInt16` finds fewer than two payload bytes

  /**
   * `ProcessModbusData` up to the raw value: byte 2 is the byte count, the
   * payload is at most that many bytes from index 3 on, and its first two
   * bytes are read as a little-endian short.
   */
  function ProcessModbusData(data: seq<Byte>): (r: Result<Int16, DecodeError>)
    ensures r.Ok? <==> |data| >= 5 && ByteValue(data[2]) >= 2
    ensures r.Ok? ==> r.value == ToInt16(data[3], data[4])
    ensures r == Err(ByteCountMissing) <==> |data| < 3
  {
    if |data| < 3 then Err(ByteCountMissing)
    else
      var byteCount := ByteValue(data[2]);
      var rest := data[3..];
      var payload := if byteCount <= |rest| then rest[..byteCount] else rest;
      if |payload| < 2 then Err(PayloadTooShort)
      else Ok(ToInt16(payload[0], payload[1]))
  }

  /** A reply whose byte count is at least 2 and whose first two payload bytes hold a short, low byte first, decodes to that short. */
  lemma DecodeReply(address: Byte, functionCode: Byte, byteCount: Byte, v: Int16, rest: seq<Byte>)
    requires ByteValue(byteCount) >= 2
    ensures ProcessModbusData([address, functionCode, byteCount, LowByteOf(v), ByteAbove8(v)] + rest) == Ok(v)
  {
    ToInt16OfBytes(v);
  }
}
