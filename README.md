# Form1 protocol helpers, modelled in Dafny

`Form1.cs` is the main form of a WinForms program that polls two serial ports.
Port 1 talks to a differential-pressure meter in ASCII. Port 2 talks to an I/O
board: Modbus RTU frames go out on a timer, and ASCII commands select a
reference output current for calibration. This project models the protocol
helpers of that form and proves the properties below. The form's windowing,
timer and serial-port code is not modelled.

- `bytes.dfy` (module `Bytes`) holds the machine words of the C# program and
  their conversions:
  - `byte` is `bv8`, `ushort` is `bv16`, and a C# `int` is its 32-bit pattern `bv32`;
  - `BitConverter.ToUInt16`/`ToInt16` on a little-endian machine;
  - big-endian layout of a `ushort[]`;
  - `Encoding.ASCII.GetBytes`.
- `crc16.dfy` (module `Crc16`) is CRC-16/MODBUS:
  - `CalculateCRC` is a nested-loop method, proved equal to a fold over the
    bytes, `Crc`;
  - it is proved to detect every single-byte change;
  - appending a message's own CRC, low byte first, gives residue 0, and no
    other two bytes do;
  - the check value of "123456789" is 0x4B37.
- `modbus_frame.dfy` (module `ModbusFrame`) covers the frames:
  - `CreateModbusMessage` fills an array in place, field by field, and is
    proved to build `Frame`;
  - the layout of `Frame` is proved byte by byte;
  - `ValidateModbusResponse` and the integer part of `ProcessModbusData` are
    modelled, and every frame built is proved to validate.
- `ascii_filter.dfy` (module `AsciiFilter`) covers the character filter of
  `ParsePressureValue`, `ParseCurrentValue` and `ParseReceivedData`, and the
  three parsers built on it. The number parser is a parameter.
- `calibration.dfy` (module `Calibration`) covers the `SetReferenceCurrent`
  retry loop over an abstract sequence of replies, and `CalculateError`.
- `form.dfy` (module `Form`) has a class `Form1` with:
  - the two mode flags, whether each port is open, and the pending port 2
    command;
  - the log of what was written to port 2;
  - the button handlers that change the flags, `SendPort2Message`, the three
    `Com2_MODBUS_*` wrappers and `SendPort2Command`.

The frame builder follows the program, not the MODBUS Application Protocol.
Every frame is `5 + 2n + 2` bytes long, where n is the number of values
written or the register count read. This has four consequences:

- a read request is zero-padded after its count field (the poll of registers
  0x0200..0x0207 is 23 bytes, not 8);
- a write request carries the number of values where the standard puts the
  quantity and byte count, and it has no byte-count byte;
- the CRC is written over the low byte of the last value;
- a Write Single Register frame is therefore 9 bytes and never carries the
  value's low byte.

## Model

| member | source | states |
|---|---|---|
| Crc16.CalculateCrc | Form1.cs:178-198 | The nested shift/XOR loop returns the fold `Crc` of the bytes: 0xFFFF preset, each byte XORed into the low half, eight reflected shifts with 0xA001. The empty input gives 0xFFFF. |
| Crc16.CrcFromAppend | Form1.cs:180-196 | Running the register over `a + b` is running it over `a`, then over `b` from there. |
| Crc16.CrcFromInjective | Form1.cs:185-195 | Two different registers stay different after the same bytes are run through them: no shift loses information. |
| Crc16.CrcDetectsByteChange | Form1.cs:178-198 | Changing any one byte of a message changes its CRC. |
| Crc16.TrailerResidue | Form1.cs:171-173 | Running the register over two more bytes ends at 0 exactly when those bytes are its value, low byte first. |
| Crc16.SealedResidue | Form1.cs:171-173 | A message followed by its own CRC, low byte first, has CRC 0. |
| Crc16.CheckValue | Form1.cs:178-198 | The CRC of the ASCII digits "123456789" is 0x4B37, the CRC-16/MODBUS check value. |
| Crc16.Trailer | Form1.cs:172-173 | The two CRC bytes, read back as a little-endian word, give the CRC. |
| Bytes.WordLE | Form1.cs:341 | `BitConverter.ToUInt16` puts the first byte in the low half and the second in the high half. |
| Bytes.WordLEValue | Form1.cs:341 | That word's value is `lo + 256 * hi`. |
| Bytes.ToInt16 | Form1.cs:330 | `BitConverter.ToInt16` gives `lo + 256 * hi`, less 0x10000 when that is not below 0x8000. |
| Bytes.ToInt16OfBytes | Form1.cs:330 | Reading back the two low bytes of any short recovers it. |
| Bytes.BigEndianAt | Form1.cs:159-163 | Value i of the layout occupies bytes 2i (high) and 2i + 1 (low). |
| Bytes.AsciiBytes | Form1.cs:236 | `Encoding.ASCII.GetBytes` gives one byte per character: the code below 128, '?' otherwise. |
| ModbusFrame.CreateModbusMessage | Form1.cs:145-176 | The array returned holds exactly `Frame(functionCode, reg, data, count)`. |
| ModbusFrame.NewBuffer | Form1.cs:149 | The new array has the requested length and is all zeros from byte 6 on. |
| ModbusFrame.WriteHeader | Form1.cs:150-153 | Bytes 0..5 become address 0x01, function code, bits 8..15 and 0..7 of `reg`, and the length field; nothing else changes. |
| ModbusFrame.PlaceValues | Form1.cs:159-163 | From byte 6 the array holds the values big-endian, then the zero last byte; bytes 0..5 are unchanged. |
| ModbusFrame.FillValues | Form1.cs:155-164 | On the write path the array before the CRC holds the header with `data.Length`, then the values, then a zero. |
| ModbusFrame.FillCount | Form1.cs:165-169 | On the read path the array before the CRC holds the header with `count`, then `2 * count + 1` zeros. |
| ModbusFrame.PlaceCrc | Form1.cs:171-173 | The last two bytes are replaced by the CRC of all bytes before them, low byte first; the rest is unchanged. |
| ModbusFrame.Frame | Form1.cs:148-149 | Every frame is `2n + 7` bytes long, where n is `data.Length` on the write path and `count` on the read path. |
| ModbusFrame.FrameHeader | Form1.cs:150-158 | Byte 0 is 0x01, byte 1 the function code, bytes 2..3 `reg >> 8` and `reg & 0xFF` truncated to bytes, byte 4 the length field's high byte. Byte 5 holds its low byte whenever n >= 1. |
| ModbusFrame.FrameValues | Form1.cs:159-163 | Value i sits high byte first at 6 + 2i; its low byte is at 7 + 2i for every value but the last. |
| ModbusFrame.FrameReadPadding | Form1.cs:165-169 | On the read path every byte from 6 up to the CRC is zero. |
| ModbusFrame.FrameTrailer | Form1.cs:171-173 | A frame's last two bytes are the CRC of all bytes before them, low byte first. |
| ModbusFrame.LayoutAgreesButLastLow | Form1.cs:159-163 | Two value arrays that agree except in the last value's low byte lay out alike up to that byte. |
| ModbusFrame.UnsealedAgreeButLastLow | Form1.cs:149-169 | Such arrays fill the buffer alike on every byte the CRC does not overwrite. |
| ModbusFrame.LastLowByteLost | Form1.cs:162 | Such arrays build the same frame: the CRC overwrites the last value's low byte, so it never reaches the wire. |
| ModbusFrame.SingleWriteFrame | Form1.cs:222 | The single-register write is the nine bytes 01 06, the register, 00 01, the value's high byte, then the CRC of those seven. |
| ModbusFrame.PollFrame | Form1.cs:241 | The poll of 8 registers from 0x0200 is 01 03 02 00 00 08, fifteen zeros, then 31 87. |
| ModbusFrame.ValidateModbusResponse | Form1.cs:336-345 | True exactly when the reply has at least 5 bytes and its CRC over all bytes, trailer included, is 0. |
| ModbusFrame.ResidueMatch | Form1.cs:341-344 | The trailing word equals the CRC of the other bytes exactly when the CRC of the whole reply is 0. |
| ModbusFrame.ValidateByValue | Form1.cs:338-344 | A reply of 5 bytes or more validates exactly when `d[len-2] + 256 * d[len-1]` equals the CRC of all bytes before them. |
| ModbusFrame.BuiltFrameValidates | Form1.cs:171-173 | Every frame `CreateModbusMessage` builds passes `ValidateModbusResponse`. |
| ModbusFrame.ValidatesExactlyWithTrailer | Form1.cs:338-344 | A body of 3 bytes or more plus two bytes validates exactly when the two bytes are the body's CRC, low byte first. |
| ModbusFrame.ValidateRejectsByteChange | Form1.cs:341-344 | Changing any one byte of a valid reply makes it invalid. |
| ModbusFrame.ProcessModbusData | Form1.cs:323-330 | Decoding yields a value exactly when the reply has 5 bytes or more and byte count `data[2]` >= 2. The value is the little-endian short at bytes 3..4. Fewer than 3 bytes is the out-of-range error; otherwise the payload is too short. |
| ModbusFrame.DecodeReply | Form1.cs:326-330 | A reply whose byte count is at least 2 and whose payload starts with a short, low byte first, decodes to that short. |
| AsciiFilter.Where | Form1.cs:491 | The filter returns no more characters than it was given, each satisfying the predicate. |
| AsciiFilter.WhereCounts | Form1.cs:491 | Every occurrence of a kept character survives and every occurrence of a dropped one is removed. |
| AsciiFilter.WhereKeepsAll | Form1.cs:491 | Text passes unchanged exactly when all its characters are kept. |
| AsciiFilter.WhereAppend | Form1.cs:491 | Filtering a concatenation filters each part, keeping their order. |
| AsciiFilter.WhereIdempotent | Form1.cs:491 | Filtering twice is filtering once. |
| AsciiFilter.DroppedCharIgnored | Form1.cs:491 | Inserting a dropped character anywhere does not change the filtered text. |
| AsciiFilter.WhereNarrowing | Form1.cs:285 | Filtering by a laxer predicate and then a stricter one is filtering by the stricter one. |
| AsciiFilter.ReceivedFilterDropsPlus | Form1.cs:285 | `ParseReceivedData`'s filter is the meters' filter followed by removing '+'. |
| AsciiFilter.NumberAmidNoise | Form1.cs:491 | Between a tag and a unit whose characters are all dropped, only the number passes. |
| AsciiFilter.MeterFilterExample | Form1.cs:598 | "P=+12.34 mA" reaches the meters' parsers as "+12.34". |
| AsciiFilter.ReceivedFilterExample | Form1.cs:285 | The same text reaches `ParseReceivedData`'s parser as "12.34". |
| AsciiFilter.ParsePressureValue | Form1.cs:489-495 | The result is the invalid-response text exactly when the filtered text does not parse; otherwise it is the parsed value. |
| AsciiFilter.ParseCurrentValue | Form1.cs:596-602 | 0.0 when the filtered text does not parse, else the parsed value. |
| AsciiFilter.ParseReceivedData | Form1.cs:281-300 | No current exactly when there is no '='; a parse failure exactly when there is one and the '+'-free filtered text does not parse; otherwise the parsed value. |
| AsciiFilter.MeterParsersIgnoreNoise | Form1.cs:489-495 | Inserting a character the meters' filter drops changes neither meter reading. |
| AsciiFilter.ReceivedDataIgnoresPlus | Form1.cs:283-286 | Inserting '+' anywhere in a port 2 line does not change what `ParseReceivedData` yields. |
| Calibration.ReferenceCommand | Form1.cs:544 | The command is "#T0" exactly when the reference is 4.00, and "#T1" otherwise. |
| Calibration.FirstAckFromIsFirst | Form1.cs:553-568 | The search from an attempt on finds the earliest acknowledged reply below the retry count, and finds none only when there is none. |
| Calibration.FirstAckIsFirst | Form1.cs:553-568 | The same, from the first attempt. |
| Calibration.Sends | Form1.cs:553-567 | The command goes out between 1 and 3 times. |
| Calibration.SetReferenceCurrent | Form1.cs:542-585 | On a closed port nothing is sent or shown. On an open port, the input buffer is discarded once, then the command is written `Sends(replies)` times, and the parsed first acknowledgement, if any, is what is shown. |
| Calibration.AtMostThreeSends | Form1.cs:545-555 | At most 4 operations reach the port, at most 3 of them the command. |
| Calibration.RetriesOnlyAfterNoAck | Form1.cs:563-573 | Every send but the last follows a reply without '='; stopping before 3 sends means the last reply was acknowledged. |
| Calibration.FirstReplyAcknowledged | Form1.cs:563-567 | An acknowledged first reply means one send, and its parsed value is shown. |
| Calibration.SilentDevice | Form1.cs:553-573 | With no replies the command goes out three times and nothing is shown. |
| Calibration.CalculateError | Form1.cs:606 | measured + error = reference, and the error is 0 exactly when they are equal. |
| Form.StartChoice | Form1.cs:348-367 | Measurement starts exactly when its flag is set; calibration starts exactly when only the calibration flag is set; otherwise the user is asked to choose. |
| Form.PollRequest | Form1.cs:241 | The timer's poll is `Frame(0x03, 0x0200, none, 8)`. |
| Form.PollRequestValidates | Form1.cs:241 | The poll passes `ValidateModbusResponse`. |
| Form.Form1.constructor | Form1.cs:20-40 | A new form has no mode selected, both ports closed, no pending command and nothing sent. |
| Form.Form1.MeasureClick | Form1.cs:617-622 | Measurement is selected and calibration deselected; nothing else changes. |
| Form.Form1.CalibrateClick | Form1.cs:502-507 | Calibration is selected and measurement deselected; nothing else changes. |
| Form.Form1.StopClick | Form1.cs:394-403 | Both ports are closed and both mode flags cleared; the pending command and the port 2 log are unchanged. |
| Form.Form1.SendPort2Message | Form1.cs:201-212 | The message is appended to the port 2 log exactly when port 2 is open; nothing else changes. |
| Form.Form1.Com2ModbusMWrite | Form1.cs:214-218 | A Write Multiple Registers frame of the values, with `count` left at 1, is sent if port 2 is open. |
| Form.Form1.Com2ModbusSWrite | Form1.cs:220-224 | A Write Single Register frame of the one value is sent if port 2 is open; `addr` is ignored. |
| Form.Form1.Com2ModbusRead | Form1.cs:226-230 | A Read Holding Registers frame for `count` registers is sent if port 2 is open; `addr` is ignored. |
| Form.Form1.SendPort2Command | Form1.cs:232-243 | A pending command goes out as its ASCII bytes and is cleared, even when the port is closed; with none pending, the 0x0200/8 poll goes out. The mode flags and port states are unchanged. |

## Left out

- Serial-port transport is not modelled. Port 2 writes are a log of byte
  sequences. In `SetReferenceCurrent` the port operations are a returned list,
  and `ReadExisting` is a given list of replies, ending in empty strings.
- Timers, threads, `Thread.Sleep` and cross-thread `Invoke` are left out, and
  so is whether `SendPort2Command` and the handlers can interleave.
- The UI is left out: message boxes, the TX/RX status colours, `MakeCircular`,
  `DisplayCalibrationResult`, the port combo boxes, the saved settings and
  console logging.
- Number parsing is left out: `decimal.TryParse` and `double.TryParse` with
  `NumberStyles.Any` and the invariant culture (`ParsePressureValue`,
  `ParseCurrentValue`), and `double.TryParse` with the default number styles
  and the current culture (`ParseReceivedData`). Each is a parameter mapping
  the filtered text to a number or to none.
- The "F2" rendering of a parsed value is left out. `ParsePressureValue`
  returns the value itself, or the invalid-response sentinel.
- `ProcessModbusData`: the `* 0.001` scaling to a double and the display are
  left out. The model stops at the raw 16-bit value.
- `char.IsDigit` accepts every Unicode decimal digit. The model accepts
  '0'..'9' only.
- A C# string is a sequence of UTF-16 code units and may hold a lone
  surrogate, which `Encoding.ASCII` turns into '?'. A Dafny string holds
  Unicode scalar values only, so a pending command with a lone surrogate
  cannot be expressed. A well-formed surrogate pair is one character in the
  model and gives one '?', as in .NET.
- Exceptions are left out: an `IOException` from `Close`, any exception caught
  in `SetReferenceCurrent` (which ends the loop early), and a write that fails
  on a port closed after the check.
- `ProcessModbusData` going out of range is modelled as an error result, not
  an exception.
- `ReadPort2Data`, `ReadPressureData`, `GetMeasuredCurrent`,
  `CalibrateOutputMode`, `EnsurePortIsOpen`, `StartMeasurementMode`,
  `StopMeasurementMode` and `StopPortCommunication` are left out. They only
  sequence the modelled helpers with I/O, timers and the UI.
- The mode and port effects of `StopClick` are modelled; its timer effects are
  not.
- `btnStart_Click` is modelled only as the choice among its three branches,
  `StartChoice`. What each branch then does is serial and timer I/O.
- ModbusFrame.Frame: a C# `int` register and `data.Length` are modelled as
  their 32-bit patterns. `Bits(n)` counts up from zero with 32-bit
  wrap-around. No lemma connects these patterns to the integer values.
- ModbusFrame.CreateModbusMessage: the buffer length `5 + data.Length * 2 + 2`
  is a 32-bit `int` in C#. For `data.Length >= 2^30` it overflows and
  `new byte[...]` throws. The model has no such bound and builds the frame.
- ProcessModbusData reads the first register little-endian, as the code does.
  The MODBUS Application Protocol (section 4.2 of V1.1b3) encodes register
  values big-endian. A reply from a standard device therefore comes out
  byte-swapped. The model keeps the code's reading.
- Calibration.CalculateError: C# `double`s are modelled as exact Dafny reals,
  so rounding is lost. With IEEE doubles, `measured + error == reference` can
  fail when the two values differ widely in magnitude. The same holds for
  `referenceValue` in `SetReferenceCurrent` and for the parsed meter values.
