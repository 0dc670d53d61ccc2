/**
 * The state of the main form that the protocol helpers touch: the two mode
 * flags, whether the serial ports are open, the pending one-shot command for
 * port 2, and everything written to port 2 so far.
 *
 * Opening a port, the timers that call `SendPort2Command` and the message
 * boxes are not modelled; `port2Sent` stands for the bytes `SerialPort.Write`
 * puts on the wire.
 */
module Form {
  import opened Bytes
  import opened Crc16
  import opened ModbusFrame

  /** What the Start button does for the selected mode. */
  datatype StartAction = StartMeasurement | StartCalibration | AskForMode

  /** `btnStart_Click`'s dispatch: the measurement flag takes precedence. */
  function StartChoice(isMeasurementMode: bool, isCalibrationMode: bool): (a: StartAction)
    ensures a == StartMeasurement <==> isMeasurementMode
    ensures a == StartCalibration <==> !isMeasurementMode && isCalibrationMode
    ensures a == AskForMode <==> !isMeasurementMode && !isCalibrationMode
  {
    if isMeasurementMode then StartMeasurement
    else if isCalibrationMode then StartCalibration
    else AskForMode
  }

  /** The 23-byte poll `SendPort2Command` sends when no command is pending. */
  function PollRequest(): (f: seq<Byte>)
    ensures f == Frame(ReadHoldingRegisters, 0x0200, None, 8)
  {
    PollFrame();
    [0x01, 0x03, 0x02, 0x00, 0x00, 0x08] + Zeros(15) + [0x31, 0x87]
  }

  class Form1 {
    var isMeasurementMode: bool
    var isCalibrationMode: bool
    var port1Open: bool
    var port2Open: bool
    /** `FCom2_TxCmd`: a command waiting to go out on port 2, or empty. */
    var txCmd: string
    /** Every message written to port 2, oldest first. */
    var port2Sent: seq<seq<Byte>>

    /** At most one mode is selected. */
    ghost predicate Valid()
      reads this
    {
      !(isMeasurementMode && isCalibrationMode)
    }

    /** A new form: no mode, both ports closed, nothing pending, nothing sent. */
    constructor ()
      ensures Valid()
      ensures !isMeasurementMode && !isCalibrationMode && !port1Open && !port2Open
      ensures txCmd == "" && port2Sent == []
    {
      isMeasurementMode := false;
      isCalibrationMode := false;
      port1Open := false;
      port2Open := false;
      txCmd := "";
      port2Sent := [];
    }

    /** `btnMeasure_Click`: select measurement, deselect calibration. */
    method MeasureClick()
      requires Valid()
      modifies this
      ensures Valid()
      ensures isMeasurementMode && !isCalibrationMode
      ensures port1Open == old(port1Open) && port2Open == old(port2Open)
      ensures txCmd == old(txCmd) && port2Sent == old(port2Sent)
    {
      isMeasurementMode := true;
      isCalibrationMode := false;
    }

    /** `btnCalibrate_Click`: select calibration, deselect measurement. */
    method CalibrateClick()
      requires Valid()
      modifies this
      ensures Valid()
      ensures isCalibrationMode && !isMeasurementMode
      ensures port1Open == old(port1Open) && port2Open == old(port2Open)
      ensures txCmd == old(txCmd) && port2Sent == old(port2Sent)
    {
      isCalibrationMode := true;
      isMeasurementMode := false;
    }

    /** `btnStop_Click`: close both ports and clear both mode flags. */
    method StopClick()
      requires Valid()
      modifies this
      ensures Valid()
      ensures !isMeasurementMode && !isCalibrationMode && !port1Open && !port2Open
      ensures txCmd == old(txCmd) && port2Sent == old(port2Sent)
    {
      port1Open := false;
      port2Open := false;
      isMeasurementMode := false;
      isCalibrationMode := false;
    }

    /** `SendPort2Message`: write the message if port 2 is open, else drop it. */
    method SendPort2Message(message: seq<Byte>)
      requires Valid()
      modifies this
      ensures Valid()
      ensures port2Sent == old(port2Sent) + if old(port2Open) then [message] else []
      ensures isMeasurementMode == old(isMeasurementMode) && isCalibrationMode == old(isCalibrationMode)
      ensures port1Open == old(port1Open) && port2Open == old(port2Open) && txCmd == old(txCmd)
    {
      if port2Open {
        port2Sent := port2Sent + [message];
      }
    }

    /** `Com2_MODBUS_MWrite`: a Write Multiple Registers frame of the values, `count` left at 1. */
    method Com2ModbusMWrite(reg: Int32Bits, aryData: Option<seq<UShort>>)
      requires Valid()
      modifies this
      ensures Valid()
      ensures port2Sent == old(port2Sent) +
        if old(port2Open) then [Frame(WriteMultipleRegisters, reg, aryData, 1)] else []
      ensures isMeasurementMode == old(isMeasurementMode) && isCalibrationMode == old(isCalibrationMode)
      ensures port1Open == old(port1Open) && port2Open == old(port2Open) && txCmd == old(txCmd)
    {
      var message := CreateModbusMessage(WriteMultipleRegisters, reg, aryData, 1);
      SendPort2Message(message[..]);
    }

    /** `Com2_MODBUS_SWrite`: a Write Single Register frame of one value; `addr` is not used. */
    method Com2ModbusSWrite(addr: Byte, reg: Int32Bits, data: UShort)
      requires Valid()
      modifies this
      ensures Valid()
      ensures port2Sent == old(port2Sent) +
        if old(port2Open) then [Frame(WriteSingleRegister, reg, Some([data]), 1)] else []
      ensures isMeasurementMode == old(isMeasurementMode) && isCalibrationMode == old(isCalibrationMode)
      ensures port1Open == old(port1Open) && port2Open == old(port2Open) && txCmd == old(txCmd)
    {
      var message := CreateModbusMessage(WriteSingleRegister, reg, Some([data]), 1);
      SendPort2Message(message[..]);
    }

    /** `Com2_MODBUS_Read`: a Read Holding Registers frame for `count` registers; `addr` is not used. */
    method Com2ModbusRead(addr: Byte, reg: Int32Bits, count: UShort)
      requires Valid()
      modifies this
      ensures Valid()
      ensures port2Sent == old(port2Sent) +
        if old(port2Open) then [Frame(ReadHoldingRegisters, reg, None, count)] else []
      ensures isMeasurementMode == old(isMeasurementMode) && isCalibrationMode == old(isCalibrationMode)
      ensures port1Open == old(port1Open) && port2Open == old(port2Open) && txCmd == old(txCmd)
    {
      var message := CreateModbusMessage(ReadHoldingRegisters, reg, None, count);
      SendPort2Message(message[..]);
    }

    /**
     * `SendPort2Command`, run by the port 2 timer: a pending command goes out
     * as ASCII and is cleared, whether or not the port is open; with none
     * pending, registers 0x0200..0x0207 are polled.
     */
    method SendPort2Command()
      requires Valid()
      modifies this
      ensures Valid()
      ensures old(txCmd) != "" ==>
        port2Sent == old(port2Sent) + if old(port2Open) then [AsciiBytes(old(txCmd))] else []
      ensures old(txCmd) == "" ==>
        port2Sent == old(port2Sent) + if old(port2Open) then [PollRequest()] else []
      ensures txCmd == ""
      ensures isMeasurementMode == old(isMeasurementMode) && isCalibrationMode == old(isCalibrationMode)
      ensures port1Open == old(port1Open) && port2Open == old(port2Open)
    {
      if txCmd != "" {
        SendPort2Message(AsciiBytes(txCmd));
        txCmd := "";
      } else {
        Com2ModbusRead(0x01, 0x0200, 8);
      }
    }
  }

  /** Every frame `SendPort2Command` can send as a poll passes the reply check, so a loop-back echo is accepted. */
  lemma PollRequestValidates()
    ensures ValidateModbusResponse(PollRequest())
  {
    BuiltFrameValidates(ReadHoldingRegisters, 0x0200, None, 8);
  }
}
