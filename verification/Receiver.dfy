/** The receiver as the UART interrupt runs it (User/ch32v30x_it.c). */
module Receiver {
  import opened Crc
  import opened Wire
  import opened Framing

  /** The receiver as the firmware keeps it: static variables and one shared buffer, updated in place. */
  class Parser {
    var state: RecvState
    var index: nat
    var cmdType: Byte
    var cmd: Byte
    var dataLen: Word
    const buffer: array<Byte>
    var crcReceived: Word

    ghost function Abs(): Rx
      reads this, buffer
    {
      Rx(state, index, cmdType, cmd, dataLen, buffer[..], crcReceived)
    }

    constructor ()
      ensures Abs().Valid() && state == Header1 && fresh(buffer)
    {
      state, index := Header1, 0;
      cmdType, cmd, dataLen, crcReceived := 0, 0, 0, 0;
      buffer := new Byte[MAX_DATA_LEN](_ => 0);
    }

    /** The CRC branch collects the covered bytes and computes their checksum. */
    method CrcOfHeld() returns (crc: Word)
      requires 0 < dataLen <= buffer.Length && buffer.Length == MAX_DATA_LEN
      ensures crc == Crc16(Guarded(Frame(cmdType, cmd, buffer[..dataLen])))
    {
      var crcData := [cmdType, cmd, High(dataLen), Low(dataLen)];
      for i := 0 to dataLen
        invariant crcData == [cmdType, cmd, High(dataLen), Low(dataLen)] + buffer[..i]
      {
        crcData := crcData + [buffer[i]];
      }
      CrcIsWord(crcData, |crcData|);
      crc := Calculate(crcData);
    }

    /** recDataProcessing; `raised` is the call of LOS_EventWrite. */
    method RecDataProcessing(data: Byte) returns (raised: bool)
      requires Abs().Valid()
      modifies this, buffer
      ensures (Abs(), raised) == Step(Crc16, old(Abs()), data)
    {
      raised := false;
      match state {
        case Header1 =>
          if data == HEADER1 {
            state := Header2;
          }
        case Header2 =>
          if data == HEADER2 {
            state := CmdType;
          } else {
            state := Header1;
          }
        case CmdType =>
          cmdType := data;
          state := Cmd;
        case Cmd =>
          cmd := data;
          state := LenHigh;
        case LenHigh =>
          dataLen := data * 256;
          state := LenLow;
        case LenLow =>
          dataLen := dataLen + data;
          if dataLen > 0 && dataLen <= MAX_DATA_LEN {
            index := 0;
            state := Data;
          } else {
            state := Header1;
          }
        case Data =>
          if index < dataLen {
            buffer[index] := data;
            index := index + 1;
            if index >= dataLen {
              state := CrcHigh;
            }
          }
        case CrcHigh =>
          crcReceived := data * 256;
          state := CrcLow;
        case CrcLow =>
          crcReceived := crcReceived + data;
          var crcCalculated := CrcOfHeld();
          raised := crcReceived == crcCalculated;
          index := 0;
          state := Header1;
      }
    }
  }
}
