/** The configuration of one action of the Modbus master, and the limits its function code imposes. */
module ModbusConfig {

  const READ_COILS := 0x01
  const READ_DISCRETE_INPUTS := 0x02
  const READ_HOLDING_REGISTERS := 0x03
  const READ_INPUT_REGISTERS := 0x04
  const WRITE_SINGLE_COIL := 0x05
  const WRITE_SINGLE_REGISTER := 0x06
  const WRITE_MULTIPLE_COILS := 0x0F
  const WRITE_MULTIPLE_REGISTERS := 0x10
  const REPORT_SLAVE_ID := 0x11
  const WRITE_MASK_REGISTER := 0x16
  const WRITE_AND_READ_REGISTERS := 0x17

  const MAX_REGISTER_SIZE_PER_ACTION := 256

  /** Offsets are bytes of the process image, except the two bit offsets. */
  datatype Action = Action(
    actionId: nat,
    slaveAddress: nat,
    functionCode: nat,
    startRegister: nat,
    registerCount: nat,
    interval_us: nat,
    startByte: nat,
    startBit: nat,
    statusByte: nat,
    resetByte: nat,
    resetBit: nat)

  predicate ReadsBits(code: nat) {
    code == READ_COILS || code == READ_DISCRETE_INPUTS
  }

  predicate ReadsRegisters(code: nat) {
    code == READ_HOLDING_REGISTERS || code == READ_INPUT_REGISTERS
  }

  predicate WritesBits(code: nat) {
    code == WRITE_SINGLE_COIL || code == WRITE_MULTIPLE_COILS
  }

  predicate WritesRegisters(code: nat) {
    code == WRITE_SINGLE_REGISTER || code == WRITE_MULTIPLE_REGISTERS
  }

  /** What the transaction code asserts about the register count, within the size of its buffer. */
  predicate CountAllowed(a: Action) {
    && a.registerCount <= MAX_REGISTER_SIZE_PER_ACTION
    && (ReadsRegisters(a.functionCode) ==> a.registerCount <= 125)
    && (a.functionCode == WRITE_SINGLE_COIL || a.functionCode == WRITE_SINGLE_REGISTER ==> a.registerCount == 1)
    && (a.functionCode == WRITE_MULTIPLE_REGISTERS ==> a.registerCount <= 123)
    && (a.functionCode == REPORT_SLAVE_ID ==> a.registerCount <= 253)
  }
}
