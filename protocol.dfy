/**
 * The command/response vocabulary spoken with the companion MCU over I2C.
 *
 * Every write starts with one register-identifier byte; the variant of Command
 * below is that register, carrying only its own fields.  The byte layouts of
 * the payloads, their sizes and the bit masks are declared in fring.h, which is
 * not part of this model: they appear here as named constants without a value,
 * so every property proved holds whatever those sizes and masks are.
 */
module Protocol {

  datatype Option<T> = None | Some(value: T)

  // ---- Sizes taken by the wire layouts (offsetof + sizeof in the source) ----

  /** Register byte plus the protocol-version field of the Identify command. */
  const IDENTIFY_WRITE_LEN: nat
  /** Register byte plus the serial field of the Set-Serial command. */
  const SET_SERIAL_WRITE_LEN: nat
  /** Register byte plus the LED record of the Set-LED command. */
  const SET_LED_WRITE_LEN: nat
  /** Register byte plus the milliseconds field of the Set-Wakeup-Time command. */
  const SET_WAKEUP_WRITE_LEN: nat
  /** Register byte, the firmware-update header and a full 32-byte payload. */
  const PUSH_FIRMWARE_WRITE_LEN: nat

  const ID_READ_LEN: nat
  const BOOT_INFO_READ_LEN: nat
  const BOARD_REVISION_READ_LEN: nat
  const DEVICE_STATUS_READ_LEN: nat
  const BATTERY_STATUS_READ_LEN: nat
  const WAKEUP_REASON_READ_LEN: nat
  const INTERRUPT_STATUS_READ_LEN: nat
  const UPDATE_STATUS_READ_LEN: nat
  /** Number of bytes of one serial number. */
  const SERIAL_LEN: nat
  /** Number of bytes of the LED record after the id and the mode. */
  const LED_PARAMS_LEN: nat

  /** The log-message buffer is a literal 16 bytes in the source. */
  const LOG_MESSAGE_LEN: nat := 16
  /** Largest firmware chunk pushed in one command. */
  const MAX_CHUNK: nat := 32

  // ---- Bit masks ----

  const BOOT_STATUS_FIRMWARE_B: bv32
  const BOOT_STATUS_BETA: bv32
  const DEVICE_STATUS_HOME_BUTTON: bv32
  const HWERR_BATTERY_NOT_RESPONDING: bv32
  const HWERR_BATTERY_INIT_ERROR: bv32
  const INTERRUPT_DEVICE_STATUS: bv32
  const INTERRUPT_BATTERY_STATUS: bv32
  const INTERRUPT_LOG_MESSAGE: bv32
  const INTERRUPT_FIRMWARE_UPDATE: bv32
  const INTERRUPT_WAKEUP: bv32
  /** Whether any bit of mask is set in word. */
  predicate AnySet(word: bv32, mask: bv32) {
    word & mask != 0
  }

  /** The result code of an accepted firmware chunk. */
  const UPDATE_RESULT_OK: bv32

  // ---- Write commands, one variant per register ----

  datatype LedMode = LedOff | LedOn | LedFlashing | LedPulsating

  /**
   * The LED record of a Set-LED command.  Colour and timing are carried as the
   * bytes the caller computed; the scaling from [0,1] colours and seconds is
   * floating point and stays outside this model.
   */
  datatype Led = Led(id: int, mode: LedMode, params: seq<bv8>)

  datatype Command =
    | Identify(protocolVersion: int)
    | ReadBootInfo
    | SetSerial(serial: seq<bv8>)
    | ReadBoardRevision
    | SetLed(led: Led)
    | ReadDeviceStatus
    | ReadBatteryStatus
    | ReadLogMessage
    | ReadWakeupReason
    | SetWakeupTime(milliseconds: bv32)
    | PushFirmwareUpdate(offset: nat, length: nat, crc: bv32, payload: seq<bv8>)
    | ReadFirmwareUpdateResult
    | ReadInterruptStatus

  // ---- Read responses, decoded from little-endian fields ----

  datatype DeviceStatus = DeviceStatus(
    status: bv32, ambientLight: bv8, hardwareErrors: bv32, temp0: int, temp1: int, temp2: int)

  datatype BatteryStatus = BatteryStatus(
    level: int, chargeCurrent: int, temp: int, remainingCapacity: int, cycleCount: int,
    averageTimeToFull: int, averageTimeToEmpty: int, status: bv16)

  datatype Reply =
    | NoReply
    | IdReply(id: seq<bv8>)
    | BootInfoReply(flags: bv32, version: int, serial: seq<bv8>)
    | BoardRevisionReply(revisionA: int, revisionB: int)
    | DeviceStatusReply(device: DeviceStatus)
    | BatteryStatusReply(battery: BatteryStatus)
    | LogMessageReply(text: seq<bv8>)
    | WakeupReasonReply(reason: int)
    | InterruptStatusReply(interrupts: bv32)
    | UpdateResultReply(result: bv32)

  /** The response layout that answers each register (write-only registers answer nothing). */
  predicate Answers(cmd: Command, reply: Reply) {
    match cmd
    case Identify(_) => reply.IdReply? && |reply.id| >= 5
    case ReadBootInfo => reply.BootInfoReply? && |reply.serial| == SERIAL_LEN
    case ReadBoardRevision => reply.BoardRevisionReply?
    case ReadDeviceStatus => reply.DeviceStatusReply?
    case ReadBatteryStatus => reply.BatteryStatusReply?
    case ReadLogMessage => reply.LogMessageReply? && |reply.text| == LOG_MESSAGE_LEN
    case ReadWakeupReason => reply.WakeupReasonReply?
    case ReadFirmwareUpdateResult => reply.UpdateResultReply?
    case ReadInterruptStatus => reply.InterruptStatusReply?
    case _ => reply.NoReply?
  }

  /** n zero bytes. */
  function Zeros(n: nat): (s: seq<bv8>)
    ensures |s| == n
  {
    if n == 0 then [] else [0] + Zeros(n - 1)
  }

  /** A response of the right layout for every register. */
  function SomeAnswer(cmd: Command): (reply: Reply)
    ensures Answers(cmd, reply)
  {
    match cmd
    case Identify(_) => IdReply([0, 0, 0, 0, 0])
    case ReadBootInfo => BootInfoReply(0, 0, Zeros(SERIAL_LEN))
    case ReadBoardRevision => BoardRevisionReply(0, 0)
    case ReadDeviceStatus => DeviceStatusReply(DeviceStatus(0, 0, 0, 0, 0, 0))
    case ReadBatteryStatus => BatteryStatusReply(BatteryStatus(0, 0, 0, 0, 0, 0, 0, 0))
    case ReadLogMessage => LogMessageReply(Zeros(LOG_MESSAGE_LEN))
    case ReadWakeupReason => WakeupReasonReply(0)
    case ReadFirmwareUpdateResult => UpdateResultReply(0)
    case ReadInterruptStatus => InterruptStatusReply(0)
    case _ => NoReply
  }

  /** One write-then-read bus transaction, as the transport saw it. */
  datatype Transaction = Transaction(cmd: Command, writeLen: nat, readLen: nat, ok: bool, reply: Reply)

  // ---- Signals emitted to the rest of the system ----

  /** A firmware-update progress value: hundredths of the image, or NaN for an empty image. */
  datatype Progress = Hundredths(n: int) | NotANumber

  datatype Event =
    | HomeButtonChanged(pressed: bool)
    | AmbientLightChanged(raw: int)
    | HardwareErrorsChanged
    | BatteryStateChanged(level: int, chargeCurrent: int, temperature: int, timeToEmpty: int, timeToFull: int)
    | LogMessageReceived(text: seq<bv8>)
    | WakeupReasonChanged(reason: int)
    | UpdateProgress(progress: Progress)
    | UpdateSucceeded
    | UpdateFailed
}
