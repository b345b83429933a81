/**
 * The LD6001B command factories. The fixed commands and the range, heart
 * beat interval and range sensitivity commands are the same lines as on the
 * LD6001A and are the ones in `Commands`; the installation height uses a
 * different key, and scan interval, monitor interval and sensitivity exist
 * only on this variant.
 */
module Ld6001bCommands {
  import opened Bytes
  import opened Wrappers
  import opened Commands

  function ScanIntervalCommand(intervalS: uint16, cb: Option<Callback>): (c: Command)
    requires 100 <= intervalS <= 10000
    ensures CarriesValue(Ascii("AT+TIME="), c.data, intervalS) && c.onResponse == cb
  {
    KeyedCommand(Ascii("AT+TIME="), intervalS, cb)
  }

  function MonitorIntervalCommand(intervalS: uint16, cb: Option<Callback>): (c: Command)
    requires 1 <= intervalS <= 99
    ensures CarriesValue(Ascii("AT+MONTIME="), c.data, intervalS) && c.onResponse == cb
  {
    KeyedCommand(Ascii("AT+MONTIME="), intervalS, cb)
  }

  /** Unlike the LD6001A's `AT+HEIGHTD=`, the key here is `AT+HEIGHT=`. */
  function InstallationHeightCommand(heightCm: uint16, cb: Option<Callback>): (c: Command)
    requires 50 <= heightCm <= 500
    ensures CarriesValue(Ascii("AT+HEIGHT="), c.data, heightCm) && c.onResponse == cb
  {
    KeyedCommand(Ascii("AT+HEIGHT="), heightCm, cb)
  }

  function SensitivityCommand(sensitivity: uint16, cb: Option<Callback>): (c: Command)
    requires 1 <= sensitivity <= 19
    ensures CarriesValue(Ascii("AT+SENS="), c.data, sensitivity) && c.onResponse == cb
  {
    KeyedCommand(Ascii("AT+SENS="), sensitivity, cb)
  }

  /** The LD6001B has no detailed mode. */
  datatype ProtocolMode = Simple | OutputString | Debug

  function ModeNumber(m: ProtocolMode): (n: nat)
    ensures n <= 2
  {
    match m
    case Simple => 0
    case OutputString => 1
    case Debug => 2
  }

  lemma ModeNumberInjective(m: ProtocolMode, k: ProtocolMode)
    requires ModeNumber(m) == ModeNumber(k)
    ensures m == k
  {
  }

  /** Each LD6001B mode goes out as the number of the LD6001A mode of the same name. */
  lemma ModeNumbersAgree(m: ProtocolMode)
    ensures ModeNumber(m) == Commands.ModeNumber(
      match m
      case Simple => Commands.Simple
      case OutputString => Commands.OutputString
      case Debug => Commands.Debug)
  {
  }

  function SetProtocolModeCommand(mode: ProtocolMode, cb: Option<Callback>): (c: Command)
    ensures CarriesValue(Ascii("AT+DEBUG="), c.data, ModeNumber(mode)) && c.onResponse == cb
  {
    KeyedCommand(Ascii("AT+DEBUG="), ModeNumber(mode), cb)
  }
}
