/** The value recorded for each observed device. */
module Devices {
  import opened Text

  /** `HiddenFragBluetooth.InfoDevice`: address, display name, extracted payload as hex, signal strength. */
  datatype InfoDevice = InfoDevice(address: string, name: string, beacon: string, rssi: int32)
}
