/**
 * The part of CoreBluetooth's surface that ViewController.swift touches: the
 * central manager's power state, the peripheral, service and characteristic
 * handles as plain values, the errors the delegate callbacks may report, and
 * the commands the controller sends to the framework.
 */
module CoreBluetooth {
  import opened Optional

  /** A 128-bit Bluetooth UUID (`CBUUID`, or the `NSUUID` of a peripheral); equal when the bits are. */
  datatype Uuid = Uuid(bits: bv128)

  /** `CBManagerState` as switched over in `centralManagerDidUpdateState`. */
  datatype ManagerState = Unknown | Resetting | Unsupported | Unauthorized | PoweredOff | PoweredOn

  /** A remote device (`CBPeripheral`): its identity and its advertised name, if any. */
  datatype Peripheral = Peripheral(identifier: Uuid, name: Option<string>)

  /** A GATT service (`CBService`) and the debug text of its `description`. */
  datatype Service = Service(uuid: Uuid, description: string)

  /** A GATT characteristic (`CBCharacteristic`) and the debug text of its `description`. */
  datatype Characteristic = Characteristic(uuid: Uuid, description: string)

  /** The `Error` a delegate callback may carry. */
  datatype BleError = BleError(code: int)

  /**
   * One call into CoreBluetooth, with the peripheral it is sent to. A filter of
   * `None` stands for Swift's `nil` (no filtering).
   */
  datatype Command =
    | ScanForPeripherals(serviceFilter: seq<Uuid>)
    | StopScan
    | Connect(peripheral: Peripheral)
    | DiscoverServices(peripheral: Peripheral, serviceFilter: seq<Uuid>)
    | DiscoverCharacteristics(peripheral: Peripheral, characteristicFilter: Option<seq<Uuid>>, service: Service)
    | ReadValue(peripheral: Peripheral, characteristic: Characteristic)
    | SetNotifyValue(peripheral: Peripheral, enabled: bool, characteristic: Characteristic)
}
