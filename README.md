# BLE thermometer controller, modelled in Dafny

The iOS app BLE_Thermometer finds a Bluetooth Low Energy thermometer. The device advertises a name containing `JATEMP`. The app connects to it, finds the reading characteristic `569A2000-B87F-490C-92CB-11BA5EA5167C` under the service `569A1101-B87F-490C-92CB-11BA5EA5167C`, subscribes to notifications on it, and shows each reading that carries the marker `PW`. All of this happens in `ViewController`, through seven CoreBluetooth delegate callbacks (the "waterfall"). A `String.slice(from:to:)` extension cuts names out of the framework's debug descriptions.

This project models two things:

- `slice.dfy` (module `StringSlice`) models `String.slice(from:to:)` as a pure function on character sequences. It also models the substring search it relies on, Foundation's `range(of:)` and `contains`. Lemmas state when the result is `None` and what it encloses. Another lemma shows that this contract determines the result, and another that the result never contains the closing delimiter.
- `view_controller.dfy` (module `Thermometer`) models the view controller as a class. Its fields are the stored peripheral, the texts of the status and value labels, and the log of commands sent to CoreBluetooth.
  - Each delegate callback is a method taking the event's data as parameters. Its contract states the new value of every field it may change. Its `modifies` frame keeps the other fields unchanged.
  - The two discovery callbacks loop over the discovered services and characteristics, as the code does. They are proved against the functions `ServiceCommands` and `CharacteristicCommands`. Lemmas about those functions state which commands are issued and in what order.
  - Every method preserves the class invariant `Valid()`. It says that every command in the log is admissible after the ones before it:
    - scans and service discoveries are filtered on the thermometer service;
    - a connection goes only to a thermometer, and right after the scan was stopped;
    - characteristic discovery is unfiltered, and only for described services;
    - notifications are enabled only on the target characteristic, and right after a read of that characteristic.
  - It also says that a stored peripheral is a thermometer to which a connection was requested.
- `bluetooth.dfy` (module `CoreBluetooth`) holds the framework's values as datatypes: UUIDs as 128-bit values compared by equality, peripherals, services, characteristics, errors, manager states and the commands.
- `option.dfy` holds Swift's optionals.

Three scenario methods drive a fresh controller through the waterfall:

- `Connected` goes from power-on to a connection.
- `Subscribe` continues from there to subscription.
- `ReadAndRecover` ignores a foreign device, shows a reading, ignores an unmarked one, and disconnects.

### Behaviour as written

The code behaves differently from a textbook connection state machine in these ways. The model follows the code in each case.

- There is no state variable. Every callback runs whenever its event arrives; for example, discovery has no "am I scanning?" guard.
- A disconnection, with or without an error, sets the status to "Restart Scan" and scans again. It does not clear the stored peripheral. No characteristic handle is ever stored.
- The value label receives the decoded text as received, line ending included. The `\r\n` removal at line 183 only feeds a log message.
- Every discovered characteristic is read, before its UUID is tested. Notifications are enabled on every characteristic with the target UUID. They are sent to the stored peripheral, not to the peripheral the callback is about.
- Characteristic discovery is requested for every service whose description is not empty, not only for the thermometer service.
- A discovery error returns without any command or field change.

### Force-unwraps as preconditions

Where the code force-unwraps a value (`!`), a `nil` crashes the app. The model turns each of these into a precondition:

- `peripheral.services!` (line 132) and `service.characteristics!` (line 154): the lists are present when no error is reported.
- The sliced names printed at lines 135, 159 and 164: `slice` finds a name in each description it is applied to.
- `self.peripheral` at line 161: a peripheral is stored whenever a target characteristic is discovered.

## Model

| member | source | states |
|---|---|---|
| `StringSlice.FindFrom` | iOS/BLE_Thermometer/ViewController.swift:24 | `range(of:range:)` gives the first occurrence of the pattern that lies at or after the start; `None` means it occurs nowhere there |
| `StringSlice.Contains` | iOS/BLE_Thermometer/ViewController.swift:98 | `contains` holds exactly when the pattern occurs at some index |
| `StringSlice.SliceContract` | iOS/BLE_Thermometer/ViewController.swift:21-28 | `slice` is `nil` if `from` is missing. With `i` the first `from`, it is `nil` exactly when no `to` begins at or after the end of that `from`. Otherwise `from + result + to` starts at `i` and no `to` begins inside the result. |
| `StringSlice.SliceDeterminedByEnclosure` | iOS/BLE_Thermometer/ViewController.swift:22-27 | any text enclosed between the first `from` and the earliest following `to` is exactly what `slice` returns |
| `StringSlice.SliceAvoidsClosing` | iOS/BLE_Thermometer/ViewController.swift:24-25 | a sliced result never contains the closing delimiter |
| `Thermometer.IsThermometer` | iOS/BLE_Thermometer/ViewController.swift:98 | a discovered device matches exactly when its name is present and contains `JATEMP` |
| `Thermometer.ServiceCommandsMembers` | iOS/BLE_Thermometer/ViewController.swift:132-138 | on success, every service with a non-empty description gets an unfiltered characteristic discovery on the callback's peripheral, and nothing else is issued |
| `Thermometer.ServiceCommandsAppend` | iOS/BLE_Thermometer/ViewController.swift:132 | characteristic discoveries are issued in service order |
| `Thermometer.CharacteristicCommandsMembers` | iOS/BLE_Thermometer/ViewController.swift:154-166 | every characteristic is read on the callback's peripheral; every characteristic with the target UUID gets notifications enabled on the stored peripheral; nothing else is issued |
| `Thermometer.CharacteristicCommandsAppend` | iOS/BLE_Thermometer/ViewController.swift:154 | the commands follow characteristic order |
| `Thermometer.NotifiesIffTarget` | iOS/BLE_Thermometer/ViewController.swift:158-161 | notifications are enabled exactly when a characteristic with the target UUID was discovered, which is also when the status becomes "Characteristic OK" |
| `Thermometer.CharacteristicCommandsWellFormed` | iOS/BLE_Thermometer/ViewController.swift:156-161 | appending the characteristic commands keeps the log admissible: each notification directly follows a read of the same characteristic |
| `Thermometer.ViewController.constructor` | iOS/BLE_Thermometer/ViewController.swift:37-46 | a new controller stores no peripheral, has sent no command and shows the labels' initial texts |
| `Thermometer.ViewController.CentralManagerDidUpdateState` | iOS/BLE_Thermometer/ViewController.swift:73-90 | on power-on, the status becomes "Powered on" and exactly one scan filtered on the service is issued; in the five other states nothing changes |
| `Thermometer.ViewController.DidDiscover` | iOS/BLE_Thermometer/ViewController.swift:97-111 | for a thermometer, the status becomes "Device found", the peripheral is stored and exactly stop-scan then connect are issued; for any other device, including a nameless one, nothing changes |
| `Thermometer.ViewController.DidConnect` | iOS/BLE_Thermometer/ViewController.swift:116-120 | the status becomes "Connected" and exactly one service discovery filtered on the service is issued |
| `Thermometer.ViewController.DidDiscoverServices` | iOS/BLE_Thermometer/ViewController.swift:127-139 | with an error, nothing changes; otherwise exactly the service commands are appended, and the labels and stored peripheral are untouched |
| `Thermometer.ViewController.DidDiscoverCharacteristics` | iOS/BLE_Thermometer/ViewController.swift:147-167 | with an error, nothing changes. Otherwise exactly the characteristic commands are appended. The status becomes "Characteristic OK" if and only if some characteristic has the target UUID, and is unchanged otherwise. |
| `Thermometer.ViewController.DiscoveredCharacteristic` | iOS/BLE_Thermometer/ViewController.swift:155-165 | one loop iteration: read the characteristic, then, for the target UUID only, set the status and enable notifications |
| `Thermometer.ViewController.DidUpdateValue` | iOS/BLE_Thermometer/ViewController.swift:173-190 | the value label becomes the decoded text, unstripped, if and only if there is no error, the value is present, the UUID is the target and the text contains `PW`; otherwise it is unchanged; no command is issued and the status is untouched |
| `Thermometer.ViewController.DidDisconnect` | iOS/BLE_Thermometer/ViewController.swift:196-202 | with or without an error, the status becomes "Restart Scan", exactly one filtered scan is issued and the stored peripheral is kept |
| `Thermometer.Connected` | iOS/BLE_Thermometer/ViewController.swift:73-120 | from a fresh controller, power-on, discovery of a thermometer and its connection leave status "Connected", that peripheral stored and exactly the log scan, stop, connect, discover services |
| `Thermometer.Subscribe` | iOS/BLE_Thermometer/ViewController.swift:73-167 | from power-on, a thermometer with one described service and the target characteristic ends with status "Characteristic OK", that peripheral stored, and exactly the seven-command log scan, stop, connect, discover services, discover characteristics, read, notify |
| `Thermometer.ReadAndRecover` | iOS/BLE_Thermometer/ViewController.swift:97-202 | a foreign device is ignored. A marked reading is shown exactly as received, and an unmarked one does not replace it. A disconnection leaves status "Restart Scan", the thermometer still stored, and the log stop, connect, scan. |

## Left out

- UIKit: the labels are modelled only as the strings of their `.text`. `viewDidLoad` and the creation of the `CBCentralManager` (lines 63-66) are not modelled, so the constructor takes the labels' initial texts as parameters.
- CoreBluetooth itself: radio behaviour, the effect of the commands, and the asynchronous arrival of events. Commands are appended to a log, and events are method calls carrying their data.
- The callbacks' `central` argument and `self.manager` are not modelled: there is a single central manager.
- `self.peripheral.delegate = self` (line 103) is not modelled: it is framework wiring.
- Dispatch queues and threading (`queue: nil`, line 65).
- `print` logging (lines 76-86, 99, 108, 117, 135, 159, 164, 183), including the `\r\n` removal at line 183, which only feeds a log message. The sliced names are computed and dropped, as only logging uses them.
- The advertisement data and RSSI of `didDiscover` (line 97) are not modelled: the code never uses them.
- UTF-8 decoding (line 182): the value is given already decoded. Its force-unwrap would crash on invalid UTF-8, so such input is outside the model.
- `StringSlice.Slice`: `from` and `to` must be non-empty, as at both call sites. Foundation's behaviour for an empty needle is not modelled.
- `StringSlice.FindFrom`: compares characters one by one. It does not model Swift's grapheme-cluster `Character` boundaries, or the Unicode canonical equivalence that Foundation's search may apply.
- The formats of `CBService.description` and `CBCharacteristic.description` are not modelled: descriptions are opaque strings.
