/**
 * The connection "waterfall" of ViewController.swift: seven delegate callbacks
 * that react to CoreBluetooth events by updating the stored peripheral and the
 * two label texts and by sending commands to the framework. There is no state
 * variable: each callback runs whenever its event arrives.
 */
module Thermometer {
  import opened Optional
  import opened StringSlice
  import opened CoreBluetooth

  /** `MY_NAME`: the advertised name must contain this. */
  const DeviceName: string := "JATEMP"
  /** `MY_SERVICE_UUID`: 569A1101-B87F-490C-92CB-11BA5EA5167C. */
  const ServiceUuid: Uuid := Uuid(0x569A1101_B87F_490C_92CB_11BA5EA5167C)
  /** `MY_CHARACTERISTIC_UUID`: 569A2000-B87F-490C-92CB-11BA5EA5167C. */
  const CharacteristicUuid: Uuid := Uuid(0x569A2000_B87F_490C_92CB_11BA5EA5167C)
  /** A reading is shown only if its text contains this marker. */
  const ReadingMarker: string := "PW"
  /** The delimiters used to cut a name out of a service or characteristic description. */
  const ServicePrefix: string := "<CBService: "
  const CharacteristicPrefix: string := "<CBCharacteristic: "
  const DescriptionEnd: string := ","

  /** The name test of `didDiscover`: `peripheral.name?.contains(MY_NAME) == true`. */
  predicate IsThermometer(name: Option<string>)
    ensures IsThermometer(name) <==> name.Some? && exists k: nat :: OccursAt(name.value, DeviceName, k)
  {
    name.Some? && Contains(name.value, DeviceName)
  }

  /** Some characteristic in `chars` has the target UUID. */
  predicate AnyTarget(chars: seq<Characteristic>) {
    exists c :: c in chars && c.uuid == CharacteristicUuid
  }

  /** The guard chain of `didUpdateValueFor` under which `txtValue` is replaced. */
  predicate ShowsReading(ch: Characteristic, value: Option<string>, error: Option<BleError>) {
    error.None? && value.Some? && ch.uuid == CharacteristicUuid && Contains(value.value, ReadingMarker)
  }

  /**
   * The commands of `didDiscoverServices` when no error is reported: one
   * characteristic discovery, with no filter, per service whose description is
   * not empty, in the order of `services`.
   */
  function ServiceCommands(p: Peripheral, services: seq<Service>): (r: seq<Command>)
    decreases |services|
  {
    if services == [] then []
    else
      var last := services[|services| - 1];
      ServiceCommands(p, services[..|services| - 1]) +
      (if last.description != "" then [DiscoverCharacteristics(p, None, last)] else [])
  }

  /**
   * The commands of `didDiscoverCharacteristicsFor` when no error is reported:
   * for every characteristic a read on `p`, followed, for the target UUID only,
   * by enabling notifications on the stored peripheral `target`.
   */
  function CharacteristicCommands(p: Peripheral, target: Option<Peripheral>, chars: seq<Characteristic>): (r: seq<Command>)
    requires target.Some? || !AnyTarget(chars)
    decreases |chars|
  {
    if chars == [] then []
    else
      var last := chars[|chars| - 1];
      assert last in chars;
      CharacteristicCommands(p, target, chars[..|chars| - 1]) + CommandsFor(p, target, last)
  }

  /** The commands issued for one characteristic `c`: its read, then, for the target, its notification. */
  function CommandsFor(p: Peripheral, target: Option<Peripheral>, c: Characteristic): seq<Command>
    requires c.uuid == CharacteristicUuid ==> target.Some?
  {
    [ReadValue(p, c)] + if c.uuid == CharacteristicUuid then [SetNotifyValue(target.value, true, c)] else []
  }

  lemma AppendAssociative(a: seq<Command>, b: seq<Command>, c: seq<Command>)
    ensures a + (b + c) == a + b + c
  {
  }

  /** A single characteristic gets exactly its own commands. */
  lemma CharacteristicCommandsSingle(p: Peripheral, target: Option<Peripheral>, c: Characteristic)
    requires c.uuid == CharacteristicUuid ==> target.Some?
    ensures target.Some? || !AnyTarget([c])
    ensures CharacteristicCommands(p, target, [c]) == CommandsFor(p, target, c)
  {
    assert [c][..0] == [];
    assert forall d :: d in [c] ==> d == c;
  }

  /** Commands for a concatenation of service lists come in list order. */
  lemma {:induction false} ServiceCommandsAppend(p: Peripheral, a: seq<Service>, b: seq<Service>)
    ensures ServiceCommands(p, a + b) == ServiceCommands(p, a) + ServiceCommands(p, b)
    decreases |b|
  {
    if b != [] {
      var n := |b| - 1;
      assert (a + b)[..|a + b| - 1] == a + b[..n];
      ServiceCommandsAppend(p, a, b[..n]);
    } else {
      assert a + b == a;
    }
  }

  /** A list extended by one characteristic holds the target iff the list or that characteristic does. */
  lemma AnyTargetSnoc(chars: seq<Characteristic>, c: Characteristic)
    ensures AnyTarget(chars + [c]) <==> AnyTarget(chars) || c.uuid == CharacteristicUuid
  {
    assert c in chars + [c];
    assert forall d :: d in chars + [c] <==> d in chars || d == c;
  }

  /** Commands for a concatenation of characteristic lists come in list order. */
  lemma {:induction false} CharacteristicCommandsAppend(p: Peripheral, target: Option<Peripheral>,
                                                        a: seq<Characteristic>, b: seq<Characteristic>)
    requires target.Some? || !AnyTarget(a + b)
    ensures target.Some? || (!AnyTarget(a) && !AnyTarget(b))
    ensures CharacteristicCommands(p, target, a + b) ==
            CharacteristicCommands(p, target, a) + CharacteristicCommands(p, target, b)
    decreases |b|
  {
    assert forall c :: c in a || c in b ==> c in a + b;
    if b != [] {
      var n := |b| - 1;
      assert (a + b)[..|a + b| - 1] == a + b[..n];
      assert forall c :: c in b[..n] ==> c in b;
      CharacteristicCommandsAppend(p, target, a, b[..n]);
    } else {
      assert a + b == a;
    }
  }

  /** One more characteristic of `chars` adds its read and, for the target, its notification. */
  lemma CharacteristicCommandsStep(p: Peripheral, target: Option<Peripheral>, chars: seq<Characteristic>, i: nat)
    requires i < |chars|
    requires target.Some? || !AnyTarget(chars)
    ensures target.Some? || !AnyTarget(chars[..i + 1])
    ensures AnyTarget(chars[..i + 1]) <==> AnyTarget(chars[..i]) || chars[i].uuid == CharacteristicUuid
    ensures chars[i].uuid == CharacteristicUuid ==> target.Some?
    ensures CharacteristicCommands(p, target, chars[..i + 1]) ==
            CharacteristicCommands(p, target, chars[..i]) + CommandsFor(p, target, chars[i])
  {
    var c := chars[i];
    assert chars[..i + 1] == chars[..i] + [c];
    assert c in chars;
    assert forall d :: d in chars[..i + 1] ==> d in chars;
    AnyTargetSnoc(chars[..i], c);
  }

  /** One more service of `services` adds its characteristic discovery when it is described. */
  lemma ServiceCommandsStep(p: Peripheral, services: seq<Service>, i: nat)
    requires i < |services|
    ensures ServiceCommands(p, services[..i + 1]) ==
            ServiceCommands(p, services[..i]) +
            (if services[i].description != "" then [DiscoverCharacteristics(p, None, services[i])] else [])
  {
    assert services[..i + 1][..i] == services[..i];
  }

  /**
   * The services handler asks exactly the described services for their
   * characteristics, on `p` and without a filter, and nothing else.
   */
  lemma {:induction false} ServiceCommandsMembers(p: Peripheral, services: seq<Service>)
    ensures |ServiceCommands(p, services)| <= |services|
    ensures forall cmd :: cmd in ServiceCommands(p, services) ==>
              cmd.DiscoverCharacteristics? && cmd.peripheral == p && cmd.characteristicFilter.None? &&
              cmd.service in services && cmd.service.description != ""
    ensures forall s :: s in services && s.description != "" ==>
              DiscoverCharacteristics(p, None, s) in ServiceCommands(p, services)
    decreases |services|
  {
    if services != [] {
      var n := |services| - 1;
      var init := services[..n];
      assert services == init + [services[n]];
      ServiceCommandsMembers(p, init);
    }
  }

  /**
   * The characteristics handler reads every characteristic on `p`, enables
   * notifications on `target` for every target characteristic, and issues
   * nothing else.
   */
  lemma {:induction false} CharacteristicCommandsMembers(p: Peripheral, target: Option<Peripheral>,
                                                         chars: seq<Characteristic>)
    requires target.Some? || !AnyTarget(chars)
    ensures forall c :: c in chars ==> ReadValue(p, c) in CharacteristicCommands(p, target, chars)
    ensures forall c :: c in chars && c.uuid == CharacteristicUuid ==>
              SetNotifyValue(target.value, true, c) in CharacteristicCommands(p, target, chars)
    ensures forall cmd :: cmd in CharacteristicCommands(p, target, chars) ==>
              (cmd.ReadValue? && cmd.peripheral == p && cmd.characteristic in chars) ||
              (cmd.SetNotifyValue? && target == Some(cmd.peripheral) && cmd.enabled &&
               cmd.characteristic in chars && cmd.characteristic.uuid == CharacteristicUuid)
    decreases |chars|
  {
    if chars != [] {
      var n := |chars| - 1;
      var init := chars[..n];
      assert chars == init + [chars[n]];
      assert forall c :: c in init ==> c in chars;
      CharacteristicCommandsMembers(p, target, init);
    }
  }

  /**
   * Notifications are enabled by a characteristic discovery exactly when the
   * target characteristic is among those discovered, which is also exactly
   * when the status becomes "Characteristic OK".
   */
  lemma NotifiesIffTarget(p: Peripheral, target: Option<Peripheral>, chars: seq<Characteristic>)
    requires target.Some? || !AnyTarget(chars)
    ensures AnyTarget(chars) <==>
            exists cmd :: cmd in CharacteristicCommands(p, target, chars) && cmd.SetNotifyValue?
  {
    CharacteristicCommandsMembers(p, target, chars);
    if AnyTarget(chars) {
      var c :| c in chars && c.uuid == CharacteristicUuid;
      assert SetNotifyValue(target.value, true, c) in CharacteristicCommands(p, target, chars);
    }
  }

  /**
   * What every command the controller may send looks like, given the commands
   * sent before it: scans and service discoveries are filtered on the
   * thermometer service, a connection goes only to a thermometer and right
   * after the scan was stopped, characteristic discovery is unfiltered and only
   * for described services, and notifications are only enabled on the target
   * characteristic, right after a read of that same characteristic.
   */
  predicate Admissible(before: seq<Command>, cmd: Command) {
    match cmd
    case ScanForPeripherals(filter) => filter == [ServiceUuid]
    case StopScan => true
    case Connect(q) => IsThermometer(q.name) && before != [] && before[|before| - 1] == StopScan
    case DiscoverServices(_, filter) => filter == [ServiceUuid]
    case DiscoverCharacteristics(_, filter, s) => filter.None? && s.description != ""
    case ReadValue(_, _) => true
    case SetNotifyValue(_, enabled, ch) =>
      enabled && ch.uuid == CharacteristicUuid &&
      before != [] && before[|before| - 1].ReadValue? && before[|before| - 1].characteristic == ch
  }

  /** Every command of `log` is admissible after the ones before it. */
  predicate WellFormed(log: seq<Command>) {
    forall i :: 0 <= i < |log| ==> Admissible(log[..i], log[i])
  }

  /** Appending one admissible command keeps a log well formed. */
  lemma WellFormedSnoc(log: seq<Command>, cmd: Command)
    requires WellFormed(log) && Admissible(log, cmd)
    ensures WellFormed(log + [cmd])
  {
    var ext := log + [cmd];
    forall i | 0 <= i < |ext|
      ensures Admissible(ext[..i], ext[i])
    {
      if i < |log| {
        assert ext[..i] == log[..i];
      } else {
        assert ext[..i] == log;
      }
    }
  }

  /** The commands of a successful characteristic discovery keep a log well formed. */
  lemma {:induction false} CharacteristicCommandsWellFormed(log: seq<Command>, p: Peripheral,
                                                            target: Option<Peripheral>, chars: seq<Characteristic>)
    requires target.Some? || !AnyTarget(chars)
    requires WellFormed(log)
    ensures WellFormed(log + CharacteristicCommands(p, target, chars))
    decreases |chars|
  {
    if chars != [] {
      var n := |chars| - 1;
      var last := chars[n];
      assert forall c :: c in chars[..n] ==> c in chars;
      CharacteristicCommandsWellFormed(log, p, target, chars[..n]);
      var prefix := log + CharacteristicCommands(p, target, chars[..n]);
      WellFormedSnoc(prefix, ReadValue(p, last));
      if last.uuid == CharacteristicUuid {
        WellFormedSnoc(prefix + [ReadValue(p, last)], SetNotifyValue(target.value, true, last));
        assert log + CharacteristicCommands(p, target, chars) ==
               prefix + [ReadValue(p, last)] + [SetNotifyValue(target.value, true, last)];
      } else {
        assert log + CharacteristicCommands(p, target, chars) == prefix + [ReadValue(p, last)];
      }
    } else {
      assert log + [] == log;
    }
  }

  /**
   * The view controller: the stored peripheral (`self.peripheral`), the texts
   * of the status and value labels, and the commands sent so far.
   */
  class ViewController {
    var peripheral: Option<Peripheral>
    var statusText: string
    var valueText: string
    var commands: seq<Command>

    /**
     * Every command sent so far was admissible, and a stored peripheral is a
     * thermometer to which a connection was requested.
     */
    ghost predicate Valid()
      reads this
    {
      WellFormed(commands) &&
      (peripheral.Some? ==> IsThermometer(peripheral.value.name) && Connect(peripheral.value) in commands)
    }

    /** A freshly loaded view: no peripheral, no command, the labels as designed. */
    constructor (initialStatus: string, initialValue: string)
      ensures Valid()
      ensures peripheral == None && commands == []
      ensures statusText == initialStatus && valueText == initialValue
    {
      peripheral := None;
      statusText := initialStatus;
      valueText := initialValue;
      commands := [];
    }

    /** `centralManagerDidUpdateState`: on power-on, report it and scan for the thermometer service. */
    method CentralManagerDidUpdateState(state: ManagerState)
      requires Valid()
      modifies this`statusText, this`commands
      ensures Valid()
      ensures state == PoweredOn ==>
                statusText == "Powered on" && commands == old(commands) + [ScanForPeripherals([ServiceUuid])]
      ensures state != PoweredOn ==> statusText == old(statusText) && commands == old(commands)
    {
      match state
      case Unknown =>
      case Resetting =>
      case Unsupported =>
      case Unauthorized =>
      case PoweredOff =>
      case PoweredOn =>
        statusText := "Powered on";
        WellFormedSnoc(commands, ScanForPeripherals([ServiceUuid]));
        commands := commands + [ScanForPeripherals([ServiceUuid])];
    }

    /**
     * `centralManager(_:didDiscover:...)`: a thermometer is reported, scanning
     * stops, the peripheral is stored and a connection is requested; any other
     * discovery changes nothing.
     */
    method DidDiscover(p: Peripheral)
      requires Valid()
      modifies this`statusText, this`commands, this`peripheral
      ensures Valid()
      ensures IsThermometer(p.name) ==>
                statusText == "Device found" && peripheral == Some(p) &&
                commands == old(commands) + [StopScan, Connect(p)]
      ensures !IsThermometer(p.name) ==>
                statusText == old(statusText) && peripheral == old(peripheral) && commands == old(commands)
    {
      if IsThermometer(p.name) {
        statusText := "Device found";
        WellFormedSnoc(commands, StopScan);
        commands := commands + [StopScan];
        peripheral := Some(p);
        WellFormedSnoc(commands, Connect(p));
        commands := commands + [Connect(p)];
      }
    }

    /** `centralManager(_:didConnect:)`: report the connection and discover the thermometer service. */
    method DidConnect(p: Peripheral)
      requires Valid()
      modifies this`statusText, this`commands
      ensures Valid()
      ensures statusText == "Connected"
      ensures commands == old(commands) + [DiscoverServices(p, [ServiceUuid])]
    {
      statusText := "Connected";
      WellFormedSnoc(commands, DiscoverServices(p, [ServiceUuid]));
      commands := commands + [DiscoverServices(p, [ServiceUuid])];
    }

    /**
     * `peripheral(_:didDiscoverServices:)`: on success, discover the
     * characteristics of every described service. The service list must be
     * present and every described service's name must slice out of its
     * description, since both are force-unwrapped.
     */
    method DidDiscoverServices(p: Peripheral, services: Option<seq<Service>>, error: Option<BleError>)
      requires Valid()
      requires error.None? ==> services.Some?
      requires error.None? ==> forall s :: s in services.value && s.description != "" ==>
                 Slice(s.description, ServicePrefix, DescriptionEnd).Some?
      modifies this`commands
      ensures Valid()
      ensures error.Some? ==> commands == old(commands)
      ensures error.None? ==> commands == old(commands) + ServiceCommands(p, services.value)
    {
      if error.Some? {
        return;
      }
      var list := services.value;
      for i := 0 to |list|
        invariant commands == old(commands) + ServiceCommands(p, list[..i])
        invariant Valid()
      {
        var s := list[i];
        ServiceCommandsStep(p, list, i);
        if s.description != "" {
          assert s in list;
          var serviceName := Slice(s.description, ServicePrefix, DescriptionEnd).value;
          WellFormedSnoc(commands, DiscoverCharacteristics(p, None, s));
          AppendAssociative(old(commands), ServiceCommands(p, list[..i]), [DiscoverCharacteristics(p, None, s)]);
          commands := commands + [DiscoverCharacteristics(p, None, s)];
        }
      }
      assert list[..|list|] == list;
    }

    /**
     * `peripheral(_:didDiscoverCharacteristicsFor:error:)`: on success, read
     * every characteristic and, for the target one, report it and enable
     * notifications on the stored peripheral. The list must be present, every
     * name must slice out of its description, and a peripheral must be stored
     * when the target is among them, since all three are force-unwrapped.
     */
    method DidDiscoverCharacteristics(p: Peripheral, service: Service,
                                      characteristics: Option<seq<Characteristic>>, error: Option<BleError>)
      requires Valid()
      requires error.None? ==> characteristics.Some?
      requires error.None? ==> forall c :: c in characteristics.value ==>
                 Slice(c.description, CharacteristicPrefix, DescriptionEnd).Some?
      requires error.None? ==> peripheral.Some? || !AnyTarget(characteristics.value)
      modifies this`statusText, this`commands
      ensures Valid()
      ensures error.Some? ==> statusText == old(statusText) && commands == old(commands)
      ensures error.None? ==>
                commands == old(commands) + CharacteristicCommands(p, peripheral, characteristics.value) &&
                statusText == if AnyTarget(characteristics.value) then "Characteristic OK" else old(statusText)
    {
      if error.Some? {
        return;
      }
      var list := characteristics.value;
      for i := 0 to |list|
        invariant peripheral.Some? || !AnyTarget(list[..i])
        invariant commands == old(commands) + CharacteristicCommands(p, peripheral, list[..i])
        invariant statusText == if AnyTarget(list[..i]) then "Characteristic OK" else old(statusText)
      {
        CharacteristicCommandsStep(p, peripheral, list, i);
        assert list[i] in list;
        DiscoveredCharacteristic(p, list[i]);
        AppendAssociative(old(commands), CharacteristicCommands(p, peripheral, list[..i]), CommandsFor(p, peripheral, list[i]));
      }
      assert list[..|list|] == list;
      CharacteristicCommandsWellFormed(old(commands), p, peripheral, list);
    }

    /**
     * The body of the loop of `didDiscoverCharacteristicsFor` for one
     * characteristic `c`: read it on `p` and, if it is the target, report it
     * and enable its notifications on the stored peripheral.
     */
    method DiscoveredCharacteristic(p: Peripheral, c: Characteristic)
      requires Slice(c.description, CharacteristicPrefix, DescriptionEnd).Some?
      requires c.uuid == CharacteristicUuid ==> peripheral.Some?
      modifies this`statusText, this`commands
      ensures commands == old(commands) + CommandsFor(p, peripheral, c)
      ensures statusText == if c.uuid == CharacteristicUuid then "Characteristic OK" else old(statusText)
    {
      var characteristicName := Slice(c.description, CharacteristicPrefix, DescriptionEnd).value;
      commands := commands + [ReadValue(p, c)];
      if c.uuid == CharacteristicUuid {
        statusText := "Characteristic OK";
        commands := commands + [SetNotifyValue(peripheral.value, true, c)];
      }
    }

    /**
     * `peripheral(_:didUpdateValueFor:error:)`: show the decoded value, as
     * received and with its line ending, when it comes without error from the
     * target characteristic and carries the marker.
     */
    method DidUpdateValue(p: Peripheral, ch: Characteristic, value: Option<string>, error: Option<BleError>)
      requires Valid()
      modifies this`valueText
      ensures Valid()
      ensures valueText == if ShowsReading(ch, value, error) then value.value else old(valueText)
    {
      if error.Some? {
        return;
      }
      if value.Some? {
        var text := value.value;
        if ch.uuid == CharacteristicUuid {
          if Contains(text, ReadingMarker) {
            valueText := text;
          }
        }
      }
    }

    /**
     * `centralManager(_:didDisconnectPeripheral:error:)`: with or without an
     * error, report the restart and scan again; the stored peripheral is kept.
     */
    method DidDisconnect(p: Peripheral, error: Option<BleError>)
      requires Valid()
      modifies this`statusText, this`commands
      ensures Valid()
      ensures statusText == "Restart Scan"
      ensures commands == old(commands) + [ScanForPeripherals([ServiceUuid])]
    {
      statusText := "Restart Scan";
      WellFormedSnoc(commands, ScanForPeripherals([ServiceUuid]));
      commands := commands + [ScanForPeripherals([ServiceUuid])];
    }
  }

  /** Power-on, discovery of the thermometer and connection to it, from a fresh controller. */
  method Connected(thermometer: Peripheral) returns (vc: ViewController)
    requires IsThermometer(thermometer.name)
    ensures fresh(vc) && vc.Valid()
    ensures vc.statusText == "Connected" && vc.peripheral == Some(thermometer)
    ensures vc.commands == [ScanForPeripherals([ServiceUuid]), StopScan, Connect(thermometer),
                            DiscoverServices(thermometer, [ServiceUuid])]
  {
    var scan := ScanForPeripherals([ServiceUuid]);
    vc := new ViewController("", "");
    vc.CentralManagerDidUpdateState(PoweredOn);
    assert vc.commands == [scan];
    vc.DidDiscover(thermometer);
    assert vc.commands == [scan, StopScan, Connect(thermometer)];
    vc.DidConnect(thermometer);
  }

  /**
   * From power-on to subscription: the thermometer is connected, its
   * described service is explored and notifications are enabled on its
   * reading characteristic.
   */
  method Subscribe(thermometer: Peripheral, service: Service, reading: Characteristic)
    returns (status: string, log: seq<Command>, stored: Option<Peripheral>)
    requires IsThermometer(thermometer.name)
    requires service.description != "" && Slice(service.description, ServicePrefix, DescriptionEnd).Some?
    requires reading.uuid == CharacteristicUuid
    requires Slice(reading.description, CharacteristicPrefix, DescriptionEnd).Some?
    ensures status == "Characteristic OK"
    ensures stored == Some(thermometer)
    ensures log == [ScanForPeripherals([ServiceUuid]),
                    StopScan,
                    Connect(thermometer),
                    DiscoverServices(thermometer, [ServiceUuid]),
                    DiscoverCharacteristics(thermometer, None, service),
                    ReadValue(thermometer, reading),
                    SetNotifyValue(thermometer, true, reading)]
  {
    var scan := ScanForPeripherals([ServiceUuid]);
    var vc := Connected(thermometer);

    assert ServiceCommands(thermometer, [service]) == [DiscoverCharacteristics(thermometer, None, service)] by {
      assert [service][..0] == [];
    }
    vc.DidDiscoverServices(thermometer, Some([service]), None);
    assert vc.commands == [scan, StopScan, Connect(thermometer), DiscoverServices(thermometer, [ServiceUuid]),
                           DiscoverCharacteristics(thermometer, None, service)];

    assert reading in [reading];
    CharacteristicCommandsSingle(thermometer, Some(thermometer), reading);
    vc.DidDiscoverCharacteristics(thermometer, service, Some([reading]), None);
    status, log, stored := vc.statusText, vc.commands, vc.peripheral;
  }

  /**
   * Discovery, readings and recovery: a foreign device is ignored, a reading
   * with the marker is shown exactly as received, line ending included, one
   * without it is ignored, and a disconnection restarts the scan while the
   * stored peripheral is kept.
   */
  method ReadAndRecover(other: Peripheral, thermometer: Peripheral, reading: Characteristic,
                        marked: string, unmarked: string)
    returns (shown: string, status: string, log: seq<Command>, stored: Option<Peripheral>)
    requires !IsThermometer(other.name) && IsThermometer(thermometer.name)
    requires reading.uuid == CharacteristicUuid
    requires Contains(marked, ReadingMarker) && !Contains(unmarked, ReadingMarker)
    ensures shown == marked
    ensures status == "Restart Scan"
    ensures stored == Some(thermometer)
    ensures log == [StopScan, Connect(thermometer), ScanForPeripherals([ServiceUuid])]
  {
    var vc := new ViewController("", "");
    vc.DidDiscover(other);
    vc.DidDiscover(thermometer);
    vc.DidUpdateValue(thermometer, reading, Some(marked), None);
    vc.DidUpdateValue(thermometer, reading, Some(unmarked), None);
    shown := vc.valueText;
    vc.DidDisconnect(thermometer, None);
    status, log, stored := vc.statusText, vc.commands, vc.peripheral;
  }
}
