/** analyze_usb_storage: the three-level walk of HKLM\SYSTEM\CurrentControlSet\Enum\USBSTOR.

    The registry is given as a value: the USBSTOR key, its device subkeys and
    their instance subkeys, each with the outcome the Windows calls would have
    on it.  `enumEnd` is what EnumKey raises once a key's subkeys are exhausted
    (normally an OSError; a failure in the middle of an enumeration is the same
    as a shorter subkey list).
 */
module UsbStor {
  import opened FileTime

  /** The exceptions the walk tells apart.  PermissionError and FileNotFoundError
      are OSErrors; OverflowError and everything else are not. */
  datatype OSErrorKind = NoMoreData | FileNotFound | PermissionDenied | OtherOSError
  datatype Exception = OSError(kind: OSErrorKind) | OtherException

  /** The outcome of winreg.OpenKey on a key. */
  datatype Opening = Opened | OpenFailed(error: Exception)

  /** The outcome of winreg.QueryValueEx(key, "FriendlyName"). */
  datatype ValueRead = Stored(value: string) | QueryFailed(error: Exception)

  /** Level 2: one serial number / instance id under a device. */
  datatype InstanceKey = InstanceKey(name: string, opening: Opening, friendlyName: ValueRead, lastWrite: RegQueryInfo)

  /** Level 1: one vendor/product id under USBSTOR. */
  datatype DeviceKey = DeviceKey(name: string, opening: Opening, instances: seq<InstanceKey>, enumEnd: Exception)

  /** The root key USBSTOR itself. */
  datatype UsbStorKey = UsbStorKey(opening: Opening, devices: seq<DeviceKey>, enumEnd: Exception)

  /** One entry of devices_found (lines 118-123). */
  datatype Artifact = Artifact(deviceId: string, serialNumber: string, friendlyName: string, lastConnection: Option<nat>)

  /** The friendly name used when the instance has no FriendlyName value (line 108). */
  const GENERIC_DRIVER_NAME: string := "Desconhecido (Driver Genérico)"

  /** What processing one instance does to the inner loop: append an artifact,
      leave the loop (an OSError, line 127), or raise past both loops. */
  datatype Step = Append(artifact: Artifact) | Break | Raise

  /** How a loop (or the whole walk inside the root key) ends: normally, with the
      artifacts it appended, or by an exception that reaches line 138. */
  datatype Scan = Done(found: seq<Artifact>) | Raised

  /** An exception at the head of a loop body: an OSError ends the loop, anything else escapes. */
  function Escape(e: Exception): Step {
    if e.OSError? then Break else Raise
  }

  /** The loop's result when `found` was appended before the rest of the loop ran as `rest`. */
  function Prefix(found: seq<Artifact>, rest: Scan): Scan {
    match rest
    case Done(more) => Done(found + more)
    case Raised => Raised
  }

  lemma PrefixPrefix(first: seq<Artifact>, second: seq<Artifact>, rest: Scan)
    ensures Prefix(first, Prefix(second, rest)) == Prefix(first + second, rest)
  {
    if rest.Done? {
      assert first + (second + rest.found) == (first + second) + rest.found;
    }
  }

  function FriendlyNameOf(read: ValueRead): string {
    match read
    case Stored(v) => v
    case QueryFailed(_) => GENERIC_DRIVER_NAME
  }

  /** The time recorded for an instance.  The RaisedOverflow branch is never
      reached from InstanceStep: an overflowing key yields no artifact at all
      (line 68 raises), so None there only keeps the function total. */
  function LastConnectionOf(query: RegQueryInfo): Option<nat> {
    match GetRegistryKeyTimestamp(query)
    case Returned(t) => t
    case RaisedOverflow => None
  }

  /** The artifact built for an instance that was opened and read (lines 118-123). */
  function ArtifactOf(deviceId: string, instance: InstanceKey): Artifact {
    Artifact(deviceId, instance.name, FriendlyNameOf(instance.friendlyName), LastConnectionOf(instance.lastWrite))
  }

  /** Lines 105-124 for one instance.  A missing FriendlyName is not an error
      (line 111); any other failure to read it is, and the timestamp is then
      never queried. */
  function InstanceStep(deviceId: string, instance: InstanceKey): Step {
    if instance.opening.OpenFailed? then Escape(instance.opening.error)
    else if instance.friendlyName.QueryFailed? && instance.friendlyName.error != OSError(FileNotFound) then
      Escape(instance.friendlyName.error)
    else if GetRegistryKeyTimestamp(instance.lastWrite).RaisedOverflow? then Raise
    else Append(ArtifactOf(deviceId, instance))
  }

  /** The inner loop (lines 99-128) over the remaining instances of one device. */
  function ScanInstances(deviceId: string, instances: seq<InstanceKey>, enumEnd: Exception): Scan
  {
    if instances == [] then
      if enumEnd.OSError? then Done([]) else Raised
    else
      match InstanceStep(deviceId, instances[0])
      case Append(a) => Prefix([a], ScanInstances(deviceId, instances[1..], enumEnd))
      case Break => Done([])
      case Raise => Raised
  }

  /** The outer loop (lines 90-131) over the remaining devices. */
  function ScanDevices(devices: seq<DeviceKey>, enumEnd: Exception): Scan
  {
    if devices == [] then
      if enumEnd.OSError? then Done([]) else Raised
    else
      var device := devices[0];
      if device.opening.OpenFailed? then
        if device.opening.error.OSError? then Done([]) else Raised
      else
        match ScanInstances(device.name, device.instances, device.enumEnd)
        case Done(found) => Prefix(found, ScanDevices(devices[1..], enumEnd))
        case Raised => Raised
  }

  /** One turn of the inner loop, at index j. */
  lemma ScanInstancesFrom(deviceId: string, instances: seq<InstanceKey>, enumEnd: Exception, j: int)
    requires 0 <= j < |instances|
    ensures ScanInstances(deviceId, instances[j..], enumEnd) ==
      match InstanceStep(deviceId, instances[j])
      case Append(a) => Prefix([a], ScanInstances(deviceId, instances[j + 1..], enumEnd))
      case Break => Done([])
      case Raise => Raised
  {
    assert instances[j..][1..] == instances[j + 1..];
  }

  /** One turn of the outer loop, at index i. */
  lemma ScanDevicesFrom(devices: seq<DeviceKey>, enumEnd: Exception, i: int)
    requires 0 <= i < |devices|
    ensures ScanDevices(devices[i..], enumEnd) ==
      var device := devices[i];
      if device.opening.OpenFailed? then
        if device.opening.error.OSError? then Done([]) else Raised
      else
        match ScanInstances(device.name, device.instances, device.enumEnd)
        case Done(found) => Prefix(found, ScanDevices(devices[i + 1..], enumEnd))
        case Raised => Raised
  {
    assert devices[i..][1..] == devices[i + 1..];
  }

  /** The value analyze_usb_storage returns (lines 85-140): any failure to open
      the root, PermissionError or not, and any exception that escapes the
      loops, gives the empty list. */
  function Analyze(registry: UsbStorKey): seq<Artifact> {
    if registry.opening.OpenFailed? then []
    else
      match ScanDevices(registry.devices, registry.enumEnd)
      case Done(found) => found
      case Raised => []
  }

  /** analyze_usb_storage (lines 76-140), loop for loop. */
  method AnalyzeUsbStorage(registry: UsbStorKey) returns (devicesFound: seq<Artifact>)
    ensures devicesFound == Analyze(registry)
  {
    if registry.opening.OpenFailed? {
      // PermissionError (line 135) and any other exception (line 138) alike
      return [];
    }
    var devices := registry.devices;
    devicesFound := [];
    var i := 0;
    while true
      invariant 0 <= i <= |devices|
      invariant Prefix(devicesFound, ScanDevices(devices[i..], registry.enumEnd)) == ScanDevices(devices, registry.enumEnd)
      decreases |devices| - i
    {
      if i == |devices| {
        // EnumKey(reg_key, i) raises once the devices are exhausted
        if registry.enumEnd.OSError? {
          break;
        }
        return [];
      }
      var device := devices[i];
      ScanDevicesFrom(devices, registry.enumEnd, i);
      if device.opening.OpenFailed? {
        if device.opening.error.OSError? {
          break;
        }
        return [];
      }
      ghost var beforeDevice := devicesFound;
      var instances := device.instances;
      var j := 0;
      while true
        invariant 0 <= j <= |instances|
        invariant Prefix(devicesFound, ScanInstances(device.name, instances[j..], device.enumEnd))
               == Prefix(beforeDevice, ScanInstances(device.name, instances, device.enumEnd))
        decreases |instances| - j
      {
        if j == |instances| {
          if device.enumEnd.OSError? {
            break;
          }
          return [];
        }
        var instance := instances[j];
        ScanInstancesFrom(device.name, instances, device.enumEnd, j);
        if instance.opening.OpenFailed? {
          if instance.opening.error.OSError? {
            break;
          }
          return [];
        }
        var friendlyName := GENERIC_DRIVER_NAME;
        match instance.friendlyName {
          case Stored(v) =>
            friendlyName := v;
          case QueryFailed(e) =>
            if e != OSError(FileNotFound) {
              if e.OSError? {
                break;
              }
              return [];
            }
        }
        var lastWrite := GetRegistryKeyTimestamp(instance.lastWrite);
        if lastWrite.RaisedOverflow? {
          // OverflowError is not an OSError: it reaches line 138
          return [];
        }
        devicesFound := devicesFound + [Artifact(device.name, instance.name, friendlyName, lastWrite.value)];
        j := j + 1;
      }
      // the instance loop ended normally: this device contributed what was appended since
      assert ScanInstances(device.name, instances[j..], device.enumEnd) == Done([]);
      ghost var scanned := ScanInstances(device.name, instances, device.enumEnd);
      assert scanned.Done? && beforeDevice + scanned.found == devicesFound;
      assert ScanDevices(devices[i..], registry.enumEnd) == Prefix(scanned.found, ScanDevices(devices[i + 1..], registry.enumEnd));
      PrefixPrefix(beforeDevice, scanned.found, ScanDevices(devices[i + 1..], registry.enumEnd));
      i := i + 1;
    }
  }

  /* ---------------------------------------------------------------------------
     What the walk returns, stated without the loops.
     ------------------------------------------------------------------------- */

  /** The artifacts of a run of instances that were all opened and read, in order. */
  function Artifacts(deviceId: string, instances: seq<InstanceKey>): (r: seq<Artifact>)
  {
    seq(|instances|, m requires 0 <= m < |instances| => ArtifactOf(deviceId, instances[m]))
  }

  /** An instance yields an artifact exactly when it opens, its FriendlyName is
      stored or missing, and its timestamp does not overflow; the artifact names
      the device and the instance, falls back to the generic name only when
      FriendlyName is missing, and carries the decoded last-write time or None. */
  lemma AppendedInstance(deviceId: string, instance: InstanceKey)
    ensures InstanceStep(deviceId, instance).Append? <==>
      instance.opening.Opened? &&
      (instance.friendlyName.Stored? || instance.friendlyName.error == OSError(FileNotFound)) &&
      (instance.lastWrite.ret == 0 ==>
         FileTimeToDatetime(instance.lastWrite.lastWriteLow, instance.lastWrite.lastWriteHigh).InRange?)
    ensures InstanceStep(deviceId, instance).Append? ==>
      var a := InstanceStep(deviceId, instance).artifact;
      a.deviceId == deviceId && a.serialNumber == instance.name &&
      a.friendlyName == (if instance.friendlyName.Stored? then instance.friendlyName.value else GENERIC_DRIVER_NAME) &&
      a.lastConnection == (if instance.lastWrite.ret != 0 then None
                           else Some(FileTimeToDatetime(instance.lastWrite.lastWriteLow, instance.lastWrite.lastWriteHigh).micros))
  {
  }

  /** The number of instances, from the first, that yield an artifact. */
  function LeadingAppends(deviceId: string, instances: seq<InstanceKey>): (k: nat)
    ensures k <= |instances|
    ensures forall m :: 0 <= m < k ==> InstanceStep(deviceId, instances[m]).Append?
    ensures k < |instances| ==> !InstanceStep(deviceId, instances[k]).Append?
  {
    if instances == [] || !InstanceStep(deviceId, instances[0]).Append? then 0
    else 1 + LeadingAppends(deviceId, instances[1..])
  }

  /** The inner loop keeps the artifacts of the instances before the first one
      that does not yield; that instance ends the loop if its exception is an
      OSError and raises past the walk otherwise.  When every instance yields,
      the exception EnumKey raises at the end decides the same way. */
  lemma {:induction false} InstanceLoopOutcome(deviceId: string, instances: seq<InstanceKey>, enumEnd: Exception, k: nat)
    requires k <= |instances|
    requires forall m :: 0 <= m < k ==> InstanceStep(deviceId, instances[m]).Append?
    requires k < |instances| ==> !InstanceStep(deviceId, instances[k]).Append?
    ensures ScanInstances(deviceId, instances, enumEnd) ==
      if k < |instances| then
        if InstanceStep(deviceId, instances[k]).Break? then Done(Artifacts(deviceId, instances[..k])) else Raised
      else
        if enumEnd.OSError? then Done(Artifacts(deviceId, instances)) else Raised
  {
    if k > 0 {
      var rest := instances[1..];
      assert forall m :: 0 <= m < k - 1 ==> rest[m] == instances[m + 1];
      InstanceLoopOutcome(deviceId, rest, enumEnd, k - 1);
      assert Artifacts(deviceId, instances[..k]) == [ArtifactOf(deviceId, instances[0])] + Artifacts(deviceId, rest[..k - 1]);
      assert Artifacts(deviceId, instances) == [ArtifactOf(deviceId, instances[0])] + Artifacts(deviceId, rest);
    }
  }

  /** A device whose key opens and whose instance loop ends without raising. */
  predicate DeviceCompletes(device: DeviceKey) {
    device.opening.Opened? && ScanInstances(device.name, device.instances, device.enumEnd).Done?
  }

  /** What the instance loop of a device appended, when it completed. */
  function FoundUnder(device: DeviceKey): seq<Artifact> {
    match ScanInstances(device.name, device.instances, device.enumEnd)
    case Done(found) => found
    case Raised => []
  }

  /** The artifacts of a run of devices, device after device. */
  function FoundUnderAll(devices: seq<DeviceKey>): seq<Artifact> {
    if devices == [] then [] else FoundUnder(devices[0]) + FoundUnderAll(devices[1..])
  }

  /** The outer loop keeps what the devices before the first incomplete one
      found.  That device ends the whole walk, with everything kept, when its
      key failed to open with an OSError; otherwise (a non-OSError, or a raise
      inside its instance loop) nothing is kept. */
  lemma {:induction false} DeviceLoopOutcome(devices: seq<DeviceKey>, enumEnd: Exception, k: nat)
    requires k <= |devices|
    requires forall m :: 0 <= m < k ==> DeviceCompletes(devices[m])
    requires k < |devices| ==> !DeviceCompletes(devices[k])
    ensures ScanDevices(devices, enumEnd) ==
      if k < |devices| then
        if devices[k].opening.OpenFailed? && devices[k].opening.error.OSError? then Done(FoundUnderAll(devices[..k]))
        else Raised
      else
        if enumEnd.OSError? then Done(FoundUnderAll(devices)) else Raised
  {
    if k > 0 {
      var rest := devices[1..];
      assert forall m :: 0 <= m < k - 1 ==> rest[m] == devices[m + 1];
      DeviceLoopOutcome(rest, enumEnd, k - 1);
      assert devices[..k][1..] == rest[..k - 1];
      assert devices[..k][0] == devices[0];
    }
  }

  /** Every artifact reported comes from an instance, under a device whose key
      opened, that yields exactly that artifact: nothing is invented or altered. */
  lemma {:induction false} InstancesProvenance(deviceId: string, instances: seq<InstanceKey>, enumEnd: Exception, a: Artifact)
    requires ScanInstances(deviceId, instances, enumEnd).Done?
    requires a in ScanInstances(deviceId, instances, enumEnd).found
    ensures exists j :: 0 <= j < |instances| && InstanceStep(deviceId, instances[j]) == Append(a)
  {
    if InstanceStep(deviceId, instances[0]) != Append(a) {
      InstancesProvenance(deviceId, instances[1..], enumEnd, a);
      var j :| 0 <= j < |instances[1..]| && InstanceStep(deviceId, instances[1..][j]) == Append(a);
      assert InstanceStep(deviceId, instances[j + 1]) == Append(a);
    }
  }

  lemma {:induction false} DevicesProvenance(devices: seq<DeviceKey>, enumEnd: Exception, a: Artifact)
    requires ScanDevices(devices, enumEnd).Done?
    requires a in ScanDevices(devices, enumEnd).found
    ensures exists i, j ::
      0 <= i < |devices| && devices[i].opening.Opened? && 0 <= j < |devices[i].instances| &&
      InstanceStep(devices[i].name, devices[i].instances[j]) == Append(a)
  {
    var device := devices[0];
    var found := ScanInstances(device.name, device.instances, device.enumEnd).found;
    if a in found {
      InstancesProvenance(device.name, device.instances, device.enumEnd, a);
      var j :| 0 <= j < |device.instances| && InstanceStep(device.name, device.instances[j]) == Append(a);
      assert devices[0].opening.Opened? && InstanceStep(devices[0].name, devices[0].instances[j]) == Append(a);
    } else {
      DevicesProvenance(devices[1..], enumEnd, a);
      var i, j :| 0 <= i < |devices[1..]| && devices[1..][i].opening.Opened? && 0 <= j < |devices[1..][i].instances|
        && InstanceStep(devices[1..][i].name, devices[1..][i].instances[j]) == Append(a);
      assert devices[i + 1] == devices[1..][i];
    }
  }

  lemma ArtifactProvenance(registry: UsbStorKey, a: Artifact)
    requires a in Analyze(registry)
    ensures registry.opening.Opened?
    ensures exists i, j ::
      0 <= i < |registry.devices| && registry.devices[i].opening.Opened? &&
      0 <= j < |registry.devices[i].instances| &&
      InstanceStep(registry.devices[i].name, registry.devices[i].instances[j]) == Append(a)
  {
    DevicesProvenance(registry.devices, registry.enumEnd, a);
  }

  /** The inner loop ends as InstanceLoopOutcome says for every list of instances. */
  lemma InstanceLoopResult(deviceId: string, instances: seq<InstanceKey>, enumEnd: Exception)
    ensures var k := LeadingAppends(deviceId, instances);
      ScanInstances(deviceId, instances, enumEnd) ==
        if k < |instances| then
          if InstanceStep(deviceId, instances[k]).Break? then Done(Artifacts(deviceId, instances[..k])) else Raised
        else
          if enumEnd.OSError? then Done(Artifacts(deviceId, instances)) else Raised
  {
    InstanceLoopOutcome(deviceId, instances, enumEnd, LeadingAppends(deviceId, instances));
  }

  /** The number of devices, from the first, whose key opens and whose instance loop completes. */
  function LeadingCompletes(devices: seq<DeviceKey>): (k: nat)
    ensures k <= |devices|
    ensures forall m :: 0 <= m < k ==> DeviceCompletes(devices[m])
    ensures k < |devices| ==> !DeviceCompletes(devices[k])
  {
    if devices == [] || !DeviceCompletes(devices[0]) then 0
    else 1 + LeadingCompletes(devices[1..])
  }

  /** What analyze_usb_storage returns, for every registry. */
  lemma AnalyzeOutcome(registry: UsbStorKey)
    ensures var devices, k := registry.devices, LeadingCompletes(registry.devices);
      Analyze(registry) ==
        if registry.opening.OpenFailed? then []
        else if k < |devices| then
          if devices[k].opening.OpenFailed? && devices[k].opening.error.OSError? then FoundUnderAll(devices[..k]) else []
        else
          if registry.enumEnd.OSError? then FoundUnderAll(devices) else []
  {
    DeviceLoopOutcome(registry.devices, registry.enumEnd, LeadingCompletes(registry.devices));
  }

  /** Number of instance subkeys under a run of devices. */
  function InstanceCount(devices: seq<DeviceKey>): nat {
    if devices == [] then 0 else |devices[0].instances| + InstanceCount(devices[1..])
  }

  /** One artifact per instance, device after device, instance after instance. */
  function AllArtifacts(devices: seq<DeviceKey>): (r: seq<Artifact>)
    ensures |r| == InstanceCount(devices)
  {
    if devices == [] then [] else Artifacts(devices[0].name, devices[0].instances) + AllArtifacts(devices[1..])
  }

  /** Every device key opens, every instance opens and is read without an
      exception that matters, and both enumerations end with an OSError. */
  predicate Intact(devices: seq<DeviceKey>, enumEnd: Exception) {
    enumEnd.OSError? &&
    forall i :: 0 <= i < |devices| ==>
      devices[i].opening.Opened? && devices[i].enumEnd.OSError? &&
      forall j :: 0 <= j < |devices[i].instances| ==> InstanceStep(devices[i].name, devices[i].instances[j]).Append?
  }

  lemma {:induction false} IntactDevices(devices: seq<DeviceKey>, enumEnd: Exception)
    requires Intact(devices, enumEnd)
    ensures ScanDevices(devices, enumEnd) == Done(AllArtifacts(devices))
  {
    if devices != [] {
      var device := devices[0];
      InstanceLoopOutcome(device.name, device.instances, device.enumEnd, |device.instances|);
      assert Intact(devices[1..], enumEnd) by {
        forall i | 0 <= i < |devices[1..]| ensures devices[1..][i] == devices[i + 1] { }
      }
      IntactDevices(devices[1..], enumEnd);
    }
  }

  /** On an intact registry the walk reports every instance exactly once, in
      enumeration order: devices outer, instances inner. */
  lemma EveryInstanceReported(registry: UsbStorKey)
    requires registry.opening.Opened?
    requires Intact(registry.devices, registry.enumEnd)
    ensures Analyze(registry) == AllArtifacts(registry.devices)
    ensures |Analyze(registry)| == InstanceCount(registry.devices)
  {
    IntactDevices(registry.devices, registry.enumEnd);
  }

  /** A root key that cannot be opened gives the empty list, and a PermissionError
      gives the same value as any other failure. */
  lemma RootFailureReportsNothing(registry: UsbStorKey)
    requires registry.opening.OpenFailed?
    ensures Analyze(registry) == []
    ensures Analyze(registry.(opening := OpenFailed(OSError(PermissionDenied))))
         == Analyze(registry.(opening := OpenFailed(OtherException)))
  {
  }

  /* ---------------------------------------------------------------------------
     Small registries and what the walk makes of them.
     ------------------------------------------------------------------------- */

  /** An instance that opens, has a FriendlyName and a last-write time of 0 ticks. */
  function Healthy(name: string): InstanceKey {
    InstanceKey(name, Opened, Stored("USB Disk"), RegQueryInfo(0, 0, 0))
  }

  const END: Exception := OSError(NoMoreData)

  /** An empty USBSTOR key is no error and gives no artifact. */
  lemma EmptyUsbStor()
    ensures Analyze(UsbStorKey(Opened, [], END)) == []
  {
  }

  /** An instance that cannot be opened ends its own device's loop only: the
      instance after it is lost, the next device is still walked. */
  lemma InstanceFailureSkipsRestOfDevice()
    ensures Analyze(UsbStorKey(Opened, [
        DeviceKey("Disk&Ven_A", Opened,
          [Healthy("1"), InstanceKey("2", OpenFailed(OSError(PermissionDenied)), Stored("x"), RegQueryInfo(0, 0, 0)), Healthy("3")],
          END),
        DeviceKey("Disk&Ven_B", Opened, [Healthy("4")], END)], END))
      == [Artifact("Disk&Ven_A", "1", "USB Disk", Some(0)), Artifact("Disk&Ven_B", "4", "USB Disk", Some(0))]
  {
    var first := DeviceKey("Disk&Ven_A", Opened,
      [Healthy("1"), InstanceKey("2", OpenFailed(OSError(PermissionDenied)), Stored("x"), RegQueryInfo(0, 0, 0)), Healthy("3")],
      END);
    var second := DeviceKey("Disk&Ven_B", Opened, [Healthy("4")], END);
    InstanceLoopOutcome(first.name, first.instances, END, 1);
    InstanceLoopOutcome(second.name, second.instances, END, 1);
    DeviceLoopOutcome([first, second], END, 2);
    assert [first, second][1..] == [second] && [second][1..] == [];
    assert FoundUnderAll([second]) == FoundUnder(second) + FoundUnderAll([]);
    assert FoundUnderAll([first, second]) == FoundUnder(first) + FoundUnderAll([second]);
  }

  /** A device key that cannot be opened ends the whole walk, keeping what was found. */
  lemma DeviceFailureEndsWalk()
    ensures Analyze(UsbStorKey(Opened, [
        DeviceKey("Disk&Ven_A", Opened, [Healthy("1")], END),
        DeviceKey("Disk&Ven_B", OpenFailed(OSError(FileNotFound)), [Healthy("2")], END),
        DeviceKey("Disk&Ven_C", Opened, [Healthy("3")], END)], END))
      == [Artifact("Disk&Ven_A", "1", "USB Disk", Some(0))]
  {
    var first := DeviceKey("Disk&Ven_A", Opened, [Healthy("1")], END);
    var devices := [first, DeviceKey("Disk&Ven_B", OpenFailed(OSError(FileNotFound)), [Healthy("2")], END),
                    DeviceKey("Disk&Ven_C", Opened, [Healthy("3")], END)];
    InstanceLoopOutcome(first.name, first.instances, END, 1);
    DeviceLoopOutcome(devices, END, 1);
    assert devices[..1] == [first];
  }

  /** A missing FriendlyName gives the generic name; a failed timestamp query gives None. */
  lemma MissingFriendlyName()
    ensures Analyze(UsbStorKey(Opened, [
        DeviceKey("Disk&Ven_A", Opened, [InstanceKey("1", Opened, QueryFailed(OSError(FileNotFound)), RegQueryInfo(6, 0, 0))], END)],
        END))
      == [Artifact("Disk&Ven_A", "1", GENERIC_DRIVER_NAME, None)]
  {
    var device := DeviceKey("Disk&Ven_A", Opened, [InstanceKey("1", Opened, QueryFailed(OSError(FileNotFound)), RegQueryInfo(6, 0, 0))], END);
    InstanceLoopOutcome(device.name, device.instances, END, 1);
    DeviceLoopOutcome([device], END, 1);
  }

  /** A FriendlyName that cannot be read for another reason drops the instance and
      ends its device's loop; the walk itself goes on. */
  lemma UnreadableFriendlyName()
    ensures Analyze(UsbStorKey(Opened, [
        DeviceKey("Disk&Ven_A", Opened,
          [InstanceKey("1", Opened, QueryFailed(OSError(PermissionDenied)), RegQueryInfo(0, 0, 0)), Healthy("2")], END),
        DeviceKey("Disk&Ven_B", Opened, [Healthy("3")], END)],
        END))
      == [Artifact("Disk&Ven_B", "3", "USB Disk", Some(0))]
  {
    var first := DeviceKey("Disk&Ven_A", Opened,
      [InstanceKey("1", Opened, QueryFailed(OSError(PermissionDenied)), RegQueryInfo(0, 0, 0)), Healthy("2")], END);
    var second := DeviceKey("Disk&Ven_B", Opened, [Healthy("3")], END);
    InstanceLoopOutcome(first.name, first.instances, END, 0);
    InstanceLoopOutcome(second.name, second.instances, END, 1);
    DeviceLoopOutcome([first, second], END, 2);
    assert [first, second][1..] == [second] && [second][1..] == [];
    assert FoundUnderAll([second]) == FoundUnder(second) + FoundUnderAll([]);
    assert FoundUnderAll([first, second]) == FoundUnder(first) + FoundUnderAll([second]);
  }

  /** A last-write time past year 9999 raises OverflowError, which throws away
      everything found so far. */
  lemma OverflowDiscardsEverything()
    ensures Analyze(UsbStorKey(Opened, [
        DeviceKey("Disk&Ven_A", Opened, [Healthy("1")], END),
        DeviceKey("Disk&Ven_B", Opened,
          [InstanceKey("2", Opened, Stored("USB Disk"), RegQueryInfo(0, 0xFFFF_FFFF, 0xFFFF_FFFF))], END)], END))
      == []
  {
    var first := DeviceKey("Disk&Ven_A", Opened, [Healthy("1")], END);
    var second := DeviceKey("Disk&Ven_B", Opened,
      [InstanceKey("2", Opened, Stored("USB Disk"), RegQueryInfo(0, 0xFFFF_FFFF, 0xFFFF_FFFF))], END);
    DecodeOverflowEdge();
    InstanceLoopOutcome(first.name, first.instances, END, 1);
    InstanceLoopOutcome(second.name, second.instances, END, 0);
    DeviceLoopOutcome([first, second], END, 1);
  }
}
