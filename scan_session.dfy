/**
 * The scan session of the Bluetooth fragment: the `startScan` toggle and its
 * timeout, and the scan callback that parses each advertising frame, logs the
 * device and keeps one entry per address in the session's device list.
 * The radio, the permission check and the result flow are inputs or ghost
 * state here.
 */
module ScanSession {
  import opened Wrappers
  import opened Text
  import opened Devices
  import opened Advertising
  import opened DeviceLog

  /** What the scanner hands the callback: the device, its signal and the raw advertising bytes. */
  datatype ScanResult = ScanResult(address: string, deviceName: Option<string>, rssi: int32, scanRecord: Option<seq<byte>>)

  // ---------------------------------------------------------------------
  // The session's device list, one entry per address

  predicate HasAddress(list: seq<InfoDevice>, address: string) {
    exists i :: 0 <= i < |list| && list[i].address == address
  }

  /** No two entries share an address. */
  predicate UniqueAddresses(list: seq<InfoDevice>) {
    forall i, j :: 0 <= i < j < |list| ==> list[i].address != list[j].address
  }

  /** `indexOfFirst { it.address == address }`: the first position with that address, or -1. */
  function IndexOfFirst(list: seq<InfoDevice>, address: string): (r: int)
    ensures -1 <= r < |list|
    ensures r == -1 <==> !HasAddress(list, address)
    ensures r >= 0 ==> list[r].address == address && forall i :: 0 <= i < r ==> list[i].address != address
  {
    if list == [] then -1
    else if list[0].address == address then 0
    else
      var k := IndexOfFirst(list[1..], address);
      assert forall i :: 1 <= i < |list| ==> list[1..][i - 1] == list[i];
      if k == -1 then -1 else k + 1
  }

  /** The update `onScanResult` makes to the list: a new address is appended, a known one replaced in place. */
  function Upsert(list: seq<InfoDevice>, d: InfoDevice): seq<InfoDevice> {
    var index := IndexOfFirst(list, d.address);
    if index == -1 then list + [d] else list[index := d]
  }

  /** The entry the list holds for an address, if any. */
  function Lookup(list: seq<InfoDevice>, address: string): Option<InfoDevice> {
    var index := IndexOfFirst(list, address);
    if index == -1 then None else Some(list[index])
  }

  function Addresses(list: seq<InfoDevice>): set<string> {
    set d | d in list :: d.address
  }

  /** The list never gains a second entry for an address. */
  lemma UpsertKeepsAddressesUnique(list: seq<InfoDevice>, d: InfoDevice)
    requires UniqueAddresses(list)
    ensures UniqueAddresses(Upsert(list, d))
  {
    var index := IndexOfFirst(list, d.address);
    var r := Upsert(list, d);
    if index == -1 {
      forall i, j | 0 <= i < j < |r| ensures r[i].address != r[j].address {
        if j == |list| {
          assert r[i] == list[i];
        }
      }
    }
  }

  /** Last writer wins: the new reading is what the list holds for its address; every other address keeps its entry. */
  lemma UpsertLastWriterWins(list: seq<InfoDevice>, d: InfoDevice, address: string)
    requires UniqueAddresses(list)
    ensures Lookup(Upsert(list, d), address) == if address == d.address then Some(d) else Lookup(list, address)
  {
    var index := IndexOfFirst(list, d.address);
    var r := Upsert(list, d);
    UpsertKeepsAddressesUnique(list, d);
    var k := IndexOfFirst(r, address);
    if address == d.address {
      if index == -1 {
        assert r[|list|] == d;
      } else {
        assert r[index] == d;
      }
    } else {
      var k0 := IndexOfFirst(list, address);
      if k0 >= 0 {
        assert r[k0] == list[k0];
      }
      if k >= 0 {
        assert k < |list| && r[k] == list[k];
      }
    }
  }

  /** Existing positions keep their addresses; the list grows by one exactly when the address is new. */
  lemma UpsertKeepsOrder(list: seq<InfoDevice>, d: InfoDevice)
    ensures var r := Upsert(list, d);
      && |r| == (if HasAddress(list, d.address) then |list| else |list| + 1)
      && (forall i :: 0 <= i < |list| ==> r[i].address == list[i].address)
      && Addresses(r) == Addresses(list) + {d.address}
  {
    var r := Upsert(list, d);
    var index := IndexOfFirst(list, d.address);
    forall a | a in Addresses(list) + {d.address} ensures a in Addresses(r) {
      if a == d.address {
        assert index == -1 ==> r[|list|] == d;
        assert index >= 0 ==> r[index] == d;
      } else {
        var x :| x in list && x.address == a;
        var i :| 0 <= i < |list| && list[i] == x;
        assert r[i] == x;
      }
    }
    forall a | a in Addresses(r) ensures a in Addresses(list) + {d.address} {
      var x :| x in r && x.address == a;
      var i :| 0 <= i < |r| && r[i] == x;
      assert i < |list| && i != index ==> r[i] == list[i];
    }
  }

  // ---------------------------------------------------------------------
  // What one scan callback records

  /**
   * The entry a callback builds from a result: none when the result or its
   * scan record is missing or the parser faults; otherwise the name falls back
   * to the address and the beacon is the first extracted payload, or "".
   */
  function Observe(result: Option<ScanResult>, manufacturers: Option<seq<int>>): Option<InfoDevice> {
    if result.None? || result.value.scanRecord.None? then None
    else
      var scan := result.value;
      match Parse(scan.scanRecord.value, manufacturers)
      case IndexFault => None
      case Parsed(records) =>
        Some(InfoDevice(scan.address, scan.deviceName.GetOr(scan.address),
                        if records == [] then "" else records[0], scan.rssi))
  }

  /**
   * A frame with a manufacturer record is logged with that record's payload;
   * the same frame under a filter that lacks its id is still logged, with an
   * empty beacon; a frame whose last record is a truncated 0xFF record is dropped.
   */
  lemma ObserveExamples()
    ensures Observe(Some(ScanResult("A", None, -60, Some([4, 0xFF, 0x4C, 0, 0xAB]))), None)
         == Some(InfoDevice("A", "A", "ab", -60))
    ensures Observe(Some(ScanResult("A", Some("tag"), -60, Some([4, 0xFF, 0x4C, 0, 0xAB]))), Some([0x0099]))
         == Some(InfoDevice("A", "tag", "", -60))
    ensures Observe(Some(ScanResult("A", None, -60, Some([3, 0xFF, 0x4C]))), None) == None
  {
    ParseExamples();
    ParseFaultOnlyAtLastRecord([3, 0xFF, 0x4C], None);
    assert Cursors([3, 0xFF, 0x4C], 0)[0] == 0 by {
      CursorsAdvance([3, 0xFF, 0x4C], 0);
    }
  }

  /** Under a filter that accepts no id, every frame that is kept carries an empty beacon. */
  lemma ObserveEmptyFilter(result: Option<ScanResult>)
    ensures Observe(result, Some([])).Some? ==> Observe(result, Some([])).value.beacon == ""
  {
    if result.Some? && result.value.scanRecord.Some? {
      ParseFilterOnlyRemoves(result.value.scanRecord.value, []);
    }
  }

  /** Whether a frame is dropped does not depend on the filter: the fault comes before the filter test. */
  lemma ObserveDropIndependentOfFilter(result: Option<ScanResult>, m1: Option<seq<int>>, m2: Option<seq<int>>)
    ensures Observe(result, m1).None? <==> Observe(result, m2).None?
  {
    if result.Some? && result.value.scanRecord.Some? {
      if m1.Some? {
        ParseFilterOnlyRemoves(result.value.scanRecord.value, m1.value);
      }
      if m2.Some? {
        ParseFilterOnlyRemoves(result.value.scanRecord.value, m2.value);
      }
    }
  }

  // ---------------------------------------------------------------------
  // The fragment

  class HiddenFragBluetooth {
    var isScanning: bool
    var manufacturerList: Option<seq<int>>
    var listDeviceInfo: seq<InfoDevice>
    /** The device log, created when the fragment is attached. */
    const logManager: LogDevicesScanned
    /** Every scan result published to subscribers, in order. */
    ghost var emitted: seq<ScanResult>
    /** Timeouts posted by `startScan` that have not fired yet; nothing ever cancels one. */
    ghost var pendingTimeouts: nat

    ghost predicate Valid()
      reads this, logManager
    {
      logManager.Valid() && UniqueAddresses(listDeviceInfo)
    }

    /** Attachment: the log is opened over the existing file with its default flush interval and buffer size. */
    constructor (file: seq<string>, now: int)
      ensures Valid()
      ensures !isScanning && manufacturerList == None && listDeviceInfo == []
      ensures emitted == [] && pendingTimeouts == 0
      ensures fresh(logManager)
      ensures logManager.State() == LoadSpec(EmptyStore(file, now), file)
      ensures logManager.flushIntervalMs == DefaultFlushIntervalMs && logManager.bufferSize == DefaultBufferSize
    {
      isScanning := false;
      manufacturerList := None;
      listDeviceInfo := [];
      emitted := [];
      pendingTimeouts := 0;
      logManager := new LogDevicesScanned(file, now, DefaultFlushIntervalMs, DefaultBufferSize);
    }

    /**
     * `startScan`, a toggle. Without the permissions nothing changes and the
     * answer is false. A running scan is stopped, its filter dropped, and the
     * answer is false. Otherwise a scan starts with an empty device list, the
     * filter is replaced only when one is given, a timeout is posted when one
     * is given, and the answer is true.
     */
    method StartScan(permitted: bool, timeout: Option<int>, manufacturerFilter: Option<seq<int>>) returns (started: bool)
      requires Valid()
      modifies this
      ensures Valid()
      ensures started <==> permitted && !old(isScanning)
      ensures !permitted ==>
        isScanning == old(isScanning) && manufacturerList == old(manufacturerList)
        && listDeviceInfo == old(listDeviceInfo) && pendingTimeouts == old(pendingTimeouts)
      ensures permitted && old(isScanning) ==>
        !isScanning && manufacturerList == None
        && listDeviceInfo == old(listDeviceInfo) && pendingTimeouts == old(pendingTimeouts)
      ensures permitted && !old(isScanning) ==>
        isScanning && listDeviceInfo == []
        && manufacturerList == (if manufacturerFilter.Some? then manufacturerFilter else old(manufacturerList))
        && pendingTimeouts == old(pendingTimeouts) + (if timeout.Some? then 1 else 0)
      ensures emitted == old(emitted)
    {
      if !permitted {
        return false;
      }
      if isScanning {
        isScanning := false;
        manufacturerList := None;
        return false;
      } else {
        isScanning := true;
        listDeviceInfo := [];
        if manufacturerFilter.Some? {
          manufacturerList := manufacturerFilter;
        }
        if timeout.Some? {
          pendingTimeouts := pendingTimeouts + 1;
        }
        return true;
      }
    }

    /** A posted timeout fires: the scan stops; the filter and the device list stay. */
    method OnTimeout()
      requires Valid() && pendingTimeouts > 0
      modifies this
      ensures Valid()
      ensures !isScanning && pendingTimeouts == old(pendingTimeouts) - 1
      ensures manufacturerList == old(manufacturerList) && listDeviceInfo == old(listDeviceInfo)
      ensures emitted == old(emitted)
    {
      isScanning := false;
      pendingTimeouts := pendingTimeouts - 1;
    }

    /**
     * `onScanResult`, with `now` the clock `addLog` reads. A missing result or
     * scan record, or a frame the parser faults on, changes nothing. Otherwise
     * the entry is logged, the result published, and the device list updated
     * by address. The scan state is not consulted.
     */
    method OnScanResult(result: Option<ScanResult>, now: int)
      requires Valid()
      modifies this, logManager
      ensures Valid()
      ensures isScanning == old(isScanning) && manufacturerList == old(manufacturerList)
      ensures pendingTimeouts == old(pendingTimeouts)
      ensures Observe(result, old(manufacturerList)).None? ==>
        listDeviceInfo == old(listDeviceInfo) && emitted == old(emitted)
        && logManager.State() == old(logManager.State())
      ensures Observe(result, old(manufacturerList)).Some? ==>
        var device := Observe(result, old(manufacturerList)).value;
        && listDeviceInfo == Upsert(old(listDeviceInfo), device)
        && emitted == old(emitted) + [result.value]
        && logManager.State()
           == AddLogSpec(old(logManager.State()), device, now, logManager.flushIntervalMs, logManager.bufferSize)
    {
      if result.None? {
        return;
      }
      var scan := result.value;
      if scan.scanRecord.None? {
        return;
      }
      var address := scan.address;
      var name := scan.deviceName.GetOr(address);
      var parsed := ParseBeaconBytes(scan.scanRecord.value, manufacturerList);
      if parsed.IndexFault? {
        return;
      }
      var beacon := if parsed.records == [] then "" else parsed.records[0];
      var device := InfoDevice(address, name, beacon, scan.rssi);
      logManager.AddLog(device, now);
      emitted := emitted + [scan];
      var index := IndexOfFirst(listDeviceInfo, address);
      UpsertKeepsAddressesUnique(listDeviceInfo, device);
      if index == -1 {
        listDeviceInfo := listDeviceInfo + [device];
      } else {
        listDeviceInfo := listDeviceInfo[index := device];
      }
    }

    /** Destruction flushes the log's buffer. */
    method OnDestroy(now: int)
      requires Valid()
      modifies logManager
      ensures Valid()
      ensures logManager.State() == FlushSpec(old(logManager.State()), now)
    {
      logManager.Flush(now);
    }
  }

  // ---------------------------------------------------------------------
  // Sessions

  /** Two calls in a row start a scan and then stop it. */
  method StartTwice(file: seq<string>, now: int) returns (first: bool, second: bool, scanning: bool)
    ensures first && !second && !scanning
  {
    var frag := new HiddenFragBluetooth(file, now);
    first := frag.StartScan(true, None, None);
    second := frag.StartScan(true, None, None);
    scanning := frag.isScanning;
  }

  /**
   * A timeout leaves the filter in place, so a later scan started without a
   * filter still filters; stopping by the toggle drops it.
   */
  method FilterSurvivesTimeout(file: seq<string>, now: int) returns (afterTimeout: Option<seq<int>>, afterToggle: Option<seq<int>>)
    ensures afterTimeout == Some([0x004C])
    ensures afterToggle == None
  {
    var frag := new HiddenFragBluetooth(file, now);
    var _ := frag.StartScan(true, Some(10000), Some([0x004C]));
    frag.OnTimeout();
    var _ := frag.StartScan(true, None, None);
    afterTimeout := frag.manufacturerList;
    var _ := frag.StartScan(true, None, None);
    afterToggle := frag.manufacturerList;
  }

  /**
   * A timeout posted by a scan that was stopped by hand still fires, and ends
   * the next scan early.
   */
  method StaleTimeoutStopsNextScan(file: seq<string>, now: int) returns (restarted: bool, scanningAfterTimeout: bool)
    ensures restarted && !scanningAfterTimeout
  {
    var frag := new HiddenFragBluetooth(file, now);
    var _ := frag.StartScan(true, Some(10000), None);
    var _ := frag.StartScan(true, None, None);
    restarted := frag.StartScan(true, None, None);
    frag.OnTimeout();
    scanningAfterTimeout := frag.isScanning;
  }

  /** A frame delivered after the scan stopped is still recorded. */
  method FrameAfterStop(now: int) returns (devices: seq<InfoDevice>)
    ensures devices == [InfoDevice("A", "A", "ab", -60)]
  {
    var frag := new HiddenFragBluetooth([], now);
    var _ := frag.StartScan(true, None, None);
    var _ := frag.StartScan(true, None, None);
    ObserveExamples();
    frag.OnScanResult(Some(ScanResult("A", None, -60, Some([4, 0xFF, 0x4C, 0, 0xAB]))), now);
    devices := frag.listDeviceInfo;
  }
}
