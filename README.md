# BLE scan core: advertisement parser, scan session and device log

This project is a Dafny model of the core of a small Android Bluetooth Low
Energy library. It covers two source files.

`HiddenFragBluetooth.kt` is the scanning fragment:
- `parseBeaconBytes` walks the AD structures (`[length][type][data…]`, Bluetooth
  Core Specification, Vol 3, Part C, Section 11) of a raw advertising frame. It
  extracts the Manufacturer Specific Data records (AD type 0xFF), which may be
  filtered by their little-endian 16-bit company id, as lowercase hex strings.
- `hexStringToByteArray` decodes a hex text into a byte array.
- `startScan` is a toggle, and an optional timeout stops the scan later.
- the scan callback `onScanResult` parses each frame, logs the device, publishes
  the result and keeps one entry per address in the session's device list.

`LogDevicesScanned.kt` is the durable device log:
- an in-memory FIFO list capped at 3000 entries;
- a set of serialized lines used to drop exact duplicates;
- two indices, by name and by address;
- a write buffer appended to `ScannedDevices.txt`. Only `addLog` decides to
  flush: after inserting, it flushes when the buffer is full or the last flush
  is older than the flush interval. Nothing flushes on a timer, so an idle
  store keeps its buffer until the next `addLog` or until `onDestroy`;
- a `;`-separated line format that is read back when the log is created.

Files:
- `wrappers.dfy`: `Option`.
- `text.dfy`: the Kotlin and Java library behaviour the core relies on:
  - `Character.digit`;
  - `Int.toString` and `String.toIntOrNull`;
  - `String.split` on one character.
- `advertising.dfy`: hex encoding and decoding, and the frame parser. The parser
  is specified by an independent reference:
  - `Cursors` lists the record starts the walk visits;
  - `Extracted` concatenates what each record contributes;
  - `Parse` is the fault or that concatenation.
  The loop in `WalkRecords` is proved to follow `Resume`, a record-by-record
  reading of the walk, and `ResumeAgrees` proves that reading equal to `Parse`.
- `devices.dfy`: `InfoDevice`.
- `device_log.dfy`: the class `LogDevicesScanned` and the pure specification of
  its state:
  - `StoreState`;
  - `AddLogSpec`, `FlushSpec` and `LoadSpec`;
  - the invariants `StoreValid` and `Consistent`.
  Each method is proved to move `State()` exactly as its specification says.
  The lemmas prove what those specifications promise.
- `scan_session.dfy`: the class `HiddenFragBluetooth` (scan state, device list,
  log), the by-address upsert and its lemmas, and short sessions that pin down
  the toggle and timeout behaviour.

Bytes are integers 0..255 (the bit pattern of Kotlin's signed `Byte`). `toByte()`
keeps the low eight bits. The backing file is a sequence of lines (an absent
file reads as no lines). The clock is a `now` parameter. The radio, the
permission check and the result flow are inputs or ghost state: a `permitted`
flag, a ghost count of posted timeouts, and a ghost list of published results.

Behaviours of the code that the model keeps as written:
- Eviction removes the evicted entry's name and address keys unconditionally
  (LogDevicesScanned.kt:101-102). So an entry just added, or still in the log,
  can become unreachable through an index (`AddLogEvictionForgetsSharedAddress`).
- `onScanResult` does not consult `isScanning` (HiddenFragBluetooth.kt:307-345).
  A frame delivered after the scan stopped is still logged and listed
  (`FrameAfterStop`).
- The timeout posted by `startScan` is never cancelled
  (HiddenFragBluetooth.kt:198-203), so it can end a later scan
  (`StaleTimeoutStopsNextScan`). It only clears `isScanning`; the filter
  survives into the next scan (`FilterSurvivesTimeout`).
- `parseBeaconBytes` throws `IndexOutOfBoundsException` when a 0xFF record with
  length >= 3 starts in the last two or three bytes (HiddenFragBluetooth.kt:363-366).
  The callback catches it and drops the whole frame: nothing is logged,
  published or listed (`ParseFaultOnlyAtLastRecord`, `OnScanResult`).
- `deleteAllLine` only empties the file (LogDevicesScanned.kt:124-126); memory,
  the set, the indices and the buffer stay as they were.
- An entry with a ';' in its address, name or beacon is logged, indexed and
  flushed, but its line then has more than four fields, so `deserialize`
  rejects it on reload (LogDevicesScanned.kt:49-55). A later load reads only
  the other buffered entries (`SerializeReadable`, `FlushLosesSeparatorEntries`).
- `loadLogs` neither removes duplicate lines nor applies the 3000-entry cap
  (LogDevicesScanned.kt:64-75, `LoadDoesNotDeduplicate`).

In the `Bluetooth.kt` facade, `findDeviceByAddress` forwards to the fragment's
`findDeviceByName` (Bluetooth.kt:76). The facade is not part of this model.

## Model

| member | source | states |
|---|---|---|
| Text.Digit | bluetooth/src/main/java/yaz/lib/bluetooth/HiddenFragBluetooth.kt:288-289 | `Character.digit` yields -1 or a digit below the radix; an ASCII decimal digit yields its value in a radix of at least 10 |
| Text.DecimalChar | bluetooth/src/main/java/yaz/lib/bluetooth/LogDevicesScanned.kt:50 | the character written for a decimal digit reads back as that digit |
| Text.IntToString | bluetooth/src/main/java/yaz/lib/bluetooth/LogDevicesScanned.kt:50 | an Int is written in decimal with no leading zero, preceded by '-' when negative and by no sign otherwise |
| Text.NatToStringIsDecimal | bluetooth/src/main/java/yaz/lib/bluetooth/LogDevicesScanned.kt:50 | the decimal text of a natural number is non-empty, all digits, and denotes that number |
| Text.IntToStringRoundTrip | bluetooth/src/main/java/yaz/lib/bluetooth/LogDevicesScanned.kt:50-60 | `toIntOrNull` of the text `toString` writes for any 32-bit Int gives that Int back |
| Text.IntToStringHasNoSeparator | bluetooth/src/main/java/yaz/lib/bluetooth/LogDevicesScanned.kt:50 | the text of an Int holds no character other than '-' and digits, so never the field separator |
| Text.ToIntOrNull | bluetooth/src/main/java/yaz/lib/bluetooth/LogDevicesScanned.kt:60 | an optional '+' or '-' followed by at least one decimal digit gives its value when that value fits in 32 bits; any other text gives no value |
| Text.Split | bluetooth/src/main/java/yaz/lib/bluetooth/LogDevicesScanned.kt:54 | `split` always yields at least one piece |
| Text.CountConcat | bluetooth/src/main/java/yaz/lib/bluetooth/LogDevicesScanned.kt:54 | separators in a concatenation add up; a text holds a separator exactly when its count is positive |
| Text.SplitCount | bluetooth/src/main/java/yaz/lib/bluetooth/LogDevicesScanned.kt:54-55 | splitting yields exactly one more piece than there are separators (empty pieces are kept) |
| Text.JoinSplit | bluetooth/src/main/java/yaz/lib/bluetooth/LogDevicesScanned.kt:54 | the pieces joined with the separator give the line back |
| Text.SplitPiecesOmitSeparator | bluetooth/src/main/java/yaz/lib/bluetooth/LogDevicesScanned.kt:54 | no piece of a split holds the separator |
| Text.SplitJoin | bluetooth/src/main/java/yaz/lib/bluetooth/LogDevicesScanned.kt:50-54 | separator-free fields joined and split again give the same fields |
| Advertising.HexChar | bluetooth/src/main/java/yaz/lib/bluetooth/HiddenFragBluetooth.kt:371 | each nibble is written as a lowercase hex digit that `Character.digit(·, 16)` reads back as that nibble |
| Advertising.HexEncode | bluetooth/src/main/java/yaz/lib/bluetooth/HiddenFragBluetooth.kt:371 | `toHexString` writes two characters per byte |
| Advertising.HexEncodeAt | bluetooth/src/main/java/yaz/lib/bluetooth/HiddenFragBluetooth.kt:371 | characters 2k and 2k+1 are the high and the low nibble of byte k |
| Advertising.DecodeHex | bluetooth/src/main/java/yaz/lib/bluetooth/HiddenFragBluetooth.kt:280-292 | an odd-length text gives no bytes; an even-length text of n characters gives n/2 bytes, byte k being `(digit(s[2k])*16 + digit(s[2k+1]))` truncated to eight bits |
| Advertising.DecodeHexRoundTrip | bluetooth/src/main/java/yaz/lib/bluetooth/HiddenFragBluetooth.kt:280-292 | decoding the hex text of any bytes gives those bytes back |
| Advertising.DecodeHexNonDigits | bluetooth/src/main/java/yaz/lib/bluetooth/HiddenFragBluetooth.kt:282-289 | non-hex characters are not rejected: "zz" decodes to 0xEF through two -1 digits; "abc" decodes to nothing |
| Advertising.HexStringToByteArray | bluetooth/src/main/java/yaz/lib/bluetooth/HiddenFragBluetooth.kt:280-292 | the stepped loop fills a fresh array whose contents are `DecodeHex` of the text |
| Advertising.ManufacturerId | bluetooth/src/main/java/yaz/lib/bluetooth/HiddenFragBluetooth.kt:365-366 | the company id is a 16-bit value (low byte first) |
| Advertising.Cursors | bluetooth/src/main/java/yaz/lib/bluetooth/HiddenFragBluetooth.kt:354-374 | the walk starts at 0, stops at a zero length byte or when the type byte would be past the end, and otherwise moves on by length + 1 |
| Advertising.Extracted | bluetooth/src/main/java/yaz/lib/bluetooth/HiddenFragBluetooth.kt:363-372 | a visited record contributes the hex of its payload when it is a 0xFF record with length >= 3 whose company id the filter accepts, and nothing otherwise; contributions are concatenated in walk order |
| Advertising.Parse | bluetooth/src/main/java/yaz/lib/bluetooth/HiddenFragBluetooth.kt:349-377 | the frame faults when some visited record is a 0xFF record with length >= 3 whose id read runs past the end; otherwise it yields what the visited records contribute |
| Advertising.CursorsAdvance | bluetooth/src/main/java/yaz/lib/bluetooth/HiddenFragBluetooth.kt:354-374 | every record the walk visits has a non-zero length byte and a type byte inside the frame; the walk stops at a zero length or when the type byte would be past the end, and otherwise moves by length+1 >= 2 |
| Advertising.CursorsBound | bluetooth/src/main/java/yaz/lib/bluetooth/HiddenFragBluetooth.kt:354-374 | the walk visits at most half as many records as there are bytes, so it terminates |
| Advertising.ParseExamples | bluetooth/src/main/java/yaz/lib/bluetooth/HiddenFragBluetooth.kt:349-377 | `[04 FF 4C 00 AB]` gives `["ab"]`, `[00]` gives nothing, and the first frame under filter `[0x0099]` gives nothing |
| Advertising.ParseFaultOnlyAtLastRecord | bluetooth/src/main/java/yaz/lib/bluetooth/HiddenFragBluetooth.kt:363-370 | the parse faults exactly when the last visited record is a 0xFF record with length >= 3 whose id read runs off the end; that record starts in the last two or three bytes |
| Advertising.ParseCount | bluetooth/src/main/java/yaz/lib/bluetooth/HiddenFragBluetooth.kt:354-375 | a frame of n bytes yields at most n/2 strings |
| Advertising.ExtractedFiltered | bluetooth/src/main/java/yaz/lib/bluetooth/HiddenFragBluetooth.kt:367-371 | over the same records, a filter only removes outputs, and an empty filter keeps none |
| Advertising.ParseFilterOnlyRemoves | bluetooth/src/main/java/yaz/lib/bluetooth/HiddenFragBluetooth.kt:363-374 | a filter never changes whether the frame faults (the cursor still advances past rejected records); it only removes strings; an empty filter yields nothing |
| Advertising.Resume | bluetooth/src/main/java/yaz/lib/bluetooth/HiddenFragBluetooth.kt:354-375 | the walk from a cursor, as one record step at a time: no record there ends it with the output so far, a faulting record ends it with the fault, any other record adds its output and moves the cursor on by length + 1 |
| Advertising.ResumeAgrees | bluetooth/src/main/java/yaz/lib/bluetooth/HiddenFragBluetooth.kt:354-375 | resuming the walk at any cursor with any output so far gives the fault exactly when a record visited from there faults, and otherwise that output followed by what the visited records contribute |
| Advertising.ParseIsResumeFromStart | bluetooth/src/main/java/yaz/lib/bluetooth/HiddenFragBluetooth.kt:350-351 | the parse of a frame is the walk from cursor 0 with no output yet |
| Advertising.ReadRecord | bluetooth/src/main/java/yaz/lib/bluetooth/HiddenFragBluetooth.kt:361-373 | reading one record faults exactly when it is a 0xFF record with length >= 3 whose id runs off the end; otherwise it yields that record's output under the filter |
| Advertising.WalkRecords | bluetooth/src/main/java/yaz/lib/bluetooth/HiddenFragBluetooth.kt:350-376 | the cursor loop returns what the walk from cursor 0 with no output gives |
| Advertising.ParseBeaconBytes | bluetooth/src/main/java/yaz/lib/bluetooth/HiddenFragBluetooth.kt:349-377 | the parser returns exactly `Parse`: the fault, or the accepted payloads in frame order |
| DeviceLog.Serialize | bluetooth/src/main/java/yaz/lib/bluetooth/LogDevicesScanned.kt:49-51 | an entry is written as its address, name, beacon and rssi in that order, separated by ';', the number as `toString` writes it |
| DeviceLog.Deserialize | bluetooth/src/main/java/yaz/lib/bluetooth/LogDevicesScanned.kt:53-62 | a line is split at every ';'; exactly four pieces give an entry (address, name, beacon, and the number read by `toIntOrNull` or 0); any other count gives none |
| DeviceLog.DeserializeShape | bluetooth/src/main/java/yaz/lib/bluetooth/LogDevicesScanned.kt:53-62 | a line is read exactly when it has three separators (four fields); the text fields hold no separator; a non-numeric last field reads as rssi 0 |
| DeviceLog.DeserializeSerialize | bluetooth/src/main/java/yaz/lib/bluetooth/LogDevicesScanned.kt:49-62 | any entry whose address, name and beacon hold no ';' reads back as itself |
| DeviceLog.SerializeDeserialize | bluetooth/src/main/java/yaz/lib/bluetooth/LogDevicesScanned.kt:49-62 | a readable line whose number is written the way `toString` writes it is written back unchanged |
| DeviceLog.SerializeAll | bluetooth/src/main/java/yaz/lib/bluetooth/LogDevicesScanned.kt:114 | flush writes one line per buffered entry, in buffer order |
| DeviceLog.LoadedSerializeAll | bluetooth/src/main/java/yaz/lib/bluetooth/LogDevicesScanned.kt:64-75 | the lines flush writes for separator-free entries load back as those entries, in order |
| DeviceLog.SerializeReadable | bluetooth/src/main/java/yaz/lib/bluetooth/LogDevicesScanned.kt:49-55 | the line written for an entry is read back exactly when its address, name and beacon hold no ';' |
| DeviceLog.SerializedSeparators | bluetooth/src/main/java/yaz/lib/bluetooth/LogDevicesScanned.kt:49-51 | the written line holds three separators plus those of the address, name and beacon |
| DeviceLog.Readable | bluetooth/src/main/java/yaz/lib/bluetooth/LogDevicesScanned.kt:53-55 | the entries of a run that hold no ';' in a text field: each of them, and nothing else |
| DeviceLog.LoadedSerializeAllReadable | bluetooth/src/main/java/yaz/lib/bluetooth/LogDevicesScanned.kt:64-75 | the lines flush writes for any run load back as its entries without a ';' in a text field, in order |
| DeviceLog.FlushLosesSeparatorEntries | bluetooth/src/main/java/yaz/lib/bluetooth/LogDevicesScanned.kt:111-118 | for any buffer, a load after flush reads the file's old entries then the buffered entries without a ';' in a text field; the others are lost |
| DeviceLog.LoadedConcat | bluetooth/src/main/java/yaz/lib/bluetooth/LogDevicesScanned.kt:67-74 | loading a file reads its parts one after the other |
| DeviceLog.FlushPersistsBuffer | bluetooth/src/main/java/yaz/lib/bluetooth/LogDevicesScanned.kt:111-118 | an empty buffer makes flush a no-op; otherwise a later load reads the file's old entries then the buffered ones, when no buffered entry has a ';' in its address, name or beacon; the buffer is empty, the flush time is `now`, and log, set and indices are untouched |
| DeviceLog.FlushSpec | bluetooth/src/main/java/yaz/lib/bluetooth/LogDevicesScanned.kt:111-118 | an empty buffer changes nothing; otherwise the buffered entries' lines are appended to the file in buffer order, the buffer is emptied and the flush time becomes `now`; memory is untouched |
| DeviceLog.Latest | bluetooth/src/main/java/yaz/lib/bluetooth/LogDevicesScanned.kt:90-93 | the latest entry with a key is an entry of the log with that key |
| DeviceLog.LatestDropOldest | bluetooth/src/main/java/yaz/lib/bluetooth/LogDevicesScanned.kt:98-103 | dropping old entries that do not carry a key leaves that key's latest entry unchanged |
| DeviceLog.InsertEvictKeepsIndex | bluetooth/src/main/java/yaz/lib/bluetooth/LogDevicesScanned.kt:90-103 | inserting an entry and removing every evicted key keeps each remaining index entry the latest for its key |
| DeviceLog.SerializationsSuffix | bluetooth/src/main/java/yaz/lib/bluetooth/LogDevicesScanned.kt:98-100 | in a log without repeated lines, evicting a prefix removes exactly the prefix's lines from the set |
| DeviceLog.Insert | bluetooth/src/main/java/yaz/lib/bluetooth/LogDevicesScanned.kt:90-103 | the entry is appended to log and buffer, its line joins the set and both indices point at it; then the entries beyond 3000 are dropped oldest first, each removing its line and both its keys |
| DeviceLog.AddLogSpec | bluetooth/src/main/java/yaz/lib/bluetooth/LogDevicesScanned.kt:85-109 | an entry whose line is in the set changes nothing; otherwise `Insert`, then `FlushSpec` when the last flush is older than the interval or the buffer has reached its size |
| DeviceLog.AddLogDuplicateIsNoOp | bluetooth/src/main/java/yaz/lib/bluetooth/LogDevicesScanned.kt:85-88 | an entry whose line is already in the set changes nothing: log, set, indices, buffer, clock, file |
| DeviceLog.AddLogAppends | bluetooth/src/main/java/yaz/lib/bluetooth/LogDevicesScanned.kt:90-103 | a new entry becomes the newest of the log, which then holds min(n+1, 3000) entries; below the cap it is indexed under its name and its address |
| DeviceLog.AddLogEvictsOldest | bluetooth/src/main/java/yaz/lib/bluetooth/LogDevicesScanned.kt:98-103 | eviction removes the oldest entries; each evicted entry's line leaves the set and its name and address leave both indices |
| DeviceLog.AddLogEvictionForgetsSharedAddress | bluetooth/src/main/java/yaz/lib/bluetooth/LogDevicesScanned.kt:93-102 | when the evicted oldest entry shares the new entry's address, the address key is gone although the new entry is in the log |
| DeviceLog.AddLogKeepsValid | bluetooth/src/main/java/yaz/lib/bluetooth/LogDevicesScanned.kt:85-109 | addLog keeps both indices pointing at the latest entry for each key they hold, and keeps the buffer shorter than `bufferSize` |
| DeviceLog.AddLogKeepsConsistent | bluetooth/src/main/java/yaz/lib/bluetooth/LogDevicesScanned.kt:85-103 | if the set is exactly the log's lines and no two entries share a line, addLog keeps both |
| DeviceLog.AddLogPersistsOrBuffers | bluetooth/src/main/java/yaz/lib/bluetooth/LogDevicesScanned.kt:95-117 | after addLog, file plus buffer hold what they held plus the new line (evicted entries stay buffered), and the file only grows |
| DeviceLog.LoadLine | bluetooth/src/main/java/yaz/lib/bluetooth/LogDevicesScanned.kt:67-73 | a readable line appends its entry to the log, its line to the set and points both indices at the entry; an unreadable line changes nothing |
| DeviceLog.LoadSpec | bluetooth/src/main/java/yaz/lib/bluetooth/LogDevicesScanned.kt:64-75 | the lines are read one by one in file order |
| DeviceLog.LoadSpecContents | bluetooth/src/main/java/yaz/lib/bluetooth/LogDevicesScanned.kt:64-75 | loading appends the readable lines' entries in file order and adds their lines to the set; buffer, clock and file stay |
| DeviceLog.LoadKeepsValid | bluetooth/src/main/java/yaz/lib/bluetooth/LogDevicesScanned.kt:64-75 | loading keeps each index entry the latest for its key |
| DeviceLog.LoadIndexKeys | bluetooth/src/main/java/yaz/lib/bluetooth/LogDevicesScanned.kt:71-72 | after loading, the name index holds its old keys plus the name of every loaded entry, and the address index likewise |
| DeviceLog.LoadedEntriesFindable | bluetooth/src/main/java/yaz/lib/bluetooth/LogDevicesScanned.kt:64-83 | from a valid store, every loaded entry is found by its name and by its address, and what is found is the latest entry with that key |
| DeviceLog.LoadDoesNotDeduplicate | bluetooth/src/main/java/yaz/lib/bluetooth/LogDevicesScanned.kt:64-75 | a file with the same line twice loads two equal entries, breaking the no-repeat invariant |
| DeviceLog.LoadConsistentWhenDistinct | bluetooth/src/main/java/yaz/lib/bluetooth/LogDevicesScanned.kt:27-75 | a fresh store over a file without repeated entries starts with the set equal to the log's lines and no repeats |
| DeviceLog.LogDevicesScanned.constructor | bluetooth/src/main/java/yaz/lib/bluetooth/LogDevicesScanned.kt:27-47 | the store starts empty with the clock read, then loads the file |
| DeviceLog.LogDevicesScanned.LoadLogs | bluetooth/src/main/java/yaz/lib/bluetooth/LogDevicesScanned.kt:64-75 | the loop moves the state exactly as `LoadSpec` over the file's lines, keeping the invariant |
| DeviceLog.LogDevicesScanned.FindDeviceByName | bluetooth/src/main/java/yaz/lib/bluetooth/LogDevicesScanned.kt:77-79 | a hit is the latest logged entry with that name; a miss means the key is not indexed |
| DeviceLog.LogDevicesScanned.FindDeviceByAddress | bluetooth/src/main/java/yaz/lib/bluetooth/LogDevicesScanned.kt:81-83 | a hit is the latest logged entry with that address; a miss means the key is not indexed |
| DeviceLog.LogDevicesScanned.AddLog | bluetooth/src/main/java/yaz/lib/bluetooth/LogDevicesScanned.kt:85-109 | the method moves the state exactly as `AddLogSpec` and keeps the invariant |
| DeviceLog.LogDevicesScanned.EvictOldest | bluetooth/src/main/java/yaz/lib/bluetooth/LogDevicesScanned.kt:98-103 | the eviction loop drops the entries beyond 3000, oldest first, with their lines and both keys; buffer, clock and file stay |
| DeviceLog.LogDevicesScanned.Flush | bluetooth/src/main/java/yaz/lib/bluetooth/LogDevicesScanned.kt:111-118 | the method moves the state exactly as `FlushSpec` and keeps the invariant |
| DeviceLog.LogDevicesScanned.ReadLog | bluetooth/src/main/java/yaz/lib/bluetooth/LogDevicesScanned.kt:120-122 | the copy returned equals the log |
| DeviceLog.LogDevicesScanned.DeleteAllLine | bluetooth/src/main/java/yaz/lib/bluetooth/LogDevicesScanned.kt:124-126 | the file becomes empty; everything in memory stays |
| ScanSession.IndexOfFirst | bluetooth/src/main/java/yaz/lib/bluetooth/HiddenFragBluetooth.kt:333 | -1 exactly when no entry has the address; otherwise the first position with it |
| ScanSession.Upsert | bluetooth/src/main/java/yaz/lib/bluetooth/HiddenFragBluetooth.kt:333-341 | the device replaces the first entry with its address, or is appended when no entry has it |
| ScanSession.UpsertKeepsAddressesUnique | bluetooth/src/main/java/yaz/lib/bluetooth/HiddenFragBluetooth.kt:333-341 | the device list never holds two entries with one address |
| ScanSession.UpsertLastWriterWins | bluetooth/src/main/java/yaz/lib/bluetooth/HiddenFragBluetooth.kt:333-341 | after an update the list holds the new reading for its address and the old entry for every other address |
| ScanSession.UpsertKeepsOrder | bluetooth/src/main/java/yaz/lib/bluetooth/HiddenFragBluetooth.kt:333-341 | an unseen address is appended and a seen one replaced in place: positions keep their addresses and the address set gains only the new one |
| ScanSession.Observe | bluetooth/src/main/java/yaz/lib/bluetooth/HiddenFragBluetooth.kt:309-327 | a missing result or scan record, or a parse fault, gives no entry; otherwise the entry has the result's address, its name or else its address, the first payload or "", and its rssi |
| ScanSession.ObserveExamples | bluetooth/src/main/java/yaz/lib/bluetooth/HiddenFragBluetooth.kt:311-343 | the name falls back to the address and the beacon is the first payload or ""; a frame ending in a truncated 0xFF record is dropped |
| ScanSession.ObserveEmptyFilter | bluetooth/src/main/java/yaz/lib/bluetooth/HiddenFragBluetooth.kt:320-321 | under an empty filter every kept frame is logged with an empty beacon |
| ScanSession.ObserveDropIndependentOfFilter | bluetooth/src/main/java/yaz/lib/bluetooth/HiddenFragBluetooth.kt:319-343 | whether a frame is dropped does not depend on the filter |
| ScanSession.HiddenFragBluetooth.constructor | bluetooth/src/main/java/yaz/lib/bluetooth/HiddenFragBluetooth.kt:85-132 | the fragment starts stopped, unfiltered, with an empty list and a log opened with a 5000 ms interval and a 50-entry buffer |
| ScanSession.HiddenFragBluetooth.StartScan | bluetooth/src/main/java/yaz/lib/bluetooth/HiddenFragBluetooth.kt:162-206 | it returns true exactly when permitted and not scanning. Without permission nothing changes. Stopping clears `isScanning` and the filter. Starting sets `isScanning`, clears the list, replaces the filter only when one is given, and posts a timeout when one is given |
| ScanSession.HiddenFragBluetooth.OnTimeout | bluetooth/src/main/java/yaz/lib/bluetooth/HiddenFragBluetooth.kt:198-203 | a posted timeout only clears `isScanning`; filter and list stay |
| ScanSession.HiddenFragBluetooth.OnScanResult | bluetooth/src/main/java/yaz/lib/bluetooth/HiddenFragBluetooth.kt:307-345 | a missing result or scan record, or a parse fault, changes nothing. Otherwise the entry is logged as `AddLogSpec` says, the result is published, and the list is updated by address. Scan state and filter are untouched |
| ScanSession.HiddenFragBluetooth.OnDestroy | bluetooth/src/main/java/yaz/lib/bluetooth/HiddenFragBluetooth.kt:122-126 | destruction flushes the log |
| ScanSession.StartTwice | bluetooth/src/main/java/yaz/lib/bluetooth/HiddenFragBluetooth.kt:174-204 | a second `startScan` stops the scan and returns false |
| ScanSession.FilterSurvivesTimeout | bluetooth/src/main/java/yaz/lib/bluetooth/HiddenFragBluetooth.kt:174-203 | after a timeout, a scan started without a filter keeps the old filter; the toggle stop drops it |
| ScanSession.StaleTimeoutStopsNextScan | bluetooth/src/main/java/yaz/lib/bluetooth/HiddenFragBluetooth.kt:174-203 | a timeout from a scan stopped by hand still ends the next scan |
| ScanSession.FrameAfterStop | bluetooth/src/main/java/yaz/lib/bluetooth/HiddenFragBluetooth.kt:307-345 | a frame delivered after the scan stopped is still listed |

## Left out

- The radio, the permission check, `activateBluetooth` and the enable-Bluetooth intent. `startScan` takes the permission result as a boolean. `startScan`/`stopScan` calls on the scanner and `ScanSettings` (including `lowLatency`) have no effect on the modelled state.
- `Handler.postDelayed` timing. A posted timeout is counted in ghost state and fires when `OnTimeout` is called.
- `_scanResults.tryEmit`. Published results are recorded in a ghost list; the bounded flow buffer and subscribers are not modelled.
- GATT `connect`, `sendData`, `disconnect` and the descriptor write. These are callbacks over the platform's GATT object.
- The fragment's forwarding calls `findDeviceByName`, `findDeviceByAddress`, `readLog`, `deleteAllLine` and `exportToDownloads` (HiddenFragBluetooth.kt:380-398). They delegate to the log, which is modelled.
- `exportToDownloads` in the log: MediaStore and file-copy I/O.
- `synchronized`. The store is modelled sequentially.
- `Log.e` and `println`: debug output only.
- File I/O failures: the file is a sequence of lines that every write succeeds on.
- Entries whose fields contain a line break. The file is modelled as lines, so such an entry would not read back as one line.
- Text.Digit: `Character.digit` is modelled for ASCII and fullwidth digits and letters. Digits of other Unicode scripts read as -1 here. As a consequence `Text.ToIntOrNull`, and so `DeviceLog.Deserialize`, reads an rssi written in the digits of another script (Arabic-Indic, say) as no number, hence as rssi 0, where Kotlin reads its value.
- DeviceLog.LogDevicesScanned.Flush: flush reads the clock again after the write. The model uses the same `now` as the `addLog` that triggers it.
- Advertising.DecodeHex: the text is a sequence of Unicode scalar values, while Kotlin's `length` and indexing count UTF-16 code units. A character outside the Basic Multilingual Plane counts once here and twice in Kotlin, so "\U{1F600}" decodes to no bytes here and to `[0xEF]` in Kotlin (two surrogates, each read as digit -1). Texts of hex digits, the only ones that are valid input, are unaffected.
- Advertising.HexStringToByteArray: the same UTF-16 difference as `DecodeHex`; the loop steps over scalar values, not code units.
- Overflow of the `Int` cursor in `parseBeaconBytes` and of the `Long` clock arithmetic is not modelled. Frames are far shorter than 2^31 bytes.
- `HiddenFragGPS.kt`, the `Bluetooth.kt` facade and the build files.
