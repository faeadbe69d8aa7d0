/**
 * `LogDevicesScanned`: the durable log of observed devices. An in-memory list
 * capped at `MaxLines`, a set of serialized lines for deduplication, two
 * indices (by name, by address), a write buffer flushed by size or age, and a
 * backing text file of one `address;name;beacon;rssi` line per entry.
 *
 * The backing file is a sequence of lines (a missing file reads as no lines)
 * and the clock is the parameter `now`.
 */
module DeviceLog {
  import opened Wrappers
  import opened Text
  import opened Devices

  /** Largest number of entries `addLog` leaves in memory. */
  const MaxLines: nat := 3000
  /** Default of the constructor parameter `flushIntervalMs`. */
  const DefaultFlushIntervalMs: int := 5000
  /** Default of the constructor parameter `bufferSize`. */
  const DefaultBufferSize: int := 50

  // ---------------------------------------------------------------------
  // Line format

  /** `serialize`: the four fields joined by `;`. */
  function Serialize(info: InfoDevice): string {
    info.address + ";" + info.name + ";" + info.beacon + ";" + IntToString(info.rssi)
  }

  /**
   * `deserialize`: a line of exactly four `;`-separated fields, the last read as
   * an `Int` or as 0 when it is not one; any other line gives `None`.
   */
  function Deserialize(line: string): Option<InfoDevice> {
    var parts := Split(line, ';');
    if |parts| != 4 then None
    else Some(InfoDevice(parts[0], parts[1], parts[2], ToIntOrNull(parts[3]).GetOr(0)))
  }

  /**
   * A line is read exactly when it holds three separators; its text fields
   * then hold none, and a last field that is not an `Int` reads as 0.
   */
  lemma DeserializeShape(line: string)
    ensures Deserialize(line).Some? <==> Count(line, ';') == 3
    ensures Deserialize(line).Some? ==> SeparatorFree(Deserialize(line).value)
    ensures Deserialize(line).Some? ==> |Split(line, ';')| == 4
    ensures Deserialize(line).Some? && ToIntOrNull(Split(line, ';')[3]).None? ==> Deserialize(line).value.rssi == 0
  {
    SplitCount(line, ';');
    SplitPiecesOmitSeparator(line, ';');
    var parts := Split(line, ';');
    if |parts| == 4 {
      assert parts[0] in parts && parts[1] in parts && parts[2] in parts;
    }
  }

  /** No field but the number may contain the separator. */
  predicate SeparatorFree(info: InfoDevice) {
    ';' !in info.address && ';' !in info.name && ';' !in info.beacon
  }

  /** Every entry whose text fields hold no `;` reads back as itself. */
  lemma DeserializeSerialize(info: InfoDevice)
    requires SeparatorFree(info)
    ensures Deserialize(Serialize(info)) == Some(info)
  {
    var rssi := IntToString(info.rssi);
    IntToStringHasNoSeparator(info.rssi, ';');
    IntToStringRoundTrip(info.rssi);
    var parts := [info.address, info.name, info.beacon, rssi];
    JoinFour(parts);
    SplitJoin(parts, ';');
  }

  /** A line whose number is written as `toString` writes it is re-serialized unchanged. */
  lemma SerializeDeserialize(line: string)
    requires Deserialize(line).Some?
    requires Split(line, ';')[3] == IntToString(Deserialize(line).value.rssi)
    ensures Serialize(Deserialize(line).value) == line
  {
    JoinSplit(line, ';');
    var parts := Split(line, ';');
    assert |parts| == 4;
    JoinFour(parts);
    var info := Deserialize(line).value;
    assert info == InfoDevice(parts[0], parts[1], parts[2], info.rssi);
  }

  /**
   * The line `flush` writes for an entry is read back exactly when no text
   * field holds a `;`: otherwise it has more than four fields.
   */
  lemma SerializeReadable(info: InfoDevice)
    ensures Deserialize(Serialize(info)).Some? <==> SeparatorFree(info)
  {
    if SeparatorFree(info) {
      DeserializeSerialize(info);
    } else {
      SerializedSeparators(info);
      DeserializeShape(Serialize(info));
    }
  }

  /** The line of an entry holds three separators besides those of its text fields. */
  lemma SerializedSeparators(info: InfoDevice)
    ensures Count(Serialize(info), ';') == 3 + Count(info.address, ';') + Count(info.name, ';') + Count(info.beacon, ';')
    ensures !SeparatorFree(info) ==> Count(Serialize(info), ';') > 3
  {
    var rssi := IntToString(info.rssi);
    IntToStringHasNoSeparator(info.rssi, ';');
    CountConcat(rssi, [], ';');
    assert Count(";", ';') == 1 by {
      assert ";"[1..] == [];
    }
    var l1 := info.address + ";";
    CountConcat(info.address, ";", ';');
    var l2 := l1 + info.name;
    CountConcat(l1, info.name, ';');
    var l3 := l2 + ";";
    CountConcat(l2, ";", ';');
    var l4 := l3 + info.beacon;
    CountConcat(l3, info.beacon, ';');
    var l5 := l4 + ";";
    CountConcat(l4, ";", ';');
    CountConcat(l5, rssi, ';');
    CountConcat(info.name, [], ';');
    CountConcat(info.beacon, [], ';');
  }

  /** Four fields joined with the separator. */
  lemma JoinFour(parts: seq<string>)
    requires |parts| == 4
    ensures Join(parts, ';') == parts[0] + ";" + parts[1] + ";" + parts[2] + ";" + parts[3]
  {
    assert Join(parts[3..], ';') == parts[3];
    assert parts[2..][1..] == parts[3..];
    assert Join(parts[2..], ';') == parts[2] + ";" + parts[3];
    assert parts[1..][1..] == parts[2..];
    assert Join(parts[1..], ';') == parts[1] + ";" + parts[2] + ";" + parts[3];
  }

  /** The lines `flush` writes for a run of entries, in order. */
  function SerializeAll(s: seq<InfoDevice>): (lines: seq<string>)
    ensures |lines| == |s|
    ensures forall k :: 0 <= k < |s| ==> lines[k] == Serialize(s[k])
  {
    seq(|s|, k requires 0 <= k < |s| => Serialize(s[k]))
  }

  /** The entries `loadLogs` takes from a file: the readable lines, in file order. */
  function Loaded(lines: seq<string>): seq<InfoDevice> {
    if lines == [] then []
    else
      (match Deserialize(lines[0]) case Some(info) => [info] case None => [])
      + Loaded(lines[1..])
  }

  lemma {:induction false} LoadedAppend(lines: seq<string>, line: string)
    ensures Loaded(lines + [line])
         == Loaded(lines) + (match Deserialize(line) case Some(info) => [info] case None => [])
  {
    if lines != [] {
      assert (lines + [line])[1..] == lines[1..] + [line];
      LoadedAppend(lines[1..], line);
    } else {
      assert [line][1..] == [];
    }
  }

  /** What `flush` writes, `loadLogs` reads back. */
  lemma {:induction false} LoadedSerializeAll(s: seq<InfoDevice>)
    requires forall info | info in s :: SeparatorFree(info)
    ensures Loaded(SerializeAll(s)) == s
  {
    if s != [] {
      DeserializeSerialize(s[0]);
      assert SerializeAll(s)[1..] == SerializeAll(s[1..]);
      LoadedSerializeAll(s[1..]);
    }
  }

  // ---------------------------------------------------------------------
  // The store's state and its invariants

  datatype StoreState = StoreState(
    logs: seq<InfoDevice>,
    loggedDevices: set<string>,
    deviceMapName: map<string, InfoDevice>,
    deviceMapAddress: map<string, InfoDevice>,
    buffer: seq<InfoDevice>,
    lastFlushTime: int,
    file: seq<string>)

  /** A freshly constructed store, before `loadLogs`. */
  function EmptyStore(file: seq<string>, now: int): StoreState {
    StoreState([], {}, map[], map[], [], now, file)
  }

  /** The two indices. */
  datatype Key = ByName | ByAddress

  function KeyOf(info: InfoDevice, key: Key): string {
    match key
    case ByName => info.name
    case ByAddress => info.address
  }

  function IndexOf(st: StoreState, key: Key): map<string, InfoDevice> {
    match key
    case ByName => st.deviceMapName
    case ByAddress => st.deviceMapAddress
  }

  /** The most recent entry of `s` with the given key. */
  function Latest(s: seq<InfoDevice>, key: Key, k: string): (r: Option<InfoDevice>)
    ensures r.Some? ==> r.value in s && KeyOf(r.value, key) == k
  {
    if s == [] then None
    else if KeyOf(s[|s| - 1], key) == k then Some(s[|s| - 1])
    else Latest(s[..|s| - 1], key, k)
  }

  /** Every key an index holds maps to the most recent log entry with that key. */
  ghost predicate IndexLatest(m: map<string, InfoDevice>, s: seq<InfoDevice>, key: Key) {
    forall k | k in m :: Latest(s, key, k) == Some(m[k])
  }

  /** The keys of a run of entries. */
  function KeysOf(s: seq<InfoDevice>, key: Key): set<string> {
    set info | info in s :: KeyOf(info, key)
  }

  function Serializations(s: seq<InfoDevice>): set<string> {
    set info | info in s :: Serialize(info)
  }

  /** No two entries serialize alike. */
  ghost predicate Distinct(s: seq<InfoDevice>) {
    forall i, j | 0 <= i < j < |s| :: Serialize(s[i]) != Serialize(s[j])
  }

  function Max(a: int, b: int): int { if a >= b then a else b }

  /**
   * What every operation keeps: both indices point at the latest entry for each
   * key they hold, and the buffer is shorter than `bufferSize` (empty when
   * `bufferSize < 1`).
   */
  ghost predicate StoreValid(st: StoreState, bufferSize: int) {
    && IndexLatest(st.deviceMapName, st.logs, ByName)
    && IndexLatest(st.deviceMapAddress, st.logs, ByAddress)
    && |st.buffer| < Max(bufferSize, 1)
  }

  /**
   * The deduplication set is exactly the serializations of the log, which has
   * no two alike: kept by `addLog`, but not established by `loadLogs`.
   */
  ghost predicate Consistent(st: StoreState) {
    st.loggedDevices == Serializations(st.logs) && Distinct(st.logs)
  }

  // ---------------------------------------------------------------------
  // Operations on the state

  /** Number of oldest entries a log of `n` entries loses to the cap. */
  function Excess(n: nat): nat {
    if n > MaxLines then n - MaxLines else 0
  }

  /** `flush`: the buffer's lines are appended to the file, the buffer emptied and the clock reset. */
  function FlushSpec(st: StoreState, now: int): StoreState {
    if st.buffer == [] then st
    else st.(file := st.file + SerializeAll(st.buffer), buffer := [], lastFlushTime := now)
  }

  /** Reading a file is reading its parts one after the other. */
  lemma {:induction false} LoadedConcat(a: seq<string>, b: seq<string>)
    ensures Loaded(a + b) == Loaded(a) + Loaded(b)
    decreases |a|
  {
    if a != [] {
      assert (a + b)[1..] == a[1..] + b;
      LoadedConcat(a[1..], b);
    } else {
      assert a + b == b;
    }
  }

  /** The entries of a run whose text fields hold no `;`, in order. */
  function Readable(s: seq<InfoDevice>): (r: seq<InfoDevice>)
    ensures |r| <= |s|
    ensures forall info | info in r :: info in s && SeparatorFree(info)
    ensures forall info | info in s && SeparatorFree(info) :: info in r
  {
    if s == [] then []
    else (if SeparatorFree(s[0]) then [s[0]] else []) + Readable(s[1..])
  }

  /** What `flush` writes, `loadLogs` reads back, less every entry with a `;` in a text field. */
  lemma {:induction false} LoadedSerializeAllReadable(s: seq<InfoDevice>)
    ensures Loaded(SerializeAll(s)) == Readable(s)
  {
    if s != [] {
      SerializeReadable(s[0]);
      if SeparatorFree(s[0]) {
        DeserializeSerialize(s[0]);
      }
      assert SerializeAll(s)[1..] == SerializeAll(s[1..]);
      LoadedSerializeAllReadable(s[1..]);
    }
  }

  /**
   * For any buffer, a later load reads the file's old entries and then the
   * buffered entries without a `;` in a text field: the others are flushed
   * but lost.
   */
  lemma FlushLosesSeparatorEntries(st: StoreState, now: int)
    ensures Loaded(FlushSpec(st, now).file) == Loaded(st.file) + Readable(st.buffer)
  {
    if st.buffer != [] {
      LoadedConcat(st.file, SerializeAll(st.buffer));
      LoadedSerializeAllReadable(st.buffer);
    }
  }

  /**
   * A flush of a non-empty buffer moves it to the file, so a later load reads
   * the buffered entries back after what the file held; log, set and indices
   * are untouched, and an empty buffer makes the flush a no-op.
   */
  lemma FlushPersistsBuffer(st: StoreState, now: int)
    requires forall info | info in st.buffer :: SeparatorFree(info)
    ensures var st' := FlushSpec(st, now);
      && Loaded(st'.file) == Loaded(st.file) + st.buffer
      && st'.buffer == []
      && st'.logs == st.logs && st'.loggedDevices == st.loggedDevices
      && st'.deviceMapName == st.deviceMapName && st'.deviceMapAddress == st.deviceMapAddress
    ensures st.buffer == [] ==> FlushSpec(st, now) == st
    ensures st.buffer != [] ==> FlushSpec(st, now).lastFlushTime == now
  {
    if st.buffer != [] {
      LoadedConcat(st.file, SerializeAll(st.buffer));
      LoadedSerializeAll(st.buffer);
    }
  }

  /** Whether `addLog` flushes after inserting: the buffer is full or the last flush is too old. */
  predicate FlushDue(st: StoreState, now: int, flushIntervalMs: int, bufferSize: int) {
    now - st.lastFlushTime > flushIntervalMs || |st.buffer| >= bufferSize
  }

  /**
   * `addLog`: unless its line is already logged, the entry is appended to the
   * log, the set, both indices and the buffer; then the oldest entries beyond
   * `MaxLines` are dropped, each taking its line out of the set and its name and
   * address out of the indices; then the flush policy is applied.
   */
  function AddLogSpec(st: StoreState, info: InfoDevice, now: int, flushIntervalMs: int, bufferSize: int): StoreState {
    if Serialize(info) in st.loggedDevices then st
    else
      var inserted := Insert(st, info);
      if FlushDue(inserted, now, flushIntervalMs, bufferSize) then FlushSpec(inserted, now) else inserted
  }

  /** The part of `addLog` before the flush policy: insertion, then eviction down to `MaxLines`. */
  function Insert(st: StoreState, info: InfoDevice): StoreState {
    var grown := st.logs + [info];
    var gone := grown[..Excess(|grown|)];
    st.(logs := grown[Excess(|grown|)..],
        loggedDevices := (st.loggedDevices + {Serialize(info)}) - Serializations(gone),
        deviceMapName := st.deviceMapName[info.name := info] - KeysOf(gone, ByName),
        deviceMapAddress := st.deviceMapAddress[info.address := info] - KeysOf(gone, ByAddress),
        buffer := st.buffer + [info])
  }

  /** `addLog` of a new entry leaves memory as `Insert` does; the flush touches only buffer, clock and file. */
  lemma AddLogMemory(st: StoreState, info: InfoDevice, now: int, flushIntervalMs: int, bufferSize: int)
    requires Serialize(info) !in st.loggedDevices
    ensures var st', ins := AddLogSpec(st, info, now, flushIntervalMs, bufferSize), Insert(st, info);
      && st'.logs == ins.logs && st'.loggedDevices == ins.loggedDevices
      && st'.deviceMapName == ins.deviceMapName && st'.deviceMapAddress == ins.deviceMapAddress
  {
  }

  /** One line of `loadLogs`: a readable line is appended to the log, the set and both indices. */
  function LoadLine(st: StoreState, line: string): StoreState {
    match Deserialize(line)
    case None => st
    case Some(info) =>
      st.(logs := st.logs + [info],
          loggedDevices := st.loggedDevices + {Serialize(info)},
          deviceMapName := st.deviceMapName[info.name := info],
          deviceMapAddress := st.deviceMapAddress[info.address := info])
  }

  /** `loadLogs` over the lines read so far. */
  function LoadSpec(st: StoreState, lines: seq<string>): StoreState
    decreases |lines|
  {
    if lines == [] then st else LoadLine(LoadSpec(st, lines[..|lines| - 1]), lines[|lines| - 1])
  }

  // ---------------------------------------------------------------------
  // Index lemmas

  lemma LatestAppend(s: seq<InfoDevice>, info: InfoDevice, key: Key, k: string)
    ensures Latest(s + [info], key, k) == if KeyOf(info, key) == k then Some(info) else Latest(s, key, k)
  {
    assert (s + [info])[..|s|] == s;
  }

  lemma {:induction false} LatestAbsent(s: seq<InfoDevice>, key: Key, k: string)
    requires k !in KeysOf(s, key)
    ensures Latest(s, key, k) == None
    decreases |s|
  {
    if s != [] {
      var t := s[..|s| - 1];
      assert s[|s| - 1] in s;
      assert forall x | x in t :: x in s;
      LatestAbsent(t, key, k);
    }
  }

  lemma KeysOfAppend(s: seq<InfoDevice>, info: InfoDevice, key: Key)
    ensures KeysOf(s + [info], key) == KeysOf(s, key) + {KeyOf(info, key)}
  {
    assert forall x | x in s + [info] :: x in s || x == info;
  }

  /** Dropping the oldest entries leaves the latest entry of every key they do not carry. */
  lemma {:induction false} LatestDropOldest(s: seq<InfoDevice>, c: nat, key: Key, k: string)
    requires c <= |s|
    requires k !in KeysOf(s[..c], key)
    ensures Latest(s[c..], key, k) == Latest(s, key, k)
    decreases |s|
  {
    if c == |s| {
      assert s[..c] == s;
      LatestAbsent(s, key, k);
    } else {
      var t := s[..|s| - 1];
      if KeyOf(s[|s| - 1], key) != k {
        assert s[c..][..|s[c..]| - 1] == t[c..];
        assert t[..c] == s[..c];
        LatestDropOldest(t, c, key, k);
      }
    }
  }

  /** Inserting an entry, then dropping the oldest entries with their keys, keeps an index up to date. */
  lemma InsertEvictKeepsIndex(m: map<string, InfoDevice>, s: seq<InfoDevice>, info: InfoDevice, key: Key, c: nat)
    requires IndexLatest(m, s, key)
    requires c <= |s| + 1
    ensures IndexLatest(m[KeyOf(info, key) := info] - KeysOf((s + [info])[..c], key), (s + [info])[c..], key)
  {
    var grown := s + [info];
    var m' := m[KeyOf(info, key) := info] - KeysOf(grown[..c], key);
    forall k | k in m' ensures Latest(grown[c..], key, k) == Some(m'[k]) {
      LatestAppend(s, info, key, k);
      LatestDropOldest(grown, c, key, k);
    }
  }

  // ---------------------------------------------------------------------
  // Deduplication lemmas

  lemma SerializationsAppend(s: seq<InfoDevice>, info: InfoDevice)
    ensures Serializations(s + [info]) == Serializations(s) + {Serialize(info)}
  {
    assert forall x | x in s + [info] :: x in s || x == info;
  }

  /** One more evicted entry takes its line and its two keys out. */
  lemma EvictOne(grown: seq<InfoDevice>, r: nat, lines: set<string>,
                 names: map<string, InfoDevice>, addresses: map<string, InfoDevice>)
    requires r < |grown|
    ensures lines - Serializations(grown[..r + 1]) == (lines - Serializations(grown[..r])) - {Serialize(grown[r])}
    ensures names - KeysOf(grown[..r + 1], ByName) == (names - KeysOf(grown[..r], ByName)) - {grown[r].name}
    ensures addresses - KeysOf(grown[..r + 1], ByAddress)
         == (addresses - KeysOf(grown[..r], ByAddress)) - {grown[r].address}
  {
    var pre := grown[..r];
    assert grown[..r + 1] == pre + [grown[r]];
    SerializationsAppend(pre, grown[r]);
    KeysOfAppend(pre, grown[r], ByName);
    KeysOfAppend(pre, grown[r], ByAddress);
    MapMinusOneMore(names, KeysOf(pre, ByName), grown[r].name);
    MapMinusOneMore(addresses, KeysOf(pre, ByAddress), grown[r].address);
  }

  lemma MapMinusOneMore(m: map<string, InfoDevice>, keys: set<string>, k: string)
    ensures m - (keys + {k}) == (m - keys) - {k}
  {
  }

  /** Dropping a prefix of a run without repeated lines takes exactly its lines out. */
  lemma SerializationsSuffix(s: seq<InfoDevice>, c: nat)
    requires c <= |s| && Distinct(s)
    ensures Serializations(s[c..]) == Serializations(s) - Serializations(s[..c])
    ensures Distinct(s[c..])
  {
    forall x | x in Serializations(s[c..]) ensures x !in Serializations(s[..c]) {
      var y :| y in s[c..] && Serialize(y) == x;
      var j :| c <= j < |s| && s[j] == y;
      forall z | z in s[..c] ensures Serialize(z) != x {
        var i :| 0 <= i < c && s[i] == z;
        assert Serialize(s[i]) != Serialize(s[j]);
      }
    }
    forall x | x in Serializations(s) && x !in Serializations(s[..c]) ensures x in Serializations(s[c..]) {
      var y :| y in s && Serialize(y) == x;
      var j :| 0 <= j < |s| && s[j] == y;
      assert forall i | 0 <= i < c :: Serialize(s[i]) in Serializations(s[..c]) by {
        forall i | 0 <= i < c ensures Serialize(s[i]) in Serializations(s[..c]) {
          assert s[..c][i] == s[i];
        }
      }
      assert j >= c;
      assert s[c..][j - c] == y;
    }
    forall i, j | 0 <= i < j < |s[c..]| ensures Serialize(s[c..][i]) != Serialize(s[c..][j]) {
      assert s[c..][i] == s[c + i] && s[c..][j] == s[c + j];
    }
  }

  // ---------------------------------------------------------------------
  // addLog

  /** An entry whose line is already logged changes nothing: log, set, indices, buffer and file. */
  lemma AddLogDuplicateIsNoOp(st: StoreState, info: InfoDevice, now: int, flushIntervalMs: int, bufferSize: int)
    requires Serialize(info) in st.loggedDevices
    ensures AddLogSpec(st, info, now, flushIntervalMs, bufferSize) == st
  {
  }

  /**
   * A new entry becomes the newest: below the cap it is appended and indexed
   * under its name and address; at the cap the oldest entries make room, so the
   * log never exceeds `MaxLines` entries.
   */
  lemma AddLogAppends(st: StoreState, info: InfoDevice, now: int, flushIntervalMs: int, bufferSize: int)
    requires Serialize(info) !in st.loggedDevices
    ensures var st' := AddLogSpec(st, info, now, flushIntervalMs, bufferSize);
      && st'.logs == st.logs[Excess(|st.logs| + 1)..] + [info]
      && |st'.logs| == (if |st.logs| < MaxLines then |st.logs| + 1 else MaxLines)
      && (|st.logs| < MaxLines ==>
            st'.logs == st.logs + [info]
            && st'.deviceMapName == st.deviceMapName[info.name := info]
            && st'.deviceMapAddress == st.deviceMapAddress[info.address := info])
  {
    AddLogMemory(st, info, now, flushIntervalMs, bufferSize);
    var grown := st.logs + [info];
    var c := Excess(|grown|);
    assert grown[c..] == st.logs[c..] + [info];
    if |st.logs| < MaxLines {
      assert grown[..c] == [];
      assert KeysOf([], ByName) == {} && KeysOf([], ByAddress) == {};
    }
  }

  /**
   * Eviction is oldest first; each evicted entry's line leaves the set and its
   * name and address leave both indices, whoever else carries them.
   */
  lemma AddLogEvictsOldest(st: StoreState, info: InfoDevice, now: int, flushIntervalMs: int, bufferSize: int)
    requires Serialize(info) !in st.loggedDevices
    ensures var st' := AddLogSpec(st, info, now, flushIntervalMs, bufferSize);
      var gone := st.logs[..Excess(|st.logs| + 1)];
      && st.logs == gone + st'.logs[..|st'.logs| - 1]
      && forall x | x in gone ::
           Serialize(x) !in st'.loggedDevices && x.name !in st'.deviceMapName && x.address !in st'.deviceMapAddress
  {
    var grown := st.logs + [info];
    var c := Excess(|grown|);
    AddLogAppends(st, info, now, flushIntervalMs, bufferSize);
    AddLogMemory(st, info, now, flushIntervalMs, bufferSize);
    assert grown[..c] == st.logs[..c];
    assert st.logs == st.logs[..c] + st.logs[c..];
  }

  /**
   * The indices forget a key with the evicted entry even when the entry just
   * added carries the same address.
   */
  lemma AddLogEvictionForgetsSharedAddress(st: StoreState, info: InfoDevice, now: int, flushIntervalMs: int, bufferSize: int)
    requires Serialize(info) !in st.loggedDevices
    requires |st.logs| == MaxLines && st.logs[0].address == info.address
    ensures var st' := AddLogSpec(st, info, now, flushIntervalMs, bufferSize);
      info in st'.logs && info.address !in st'.deviceMapAddress
  {
    AddLogAppends(st, info, now, flushIntervalMs, bufferSize);
    AddLogEvictsOldest(st, info, now, flushIntervalMs, bufferSize);
    assert st.logs[0] in st.logs[..Excess(|st.logs| + 1)];
    var st' := AddLogSpec(st, info, now, flushIntervalMs, bufferSize);
    assert st'.logs[|st'.logs| - 1] == info;
  }

  /** `addLog` keeps both indices pointing at the latest entries and the buffer below `bufferSize`. */
  lemma AddLogKeepsValid(st: StoreState, info: InfoDevice, now: int, flushIntervalMs: int, bufferSize: int)
    requires StoreValid(st, bufferSize)
    ensures StoreValid(AddLogSpec(st, info, now, flushIntervalMs, bufferSize), bufferSize)
  {
    if Serialize(info) !in st.loggedDevices {
      var c := Excess(|st.logs| + 1);
      AddLogMemory(st, info, now, flushIntervalMs, bufferSize);
      InsertEvictKeepsIndex(st.deviceMapName, st.logs, info, ByName, c);
      InsertEvictKeepsIndex(st.deviceMapAddress, st.logs, info, ByAddress, c);
    }
  }

  /** Starting from a consistent store, `addLog` keeps the set equal to the log's lines, with no line twice. */
  lemma AddLogKeepsConsistent(st: StoreState, info: InfoDevice, now: int, flushIntervalMs: int, bufferSize: int)
    requires Consistent(st)
    ensures Consistent(AddLogSpec(st, info, now, flushIntervalMs, bufferSize))
  {
    var message := Serialize(info);
    if message !in st.loggedDevices {
      AddLogMemory(st, info, now, flushIntervalMs, bufferSize);
      var grown := st.logs + [info];
      var c := Excess(|grown|);
      SerializationsAppend(st.logs, info);
      forall i, j | 0 <= i < j < |grown| ensures Serialize(grown[i]) != Serialize(grown[j]) {
        if j == |st.logs| {
          assert grown[i] in st.logs;
        }
      }
      SerializationsSuffix(grown, c);
    }
  }

  /**
   * Nothing added is lost: the file followed by the pending buffer grows by
   * exactly the new entry's line (evicted entries stay pending), and the file
   * only ever grows.
   */
  lemma AddLogPersistsOrBuffers(st: StoreState, info: InfoDevice, now: int, flushIntervalMs: int, bufferSize: int)
    ensures var st' := AddLogSpec(st, info, now, flushIntervalMs, bufferSize);
      && st'.file + SerializeAll(st'.buffer)
         == st.file + SerializeAll(st.buffer) + (if Serialize(info) in st.loggedDevices then [] else [Serialize(info)])
      && st.file <= st'.file
  {
    assert SerializeAll(st.buffer + [info]) == SerializeAll(st.buffer) + [Serialize(info)];
    assert SerializeAll([]) == [];
  }

  // ---------------------------------------------------------------------
  // loadLogs

  /**
   * `loadLogs` appends the readable lines in file order, with no deduplication
   * and no cap, and leaves buffer, clock and file alone.
   */
  lemma LoadSpecContents(st: StoreState, lines: seq<string>)
    ensures var st' := LoadSpec(st, lines);
      && st'.logs == st.logs + Loaded(lines)
      && st'.loggedDevices == st.loggedDevices + Serializations(Loaded(lines))
      && st'.buffer == st.buffer && st'.lastFlushTime == st.lastFlushTime && st'.file == st.file
  {
    LoadSpecLogs(st, lines);
    LoadSpecLines(st, lines);
    LoadSpecKeepsRest(st, lines);
  }

  lemma {:induction false} LoadSpecLogs(st: StoreState, lines: seq<string>)
    ensures LoadSpec(st, lines).logs == st.logs + Loaded(lines)
    decreases |lines|
  {
    if lines != [] {
      var init, last := lines[..|lines| - 1], lines[|lines| - 1];
      LoadSpecLogs(st, init);
      assert lines == init + [last];
      LoadedAppend(init, last);
      match Deserialize(last)
      case None =>
        assert Loaded(lines) == Loaded(init);
      case Some(info) =>
        assert st.logs + Loaded(lines) == (st.logs + Loaded(init)) + [info];
    }
  }

  lemma {:induction false} LoadSpecLines(st: StoreState, lines: seq<string>)
    ensures LoadSpec(st, lines).loggedDevices == st.loggedDevices + Serializations(Loaded(lines))
    decreases |lines|
  {
    if lines == [] {
      assert Serializations([]) == {};
    } else {
      var init, last := lines[..|lines| - 1], lines[|lines| - 1];
      LoadSpecLines(st, init);
      assert lines == init + [last];
      LoadedAppend(init, last);
      match Deserialize(last)
      case None =>
        assert Loaded(lines) == Loaded(init);
      case Some(info) =>
        SerializationsAppend(Loaded(init), info);
        assert LoadSpec(st, lines).loggedDevices == LoadSpec(st, init).loggedDevices + {Serialize(info)};
    }
  }

  lemma {:induction false} LoadSpecKeepsRest(st: StoreState, lines: seq<string>)
    ensures var st' := LoadSpec(st, lines);
      st'.buffer == st.buffer && st'.lastFlushTime == st.lastFlushTime && st'.file == st.file
    decreases |lines|
  {
    if lines != [] {
      LoadSpecKeepsRest(st, lines[..|lines| - 1]);
    }
  }

  /** One more line read. */
  lemma LoadSpecStep(st: StoreState, lines: seq<string>, i: nat)
    requires i < |lines|
    ensures LoadSpec(st, lines[..i + 1]) == LoadLine(LoadSpec(st, lines[..i]), lines[i])
  {
    assert lines[..i + 1][..i] == lines[..i];
  }

  /** `loadLogs` keeps both indices pointing at the latest entries. */
  lemma {:induction false} LoadKeepsValid(st: StoreState, lines: seq<string>, bufferSize: int)
    requires StoreValid(st, bufferSize)
    ensures StoreValid(LoadSpec(st, lines), bufferSize)
    decreases |lines|
  {
    if lines != [] {
      var init := lines[..|lines| - 1];
      LoadKeepsValid(st, init, bufferSize);
      var mid := LoadSpec(st, init);
      match Deserialize(lines[|lines| - 1])
      case None =>
      case Some(info) =>
        InsertEvictKeepsIndex(mid.deviceMapName, mid.logs, info, ByName, 0);
        InsertEvictKeepsIndex(mid.deviceMapAddress, mid.logs, info, ByAddress, 0);
        assert (mid.logs + [info])[..0] == [] && (mid.logs + [info])[0..] == mid.logs + [info];
        assert KeysOf([], ByName) == {} && KeysOf([], ByAddress) == {};
    }
  }

  /** `loadLogs` indexes every entry it reads, under its name and under its address. */
  lemma LoadIndexKeys(st: StoreState, lines: seq<string>)
    ensures LoadSpec(st, lines).deviceMapName.Keys == st.deviceMapName.Keys + KeysOf(Loaded(lines), ByName)
    ensures LoadSpec(st, lines).deviceMapAddress.Keys == st.deviceMapAddress.Keys + KeysOf(Loaded(lines), ByAddress)
  {
    LoadIndexKeysOf(st, lines, ByName);
    LoadIndexKeysOf(st, lines, ByAddress);
  }

  lemma {:induction false} LoadIndexKeysOf(st: StoreState, lines: seq<string>, key: Key)
    ensures IndexOf(LoadSpec(st, lines), key).Keys == IndexOf(st, key).Keys + KeysOf(Loaded(lines), key)
    decreases |lines|
  {
    if lines == [] {
      assert KeysOf([], key) == {};
    } else {
      var init, last := lines[..|lines| - 1], lines[|lines| - 1];
      LoadIndexKeysOf(st, init, key);
      assert lines == init + [last];
      LoadedAppend(init, last);
      var mid := LoadSpec(st, init);
      assert LoadSpec(st, lines) == LoadLine(mid, last);
      match Deserialize(last)
      case None =>
        assert Loaded(lines) == Loaded(init);
      case Some(info) =>
        KeysOfAppend(Loaded(init), info, key);
        assert IndexOf(LoadLine(mid, last), key) == IndexOf(mid, key)[KeyOf(info, key) := info];
    }
  }

  /**
   * After loading, every loaded entry can be found by its name and by its
   * address, and what is found is the latest entry with that key.
   */
  lemma LoadedEntriesFindable(st: StoreState, lines: seq<string>, bufferSize: int)
    requires StoreValid(st, bufferSize)
    ensures var st' := LoadSpec(st, lines);
      forall info | info in Loaded(lines) ::
        && info.name in st'.deviceMapName && Some(st'.deviceMapName[info.name]) == Latest(st'.logs, ByName, info.name)
        && info.address in st'.deviceMapAddress
        && Some(st'.deviceMapAddress[info.address]) == Latest(st'.logs, ByAddress, info.address)
  {
    LoadIndexKeys(st, lines);
    LoadKeepsValid(st, lines, bufferSize);
  }

  /** A file holding the same readable line twice loads it twice: the set no longer matches the log. */
  lemma LoadDoesNotDeduplicate(line: string, now: int)
    requires Deserialize(line).Some?
    ensures var info := Deserialize(line).value;
      var st := LoadSpec(EmptyStore([line, line], now), [line, line]);
      st.logs == [info, info] && !Consistent(st)
  {
    var info := Deserialize(line).value;
    LoadSpecContents(EmptyStore([line, line], now), [line, line]);
    assert [line, line][1..] == [line];
    assert [line][1..] == [];
    assert Loaded([line]) == [info];
    assert Loaded([line, line]) == [info, info];
    var st := LoadSpec(EmptyStore([line, line], now), [line, line]);
    assert st.logs[0] == st.logs[1];
  }

  /** A store loaded from a file whose readable lines are all different starts consistent. */
  lemma LoadConsistentWhenDistinct(lines: seq<string>, now: int)
    requires Distinct(Loaded(lines))
    ensures Consistent(LoadSpec(EmptyStore(lines, now), lines))
  {
    LoadSpecContents(EmptyStore(lines, now), lines);
  }

  // ---------------------------------------------------------------------
  // The store object

  class LogDevicesScanned {
    const flushIntervalMs: int
    const bufferSize: int

    var logs: seq<InfoDevice>
    var loggedDevices: set<string>
    var deviceMapName: map<string, InfoDevice>
    var deviceMapAddress: map<string, InfoDevice>
    var buffer: seq<InfoDevice>
    var lastFlushTime: int
    /** The backing file `ScannedDevices.txt`, line by line. */
    var file: seq<string>

    function State(): StoreState
      reads this
    {
      StoreState(logs, loggedDevices, deviceMapName, deviceMapAddress, buffer, lastFlushTime, file)
    }

    ghost predicate Valid()
      reads this
    {
      StoreValid(State(), bufferSize)
    }

    /** Construction: the clock is read, then `loadLogs` runs over the existing file. */
    constructor (file: seq<string>, now: int, flushIntervalMs: int, bufferSize: int)
      ensures Valid()
      ensures State() == LoadSpec(EmptyStore(file, now), file)
      ensures this.flushIntervalMs == flushIntervalMs && this.bufferSize == bufferSize
    {
      this.flushIntervalMs := flushIntervalMs;
      this.bufferSize := bufferSize;
      logs, loggedDevices, deviceMapName, deviceMapAddress := [], {}, map[], map[];
      buffer, lastFlushTime := [], now;
      this.file := file;
      new;
      LoadLogs();
    }

    /** `loadLogs`: every readable line of the file is appended to the log, the set and both indices. */
    method LoadLogs()
      requires Valid()
      modifies this
      ensures Valid()
      ensures State() == LoadSpec(old(State()), old(file))
    {
      ghost var st0 := State();
      var lines := file;
      for i := 0 to |lines|
        invariant file == lines
        invariant State() == LoadSpec(st0, lines[..i])
        invariant Valid()
      {
        LoadSpecStep(st0, lines, i);
        var parsed := Deserialize(lines[i]);
        if parsed.Some? {
          var info := parsed.value;
          logs := logs + [info];
          loggedDevices := loggedDevices + {Serialize(info)};
          deviceMapName := deviceMapName[info.name := info];
          deviceMapAddress := deviceMapAddress[info.address := info];
        }
        LoadKeepsValid(st0, lines[..i + 1], bufferSize);
      }
      assert lines[..|lines|] == lines;
    }

    /** `findDeviceByName`: the latest logged entry with that name, when the index still holds it. */
    function FindDeviceByName(name: string): (r: Option<InfoDevice>)
      reads this
      requires Valid()
      ensures r.Some? ==> r == Latest(logs, ByName, name) && r.value in logs && r.value.name == name
      ensures r.None? <==> name !in deviceMapName
    {
      if name in deviceMapName then Some(deviceMapName[name]) else None
    }

    /** `findDeviceByAddress`: the latest logged entry with that address, when the index still holds it. */
    function FindDeviceByAddress(address: string): (r: Option<InfoDevice>)
      reads this
      requires Valid()
      ensures r.Some? ==> r == Latest(logs, ByAddress, address) && r.value in logs && r.value.address == address
      ensures r.None? <==> address !in deviceMapAddress
    {
      if address in deviceMapAddress then Some(deviceMapAddress[address]) else None
    }

    /** `addLog`, with `now` the clock read after eviction. */
    method AddLog(info: InfoDevice, now: int)
      requires Valid()
      modifies this
      ensures Valid()
      ensures State() == AddLogSpec(old(State()), info, now, flushIntervalMs, bufferSize)
    {
      ghost var st0 := State();
      var message := Serialize(info);
      if message in loggedDevices {
        return;
      }
      logs := logs + [info];
      loggedDevices := loggedDevices + {message};
      deviceMapName := deviceMapName[info.name := info];
      deviceMapAddress := deviceMapAddress[info.address := info];
      buffer := buffer + [info];
      EvictOldest();
      assert State() == Insert(st0, info);
      if now - lastFlushTime > flushIntervalMs || |buffer| >= bufferSize {
        Flush(now);
      }
      AddLogKeepsValid(st0, info, now, flushIntervalMs, bufferSize);
    }

    /** The eviction loop of `addLog`: drops the oldest entries, with their line and both keys, down to `MaxLines`. */
    method EvictOldest()
      modifies this
      ensures var gone := old(logs)[..Excess(|old(logs)|)];
        && logs == old(logs)[Excess(|old(logs)|)..]
        && loggedDevices == old(loggedDevices) - Serializations(gone)
        && deviceMapName == old(deviceMapName) - KeysOf(gone, ByName)
        && deviceMapAddress == old(deviceMapAddress) - KeysOf(gone, ByAddress)
      ensures buffer == old(buffer) && lastFlushTime == old(lastFlushTime) && file == old(file)
    {
      ghost var grown := logs;
      ghost var removed: nat := 0;
      ghost var set0, names0, addresses0 := loggedDevices, deviceMapName, deviceMapAddress;
      while |logs| > MaxLines
        invariant removed <= Excess(|grown|)
        invariant logs == grown[removed..]
        invariant loggedDevices == set0 - Serializations(grown[..removed])
        invariant deviceMapName == names0 - KeysOf(grown[..removed], ByName)
        invariant deviceMapAddress == addresses0 - KeysOf(grown[..removed], ByAddress)
        invariant buffer == old(buffer) && lastFlushTime == old(lastFlushTime) && file == old(file)
        decreases |logs|
      {
        var evicted := logs[0];
        assert evicted == grown[removed];
        EvictOne(grown, removed, set0, names0, addresses0);
        logs := logs[1..];
        loggedDevices := loggedDevices - {Serialize(evicted)};
        deviceMapName := deviceMapName - {evicted.name};
        deviceMapAddress := deviceMapAddress - {evicted.address};
        removed := removed + 1;
        assert logs == grown[removed..];
      }
      assert removed == Excess(|grown|);
    }

    /** `flush`: the buffered entries' lines are appended to the file, in order. */
    method Flush(now: int)
      modifies this
      ensures State() == FlushSpec(old(State()), now)
      ensures old(Valid()) ==> Valid()
    {
      if buffer == [] {
        return;
      }
      file := file + SerializeAll(buffer);
      buffer := [];
      lastFlushTime := now;
    }

    /** `readLog`: a copy of the in-memory log, oldest first. */
    method ReadLog() returns (r: seq<InfoDevice>)
      ensures r == logs
    {
      r := logs;
    }

    /** `deleteAllLine`: empties the file only; log, set, indices and buffer stay. */
    method DeleteAllLine()
      modifies this
      ensures file == []
      ensures State() == old(State()).(file := [])
    {
      file := [];
    }
  }
}
