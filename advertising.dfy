/**
 * The advertisement-frame parser and the hex decoder of `HiddenFragBluetooth`.
 *
 * A frame is a run of AD structures `[length][type][data ... ]` (Bluetooth Core
 * Specification, Vol 3, Part C, Section 11); records of type 0xFF carry
 * Manufacturer Specific Data whose first two bytes are the company identifier,
 * little-endian (Core Specification Supplement, Part A, Section 1.4).
 */
module Advertising {
  import opened Wrappers
  import Text

  /** A byte, as the unsigned value of its bit pattern (Kotlin's `b.toInt() and 0xFF`). */
  type byte = x: int | 0 <= x < 256

  function Min(a: int, b: int): int { if a <= b then a else b }

  // ---------------------------------------------------------------------
  // Hex encoding (Kotlin's `ByteArray.toHexString()`: lower case, no separator)

  function HexChar(n: nat): (c: char)
    requires n < 16
    ensures c == "0123456789abcdef"[n]
    ensures Text.Digit(c, 16) == n
  {
    if n < 10 then ('0' as int + n) as char else ('a' as int + n - 10) as char
  }

  function HexEncode(bs: seq<byte>): (s: string)
    ensures |s| == 2 * |bs|
  {
    if bs == [] then [] else [HexChar(bs[0] / 16), HexChar(bs[0] % 16)] + HexEncode(bs[1..])
  }

  lemma {:induction false} HexEncodeAt(bs: seq<byte>, k: nat)
    requires k < |bs|
    ensures HexEncode(bs)[2 * k] == HexChar(bs[k] / 16)
    ensures HexEncode(bs)[2 * k + 1] == HexChar(bs[k] % 16)
  {
    var head := [HexChar(bs[0] / 16), HexChar(bs[0] % 16)];
    var rest := HexEncode(bs[1..]);
    assert HexEncode(bs) == head + rest;
    if k > 0 {
      HexEncodeAt(bs[1..], k - 1);
      assert bs[1..][k - 1] == bs[k];
      assert (head + rest)[2 * k] == rest[2 * (k - 1)];
      assert (head + rest)[2 * k + 1] == rest[2 * (k - 1) + 1];
    }
  }

  // ---------------------------------------------------------------------
  // hexStringToByteArray

  /** One byte from two hex characters: `(digit(hi) shl 4) + digit(lo)`, truncated by `toByte()`. */
  function HexByte(hi: char, lo: char): byte {
    (Text.Digit(hi, 16) * 16 + Text.Digit(lo, 16)) % 256
  }

  /**
   * What `hexStringToByteArray` returns: no bytes for a text of odd length;
   * otherwise byte `k` is made of characters `2k` and `2k + 1`.
   */
  function DecodeHex(s: string): (r: seq<byte>)
    ensures |s| % 2 == 0 ==> |r| == |s| / 2
    ensures |s| % 2 != 0 ==> r == []
    ensures forall k :: 0 <= k < |r| ==> r[k] == HexByte(s[2 * k], s[2 * k + 1])
  {
    if |s| % 2 != 0 then []
    else seq(|s| / 2, k requires 0 <= k < |s| / 2 => HexByte(s[2 * k], s[2 * k + 1]))
  }

  /** The decoder inverts the encoder that produces the parser's output. */
  lemma DecodeHexRoundTrip(bs: seq<byte>)
    ensures DecodeHex(HexEncode(bs)) == bs
  {
    var s := HexEncode(bs);
    assert |s| % 2 == 0 && |s| / 2 == |bs|;
    var r := DecodeHex(s);
    forall k | 0 <= k < |bs| ensures r[k] == bs[k] {
      HexEncodeAt(bs, k);
      HexByteOfHexChars(bs[k]);
    }
  }

  lemma HexByteOfHexChars(x: byte)
    ensures HexByte(HexChar(x / 16), HexChar(x % 16)) == x
  {
    assert Text.Digit(HexChar(x / 16), 16) * 16 + Text.Digit(HexChar(x % 16), 16) == x;
  }

  /** A character that is not a hex digit counts as -1, and the sum is truncated to a byte. */
  lemma DecodeHexNonDigits()
    ensures DecodeHex("zz") == [0xEF]
    ensures DecodeHex("abc") == []
  {
    assert Text.Digit('z', 16) == -1;
  }

  /** `hexStringToByteArray`: fills a fresh array two characters at a time. */
  method HexStringToByteArray(hexString: string) returns (data: array<byte>)
    ensures fresh(data)
    ensures data[..] == DecodeHex(hexString)
  {
    if |hexString| % 2 != 0 {
      data := new byte[0];
      return;
    }
    var len := |hexString|;
    data := new byte[len / 2];
    var i := 0;
    while i < len
      invariant 0 <= i <= len && i % 2 == 0
      invariant forall k :: 0 <= k < i / 2 ==> data[k] == HexByte(hexString[2 * k], hexString[2 * k + 1])
    {
      data[i / 2] := (Text.Digit(hexString[i], 16) * 16 + Text.Digit(hexString[i + 1], 16)) % 256;
      i := i + 2;
    }
  }

  // ---------------------------------------------------------------------
  // parseBeaconBytes

  /** Outcome of parsing one frame: the extracted hex strings, or the index fault. */
  datatype ParseResult = Parsed(records: seq<string>) | IndexFault

  /** The parser reads a record at `c`: a non-zero length byte and a type byte after it. */
  predicate IsRecordAt(b: seq<byte>, c: nat) {
    c + 1 < |b| && b[c] != 0
  }

  /** Manufacturer Specific Data (type 0xFF) long enough to be inspected (`length >= 3`). */
  predicate IsManufacturerRecord(b: seq<byte>, c: nat)
    requires IsRecordAt(b, c)
  {
    b[c + 1] == 0xFF && b[c] >= 3
  }

  /** The read of the company identifier's high byte (`beacon[dataStart + 1]`) is out of range. */
  predicate FaultsAt(b: seq<byte>, c: nat)
    requires IsRecordAt(b, c)
  {
    IsManufacturerRecord(b, c) && c + 3 >= |b|
  }

  /** The 16-bit company identifier, little-endian, after the type byte. */
  function ManufacturerId(b: seq<byte>, c: nat): (id: int)
    requires c + 3 < |b|
    ensures 0 <= id < 0x1_0000
  {
    b[c + 2] as int + b[c + 3] as int * 256
  }

  /** The bytes after the identifier up to the record's end, clipped to the frame. */
  function Payload(b: seq<byte>, c: nat): seq<byte>
    requires IsRecordAt(b, c) && IsManufacturerRecord(b, c) && !FaultsAt(b, c)
  {
    b[c + 4 .. Min(c + 1 + b[c], |b|)]
  }

  /** A missing filter accepts every manufacturer; otherwise the id must be listed. */
  predicate Accepts(manufacturers: Option<seq<int>>, id: int) {
    manufacturers.None? || id in manufacturers.value
  }

  /** The starts of the records the parser visits from cursor `i`, in frame order. */
  function Cursors(b: seq<byte>, i: nat): (cs: seq<nat>)
    decreases |b| - i
  {
    if IsRecordAt(b, i) then [i] + Cursors(b, i + b[i] + 1) else []
  }

  /**
   * The walk starts at the cursor (when a record is there) and each next record
   * starts `length + 1 >= 2` bytes after the previous one.
   */
  lemma {:induction false} CursorsAdvance(b: seq<byte>, i: nat)
    ensures var cs := Cursors(b, i);
      && (IsRecordAt(b, i) <==> |cs| > 0)
      && (|cs| > 0 ==> cs[0] == i)
      && (forall k :: 0 <= k < |cs| ==> IsRecordAt(b, cs[k]))
      && forall j, k :: 0 <= j < k < |cs| && k == j + 1 ==> cs[k] == cs[j] + b[cs[j]] + 1 >= cs[j] + 2
    decreases |b| - i
  {
    if IsRecordAt(b, i) {
      var next := i + b[i] + 1;
      CursorsAdvance(b, next);
      var cs := Cursors(b, i);
      assert cs == [i] + Cursors(b, next);
      assert forall k :: 0 <= k < |cs| ==> IsRecordAt(b, cs[k]);
      forall j, k | 0 <= j < k < |cs| && k == j + 1 ensures cs[k] == cs[j] + b[cs[j]] + 1 {
        if j > 0 {
          assert cs[j] == Cursors(b, next)[j - 1] && cs[k] == Cursors(b, next)[k - 1];
        }
      }
    }
  }

  /** The parser visits at most one record per two bytes of the frame. */
  lemma {:induction false} CursorsBound(b: seq<byte>, i: nat)
    requires i <= |b|
    ensures 2 * |Cursors(b, i)| <= |b| - i
    decreases |b| - i
  {
    if IsRecordAt(b, i) {
      var next := i + b[i] + 1;
      if next <= |b| {
        CursorsBound(b, next);
      } else {
        assert Cursors(b, next) == [];
      }
    }
  }

  /** What the record at `c` adds to the output. */
  function RecordOutput(b: seq<byte>, manufacturers: Option<seq<int>>, c: nat): seq<string>
    requires IsRecordAt(b, c) && !FaultsAt(b, c)
  {
    if IsManufacturerRecord(b, c) && Accepts(manufacturers, ManufacturerId(b, c))
    then [HexEncode(Payload(b, c))]
    else []
  }

  predicate NoFault(b: seq<byte>, cs: seq<nat>) {
    forall c | c in cs :: IsRecordAt(b, c) && !FaultsAt(b, c)
  }

  /** The outputs of the records at `cs`, concatenated in order. */
  function Extracted(b: seq<byte>, manufacturers: Option<seq<int>>, cs: seq<nat>): seq<string>
    requires NoFault(b, cs)
  {
    if cs == [] then [] else RecordOutput(b, manufacturers, cs[0]) + Extracted(b, manufacturers, cs[1..])
  }

  /**
   * What `parseBeaconBytes` computes for a frame: the index fault when some
   * visited manufacturer record is cut off before its identifier, and otherwise
   * the accepted payloads in frame order.
   */
  function Parse(b: seq<byte>, manufacturers: Option<seq<int>>): ParseResult {
    var cs := Cursors(b, 0);
    if NoFault(b, cs) then Parsed(Extracted(b, manufacturers, cs)) else IndexFault
  }

  /** The three frames documented for the parser. */
  lemma ParseExamples()
    ensures Parse([0x04, 0xFF, 0x4C, 0x00, 0xAB], None) == Parsed(["ab"])
    ensures Parse([0x00], None) == Parsed([])
    ensures Parse([0x04, 0xFF, 0x4C, 0x00, 0xAB], Some([0x0099])) == Parsed([])
  {
    var b: seq<byte> := [0x04, 0xFF, 0x4C, 0x00, 0xAB];
    assert Cursors(b, 5) == [];
    assert Cursors(b, 0) == [0];
    assert ManufacturerId(b, 0) == 0x004C;
    assert Payload(b, 0) == [0xAB];
    assert HexEncode([0xAB]) == "ab";
    assert Cursors([0x00], 0) == [];
  }

  /**
   * The only out-of-range read is the identifier of the last record visited,
   * a manufacturer record that starts two or three bytes before the end.
   */
  lemma ParseFaultOnlyAtLastRecord(b: seq<byte>, manufacturers: Option<seq<int>>)
    ensures Parse(b, manufacturers) == IndexFault <==>
      var cs := Cursors(b, 0);
      |cs| > 0 && IsRecordAt(b, cs[|cs| - 1]) && FaultsAt(b, cs[|cs| - 1])
    ensures Parse(b, manufacturers) == IndexFault ==>
      var cs := Cursors(b, 0);
      |b| - 3 <= cs[|cs| - 1] <= |b| - 2
  {
    var cs := Cursors(b, 0);
    CursorsAdvance(b, 0);
    if !NoFault(b, cs) {
      var k :| 0 <= k < |cs| && !(IsRecordAt(b, cs[k]) && !FaultsAt(b, cs[k]));
      assert k + 1 < |cs| ==> cs[k + 1] == cs[k] + b[cs[k]] + 1 && IsRecordAt(b, cs[k + 1]);
      assert k == |cs| - 1;
    }
  }

  lemma {:induction false} ExtractedCount(b: seq<byte>, manufacturers: Option<seq<int>>, cs: seq<nat>)
    requires NoFault(b, cs)
    ensures |Extracted(b, manufacturers, cs)| <= |cs|
  {
    if cs != [] {
      ExtractedCount(b, manufacturers, cs[1..]);
    }
  }

  /** A frame of n bytes yields at most n / 2 hex strings. */
  lemma ParseCount(b: seq<byte>, manufacturers: Option<seq<int>>)
    ensures Parse(b, manufacturers).Parsed? ==> 2 * |Parse(b, manufacturers).records| <= |b|
  {
    CursorsBound(b, 0);
    if NoFault(b, Cursors(b, 0)) {
      ExtractedCount(b, manufacturers, Cursors(b, 0));
    }
  }

  lemma {:induction false} ExtractedFiltered(b: seq<byte>, filter: seq<int>, cs: seq<nat>)
    requires NoFault(b, cs)
    ensures multiset(Extracted(b, Some(filter), cs)) <= multiset(Extracted(b, None, cs))
    ensures filter == [] ==> Extracted(b, Some(filter), cs) == []
  {
    if cs != [] {
      ExtractedFiltered(b, filter, cs[1..]);
    }
  }

  /**
   * A filter only removes strings: whether the frame faults does not depend on
   * it, every string kept is one the unfiltered parse yields, and an empty
   * filter keeps nothing.
   */
  lemma ParseFilterOnlyRemoves(b: seq<byte>, filter: seq<int>)
    ensures Parse(b, Some(filter)).IndexFault? <==> Parse(b, None).IndexFault?
    ensures Parse(b, Some(filter)).Parsed? ==>
      multiset(Parse(b, Some(filter)).records) <= multiset(Parse(b, None).records)
    ensures filter == [] ==> Parse(b, Some(filter)) in {Parsed([]), IndexFault}
  {
    if NoFault(b, Cursors(b, 0)) {
      ExtractedFiltered(b, filter, Cursors(b, 0));
    }
  }

  /**
   * The parse resumed at cursor `i` with `acc` already extracted: the walk
   * stops where no record starts, faults at a faulting record, and otherwise
   * adds the record's output and moves on by length + 1.
   */
  function Resume(b: seq<byte>, manufacturers: Option<seq<int>>, i: nat, acc: seq<string>): ParseResult
    decreases |b| - i
  {
    if !IsRecordAt(b, i) then Parsed(acc)
    else if FaultsAt(b, i) then IndexFault
    else Resume(b, manufacturers, i + b[i] + 1, acc + RecordOutput(b, manufacturers, i))
  }

  /** Resuming at a cursor gives what the records visited from there give, after `acc`. */
  lemma ResumeAgrees(b: seq<byte>, manufacturers: Option<seq<int>>, i: nat, acc: seq<string>)
    ensures var cs := Cursors(b, i);
      Resume(b, manufacturers, i, acc)
        == if NoFault(b, cs) then Parsed(acc + Extracted(b, manufacturers, cs)) else IndexFault
  {
    if NoFault(b, Cursors(b, i)) {
      ResumeExtracts(b, manufacturers, i, acc);
    } else {
      ResumeFaults(b, manufacturers, i, acc);
    }
  }

  lemma {:induction false} ResumeExtracts(b: seq<byte>, manufacturers: Option<seq<int>>, i: nat, acc: seq<string>)
    requires NoFault(b, Cursors(b, i))
    ensures Resume(b, manufacturers, i, acc) == Parsed(acc + Extracted(b, manufacturers, Cursors(b, i)))
    decreases |b| - i
  {
    if !IsRecordAt(b, i) {
      assert acc + [] == acc;
    } else {
      var next := i + b[i] + 1;
      var rest := Cursors(b, next);
      ExtractedCons(b, manufacturers, i, rest);
      var out := RecordOutput(b, manufacturers, i);
      ResumeExtracts(b, manufacturers, next, acc + out);
      assert acc + out + Extracted(b, manufacturers, rest) == acc + (out + Extracted(b, manufacturers, rest));
    }
  }

  lemma {:induction false} ResumeFaults(b: seq<byte>, manufacturers: Option<seq<int>>, i: nat, acc: seq<string>)
    requires !NoFault(b, Cursors(b, i))
    ensures Resume(b, manufacturers, i, acc) == IndexFault
    decreases |b| - i
  {
    if IsRecordAt(b, i) {
      var next := i + b[i] + 1;
      assert Cursors(b, i) == [i] + Cursors(b, next);
      NoFaultCons(b, i, Cursors(b, next));
      if !FaultsAt(b, i) {
        ResumeFaults(b, manufacturers, next, acc + RecordOutput(b, manufacturers, i));
      }
    }
  }

  lemma NoFaultCons(b: seq<byte>, c: nat, rest: seq<nat>)
    ensures NoFault(b, [c] + rest) <==> IsRecordAt(b, c) && !FaultsAt(b, c) && NoFault(b, rest)
  {
    assert c in [c] + rest;
    assert forall x | x in [c] + rest :: x == c || x in rest;
    assert forall x | x in rest :: x in [c] + rest;
  }

  lemma ExtractedCons(b: seq<byte>, manufacturers: Option<seq<int>>, c: nat, rest: seq<nat>)
    requires NoFault(b, [c] + rest)
    ensures NoFault(b, rest)
    ensures Extracted(b, manufacturers, [c] + rest)
         == RecordOutput(b, manufacturers, c) + Extracted(b, manufacturers, rest)
  {
    NoFaultCons(b, c, rest);
    assert ([c] + rest)[1..] == rest;
  }

  /** The parse is the walk resumed at the start with nothing extracted. */
  lemma ParseIsResumeFromStart(b: seq<byte>, manufacturers: Option<seq<int>>)
    ensures Parse(b, manufacturers) == Resume(b, manufacturers, 0, [])
  {
    ResumeAgrees(b, manufacturers, 0, []);
    if NoFault(b, Cursors(b, 0)) {
      assert [] + Extracted(b, manufacturers, Cursors(b, 0)) == Extracted(b, manufacturers, Cursors(b, 0));
    }
  }

  /**
   * The loop body of `parseBeaconBytes` for the record at `index`: a
   * Manufacturer Specific Data record of length >= 3 has its identifier read,
   * which faults when the high byte lies past the end, and adds its payload,
   * hex-encoded, when the filter accepts the identifier; any other record adds
   * nothing.
   */
  method ReadRecord(beacon: seq<byte>, manufacturers: Option<seq<int>>, index: nat) returns (fault: bool, added: seq<string>)
    requires IsRecordAt(beacon, index)
    ensures fault <==> FaultsAt(beacon, index)
    ensures !fault ==> added == RecordOutput(beacon, manufacturers, index)
  {
    var length := beacon[index] as int;
    var typeIndex := index + 1;
    var recordType := beacon[typeIndex];
    added := [];
    if recordType == 0xFF && length >= 3 {
      var dataStart := typeIndex + 1;
      if dataStart + 1 >= |beacon| {
        return true, [];
      }
      var manufacturerId := beacon[dataStart + 1] as int * 256 + beacon[dataStart] as int;
      assert ManufacturerId(beacon, index) == manufacturerId;
      if manufacturers == None || manufacturerId in manufacturers.value {
        var dataEnd := Min(dataStart + (length - 1), |beacon|);
        var manufacturerData := beacon[dataStart + 2 .. dataEnd];
        assert manufacturerData == Payload(beacon, index);
        added := [HexEncode(manufacturerData)];
      }
    }
    fault := false;
  }

  /** `parseBeaconBytes`: the fault, or the accepted payloads in frame order. */
  method ParseBeaconBytes(beacon: seq<byte>, manufacturers: Option<seq<int>>) returns (r: ParseResult)
    ensures r == Parse(beacon, manufacturers)
  {
    r := WalkRecords(beacon, manufacturers);
    ParseIsResumeFromStart(beacon, manufacturers);
  }

  /**
   * The cursor loop of `parseBeaconBytes`: stops at a zero length byte or when
   * the type byte would lie past the end, and otherwise reads the record and
   * moves on by length + 1.
   */
  method WalkRecords(beacon: seq<byte>, manufacturers: Option<seq<int>>) returns (r: ParseResult)
    ensures r == Resume(beacon, manufacturers, 0, [])
  {
    var result: seq<string> := [];
    var index: nat := 0;
    while index < |beacon|
      invariant Resume(beacon, manufacturers, index, result) == Resume(beacon, manufacturers, 0, [])
      decreases |beacon| - index
    {
      var length := beacon[index] as int;
      if length == 0 {
        break;
      }
      var typeIndex := index + 1;
      if typeIndex >= |beacon| {
        break;
      }
      var fault, added := ReadRecord(beacon, manufacturers, index);
      if fault {
        return IndexFault;
      }
      assert Resume(beacon, manufacturers, index, result)
          == Resume(beacon, manufacturers, index + length + 1, result + added);
      result := result + added;
      index := index + length + 1;
    }
    return Parsed(result);
  }
}
