/**
 * Decoding of the `/listdev` directory into a map from register name to `Device`.
 * The list iterator that walks the compressed listing is foreign code whose byte
 * framing is not modelled: its output is taken as a sequence of `Entry` values, each
 * a raw name and the 8-byte record the iterator points at.
 */
module DeviceList {
  import opened Results
  import opened BigEndian

  /** A register of the running gateware: where it lives and how many bytes it holds. */
  datatype Device = Device(addr: u32, length: u32)

  /** The 8 bytes the iterator's value pointer designates. */
  type Record = s: seq<byte> | |s| == 8 witness [0, 0, 0, 0, 0, 0, 0, 0]

  /** One (key, value) pair handed out by the list iterator; the key is the bytes of a C string. */
  datatype Entry = Entry(name: seq<byte>, value: Record)

  type Directory = map<string, Device>

  /** UTF-8 validation and conversion of a key (`CStr::to_str`); None when the bytes are not UTF-8. */
  type NameDecoder = seq<byte> -> Option<string>

  /** The record's first word is the address and the second the length, both big-endian. */
  function DecodeRecord(value: Record): (d: Device)
    ensures Be32Bytes(d.addr) == value[..4]
    ensures Be32Bytes(d.length) == value[4..]
  {
    Be32BytesOfBe32(value[..4]);
    Be32BytesOfBe32(value[4..]);
    Device(Be32(value[..4]), Be32(value[4..]))
  }

  /** The 8 bytes the board stores for a device. */
  function EncodeRecord(d: Device): (value: Record)
    ensures DecodeRecord(value) == d
  {
    var value := Be32Bytes(d.addr) + Be32Bytes(d.length);
    assert value[..4] == Be32Bytes(d.addr);
    assert value[4..] == Be32Bytes(d.length);
    value
  }

  /** Re-encoding a decoded record gives back the original 8 bytes. */
  lemma EncodeDecodedRecord(value: Record)
    ensures EncodeRecord(DecodeRecord(value)) == value
  {
  }

  /** `dev_map.insert(key, Device { addr, length })`. */
  function Insert(dir: Directory, name: string, value: Record): (dir': Directory)
    ensures name in dir' && dir'[name] == DecodeRecord(value)
    ensures forall k | k != name :: (k in dir' <==> k in dir) && (k in dir ==> dir'[k] == dir[k])
    ensures dir'.Keys == dir.Keys + {name}
  {
    dir[name := DecodeRecord(value)]
  }

  /**
   * The directory built by the loop of `listdev`: starting from an empty map, the entries are
   * inserted in order, so a later duplicate name overwrites an earlier one; the first name that
   * is not UTF-8 aborts the listing (None).
   */
  function Accumulate(entries: seq<Entry>, utf8: NameDecoder): Option<Directory>
    decreases |entries|
  {
    if |entries| == 0 then Some(map[])
    else
      var last := entries[|entries| - 1];
      match Accumulate(entries[..|entries| - 1], utf8)
      case None => None
      case Some(dir) =>
        match utf8(last.name)
        case None => None
        case Some(name) => Some(Insert(dir, name, last.value))
  }

  /** Every key of the listing is valid UTF-8. */
  predicate AllNamesDecode(entries: seq<Entry>, utf8: NameDecoder) {
    forall i | 0 <= i < |entries| :: utf8(entries[i].name).Some?
  }

  /** Some entry carries the name `name`. */
  predicate Listed(entries: seq<Entry>, utf8: NameDecoder, name: string) {
    exists i | 0 <= i < |entries| :: utf8(entries[i].name) == Some(name)
  }

  /** Entry `i` carries `name` and no later entry does. */
  predicate IsLastListing(entries: seq<Entry>, utf8: NameDecoder, name: string, i: int) {
    && 0 <= i < |entries|
    && utf8(entries[i].name) == Some(name)
    && forall j | i < j < |entries| :: utf8(entries[j].name) != Some(name)
  }

  /** The record of the last entry named `name`, scanning from the end; None when no entry has that name. */
  function LastRecord(entries: seq<Entry>, utf8: NameDecoder, name: string): Option<Record>
    decreases |entries|
  {
    if |entries| == 0 then None
    else if utf8(entries[|entries| - 1].name) == Some(name) then Some(entries[|entries| - 1].value)
    else LastRecord(entries[..|entries| - 1], utf8, name)
  }

  /** The listing fails exactly when some key is not UTF-8. */
  lemma {:induction false} AccumulateFailsOnBadName(entries: seq<Entry>, utf8: NameDecoder)
    ensures Accumulate(entries, utf8).Some? <==> AllNamesDecode(entries, utf8)
    decreases |entries|
  {
    if |entries| > 0 {
      var init := entries[..|entries| - 1];
      AccumulateFailsOnBadName(init, utf8);
      assert AllNamesDecode(init, utf8) && utf8(entries[|entries| - 1].name).Some? ==> AllNamesDecode(entries, utf8) by {
        assert forall i | 0 <= i < |init| :: entries[i] == init[i];
      }
      assert AllNamesDecode(entries, utf8) ==> AllNamesDecode(init, utf8) by {
        assert forall i | 0 <= i < |init| :: entries[i] == init[i];
      }
    }
  }

  /**
   * Last write wins: the directory holds a name iff the last entry carrying it decoded to the
   * stored device, and holds no other name.
   */
  lemma {:induction false} AccumulateHoldsLastRecords(entries: seq<Entry>, utf8: NameDecoder, name: string)
    requires Accumulate(entries, utf8).Some?
    ensures var dir := Accumulate(entries, utf8).value;
      && (name in dir <==> LastRecord(entries, utf8, name).Some?)
      && (name in dir ==> dir[name] == DecodeRecord(LastRecord(entries, utf8, name).value))
    decreases |entries|
  {
    if |entries| > 0 {
      AccumulateHoldsLastRecords(entries[..|entries| - 1], utf8, name);
    }
  }

  /** The last record for a name is that of an entry with the name, and no later entry has it. */
  lemma {:induction false} LastRecordIsLast(entries: seq<Entry>, utf8: NameDecoder, name: string)
    ensures LastRecord(entries, utf8, name).None? <==> !Listed(entries, utf8, name)
    ensures LastRecord(entries, utf8, name).Some? ==>
      exists i :: IsLastListing(entries, utf8, name, i) && entries[i].value == LastRecord(entries, utf8, name).value
    decreases |entries|
  {
    if |entries| > 0 {
      var init := entries[..|entries| - 1];
      LastRecordIsLast(init, utf8, name);
      assert forall i | 0 <= i < |init| :: entries[i] == init[i];
      if utf8(entries[|entries| - 1].name) != Some(name) && LastRecord(init, utf8, name).Some? {
        var i :| IsLastListing(init, utf8, name, i) && init[i].value == LastRecord(init, utf8, name).value;
        assert IsLastListing(entries, utf8, name, i);
      }
    }
  }

  /** The directory's keys are exactly the names listed, and each maps to the device of the last entry with that name. */
  lemma DirectoryContents(entries: seq<Entry>, utf8: NameDecoder, name: string)
    requires Accumulate(entries, utf8).Some?
    ensures name in Accumulate(entries, utf8).value <==> Listed(entries, utf8, name)
    ensures forall i | IsLastListing(entries, utf8, name, i) ::
      Accumulate(entries, utf8).value[name] == DecodeRecord(entries[i].value)
  {
    AccumulateHoldsLastRecords(entries, utf8, name);
    LastRecordIsLast(entries, utf8, name);
    forall i | IsLastListing(entries, utf8, name, i)
      ensures Accumulate(entries, utf8).value[name] == DecodeRecord(entries[i].value)
    {
      var k :| IsLastListing(entries, utf8, name, k) && entries[k].value == LastRecord(entries, utf8, name).value;
      assert k == i;
    }
  }
}
