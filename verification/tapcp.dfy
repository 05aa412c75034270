/**
 * The register-access operations of the TAPCP client: read and write a named gateware
 * register, read flash, and list the registers. The TFTP transfer is a parameter: a `Reader`
 * returns the bytes of a read transfer or the transfer's error, a `Writer` the outcome of a
 * write transfer. The list iterator and the UTF-8 check of register names are parameters too.
 */
module Tapcp {
  import opened Results
  import opened BigEndian
  import opened Filenames
  import opened DeviceList

  /** TFTP transfer mode. */
  datatype Mode = Octet | NetAscii

  /** Whatever the transfer layer reports when an exchange fails. */
  datatype TransferError = TransferError(reason: string)

  datatype Error =
    | Transfer(cause: TransferError)  // a failed transfer, passed on unchanged
    | SizeMismatch                    // a register read returned a byte count other than 4 per requested word
    | NameNotUtf8                     // a register name in the listing is not valid UTF-8
    | ListingTooShort                 // the listing has no room for its 2-byte length prefix (a panic in Rust)

  /** `tftp::read(path, socket, mode)`. */
  type Reader = (string, Mode) -> Result<seq<byte>, TransferError>

  /** `tftp::write(path, data, socket)`. */
  type Writer = (string, seq<byte>) -> Result<(), TransferError>

  /** The list iterator run over the listing (its byte framing is not modelled). */
  type ListIterator = seq<byte> -> seq<Entry>

  /** The bytes returned for a read of `n` words are rejected: a count was given and they are not 4 bytes per word. */
  predicate LengthMismatch(n: nat, received: nat) {
    n != 0 && received != 4 * n
  }

  /**
   * `read_device`: read `n` words of register `device` from word `offset` (all of it from
   * `offset` on when `n` is 0). The reply is passed on unchanged once its length is accepted.
   */
  function ReadDevice(device: string, offset: nat, n: nat, read: Reader): (r: Result<seq<byte>, Error>)
    ensures var t := read(ReadDevicePath(device, offset, n), Octet);
      && (t.Failure? ==> r == Failure(Transfer(t.error)))
      && (t.Success? && n == 0 ==> r == Success(t.value))
      && (t.Success? && n > 0 ==> (r.Success? <==> |t.value| == 4 * n))
      && (r.Success? ==> r.value == t.value)
      && (t.Success? && r.Failure? ==> r.error == SizeMismatch)
  {
    match read(ReadDevicePath(device, offset, n), Octet)
    case Failure(e) => Failure(Transfer(e))
    case Success(bytes) =>
      if LengthMismatch(n, |bytes|) then Failure(SizeMismatch) else Success(bytes)
  }

  /** A successful read of n > 0 words returns exactly n 4-byte words. */
  lemma ReadDeviceReturnsWholeWords(device: string, offset: nat, n: nat, read: Reader)
    requires n > 0 && ReadDevice(device, offset, n, read).Success?
    ensures var bytes := ReadDevice(device, offset, n, read).value;
      |bytes| % 4 == 0 && |bytes| / 4 == n
  {
  }

  /** `write_device`: write `data` to register `device` from word `offset`; the transfer's outcome is the result. */
  function WriteDevice(device: string, offset: nat, data: seq<byte>, write: Writer): (r: Result<(), Error>)
    ensures var t := write(WriteDevicePath(device, offset), data);
      && (r.Success? <==> t.Success?)
      && (t.Failure? ==> r == Failure(Transfer(t.error)))
  {
    match write(WriteDevicePath(device, offset), data)
    case Success(_) => Success(())
    case Failure(e) => Failure(Transfer(e))
  }

  /** `read_flash`: read `n` words of flash from word `offset`; the reply is passed on whatever its length. */
  function ReadFlash(offset: nat, n: nat, read: Reader): (r: Result<seq<byte>, Error>)
    ensures var t := read(ReadFlashPath(offset, n), Octet);
      && (t.Success? ==> r == Success(t.value))
      && (t.Failure? ==> r == Failure(Transfer(t.error)))
  {
    match read(ReadFlashPath(offset, n), Octet)
    case Failure(e) => Failure(Transfer(e))
    case Success(bytes) => Success(bytes)
  }

  /**
   * Given the same reply, a register read of n > 0 words rejects a wrongly sized reply
   * while a flash read of the same words accepts it.
   */
  lemma OnlyRegisterReadsCheckLength(device: string, offset: nat, n: nat, bytes: seq<byte>)
    requires n > 0 && |bytes| != 4 * n
    ensures var read: Reader := (p, m) => Success(bytes);
      && ReadDevice(device, offset, n, read) == Failure(SizeMismatch)
      && ReadFlash(offset, n, read) == Success(bytes)
  {
  }

  /**
   * `listdev`: read `/listdev`, skip its 2-byte length prefix, and build the directory from
   * the entries the list iterator yields for the rest.
   */
  function ListDevices(read: Reader, iterate: ListIterator, utf8: NameDecoder): (r: Result<Directory, Error>)
    ensures var t := read(ListdevPath, Octet);
      && (t.Failure? ==> r == Failure(Transfer(t.error)))
      && (t.Success? && |t.value| < 2 ==> r == Failure(ListingTooShort))
      && (t.Success? && |t.value| >= 2 ==>
            (r.Success? <==> AllNamesDecode(iterate(t.value[2..]), utf8))
            && (r.Failure? ==> r.error == NameNotUtf8))
  {
    match read(ListdevPath, Octet)
    case Failure(e) => Failure(Transfer(e))
    case Success(bytes) =>
      if |bytes| < 2 then Failure(ListingTooShort)
      else
        AccumulateFailsOnBadName(iterate(bytes[2..]), utf8);
        match Accumulate(iterate(bytes[2..]), utf8)
        case None => Failure(NameNotUtf8)
        case Some(dir) => Success(dir)
  }

  /**
   * A listed directory holds exactly the names the iterator yields for the listing after its
   * 2-byte prefix, each mapped to the device of the last entry with that name.
   */
  lemma ListDevicesContents(read: Reader, iterate: ListIterator, utf8: NameDecoder, name: string)
    requires ListDevices(read, iterate, utf8).Success?
    ensures var bytes := read(ListdevPath, Octet).value;
      var entries := iterate(bytes[2..]);
      var dir := ListDevices(read, iterate, utf8).value;
      && |bytes| >= 2
      && (name in dir <==> Listed(entries, utf8, name))
      && (forall i | IsLastListing(entries, utf8, name, i) :: dir[name] == DecodeRecord(entries[i].value))
  {
    var bytes := read(ListdevPath, Octet).value;
    DirectoryContents(iterate(bytes[2..]), utf8, name);
  }

  /** Two registers listed under distinct names give a directory of exactly those two devices. */
  lemma TwoRegisterListing(a: seq<byte>, b: seq<byte>, utf8: NameDecoder)
    requires utf8(a) == Some("reg_a") && utf8(b) == Some("reg_b")
    ensures Accumulate([Entry(a, [0, 0, 0, 0x10, 0, 0, 0, 4]), Entry(b, [0, 0, 0, 0x20, 0, 0, 0, 8])], utf8)
      == Some(map["reg_a" := Device(0x10, 4), "reg_b" := Device(0x20, 8)])
  {
    var entries := [Entry(a, [0, 0, 0, 0x10, 0, 0, 0, 4]), Entry(b, [0, 0, 0, 0x20, 0, 0, 0, 8])];
    assert DecodeRecord(entries[0].value) == Device(0x10, 4) by {
      assert entries[0].value[..4] == [0, 0, 0, 0x10] && entries[0].value[4..] == [0, 0, 0, 4];
    }
    assert DecodeRecord(entries[1].value) == Device(0x20, 8) by {
      assert entries[1].value[..4] == [0, 0, 0, 0x20] && entries[1].value[4..] == [0, 0, 0, 8];
    }
    assert entries[..1] == [entries[0]];
    assert Accumulate([entries[0]], utf8) == Some(map["reg_a" := Device(0x10, 4)]) by {
      assert [entries[0]][..0] == [];
    }
  }

  /** A register listed twice keeps the later record. */
  lemma DuplicateNameKeepsLater(a: seq<byte>, first: Device, second: Device, utf8: NameDecoder)
    requires utf8(a).Some?
    ensures Accumulate([Entry(a, EncodeRecord(first)), Entry(a, EncodeRecord(second))], utf8)
      == Some(map[utf8(a).value := second])
  {
    var entries := [Entry(a, EncodeRecord(first)), Entry(a, EncodeRecord(second))];
    assert entries[..1] == [entries[0]];
    assert Accumulate([entries[0]], utf8) == Some(map[utf8(a).value := first]) by {
      assert [entries[0]][..0] == [];
    }
    assert map[utf8(a).value := first][utf8(a).value := second] == map[utf8(a).value := second];
  }

  // The length check as compiled: `n` is a `usize` and a release build wraps `n * 4`.

  const UsizeModulus: nat := 0x1_0000_0000_0000_0000

  /** Rust's `usize` on a 64-bit target. */
  type usize = x: nat | x < UsizeModulus

  /** `n != 0 && bytes.len() != n * 4` with the product wrapping modulo 2^64. */
  predicate LengthMismatchAsWritten(n: usize, received: usize) {
    n != 0 && received != (n * 4) % UsizeModulus
  }

  /** `read_device` as compiled in a release build. */
  function ReadDeviceAsWritten(device: string, offset: usize, n: usize, read: Reader): (r: Result<seq<byte>, Error>)
    ensures var t := read(ReadDevicePath(device, offset, n), Octet);
      && (t.Failure? ==> r == Failure(Transfer(t.error)))
      && (r.Success? ==> r.value == t.value)
  {
    match read(ReadDevicePath(device, offset, n), Octet)
    case Failure(e) => Failure(Transfer(e))
    case Success(bytes) =>
      if |bytes| < UsizeModulus && LengthMismatchAsWritten(n, |bytes|) then Failure(SizeMismatch)
      else if |bytes| >= UsizeModulus && n != 0 then Failure(SizeMismatch)
      else Success(bytes)
  }

  /** Whenever `4 * n` fits in a `usize`, the compiled check and `ReadDevice` agree. */
  lemma AsWrittenAgreesWithoutOverflow(device: string, offset: usize, n: usize, read: Reader)
    requires 4 * n < UsizeModulus
    ensures ReadDeviceAsWritten(device, offset, n, read) == ReadDevice(device, offset, n, read)
  {
  }

  /**
   * When `4 * n` overflows and wraps to the reply's length, the compiled check accepts a reply
   * far shorter than n words: for n = 2^62 + 1 the product wraps to 4, so a one-word reply is
   * accepted as if 2^62 + 1 words had arrived. `ReadDevice` rejects it.
   */
  lemma WrappedCountAcceptsShortReply(device: string, offset: usize, n: usize, bytes: seq<byte>)
    requires 4 * n >= UsizeModulus && (4 * n) % UsizeModulus == |bytes|
    ensures var read: Reader := (p, m) => Success(bytes);
      && ReadDeviceAsWritten(device, offset, n, read) == Success(bytes)
      && ReadDevice(device, offset, n, read) == Failure(SizeMismatch)
  {
  }

  /** The smallest such count: 2^62 + 1 words wrap to a single word. */
  lemma OneWordWitness()
    ensures var n: usize := 0x4000_0000_0000_0001; 4 * n >= UsizeModulus && (4 * n) % UsizeModulus == 4
  {
  }
}
