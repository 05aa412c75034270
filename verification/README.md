# TAPCP register access — a Dafny model

This project models the client side of TAPCP, the protocol a control program uses to
read and write memory-mapped registers ("devices") of an FPGA board over TFTP.
Registers are addressed through synthetic filenames. The board's list of registers is
fetched from `/listdev` and decoded into a map from register name to `Device`, which holds
the register's address and byte length.

The model covers the pure logic of `src/lib.rs`:

- **Filenames** (`hex.dfy`, `filenames.dfy`). `{:x}` rendering of word offsets and counts, and
  the three filename builders `/dev/NAME.OFFSET.COUNT`, `/dev/NAME.OFFSET` and
  `/flash.OFFSET.COUNT`. Each builder has a parser that splits at the last `.`s and recovers
  exactly the builder's arguments, so distinct arguments give distinct filenames of the same kind.
  Filenames of different kinds can coincide when a register name contains a `.`
  (`/dev/a.0.1` is both a write of register `a.0` at word 1 and a read of one word of `a` at
  word 0); how the board splits such names is not shown in `src/lib.rs`.
- **Read-length validation** (`tapcp.dfy`). `read_device` rejects a reply unless the count is 0
  or the reply holds exactly 4 bytes per requested word. `read_flash` does not check the length.
- **Directory decoding** (`big_endian.dfy`, `device_list.dfy`, `tapcp.dfy`). Each 8-byte record
  holds two big-endian `u32`s, the address then the length. Records are inserted into the map in
  order, so a later duplicate name overwrites an earlier one.

The TFTP transfer is a function parameter. A `Reader` returns the bytes of a read or a
`TransferError`. A `Writer` returns the outcome of a write. The foreign list iterator is a
parameter that yields an abstract sequence of `Entry` values (raw name, 8-byte record). The
UTF-8 check of names (`CStr::to_str`) is a parameter returning `Option<string>`. Rust's `usize`
is `nat`, except in `Tapcp.ReadDeviceAsWritten`, which models the 64-bit wrap-around of the
length check (see Findings).

The code does not frame the listing itself. It trusts the foreign iterator to hand out
NUL-terminated names and 8-byte records. The model therefore has no "truncated record" error:
every `Entry` carries exactly 8 bytes, by its type.

## Model

| member | source | states |
|---|---|---|
| `BigEndian.Be32` | src/lib.rs:66-67 | `u32::from_be_bytes`, first byte most significant; its contract is carried by `BigEndian.Be32Bytes` and `BigEndian.Be32BytesOfBe32` |
| `DeviceList.Accumulate` | src/lib.rs:47-71 | the `listdev` loop; its contract is carried by `DeviceList.AccumulateFailsOnBadName` and `DeviceList.DirectoryContents` |
| `Tapcp.LengthMismatch` | src/lib.rs:88 | the length check of `read_device`; its contract is carried by `Tapcp.ReadDevice` and `Tapcp.OnlyRegisterReadsCheckLength` |
| `HexFormat.Hex` | src/lib.rs:86 | `{:x}` output is non-empty, uses only `0-9a-f`, has no prefix, has no leading `0`, and is `"0"` exactly for zero |
| `HexFormat.ValueOfHex` | src/lib.rs:86 | the base-16 value of the rendering of `n` is `n` |
| `HexFormat.HexOfValue` | src/lib.rs:86 | every canonical lower-case hex string is the rendering of its own value |
| `HexFormat.ParseHexIsInverse` | src/lib.rs:103 | a string parses to `n` if and only if it is the `{:x}` rendering of `n` |
| `HexFormat.HexInjective` | src/lib.rs:112 | distinct offsets or counts render to distinct strings |
| `HexFormat.HexExamples` | src/lib.rs:86 | 0, 1, 255 and 4096 render as `0`, `1`, `ff` and `1000` |
| `Filenames.ReadDevicePath` | src/lib.rs:84-86 | the read filename is the write filename for the same register and offset, followed by `.` and the hex count |
| `Filenames.WriteDevicePath` | src/lib.rs:101-103 | the write filename is `/dev/NAME` followed by one `.` and exactly the hex offset; it has no further `.`, so no count component |
| `Filenames.ReadFlashPath` | src/lib.rs:111-112 | the flash filename is `/flash.` followed by the hex offset, `.`, and the hex count |
| `Filenames.SplitLastOfJoin` | src/lib.rs:86 | splitting `front.back` at its last `.` gives back `front` and `back` when `back` has no `.` |
| `Filenames.ReadDevicePathParses` | src/lib.rs:84-86 | a string parses as a register read of (device, offset, count) if and only if it is that read's filename, so distinct arguments give distinct read filenames |
| `Filenames.WriteDevicePathParses` | src/lib.rs:101-103 | a string parses as a register write of (device, offset) if and only if it is that write's filename, so distinct arguments give distinct write filenames |
| `Filenames.ReadFlashPathParses` | src/lib.rs:111-112 | a string parses as a flash read of (offset, count) if and only if it is that read's filename, so distinct arguments give distinct flash filenames |
| `Filenames.DeviceAndFlashPathsDiffer` | src/lib.rs:86-112 | a register read and a flash read never use the same filename |
| `Filenames.WriteAndReadPathsCanCoincide` | src/lib.rs:86-103 | a write of register `a.0` at word 1 and a one-word read of `a` at word 0 both use `/dev/a.0.1` |
| `Filenames.ScratchpadReadPath` | src/lib.rs:125-130 | the test's read of 1 word of `sys_scratchpad` at word 0 asks for `/dev/sys_scratchpad.0.1` |
| `Filenames.ScratchpadWholeReadPath` | src/lib.rs:76-86 | a whole-register read (count 0) from word 255 asks for `/dev/sys_scratchpad.ff.0` |
| `BigEndian.Be32Bytes` | src/lib.rs:66-67 | `u32::from_be_bytes` reads back the 4 bytes `u32::to_be_bytes` produces |
| `BigEndian.Be32BytesOfBe32` | src/lib.rs:66-67 | any 4 bytes are recovered by re-encoding the `u32` they decode to |
| `BigEndian.Be32Injective` | src/lib.rs:66-67 | distinct 4-byte words decode to distinct `u32`s |
| `DeviceList.DecodeRecord` | src/lib.rs:62-67 | the address re-encodes to the record's first 4 bytes and the length to its last 4 |
| `DeviceList.EncodeRecord` | src/lib.rs:62-67 | decoding the 8-byte encoding of a `Device` gives back that device |
| `DeviceList.EncodeDecodedRecord` | src/lib.rs:62-67 | re-encoding a decoded record gives back the original 8 bytes |
| `DeviceList.Insert` | src/lib.rs:70 | after inserting a name, it maps to the decoded record; every other key and value is unchanged; the key set gains only that name |
| `DeviceList.AccumulateFailsOnBadName` | src/lib.rs:47-71 | building the directory fails if and only if some listed name is not UTF-8 |
| `DeviceList.AccumulateHoldsLastRecords` | src/lib.rs:33-71 | the directory holds a name iff some entry carries it, and maps it to the record of the last such entry |
| `DeviceList.LastRecordIsLast` | src/lib.rs:47-71 | the record chosen for a name belongs to an entry with that name, and no later entry carries the name |
| `DeviceList.DirectoryContents` | src/lib.rs:33-71 | the directory's keys are exactly the listed names, and each key maps to the device of its last listing |
| `Tapcp.ReadDevice` | src/lib.rs:78-92 | reads `/dev/NAME.OFFSET.COUNT` in octet mode; transfer errors pass through; count 0 never fails on length; count n > 0 succeeds iff the reply has 4n bytes; success returns the reply unchanged; any other failure is `SizeMismatch` |
| `Tapcp.ReadDeviceReturnsWholeWords` | src/lib.rs:76-91 | a successful read of n > 0 words returns exactly n 4-byte words |
| `Tapcp.WriteDevice` | src/lib.rs:95-106 | hands the data to the transfer for `/dev/NAME.OFFSET` and succeeds exactly when that transfer does |
| `Tapcp.ReadFlash` | src/lib.rs:110-115 | reads `/flash.OFFSET.COUNT` in octet mode and returns the reply unchanged whatever its length |
| `Tapcp.OnlyRegisterReadsCheckLength` | src/lib.rs:88-114 | for the same wrongly sized reply, a register read fails with `SizeMismatch` and a flash read succeeds |
| `Tapcp.ListDevices` | src/lib.rs:31-73 | reads `/listdev` in octet mode; transfer errors pass through; a reply without its 2-byte prefix fails; otherwise it succeeds iff every name yielded for the bytes after the prefix is UTF-8 |
| `Tapcp.ListDevicesContents` | src/lib.rs:33-71 | the listed directory starts empty, covers the entries decoded from byte 2 on, holds exactly their names, and keeps the last record per name |
| `Tapcp.TwoRegisterListing` | src/lib.rs:47-71 | entries `reg_a` (0x10, 4) and `reg_b` (0x20, 8) yield a map with exactly those two devices |
| `Tapcp.DuplicateNameKeepsLater` | src/lib.rs:70 | a name listed twice maps to its second record |
| `Tapcp.ReadDeviceAsWritten` | src/lib.rs:88-91 | the compiled `read_device` passes transfer errors through and returns replies unchanged |
| `Tapcp.AsWrittenAgreesWithoutOverflow` | src/lib.rs:88 | when `4 * n` fits in a `usize`, the compiled check and `ReadDevice` give the same result |
| `Tapcp.WrappedCountAcceptsShortReply` | src/lib.rs:88 | when `4 * n` overflows and wraps to the reply's length, the compiled check accepts the reply and `ReadDevice` rejects it |
| `Tapcp.OneWordWitness` | src/lib.rs:88 | n = 2^62 + 1 overflows `4 * n`, which wraps to 4 |

## Left out

- Tapcp.ListDevices: a `/listdev` reply shorter than 2 bytes makes `bytes[2..]` panic in the source (src/lib.rs:41); the model returns the distinct error `ListingTooShort` instead of modelling a panic.
- The right-to-left splitting of filenames is this model's own parse; how the board splits a register name that contains `.` is not part of this model.
- The TFTP transfer engine (`tftp::read`, `tftp::write`): block sequencing, acknowledgements, retries, timeouts and NetASCII translation. `src/tftp.rs` is not part of this model; it is network I/O over a `UdpSocket`. Each call is an opaque `Reader` or `Writer` parameter.
- The list iterator `csl_iter_init`/`csl_iter_next` (src/lib.rs:41-53). It is foreign C code with hidden state between calls, and its byte format is not part of this model. Its output is an abstract `seq<Entry>`, produced by a parameter from the bytes after the 2-byte prefix.
- UTF-8 validation of register names (src/lib.rs:58-60) is the `NameDecoder` parameter. Its failure aborts the listing, as `?` does in the source.
- `temp` (src/lib.rs:10-13): it decodes an `f32` from the `/temp` reply; floating point is not modelled.
- `help` (src/lib.rs:16-19): a NetASCII read of `/help` converted to text; it relies on the transfer's text mode, which is not modelled.
- The hardware round-trip test (src/lib.rs:122-132) needs a live board. Only its filename is modelled, in `Filenames.ScratchpadReadPath`. Whether the board returns what was written depends on the board, which is not modelled.
- A `u32::from_be_bytes(value[..4].try_into()?)` conversion cannot fail on an 8-byte slice, so it has no error path in the model.
- Offsets and counts are `nat` rather than `usize` in the filename builders; `{:x}` of a `usize` does not wrap, so nothing is lost.

## Findings

| source | as written | input that shows it | evidently intended | confidence | as-written member | corrected member |
|---|---|---|---|---|---|---|
| src/lib.rs:88 | `bytes.len() != n * 4` multiplies two `usize`s; a release build wraps modulo 2^64 (a debug build panics instead) | `n` = 2^62 + 1 words with a 4-byte reply: `n * 4` wraps to 4 and the reply is accepted | reject any reply whose length is not exactly 4 bytes per requested word | low; not executed, and it needs an absurd count | `Tapcp.WrappedCountAcceptsShortReply` | `Tapcp.ReadDevice` |
