/**
 * The TAPCP synthetic filenames used to address registers and flash:
 *   `/dev/NAME.OFFSET.COUNT` to read `COUNT` words of register `NAME` from word `OFFSET`,
 *   `/dev/NAME.OFFSET`       to write register `NAME` from word `OFFSET`,
 *   `/flash.OFFSET.COUNT`    to read flash,
 * with `OFFSET` and `COUNT` rendered by `{:x}`. Each builder is paired with a parse that
 * recovers its arguments, splitting at the last `.`s, which shows that distinct arguments give
 * distinct filenames of the same kind.
 */
module Filenames {
  import opened Results
  import opened HexFormat

  const DevPrefix: string := "/dev/"
  const FlashPrefix: string := "/flash."
  const ListdevPath: string := "/listdev"

  /** The filename `read_device` asks for: `format!("/dev/{}.{:x}.{:x}", device, offset, n)`. */
  function ReadDevicePath(device: string, offset: nat, n: nat): (p: string)
    ensures p == WriteDevicePath(device, offset) + "." + Hex(n)
  {
    DevPrefix + device + "." + Hex(offset) + "." + Hex(n)
  }

  /** The filename `write_device` asks for: `format!("/dev/{}.{:x}", device, offset)`. */
  function WriteDevicePath(device: string, offset: nat): (p: string)
    ensures |p| > |DevPrefix| + |device| && p[..|DevPrefix| + |device|] == DevPrefix + device
    ensures var tail := p[|DevPrefix| + |device|..]; |tail| >= 2 && tail[0] == '.' && '.' !in tail[1..]
    ensures p[|DevPrefix| + |device| + 1..] == Hex(offset)
  {
    HexHasNoDot(offset);
    var p := DevPrefix + device + "." + Hex(offset);
    assert p[|DevPrefix| + |device|..] == "." + Hex(offset);
    assert p[|DevPrefix| + |device| + 1..] == Hex(offset);
    p
  }

  /** The filename `read_flash` asks for: `format!("/flash.{:x}.{:x}", offset, n)`. */
  function ReadFlashPath(offset: nat, n: nat): (p: string)
    ensures |p| > |FlashPrefix| && p[..|FlashPrefix|] == FlashPrefix
    ensures p[|FlashPrefix|..] == Hex(offset) + "." + Hex(n)
  {
    var p := FlashPrefix + Hex(offset) + "." + Hex(n);
    assert p[|FlashPrefix|..] == Hex(offset) + "." + Hex(n);
    p
  }

  /** Splits a string at its last `.`; None when it has none. */
  function SplitLast(s: string): (r: Option<(string, string)>)
    ensures r.Some? ==> s == r.value.0 + "." + r.value.1 && '.' !in r.value.1
    ensures r.None? ==> '.' !in s
  {
    if |s| == 0 then None
    else if s[|s| - 1] == '.' then
      assert s == s[..|s| - 1] + "." + "";
      Some((s[..|s| - 1], ""))
    else
      match SplitLast(s[..|s| - 1])
      case None =>
        assert s == s[..|s| - 1] + [s[|s| - 1]];
        None
      case Some((front, back)) =>
        assert s == s[..|s| - 1] + [s[|s| - 1]];
        Some((front, back + [s[|s| - 1]]))
  }

  lemma {:induction false} SplitLastOfJoin(front: string, back: string)
    requires '.' !in back
    ensures SplitLast(front + "." + back) == Some((front, back))
    decreases |back|
  {
    var s := front + "." + back;
    if |back| == 0 {
      assert s[..|s| - 1] == front;
    } else {
      var init := back[..|back| - 1];
      assert s[..|s| - 1] == front + "." + init;
      assert '.' !in init by {
        assert forall i | 0 <= i < |init| :: init[i] == back[i];
      }
      SplitLastOfJoin(front, init);
      assert init + [s[|s| - 1]] == back;
    }
  }

  /** The rest of `s` after `prefix`; None when `s` does not start with it. */
  function StripPrefix(prefix: string, s: string): (r: Option<string>)
    ensures r.Some? ==> s == prefix + r.value
  {
    if |prefix| <= |s| && s[..|prefix|] == prefix then Some(s[|prefix|..]) else None
  }

  lemma StripPrefixOfJoin(prefix: string, rest: string)
    ensures StripPrefix(prefix, prefix + rest) == Some(rest)
  {
    assert (prefix + rest)[..|prefix|] == prefix;
  }

  /** Splits `FRONT.HEX` into FRONT and the number HEX renders; None when the text after the last `.` is not canonical hex. */
  function ParseHexSuffix(s: string): Option<(string, nat)> {
    match SplitLast(s)
    case None => None
    case Some((front, text)) =>
      match ParseHex(text)
      case None => None
      case Some(v) => Some((front, v))
  }

  /** `FRONT.HEX` parses to (FRONT, v) exactly when HEX is the rendering of v. */
  lemma ParseHexSuffixIsInverse(s: string, front: string, v: nat)
    ensures ParseHexSuffix(s) == Some((front, v)) <==> s == front + "." + Hex(v)
  {
    if s == front + "." + Hex(v) {
      HexHasNoDot(v);
      SplitLastOfJoin(front, Hex(v));
      ParseHexIsInverse(Hex(v), v);
    }
    if ParseHexSuffix(s) == Some((front, v)) {
      ParseHexIsInverse(SplitLast(s).value.1, v);
    }
  }

  /** Recovers (device, offset, count) from a read filename. */
  function ParseReadDevicePath(p: string): Option<(string, nat, nat)> {
    match StripPrefix(DevPrefix, p)
    case None => None
    case Some(rest) =>
      match ParseHexSuffix(rest)
      case None => None
      case Some((front, n)) =>
        match ParseHexSuffix(front)
        case None => None
        case Some((device, offset)) => Some((device, offset, n))
  }

  /** Recovers (device, offset) from a write filename. */
  function ParseWriteDevicePath(p: string): Option<(string, nat)> {
    match StripPrefix(DevPrefix, p)
    case None => None
    case Some(rest) => ParseHexSuffix(rest)
  }

  /** Recovers (offset, count) from a flash read filename. */
  function ParseReadFlashPath(p: string): Option<(nat, nat)> {
    match StripPrefix(FlashPrefix, p)
    case None => None
    case Some(rest) =>
      match ParseHexSuffix(rest)
      case None => None
      case Some((offsetText, n)) =>
        match ParseHex(offsetText)
        case None => None
        case Some(offset) => Some((offset, n))
  }

  lemma ReadDevicePathShape(device: string, offset: nat, n: nat)
    ensures ReadDevicePath(device, offset, n) == DevPrefix + ((device + "." + Hex(offset)) + "." + Hex(n))
  {
  }

  lemma ReadDevicePathFromParse(p: string, device: string, offset: nat, n: nat)
    requires ParseReadDevicePath(p) == Some((device, offset, n))
    ensures p == DevPrefix + ((device + "." + Hex(offset)) + "." + Hex(n))
  {
    var rest := StripPrefix(DevPrefix, p).value;
    var (front, _) := ParseHexSuffix(rest).value;
    ParseHexSuffixIsInverse(rest, front, n);
    ParseHexSuffixIsInverse(front, device, offset);
  }

  /** A read filename names exactly one (device, offset, count): it parses back to its arguments and to nothing else. */
  lemma ReadDevicePathParses(p: string, device: string, offset: nat, n: nat)
    ensures ParseReadDevicePath(p) == Some((device, offset, n)) <==> p == ReadDevicePath(device, offset, n)
  {
    var front := device + "." + Hex(offset);
    var rest := front + "." + Hex(n);
    ReadDevicePathShape(device, offset, n);
    if p == DevPrefix + rest {
      StripPrefixOfJoin(DevPrefix, rest);
      ParseHexSuffixIsInverse(rest, front, n);
      ParseHexSuffixIsInverse(front, device, offset);
    }
    if ParseReadDevicePath(p) == Some((device, offset, n)) {
      ReadDevicePathFromParse(p, device, offset, n);
    }
  }

  /** A write filename names exactly one (device, offset). */
  lemma WriteDevicePathParses(p: string, device: string, offset: nat)
    ensures ParseWriteDevicePath(p) == Some((device, offset)) <==> p == WriteDevicePath(device, offset)
  {
    var rest := device + "." + Hex(offset);
    assert WriteDevicePath(device, offset) == DevPrefix + rest;
    ParseHexSuffixIsInverse(rest, device, offset);
    if p == DevPrefix + rest {
      StripPrefixOfJoin(DevPrefix, rest);
    }
    if ParseWriteDevicePath(p) == Some((device, offset)) {
      ParseHexSuffixIsInverse(StripPrefix(DevPrefix, p).value, device, offset);
    }
  }

  /** A flash filename names exactly one (offset, count). */
  lemma ReadFlashPathParses(p: string, offset: nat, n: nat)
    ensures ParseReadFlashPath(p) == Some((offset, n)) <==> p == ReadFlashPath(offset, n)
  {
    var rest := Hex(offset) + "." + Hex(n);
    assert ReadFlashPath(offset, n) == FlashPrefix + rest;
    ParseHexSuffixIsInverse(rest, Hex(offset), n);
    ParseHexIsInverse(Hex(offset), offset);
    if p == FlashPrefix + rest {
      StripPrefixOfJoin(FlashPrefix, rest);
    }
    if ParseReadFlashPath(p) == Some((offset, n)) {
      var rest' := StripPrefix(FlashPrefix, p).value;
      var (offsetText, _) := ParseHexSuffix(rest').value;
      ParseHexSuffixIsInverse(rest', offsetText, n);
      ParseHexIsInverse(offsetText, offset);
    }
  }

  /** Register reads and flash reads never share a filename. */
  lemma DeviceAndFlashPathsDiffer(device: string, offset: nat, n: nat, flashOffset: nat, flashN: nat)
    ensures ReadDevicePath(device, offset, n) != ReadFlashPath(flashOffset, flashN)
  {
    assert ReadDevicePath(device, offset, n)[1] == 'd';
    assert ReadFlashPath(flashOffset, flashN)[1] == 'f';
  }

  /** The filename of the hardware round-trip test's read. */
  lemma ScratchpadReadPath()
    ensures ReadDevicePath("sys_scratchpad", 0, 1) == "/dev/sys_scratchpad.0.1"
  {
  }

  /** A whole-register read (count 0) from word 255. */
  lemma ScratchpadWholeReadPath()
    ensures ReadDevicePath("sys_scratchpad", 255, 0) == "/dev/sys_scratchpad.ff.0"
  {
  }

  /** Filenames of different kinds can coincide when a register name contains a `.`. */
  lemma WriteAndReadPathsCanCoincide()
    ensures WriteDevicePath("a.0", 1) == ReadDevicePath("a", 0, 1) == "/dev/a.0.1"
  {
    assert Hex(0) == "0" && Hex(1) == "1";
  }
}
