/**
 * Boot-sector metadata: the volume serial number and volume label of a FAT12
 * floppy, read best-effort from the first 512 bytes of the medium.
 */
module BootSector {
  import opened Wrappers
  import opened Floppy
  import opened Text

  /** The report's metadata object: serial (hex text), label and file-system tag. */
  datatype Metadata = Metadata(serial: string, volumeLabel: string, fs: string)

  const DefaultSerial: string := "UNKNOWN"
  const DefaultLabel: string := "NO_LABEL"
  const FileSystem: string := "FAT12"

  const BootSectorSize: nat := 512
  /** Byte offset of the 32-bit little-endian volume serial number. */
  const SerialOffset: nat := 39
  /** Byte offset and length of the volume label field. */
  const LabelOffset: nat := 43
  const LabelLength: nat := 11
  /** The serial is rendered with this many hexadecimal digits. */
  const SerialDigits: nat := 8

  function Defaults(): Metadata {
    Metadata(DefaultSerial, DefaultLabel, FileSystem)
  }

  /** The unsigned 32-bit integer stored little-endian in four bytes (`struct.unpack("<I", ...)`). */
  function LittleEndian32(b: seq<Byte>): (n: nat)
    requires |b| == 4
    ensures n < 0x1_0000_0000
  {
    b[0] as int + 256 * (b[1] as int + 256 * (b[2] as int + 256 * b[3] as int))
  }

  /**
   * `bytes.decode('ascii', errors='ignore')`: every byte below 128 becomes the
   * character with that code, every other byte is dropped.
   */
  function DecodeAsciiIgnore(bs: seq<Byte>): (r: string)
    ensures |r| <= |bs|
    ensures forall k :: 0 <= k < |r| ==> r[k] as int < 128
    ensures (forall k :: 0 <= k < |bs| ==> bs[k] < 128) ==>
      |r| == |bs| && forall k :: 0 <= k < |bs| ==> r[k] as int == bs[k]
    ensures |bs| == 1 ==> r == (if bs[0] < 128 then [bs[0] as char] else [])
  {
    if bs == [] then []
    else (if bs[0] < 128 then [bs[0] as char] else []) + DecodeAsciiIgnore(bs[1..])
  }

  /**
   * Decoding works byte by byte: the decoding of two byte strings one after
   * the other is the two decodings one after the other. With the one-byte
   * case this fixes the decoding of every byte string.
   */
  lemma {:induction false} DecodeAsciiIgnoreAppend(a: seq<Byte>, b: seq<Byte>)
    ensures DecodeAsciiIgnore(a + b) == DecodeAsciiIgnore(a) + DecodeAsciiIgnore(b)
  {
    if a == [] {
      assert a + b == b;
    } else {
      assert (a + b)[0] == a[0] && (a + b)[1..] == a[1..] + b;
      DecodeAsciiIgnoreAppend(a[1..], b);
    }
  }

  /** The serial as `f"{sn:08X}"`: eight upper-case hexadecimal digits. */
  function SerialText(boot: seq<Byte>): string
    requires |boot| == BootSectorSize
  {
    HexDigits(LittleEndian32(boot[SerialOffset..SerialOffset + 4]), SerialDigits)
  }

  /**
   * The label field decoded as ASCII with undecodable bytes dropped and
   * whitespace stripped.
   */
  function VolumeLabel(boot: seq<Byte>): (name: string)
    requires |boot| == BootSectorSize
    ensures |name| <= LabelLength
    ensures forall k :: 0 <= k < |name| ==> name[k] as int < 128
    ensures name != [] ==> !IsSpace(name[0]) && !IsSpace(name[|name| - 1])
  {
    Strip(DecodeAsciiIgnore(boot[LabelOffset..LabelOffset + LabelLength]))
  }

  /**
   * The metadata extraction: it only takes effect when the read returned
   * exactly 512 bytes (a failed read, `None`, or a short one keeps the
   * defaults). Then the serial is the hexadecimal rendering of bytes 39..42,
   * which parses back to their little-endian value, and the label replaces
   * the default only when the stripped label field is non-empty.
   */
  function ReadBootMetadata(boot: Option<seq<Byte>>): (m: Metadata)
    ensures m.fs == FileSystem
    ensures !(boot.Some? && |boot.value| == BootSectorSize) ==> m == Defaults()
    ensures boot.Some? && |boot.value| == BootSectorSize ==>
      |m.serial| == SerialDigits && (forall k :: 0 <= k < SerialDigits ==> IsUpperHexDigit(m.serial[k]))
      && ParseHex(m.serial) == LittleEndian32(boot.value[SerialOffset..SerialOffset + 4])
    ensures boot.Some? && |boot.value| == BootSectorSize ==>
      m.volumeLabel == (if VolumeLabel(boot.value) == [] then DefaultLabel else VolumeLabel(boot.value))
  {
    if boot.Some? && |boot.value| == BootSectorSize then
      var b := boot.value;
      var name := VolumeLabel(b);
      Pow16Eight();
      ParseHexDigits(LittleEndian32(b[SerialOffset..SerialOffset + 4]), SerialDigits);
      Metadata(SerialText(b), if name != [] then name else DefaultLabel, FileSystem)
    else
      Defaults()
  }

  lemma Pow16Eight()
    ensures Pow16(SerialDigits) == 0x1_0000_0000
  {
  }

  /**
   * The serial text is the four serial bytes in reverse order, each as two
   * hexadecimal digits: byte 42 first, byte 39 last.
   */
  lemma SerialIsBytesReversed(boot: seq<Byte>)
    requires |boot| == BootSectorSize
    ensures SerialText(boot) ==
      HexDigits(boot[42], 2) + HexDigits(boot[41], 2) + HexDigits(boot[40], 2) + HexDigits(boot[39], 2)
  {
    HexOfLittleEndian(boot[SerialOffset..SerialOffset + 4]);
  }

  /** Little-endian bytes printed most significant first: the bytes in reverse order. */
  lemma HexOfLittleEndian(b: seq<Byte>)
    requires |b| == 4
    ensures HexDigits(LittleEndian32(b), 8) ==
      HexDigits(b[3], 2) + HexDigits(b[2], 2) + HexDigits(b[1], 2) + HexDigits(b[0], 2)
  {
    var b0: nat, b1: nat, b2: nat, b3: nat := b[0], b[1], b[2], b[3];
    var hi: nat := b3 * 256 + b2;
    var mid: nat := hi * 256 + b1;
    var x := LittleEndian32(b);
    assert x == mid * 256 + b0;
    var s6 := HexDigits(mid, 6);
    var s4 := HexDigits(hi, 4);
    HexDigitsByte(mid, b0, 6);
    assert HexDigits(x, 8) == s6 + HexDigits(b0, 2);
    HexDigitsByte(hi, b1, 4);
    assert s6 == s4 + HexDigits(b1, 2);
    HexDigitsByte(b3, b2, 2);
    assert s4 == HexDigits(b3, 2) + HexDigits(b2, 2);
  }
}
