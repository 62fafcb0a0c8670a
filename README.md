# Multi-pass floppy rescue engine, modelled in Dafny

This project models the recovery engine of `check_flp.py`. The engine reads a
1.44 MB floppy disk in recovery units, one unit per (track, head) pair. It
makes two passes over the disk and builds a best-effort image. It then
classifies every unit by how many passes read it whole, and names the archive
it writes.

- **Boot sector** (`boot_sector.dfy`). A 512-byte boot-sector read gives the
  volume serial and label. The serial is the little-endian 32-bit value at
  bytes 39..42, written with eight upper-case hexadecimal digits. The label is
  bytes 43..53, decoded as ASCII with undecodable bytes dropped and whitespace
  stripped. A failed or short read keeps the defaults `UNKNOWN` and
  `NO_LABEL`, as does an empty label.
- **Scanner** (`scanner.dfy`). Two passes visit the 80 × 2 units in
  track-major, head-minor order. Unit (t, h) lives at byte offset
  `(t*2 + h) * 9216`. A read that returns exactly 9216 bytes records `true`,
  and any other outcome records `false`. A unit's bytes are copied into the
  zero-filled master image only on its first success.
- **Analysis** (`health.dfy`). A unit read on both passes is `STABLE_OK`. A
  unit read on none is `STABLE_BAD` and gets a `T:tt H:h` entry. Any other
  unit is `UNSTABLE` and gets a `T:tt H:h (s/2)` entry. The disk map lists
  the classes in unit order. The salvaged count is the number of units that
  are not `STABLE_BAD`. The health score is the salvaged count as a rounded
  percentage of 160.
- **Archive naming** (`archive.dfy`). The base name is
  `timestamp_comment_fingerprint_score`:
  - `timestamp` is the 14-digit start time;
  - `comment` is the stripped operator comment, or `NOCOMM` when that is empty;
  - `fingerprint` is the first four and last four characters of the image's
    MD5 digest, upper-cased.

  The `.bin`, `.json` and `.zip` files share this base name.
- **Summary** (`render.dfy`). The closing console summary shows one glyph per
  unit. Units appear in two rows, one per head: head 0 takes the even unit
  numbers and head 1 the odd ones.
- **Run** (`rescue.dfy`). `Rescue.MultiPassRescue` composes the pieces for a
  drive that opens, and it is proved equal to the specification function
  `Rescue.Rescued` of its inputs. The lemmas beside it restate the main
  promises for a whole run.

The medium is a read oracle `Device`. `device(p, t, h)` is what the read of
unit (t, h) on pass `p` returned: some bytes, possibly too few, or `None` when
the seek or the read raised. The scan is imperative. It works on an
`array<Byte>` master image of 1474560 bytes and an `array<seq<bool>>` table of
result lists, and it counts its unit reads. Both arrays are proved to end equal
to specification functions (`Scanner.Image`, `Scanner.PassResults`), and the
read count is proved to end at 320.

The comment is only stripped: the code applies no character filter and no
length cap. The score and the summary divide by a literal 160.

## Model

| member | source | states |
|---|---|---|
| Floppy.UnitIndex | check_flp.py:62-64 | the unit number of (t, h) is below 160 and gives back its track and head |
| Floppy.UnitIndexOf | check_flp.py:62-64 | every unit number below 160 is the unit number of exactly its own (track, head) |
| Floppy.Offset | check_flp.py:64 | the offset of (t, h) is its unit number times the track size, and the unit's 9216 bytes end inside the 1474560-byte image |
| Floppy.PositionIsOffset | check_flp.py:64 | byte k of unit (t, h) sits at `offset + k` |
| Floppy.TotalSizeIsAllUnits | check_flp.py:20-24 | the image size is exactly 160 units of 9216 bytes |
| Floppy.OffsetsDisjoint | check_flp.py:64 | two (track, head, byte) triples at the same disk position are the same triple |
| Floppy.PositionsDisjoint | check_flp.py:64 | positions inside distinct unit windows are distinct |
| Floppy.OutsideOtherWindows | check_flp.py:88 | a byte of one unit lies outside the window `[offset, offset+TRACK_SIZE)` of every other unit |
| Floppy.PositionSplit | check_flp.py:64 | the unit and the byte in it are recovered from a position by division and remainder |
| Floppy.OffsetsCover | check_flp.py:38 | every byte of the image lies in the window of some unit |
| Text.LeadingSpaces | check_flp.py:55 | the count of leading whitespace: all of those characters are whitespace and the next one is not |
| Text.TrailingSpaces | check_flp.py:55 | the same for trailing whitespace |
| Text.SpacesDoNotMeet | check_flp.py:55 | when a string is not all whitespace, its leading and trailing whitespace do not overlap |
| Text.Strip | check_flp.py:55 | `strip()` yields the slice between the leading and trailing whitespace; the result does not begin or end with whitespace, and it is empty exactly when the input is all whitespace |
| Text.IsSpace | check_flp.py:55 | the whitespace set of `str.strip()`; its meaning is stated by `Text.Strip`, `Text.LeadingSpaces` and `Text.TrailingSpaces` |
| Text.DigitValue | check_flp.py:30-31 | a decimal digit's value is below 10 |
| Text.DigitChar | check_flp.py:30-31 | the digit character of a value below 10 reads back as that value |
| Text.ParseNatToString | check_flp.py:125 | `str(n)` is a non-empty string of digits that parses back to n |
| Text.NatToString | check_flp.py:125 | `str(n)`; `Text.ParseNatToString` proves it is non-empty decimal digits that parse back to n |
| Text.NatToStringShort | check_flp.py:30-31 | a number below 10^k has at most k decimal digits |
| Text.ZeroChars | check_flp.py:30-31 | k zero characters |
| Text.ParseNatLeadingZeros | check_flp.py:30-31 | leading zeros do not change a digit string's value |
| Text.ParseNatPrefixZero | check_flp.py:30-31 | one leading zero does not change a digit string's value |
| Text.ZeroPadParses | check_flp.py:30-31 | zero-padded rendering gives at least `width` digits, exactly `width` when the number fits, and it parses back to the number |
| Text.ZeroPad | check_flp.py:30-31 | `{n:0wd}`; `Text.ZeroPadParses` proves its width and that it parses back to n |
| Text.Pad2 | check_flp.py:112 | `{n:02d}`; `Text.Pad2Digits` proves it is the tens and units digits of n below 100 |
| Text.Pad2Digits | check_flp.py:112 | `{n:02d}` below 100 is two digits, the tens and the units of n, and it parses back to n |
| Text.HexValue | check_flp.py:54 | a hexadecimal digit's value is below 16 |
| Text.HexChar | check_flp.py:54 | the upper-case hexadecimal digit of a value below 16 reads back as that value |
| Text.HexDigits | check_flp.py:54 | `{n:0wX}` has exactly w upper-case hexadecimal digits |
| Text.ParseHexDigits | check_flp.py:54 | a value below 16^w is rendered in w hexadecimal digits that parse back to it |
| Text.HexDigitsStep | check_flp.py:54 | one more low hexadecimal digit appends its character |
| Text.ByteDigits | check_flp.py:53-54 | a byte below a value is that value's last two hexadecimal digits |
| Text.HexDigitsByte | check_flp.py:53-54 | a byte below a value appends the byte's two hexadecimal digits |
| Text.ByteAppends | check_flp.py:53-54 | a byte below a value appends the digits of its high and its low half |
| Text.ByteHexDigits | check_flp.py:54 | the two hexadecimal digits of a byte are those of its halves |
| Text.UpperAscii | check_flp.py:121 | upper-casing maps `a`..`z` down by 32 and leaves every other character alone |
| Text.UpperAsciiString | check_flp.py:121 | upper-casing a string upper-cases each character and keeps the length |
| Text.UpperHexDigit | check_flp.py:121 | upper-casing a hexadecimal digit keeps it a digit of the same value |
| BootSector.LittleEndian32 | check_flp.py:53 | the little-endian value of four bytes fits in 32 bits |
| BootSector.DecodeAsciiIgnore | check_flp.py:55 | `decode('ascii', errors='ignore')` keeps only characters below 128, never lengthens the input, and on pure ASCII input keeps every byte; a single byte becomes its character when below 128 and nothing otherwise |
| BootSector.DecodeAsciiIgnoreAppend | check_flp.py:55 | decoding splits over concatenation, so with the one-byte case every ASCII byte is kept, in order, and every other byte is dropped |
| BootSector.VolumeLabel | check_flp.py:55 | the label is at most 11 ASCII characters and has no edge whitespace |
| BootSector.ReadBootMetadata | check_flp.py:50-57 | a 512-byte read sets the serial to 8 upper-case hex digits that parse back to the little-endian value of bytes 39..42, and it sets the label to the stripped field when that is non-empty; every other read keeps the defaults; the file-system tag is always FAT12 |
| BootSector.SerialText | check_flp.py:54 | `f"{sn:08X}"` of bytes 39..42; `BootSector.SerialIsBytesReversed` and `BootSector.ReadBootMetadata` state what it holds |
| BootSector.Pow16Eight | check_flp.py:54 | eight hexadecimal digits hold exactly the 32-bit values |
| BootSector.SerialIsBytesReversed | check_flp.py:53-54 | the serial text is bytes 42, 41, 40, 39 in that order, two hexadecimal digits each |
| BootSector.HexOfLittleEndian | check_flp.py:53-54 | eight hex digits of a little-endian value are its four bytes' digits in reverse order |
| Scanner.Successes | check_flp.py:107 | `sum(results)` never exceeds the number of passes recorded |
| Scanner.PassResults | check_flp.py:60-92 | after n passes a unit's list has exactly n flags, and flag k says whether pass k+1 read the unit whole |
| Scanner.FullRead | check_flp.py:85 | a read counts as a success exactly when it returned TRACK_SIZE bytes; used by `Scanner.ReadUnit` and `Scanner.PassResults` |
| Scanner.FirstSuccess | check_flp.py:85-88 | the earliest successful pass, with no success before it; None exactly when no pass succeeded |
| Scanner.Zeros | check_flp.py:38 | an unread unit is 9216 zero bytes |
| Scanner.UnitImage | check_flp.py:85-88 | a unit's bytes in the image are always 9216 long |
| Scanner.Image | check_flp.py:38 | the complete image is 1474560 bytes |
| Scanner.ImageAtPosition | check_flp.py:88 | byte k of unit u in the complete image is byte k of the data of the first pass that read u whole, or zero |
| Scanner.SuccessesAppend | check_flp.py:86-90 | appending a flag adds one success exactly when the flag is true |
| Scanner.SuccessesZero | check_flp.py:110 | a list sums to zero exactly when every flag is false |
| Scanner.SuccessesAll | check_flp.py:108 | a list sums to its length exactly when every flag is true |
| Scanner.NoSuccessYet | check_flp.py:87 | the sum is zero exactly when there has been no first success yet |
| Scanner.PassStep | check_flp.py:85-92 | a pass appends its flag, and the unit's bytes change only when this pass is its first success, and then to the data just read |
| Scanner.ResultsStep | check_flp.py:86-92 | visiting the current unit moves the result-table invariant past it |
| Scanner.ImageWritten | check_flp.py:88 | writing a unit's window and nothing else moves the image invariant past it |
| Scanner.ImageComplete | check_flp.py:60-92 | after every pass has visited every unit, the master image equals the complete image |
| Scanner.UnitStep | check_flp.py:82-92 | one unit read, as `ReadUnit` performs it, keeps both scan invariants |
| Scanner.ReadUnit | check_flp.py:82-92 | one unit read appends `len(data) == TRACK_SIZE` to the unit's list and, only on its first success, copies the data into the unit's window; every other byte and list is unchanged |
| Scanner.ScanPass | check_flp.py:62-92 | one pass reads every unit once in track-major, head-minor order, and the operation count rises by exactly 160 |
| Scanner.Scan | check_flp.py:60-92 | the scan leaves each unit's list as the flags of passes 1 and 2, and the master image as first-success data or zeros; the operation count ends at TOTAL_OPS = 320 |
| Health.ParseStatus | check_flp.py:109-114 | a status name that parses names back the status it parsed to |
| Health.StatusNameRoundTrip | check_flp.py:109-114 | the three status names are distinct and read back as their status |
| Health.StatusName | check_flp.py:109-114 | the disk-map names; `Health.StatusNameRoundTrip` proves them distinct and readable back |
| Health.ClassifyResults | check_flp.py:107-115 | over a two-flag list: STABLE_OK iff both passes succeeded, STABLE_BAD iff neither did, UNSTABLE iff they disagree |
| Health.Classify | check_flp.py:108-115 | the class of a success count; `Health.ClassifyResults` proves the three iff characterisations |
| Health.ParseSpot | check_flp.py:112 | a label that parses gives a track below 100 and a head below 10 |
| Health.SpotLabelParses | check_flp.py:112 | `T:{t:02d} H:{h}` reads back as (t, h) |
| Health.SpotLabelsDistinct | check_flp.py:112 | distinct units get distinct labels |
| Health.SpotLabel | check_flp.py:112 | `f"T:{t:02d} H:{h}"`; `Health.SpotLabelParses` proves it reads back as (t, h) |
| Health.UnstableLabel | check_flp.py:115 | the spot label followed by ` (s/2)`; `Health.AnalyzeUnstableSpots` places it in the UNSTABLE list |
| Health.UnitsWith | check_flp.py:103-115 | the units of a class, in increasing order, and no others |
| Health.UnitsWithAppend | check_flp.py:109-114 | a new map entry extends only its own class's list |
| Health.ClassesPartition | check_flp.py:108-115 | each unit is in exactly one class: the three class sizes sum to the map length |
| Health.SpotLabels | check_flp.py:112 | the labels of a unit list, in order |
| Health.UnstableLabels | check_flp.py:115 | the unstable labels of a unit list, in order, each with its own success count over 2 |
| Health.Analyze | check_flp.py:103-115 | the disk map holds one entry per unit, in unit order, and each entry is the class of that unit's own success count |
| Health.AnalyzeStep | check_flp.py:106-115 | analysing one more unit appends its class and, for a STABLE_BAD or UNSTABLE unit, its label |
| Health.SpotLabelsAppend | check_flp.py:112 | labelling one more unit appends its label |
| Health.UnstableLabelsAppend | check_flp.py:115 | likewise for unstable labels |
| Health.AnalyzeBadSpots | check_flp.py:110-112 | the STABLE_BAD list is exactly the labels of the STABLE_BAD units of the disk map, in order |
| Health.BadSpotsStep | check_flp.py:110-112 | one more analysed unit keeps the STABLE_BAD list exact |
| Health.AnalyzeUnstableSpots | check_flp.py:113-115 | the UNSTABLE list is exactly the annotated labels of the UNSTABLE units, in order |
| Health.AnalyzeResults | check_flp.py:103-115 | the classification loop over tracks and heads produces `Analyze` of all 160 units |
| Health.SalvagedCount | check_flp.py:122 | the salvaged count is the map length minus the number of STABLE_BAD units |
| Health.HealthScore | check_flp.py:123 | the score is the percentage 100·s/160 rounded to the nearest integer, with exact ties going to the even neighbour |
| Health.HealthScoreBounds | check_flp.py:123 | for s ≤ 160 the score is at most 100; it is 100 iff s = 160 and 0 iff s = 0 |
| Health.HealthScoreMonotone | check_flp.py:123 | salvaging more units never lowers the score |
| Archive.DateTimeParts | check_flp.py:30-31 | each field of a valid time renders with its fixed width as digits that parse back |
| Archive.FilenameTimestampParses | check_flp.py:31 | `%Y%m%d%H%M%S` is 14 digits from which the time is read back |
| Archive.AdjacentFields | check_flp.py:31 | where the six fields of the file-name timestamp sit |
| Archive.TimestampTextParses | check_flp.py:30 | `%Y-%m-%d %H:%M:%S` is 19 characters from which the time is read back |
| Archive.SeparatedFields | check_flp.py:30 | where the six fields and five separators of the readable timestamp sit |
| Archive.TimestampText | check_flp.py:30 | `%Y-%m-%d %H:%M:%S`; `Archive.TimestampTextParses` proves it reads back as the time |
| Archive.FilenameTimestamp | check_flp.py:31 | `%Y%m%d%H%M%S`; `Archive.FilenameTimestampParses` proves it is 14 digits that read back as the time |
| Archive.Take | check_flp.py:121 | `s[:k]` is the first k characters, or all of a shorter string |
| Archive.TakeLast | check_flp.py:121 | `s[-k:]` for k > 0 is the last k characters, or all of a shorter string |
| Archive.Fingerprint | check_flp.py:121 | the fingerprint is never longer than 8 characters |
| Archive.FingerprintOfDigest | check_flp.py:120-121 | for a 32-digit hex digest the fingerprint is 8 upper-case hex digits with the values of the digest's first four and last four |
| Archive.ArchiveComment | check_flp.py:119 | the comment is never empty and has no edge whitespace; it is NOCOMM when the input is all whitespace, otherwise the stripped input |
| Archive.FindFirst | check_flp.py:125 | the first `_` of a string, or None when it has none |
| Archive.FindLast | check_flp.py:125 | the last `_` of a string, or None when it has none |
| Archive.Rejoin | check_flp.py:125 | a string is the concatenation of the parts around any of its underscores |
| Archive.FindFirstAt | check_flp.py:125 | after an underscore-free timestamp, the first `_` is the one that follows it |
| Archive.FindLastAt | check_flp.py:125 | before an underscore-free tail, the last `_` is the one that precedes it |
| Archive.ParseFileBase | check_flp.py:125 | a base name that parses is rebuilt exactly from its parts |
| Archive.JoinParts | check_flp.py:125 | the three underscores found split a base name into its four parts |
| Archive.FileBaseParses | check_flp.py:125 | `{ts}_{comment}_{md5_part}_{score}` reads back as its parts whenever the timestamp and the fingerprint hold no `_`, whatever the comment holds |
| Archive.SplitAround | check_flp.py:125 | the two parts around an inserted `_` |
| Archive.FileBase | check_flp.py:125 | `f"{ts}_{comment}_{md5_part}_{score}"`; `Archive.FileBaseParses` proves it splits back into its parts |
| Archive.FileNamesDistinct | check_flp.py:130-132 | the `.bin`, `.json` and `.zip` names of one base are pairwise distinct |
| Archive.ImageFileName | check_flp.py:130 | `{file_base}.bin`; `Archive.FileNamesDistinct` proves the three names differ |
| Archive.ReportFileName | check_flp.py:131 | `{file_base}.json`; see `Archive.FileNamesDistinct` |
| Archive.ZipFileName | check_flp.py:132 | `{file_base}.zip`; see `Archive.FileNamesDistinct` |
| Render.GlyphStatus | check_flp.py:161-162 | a glyph that reads back is the glyph of the class it reads as |
| Render.GlyphRoundTrip | check_flp.py:161-162 | the three glyphs are distinct, so each class is recovered from its glyph |
| Render.Glyph | check_flp.py:161 | the icon of each class; `Render.GlyphRoundTrip` proves the three distinct and readable back |
| Render.Glyphs | check_flp.py:162 | `[icons[s] for s in status_map]` keeps the order and length of the map |
| Render.EveryOther | check_flp.py:163 | `s[0::2]` holds elements 0, 2, 4, … |
| Render.Stride | check_flp.py:163-164 | `s[h::2]` holds elements h, h+2, h+4, … |
| Render.HeadRow | check_flp.py:163-164 | for a 160-entry map, row h has 80 glyphs, and glyph t is that of unit (t, h) |
| Render.RowsCoverUnits | check_flp.py:163-164 | each unit appears in row HeadOf(u) at column TrackOf(u), and its class reads back from there |
| Render.HeadLineShowsMap | check_flp.py:163-164 | a head line is its 8-character label plus 80 glyphs, and glyph t reads back as the class of unit (t, h) |
| Render.HeadLine | check_flp.py:163-164 | `f"Head {h}: ..."` with the row of head h; `Render.HeadLineShowsMap` proves its length and that glyph t shows unit (t, h) |
| Render.Repeat | check_flp.py:157-170 | `c * n` is n copies of c |
| Render.FinalView | check_flp.py:156-170 | the summary is ten printed lines |
| Render.SummaryHeader | check_flp.py:157-160 | four lines above the head rows |
| Render.SummaryFooter | check_flp.py:165-170 | four lines below the head rows |
| Render.FinalViewHeadLines | check_flp.py:163-164 | the fifth and sixth printed lines are the head-0 and head-1 rows |
| Rescue.ScanResults | check_flp.py:60-92 | the complete result table: every unit's flags of passes 1 and 2 |
| Rescue.MultiPassRescue | check_flp.py:18-154 | a drive that fails to open ends in a hardware error; otherwise the run's report, image, names, salvaged count, score and summary equal `Rescued` of its inputs |
| Rescue.Rescued | check_flp.py:18-154 | the outcome of a run as a function of its inputs; `Rescue.MultiPassRescue` is proved equal to it, and the `Rescue.Run*` lemmas state its properties |
| Rescue.RunDiskMap | check_flp.py:103-115 | in a run's disk map a unit is STABLE_OK iff every pass read it whole, and STABLE_BAD iff none did |
| Rescue.RunImage | check_flp.py:85-88 | a run's image holds zeros for every STABLE_BAD unit, and for every other unit the data of its first full read |
| Rescue.RunHealthBounds | check_flp.py:122-123 | salvaged is 160 minus the number of STABLE_BAD entries; the score is at most 100, is 100 iff that list is empty, and is 0 iff all 160 units are in it |
| Rescue.RunClassCounts | check_flp.py:103-115 | the STABLE_OK units plus the UNSTABLE and STABLE_BAD entries number exactly 160 |
| Rescue.RunFileBase | check_flp.py:119-125 | a run's base name splits back into its start time, comment, fingerprint and score |

## Left out

- The drive as a file. `open`, `seek`, `read` and their exception kinds (lines 48, 61, 83-84) are replaced by the `Device` oracle and a separate boot-sector read. A failure to open is the `driveOpens` flag, and its printed error message is not modelled.
- A raising `f.seek(0)` at the start of a pass is not modelled. Nor is any other exception outside the per-unit `try` that would end the run with a hardware error part-way through.
- The MD5 digest (line 120) is the parameter `md5Hex`, a function of the image. The properties about it assume only that it returns 32 lower-case hexadecimal digits.
- The clock. `datetime.now()` is the `start` parameter. `%Y` is modelled as zero-padded to four digits, and only years 1..9999 are in range.
- Progress and timing: the elapsed time, ETA and percentage arithmetic, `format_time`, `sys.stdout`, and `time.sleep` between passes (lines 14-16, 44, 67-80, 94-96). These are floating point and console output. The operation count they use is modelled.
- The operator's comment prompt. `input()` is the `rawComment` parameter.
- The file system. `os.makedirs`, the writes of the `.bin` and `.json` files, the JSON serialisation, the ZIP compression, the removal of the intermediates and the compression-failure path (lines 126-152) are not modelled. The outcome records the names and contents those steps would use.
- Rescue.MultiPassRescue: does not model a comment that holds a path separator (`/`, and on Windows also `\`) or any other character the file system rejects in a name. The code does not sanitise the comment, so such a comment makes the `.bin` file's path name a missing directory. The `open` at line 135 then raises, and the run ends with no archive and no summary, while the model returns `Archived`. `basename`/`dirname` at lines 168-169 would also split such a name differently from `ArchivePath(dir, name)`.
- Paths. `os.path.join`, `basename` and `dirname` on the archive path are modelled as the pair `ArchivePath(dir, name)`, and `BAK_DIR` is the `bakDir` parameter.
- Console output. Only the lines of `render_final_view` are modelled, as a list of strings. The prints at lines 41-42, 95, 99, 118, 141, 150 and 152 are left out.
- Health.HealthScore: rounds the exact ratio 100·s/160, half to even. Python first computes `s / 160.0 * 100` in double precision. For s = 92 the double product falls just below 57.5, so Python gives 57 where the model gives 58. Floating-point rounding is not modelled.
- Text.HexDigits: states the rendering for values below 16^width only, the range the serial always falls in. `{:08X}` widens for larger values, and that case is not modelled.
- Archive.Fingerprint: `str.upper()` is modelled for ASCII letters only. A hexadecimal digest has no other letters.
- The result table is indexed by unit number `t*2 + h` rather than nested as `[t][h]`. `Floppy.UnitIndex` and `Floppy.UnitIndexOf` make the two indexings equivalent.
- `found_files` is always empty, because the source never fills it.
