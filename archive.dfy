/**
 * Naming of the archive: the two timestamps taken from the clock at start,
 * the operator's comment, the fingerprint taken from the image's MD5 digest
 * and the health score make up the base name shared by the raw image, the
 * JSON report and the ZIP archive.
 */
module Archive {
  import opened Wrappers
  import opened Text

  /** The local time the run started at, as `datetime.now()` gives it. */
  datatype DateTime = DateTime(year: nat, month: nat, day: nat, hour: nat, minute: nat, second: nat)

  predicate ValidDateTime(d: DateTime) {
    1 <= d.year <= 9999 && 1 <= d.month <= 12 && 1 <= d.day <= 31
    && d.hour < 24 && d.minute < 60 && d.second < 60
  }

  /** `strftime("%Y-%m-%d %H:%M:%S")`, the report's human-readable timestamp. */
  function TimestampText(d: DateTime): string {
    ZeroPad(d.year, 4) + "-" + Pad2(d.month) + "-" + Pad2(d.day) + " "
    + Pad2(d.hour) + ":" + Pad2(d.minute) + ":" + Pad2(d.second)
  }

  /** `strftime("%Y%m%d%H%M%S")`, the timestamp used in file names. */
  function FilenameTimestamp(d: DateTime): string {
    ZeroPad(d.year, 4) + Pad2(d.month) + Pad2(d.day) + Pad2(d.hour) + Pad2(d.minute) + Pad2(d.second)
  }

  /** Reads a file-name timestamp back: fourteen digits, split 4-2-2-2-2-2. */
  function ParseFilenameTimestamp(s: string): Option<DateTime> {
    if |s| == 14 && AllDigits(s) then
      Some(DateTime(ParseNat(s[..4]), ParseNat(s[4..6]), ParseNat(s[6..8]),
                    ParseNat(s[8..10]), ParseNat(s[10..12]), ParseNat(s[12..14])))
    else None
  }

  /** Each field of a valid time renders as digits of its fixed width that parse back to it. */
  lemma DateTimeParts(d: DateTime)
    requires ValidDateTime(d)
    ensures var y := ZeroPad(d.year, 4);
      |y| == 4 && AllDigits(y) && ParseNat(y) == d.year
    ensures forall n :: n in {d.month, d.day, d.hour, d.minute, d.second} ==>
      |Pad2(n)| == 2 && AllDigits(Pad2(n)) && ParseNat(Pad2(n)) == n
  {
    NatToStringShort(d.year, 4);
    ZeroPadParses(d.year, 4);
    Pad2Digits(d.month);
    Pad2Digits(d.day);
    Pad2Digits(d.hour);
    Pad2Digits(d.minute);
    Pad2Digits(d.second);
  }

  /**
   * A valid time gives a fourteen-digit file-name timestamp (so it has no
   * `_` to confuse the file name) from which the time can be read back.
   */
  lemma FilenameTimestampParses(d: DateTime)
    requires ValidDateTime(d)
    ensures |FilenameTimestamp(d)| == 14 && AllDigits(FilenameTimestamp(d))
    ensures ParseFilenameTimestamp(FilenameTimestamp(d)) == Some(d)
  {
    DateTimeParts(d);
    AdjacentFields(ZeroPad(d.year, 4), Pad2(d.month), Pad2(d.day), Pad2(d.hour), Pad2(d.minute), Pad2(d.second));
  }

  /** Where the six fields of a file-name timestamp sit, and that it is all digits when they are. */
  lemma AdjacentFields(y: string, mo: string, da: string, ho: string, mi: string, se: string)
    requires |y| == 4 && |mo| == 2 && |da| == 2 && |ho| == 2 && |mi| == 2 && |se| == 2
    ensures var s := y + mo + da + ho + mi + se;
      |s| == 14 && s[..4] == y && s[4..6] == mo && s[6..8] == da && s[8..10] == ho && s[10..12] == mi && s[12..14] == se
      && (AllDigits(y) && AllDigits(mo) && AllDigits(da) && AllDigits(ho) && AllDigits(mi) && AllDigits(se) ==> AllDigits(s))
  {
    var s := y + mo + da + ho + mi + se;
    assert s[..4] == y;
    assert s[4..6] == mo;
    assert s[6..8] == da;
    assert s[8..10] == ho;
    assert s[10..12] == mi;
    assert s[12..14] == se;
  }

  /** Reads a readable timestamp back: `dddd-dd-dd dd:dd:dd`. */
  function ParseTimestampText(s: string): Option<DateTime> {
    if |s| == 19 && s[4] == '-' && s[7] == '-' && s[10] == ' ' && s[13] == ':' && s[16] == ':'
      && AllDigits(s[..4]) && AllDigits(s[5..7]) && AllDigits(s[8..10])
      && AllDigits(s[11..13]) && AllDigits(s[14..16]) && AllDigits(s[17..19])
    then
      Some(DateTime(ParseNat(s[..4]), ParseNat(s[5..7]), ParseNat(s[8..10]),
                    ParseNat(s[11..13]), ParseNat(s[14..16]), ParseNat(s[17..19])))
    else None
  }

  /** The report's timestamp can be read back too, and gives the same time as the file name. */
  lemma TimestampTextParses(d: DateTime)
    requires ValidDateTime(d)
    ensures |TimestampText(d)| == 19
    ensures ParseTimestampText(TimestampText(d)) == Some(d)
  {
    DateTimeParts(d);
    SeparatedFields(ZeroPad(d.year, 4), Pad2(d.month), Pad2(d.day), Pad2(d.hour), Pad2(d.minute), Pad2(d.second),
                    '-', '-', ' ', ':', ':');
  }

  /** Where the six fields and five separators of a readable timestamp sit. */
  lemma SeparatedFields(y: string, mo: string, da: string, ho: string, mi: string, se: string,
                        c1: char, c2: char, c3: char, c4: char, c5: char)
    requires |y| == 4 && |mo| == 2 && |da| == 2 && |ho| == 2 && |mi| == 2 && |se| == 2
    ensures var s := y + [c1] + mo + [c2] + da + [c3] + ho + [c4] + mi + [c5] + se;
      |s| == 19 && s[4] == c1 && s[7] == c2 && s[10] == c3 && s[13] == c4 && s[16] == c5
      && s[..4] == y && s[5..7] == mo && s[8..10] == da && s[11..13] == ho && s[14..16] == mi && s[17..19] == se
  {
    var s := y + [c1] + mo + [c2] + da + [c3] + ho + [c4] + mi + [c5] + se;
    assert s[..4] == y;
    assert s[5..7] == mo;
    assert s[8..10] == da;
    assert s[11..13] == ho;
    assert s[14..16] == mi;
    assert s[17..19] == se;
  }

  /** Python's `s[:k]`: the first `k` characters, or all of a shorter string. */
  function Take(s: string, k: nat): (r: string)
    ensures |r| == if |s| < k then |s| else k
    ensures forall i :: 0 <= i < |r| ==> r[i] == s[i]
  {
    if |s| < k then s else s[..k]
  }

  /** Python's `s[-k:]` for `k > 0`: the last `k` characters, or all of a shorter string. */
  function TakeLast(s: string, k: nat): (r: string)
    requires k > 0
    ensures |r| == if |s| < k then |s| else k
    ensures forall i :: 0 <= i < |r| ==> r[i] == s[|s| - |r| + i]
  {
    if |s| < k then s else s[|s| - k..]
  }

  /** `f"{md5_hash[:4]}{md5_hash[-4:]}".upper()`: the image fingerprint in the file name. */
  function Fingerprint(digest: string): (fp: string)
    ensures |fp| <= 8
  {
    UpperAsciiString(Take(digest, 4) + TakeLast(digest, 4))
  }

  /** An MD5 `hexdigest()`: 32 lower-case hexadecimal digits. */
  predicate IsHexDigest(digest: string) {
    |digest| == 32 && forall k :: 0 <= k < |digest| ==> IsLowerHexDigit(digest[k])
  }

  /**
   * The fingerprint of a digest is eight upper-case hexadecimal digits: the
   * digest's first four and last four, with their values kept.
   */
  lemma FingerprintOfDigest(digest: string)
    requires IsHexDigest(digest)
    ensures var fp := Fingerprint(digest);
      |fp| == 8 && (forall k :: 0 <= k < 8 ==> IsUpperHexDigit(fp[k]))
      && (forall k :: 0 <= k < 4 ==> HexValue(fp[k]) == HexValue(digest[k]))
      && (forall k :: 4 <= k < 8 ==> HexValue(fp[k]) == HexValue(digest[24 + k]))
  {
    var raw := Take(digest, 4) + TakeLast(digest, 4);
    forall k | 0 <= k < 8
      ensures IsUpperHexDigit(Fingerprint(digest)[k])
      ensures HexValue(Fingerprint(digest)[k]) == HexValue(raw[k])
    {
      UpperHexDigit(raw[k]);
    }
  }

  const NoComment: string := "NOCOMM"

  /**
   * `input(...).strip() or "NOCOMM"`: the operator's comment without its
   * surrounding whitespace, or NOCOMM when nothing else is left. It is never
   * empty and never starts or ends with whitespace.
   */
  function ArchiveComment(raw: string): (c: string)
    ensures c != [] && !IsSpace(c[0]) && !IsSpace(c[|c| - 1])
    ensures (forall k :: 0 <= k < |raw| ==> IsSpace(raw[k])) ==> c == NoComment
    ensures !(forall k :: 0 <= k < |raw| ==> IsSpace(raw[k])) ==> c == Strip(raw)
  {
    var s := Strip(raw);
    if s != [] then s else NoComment
  }

  /** The parts a file base name is made of. */
  datatype ArchiveName = ArchiveName(timestamp: string, comment: string, fingerprint: string, score: nat)

  /** `f"{filename_ts}_{comment}_{md5_part}_{health_score}"`. */
  function FileBase(n: ArchiveName): string {
    n.timestamp + "_" + n.comment + "_" + n.fingerprint + "_" + NatToString(n.score)
  }

  predicate NoUnderscore(s: string) {
    '_' !in s
  }

  /** The first position of `c` in `s`, if any. */
  function FindFirst(s: string, c: char): (r: Option<nat>)
    ensures r.Some? ==> r.value < |s| && s[r.value] == c && c !in s[..r.value]
    ensures r.None? ==> c !in s
  {
    if s == [] then None
    else if s[0] == c then Some(0)
    else match FindFirst(s[1..], c)
      case Some(i) =>
        assert s[..i + 1] == [s[0]] + s[1..][..i];
        Some(i + 1)
      case None =>
        assert s == [s[0]] + s[1..];
        None
  }

  /** The last position of `c` in `s`, if any. */
  function FindLast(s: string, c: char): (r: Option<nat>)
    ensures r.Some? ==> r.value < |s| && s[r.value] == c && c !in s[r.value + 1..]
    ensures r.None? ==> c !in s
  {
    if s == [] then None
    else if s[|s| - 1] == c then Some(|s| - 1)
    else
      var init := s[..|s| - 1];
      assert s == init + [s[|s| - 1]];
      match FindLast(init, c)
      case Some(j) =>
        assert s[j + 1..] == init[j + 1..] + [s[|s| - 1]];
        Some(j)
      case None => None
  }

  /** A string is rejoined from the parts around any one of its underscores. */
  lemma Rejoin(s: string, i: nat)
    requires i < |s| && s[i] == '_'
    ensures s == s[..i] + "_" + s[i + 1..]
  {
  }

  /** The only `_` of a string that has none before it is where `FindFirst` stops. */
  lemma {:induction false} FindFirstAt(a: string, b: string)
    requires NoUnderscore(a)
    ensures FindFirst(a + "_" + b, '_') == Some(|a|)
  {
    var s := a + "_" + b;
    if a != [] {
      assert s[0] == a[0];
      assert a[1..] + "_" + b == s[1..];
      FindFirstAt(a[1..], b);
    }
  }

  /** Likewise for the last `_` of a string that has none after it. */
  lemma {:induction false} FindLastAt(a: string, b: string)
    requires NoUnderscore(b)
    ensures FindLast(a + "_" + b, '_') == Some(|a|)
  {
    var s := a + "_" + b;
    if b != [] {
      assert s[|s| - 1] == b[|b| - 1];
      assert a + "_" + b[..|b| - 1] == s[..|s| - 1];
      FindLastAt(a, b[..|b| - 1]);
    }
  }

  /**
   * Splits a file base name back into its parts: the timestamp up to the
   * first `_`, the score after the last one, the fingerprint after the one
   * before it, and the comment (which may itself hold `_`) in between.
   */
  function ParseFileBase(s: string): (r: Option<ArchiveName>)
    ensures r.Some? ==>
      FileBase(r.value) == s && NoUnderscore(r.value.timestamp) && NoUnderscore(r.value.fingerprint)
  {
    match FindFirst(s, '_')
    case None => None
    case Some(i) =>
      match FindLast(s[i + 1..], '_')
      case None => None
      case Some(j) =>
        var mid := s[i + 1..][..j];
        var scoreText := s[i + 1..][j + 1..];
        match FindLast(mid, '_')
        case None => None
        case Some(k) =>
          if scoreText != [] && AllDigits(scoreText) then
            var n := ArchiveName(s[..i], mid[..k], mid[k + 1..], ParseNat(scoreText));
            if NatToString(n.score) == scoreText then
              JoinParts(s, i, j, k);
              Some(n)
            else None
          else None
  }

  /** The three underscores found split `s` into the four parts of a base name. */
  lemma JoinParts(s: string, i: nat, j: nat, k: nat)
    requires i < |s| && s[i] == '_'
    requires j < |s[i + 1..]| && s[i + 1..][j] == '_'
    requires k < j && s[i + 1..][..j][k] == '_'
    ensures var rest := s[i + 1..];
      var mid := rest[..j];
      s == s[..i] + "_" + mid[..k] + "_" + mid[k + 1..] + "_" + rest[j + 1..]
  {
    var rest := s[i + 1..];
    var mid := rest[..j];
    Rejoin(s, i);
    Rejoin(rest, j);
    Rejoin(mid, k);
  }

  /**
   * The base name loses nothing: whenever the timestamp and the fingerprint
   * hold no `_`, which is so for the ones the engine builds, the parts can be
   * read back, whatever the comment holds.
   */
  lemma FileBaseParses(n: ArchiveName)
    requires NoUnderscore(n.timestamp) && NoUnderscore(n.fingerprint)
    ensures ParseFileBase(FileBase(n)) == Some(n)
  {
    var digits := NatToString(n.score);
    ParseNatToString(n.score);
    assert NoUnderscore(digits);
    var mid := n.comment + "_" + n.fingerprint;
    var rest := mid + "_" + digits;
    var s := FileBase(n);
    assert s == n.timestamp + "_" + rest;
    FindFirstAt(n.timestamp, rest);
    SplitAround(n.timestamp, rest);
    FindLastAt(mid, digits);
    SplitAround(mid, digits);
    FindLastAt(n.comment, n.fingerprint);
    SplitAround(n.comment, n.fingerprint);
    ParseNatToString(n.score);
    assert s[|n.timestamp| + 1..][..|mid|] == mid;
    assert s[|n.timestamp| + 1..][|mid| + 1..] == digits;
  }

  /** The two parts around an inserted `_`. */
  lemma SplitAround(a: string, b: string)
    ensures (a + "_" + b)[..|a|] == a && (a + "_" + b)[|a| + 1..] == b
  {
  }

  /** The three files of one run share the base name: the image, the report and the archive holding both. */
  function ImageFileName(base: string): string { base + ".bin" }
  function ReportFileName(base: string): string { base + ".json" }
  function ZipFileName(base: string): string { base + ".zip" }

  /** The three names are pairwise distinct, so no file of a run overwrites another. */
  lemma FileNamesDistinct(base: string)
    ensures ImageFileName(base) != ReportFileName(base)
    ensures ImageFileName(base) != ZipFileName(base)
    ensures ReportFileName(base) != ZipFileName(base)
  {
    assert ImageFileName(base)[|base| + 1] == 'b';
    assert ReportFileName(base)[|base| + 1] == 'j';
    assert ZipFileName(base)[|base| + 1] == 'z';
  }
}
