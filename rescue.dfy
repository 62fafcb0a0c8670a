/**
 * One run of the rescue engine, end to end: the boot-sector metadata, the
 * multi-pass scan, the analysis, the naming of the archive and the closing
 * summary. The clock, the operator's comment, the MD5 digest and the medium
 * are inputs; what the run writes is its outcome.
 */
module Rescue {
  import opened Wrappers
  import opened Floppy
  import opened Text
  import opened BootSector
  import opened Scanner
  import opened Health
  import opened Archive
  import opened RescueReport
  import opened Render

  /**
   * What a run leaves behind: nothing but an error message when the drive
   * cannot be opened, or else the report, the master image, the base name of
   * the three files, the names stored in the archive, the archive's path,
   * the salvaged count, the health score and the summary lines.
   */
  datatype Outcome =
    | HardwareError
    | Archived(report: Report, image: seq<Byte>, fileBase: string, entries: seq<string>,
               zip: ArchivePath, salvaged: nat, health: nat, view: seq<string>)

  /** Every unit's result list after the complete scan, indexed by unit number. */
  function ScanResults(device: Device): (results: seq<seq<bool>>)
    ensures |results| == Units
    ensures forall u :: 0 <= u < Units ==> results[u] == PassResults(device, u, Passes)
  {
    seq(Units, u requires 0 <= u < Units => PassResults(device, u, Passes))
  }

  /** The analysis of a complete scan of `device`. */
  function RunAnalysis(device: Device): Analysis {
    Analyze(ScanResults(device), Units)
  }

  /** The health score of a complete scan of `device`. */
  function RunHealth(device: Device): nat {
    HealthScore(SalvagedCount(RunAnalysis(device).diskMap))
  }

  /** The parts of the archive's base name. */
  function RunName(start: DateTime, device: Device, md5Hex: seq<Byte> -> string, rawComment: string): ArchiveName {
    ArchiveName(FilenameTimestamp(start), ArchiveComment(rawComment), Fingerprint(md5Hex(Image(device))), RunHealth(device))
  }

  /** The report of a run. */
  function RunReport(start: DateTime, boot: Option<seq<Byte>>, device: Device): Report {
    var analysis := RunAnalysis(device);
    Report(TimestampText(start), FilenameTimestamp(start), ReadBootMetadata(boot),
           analysis.unstableSpots, analysis.stableBadSpots, [], analysis.diskMap)
  }

  /** The outcome of a run on a drive that opened, as a function of its inputs. */
  function Rescued(start: DateTime, boot: Option<seq<Byte>>, device: Device,
                   md5Hex: seq<Byte> -> string, rawComment: string, bakDir: string): Outcome
  {
    var base := FileBase(RunName(start, device, md5Hex, rawComment));
    var report := RunReport(start, boot, device);
    var salvaged := SalvagedCount(report.diskMap);
    var zip := ArchivePath(bakDir, ZipFileName(base));
    Archived(report, Image(device), base, [ImageFileName(base), ReportFileName(base)], zip, salvaged, RunHealth(device),
             FinalView(report, report.diskMap, zip, salvaged, RunHealth(device)))
  }

  /**
   * `multi_pass_rescue`: when the drive opens, the boot sector is read for
   * metadata, every unit is scanned on every pass, the units are classified,
   * and the archive is named from the start time, the comment, the image's
   * fingerprint and the health score; the outcome is `Rescued` of the inputs.
   * When the drive does not open the run ends with a hardware error.
   */
  method MultiPassRescue(driveOpens: bool, start: DateTime, boot: Option<seq<Byte>>, device: Device,
                         md5Hex: seq<Byte> -> string, rawComment: string, bakDir: string)
    returns (out: Outcome)
    ensures !driveOpens ==> out == HardwareError
    ensures driveOpens ==> out == Rescued(start, boot, device, md5Hex, rawComment, bakDir)
  {
    if !driveOpens {
      return HardwareError;
    }
    var metadata := ReadBootMetadata(boot);
    var master, results, opsDone := Scan(device);
    assert results == ScanResults(device);
    var analysis := AnalyzeResults(results);
    var comment := ArchiveComment(rawComment);
    var image := master[..];
    var fingerprint := Fingerprint(md5Hex(image));
    var salvaged := SalvagedCount(analysis.diskMap);
    var health := HealthScore(salvaged);
    var base := FileBase(ArchiveName(FilenameTimestamp(start), comment, fingerprint, health));
    var report := Report(TimestampText(start), FilenameTimestamp(start), metadata,
                         analysis.unstableSpots, analysis.stableBadSpots, [], analysis.diskMap);
    var zip := ArchivePath(bakDir, ZipFileName(base));
    var entries := [ImageFileName(base), ReportFileName(base)];
    var view := FinalView(report, analysis.diskMap, zip, salvaged, health);
    out := Archived(report, image, base, entries, zip, salvaged, health, view);
  }

  /**
   * The disk map of a run classifies each unit by the passes that read it
   * whole: STABLE_OK when all did, STABLE_BAD when none did, UNSTABLE when
   * they disagreed.
   */
  lemma RunDiskMap(device: Device, u: nat)
    requires u < Units
    ensures var m := RunAnalysis(device).diskMap;
      |m| == Units
      && (m[u] == StableOk <==> forall p :: 1 <= p <= Passes ==> Succeeds(device, p, u))
      && (m[u] == StableBad <==> forall p :: 1 <= p <= Passes ==> !Succeeds(device, p, u))
  {
    var rs := PassResults(device, u, Passes);
    ClassifyResults(rs);
    assert forall p :: 1 <= p <= Passes ==> rs[p - 1] == Succeeds(device, p, u);
  }

  /**
   * The image of a run holds zeros for every STABLE_BAD unit and, for every
   * other unit, the data of the first pass that read it whole.
   */
  lemma RunImage(device: Device, u: nat, k: nat)
    requires u < Units && k < TrackSize
    ensures Position(u, k) < TotalSize
    ensures RunAnalysis(device).diskMap[u] == StableBad ==> Image(device)[Position(u, k)] == 0
    ensures RunAnalysis(device).diskMap[u] != StableBad ==>
      FirstSuccess(device, u, Passes).Some?
      && Image(device)[Position(u, k)] == device(FirstSuccess(device, u, Passes).value, TrackOf(u), HeadOf(u)).value[k]
  {
    ImageAtPosition(device, u, k);
    NoSuccessYet(device, u, Passes);
  }

  /**
   * The salvaged count is the number of units not reported STABLE_BAD, and
   * the health score is 100 exactly when no unit is STABLE_BAD and 0 exactly
   * when every unit is.
   */
  lemma RunHealthBounds(device: Device)
    ensures var a := RunAnalysis(device);
      SalvagedCount(a.diskMap) == Units - |a.stableBadSpots|
      && RunHealth(device) <= 100
      && (RunHealth(device) == 100 <==> a.stableBadSpots == [])
      && (RunHealth(device) == 0 <==> |a.stableBadSpots| == Units)
  {
    AnalyzeBadSpots(ScanResults(device), Units);
    HealthScoreBounds(SalvagedCount(RunAnalysis(device).diskMap));
  }

  /**
   * The counts add up: the STABLE_OK units, the UNSTABLE entries and the
   * STABLE_BAD entries of a run's report together number the 160 units.
   */
  lemma RunClassCounts(device: Device)
    ensures var a := RunAnalysis(device);
      |a.diskMap| == Units
      && |UnitsWith(a.diskMap, StableOk)| + |a.unstableSpots| + |a.stableBadSpots| == Units
  {
    AnalyzeBadSpots(ScanResults(device), Units);
    AnalyzeUnstableSpots(ScanResults(device), Units);
    ClassesPartition(RunAnalysis(device).diskMap);
  }

  /**
   * The base name of a run can be split back into its parts: the start time,
   * the comment, the fingerprint of the image's digest and the health score.
   */
  lemma RunFileBase(start: DateTime, device: Device, md5Hex: seq<Byte> -> string, rawComment: string)
    requires ValidDateTime(start) && IsHexDigest(md5Hex(Image(device)))
    ensures ParseFileBase(FileBase(RunName(start, device, md5Hex, rawComment))) == Some(RunName(start, device, md5Hex, rawComment))
    ensures ParseFilenameTimestamp(RunName(start, device, md5Hex, rawComment).timestamp) == Some(start)
  {
    FilenameTimestampParses(start);
    FingerprintOfDigest(md5Hex(Image(device)));
    var n := RunName(start, device, md5Hex, rawComment);
    assert NoUnderscore(n.fingerprint);
    assert NoUnderscore(n.timestamp);
    FileBaseParses(n);
  }
}
