/** The JSON report written next to the image, as the values it holds. */
module RescueReport {
  import opened BootSector
  import opened Health

  /**
   * The report of one run: both timestamps, the boot-sector metadata, the
   * labels of the UNSTABLE and STABLE_BAD units, the list of found files
   * (always empty: no file-system walk is done) and the disk map.
   */
  datatype Report = Report(
    timestampStr: string,
    filenameTs: string,
    metadata: Metadata,
    unstableSpots: seq<string>,
    stableBadSpots: seq<string>,
    foundFiles: seq<string>,
    diskMap: seq<Status>)
}
