/**
 * The closing summary printed to the console: the run's timestamp, the
 * serial number and salvage count, one row of glyphs per head with one glyph
 * per track, the health score, and where the archive was written.
 */
module Render {
  import opened Wrappers
  import opened Floppy
  import opened Text
  import opened Health
  import opened RescueReport

  /** The glyph of each class: a full block, a question mark, a light shade. */
  function Glyph(s: Status): char {
    match s
    case StableOk => '■'
    case Unstable => '?'
    case StableBad => '░'
  }

  /** Reads a glyph back; any other character is rejected. */
  function GlyphStatus(c: char): (r: Option<Status>)
    ensures r.Some? ==> Glyph(r.value) == c
  {
    if c == '■' then Some(StableOk)
    else if c == '?' then Some(Unstable)
    else if c == '░' then Some(StableBad)
    else None
  }

  /** The three glyphs are distinct, so a row of glyphs shows every class. */
  lemma GlyphRoundTrip(s: Status)
    ensures GlyphStatus(Glyph(s)) == Some(s)
  {
  }

  /** The glyphs of a disk map, in order (`[icons[s] for s in status_map]`). */
  function Glyphs(m: seq<Status>): (g: string)
    ensures |g| == |m| && forall i :: 0 <= i < |m| ==> g[i] == Glyph(m[i])
  {
    seq(|m|, i requires 0 <= i < |m| => Glyph(m[i]))
  }

  /** Python's `s[0::2]`: the elements at even positions, in order. */
  function EveryOther<T>(s: seq<T>): (r: seq<T>)
    ensures |r| == (|s| + 1) / 2
    ensures forall i :: 0 <= i < |r| ==> r[i] == s[2 * i]
  {
    if |s| <= 1 then s
    else [s[0]] + EveryOther(s[2..])
  }

  /** Python's `s[h::2]` for `h` of 0 or 1: the elements at positions h, h + 2, ... */
  function Stride(s: seq<char>, h: nat): (r: string)
    requires h < Heads
    ensures |s| >= h ==> |r| == (|s| - h + 1) / 2
    ensures forall i :: 0 <= i < |r| ==> h + 2 * i < |s| && r[i] == s[h + 2 * i]
  {
    if |s| <= h then [] else EveryOther(s[h..])
  }

  /**
   * The row of head `h`: for a complete disk map, one glyph per track in
   * track order, the glyph of unit (track, h).
   */
  lemma HeadRow(m: seq<Status>, h: nat)
    requires |m| == Units && h < Heads
    ensures |Stride(Glyphs(m), h)| == Tracks
    ensures forall t :: 0 <= t < Tracks ==> Stride(Glyphs(m), h)[t] == Glyph(m[UnitIndex(t, h)])
  {
  }

  /** The two rows together show every unit exactly once: unit u is glyph TrackOf(u) of row HeadOf(u). */
  lemma RowsCoverUnits(m: seq<Status>, u: nat)
    requires |m| == Units && u < Units
    ensures Stride(Glyphs(m), HeadOf(u))[TrackOf(u)] == Glyph(m[u])
    ensures GlyphStatus(Stride(Glyphs(m), HeadOf(u))[TrackOf(u)]) == Some(m[u])
  {
    UnitIndexOf(u);
    HeadRow(m, HeadOf(u));
    GlyphRoundTrip(m[u]);
  }

  /** The summary line of head `h`: its label, then the row of its glyphs. */
  function HeadLine(statusMap: seq<Status>, h: nat): string
    requires h < Heads
  {
    (if h == 0 then "Head 0: " else "Head 1: ") + Stride(Glyphs(statusMap), h)
  }

  /**
   * A head line of a complete disk map has one glyph per track after its
   * 8-character label, and glyph t reads back as the class of unit (t, h).
   */
  lemma HeadLineShowsMap(statusMap: seq<Status>, t: nat, h: nat)
    requires |statusMap| == Units && t < Tracks && h < Heads
    ensures |HeadLine(statusMap, h)| == 8 + Tracks
    ensures GlyphStatus(HeadLine(statusMap, h)[8 + t]) == Some(statusMap[UnitIndex(t, h)])
  {
    HeadRow(statusMap, h);
    GlyphRoundTrip(statusMap[UnitIndex(t, h)]);
  }

  /** `c * n` in Python: `c` repeated `n` times. */
  function Repeat(c: char, n: nat): (r: string)
    ensures |r| == n && forall i :: 0 <= i < n ==> r[i] == c
  {
    seq(n, _ => c)
  }

  const RuleWidth: nat := 85

  /** The archive's path, as `os.path.join(BAK_DIR, name)` built it. */
  datatype ArchivePath = ArchivePath(dir: string, name: string)

  /**
   * The lines `render_final_view` prints, one per `print` call (each is
   * followed by a new line on the console): the summary heading with the
   * timestamp, the serial and salvaged count over 160, the two head rows,
   * the health score, and the archive's file name and directory.
   */
  function FinalView(report: Report, statusMap: seq<Status>, zip: ArchivePath, recovered: nat, health: nat)
    : (lines: seq<string>)
    ensures |lines| == 10
  {
    SummaryHeader(report, recovered) + [HeadLine(statusMap, 0), HeadLine(statusMap, 1)] + SummaryFooter(zip, health)
  }

  /** The lines above the head rows: a rule, the heading, the serial and salvaged count, a rule. */
  function SummaryHeader(report: Report, recovered: nat): (lines: seq<string>)
    ensures |lines| == 4
  {
    ["\n" + Repeat('=', RuleWidth),
     "\U{1F4BD} Archiving Summary (" + report.timestampStr + ")",
     "SN: " + report.metadata.serial + " | Salvaged: " + NatToString(recovered) + "/160 Tracks",
     Repeat('-', RuleWidth)]
  }

  /** The lines below the head rows: the health score, the archive's name and directory, a rule. */
  function SummaryFooter(zip: ArchivePath, health: nat): (lines: seq<string>)
    ensures |lines| == 4
  {
    ["Final Health: " + NatToString(health) + "%",
     "\n\U{1F4C2} Compressed Archive: " + zip.name,
     "\U{1F4CD} Location: " + zip.dir,
     Repeat('=', RuleWidth)]
  }

  /** The two head lines of the summary are its lines 4 and 5. */
  lemma FinalViewHeadLines(report: Report, statusMap: seq<Status>, zip: ArchivePath, recovered: nat, health: nat)
    ensures var lines := FinalView(report, statusMap, zip, recovered, health);
      lines[4] == HeadLine(statusMap, 0) && lines[5] == HeadLine(statusMap, 1)
  {
  }
}
