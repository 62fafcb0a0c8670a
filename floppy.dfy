/**
 * The fixed geometry of a 1.44 MB floppy disk as the rescue engine sees it:
 * 80 tracks on 2 heads, 18 sectors of 512 bytes per track. One (track, head)
 * pair is a recovery unit, read in one piece; units are numbered track-major,
 * head-minor, and a unit's bytes sit at offset (unit number) * TrackSize of the
 * disk image.
 */
module Floppy {

  /** One byte of the medium. */
  type Byte = b: int | 0 <= b < 256

  const Tracks: nat := 80
  const Heads: nat := 2
  const SectorsPerTrack: nat := 18
  const SectorSize: nat := 512
  const TrackSize: nat := SectorsPerTrack * SectorSize
  const TotalSize: nat := 1474560
  const Passes: nat := 2
  /** The number of recovery units, Tracks * Heads. */
  const Units: nat := Tracks * Heads
  const TotalOps: nat := Tracks * Heads * Passes

  /** The unit number of (track t, head h), in track-major, head-minor order. */
  function UnitIndex(t: nat, h: nat): (u: nat)
    requires t < Tracks && h < Heads
    ensures u < Units
    ensures TrackOf(u) == t && HeadOf(u) == h
  {
    t * Heads + h
  }

  /** The track of unit `u`. */
  function TrackOf(u: nat): nat {
    u / Heads
  }

  /** The head of unit `u`. */
  function HeadOf(u: nat): nat {
    u % Heads
  }

  /** Unit numbers and (track, head) pairs are in one-to-one correspondence. */
  lemma UnitIndexOf(u: nat)
    requires u < Units
    ensures TrackOf(u) < Tracks && HeadOf(u) < Heads && UnitIndex(TrackOf(u), HeadOf(u)) == u
  {
  }

  /** The byte offset of (track t, head h) on the disk: `(t * HEADS + h) * TRACK_SIZE`. */
  function Offset(t: nat, h: nat): (off: nat)
    requires t < Tracks && h < Heads
    ensures off == UnitIndex(t, h) * TrackSize
    ensures off + TrackSize <= TotalSize
  {
    (t * Heads + h) * TrackSize
  }

  /** The disk position of byte `k` of unit `u`. */
  function Position(u: nat, k: nat): nat {
    u * TrackSize + k
  }

  /** Byte `k` of (track t, head h) is at `Offset(t, h) + k`. */
  lemma PositionIsOffset(t: nat, h: nat, k: nat)
    requires t < Tracks && h < Heads
    ensures Position(UnitIndex(t, h), k) == Offset(t, h) + k
  {
  }

  /** The 160 unit windows tile the image exactly. */
  lemma TotalSizeIsAllUnits()
    ensures TotalSize == Units * TrackSize
  {
  }

  /**
   * Unit windows do not overlap: a byte position inside the windows of two
   * units is the same position of the same unit.
   */
  lemma OffsetsDisjoint(t1: nat, h1: nat, k1: nat, t2: nat, h2: nat, k2: nat)
    requires t1 < Tracks && h1 < Heads && k1 < TrackSize
    requires t2 < Tracks && h2 < Heads && k2 < TrackSize
    requires Offset(t1, h1) + k1 == Offset(t2, h2) + k2
    ensures t1 == t2 && h1 == h2 && k1 == k2
  {
  }

  /** Positions inside distinct unit windows are distinct. */
  lemma PositionsDisjoint(u1: nat, k1: nat, u2: nat, k2: nat)
    requires k1 < TrackSize && k2 < TrackSize
    requires Position(u1, k1) == Position(u2, k2)
    ensures u1 == u2 && k1 == k2
  {
  }

  /** A byte of one unit lies outside the window of every other unit. */
  lemma OutsideOtherWindows(u: nat, k: nat, v: nat)
    requires k < TrackSize && u != v
    ensures !(Position(v, 0) <= Position(u, k) < Position(v, 0) + TrackSize)
  {
  }

  /** Byte `k` of unit `u` is found again by dividing its position by the unit size. */
  lemma PositionSplit(u: nat, k: nat)
    requires k < TrackSize
    ensures Position(u, k) / TrackSize == u && Position(u, k) % TrackSize == k
    ensures u < Units ==> Position(u, k) < TotalSize
  {
  }

  /** Every byte of the image lies in the window of some unit. */
  lemma OffsetsCover(i: nat)
    requires i < TotalSize
    ensures i / TrackSize < Units
    ensures Offset(TrackOf(i / TrackSize), HeadOf(i / TrackSize)) + i % TrackSize == i
    ensures Position(i / TrackSize, i % TrackSize) == i
  {
  }
}
