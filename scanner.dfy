/**
 * The multi-pass track scanner. Every pass visits the 160 units in
 * track-major, head-minor order and tries to read each one whole; each unit
 * collects one success flag per pass, and the master image takes a unit's
 * bytes from the first pass that read it whole. A failed or short read only
 * records `false`: it never stops the scan.
 */
module Scanner {
  import opened Wrappers
  import opened Floppy

  /**
   * The medium, as a read oracle: `device(p, t, h)` is what the read of
   * TrackSize bytes at the offset of (track t, head h) returned on pass p
   * (counted from 1), possibly fewer bytes, or `None` when the seek or the
   * read raised an error.
   */
  type Device = (nat, nat, nat) -> Option<seq<Byte>>

  /** A read succeeds when it returned exactly TrackSize bytes. */
  predicate FullRead(r: Option<seq<Byte>>) {
    r.Some? && |r.value| == TrackSize
  }

  /** Whether pass `p` read unit `u` whole. */
  predicate Succeeds(device: Device, p: nat, u: nat) {
    FullRead(device(p, TrackOf(u), HeadOf(u)))
  }

  /** The number of successful passes in a result list (`sum(results)`). */
  function Successes(rs: seq<bool>): (n: nat)
    ensures n <= |rs|
  {
    if rs == [] then 0 else Successes(rs[..|rs| - 1]) + (if rs[|rs| - 1] then 1 else 0)
  }

  /** The result list of unit `u` after `n` passes: one flag per pass, in pass order. */
  function PassResults(device: Device, u: nat, n: nat): (rs: seq<bool>)
    ensures |rs| == n
    ensures forall k :: 0 <= k < n ==> rs[k] == Succeeds(device, k + 1, u)
  {
    if n == 0 then [] else PassResults(device, u, n - 1) + [Succeeds(device, n, u)]
  }

  /** The earliest of passes 1..n that read unit `u` whole, if any did. */
  function FirstSuccess(device: Device, u: nat, n: nat): (first: Option<nat>)
    ensures first.Some? ==>
      1 <= first.value <= n && Succeeds(device, first.value, u)
      && forall q :: 1 <= q < first.value ==> !Succeeds(device, q, u)
    ensures first.None? ==> forall q :: 1 <= q <= n ==> !Succeeds(device, q, u)
  {
    if n == 0 then None
    else
      match FirstSuccess(device, u, n - 1)
      case Some(p) => Some(p)
      case None => if Succeeds(device, n, u) then Some(n) else None
  }

  /** A unit that no pass has read: `bytearray` starts zero-filled. */
  function Zeros(): (z: seq<Byte>)
    ensures |z| == TrackSize && forall k :: 0 <= k < TrackSize ==> z[k] == 0
  {
    seq(TrackSize, _ => 0)
  }

  /**
   * The bytes of unit `u` in the master image after `n` passes: the data of
   * its first successful pass, or zeros if none succeeded.
   */
  function UnitImage(device: Device, u: nat, n: nat): (img: seq<Byte>)
    ensures |img| == TrackSize
  {
    match FirstSuccess(device, u, n)
    case Some(p) => device(p, TrackOf(u), HeadOf(u)).value
    case None => Zeros()
  }

  /** The master image a complete scan produces, byte by byte. */
  function Image(device: Device): (img: seq<Byte>)
    ensures |img| == TotalSize
  {
    seq(TotalSize, i requires 0 <= i < TotalSize => UnitImage(device, i / TrackSize, Passes)[i % TrackSize])
  }

  /** Byte `k` of unit `u` in the complete image is byte `k` of that unit's image. */
  lemma ImageAtPosition(device: Device, u: nat, k: nat)
    requires u < Units && k < TrackSize
    ensures Position(u, k) < TotalSize && Image(device)[Position(u, k)] == UnitImage(device, u, Passes)[k]
  {
    PositionSplit(u, k);
  }

  /** Appending one flag adds one success exactly when the flag is set. */
  lemma SuccessesAppend(rs: seq<bool>, b: bool)
    ensures Successes(rs + [b]) == Successes(rs) + (if b then 1 else 0)
  {
    assert (rs + [b])[..|rs|] == rs;
  }

  /** A result list sums to zero exactly when every pass failed. */
  lemma {:induction false} SuccessesZero(rs: seq<bool>)
    ensures Successes(rs) == 0 <==> forall k :: 0 <= k < |rs| ==> !rs[k]
  {
    if rs != [] {
      SuccessesZero(rs[..|rs| - 1]);
      assert forall k :: 0 <= k < |rs| - 1 ==> rs[..|rs| - 1][k] == rs[k];
    }
  }

  /** A result list sums to its length exactly when every pass succeeded. */
  lemma {:induction false} SuccessesAll(rs: seq<bool>)
    ensures Successes(rs) == |rs| <==> forall k :: 0 <= k < |rs| ==> rs[k]
  {
    if rs != [] {
      SuccessesAll(rs[..|rs| - 1]);
      assert forall k :: 0 <= k < |rs| - 1 ==> rs[..|rs| - 1][k] == rs[k];
    }
  }

  /** A unit has no success so far exactly when its result list sums to zero. */
  lemma NoSuccessYet(device: Device, u: nat, n: nat)
    ensures Successes(PassResults(device, u, n)) == 0 <==> FirstSuccess(device, u, n) == None
  {
    var rs := PassResults(device, u, n);
    SuccessesZero(rs);
    var first := FirstSuccess(device, u, n);
    if first.Some? {
      assert rs[first.value - 1];
    }
  }

  /**
   * One pass of one unit: the result list grows by that pass's flag, and the
   * unit's image changes only on its first success, to the data just read.
   */
  lemma {:induction false} PassStep(device: Device, u: nat, p: nat)
    requires p >= 1
    ensures PassResults(device, u, p) == PassResults(device, u, p - 1) + [Succeeds(device, p, u)]
    ensures Successes(PassResults(device, u, p)) == 1 && Succeeds(device, p, u) ==>
      UnitImage(device, u, p) == device(p, TrackOf(u), HeadOf(u)).value
    ensures !(Successes(PassResults(device, u, p)) == 1 && Succeeds(device, p, u)) ==>
      UnitImage(device, u, p) == UnitImage(device, u, p - 1)
  {
    var prev := PassResults(device, u, p - 1);
    var ok := Succeeds(device, p, u);
    assert PassResults(device, u, p) == prev + [ok];
    SuccessesAppend(prev, ok);
    NoSuccessYet(device, u, p - 1);
    if ok && Successes(prev) == 0 {
      assert FirstSuccess(device, u, p) == Some(p);
    } else {
      assert FirstSuccess(device, u, p) == FirstSuccess(device, u, p - 1);
    }
  }

  /** `results[u]` holds the flags of every pass that has visited `u`: `p` passes before unit `cur`, `p - 1` from it on. */
  ghost predicate ResultsAt(results: seq<seq<bool>>, device: Device, p: nat, cur: nat)
    requires p >= 1
  {
    |results| == Units &&
    forall u :: 0 <= u < Units ==> results[u] == PassResults(device, u, if u < cur then p else p - 1)
  }

  /** The master image holds, for every unit, its image after the passes that have visited it. */
  ghost predicate ImageAt(master: seq<Byte>, device: Device, p: nat, cur: nat)
    requires p >= 1
  {
    |master| == TotalSize &&
    (forall u, k :: 0 <= u < cur && u < Units && 0 <= k < TrackSize ==>
      master[Position(u, k)] == UnitImage(device, u, p)[k]) &&
    (forall u, k :: cur <= u < Units && 0 <= k < TrackSize ==>
      master[Position(u, k)] == UnitImage(device, u, p - 1)[k])
  }

  /** Visiting unit `cur` on pass `p` appends that pass's flag to its list. */
  lemma ResultsStep(results: seq<seq<bool>>, device: Device, p: nat, cur: nat)
    requires p >= 1 && cur < Units && ResultsAt(results, device, p, cur)
    ensures ResultsAt(results[cur := results[cur] + [Succeeds(device, p, cur)]], device, p, cur + 1)
  {
    PassStep(device, cur, p);
  }

  /** Writing the unit's new image into its window, and nowhere else, keeps the image right. */
  lemma ImageWritten(before: seq<Byte>, after: seq<Byte>, device: Device, p: nat, cur: nat)
    requires p >= 1 && cur < Units && ImageAt(before, device, p, cur) && |after| == TotalSize
    requires forall k :: 0 <= k < TrackSize ==> after[Position(cur, k)] == UnitImage(device, cur, p)[k]
    requires forall i :: 0 <= i < TotalSize && !(Position(cur, 0) <= i < Position(cur, 0) + TrackSize) ==>
      after[i] == before[i]
    ensures ImageAt(after, device, p, cur + 1)
  {
    forall u, k | 0 <= u < cur + 1 && u < Units && 0 <= k < TrackSize
      ensures after[Position(u, k)] == UnitImage(device, u, p)[k]
    {
      if u != cur {
        PositionSplit(u, k);
        OutsideOtherWindows(u, k, cur);
      }
    }
    forall u, k | cur + 1 <= u < Units && 0 <= k < TrackSize
      ensures after[Position(u, k)] == UnitImage(device, u, p - 1)[k]
    {
      PositionSplit(u, k);
      OutsideOtherWindows(u, k, cur);
    }
  }

  /** Once every pass has visited every unit, the master image is the complete scan's image. */
  lemma ImageComplete(master: seq<Byte>, device: Device)
    requires ImageAt(master, device, Passes + 1, 0)
    ensures master == Image(device)
  {
    forall i | 0 <= i < TotalSize
      ensures master[i] == Image(device)[i]
    {
      OffsetsCover(i);
    }
  }

  /**
   * One unit read moves both invariants past the unit: its flag is appended
   * to its list, and its window either takes the data just read (on its first
   * success) or keeps the image it had, which is then still the right one.
   */
  lemma UnitStep(tableBefore: seq<seq<bool>>, tableAfter: seq<seq<bool>>, before: seq<Byte>, after: seq<Byte>,
                 device: Device, p: nat, t: nat, h: nat)
    requires p >= 1 && t < Tracks && h < Heads
    requires ResultsAt(tableBefore, device, p, UnitIndex(t, h)) && ImageAt(before, device, p, UnitIndex(t, h))
    requires var u := UnitIndex(t, h);
      tableAfter == tableBefore[u := tableBefore[u] + [FullRead(device(p, t, h))]]
    requires var u := UnitIndex(t, h);
      var wrote := FullRead(device(p, t, h)) && Successes(tableBefore[u] + [true]) == 1;
      |after| == TotalSize
      && (forall k :: 0 <= k < TrackSize ==>
        after[Position(u, k)] == if wrote then device(p, t, h).value[k] else before[Position(u, k)])
      && (forall i :: 0 <= i < TotalSize && !(Position(u, 0) <= i < Position(u, 0) + TrackSize) ==>
        after[i] == before[i])
    ensures ResultsAt(tableAfter, device, p, UnitIndex(t, h) + 1)
    ensures ImageAt(after, device, p, UnitIndex(t, h) + 1)
  {
    var u := UnitIndex(t, h);
    ResultsStep(tableBefore, device, p, u);
    PassStep(device, u, p);
    forall k | 0 <= k < TrackSize
      ensures after[Position(u, k)] == UnitImage(device, u, p)[k]
    {
      PositionSplit(u, k);
    }
    ImageWritten(before, after, device, p, u);
  }

  /**
   * One unit read of the scan loop: reads (track t, head h) on pass `p`,
   * appends the outcome to the unit's result list and, when this is the
   * unit's first success, copies the data into the unit's window of the
   * master image. Nothing else changes.
   */
  method ReadUnit(device: Device, p: nat, t: nat, h: nat, master: array<Byte>, table: array<seq<bool>>)
    requires t < Tracks && h < Heads
    requires master.Length == TotalSize && table.Length == Units
    modifies master, table
    ensures var u := UnitIndex(t, h);
      table[..] == old(table[..])[u := old(table[u]) + [FullRead(device(p, t, h))]]
    ensures var u := UnitIndex(t, h);
      var wrote := FullRead(device(p, t, h)) && Successes(old(table[u]) + [true]) == 1;
      (forall k :: 0 <= k < TrackSize ==>
        master[Position(u, k)] == if wrote then device(p, t, h).value[k] else old(master[Position(u, k)]))
      && (forall i :: 0 <= i < TotalSize && !(Position(u, 0) <= i < Position(u, 0) + TrackSize) ==>
        master[i] == old(master[i]))
  {
    var u := UnitIndex(t, h);
    var offset := Offset(t, h);
    PositionIsOffset(t, h, 0);
    var data := device(p, t, h);
    if data.Some? && |data.value| == TrackSize {
      table[u] := table[u] + [true];
      if Successes(table[u]) == 1 {
        forall k | 0 <= k < TrackSize {
          master[offset + k] := data.value[k];
        }
      }
    } else {
      table[u] := table[u] + [false];
    }
  }

  /** One pass over all units in track-major, head-minor order: one unit read per unit. */
  method ScanPass(device: Device, p: nat, master: array<Byte>, table: array<seq<bool>>, opsBefore: nat)
    returns (opsDone: nat)
    requires p >= 1 && opsBefore + Units <= TotalOps
    requires ResultsAt(table[..], device, p, 0) && ImageAt(master[..], device, p, 0)
    modifies master, table
    ensures ResultsAt(table[..], device, p + 1, 0) && ImageAt(master[..], device, p + 1, 0)
    ensures opsDone == opsBefore + Units
  {
    opsDone := opsBefore;
    ghost var cur: nat := 0;
    for t := 0 to Tracks
      invariant cur == t * Heads && opsDone == opsBefore + cur && opsDone <= TotalOps
      invariant ResultsAt(table[..], device, p, cur)
      invariant ImageAt(master[..], device, p, cur)
    {
      for h := 0 to Heads
        invariant cur == t * Heads + h && opsDone == opsBefore + cur && opsDone <= TotalOps
        invariant ResultsAt(table[..], device, p, cur)
        invariant ImageAt(master[..], device, p, cur)
      {
        assert cur == UnitIndex(t, h) < Units;
        opsDone := opsDone + 1;
        ghost var tableBefore, before := table[..], master[..];
        ReadUnit(device, p, t, h, master, table);
        UnitStep(tableBefore, table[..], before, master[..], device, p, t, h);
        cur := cur + 1;
      }
    }
  }

  /**
   * The scan loop: PASSES passes over every (track, head) unit. It returns
   * the master image, each unit's result list (indexed by unit number) and the
   * number of unit reads done; the loop invariants keep that count at most
   * TOTAL_OPS after every read (so `remaining_ops` never goes negative), and it
   * ends at TOTAL_OPS.
   */
  method Scan(device: Device) returns (master: array<Byte>, results: seq<seq<bool>>, opsDone: nat)
    ensures master.Length == TotalSize && master[..] == Image(device)
    ensures |results| == Units
    ensures forall u :: 0 <= u < Units ==> results[u] == PassResults(device, u, Passes)
    ensures opsDone == TotalOps
  {
    master := new Byte[TotalSize](_ => 0);
    var table := new seq<bool>[Units](_ => []);
    opsDone := 0;
    for p := 1 to Passes + 1
      invariant opsDone == (p - 1) * Units && opsDone <= TotalOps
      invariant ResultsAt(table[..], device, p, 0)
      invariant ImageAt(master[..], device, p, 0)
    {
      opsDone := ScanPass(device, p, master, table, opsDone);
    }
    results := table[..];
    ImageComplete(master[..], device);
  }
}
