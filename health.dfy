/**
 * The analysis after the scan: every unit is classified by how many of the
 * passes read it whole, the disk map lists the classes in unit order, the
 * damaged units are reported by position, and the health score is the share
 * of salvaged units, as a rounded percentage.
 */
module Health {
  import opened Wrappers
  import opened Floppy
  import opened Text
  import opened Scanner

  /** A unit's class: read on every pass, on some passes only, or on none. */
  datatype Status = StableOk | Unstable | StableBad

  /** The class as written into the report's disk map. */
  function StatusName(s: Status): string {
    match s
    case StableOk => "STABLE_OK"
    case Unstable => "UNSTABLE"
    case StableBad => "STABLE_BAD"
  }

  /** Reads a disk-map entry back; anything but the three names is rejected. */
  function ParseStatus(name: string): (r: Option<Status>)
    ensures r.Some? ==> StatusName(r.value) == name
  {
    if name == "STABLE_OK" then Some(StableOk)
    else if name == "UNSTABLE" then Some(Unstable)
    else if name == "STABLE_BAD" then Some(StableBad)
    else None
  }

  /** The three names are distinct: every class survives the report. */
  lemma StatusNameRoundTrip(s: Status)
    ensures ParseStatus(StatusName(s)) == Some(s)
  {
    assert StatusName(StableOk) != StatusName(Unstable) && StatusName(Unstable) != StatusName(StableBad);
  }

  /** The class of a unit that was read whole `successes` times out of Passes. */
  function Classify(successes: nat): Status {
    if successes == Passes then StableOk
    else if successes == 0 then StableBad
    else Unstable
  }

  /**
   * Over a complete result list the classes mean what they say: STABLE_OK
   * exactly when every pass succeeded, STABLE_BAD exactly when every pass
   * failed, UNSTABLE exactly when the passes disagreed.
   */
  lemma ClassifyResults(rs: seq<bool>)
    requires |rs| == Passes
    ensures Classify(Successes(rs)) == StableOk <==> forall k :: 0 <= k < |rs| ==> rs[k]
    ensures Classify(Successes(rs)) == StableBad <==> forall k :: 0 <= k < |rs| ==> !rs[k]
    ensures Classify(Successes(rs)) == Unstable <==>
      (exists k :: 0 <= k < |rs| && rs[k]) && (exists k :: 0 <= k < |rs| && !rs[k])
  {
    SuccessesAll(rs);
    SuccessesZero(rs);
  }

  /** The position of a unit in a report: `f"T:{t:02d} H:{h}"`. */
  function SpotLabel(t: nat, h: nat): string {
    "T:" + Pad2(t) + " H:" + NatToString(h)
  }

  /** An unstable unit's entry also gives its success count: `... (successes/PASSES)`. */
  function UnstableLabel(t: nat, h: nat, successes: nat): string {
    SpotLabel(t, h) + " (" + NatToString(successes) + "/" + NatToString(Passes) + ")"
  }

  /** The position label of unit `u`. */
  function UnitLabel(u: nat): string {
    SpotLabel(TrackOf(u), HeadOf(u))
  }

  /** The unstable-unit label of unit `u`. */
  function UnitUnstableLabel(u: nat, successes: nat): string {
    UnstableLabel(TrackOf(u), HeadOf(u), successes)
  }

  /** Reads a position label of the form `T:dd H:d` back. */
  function ParseSpot(l: string): (r: Option<(nat, nat)>)
    ensures r.Some? ==> r.value.0 < 100 && r.value.1 < 10
  {
    if |l| == 8 && l[..2] == "T:" && IsDigit(l[2]) && IsDigit(l[3]) && l[4..7] == " H:" && IsDigit(l[7])
    then Some((10 * DigitValue(l[2]) + DigitValue(l[3]), DigitValue(l[7])))
    else None
  }

  /** Every position of the disk is labelled so that it can be read back. */
  lemma SpotLabelParses(t: nat, h: nat)
    requires t < Tracks && h < Heads
    ensures ParseSpot(SpotLabel(t, h)) == Some((t, h))
  {
    var l := SpotLabel(t, h);
    Pad2Digits(t);
    assert NatToString(h) == [DigitChar(h)];
    assert l == ['T', ':'] + Pad2(t) + [' ', 'H', ':'] + [DigitChar(h)];
    assert l[..2] == "T:" && l[4..7] == " H:";
  }

  /** Distinct units get distinct labels. */
  lemma SpotLabelsDistinct(u1: nat, u2: nat)
    requires u1 < Units && u2 < Units && u1 != u2
    ensures UnitLabel(u1) != UnitLabel(u2)
  {
    UnitIndexOf(u1);
    UnitIndexOf(u2);
    SpotLabelParses(TrackOf(u1), HeadOf(u1));
    SpotLabelParses(TrackOf(u2), HeadOf(u2));
  }

  /** The units a disk map gives class `s`, in increasing order. */
  function UnitsWith(m: seq<Status>, s: Status): (us: seq<nat>)
    ensures forall i :: 0 <= i < |us| ==> us[i] < |m| && m[us[i]] == s
    ensures forall i, j :: 0 <= i < j < |us| ==> us[i] < us[j]
    ensures forall u :: 0 <= u < |m| && m[u] == s ==> u in us
  {
    if m == [] then []
    else UnitsWith(m[..|m| - 1], s) + (if m[|m| - 1] == s then [|m| - 1] else [])
  }

  /** Appending one unit to a disk map appends it to its class's units. */
  lemma UnitsWithAppend(m: seq<Status>, x: Status, s: Status)
    ensures UnitsWith(m + [x], s) == UnitsWith(m, s) + (if x == s then [|m|] else [])
  {
    assert (m + [x])[..|m|] == m;
  }

  /** Every unit of a disk map is in exactly one of the three classes. */
  lemma {:induction false} ClassesPartition(m: seq<Status>)
    ensures |UnitsWith(m, StableOk)| + |UnitsWith(m, Unstable)| + |UnitsWith(m, StableBad)| == |m|
  {
    if m != [] {
      var init := m[..|m| - 1];
      assert m == init + [m[|m| - 1]];
      ClassesPartition(init);
      UnitsWithAppend(init, m[|m| - 1], StableOk);
      UnitsWithAppend(init, m[|m| - 1], Unstable);
      UnitsWithAppend(init, m[|m| - 1], StableBad);
    }
  }

  /** The labels of a list of units, in the same order. */
  function SpotLabels(us: seq<nat>): (ls: seq<string>)
    ensures |ls| == |us|
    ensures forall i :: 0 <= i < |us| ==> ls[i] == UnitLabel(us[i])
  {
    if us == [] then [] else SpotLabels(us[..|us| - 1]) + [UnitLabel(us[|us| - 1])]
  }

  /** The unstable-unit labels of a list of units, each with its success count. */
  function UnstableLabels(results: seq<seq<bool>>, us: seq<nat>): (ls: seq<string>)
    requires forall i :: 0 <= i < |us| ==> us[i] < |results|
    ensures |ls| == |us|
    ensures forall i :: 0 <= i < |us| ==>
      ls[i] == UnitUnstableLabel(us[i], Successes(results[us[i]]))
  {
    if us == [] then []
    else
      var u := us[|us| - 1];
      UnstableLabels(results, us[..|us| - 1]) + [UnitUnstableLabel(u, Successes(results[u]))]
  }

  /** What the analysis adds to the report: the disk map and the two lists of damaged units. */
  datatype Analysis = Analysis(diskMap: seq<Status>, unstableSpots: seq<string>, stableBadSpots: seq<string>)

  /**
   * The analysis of the first `n` units, one unit at a time: the disk map
   * classifies each unit by its own result list.
   */
  function Analyze(results: seq<seq<bool>>, n: nat): (a: Analysis)
    requires n <= |results|
    ensures |a.diskMap| == n
    ensures forall u :: 0 <= u < n ==> a.diskMap[u] == Classify(Successes(results[u]))
  {
    if n == 0 then Analysis([], [], [])
    else
      var prev := Analyze(results, n - 1);
      var u := n - 1;
      var successes := Successes(results[u]);
      var s := Classify(successes);
      Analysis(prev.diskMap + [s],
               prev.unstableSpots + (if s == Unstable then [UnitUnstableLabel(u, successes)] else []),
               prev.stableBadSpots + (if s == StableBad then [UnitLabel(u)] else []))
  }

  /** The analysis of one more unit extends the previous analysis by that unit alone. */
  lemma AnalyzeStep(results: seq<seq<bool>>, u: nat)
    requires u < |results|
    ensures var prev := Analyze(results, u);
      Successes(results[u]) == Passes ==>
      Analyze(results, u + 1) == Analysis(prev.diskMap + [StableOk], prev.unstableSpots, prev.stableBadSpots)
    ensures var prev := Analyze(results, u);
      Successes(results[u]) == 0 ==>
      Analyze(results, u + 1) ==
        Analysis(prev.diskMap + [StableBad], prev.unstableSpots, prev.stableBadSpots + [UnitLabel(u)])
    ensures var prev := Analyze(results, u);
      var successes := Successes(results[u]);
      successes != Passes && successes != 0 ==>
      Analyze(results, u + 1) == Analysis(prev.diskMap + [Unstable],
        prev.unstableSpots + [UnitUnstableLabel(u, successes)], prev.stableBadSpots)
  {
  }

  /** Labelling one more unit appends its label. */
  lemma SpotLabelsAppend(us: seq<nat>, u: nat)
    ensures SpotLabels(us + [u]) == SpotLabels(us) + [UnitLabel(u)]
  {
    assert (us + [u])[..|us|] == us;
  }

  lemma UnstableLabelsAppend(results: seq<seq<bool>>, us: seq<nat>, u: nat)
    requires u < |results| && forall i :: 0 <= i < |us| ==> us[i] < |results|
    ensures UnstableLabels(results, us + [u]) ==
      UnstableLabels(results, us) + [UnitUnstableLabel(u, Successes(results[u]))]
  {
    assert (us + [u])[..|us|] == us;
  }

  /**
   * The STABLE_BAD list holds, in unit order, the label of every STABLE_BAD
   * unit and nothing else.
   */
  lemma {:induction false} AnalyzeBadSpots(results: seq<seq<bool>>, n: nat)
    requires n <= |results|
    ensures Analyze(results, n).stableBadSpots == SpotLabels(UnitsWith(Analyze(results, n).diskMap, StableBad))
  {
    if n > 0 {
      AnalyzeBadSpots(results, n - 1);
      BadSpotsStep(results, n);
    }
  }

  /** The STABLE_BAD list keeps its meaning when one more unit is analysed. */
  lemma BadSpotsStep(results: seq<seq<bool>>, n: nat)
    requires 0 < n <= |results|
    requires Analyze(results, n - 1).stableBadSpots == SpotLabels(UnitsWith(Analyze(results, n - 1).diskMap, StableBad))
    ensures Analyze(results, n).stableBadSpots == SpotLabels(UnitsWith(Analyze(results, n).diskMap, StableBad))
  {
    var prev := Analyze(results, n - 1);
    var s := Classify(Successes(results[n - 1]));
    var a := Analyze(results, n);
    var bad := UnitsWith(prev.diskMap, StableBad);
    assert a.diskMap == prev.diskMap + [s];
    UnitsWithAppend(prev.diskMap, s, StableBad);
    if s == StableBad {
      assert a.stableBadSpots == prev.stableBadSpots + [UnitLabel(n - 1)];
      assert UnitsWith(a.diskMap, StableBad) == bad + [n - 1];
      SpotLabelsAppend(bad, n - 1);
    } else {
      assert a.stableBadSpots == prev.stableBadSpots;
      assert UnitsWith(a.diskMap, StableBad) == bad;
    }
  }

  /**
   * The UNSTABLE list holds, in unit order, the label and success count of
   * every UNSTABLE unit and nothing else.
   */
  lemma {:induction false} AnalyzeUnstableSpots(results: seq<seq<bool>>, n: nat)
    requires n <= |results|
    ensures Analyze(results, n).unstableSpots == UnstableLabels(results, UnitsWith(Analyze(results, n).diskMap, Unstable))
  {
    if n > 0 {
      AnalyzeUnstableSpots(results, n - 1);
      var prev := Analyze(results, n - 1);
      var successes := Successes(results[n - 1]);
      var s := Classify(successes);
      var a := Analyze(results, n);
      assert a.diskMap == prev.diskMap + [s];
      assert a.unstableSpots == prev.unstableSpots
        + (if s == Unstable then [UnitUnstableLabel(n - 1, successes)] else []);
      UnitsWithAppend(prev.diskMap, s, Unstable);
      UnstableLabelsAppend(results, UnitsWith(prev.diskMap, Unstable), n - 1);
    }
  }

  /**
   * The analysis loop: units in track-major, head-minor order, appending
   * one disk-map entry per unit and one report entry per damaged unit.
   */
  method AnalyzeResults(results: seq<seq<bool>>) returns (a: Analysis)
    requires |results| == Units
    ensures a == Analyze(results, Units)
  {
    var diskMap: seq<Status> := [];
    var unstable: seq<string> := [];
    var bad: seq<string> := [];
    ghost var n: nat := 0;
    for t := 0 to Tracks
      invariant n == t * Heads
      invariant diskMap == Analyze(results, n).diskMap
      invariant unstable == Analyze(results, n).unstableSpots
      invariant bad == Analyze(results, n).stableBadSpots
    {
      for h := 0 to Heads
        invariant n == t * Heads + h
        invariant diskMap == Analyze(results, n).diskMap
        invariant unstable == Analyze(results, n).unstableSpots
        invariant bad == Analyze(results, n).stableBadSpots
      {
        var u := UnitIndex(t, h);
        assert u == n;
        AnalyzeStep(results, n);
        var successes := Successes(results[u]);
        if successes == Passes {
          diskMap := diskMap + [StableOk];
        } else if successes == 0 {
          diskMap := diskMap + [StableBad];
          bad := bad + [SpotLabel(t, h)];
        } else {
          diskMap := diskMap + [Unstable];
          unstable := unstable + [UnstableLabel(t, h, successes)];
        }
        n := n + 1;
      }
    }
    a := Analysis(diskMap, unstable, bad);
  }

  /** The number of units not classed STABLE_BAD (`sum(1 for s in map if s != "STABLE_BAD")`). */
  function SalvagedCount(m: seq<Status>): (n: nat)
    ensures n == |m| - |UnitsWith(m, StableBad)|
  {
    if m == [] then 0
    else
      var init := m[..|m| - 1];
      assert m == init + [m[|m| - 1]];
      UnitsWithAppend(init, m[|m| - 1], StableBad);
      SalvagedCount(init) + (if m[|m| - 1] != StableBad then 1 else 0)
  }

  /** The health score divides by this fixed count of units. */
  const ScoreBase: nat := 160

  /**
   * `int(round(salvaged / 160.0 * 100))`: the percentage of salvaged units
   * rounded to the nearest integer, a tie going to the even neighbour.
   */
  function HealthScore(salvaged: nat): (score: nat)
    ensures -80 <= ScoreBase * score - 100 * salvaged <= 80
    ensures ScoreBase * score - 100 * salvaged == 80 ==> score % 2 == 0
    ensures ScoreBase * score - 100 * salvaged == -80 ==> score % 2 == 0
  {
    var q := salvaged * 100 / ScoreBase;
    var r := salvaged * 100 % ScoreBase;
    if r > 80 || (r == 80 && q % 2 == 1) then q + 1 else q
  }

  /** The score is a percentage: 100 exactly when every unit was salvaged, 0 exactly when none was. */
  lemma HealthScoreBounds(salvaged: nat)
    requires salvaged <= ScoreBase
    ensures HealthScore(salvaged) <= 100
    ensures HealthScore(salvaged) == 100 <==> salvaged == ScoreBase
    ensures HealthScore(salvaged) == 0 <==> salvaged == 0
  {
  }

  /** Salvaging more units never lowers the score. */
  lemma HealthScoreMonotone(a: nat, b: nat)
    requires a <= b
    ensures HealthScore(a) <= HealthScore(b)
  {
  }
}
