/**
 * The tray form's snapshot history (TrayIconForm): the list of taken
 * snapshots, which only grows or is cleared, and the restore menu rebuilt from
 * a condensed copy of it after every change.
 */
module Tray {
  import opened Results
  import opened Seqs
  import opened Geometry
  import opened Windows
  import opened Snapshots
  import opened Condensation

  /** UpdateRestoreChoicesInMenu condenses to twenty entries. */
  const MaxMenuSnapshots: int := 20

  /**
   * What the menu rebuild computes: the snapshots offered for restore (oldest
   * first) and the data the monitor icons are drawn from.
   */
  datatype RestoreMenu = RestoreMenu(
    choices: seq<Snapshot>,
    showMonitorIcons: bool,
    maxNumMonitors: int,
    maxNumMonitorPixels: int)

  function StampOf(s: Snapshot): Stamp
  {
    Stamp(s.timeTaken, s.userInitiated)
  }

  /** The MonitorPixelCounts of each snapshot, in list order. */
  function PixelLists(snapshots: seq<Snapshot>): (counts: seq<seq<int>>)
    ensures |counts| == |snapshots|
  {
    seq(|snapshots|, i requires 0 <= i < |snapshots| => snapshots[i].monitorPixelCounts)
  }

  // ------------------------------------------------------------ monitor fold

  /** maxNumMonitors after the fold has seen `counts` (NumMonitors is the length of each list). */
  function MaxNumMonitors(counts: seq<seq<int>>): (m: nat)
  {
    if counts == [] then 0
    else Max(MaxNumMonitors(counts[..|counts| - 1]), |Last(counts)|)
  }

  /** A running maximum started at `acc`. */
  function FoldMax(acc: int, ps: seq<int>): (m: int)
  {
    if ps == [] then acc else Max(FoldMax(acc, ps[..|ps| - 1]), Last(ps))
  }

  /** maxNumMonitorPixels after the fold has seen `counts`. */
  function MaxMonitorPixels(counts: seq<seq<int>>): (m: int)
  {
    if counts == [] then 0
    else FoldMax(MaxMonitorPixels(counts[..|counts| - 1]), Last(counts))
  }

  /**
   * showMonitorIcons after the fold has seen `counts`: set once some snapshot's
   * monitor count differs from a non-zero maximum of the ones before it.
   */
  function ShowMonitorIcons(counts: seq<seq<int>>): (show: bool)
  {
    if counts == [] then false
    else
      var before := counts[..|counts| - 1];
      ShowMonitorIcons(before) || (MaxNumMonitors(before) != |Last(counts)| && MaxNumMonitors(before) != 0)
  }

  /** The first loop of UpdateRestoreChoicesInMenu, over the snapshots offered in the menu. */
  method MonitorIconLayout(snapshotsOldestFirst: seq<Snapshot>)
    returns (maxNumMonitors: int, maxNumMonitorPixels: int, showMonitorIcons: bool)
    ensures maxNumMonitors == MaxNumMonitors(PixelLists(snapshotsOldestFirst))
    ensures maxNumMonitorPixels == MaxMonitorPixels(PixelLists(snapshotsOldestFirst))
    ensures showMonitorIcons == ShowMonitorIcons(PixelLists(snapshotsOldestFirst))
  {
    ghost var counts := PixelLists(snapshotsOldestFirst);
    maxNumMonitors := 0;
    maxNumMonitorPixels := 0;
    showMonitorIcons := false;
    for i := 0 to |snapshotsOldestFirst|
      invariant maxNumMonitors == MaxNumMonitors(counts[..i])
      invariant maxNumMonitorPixels == MaxMonitorPixels(counts[..i])
      invariant showMonitorIcons == ShowMonitorIcons(counts[..i])
    {
      var snapshot := snapshotsOldestFirst[i];
      assert counts[..i + 1][..i] == counts[..i];
      assert snapshot.monitorPixelCounts == counts[i];
      if maxNumMonitors != snapshot.NumMonitors() && maxNumMonitors != 0 {
        showMonitorIcons := true;
      }
      maxNumMonitors := Max(maxNumMonitors, snapshot.NumMonitors());
      ghost var before := maxNumMonitorPixels;
      for j := 0 to |snapshot.monitorPixelCounts|
        invariant maxNumMonitorPixels == FoldMax(before, counts[i][..j])
      {
        assert counts[i][..j + 1][..j] == counts[i][..j];
        maxNumMonitorPixels := Max(maxNumMonitorPixels, snapshot.monitorPixelCounts[j]);
      }
      assert counts[i][..|counts[i]|] == counts[i];
    }
    assert counts[..|counts|] == counts;
  }

  /** maxNumMonitors is the largest monitor count, 0 for no snapshots. */
  lemma {:induction false} MaxNumMonitorsIsMaximum(counts: seq<seq<int>>)
    ensures forall i :: 0 <= i < |counts| ==> |counts[i]| <= MaxNumMonitors(counts)
    ensures counts == [] ==> MaxNumMonitors(counts) == 0
    ensures counts != [] ==> exists i :: 0 <= i < |counts| && |counts[i]| == MaxNumMonitors(counts)
  {
    if counts != [] {
      var before := counts[..|counts| - 1];
      MaxNumMonitorsIsMaximum(before);
      if before != [] && MaxNumMonitors(before) >= |Last(counts)| {
        var i :| 0 <= i < |before| && |before[i]| == MaxNumMonitors(before);
        assert counts[i] == before[i];
      } else {
        assert |counts[|counts| - 1]| == MaxNumMonitors(counts);
      }
      forall i | 0 <= i < |counts| - 1 ensures |counts[i]| <= MaxNumMonitors(counts) {
        assert counts[i] == before[i];
      }
    }
  }

  lemma {:induction false} FoldMaxIsMaximum(acc: int, ps: seq<int>)
    ensures acc <= FoldMax(acc, ps)
    ensures forall j :: 0 <= j < |ps| ==> ps[j] <= FoldMax(acc, ps)
    ensures FoldMax(acc, ps) == acc || exists j :: 0 <= j < |ps| && ps[j] == FoldMax(acc, ps)
  {
    if ps != [] {
      var before := ps[..|ps| - 1];
      FoldMaxIsMaximum(acc, before);
      if FoldMax(acc, before) != acc && FoldMax(acc, before) >= Last(ps) {
        var j :| 0 <= j < |before| && before[j] == FoldMax(acc, before);
        assert ps[j] == before[j];
      }
      forall j | 0 <= j < |ps| - 1 ensures ps[j] <= FoldMax(acc, ps) {
        assert ps[j] == before[j];
      }
    }
  }

  /** maxNumMonitorPixels is the largest pixel count of any monitor, and never below 0. */
  lemma {:induction false} MaxMonitorPixelsIsMaximum(counts: seq<seq<int>>)
    ensures 0 <= MaxMonitorPixels(counts)
    ensures forall i, j :: 0 <= i < |counts| && 0 <= j < |counts[i]| ==> counts[i][j] <= MaxMonitorPixels(counts)
    ensures MaxMonitorPixels(counts) == 0 ||
            exists i, j :: 0 <= i < |counts| && 0 <= j < |counts[i]| && counts[i][j] == MaxMonitorPixels(counts)
  {
    if counts != [] {
      var before := counts[..|counts| - 1];
      var last := |counts| - 1;
      MaxMonitorPixelsIsMaximum(before);
      FoldMaxIsMaximum(MaxMonitorPixels(before), counts[last]);
      forall i, j | 0 <= i < |counts| && 0 <= j < |counts[i]| ensures counts[i][j] <= MaxMonitorPixels(counts) {
        if i < last {
          assert counts[i] == before[i];
        }
      }
      if MaxMonitorPixels(counts) != 0 {
        if MaxMonitorPixels(counts) == MaxMonitorPixels(before) {
          var i, j :| 0 <= i < |before| && 0 <= j < |before[i]| && before[i][j] == MaxMonitorPixels(before);
          assert counts[i] == before[i];
        } else {
          var j :| 0 <= j < |counts[last]| && counts[last][j] == MaxMonitorPixels(counts);
        }
      }
    }
  }

  predicate SameMonitorCount(counts: seq<seq<int>>)
  {
    forall i, j :: 0 <= i < |counts| && 0 <= j < |counts| ==> |counts[i]| == |counts[j]|
  }

  /**
   * When every snapshot has at least one monitor, the icons are shown exactly
   * when the snapshots do not all have the same number of monitors.
   */
  lemma {:induction false} ShowIconsIffMixedMonitorCounts(counts: seq<seq<int>>)
    requires forall i :: 0 <= i < |counts| ==> |counts[i]| > 0
    ensures ShowMonitorIcons(counts) <==> !SameMonitorCount(counts)
  {
    if counts != [] {
      var before := counts[..|counts| - 1];
      var last := |counts| - 1;
      assert forall i :: 0 <= i < |before| ==> before[i] == counts[i];
      ShowIconsIffMixedMonitorCounts(before);
      if !SameMonitorCount(before) {
        var i, j :| 0 <= i < |before| && 0 <= j < |before| && |before[i]| != |before[j]|;
        assert |counts[i]| != |counts[j]|;
      } else if before != [] {
        MaxNumMonitorsIsMaximum(before);
        assert MaxNumMonitors(before) == |counts[0]|;
        if |counts[last]| != |counts[0]| {
          assert !SameMonitorCount(counts);
        } else {
          forall i, j | 0 <= i < |counts| && 0 <= j < |counts| ensures |counts[i]| == |counts[j]| {
            assert |counts[i]| == |counts[0]| && |counts[j]| == |counts[0]|;
          }
        }
      } else {
        assert counts == [counts[0]];
      }
    }
  }

  // ------------------------------------------------------------ the form

  class TrayIconForm {
    /** Every snapshot taken and not cleared, oldest first (_snapshots). */
    var snapshots: seq<Snapshot>
    /** The restore choices as last rebuilt. */
    var menu: RestoreMenu

    /** Snapshot times are DateTime values. */
    ghost predicate Valid()
      reads this
    {
      AllValidTicks(snapshots, StampOf)
    }

    /** What the menu shows for a given history at time `now`. */
    ghost predicate MenuShows(history: seq<Snapshot>, now: int)
      reads this
    {
      && menu.choices == Condensed(history, StampOf, MaxMenuSnapshots, now)
      && menu.maxNumMonitors == MaxNumMonitors(PixelLists(menu.choices))
      && menu.maxNumMonitorPixels == MaxMonitorPixels(PixelLists(menu.choices))
      && menu.showMonitorIcons == ShowMonitorIcons(PixelLists(menu.choices))
    }

    /** An empty history and an empty menu (the first TakeSnapshot is the caller's). */
    constructor ()
      ensures Valid() && snapshots == [] && menu == RestoreMenu([], false, 0, 0)
    {
      snapshots := [];
      menu := RestoreMenu([], false, 0, 0);
    }

    /**
     * Rebuild the menu from a condensed copy of the history; the history itself
     * is left as it is.
     */
    method UpdateRestoreChoicesInMenu(now: int)
      requires Valid() && ValidTicks(now)
      modifies this
      ensures snapshots == old(snapshots)
      ensures MenuShows(snapshots, now)
    {
      var condensed := CondenseSnapshots(snapshots, StampOf, MaxMenuSnapshots, now);
      var snapshotsOldestFirst := condensed.value;
      var maxNumMonitors, maxNumMonitorPixels, showMonitorIcons := MonitorIconLayout(snapshotsOldestFirst);
      menu := RestoreMenu(snapshotsOldestFirst, showMonitorIcons, maxNumMonitors, maxNumMonitorPixels);
    }

    /**
     * Take a snapshot and append it to the history, then rebuild the menu. When
     * the capture fails (an exception out of Snapshot.TakeSnapshot) nothing
     * changes. The classifier walks get AdequateFuel(d) rounds, so
     * `WalkUnbounded` is reported only for a walk that would never end.
     */
    method TakeSnapshot(d: Desktop, order: seq<Handle>, screens: seq<Rect>, now: int, userInitiated: bool)
      returns (out: Outcome<CaptureError>)
      requires Valid() && ValidTicks(now)
      modifies this
      ensures Valid()
      ensures out.Fail? ==> snapshots == old(snapshots) && menu == old(menu)
      // a capture fails only for a handle of the enumeration that really causes the failure
      ensures out.Fail? && out.error.WalkUnbounded?
              ==> && out.error.hwnd in order
                  && forall fuel: nat :: Classify(d, out.error.hwnd, fuel) == Unsettled
      ensures out.Fail? && out.error.GeometryUnavailable?
              ==> && out.error.hwnd in order
                  && Classify(d, out.error.hwnd, AdequateFuel(d)) == AltTab
                  && out.error.hwnd !in d.windowRect
      ensures out.Fail? && out.error.DuplicateHandle?
              ==> && Classify(d, out.error.hwnd, AdequateFuel(d)) == AltTab
                  && exists j, k :: 0 <= j < k < |order| && order[j] == out.error.hwnd && order[k] == out.error.hwnd
      ensures out.Pass? ==> && |snapshots| == |old(snapshots)| + 1
                            && snapshots[..|old(snapshots)|] == old(snapshots)
                            && MenuShows(snapshots, now)
      ensures out.Pass? ==> var s := Last(snapshots);
                            && fresh(s) && s.Valid()
                            && s.timeTaken == now && s.userInitiated == userInitiated
                            && s.monitorPixelCounts == PixelCounts(screens)
                            && (forall h :: h in order ==> Classify(d, h, AdequateFuel(d)) != Unsettled)
                            && s.windowsBackToTop == AltTabWindows(d, order, AdequateFuel(d))
                            && s.infoOrder == s.windowsBackToTop
                            && (forall h :: h in s.infos ==> GetWindowInfo(d, h) == Ok(s.infos[h]))
    {
      var taken := Snapshot.TakeSnapshot(d, order, screens, now, userInitiated, AdequateFuel(d));
      if taken.Err? {
        if taken.error.WalkUnbounded? {
          forall fuel: nat ensures Classify(d, taken.error.hwnd, fuel) == Unsettled {
            ClassifyFuelAdequate(d, taken.error.hwnd, AdequateFuel(d), fuel);
          }
        }
        return Fail(taken.error);
      }
      snapshots := snapshots + [taken.value];
      assert snapshots[..|old(snapshots)|] == old(snapshots);
      UpdateRestoreChoicesInMenu(now);
      return Pass;
    }

    /** Forget every snapshot and rebuild the (now empty) menu. */
    method ClearSnapshots(now: int)
      requires ValidTicks(now)
      modifies this
      ensures Valid() && snapshots == []
      ensures menu == RestoreMenu([], false, 0, 0)
    {
      snapshots := [];
      UpdateRestoreChoicesInMenu(now);
    }
  }
}
