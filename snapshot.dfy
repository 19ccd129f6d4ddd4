/**
 * A snapshot of the desktop layout (class Snapshot): which alt-tab windows
 * existed in which back-to-front order, where each one was, and how restoring
 * it moves the windows and re-stacks them.
 */
module Snapshots {
  import opened Results
  import opened Seqs
  import opened Geometry
  import opened Windows

  const SWP_NOSIZE: bv32 := 0x0001
  const SWP_NOMOVE: bv32 := 0x0002
  const SWP_NOZORDER: bv32 := 0x0004
  const SWP_NOACTIVATE: bv32 := 0x0010

  /** Why taking a snapshot stopped; in Snapshot's constructor each of these is an exception or a hang. */
  datatype CaptureError =
    | GeometryUnavailable(hwnd: Handle)   // GetWindowRect failed
    | DuplicateHandle(hwnd: Handle)       // Dictionary.Add of a key already present
    | WalkUnbounded(hwnd: Handle)         // the classifier's walk did not settle

  /** SetWindowPos(hwnd, 0, target..., flags): one geometry move of a restore. */
  datatype WindowMove = WindowMove(hwnd: Handle, target: Rect, flags: bv32)

  /** DeferWindowPos(..., hwnd, insertAfter, 0, 0, 0, 0, flags): one entry of the z-order batch. */
  datatype DeferredPosition = DeferredPosition(hwnd: Handle, insertAfter: Handle, flags: bv32)

  const ZOrderFlags: bv32 := SWP_NOMOVE | SWP_NOSIZE | SWP_NOACTIVATE

  /**
   * GetWindowInfo: the nominal frame from GetWindowRect, and the visible frame
   * from the DWM extended frame bounds when the OS is version 6 or later and
   * that query succeeds, the nominal frame otherwise.
   */
  function GetWindowInfo(d: Desktop, hwnd: Handle): (r: Result<WinInfo, CaptureError>)
    ensures r.Err? <==> hwnd !in d.windowRect
    ensures r.Err? ==> r.error == GeometryUnavailable(hwnd)
    ensures r.Ok? ==> r.value.position == ToRectangle(d.windowRect[hwnd])
    ensures r.Ok? && r.value.visible != r.value.position
            ==> d.osMajorVersion >= 6 && hwnd in d.extendedFrame
    ensures r.Ok? && d.osMajorVersion >= 6 && hwnd in d.extendedFrame
            ==> r.value.visible == ToRectangle(d.extendedFrame[hwnd])
  {
    if hwnd !in d.windowRect then Err(GeometryUnavailable(hwnd))
    else
      var pos := ToRectangle(d.windowRect[hwnd]);
      var visible := if d.osMajorVersion >= 6 && hwnd in d.extendedFrame
                     then ToRectangle(d.extendedFrame[hwnd]) else pos;
      Ok(WinInfo(pos, visible))
  }

  /** For each handle of `order`, whether the classifier accepts it. */
  function AcceptMask(d: Desktop, order: seq<Handle>, fuel: nat): (keep: seq<bool>)
    ensures |keep| == |order|
  {
    seq(|order|, i requires 0 <= i < |order| => Classify(d, order[i], fuel) == AltTab)
  }

  /** The alt-tab windows of an enumeration, in enumeration (back-to-front) order. */
  function AltTabWindows(d: Desktop, order: seq<Handle>, fuel: nat): (r: seq<Handle>)
  {
    Select(order, AcceptMask(d, order, fuel))
  }

  /** The handles of `s` still visible, in their order (List.FindAll(IsWindowVisible)). */
  function KeepVisible(s: seq<Handle>, visible: set<Handle>): (r: seq<Handle>)
  {
    Select(s, seq(|s|, i requires 0 <= i < |s| => s[i] in visible))
  }

  /** Pixel counts of the attached screens, from their bounds. */
  function PixelCounts(screens: seq<Rect>): (pixels: seq<int>)
    ensures |pixels| == |screens|
  {
    seq(|screens|, i requires 0 <= i < |screens| => screens[i].width * screens[i].height)
  }

  /** The geometry move a restore issues for the recorded window `hwnd`. */
  function PlannedMove(infos: map<Handle, WinInfo>, workingArea: Rect -> Rect, hwnd: Handle): WindowMove
    requires hwnd in infos
  {
    WindowMove(hwnd, GetRectInsideNearestMonitor(workingArea(infos[hwnd].visible), infos[hwnd]), SWP_NOZORDER)
  }

  lemma AltTabWindowsSnoc(d: Desktop, order: seq<Handle>, i: nat, fuel: nat)
    requires i < |order|
    ensures AltTabWindows(d, order[..i + 1], fuel)
            == AltTabWindows(d, order[..i], fuel) + (if Classify(d, order[i], fuel) == AltTab then [order[i]] else [])
  {
    assert order[..i + 1] == order[..i] + [order[i]];
    assert AcceptMask(d, order[..i + 1], fuel) == AcceptMask(d, order[..i], fuel) + [Classify(d, order[i], fuel) == AltTab];
    SelectSnoc(order[..i], AcceptMask(d, order[..i], fuel), order[i], Classify(d, order[i], fuel) == AltTab);
  }

  /**
   * The alt-tab windows of an enumeration are exactly its accepted handles,
   * in enumeration order.
   */
  lemma AltTabWindowsAreAccepted(d: Desktop, order: seq<Handle>, fuel: nat)
    ensures IsSubsequence(AltTabWindows(d, order, fuel), order)
    ensures forall h :: h in AltTabWindows(d, order, fuel) <==> h in order && Classify(d, h, fuel) == AltTab
  {
    forall h ensures h in AltTabWindows(d, order, fuel) <==> h in order && Classify(d, h, fuel) == AltTab {
      SelectMembership(order, AcceptMask(d, order, fuel), h);
    }
  }

  /**
   * The restacked list keeps exactly the still-visible handles, in the same
   * order and without repeats, so it is never longer than before.
   */
  lemma KeepVisibleIsFilter(s: seq<Handle>, visible: set<Handle>)
    ensures IsSubsequence(KeepVisible(s, visible), s)
    ensures |KeepVisible(s, visible)| <= |s|
    ensures forall h :: h in KeepVisible(s, visible) <==> h in s && h in visible
    ensures NoDuplicates(s) ==> NoDuplicates(KeepVisible(s, visible))
  {
    var keep := seq(|s|, i requires 0 <= i < |s| => s[i] in visible);
    forall h ensures h in KeepVisible(s, visible) <==> h in s && h in visible {
      SelectMembership(s, keep, h);
    }
    if NoDuplicates(s) {
      SelectNoDuplicates(s, keep);
    }
  }

  /** The windows a list of moves is for, in order. */
  function MovedWindows(moves: seq<WindowMove>): (hs: seq<Handle>)
    ensures |hs| == |moves|
  {
    seq(|moves|, i requires 0 <= i < |moves| => moves[i].hwnd)
  }

  /**
   * One SetWindowPos per recorded window, in the dictionary's enumeration
   * order, each to its clamped target with SWP_NOZORDER. A failed move is not
   * looked at, so every window gets its move.
   */
  method PlanMoves(infos: map<Handle, WinInfo>, infoOrder: seq<Handle>, workingArea: Rect -> Rect)
    returns (moves: seq<WindowMove>)
    requires forall h :: h in infoOrder ==> h in infos
    ensures MovedWindows(moves) == infoOrder
    ensures forall i :: 0 <= i < |moves| ==> moves[i] == PlannedMove(infos, workingArea, infoOrder[i])
  {
    moves := [];
    for i := 0 to |infoOrder|
      invariant MovedWindows(moves) == infoOrder[..i]
      invariant forall k :: 0 <= k < i ==> moves[k] == PlannedMove(infos, workingArea, infoOrder[k])
    {
      moves := moves + [PlannedMove(infos, workingArea, infoOrder[i])];
    }
  }

  /**
   * The deferred-position batch: every handle, back to front, placed right
   * after the one before it (the first after the zero handle), without moving,
   * sizing or activating it.
   */
  method BuildZOrderBatch(windowsBackToTop: seq<Handle>) returns (batch: seq<DeferredPosition>)
    ensures |batch| == |windowsBackToTop|
    ensures forall i :: 0 <= i < |batch| ==> batch[i].hwnd == windowsBackToTop[i] && batch[i].flags == ZOrderFlags
    ensures |batch| > 0 ==> batch[0].insertAfter == Zero
    ensures forall i :: 0 < i < |batch| ==> batch[i].insertAfter == windowsBackToTop[i - 1]
  {
    batch := [];
    for i := 0 to |windowsBackToTop|
      invariant |batch| == i
      invariant forall k :: 0 <= k < i ==> batch[k].hwnd == windowsBackToTop[k] && batch[k].flags == ZOrderFlags
      invariant i > 0 ==> batch[0].insertAfter == Zero
      invariant forall k :: 0 < k < i ==> batch[k].insertAfter == windowsBackToTop[k - 1]
    {
      var after := if i == 0 then Zero else windowsBackToTop[i - 1];
      batch := batch + [DeferredPosition(windowsBackToTop[i], after, SWP_NOMOVE | SWP_NOSIZE | SWP_NOACTIVATE)];
    }
  }

  class Snapshot {
    /** The recorded geometry per window (_infos). */
    var infos: map<Handle, WinInfo>
    /**
     * The order in which enumerating _infos visits its keys: a Dictionary that
     * is only ever added to enumerates in insertion order.
     */
    var infoOrder: seq<Handle>
    /** The recorded windows, bottom of the stack first (_windowsBackToTop). */
    var windowsBackToTop: seq<Handle>
    /** Capture time in ticks (TimeTaken). */
    const timeTaken: int
    const userInitiated: bool
    /** Width times height of every screen at capture time (MonitorPixelCounts). */
    const monitorPixelCounts: seq<int>

    function NumMonitors(): nat
    {
      |monitorPixelCounts|
    }

    /**
     * Every key of the dictionary is enumerated once; every stacked window is
     * recorded, and none is stacked twice.
     */
    ghost predicate Valid()
      reads this
    {
      && NoDuplicates(infoOrder)
      && (forall h :: h in infos <==> h in infoOrder)
      && NoDuplicates(windowsBackToTop)
      && (forall h :: h in windowsBackToTop ==> h in infos)
    }

    /** The state before EnumWindows has called EvalWindow for anything. */
    constructor (userInitiated: bool, now: int, pixels: seq<int>)
      ensures Valid()
      ensures infos == map[] && infoOrder == [] && windowsBackToTop == []
      ensures timeTaken == now && this.userInitiated == userInitiated && monitorPixelCounts == pixels
    {
      infos := map[];
      infoOrder := [];
      windowsBackToTop := [];
      timeTaken := now;
      this.userInitiated := userInitiated;
      monitorPixelCounts := pixels;
    }

    /**
     * The EnumWindows callback: an alt-tab window is appended to the stack list
     * and then its geometry is added to the dictionary. Failing geometry and a
     * handle already in the dictionary stop the capture (after the append, as
     * in EvalWindow).
     */
    method EvalWindow(d: Desktop, hwnd: Handle, fuel: nat) returns (out: Outcome<CaptureError>)
      modifies this
      ensures Classify(d, hwnd, fuel) != AltTab
              ==> infos == old(infos) && infoOrder == old(infoOrder) && windowsBackToTop == old(windowsBackToTop)
      ensures Classify(d, hwnd, fuel) == NotAltTab ==> out == Pass
      ensures Classify(d, hwnd, fuel) == Unsettled ==> out == Fail(WalkUnbounded(hwnd))
      ensures Classify(d, hwnd, fuel) == AltTab ==> windowsBackToTop == old(windowsBackToTop) + [hwnd]
      ensures Classify(d, hwnd, fuel) == AltTab && GetWindowInfo(d, hwnd).Err?
              ==> out == Fail(GeometryUnavailable(hwnd)) && infos == old(infos) && infoOrder == old(infoOrder)
      ensures Classify(d, hwnd, fuel) == AltTab && GetWindowInfo(d, hwnd).Ok? && hwnd in old(infos)
              ==> out == Fail(DuplicateHandle(hwnd)) && infos == old(infos) && infoOrder == old(infoOrder)
      ensures Classify(d, hwnd, fuel) == AltTab && GetWindowInfo(d, hwnd).Ok? && hwnd !in old(infos)
              ==> && out == Pass
                  && infos == old(infos)[hwnd := GetWindowInfo(d, hwnd).value]
                  && infoOrder == old(infoOrder) + [hwnd]
    {
      var c := IsAltTabWindow(d, hwnd, fuel);
      if c == Unsettled {
        return Fail(WalkUnbounded(hwnd));
      }
      if c == NotAltTab {
        return Pass;
      }
      windowsBackToTop := windowsBackToTop + [hwnd];
      var win := GetWindowInfo(d, hwnd);
      if win.Err? {
        return Fail(win.error);
      }
      if hwnd in infos {
        return Fail(DuplicateHandle(hwnd));
      }
      infos := infos[hwnd := win.value];
      infoOrder := infoOrder + [hwnd];
      return Pass;
    }

    /**
     * Snapshot.TakeSnapshot: enumerate the windows back to front, keep the
     * alt-tab ones with their geometry, and record the time and the screens.
     */
    static method TakeSnapshot(d: Desktop, order: seq<Handle>, screens: seq<Rect>, now: int,
                               userInitiated: bool, fuel: nat)
      returns (r: Result<Snapshot, CaptureError>)
      ensures r.Ok? ==> fresh(r.value) && r.value.Valid()
      // returning at all means every classifier walk came to an end
      ensures r.Ok? ==> forall h :: h in order ==> Classify(d, h, fuel) != Unsettled
      ensures r.Ok? ==> r.value.windowsBackToTop == AltTabWindows(d, order, fuel)
      ensures r.Ok? ==> r.value.infoOrder == r.value.windowsBackToTop
      ensures r.Ok? ==> forall h :: h in r.value.infos ==> GetWindowInfo(d, h) == Ok(r.value.infos[h])
      ensures r.Ok? ==> r.value.timeTaken == now && r.value.userInitiated == userInitiated
      ensures r.Ok? ==> r.value.monitorPixelCounts == PixelCounts(screens)
      ensures r.Err? && r.error.WalkUnbounded?
              ==> r.error.hwnd in order && Classify(d, r.error.hwnd, fuel) == Unsettled
      ensures r.Err? && r.error.GeometryUnavailable?
              ==> r.error.hwnd in order && Classify(d, r.error.hwnd, fuel) == AltTab && r.error.hwnd !in d.windowRect
      ensures r.Err? && r.error.DuplicateHandle?
              ==> && Classify(d, r.error.hwnd, fuel) == AltTab
                  && exists j, k :: 0 <= j < k < |order| && order[j] == r.error.hwnd && order[k] == r.error.hwnd
    {
      var s := new Snapshot(userInitiated, now, PixelCounts(screens));
      for i := 0 to |order|
        invariant s.Valid()
        invariant s.windowsBackToTop == AltTabWindows(d, order[..i], fuel)
        invariant s.infoOrder == s.windowsBackToTop
        invariant forall h :: h in s.infos ==> GetWindowInfo(d, h) == Ok(s.infos[h])
        invariant forall k :: 0 <= k < i ==> Classify(d, order[k], fuel) != Unsettled
      {
        AltTabWindowsSnoc(d, order, i, fuel);
        AltTabWindowsAreAccepted(d, order[..i], fuel);
        var hwnd := order[i];
        var out := s.EvalWindow(d, hwnd, fuel);
        if out.Fail? {
          if out.error.DuplicateHandle? {
            assert hwnd in order[..i];
            var j :| 0 <= j < i && order[..i][j] == hwnd;
            assert order[j] == hwnd && order[i] == hwnd;
          }
          return Err(out.error);
        }
      }
      assert order[..|order|] == order;
      return Ok(s);
    }

    /**
     * Restore: move every recorded window to its clamped target, then drop the
     * windows no longer visible from the stack list and re-stack the rest in
     * one deferred-position batch.
     */
    method Restore(d: Desktop, workingArea: Rect -> Rect)
      returns (moves: seq<WindowMove>, batch: seq<DeferredPosition>)
      requires Valid()
      modifies this
      ensures Valid()
      ensures infos == old(infos) && infoOrder == old(infoOrder)
      ensures windowsBackToTop == KeepVisible(old(windowsBackToTop), d.visible)
      // every recorded window, visible or not, gets exactly one move
      ensures MovedWindows(moves) == infoOrder
      ensures forall i :: 0 <= i < |moves| ==> moves[i] == PlannedMove(infos, workingArea, infoOrder[i])
      // the batch re-stacks the surviving windows back to front
      ensures |batch| == |windowsBackToTop|
      ensures forall i :: 0 <= i < |batch| ==> batch[i].hwnd == windowsBackToTop[i] && batch[i].flags == ZOrderFlags
      ensures |batch| > 0 ==> batch[0].insertAfter == Zero
      ensures forall i :: 0 < i < |batch| ==> batch[i].insertAfter == windowsBackToTop[i - 1]
    {
      moves := PlanMoves(infos, infoOrder, workingArea);
      KeepVisibleIsFilter(windowsBackToTop, d.visible);
      windowsBackToTop := KeepVisible(windowsBackToTop, d.visible);
      batch := BuildZOrderBatch(windowsBackToTop);
    }
  }
}
