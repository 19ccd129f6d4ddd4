/**
 * The window system as the snapshot code sees it, and the alt-tab
 * classification of a top-level window (Snapshot.IsAltTabWindow).
 *
 * The operating system is an oracle: a `Desktop` value holds what each query
 * would answer for each handle at one instant.
 */
module Windows {
  import opened Results
  import opened Seqs
  import opened Geometry

  /** A window handle (IntPtr); 0 is IntPtr.Zero. */
  type Handle = int

  const Zero: Handle := 0

  const WS_EX_TOOLWINDOW: bv64 := 0x80
  const WS_EX_APPWINDOW: bv64 := 0x4_0000

  /**
   * Answers of the window-system queries:
   * - IsWindowVisible(h): h in visible;
   * - GetWindowLongPtr(h, GWL_EXSTYLE): exStyle[h], 0 for a handle it does not know;
   * - GetAncestor(h, GA_ROOTOWNER): rootOwner[h], the zero handle for a handle it does not know;
   * - GetLastActivePopup(h): lastActivePopup[h], h itself when h has no popup;
   * - GetWindowRect(h): windowRect[h], failing for a handle not in the map;
   * - DwmGetWindowAttribute(h, DWMWA_EXTENDED_FRAME_BOUNDS): extendedFrame[h],
   *   failing (non-zero HRESULT) for a handle not in the map;
   * - Environment.OSVersion.Version.Major: osMajorVersion.
   */
  datatype Desktop = Desktop(
    visible: set<Handle>,
    exStyle: map<Handle, bv64>,
    rootOwner: map<Handle, Handle>,
    lastActivePopup: map<Handle, Handle>,
    windowRect: map<Handle, WinRect>,
    extendedFrame: map<Handle, WinRect>,
    osMajorVersion: int)
  {
    predicate IsVisible(h: Handle) { h in visible }

    function ExStyle(h: Handle): bv64 { if h in exStyle then exStyle[h] else 0 }

    function RootOwner(h: Handle): Handle { if h in rootOwner then rootOwner[h] else Zero }

    function LastActivePopup(h: Handle): Handle { if h in lastActivePopup then lastActivePopup[h] else h }
  }

  /**
   * The verdict of the classifier. `Unsettled` stands for a popup walk that
   * had not settled after the allowed number of steps; IsAltTabWindow would keep
   * looping there.
   */
  datatype Classification = AltTab | NotAltTab | Unsettled

  /**
   * Where the `while (hwndTry != hwndWalk)` loop of IsAltTabWindow leaves
   * `hwndWalk`, started in state (walk, try) and allowed `fuel` more rounds;
   * None when the rounds run out first.
   */
  function WalkEnd(d: Desktop, walk: Handle, try: Handle, fuel: nat): (r: Option<Handle>)
    decreases fuel
  {
    if try == walk then Some(walk)
    else if fuel == 0 then None
    else
      var next := d.LastActivePopup(try);
      if d.IsVisible(next) then Some(try) else WalkEnd(d, try, next, fuel - 1)
  }

  /** The classification IsAltTabWindow computes, with at most `fuel` rounds of its walk. */
  function Classify(d: Desktop, hwnd: Handle, fuel: nat): (c: Classification)
  {
    if !d.IsVisible(hwnd) then NotAltTab
    else if d.ExStyle(hwnd) & WS_EX_APPWINDOW != 0 then AltTab
    else if d.ExStyle(hwnd) & WS_EX_TOOLWINDOW != 0 then NotAltTab
    else
      match WalkEnd(d, Zero, d.RootOwner(hwnd), fuel)
      case None => Unsettled
      case Some(w) => if w == hwnd then AltTab else NotAltTab
  }

  /**
   * Decides whether `hwnd` is a window the task switcher would show: visible,
   * not a tool window unless marked as an app window, and the window its
   * owner chain's last-active-popup walk settles on.
   */
  method IsAltTabWindow(d: Desktop, hwnd: Handle, fuel: nat) returns (c: Classification)
    ensures c == Classify(d, hwnd, fuel)
  {
    if !d.IsVisible(hwnd) {
      return NotAltTab;
    }
    var extendedStyles := d.ExStyle(hwnd);
    if extendedStyles & WS_EX_APPWINDOW != 0 {
      return AltTab;
    }
    if extendedStyles & WS_EX_TOOLWINDOW != 0 {
      return NotAltTab;
    }
    var hwndTry := d.RootOwner(hwnd);
    var hwndWalk := Zero;
    var rounds := 0;
    while hwndTry != hwndWalk
      invariant rounds <= fuel
      invariant WalkEnd(d, hwndWalk, hwndTry, fuel - rounds) == WalkEnd(d, Zero, d.RootOwner(hwnd), fuel)
      decreases fuel - rounds
    {
      if rounds == fuel {
        return Unsettled;
      }
      hwndWalk := hwndTry;
      hwndTry := d.LastActivePopup(hwndWalk);
      rounds := rounds + 1;
      if d.IsVisible(hwndTry) {
        break;
      }
    }
    return if hwndWalk == hwnd then AltTab else NotAltTab;
  }

  /** The three style tests decide before any walk. */
  lemma ClassifierFlags(d: Desktop, hwnd: Handle, fuel: nat)
    ensures !d.IsVisible(hwnd) ==> Classify(d, hwnd, fuel) == NotAltTab
    ensures d.IsVisible(hwnd) && d.ExStyle(hwnd) & WS_EX_APPWINDOW != 0 ==> Classify(d, hwnd, fuel) == AltTab
    ensures d.IsVisible(hwnd) && d.ExStyle(hwnd) & WS_EX_APPWINDOW == 0 && d.ExStyle(hwnd) & WS_EX_TOOLWINDOW != 0
            ==> Classify(d, hwnd, fuel) == NotAltTab
  {
  }

  /** With no root owner the walk never starts, and only the zero handle would be accepted. */
  lemma NoRootOwner(d: Desktop, hwnd: Handle, fuel: nat)
    requires d.IsVisible(hwnd) && d.ExStyle(hwnd) & (WS_EX_APPWINDOW | WS_EX_TOOLWINDOW) == 0
    requires d.RootOwner(hwnd) == Zero
    ensures Classify(d, hwnd, fuel) == (if hwnd == Zero then AltTab else NotAltTab)
  {
    assert d.ExStyle(hwnd) & WS_EX_APPWINDOW == 0 && d.ExStyle(hwnd) & WS_EX_TOOLWINDOW == 0;
  }

  /**
   * A walk that leaves its start stops on a window that is its own last
   * active popup, or whose last active popup is visible.
   */
  lemma {:induction false} WalkStopsAtRepresentative(d: Desktop, walk: Handle, try: Handle, fuel: nat)
    requires try != walk && WalkEnd(d, walk, try, fuel).Some?
    ensures var w := WalkEnd(d, walk, try, fuel).value;
      d.LastActivePopup(w) == w || d.IsVisible(d.LastActivePopup(w))
    decreases fuel
  {
    var next := d.LastActivePopup(try);
    if !d.IsVisible(next) && next != try {
      WalkStopsAtRepresentative(d, try, next, fuel - 1);
    }
  }

  /** Allowing more rounds never changes a walk that settled. */
  lemma {:induction false} WalkFuelMonotone(d: Desktop, walk: Handle, try: Handle, fuel: nat, more: nat)
    requires fuel <= more && WalkEnd(d, walk, try, fuel).Some?
    ensures WalkEnd(d, walk, try, more) == WalkEnd(d, walk, try, fuel)
    decreases fuel
  {
    if try != walk {
      var next := d.LastActivePopup(try);
      if !d.IsVisible(next) {
        WalkFuelMonotone(d, try, next, fuel - 1, more - 1);
      }
    }
  }

  /** So a classification other than Unsettled is the answer for every larger bound. */
  lemma ClassifyFuelMonotone(d: Desktop, hwnd: Handle, fuel: nat, more: nat)
    requires fuel <= more && Classify(d, hwnd, fuel) != Unsettled
    ensures Classify(d, hwnd, more) == Classify(d, hwnd, fuel)
  {
    if d.IsVisible(hwnd) && d.ExStyle(hwnd) & WS_EX_APPWINDOW == 0 && d.ExStyle(hwnd) & WS_EX_TOOLWINDOW == 0 {
      WalkFuelMonotone(d, Zero, d.RootOwner(hwnd), fuel, more);
    }
  }

  // ------------------------------------------------------------ how many rounds are enough

  /** After this round the loop runs another: the loop test holds and the popup is hidden. */
  predicate Continues(d: Desktop, walk: Handle, try: Handle)
  {
    try != walk && !d.IsVisible(d.LastActivePopup(try))
  }

  /** The loop state (hwndWalk, hwndTry) after `k` rounds from (walk, try), had the loop not stopped. */
  function StateAfter(d: Desktop, walk: Handle, try: Handle, k: nat): (Handle, Handle)
    decreases k
  {
    if k == 0 then (walk, try) else StateAfter(d, try, d.LastActivePopup(try), k - 1)
  }

  /** The walk from (walk, try) has not stopped within its first `k` rounds. */
  predicate RunsFor(d: Desktop, walk: Handle, try: Handle, k: nat)
    decreases k
  {
    k == 0 || (Continues(d, walk, try) && RunsFor(d, try, d.LastActivePopup(try), k - 1))
  }

  /**
   * Enough rounds for every walk on `d` to settle, if it ever does: each round
   * past the first starts from a handle that has a recorded popup.
   */
  function AdequateFuel(d: Desktop): nat
  {
    |d.lastActivePopup.Keys| + 2
  }

  lemma {:induction false} UnsettledRuns(d: Desktop, walk: Handle, try: Handle, fuel: nat)
    requires WalkEnd(d, walk, try, fuel).None?
    ensures RunsFor(d, walk, try, fuel)
    decreases fuel
  {
    if fuel > 0 {
      UnsettledRuns(d, try, d.LastActivePopup(try), fuel - 1);
    }
  }

  lemma {:induction false} RunsForPrefix(d: Desktop, walk: Handle, try: Handle, k: nat, k': nat)
    requires RunsFor(d, walk, try, k) && k' <= k
    ensures RunsFor(d, walk, try, k')
    decreases k'
  {
    if k' > 0 {
      RunsForPrefix(d, try, d.LastActivePopup(try), k - 1, k' - 1);
    }
  }

  lemma {:induction false} RunsForSuffix(d: Desktop, walk: Handle, try: Handle, k: nat, i: nat, p: nat)
    requires RunsFor(d, walk, try, k) && i + p <= k
    ensures var s := StateAfter(d, walk, try, i); RunsFor(d, s.0, s.1, p)
    decreases i
  {
    if i == 0 {
      RunsForPrefix(d, walk, try, k, p);
    } else {
      RunsForSuffix(d, try, d.LastActivePopup(try), k - 1, i - 1, p);
    }
  }

  lemma {:induction false} RunsForContinues(d: Desktop, walk: Handle, try: Handle, k: nat, j: nat)
    requires RunsFor(d, walk, try, k) && j < k
    ensures var s := StateAfter(d, walk, try, j); Continues(d, s.0, s.1)
    decreases j
  {
    if j > 0 {
      RunsForContinues(d, try, d.LastActivePopup(try), k - 1, j - 1);
    }
  }

  /** After at least one round, hwndTry is the last active popup of hwndWalk. */
  lemma {:induction false} StateAfterShape(d: Desktop, walk: Handle, try: Handle, k: nat)
    requires k >= 1
    ensures var s := StateAfter(d, walk, try, k); s.1 == d.LastActivePopup(s.0)
    decreases k
  {
    if k > 1 {
      StateAfterShape(d, try, d.LastActivePopup(try), k - 1);
    }
  }

  lemma {:induction false} StateAfterAdd(d: Desktop, walk: Handle, try: Handle, i: nat, p: nat)
    ensures var s := StateAfter(d, walk, try, i); StateAfter(d, s.0, s.1, p) == StateAfter(d, walk, try, i + p)
    decreases i
  {
    if i > 0 {
      StateAfterAdd(d, try, d.LastActivePopup(try), i - 1, p);
    }
  }

  /** Rounds that do not stop the walk just use up fuel. */
  lemma {:induction false} RunsForSkip(d: Desktop, walk: Handle, try: Handle, k: nat, fuel: nat)
    requires RunsFor(d, walk, try, k) && k <= fuel
    ensures var s := StateAfter(d, walk, try, k); WalkEnd(d, walk, try, fuel) == WalkEnd(d, s.0, s.1, fuel - k)
    decreases k
  {
    if k > 0 {
      RunsForSkip(d, try, d.LastActivePopup(try), k - 1, fuel - 1);
    }
  }

  lemma {:induction false} RunsForOutOfFuel(d: Desktop, walk: Handle, try: Handle, k: nat, fuel: nat)
    requires RunsFor(d, walk, try, k) && fuel < k
    ensures WalkEnd(d, walk, try, fuel).None?
    decreases fuel
  {
    if fuel > 0 {
      RunsForOutOfFuel(d, try, d.LastActivePopup(try), k - 1, fuel - 1);
    }
  }

  /** A walk that comes back to its own state without stopping never stops. */
  lemma {:induction false} CycleNeverSettles(d: Desktop, walk: Handle, try: Handle, p: nat, fuel: nat)
    requires p >= 1 && RunsFor(d, walk, try, p) && StateAfter(d, walk, try, p) == (walk, try)
    ensures WalkEnd(d, walk, try, fuel).None?
    decreases fuel
  {
    if fuel < p {
      RunsForOutOfFuel(d, walk, try, p, fuel);
    } else {
      RunsForSkip(d, walk, try, p, fuel);
      CycleNeverSettles(d, walk, try, p, fuel - p);
    }
  }

  /**
   * A walk still unsettled after AdequateFuel(d) rounds settles under no bound
   * at all: it has come back to a state it was in, so the loop of
   * IsAltTabWindow never ends.
   */
  lemma WalkUnsettledForever(d: Desktop, walk: Handle, try: Handle, fuel: nat, other: nat)
    requires fuel >= AdequateFuel(d) && WalkEnd(d, walk, try, fuel).None?
    ensures WalkEnd(d, walk, try, other).None?
  {
    var keys := d.lastActivePopup.Keys;
    var n := |keys|;
    UnsettledRuns(d, walk, try, fuel);
    // the hwndWalk of rounds 1 .. n + 1, each a handle with a recorded popup
    var walks := seq(n + 1, k requires 0 <= k <= n => StateAfter(d, walk, try, k + 1).0);
    forall k | 0 <= k < |walks| ensures walks[k] in keys {
      RunsForContinues(d, walk, try, fuel, k + 1);
      StateAfterShape(d, walk, try, k + 1);
    }
    Pigeonhole(walks, keys);
    var a, b :| 0 <= a < b < |walks| && walks[a] == walks[b];
    var i, p := a + 1, b - a;
    StateAfterShape(d, walk, try, i);
    StateAfterShape(d, walk, try, i + p);
    var s := StateAfter(d, walk, try, i);
    assert s == StateAfter(d, walk, try, i + p);
    StateAfterAdd(d, walk, try, i, p);
    RunsForSuffix(d, walk, try, fuel, i, p);
    if other < i {
      RunsForPrefix(d, walk, try, fuel, i);
      RunsForOutOfFuel(d, walk, try, i, other);
    } else {
      RunsForPrefix(d, walk, try, fuel, i);
      RunsForSkip(d, walk, try, i, other);
      CycleNeverSettles(d, s.0, s.1, p, other - i);
    }
  }

  /**
   * With AdequateFuel(d) rounds the classification is final: any larger bound
   * gives the same verdict, and `Unsettled` means the walk settles under no
   * bound, i.e. IsAltTabWindow does not return.
   */
  lemma ClassifyFuelAdequate(d: Desktop, hwnd: Handle, fuel: nat, other: nat)
    requires fuel >= AdequateFuel(d)
    ensures fuel <= other ==> Classify(d, hwnd, other) == Classify(d, hwnd, fuel)
    ensures Classify(d, hwnd, fuel) == Unsettled ==> Classify(d, hwnd, other) == Unsettled
  {
    if Classify(d, hwnd, fuel) == Unsettled {
      WalkUnsettledForever(d, Zero, d.RootOwner(hwnd), fuel, other);
    } else if fuel <= other {
      ClassifyFuelMonotone(d, hwnd, fuel, other);
    }
  }

  /** An unowned top-level window without popups is its own representative. */
  lemma PlainTopLevelWindow(d: Desktop, hwnd: Handle, fuel: nat)
    requires fuel >= 1 && hwnd != Zero && d.IsVisible(hwnd)
    requires d.ExStyle(hwnd) & (WS_EX_APPWINDOW | WS_EX_TOOLWINDOW) == 0
    requires d.RootOwner(hwnd) == hwnd && d.LastActivePopup(hwnd) == hwnd
    ensures Classify(d, hwnd, fuel) == AltTab
  {
    assert d.ExStyle(hwnd) & WS_EX_APPWINDOW == 0 && d.ExStyle(hwnd) & WS_EX_TOOLWINDOW == 0;
    assert WalkEnd(d, hwnd, hwnd, fuel - 1) == Some(hwnd);
  }

  /**
   * A main window 1 showing its dialog 2 (both visible, 1 owns 2): the walk from
   * the root owner stops at 1 because its popup is visible, so the main window
   * is accepted and the dialog is not.
   */
  lemma OwnedDialogExample()
    ensures var d := Desktop({1, 2}, map[], map[1 := 1, 2 := 1], map[1 := 2, 2 := 2], map[], map[], 10);
      Classify(d, 1, 1) == AltTab && Classify(d, 2, 1) == NotAltTab
  {
  }
}
