# WindowsLayoutSnapshot, modelled in Dafny

WindowsLayoutSnapshot is a tray utility for Windows. Every so often, and when
the user asks, it records where each task-switcher ("alt-tab") window is and how
the windows are stacked. Later it can put the windows back: each window is moved
into the work area of its nearest monitor, and the survivors are restacked in a
single deferred-position batch. The tray menu lists a condensed history of these
snapshots: old ones are dropped, and so are snapshots whose neighbours are close
together in time.

This project models that core as Dafny code and proves its properties.

- `results.dfy` (`Results`) holds the Option, Result and Outcome wrappers.
- `seqs.dfy` (`Seqs`) covers order-preserving selection with a keep-mask, subsequences, `RemoveAt` and no-duplicates.
- `geometry.dfy` (`Geometry`) holds rectangles and the clamp that `GetRectInsideNearestMonitor` performs.
- `windows.dfy` (`Windows`) models the window system as a `Desktop` value. It is an oracle answering each query for each handle. The module also holds the alt-tab classifier `IsAltTabWindow`: flag tests, then a walk along the last-active-popup chain from the root owner.
- `snapshot.dfy` (`Snapshots`) has `class Snapshot`. It holds the geometry dictionary, its enumeration order and the back-to-front window list. The methods are the capture (`TakeSnapshot` driving `EvalWindow` over the enumeration) and `Restore`, which produces the geometry moves and the z-order batch.
- `condense.dfy` (`Condensation`) is `CondenseSnapshots`.
  - Phase 1 is a one-pass age purge, including the way `RemoveAt(i)` followed by `i++` steps over the next element.
  - Phase 2 repeatedly removes the inner snapshot with the smallest bonus-adjusted neighbour spread.
  - The method is proved equal to the specification function `Condensed`, and the lemmas state what `Condensed` guarantees.
- `tray.dfy` (`Tray`) has `class TrayIconForm`. Its snapshot history only grows by one per capture or is cleared. The restore menu is rebuilt from a condensed copy. The module also holds the monitor-icon fold (`maxNumMonitors`, `maxNumMonitorPixels`, `showMonitorIcons`).

Time is measured in DateTime ticks of 100 ns. The current time is a parameter
named `now`. Window handles are integers, and 0 is `IntPtr.Zero`.

## Model

| member | source | states |
|---|---|---|
| Geometry.ToRectangle | WindowsLayoutSnapshot/Snapshot.cs:182 | A Win32 RECT becomes a Rectangle with the same four edges. |
| Geometry.ClampIntoWorkArea | WindowsLayoutSnapshot/Snapshot.cs:132-137 | Size is the smaller of the work area's and the window's. The origin is never left of or above the work area. A rectangle that fits ends inside the work area. An oversize one is pinned to the left/top edge. The rectangle moves only as far as needed. A rectangle already inside is unchanged. |
| Geometry.GetRectInsideNearestMonitor | WindowsLayoutSnapshot/Snapshot.cs:127-150 | The result differs from the clamped visible frame by exactly nominal minus visible, in left, top, width and height. Equal frames give the clamped frame itself. |
| Geometry.ClampIdempotent | WindowsLayoutSnapshot/Snapshot.cs:132-137 | Clamping a clamped rectangle changes nothing. |
| Geometry.ClampFitsInside | WindowsLayoutSnapshot/Snapshot.cs:132-137 | A rectangle no larger than the work area ends up inside it. |
| Geometry.VisibleFrameLandsOnMonitor | WindowsLayoutSnapshot/Snapshot.cs:127-150 | After the move, the window's visible frame lies inside the work area whenever it fits there. |
| Geometry.OnScreenWindowStays | WindowsLayoutSnapshot/Snapshot.cs:132-144 | A window whose frames agree and that is already inside its work area gets its own rectangle back. |
| Geometry.PartlyOffScreenExample | WindowsLayoutSnapshot/Snapshot.cs:132-137 | A 300x200 window at (1800,1000) on a 1920x1080 work area is moved to (1620,880). |
| Windows.IsAltTabWindow | WindowsLayoutSnapshot/Snapshot.cs:152-174 | The loop's verdict equals `Classify`: the flag tests, then the popup walk from the root owner. The walk stops when the popup is the current window or is visible, leaving the window before that popup. A walk that does not settle within the bound is `Unsettled`. |
| Windows.ClassifierFlags | WindowsLayoutSnapshot/Snapshot.cs:154-161 | Invisible windows are rejected. A visible window with WS_EX_APPWINDOW (0x40000) is accepted. A visible window with WS_EX_TOOLWINDOW (0x80) and without APPWINDOW is rejected. None of these depends on the owner chain. |
| Windows.NoRootOwner | WindowsLayoutSnapshot/Snapshot.cs:163-173 | When the root owner is the zero handle the loop does not run, and the verdict is `hwnd == 0`. |
| Windows.WalkStopsAtRepresentative | WindowsLayoutSnapshot/Snapshot.cs:165-171 | A walk that moves ends on a window that is its own last active popup, or whose last active popup is visible. |
| Windows.WalkFuelMonotone | WindowsLayoutSnapshot/Snapshot.cs:165-171 | Once a walk has settled, a larger step bound does not change where it ends. |
| Windows.ClassifyFuelMonotone | WindowsLayoutSnapshot/Snapshot.cs:152-174 | A settled verdict is the verdict for every larger step bound. |
| Windows.WalkUnsettledForever | WindowsLayoutSnapshot/Snapshot.cs:165-171 | A walk still going after AdequateFuel(d) rounds settles under no bound at all. By pigeonhole it has revisited a state, so the loop never ends. |
| Windows.ClassifyFuelAdequate | WindowsLayoutSnapshot/Snapshot.cs:152-174 | From AdequateFuel(d) rounds on, the verdict is the same for every larger bound. `Unsettled` there means `Unsettled` for every bound, that is, IsAltTabWindow does not return. |
| Windows.PlainTopLevelWindow | WindowsLayoutSnapshot/Snapshot.cs:163-173 | A visible, unowned window without popups, and with neither style flag, is accepted. |
| Windows.OwnedDialogExample | WindowsLayoutSnapshot/Snapshot.cs:152-174 | A main window that shows a visible owned dialog is accepted, and the dialog is rejected. |
| Snapshots.GetWindowInfo | WindowsLayoutSnapshot/Snapshot.cs:176-188 | It fails with GeometryUnavailable exactly when GetWindowRect fails. Otherwise the nominal frame is the window rect. The visible frame differs from it only on OS version 6 or later when the DWM query succeeds, and is then that query's frame. |
| Snapshots.AltTabWindowsAreAccepted | WindowsLayoutSnapshot/Snapshot.cs:49-53 | The recorded stack list is the subsequence of the enumeration made of exactly the accepted handles. |
| Snapshots.KeepVisibleIsFilter | WindowsLayoutSnapshot/Snapshot.cs:116 | FindAll(IsWindowVisible) keeps exactly the visible handles, in order. It adds no duplicates and never lengthens the list, so a second restore has no more entries than the first. |
| Snapshots.PlanMoves | WindowsLayoutSnapshot/Snapshot.cs:102-113 | There is one SetWindowPos per recorded window, in dictionary order. Each goes to the clamped target with SWP_NOZORDER (0x0004). A failed move does not stop the loop. |
| Snapshots.BuildZOrderBatch | WindowsLayoutSnapshot/Snapshot.cs:117-124 | The batch has one entry per handle. Entry 0 goes after the zero handle and entry i after handle i-1. Every entry carries NOMOVE, NOSIZE and NOACTIVATE. |
| Snapshots.Snapshot.constructor | WindowsLayoutSnapshot/Snapshot.cs:16-31 | An empty dictionary and stack list, with the capture time, the initiator and the pixel counts recorded. |
| Snapshots.Snapshot.EvalWindow | WindowsLayoutSnapshot/Snapshot.cs:45-67 | A rejected window changes nothing. An accepted one is appended to the stack list first. Then failing geometry or a handle already in the dictionary stops the capture. Otherwise its WinInfo is added to the dictionary and to the dictionary order. |
| Snapshots.Snapshot.TakeSnapshot | WindowsLayoutSnapshot/Snapshot.cs:16-43 | On success the object is fresh and valid, and every enumerated handle's walk settled. Its stack list is the accepted handles in enumeration order. The dictionary keys are exactly those handles, each once, with their GetWindowInfo. Time, initiator and per-screen width x height are recorded. A failure names a handle that caused it: unsettled, accepted without geometry, or enumerated twice. |
| Snapshots.Snapshot.Restore | WindowsLayoutSnapshot/Snapshot.cs:98-125 | The dictionary is untouched. Every recorded window gets its move, in dictionary order. The stack list is replaced by its visible-only subsequence. The batch restacks exactly that list, and the snapshot stays valid. |
| Condensation.PurgeKeepAt | WindowsLayoutSnapshot/TrayIconForm.cs:182-189 | An element survives the age purge unless it is expired and is either the first element or comes right after a survivor. |
| Condensation.PurgeDropsOnlyExpired | WindowsLayoutSnapshot/TrayIconForm.cs:179-189 | The purge keeps order and removes only snapshots older than 5 days (manual) or 3 days (automatic). It keeps every unexpired one and never removes two neighbours. |
| Condensation.AgePurge | WindowsLayoutSnapshot/TrayIconForm.cs:184-186 | The `RemoveAt(i)`-then-`i++` loop computes `Purge`. |
| Condensation.VictimIsFirstMinimum | WindowsLayoutSnapshot/TrayIconForm.cs:194-211 | The chosen inner index has the smallest adjusted spread. The adjusted spread is the neighbour distance, plus 1,000,000 days if manual, plus 2,000,000 days if taken within 2 hours of now. Ties go to the lowest index. |
| Condensation.MostAdjacentNeighbors | WindowsLayoutSnapshot/TrayIconForm.cs:194-211 | The running-minimum loop, started at TimeSpan.MaxValue and index -1, returns that first-minimum inner index. |
| Condensation.AdjustedSpreadBound | WindowsLayoutSnapshot/TrayIconForm.cs:195-206 | For DateTime-range times every adjusted spread is below TimeSpan.MaxValue, so the first candidate always replaces -1. |
| Condensation.ManualSnapshotsGoLast | WindowsLayoutSnapshot/TrayIconForm.cs:200-201 | With neighbour spreads under a million days, a manual, non-recent snapshot is removed only when every candidate is manual or recent. |
| Condensation.RecentSnapshotsGoLast | WindowsLayoutSnapshot/TrayIconForm.cs:202-204 | Under the same bound, a snapshot from the last two hours is removed only when every candidate is that recent. |
| Condensation.PruneShape | WindowsLayoutSnapshot/TrayIconForm.cs:192-214 | Phase 2 stops at exactly max entries when it runs at all. It keeps order, and it never removes the first or last entry. |
| Condensation.CondensedShape | WindowsLayoutSnapshot/TrayIconForm.cs:180-216 | The result is an order-preserving subsequence of the input with at most max entries. It is the input itself when that was short enough. It has exactly max entries when the purge left more. |
| Condensation.CondenseSnapshots | WindowsLayoutSnapshot/TrayIconForm.cs:163-217 | It fails exactly when max < 2. Otherwise it returns `Condensed` of the input, which is a value and is left unchanged. |
| Condensation.CondenseExample | WindowsLayoutSnapshot/TrayIconForm.cs:180-214 | Automatic snapshots at minutes 0, 10, 11, 30 and 60, condensed to 3 a day later, keep minutes 0, 30 and 60. |
| Tray.MonitorIconLayout | WindowsLayoutSnapshot/TrayIconForm.cs:81-91 | The fold over the menu's snapshots, reading NumMonitors and MonitorPixelCounts. Its three results equal `MaxNumMonitors`, `MaxMonitorPixels` and `ShowMonitorIcons` of the snapshots' pixel-count lists. |
| Tray.MaxNumMonitorsIsMaximum | WindowsLayoutSnapshot/TrayIconForm.cs:81-88 | maxNumMonitors is at least every snapshot's monitor count and equals one of them. It is 0 for an empty menu. |
| Tray.MaxMonitorPixelsIsMaximum | WindowsLayoutSnapshot/TrayIconForm.cs:82-90 | maxNumMonitorPixels is at least 0 and at least every monitor's pixel count. It is either 0 or one of those counts. |
| Tray.ShowIconsIffMixedMonitorCounts | WindowsLayoutSnapshot/TrayIconForm.cs:83-88 | When every snapshot has a monitor, the icons are shown exactly when the snapshots do not all have the same number of monitors. |
| Tray.TrayIconForm.constructor | WindowsLayoutSnapshot/TrayIconForm.cs:15 | An empty history and an empty menu. |
| Tray.TrayIconForm.UpdateRestoreChoicesInMenu | WindowsLayoutSnapshot/TrayIconForm.cs:70-91 | The history is unchanged. The menu choices are the history condensed to 20 at `now`, and the icon data is the fold over those choices. |
| Tray.TrayIconForm.TakeSnapshot | WindowsLayoutSnapshot/TrayIconForm.cs:48-52 | A capture appends exactly one fresh snapshot at the end of the history, and the rest is unchanged. The snapshot is valid, holds the given time and initiator, and holds the screens' pixel counts. Every walk settled within AdequateFuel(d) rounds. It holds the alt-tab windows with their geometry. The menu is then rebuilt from the new history. A capture fails only for a handle of the enumeration that causes it, and then changes nothing. That handle is one of: a handle whose walk settles under no bound (`WalkUnbounded`); an accepted handle without a window rect (`GeometryUnavailable`); or an accepted handle enumerated twice (`DuplicateHandle`). On any other desktop the capture succeeds. |
| Tray.TrayIconForm.ClearSnapshots | WindowsLayoutSnapshot/TrayIconForm.cs:54-58 | The history becomes empty and the menu has no choices and no icons. |

## Left out

- The operating system is not modelled.
  - `EnumWindows` becomes the `order` parameter. `Screen.AllScreens` becomes `screens` and `Screen.GetWorkingArea` becomes `workingArea`.
  - IsWindowVisible, GetWindowLongPtr, GetAncestor, GetLastActivePopup, GetWindowRect, DwmGetWindowAttribute and the OS version are read from one `Desktop` value. That value is fixed for the whole capture or restore, so windows that change during a capture are not modelled.
  - SetWindowPos and Begin/Defer/EndDeferWindowPos become produced values (`WindowMove`, `DeferredPosition`). Their success, failure and the EndDeferWindowPos result are not modelled. Restore ignores them anyway.
- Windows.IsAltTabWindow: the walk is bounded by `fuel`, and the method returns `Unsettled` when the rounds run out. `IsAltTabWindow` in C# has no such bound.
  - With a bound too small, a window that C# would classify comes out `Unsettled` (a plain window with a bound of 0, say), and a capture given that bound stops with `WalkUnbounded`.
  - From `AdequateFuel(d)` rounds on (the number of handles with a recorded popup, plus two), the verdict is final. There `Unsettled` means the popup chain cycles through hidden windows and the C# loop never ends (`Windows.ClassifyFuelAdequate`).
  - `Tray.TrayIconForm.TakeSnapshot` always uses that bound. A non-terminating classification, which in C# hangs the program, is modelled as a failed capture.
- Snapshots.Snapshot.TakeSnapshot: a window whose geometry query fails, or a handle enumerated twice, stops the whole capture; such a window is not skipped. The exception escapes the Snapshot constructor, and a failed capture leaves the tray's history as it was.
- Snapshot.cs:102 enumerates `_infos` as a Dictionary. A Dictionary that is only added to enumerates in insertion order, and the model records that order in `infoOrder`.
- Every `DateTime.UtcNow` read is one `now` per operation. Snapshot times and `now` are assumed to lie in the DateTime range (`ValidTicks`). The tray's `TakeSnapshot` and `UpdateRestoreChoicesInMenu` therefore require `ValidTicks(now)`.
- Integers are unbounded. The 32-bit `Rectangle` arithmetic and the 32-bit `Width * Height` product at Snapshot.cs:28 can overflow in C# for huge coordinates; the model does not wrap. TimeSpan additions in phase 2 stay below TimeSpan.MaxValue for DateTime-range times (`AdjustedSpreadBound`).
- Snapshot.RestoreAndPreserveMenu and TrayIconForm.SnapshotMousedOver save and restore the foreground window around `Restore`. They are OS focus calls with nothing to check.
- The tray-click snapshot (`_menuShownSnapshot`, "just now") is taken outside the history. The model can take it with `Snapshot.TakeSnapshot`, but it is not part of `TrayIconForm`.
- The form constructor's first `TakeSnapshot(false)` and the 20-minute timer are left to the caller of `TakeSnapshot`.
- The following are UI, and some are floating point:
  - the menu items and their order;
  - `GetDisplayString`;
  - bold fonts for manual snapshots;
  - the `Math.Sqrt` monitor-size ratios;
  - the reflection padding adjustments;
  - `RightImageToolStripMenuItem.OnPaint`;
  - About and Quit.
- `#if DEBUG` logging is left out.
- src/Window.cs, src/Native.cs and WindowsLayoutSnapshot/Native.cs are not part of this model. The one piece of logic they hold, RECT.ToRectangle, is `Geometry.ToRectangle`.
