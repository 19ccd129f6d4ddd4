/**
 * History condensation (TrayIconForm.CondenseSnapshots): a time-ordered list
 * of snapshots is cut down to a maximum length, first by one pass that drops
 * old snapshots, then by repeatedly dropping the inner snapshot whose
 * neighbours are closest in time.
 *
 * The method works on any element type; `stampOf` reads the two fields the
 * algorithm looks at. Times are DateTime ticks (100 ns).
 */
module Condensation {
  import opened Results
  import opened Seqs

  const TicksPerHour: int := 36_000_000_000
  const TicksPerDay: int := 24 * TicksPerHour
  /** DateTime.MaxValue.Ticks: every DateTime lies in [0, MaxTicks]. */
  const MaxTicks: int := 3_155_378_975_999_999_999
  /** TimeSpan.MaxValue.Ticks (Int64.MaxValue). */
  const TimeSpanMaxTicks: int := 0x7FFF_FFFF_FFFF_FFFF
  const UserRetention: int := 5 * TicksPerDay
  const AutoRetention: int := 3 * TicksPerDay
  const ManualBonus: int := 1_000_000 * TicksPerDay
  const RecentBonus: int := 2_000_000 * TicksPerDay
  const RecentWindow: int := 2 * TicksPerHour

  /** What condensation reads of a snapshot. */
  datatype Stamp = Stamp(timeTaken: int, userInitiated: bool)

  /** CondenseSnapshots throws when asked to keep fewer than two snapshots. */
  datatype CondenseError = InvalidCondenseRequest

  predicate ValidTicks(t: int) { 0 <= t <= MaxTicks }

  function Abs(x: int): int { if x < 0 then -x else x }

  /** Older than five days (manual) or three days (automatic) at time `now`. */
  predicate Expired(s: Stamp, now: int)
  {
    now - s.timeTaken > (if s.userInitiated then UserRetention else AutoRetention)
  }

  // ---------------------------------------------------------------- phase 1

  /**
   * The list after the age purge: the for loop with RemoveAt(i) followed by
   * i++, which steps over the element that moved into position i.
   */
  function Purge<T>(xs: seq<T>, stampOf: T -> Stamp, now: int): (r: seq<T>)
    ensures |r| <= |xs|
  {
    if xs == [] then []
    else if Expired(stampOf(xs[0]), now) then
      (if |xs| == 1 then [] else [xs[1]] + Purge(xs[2..], stampOf, now))
    else [xs[0]] + Purge(xs[1..], stampOf, now)
  }

  /** Which elements the age purge keeps, position by position. */
  function PurgeKeep<T>(xs: seq<T>, stampOf: T -> Stamp, now: int): (keep: seq<bool>)
    ensures |keep| == |xs|
  {
    if xs == [] then []
    else if Expired(stampOf(xs[0]), now) then
      (if |xs| == 1 then [false] else [false, true] + PurgeKeep(xs[2..], stampOf, now))
    else [true] + PurgeKeep(xs[1..], stampOf, now)
  }

  /** The purge keeps exactly the elements its mask marks. */
  lemma {:induction false} PurgeIsSelect<T>(xs: seq<T>, stampOf: T -> Stamp, now: int)
    ensures Purge(xs, stampOf, now) == Select(xs, PurgeKeep(xs, stampOf, now))
  {
    if xs != [] {
      var keep := PurgeKeep(xs, stampOf, now);
      if Expired(stampOf(xs[0]), now) {
        if |xs| > 1 {
          PurgeIsSelect(xs[2..], stampOf, now);
          assert keep[1..][1..] == PurgeKeep(xs[2..], stampOf, now);
          assert xs[1..][1..] == xs[2..];
          assert Select(xs[1..], keep[1..]) == [xs[1]] + Select(xs[2..], keep[1..][1..]);
        }
      } else {
        PurgeIsSelect(xs[1..], stampOf, now);
      }
    }
  }

  /**
   * Element i is dropped exactly when it is expired and was examined, i.e.
   * when it is the first element or the element before it was kept. So only
   * expired elements go, and never two neighbours.
   */
  lemma {:induction false} PurgeKeepAt<T>(xs: seq<T>, stampOf: T -> Stamp, now: int, i: nat)
    requires i < |xs|
    ensures var keep := PurgeKeep(xs, stampOf, now);
      keep[i] <==> !(Expired(stampOf(xs[i]), now) && (i == 0 || keep[i - 1]))
  {
    var keep := PurgeKeep(xs, stampOf, now);
    if Expired(stampOf(xs[0]), now) {
      if i >= 2 {
        PurgeKeepAt(xs[2..], stampOf, now, i - 2);
        assert keep[i] == PurgeKeep(xs[2..], stampOf, now)[i - 2];
        if i > 2 {
          assert keep[i - 1] == PurgeKeep(xs[2..], stampOf, now)[i - 3];
        }
      }
    } else {
      if i >= 1 {
        PurgeKeepAt(xs[1..], stampOf, now, i - 1);
        assert keep[i] == PurgeKeep(xs[1..], stampOf, now)[i - 1];
        if i > 1 {
          assert keep[i - 1] == PurgeKeep(xs[1..], stampOf, now)[i - 2];
        }
      }
    }
  }

  /** The consequences the purge is meant to have. */
  lemma PurgeDropsOnlyExpired<T>(xs: seq<T>, stampOf: T -> Stamp, now: int)
    ensures IsSubsequence(Purge(xs, stampOf, now), xs)
    ensures var keep := PurgeKeep(xs, stampOf, now);
      && (forall i :: 0 <= i < |xs| && !keep[i] ==> Expired(stampOf(xs[i]), now))
      && (forall i :: 0 <= i < |xs| && !Expired(stampOf(xs[i]), now) ==> keep[i])
      && (forall i :: 0 < i < |xs| && !keep[i - 1] ==> keep[i])
  {
    PurgeIsSelect(xs, stampOf, now);
    forall i | 0 <= i < |xs| {
      PurgeKeepAt(xs, stampOf, now, i);
    }
  }

  // ---------------------------------------------------------------- phase 2

  /** The time between the neighbours of inner element i. */
  function Spread<T>(y: seq<T>, stampOf: T -> Stamp, i: nat): (r: int)
    requires 1 <= i < |y| - 1
  {
    Abs(stampOf(y[i + 1]).timeTaken - stampOf(y[i - 1]).timeTaken)
  }

  /** Within two hours of `now`, either way (TimeSpan.Duration). */
  predicate Recent(s: Stamp, now: int)
  {
    Abs(now - s.timeTaken) <= RecentWindow
  }

  /** The spread of inner element i plus its manual and recency bonuses. */
  function AdjustedSpread<T>(y: seq<T>, stampOf: T -> Stamp, now: int, i: nat): (r: int)
    requires 1 <= i < |y| - 1
  {
    Spread(y, stampOf, i)
    + (if stampOf(y[i]).userInitiated then ManualBonus else 0)
    + (if Recent(stampOf(y[i]), now) then RecentBonus else 0)
  }

  /** The index the inner for loop has settled on after looking at indices 1..n. */
  function VictimUpTo<T>(y: seq<T>, stampOf: T -> Stamp, now: int, n: nat): (k: nat)
    requires 1 <= n <= |y| - 2
    ensures 1 <= k <= n
  {
    if n == 1 then 1
    else
      var best := VictimUpTo(y, stampOf, now, n - 1);
      if AdjustedSpread(y, stampOf, now, n) < AdjustedSpread(y, stampOf, now, best) then n else best
  }

  /** The inner element one round of phase 2 removes. */
  function Victim<T>(y: seq<T>, stampOf: T -> Stamp, now: int): (k: nat)
    requires |y| >= 3
    ensures 1 <= k <= |y| - 2
  {
    VictimUpTo(y, stampOf, now, |y| - 2)
  }

  /** The victim has the smallest adjusted spread, and is the first one that has it. */
  lemma {:induction false} VictimUpToIsFirstMinimum<T>(y: seq<T>, stampOf: T -> Stamp, now: int, n: nat)
    requires 1 <= n <= |y| - 2
    ensures var k := VictimUpTo(y, stampOf, now, n);
      && (forall j :: 1 <= j <= n ==> AdjustedSpread(y, stampOf, now, k) <= AdjustedSpread(y, stampOf, now, j))
      && (forall j :: 1 <= j < k ==> AdjustedSpread(y, stampOf, now, k) < AdjustedSpread(y, stampOf, now, j))
  {
    if n > 1 {
      VictimUpToIsFirstMinimum(y, stampOf, now, n - 1);
    }
  }

  lemma VictimIsFirstMinimum<T>(y: seq<T>, stampOf: T -> Stamp, now: int)
    requires |y| >= 3
    ensures var k := Victim(y, stampOf, now);
      && (forall j :: 1 <= j <= |y| - 2 ==> AdjustedSpread(y, stampOf, now, k) <= AdjustedSpread(y, stampOf, now, j))
      && (forall j :: 1 <= j < k ==> AdjustedSpread(y, stampOf, now, k) < AdjustedSpread(y, stampOf, now, j))
  {
    VictimUpToIsFirstMinimum(y, stampOf, now, |y| - 2);
  }

  /** Phase 2: drop victims until at most `max` elements are left. */
  function Prune<T>(y: seq<T>, stampOf: T -> Stamp, now: int, max: int): (r: seq<T>)
    requires max >= 2
    decreases |y|
  {
    if |y| <= max then y
    else Prune(RemoveAt(y, Victim(y, stampOf, now)), stampOf, now, max)
  }

  /**
   * Phase 2 stops at exactly `max` elements when it has anything to do, keeps
   * the order, and never removes the first or the last element.
   */
  lemma {:induction false} PruneShape<T>(y: seq<T>, stampOf: T -> Stamp, now: int, max: int)
    requires max >= 2
    ensures var r := Prune(y, stampOf, now, max);
      && |r| == (if |y| <= max then |y| else max)
      && IsSubsequence(r, y)
      && (|y| > 0 ==> r[0] == y[0] && r[|r| - 1] == y[|y| - 1])
    decreases |y|
  {
    if |y| <= max {
      SubsequenceReflexive(y);
    } else {
      var k := Victim(y, stampOf, now);
      var z := RemoveAt(y, k);
      PruneShape(z, stampOf, now, max);
      RemoveAtIsSubsequence(y, k);
      SubsequenceTransitive(Prune(z, stampOf, now, max), z, y);
    }
  }

  /**
   * A manual snapshot that is not recent is chosen only when no automatic
   * non-recent snapshot is a candidate, as long as all neighbour spreads are
   * below the manual bonus (a million days).
   */
  lemma ManualSnapshotsGoLast<T>(y: seq<T>, stampOf: T -> Stamp, now: int)
    requires |y| >= 3
    requires forall i :: 1 <= i < |y| - 1 ==> Spread(y, stampOf, i) < ManualBonus
    requires var k := Victim(y, stampOf, now); stampOf(y[k]).userInitiated && !Recent(stampOf(y[k]), now)
    ensures forall j :: 1 <= j < |y| - 1 ==> stampOf(y[j]).userInitiated || Recent(stampOf(y[j]), now)
  {
    var k := Victim(y, stampOf, now);
    VictimIsFirstMinimum(y, stampOf, now);
    assert AdjustedSpread(y, stampOf, now, k) >= ManualBonus;
    forall j | 1 <= j < |y| - 1 ensures stampOf(y[j]).userInitiated || Recent(stampOf(y[j]), now) {
      assert AdjustedSpread(y, stampOf, now, k) <= AdjustedSpread(y, stampOf, now, j);
    }
  }

  /**
   * A snapshot of the last two hours is chosen only when every candidate is
   * that recent, as long as all neighbour spreads are below the manual bonus.
   */
  lemma RecentSnapshotsGoLast<T>(y: seq<T>, stampOf: T -> Stamp, now: int)
    requires |y| >= 3
    requires forall i :: 1 <= i < |y| - 1 ==> Spread(y, stampOf, i) < ManualBonus
    requires Recent(stampOf(y[Victim(y, stampOf, now)]), now)
    ensures forall j :: 1 <= j < |y| - 1 ==> Recent(stampOf(y[j]), now)
  {
    var k := Victim(y, stampOf, now);
    VictimIsFirstMinimum(y, stampOf, now);
    assert AdjustedSpread(y, stampOf, now, k) >= RecentBonus;
    forall j | 1 <= j < |y| - 1 ensures Recent(stampOf(y[j]), now) {
      assert AdjustedSpread(y, stampOf, now, k) <= AdjustedSpread(y, stampOf, now, j);
    }
  }

  /** With valid times every adjusted spread is below TimeSpan.MaxValue. */
  lemma AdjustedSpreadBound<T>(y: seq<T>, stampOf: T -> Stamp, now: int, i: nat)
    requires 1 <= i < |y| - 1
    requires ValidTicks(now) && ValidTicks(stampOf(y[i - 1]).timeTaken) && ValidTicks(stampOf(y[i + 1]).timeTaken)
    ensures 0 <= AdjustedSpread(y, stampOf, now, i) < TimeSpanMaxTicks
  {
  }

  // ---------------------------------------------------------------- both phases

  /** The list CondenseSnapshots returns. */
  function Condensed<T>(xs: seq<T>, stampOf: T -> Stamp, max: int, now: int): (r: seq<T>)
    requires max >= 2
  {
    Prune(if |xs| > max then Purge(xs, stampOf, now) else xs, stampOf, now, max)
  }

  /**
   * The result keeps the input's order, has at most `max` elements (exactly
   * `max` when the purge left more), and is the input itself when that was
   * short enough already.
   */
  lemma CondensedShape<T>(xs: seq<T>, stampOf: T -> Stamp, max: int, now: int)
    requires max >= 2
    ensures var r := Condensed(xs, stampOf, max, now);
      && IsSubsequence(r, xs)
      && |r| <= max
      && (|xs| <= max ==> r == xs)
      && (|xs| > max && |Purge(xs, stampOf, now)| > max ==> |r| == max)
  {
    var y := if |xs| > max then Purge(xs, stampOf, now) else xs;
    PruneShape(y, stampOf, now, max);
    if |xs| > max {
      PurgeDropsOnlyExpired(xs, stampOf, now);
      SubsequenceTransitive(Condensed(xs, stampOf, max, now), y, xs);
    }
  }

  predicate AllValidTicks<T>(xs: seq<T>, stampOf: T -> Stamp)
  {
    forall i :: 0 <= i < |xs| ==> ValidTicks(stampOf(xs[i]).timeTaken)
  }

  lemma SubsequenceValidTicks<T>(a: seq<T>, b: seq<T>, stampOf: T -> Stamp)
    requires IsSubsequence(a, b) && AllValidTicks(b, stampOf)
    ensures AllValidTicks(a, stampOf)
  {
    var keep :| |keep| == |b| && Select(b, keep) == a;
    forall i | 0 <= i < |a| ensures ValidTicks(stampOf(a[i]).timeTaken) {
      SelectMembership(b, keep, a[i]);
    }
  }

  /**
   * Phase 1's loop state as a purge in progress: the part before position i
   * is final, the rest is still to be purged; i may end one past the end when
   * the last element was removed.
   */
  function PurgeState<T>(y: seq<T>, i: nat, stampOf: T -> Stamp, now: int): seq<T>
  {
    if i <= |y| then y[..i] + Purge(y[i..], stampOf, now) else y
  }

  lemma PurgeStateRemove<T>(y: seq<T>, i: nat, stampOf: T -> Stamp, now: int)
    requires i < |y| && Expired(stampOf(y[i]), now)
    ensures PurgeState(RemoveAt(y, i), i + 1, stampOf, now) == PurgeState(y, i, stampOf, now)
  {
    assert y[i..][1..] == y[i + 1..];
    if i + 1 < |y| {
      assert y[i..][2..] == y[i + 2..];
      assert RemoveAt(y, i)[..i + 1] == y[..i] + [y[i + 1]];
      assert RemoveAt(y, i)[i + 1..] == y[i + 2..];
      assert ([y[i + 1]] + Purge(y[i + 2..], stampOf, now)) == Purge(y[i..], stampOf, now);
    } else {
      assert RemoveAt(y, i) == y[..i];
    }
  }

  lemma PurgeStateKeep<T>(y: seq<T>, i: nat, stampOf: T -> Stamp, now: int)
    requires i < |y| && !Expired(stampOf(y[i]), now)
    ensures PurgeState(y, i + 1, stampOf, now) == PurgeState(y, i, stampOf, now)
  {
    assert y[..i + 1] == y[..i] + [y[i]];
    assert y[i..][1..] == y[i + 1..];
  }

  /**
   * Phase 1's pass over the list: each expired element is removed with
   * RemoveAt(i), and i++ then steps over the element that took its place.
   */
  method AgePurge<T>(snapshots: seq<T>, stampOf: T -> Stamp, now: int) returns (y: seq<T>)
    ensures y == Purge(snapshots, stampOf, now)
  {
    y := snapshots;
    var i := 0;
    assert y[..0] + y[0..] == y;
    while i < |y|
      invariant i <= |y| + 1
      invariant PurgeState(y, i, stampOf, now) == Purge(snapshots, stampOf, now)
      decreases |y| + 1 - i
    {
      if Expired(stampOf(y[i]), now) {
        PurgeStateRemove(y, i, stampOf, now);
        y := RemoveAt(y, i);
      } else {
        PurgeStateKeep(y, i, stampOf, now);
      }
      i := i + 1;
    }
    if i <= |y| {
      assert y[..i] == y && y[i..] == [];
    }
  }

  /**
   * One round of phase 2's search: the first inner index with the smallest
   * adjusted spread, found with a strict comparison against a running minimum
   * that starts at TimeSpan.MaxValue.
   */
  method MostAdjacentNeighbors<T>(y: seq<T>, stampOf: T -> Stamp, now: int) returns (ix: int)
    requires |y| >= 3 && ValidTicks(now) && AllValidTicks(y, stampOf)
    ensures ix == Victim(y, stampOf, now)
  {
    ix := -1;
    var lowestDistanceBetweenNeighbors := TimeSpanMaxTicks;
    var i := 1;
    while i < |y| - 1
      invariant 1 <= i <= |y| - 1
      invariant i == 1 ==> ix == -1 && lowestDistanceBetweenNeighbors == TimeSpanMaxTicks
      invariant i > 1 ==> && ix == VictimUpTo(y, stampOf, now, i - 1)
                          && lowestDistanceBetweenNeighbors == AdjustedSpread(y, stampOf, now, ix)
    {
      var distanceBetweenNeighbors := Abs(stampOf(y[i + 1]).timeTaken - stampOf(y[i - 1]).timeTaken);
      if stampOf(y[i]).userInitiated {
        distanceBetweenNeighbors := distanceBetweenNeighbors + ManualBonus;
      }
      if Abs(now - stampOf(y[i]).timeTaken) <= RecentWindow {
        distanceBetweenNeighbors := distanceBetweenNeighbors + RecentBonus;
      }
      AdjustedSpreadBound(y, stampOf, now, i);
      if distanceBetweenNeighbors < lowestDistanceBetweenNeighbors {
        lowestDistanceBetweenNeighbors := distanceBetweenNeighbors;
        ix := i;
      }
      i := i + 1;
    }
  }

  /**
   * CondenseSnapshots: works on a copy of the list (the argument is a value),
   * throws for a maximum below two, and otherwise returns the condensed list.
   */
  method CondenseSnapshots<T>(snapshots: seq<T>, stampOf: T -> Stamp, maxNumSnapshots: int, now: int)
    returns (r: Result<seq<T>, CondenseError>)
    requires ValidTicks(now) && AllValidTicks(snapshots, stampOf)
    ensures r.Err? <==> maxNumSnapshots < 2
    ensures r.Ok? ==> r.value == Condensed(snapshots, stampOf, maxNumSnapshots, now)
  {
    if maxNumSnapshots < 2 {
      return Err(InvalidCondenseRequest);
    }
    var y := snapshots;
    // phase 1: CondenseSnapshots' first `while` ends in an unconditional `break`, so it runs at most once
    if |y| > maxNumSnapshots {
      y := AgePurge(y, stampOf, now);
    }
    assert y == if |snapshots| > maxNumSnapshots then Purge(snapshots, stampOf, now) else snapshots;
    PurgeDropsOnlyExpired(snapshots, stampOf, now);
    SubsequenceReflexive(snapshots);
    SubsequenceValidTicks(y, snapshots, stampOf);
    // phase 2
    while |y| > maxNumSnapshots
      invariant AllValidTicks(y, stampOf)
      invariant Prune(y, stampOf, now, maxNumSnapshots) == Condensed(snapshots, stampOf, maxNumSnapshots, now)
      decreases |y|
    {
      var ixMostAdjacentNeighbors := MostAdjacentNeighbors(y, stampOf, now);
      ghost var before := y;
      RemoveAtIsSubsequence(y, ixMostAdjacentNeighbors);
      y := RemoveAt(y, ixMostAdjacentNeighbors);
      SubsequenceValidTicks(y, before, stampOf);
    }
    return Ok(y);
  }

  const TicksPerMinute: int := 600_000_000

  function StampId(s: Stamp): Stamp { s }

  /**
   * Five automatic snapshots at minutes 0, 10, 11, 30 and 60, condensed to
   * three a day later: none is old enough for the purge; phase 2 first drops
   * minute 10 (neighbours 11 minutes apart), then minute 11 (neighbours 30
   * minutes apart), keeping minutes 0, 30 and 60.
   */
  lemma CondenseExample()
    ensures var xs := [Stamp(0, false), Stamp(10 * TicksPerMinute, false), Stamp(11 * TicksPerMinute, false),
                       Stamp(30 * TicksPerMinute, false), Stamp(60 * TicksPerMinute, false)];
      Condensed(xs, StampId, 3, TicksPerDay) == [xs[0], xs[3], xs[4]]
  {
    var xs := [Stamp(0, false), Stamp(10 * TicksPerMinute, false), Stamp(11 * TicksPerMinute, false),
               Stamp(30 * TicksPerMinute, false), Stamp(60 * TicksPerMinute, false)];
    var now := TicksPerDay;
    assert xs[4..][1..] == [];
    assert Purge(xs[4..], StampId, now) == [xs[4]];
    assert xs[3..][1..] == xs[4..];
    assert Purge(xs[3..], StampId, now) == [xs[3], xs[4]];
    assert xs[2..][1..] == xs[3..];
    assert Purge(xs[2..], StampId, now) == xs[2..];
    assert xs[1..][1..] == xs[2..];
    assert Purge(xs[1..], StampId, now) == xs[1..];
    assert Purge(xs, StampId, now) == xs;
    assert VictimUpTo(xs, StampId, now, 2) == 1;
    assert Victim(xs, StampId, now) == 1;
    var ys := RemoveAt(xs, 1);
    assert ys == [xs[0], xs[2], xs[3], xs[4]];
    assert Victim(ys, StampId, now) == 1;
    var zs := RemoveAt(ys, 1);
    assert zs == [xs[0], xs[3], xs[4]];
    assert Prune(zs, StampId, now, 3) == zs;
    assert Prune(ys, StampId, now, 3) == zs;
    assert Prune(xs, StampId, now, 3) == zs;
  }
}
