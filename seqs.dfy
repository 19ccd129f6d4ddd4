/**
 * Order-preserving selections from sequences. `Select(s, keep)` keeps the
 * elements of `s` whose flag is set; "a is a subsequence of b" means that some
 * keep-mask over `b` selects exactly `a`.
 */
module Seqs {

  function Last<T>(s: seq<T>): T
    requires |s| > 0
  {
    s[|s| - 1]
  }

  /** The number of set flags. */
  function CountTrue(keep: seq<bool>): (n: nat)
    ensures n <= |keep|
  {
    if keep == [] then 0 else (if keep[0] then 1 else 0) + CountTrue(keep[1..])
  }

  /** The elements of `s` whose flag in `keep` is set, in their original order. */
  function Select<T>(s: seq<T>, keep: seq<bool>): (r: seq<T>)
    requires |keep| == |s|
    ensures |r| == CountTrue(keep)
  {
    if s == [] then [] else (if keep[0] then [s[0]] else []) + Select(s[1..], keep[1..])
  }

  ghost predicate IsSubsequence<T>(a: seq<T>, b: seq<T>)
  {
    exists keep: seq<bool> {:trigger Select(b, keep)} :: |keep| == |b| && Select(b, keep) == a
  }

  predicate NoDuplicates<T(==)>(s: seq<T>)
  {
    forall i, j :: 0 <= i < j < |s| ==> s[i] != s[j]
  }

  /** `s` without its element at index `i`, as List.RemoveAt leaves it. */
  function RemoveAt<T>(s: seq<T>, i: nat): (r: seq<T>)
    requires i < |s|
    ensures |r| == |s| - 1
    ensures forall k :: 0 <= k < i ==> r[k] == s[k]
    ensures forall k :: i <= k < |r| ==> r[k] == s[k + 1]
  {
    s[..i] + s[i + 1..]
  }

  lemma {:induction false} SelectMembership<T>(s: seq<T>, keep: seq<bool>, x: T)
    requires |keep| == |s|
    ensures x in Select(s, keep) <==> exists i :: 0 <= i < |s| && keep[i] && s[i] == x
  {
    if s != [] {
      SelectMembership(s[1..], keep[1..], x);
      if exists i :: 0 <= i < |s| && keep[i] && s[i] == x {
        var i :| 0 <= i < |s| && keep[i] && s[i] == x;
        if i > 0 {
          assert keep[1..][i - 1] && s[1..][i - 1] == x;
        }
      }
      if x in Select(s[1..], keep[1..]) {
        var i :| 0 <= i < |s[1..]| && keep[1..][i] && s[1..][i] == x;
        assert keep[i + 1] && s[i + 1] == x;
      }
    }
  }

  /** Appending one element and one flag extends the selection by that element if it is kept. */
  lemma {:induction false} SelectSnoc<T>(s: seq<T>, keep: seq<bool>, x: T, b: bool)
    requires |keep| == |s|
    ensures Select(s + [x], keep + [b]) == Select(s, keep) + (if b then [x] else [])
  {
    if s == [] {
      assert s + [x] == [x] && keep + [b] == [b];
    } else {
      assert (s + [x])[1..] == s[1..] + [x];
      assert (keep + [b])[1..] == keep[1..] + [b];
      SelectSnoc(s[1..], keep[1..], x, b);
    }
  }

  lemma {:induction false} SelectAll<T>(s: seq<T>)
    ensures Select(s, seq(|s|, _ => true)) == s
  {
    if s != [] {
      assert seq(|s|, _ => true)[1..] == seq(|s| - 1, _ => true);
      SelectAll(s[1..]);
    }
  }

  lemma {:induction false} SelectAllBut<T>(s: seq<T>, i: nat)
    requires i < |s|
    ensures Select(s, seq(|s|, j => j != i)) == RemoveAt(s, i)
  {
    if i == 0 {
      assert seq(|s|, j => j != i)[1..] == seq(|s| - 1, _ => true);
      SelectAll(s[1..]);
    } else {
      assert seq(|s|, j => j != i)[1..] == seq(|s| - 1, j => j != i - 1);
      SelectAllBut(s[1..], i - 1);
      assert RemoveAt(s, i) == [s[0]] + RemoveAt(s[1..], i - 1);
    }
  }

  /**
   * The mask over `s` that first applies `k1` and then, on what `k1` kept,
   * applies `k2`.
   */
  function Compose(k1: seq<bool>, k2: seq<bool>): (k: seq<bool>)
    requires |k2| == CountTrue(k1)
    ensures |k| == |k1|
  {
    if k1 == [] then []
    else if k1[0] then [k2[0]] + Compose(k1[1..], k2[1..])
    else [false] + Compose(k1[1..], k2)
  }

  lemma {:induction false} SelectCompose<T>(s: seq<T>, k1: seq<bool>, k2: seq<bool>)
    requires |k1| == |s| && |k2| == CountTrue(k1)
    ensures Select(s, Compose(k1, k2)) == Select(Select(s, k1), k2)
  {
    if s != [] {
      var c := Compose(k1, k2);
      if k1[0] {
        assert c[1..] == Compose(k1[1..], k2[1..]);
        SelectCompose(s[1..], k1[1..], k2[1..]);
        var m := Select(s, k1);
        assert m == [s[0]] + Select(s[1..], k1[1..]);
        assert m[1..] == Select(s[1..], k1[1..]);
      } else {
        assert c[1..] == Compose(k1[1..], k2);
        SelectCompose(s[1..], k1[1..], k2);
        assert Select(s, k1) == Select(s[1..], k1[1..]);
        assert !c[0];
      }
    }
  }

  lemma SubsequenceReflexive<T>(s: seq<T>)
    ensures IsSubsequence(s, s)
  {
    SelectAll(s);
  }

  lemma SubsequenceTransitive<T>(a: seq<T>, b: seq<T>, c: seq<T>)
    requires IsSubsequence(a, b) && IsSubsequence(b, c)
    ensures IsSubsequence(a, c)
  {
    var kb :| |kb| == |b| && Select(b, kb) == a;
    var kc :| |kc| == |c| && Select(c, kc) == b;
    SelectCompose(c, kc, kb);
    assert Select(c, Compose(kc, kb)) == a;
  }

  lemma RemoveAtIsSubsequence<T>(s: seq<T>, i: nat)
    requires i < |s|
    ensures IsSubsequence(RemoveAt(s, i), s)
  {
    SelectAllBut(s, i);
  }

  /** More elements than a set has members, all drawn from it: two of them are equal. */
  lemma {:induction false} Pigeonhole<T>(s: seq<T>, S: set<T>)
    requires forall i :: 0 <= i < |s| ==> s[i] in S
    requires |s| > |S|
    ensures exists i, j :: 0 <= i < j < |s| && s[i] == s[j]
  {
    var rest := s[1..];
    if s[0] in rest {
      var j :| 0 <= j < |rest| && rest[j] == s[0];
      assert s[0] == s[j + 1];
    } else {
      forall i | 0 <= i < |rest| ensures rest[i] in S - {s[0]} {
        assert rest[i] == s[i + 1] && rest[i] in rest;
      }
      assert |S - {s[0]}| == |S| - 1;
      Pigeonhole(rest, S - {s[0]});
      var i, j :| 0 <= i < j < |rest| && rest[i] == rest[j];
      assert s[i + 1] == s[j + 1];
    }
  }

  /** A selection from a sequence without repeated elements repeats nothing either. */
  lemma {:induction false} SelectNoDuplicates<T>(s: seq<T>, keep: seq<bool>)
    requires |keep| == |s| && NoDuplicates(s)
    ensures NoDuplicates(Select(s, keep))
  {
    if s != [] {
      var tail := Select(s[1..], keep[1..]);
      SelectNoDuplicates(s[1..], keep[1..]);
      SelectMembership(s[1..], keep[1..], s[0]);
      assert s[0] !in tail by {
        forall i | 0 <= i < |s[1..]| ensures s[1..][i] != s[0] {
          assert s[i + 1] != s[0];
        }
      }
      var r := Select(s, keep);
      if keep[0] {
        assert r == [s[0]] + tail;
        forall i, j | 0 <= i < j < |r| ensures r[i] != r[j] {
          if i == 0 {
            assert r[j] == tail[j - 1];
          } else {
            assert r[i] == tail[i - 1] && r[j] == tail[j - 1];
          }
        }
      } else {
        assert r == tail;
      }
    }
  }
}
