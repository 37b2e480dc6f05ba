/**
 * `streaks.sort((a, b) => b.durationMs - a.durationMs).slice(0, 10)`, which
 * both streak scripts run. `Array.prototype.sort` is stable, so streaks of
 * equal duration keep their input order; the model is an insertion sort.
 */
module Ranking {
  import opened Segmenter

  const TOP_N: nat := 10

  /** Non-increasing `durationMs`. */
  predicate SortedByDuration(ss: seq<Streak>) {
    forall i, j :: 0 <= i < j < |ss| ==> ss[i].durationMs >= ss[j].durationMs
  }

  /** The streaks of duration `d`, in the order they appear in `ss`. */
  function WithDuration(ss: seq<Streak>, d: int): seq<Streak>
    decreases |ss|
  {
    if ss == [] then []
    else (if ss[0].durationMs == d then [ss[0]] else []) + WithDuration(ss[1..], d)
  }

  /** Puts `x` in front of the first streak that is not longer than it. */
  function Insert(x: Streak, ys: seq<Streak>): seq<Streak>
    decreases |ys|
  {
    if ys == [] || ys[0].durationMs <= x.durationMs then [x] + ys
    else [ys[0]] + Insert(x, ys[1..])
  }

  /** The sort, stable with respect to input order. */
  function SortByDuration(xs: seq<Streak>): seq<Streak>
    decreases |xs|
  {
    if xs == [] then [] else Insert(xs[0], SortByDuration(xs[1..]))
  }

  lemma {:induction false} InsertKeepsElements(x: Streak, ys: seq<Streak>)
    ensures multiset(Insert(x, ys)) == multiset(ys) + multiset{x}
    ensures |Insert(x, ys)| == |ys| + 1
    decreases |ys|
  {
    if !(ys == [] || ys[0].durationMs <= x.durationMs) {
      InsertKeepsElements(x, ys[1..]);
      assert ys == [ys[0]] + ys[1..];
    }
  }

  lemma {:induction false} InsertSorted(x: Streak, ys: seq<Streak>)
    requires SortedByDuration(ys)
    ensures SortedByDuration(Insert(x, ys))
    decreases |ys|
  {
    if !(ys == [] || ys[0].durationMs <= x.durationMs) {
      InsertSorted(x, ys[1..]);
      InsertKeepsElements(x, ys[1..]);
      var rest := Insert(x, ys[1..]);
      var r := [ys[0]] + rest;
      forall i | 0 < i < |r| ensures r[0].durationMs >= r[i].durationMs {
        assert r[i] == rest[i - 1];
        assert r[i] in multiset(rest);
        if r[i] != x {
          assert r[i] in multiset(ys[1..]);
          var k :| 0 <= k < |ys[1..]| && ys[1..][k] == r[i];
          assert ys[k + 1] == r[i];
        }
      }
    }
  }

  /** `WithDuration` of a list with a known first streak. */
  lemma WithDurationCons(y: Streak, rest: seq<Streak>, d: int)
    ensures WithDuration([y] + rest, d) == (if y.durationMs == d then [y] else []) + WithDuration(rest, d)
  {
    var r := [y] + rest;
    assert r[0] == y && r[1..] == rest;
  }

  lemma {:induction false} InsertStable(x: Streak, ys: seq<Streak>, d: int)
    ensures WithDuration(Insert(x, ys), d) == (if x.durationMs == d then [x] else []) + WithDuration(ys, d)
    decreases |ys|
  {
    if ys == [] || ys[0].durationMs <= x.durationMs {
      WithDurationCons(x, ys, d);
    } else {
      InsertStable(x, ys[1..], d);
      WithDurationCons(ys[0], Insert(x, ys[1..]), d);
      assert ys == [ys[0]] + ys[1..];
      WithDurationCons(ys[0], ys[1..], d);
      if x.durationMs == d {
        assert ys[0].durationMs != d;
      }
    }
  }

  /**
   * The sort puts the streaks in non-increasing duration, is a permutation,
   * and keeps the input order among streaks of equal duration.
   */
  lemma {:induction false} SortIsStableSort(xs: seq<Streak>)
    ensures SortedByDuration(SortByDuration(xs))
    ensures multiset(SortByDuration(xs)) == multiset(xs)
    ensures |SortByDuration(xs)| == |xs|
    ensures forall d :: WithDuration(SortByDuration(xs), d) == WithDuration(xs, d)
    decreases |xs|
  {
    if xs != [] {
      SortIsStableSort(xs[1..]);
      InsertSorted(xs[0], SortByDuration(xs[1..]));
      InsertKeepsElements(xs[0], SortByDuration(xs[1..]));
      forall d ensures WithDuration(SortByDuration(xs), d) == WithDuration(xs, d) {
        InsertStable(xs[0], SortByDuration(xs[1..]), d);
      }
      assert xs == [xs[0]] + xs[1..];
    }
  }

  /** The ten longest streaks, longest first. */
  function Top10(xs: seq<Streak>): seq<Streak> {
    var sorted := SortByDuration(xs);
    SortIsStableSort(xs);
    sorted[..if |sorted| < TOP_N then |sorted| else TOP_N]
  }

  /**
   * `Top10` keeps min(10, n) streaks, longest first, all taken from the
   * input, and every streak it drops is no longer than every one it keeps.
   */
  lemma TopTenFacts(xs: seq<Streak>)
    ensures |SortByDuration(xs)| == |xs|
    ensures |Top10(xs)| == if |xs| < TOP_N then |xs| else TOP_N
    ensures SortedByDuration(Top10(xs))
    ensures multiset(Top10(xs)) <= multiset(xs)
    ensures Top10(xs) == SortByDuration(xs)[..|Top10(xs)|]
    ensures forall i, j :: 0 <= i < |Top10(xs)| <= j < |xs| ==> Top10(xs)[i].durationMs >= SortByDuration(xs)[j].durationMs
  {
    SortIsStableSort(xs);
    var sorted := SortByDuration(xs);
    var n := if |sorted| < TOP_N then |sorted| else TOP_N;
    assert Top10(xs) == sorted[..n];
    PrefixFacts(sorted, n);
  }

  /** What a prefix of a rearrangement leaves out is what follows the prefix. */
  lemma DroppedFromPrefix(xs: seq<Streak>, sorted: seq<Streak>, n: nat)
    requires multiset(sorted) == multiset(xs) && n <= |sorted|
    requires forall i, j :: 0 <= i < n <= j < |sorted| ==> sorted[i].durationMs >= sorted[j].durationMs
    ensures forall x, i :: x in multiset(xs) - multiset(sorted[..n]) && 0 <= i < n ==> x.durationMs <= sorted[..n][i].durationMs
  {
    var top, rest := sorted[..n], sorted[n..];
    assert sorted == top + rest;
    assert multiset(sorted) == multiset(top) + multiset(rest);
    forall x, i | x in multiset(xs) - multiset(top) && 0 <= i < n ensures x.durationMs <= top[i].durationMs {
      assert multiset(rest)[x] > 0;
      var j :| 0 <= j < |rest| && rest[j] == x;
      assert sorted[n + j] == x;
    }
  }

  /** Every streak that `Top10` drops is no longer than every streak it keeps. */
  lemma DroppedNoLonger(xs: seq<Streak>)
    ensures forall x, i :: x in multiset(xs) - multiset(Top10(xs)) && 0 <= i < |Top10(xs)| ==>
              x.durationMs <= Top10(xs)[i].durationMs
  {
    TopTenFacts(xs);
    SortIsStableSort(xs);
    DroppedFromPrefix(xs, SortByDuration(xs), |Top10(xs)|);
  }

  /** A prefix of a sorted list is sorted, is part of it, and holds none shorter than the rest. */
  lemma PrefixFacts(s: seq<Streak>, n: nat)
    requires SortedByDuration(s) && n <= |s|
    ensures SortedByDuration(s[..n])
    ensures multiset(s[..n]) <= multiset(s)
    ensures forall i, j :: 0 <= i < n <= j < |s| ==> s[..n][i].durationMs >= s[j].durationMs
  {
    assert s == s[..n] + s[n..];
    assert multiset(s) == multiset(s[..n]) + multiset(s[n..]);
  }
}
