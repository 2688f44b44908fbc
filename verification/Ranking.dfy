/** The pure half of `record_top_movers`: sort the day's changes in
    descending order with Python's stable `sorted(..., reverse=True)`, then
    take `[:3]` as the gainers and `[-3:]` as the losers. */
module Ranking {
  import opened OrderedDicts
  import opened Frames

  /** A `changes.items()` entry: a ticker and its `Close - Open` for the day. */
  type Change = (Ticker, real)

  /** How many gainers and losers are reported. */
  const TopN: nat := 3

  ghost predicate NonIncreasing(s: seq<Change>) {
    forall i, j :: 0 <= i < j < |s| ==> s[i].1 >= s[j].1
  }

  /** The entries of `s` whose change is exactly `v`, in their order in `s`. */
  function WithChange(s: seq<Change>, v: real): seq<Change>
  {
    if s == [] then []
    else (if s[0].1 == v then [s[0]] else []) + WithChange(s[1..], v)
  }

  /** `r` is what a stable descending sort of `s` returns: non-increasing, and
      the entries sharing any one change value appear in `r` in the same
      order as in `s` (which also makes `r` a permutation of `s`). */
  ghost predicate IsStableSortDesc(s: seq<Change>, r: seq<Change>) {
    NonIncreasing(r) && forall v :: WithChange(r, v) == WithChange(s, v)
  }

  /** A head no smaller than anything after it keeps a sequence sorted. */
  lemma PrependSorted(h: Change, t: seq<Change>)
    requires NonIncreasing(t)
    requires forall e :: e in t ==> h.1 >= e.1
    ensures NonIncreasing([h] + t)
  {
    var r := [h] + t;
    forall i, j | 0 <= i < j < |r| ensures r[i].1 >= r[j].1 {
      if i == 0 {
        assert r[j] == t[j - 1];
      } else {
        assert r[i] == t[i - 1] && r[j] == t[j - 1];
      }
    }
  }

  /** A slice of a sorted sequence is sorted. */
  lemma SliceSorted(s: seq<Change>, lo: nat, hi: nat)
    requires NonIncreasing(s) && lo <= hi <= |s|
    ensures NonIncreasing(s[lo..hi])
  {
    forall i, j | 0 <= i < j < hi - lo ensures s[lo..hi][i].1 >= s[lo..hi][j].1 {
      assert s[lo..hi][i] == s[lo + i] && s[lo..hi][j] == s[lo + j];
    }
  }

  /** Places `x` before the first entry of `t` whose change is not larger. */
  function InsertDesc(x: Change, t: seq<Change>): (r: seq<Change>)
    ensures |r| == |t| + 1
    ensures multiset(r) == multiset(t) + multiset{x}
  {
    if t == [] || x.1 >= t[0].1 then [x] + t
    else
      assert t == [t[0]] + t[1..];
      [t[0]] + InsertDesc(x, t[1..])
  }

  lemma {:induction false} InsertDescSorted(x: Change, t: seq<Change>)
    requires NonIncreasing(t)
    ensures NonIncreasing(InsertDesc(x, t))
  {
    if t == [] || x.1 >= t[0].1 {
      PrependSorted(x, t);
    } else {
      var rest := InsertDesc(x, t[1..]);
      SliceSorted(t, 1, |t|);
      InsertDescSorted(x, t[1..]);
      forall e | e in rest ensures t[0].1 >= e.1 {
        assert e in multiset(rest);
        if e != x {
          assert e in t[1..];
        }
      }
      PrependSorted(t[0], rest);
    }
  }

  /** `sorted(changes, key=lambda x: x[1], reverse=True)`, as an insertion sort. */
  function SortDesc(s: seq<Change>): (r: seq<Change>)
    ensures |r| == |s|
    ensures multiset(r) == multiset(s)
    ensures NonIncreasing(r)
  {
    if s == [] then []
    else
      assert s == [s[0]] + s[1..];
      InsertDescSorted(s[0], SortDesc(s[1..]));
      InsertDesc(s[0], SortDesc(s[1..]))
  }

  lemma {:induction false} WithChangeMember(s: seq<Change>, v: real, x: Change)
    requires x in WithChange(s, v)
    ensures x in s && x.1 == v
  {
    if s != [] && x in WithChange(s[1..], v) {
      WithChangeMember(s[1..], v, x);
    }
  }

  lemma {:induction false} WithChangeInsert(x: Change, t: seq<Change>, v: real)
    ensures WithChange(InsertDesc(x, t), v) == (if x.1 == v then [x] else []) + WithChange(t, v)
  {
    if t == [] || x.1 >= t[0].1 {
      assert ([x] + t)[1..] == t;
    } else {
      var rest := InsertDesc(x, t[1..]);
      WithChangeInsert(x, t[1..], v);
      assert ([t[0]] + rest)[1..] == rest;
    }
  }

  /** Stability: sorting keeps, for each change value, the input order of the
      entries that share it; so ties stay in ticker-iteration order. */
  lemma {:induction false} SortDescStable(s: seq<Change>, v: real)
    ensures WithChange(SortDesc(s), v) == WithChange(s, v)
  {
    if s != [] {
      SortDescStable(s[1..], v);
      WithChangeInsert(s[0], SortDesc(s[1..]), v);
    }
  }

  lemma SortDescIsStableSort(s: seq<Change>)
    ensures IsStableSortDesc(s, SortDesc(s))
  {
    forall v ensures WithChange(SortDesc(s), v) == WithChange(s, v) {
      SortDescStable(s, v);
    }
  }

  lemma WithChangeHead(s: seq<Change>)
    requires s != []
    ensures WithChange(s, s[0].1) != []
  {
    assert WithChange(s, s[0].1)[0] == s[0];
  }

  lemma {:induction false} WithChangeKeeps(s: seq<Change>, v: real, x: Change)
    requires x in s && x.1 == v
    ensures x in WithChange(s, v)
  {
    if s[0] != x {
      WithChangeKeeps(s[1..], v, x);
    }
  }

  /** Two entries with change `v`, one before the other in `s`, keep that
      order in `WithChange(s, v)`. */
  lemma {:induction false} WithChangePreserves(s: seq<Change>, v: real, p: nat, q: nat)
    requires p < q < |s| && s[p].1 == v && s[q].1 == v
    ensures Precedes(WithChange(s, v), s[p], s[q])
  {
    var w, rest := WithChange(s, v), WithChange(s[1..], v);
    var head := if s[0].1 == v then [s[0]] else [];
    assert w == head + rest;
    if p == 0 {
      WithChangeKeeps(s[1..], v, s[q]);
      var k :| 0 <= k < |rest| && rest[k] == s[q];
      assert w[0] == s[0] && w[k + 1] == s[q];
    } else {
      WithChangePreserves(s[1..], v, p - 1, q - 1);
      var a, b :| 0 <= a < b < |rest| && rest[a] == s[p] && rest[b] == s[q];
      assert w[a + |head|] == s[p] && w[b + |head|] == s[q];
    }
  }

  /** Conversely, an order seen in `WithChange(s, v)` is an order in `s`. */
  lemma {:induction false} WithChangeReflects(s: seq<Change>, v: real, x: Change, y: Change)
    requires Precedes(WithChange(s, v), x, y)
    ensures Precedes(s, x, y)
  {
    var w, rest := WithChange(s, v), WithChange(s[1..], v);
    var head := if s[0].1 == v then [s[0]] else [];
    assert w == head + rest;
    var a, b :| 0 <= a < b < |w| && w[a] == x && w[b] == y;
    if head != [] && a == 0 {
      assert rest[b - 1] == y;
      WithChangeMember(s[1..], v, y);
      var k :| 0 <= k < |s| - 1 && s[1..][k] == y;
      assert s[0] == x && s[k + 1] == y;
    } else {
      assert rest[a - |head|] == x && rest[b - |head|] == y;
      WithChangeReflects(s[1..], v, x, y);
      var i, j :| 0 <= i < j < |s| - 1 && s[1..][i] == x && s[1..][j] == y;
      assert s[i + 1] == x && s[j + 1] == y;
    }
  }

  /** Ties keep their input order: of two sorted entries with equal change,
      the first one also comes first in the input. */
  lemma SortDescTiesKeepOrder(s: seq<Change>, p: nat, q: nat)
    requires p < q < |SortDesc(s)| && SortDesc(s)[p].1 == SortDesc(s)[q].1
    ensures Precedes(s, SortDesc(s)[p], SortDesc(s)[q])
  {
    var r, v := SortDesc(s), SortDesc(s)[p].1;
    WithChangePreserves(r, v, p, q);
    SortDescStable(s, v);
    WithChangeReflects(s, v, r[p], r[q]);
  }

  /** Two non-increasing sequences that agree on every change value's
      entries are equal. */
  lemma {:induction false} SortedAgreeing(a: seq<Change>, b: seq<Change>)
    requires NonIncreasing(a) && NonIncreasing(b)
    requires forall v :: WithChange(a, v) == WithChange(b, v)
    ensures a == b
  {
    if a == [] || b == [] {
      if a != [] {
        WithChangeHead(a);
        assert false;
      } else if b != [] {
        WithChangeHead(b);
        assert false;
      }
    } else {
      var m := a[0].1;
      assert WithChange(b, b[0].1)[0] == b[0];
      WithChangeMember(a, b[0].1, b[0]);
      assert WithChange(a, m)[0] == a[0];
      WithChangeMember(b, m, a[0]);
      assert b[0].1 == m;
      assert a[0] == b[0] by {
        assert WithChange(a, m)[0] == WithChange(b, m)[0];
      }
      forall v ensures WithChange(a[1..], v) == WithChange(b[1..], v) {
        var head := if v == m then [a[0]] else [];
        assert WithChange(a, v) == head + WithChange(a[1..], v);
        assert WithChange(b, v) == head + WithChange(b[1..], v);
        assert (head + WithChange(a[1..], v))[|head|..] == WithChange(a[1..], v);
        assert (head + WithChange(b[1..], v))[|head|..] == WithChange(b[1..], v);
      }
      SortedAgreeing(a[1..], b[1..]);
      assert a == [a[0]] + a[1..] && b == [b[0]] + b[1..];
    }
  }

  /** Any stable descending sort, whatever its algorithm, gives the same
      sequence as `SortDesc`; the model does not depend on Python's
      Timsort being an insertion sort. */
  lemma StableSortUnique(s: seq<Change>, r: seq<Change>)
    requires IsStableSortDesc(s, r)
    ensures r == SortDesc(s)
  {
    SortDescIsStableSort(s);
    forall v ensures WithChange(r, v) == WithChange(SortDesc(s), v) {
    }
    SortedAgreeing(r, SortDesc(s));
  }

  /** The index a Python slice bound `i` selects in a sequence of length `n`:
      a negative bound counts from the end, and either kind is clamped to
      `0..n`. */
  function SliceBound(i: int, n: nat): (k: nat)
    ensures k <= n
    ensures 0 <= i <= n ==> k == i
    ensures i < 0 <= n + i ==> k == n + i
    ensures i > n ==> k == n
    ensures n + i < 0 ==> k == 0
  {
    if i >= 0 then (if i <= n then i else n)
    else if n + i >= 0 then n + i else 0
  }

  /** `s[:stop]` */
  function SliceTo<T>(s: seq<T>, stop: int): seq<T>
  {
    s[..SliceBound(stop, |s|)]
  }

  /** `s[start:]` */
  function SliceFrom<T>(s: seq<T>, start: int): seq<T>
  {
    s[SliceBound(start, |s|)..]
  }

  datatype TopMovers = TopMovers(gainers: seq<Change>, losers: seq<Change>)

  /** `top_gainers = sorted_changes[:3]` and `top_losers = sorted_changes[-3:]`. */
  function Select(sorted: seq<Change>): TopMovers
  {
    TopMovers(SliceTo(sorted, TopN), SliceFrom(sorted, -(TopN as int)))
  }

  /** `sorted(changes.items(), key=lambda x: x[1], reverse=True)` followed by
      the two slices of `record_top_movers`. */
  function Movers(changes: seq<Change>): TopMovers
  {
    Select(SortDesc(changes))
  }

  function Min(a: nat, b: nat): nat { if a <= b then a else b }

  /** `[:3]` keeps the first `min(3, n)` entries and `[-3:]` the last
      `min(3, n)`: a short sequence is taken whole, never reversed. */
  lemma SelectShape(sorted: seq<Change>)
    ensures Select(sorted).gainers == sorted[..Min(TopN, |sorted|)]
    ensures Select(sorted).losers == sorted[|sorted| - Min(TopN, |sorted|)..]
  {
  }

  lemma SelectSorted(sorted: seq<Change>)
    requires NonIncreasing(sorted)
    ensures NonIncreasing(Select(sorted).gainers) && NonIncreasing(Select(sorted).losers)
  {
    var n := |sorted|;
    var k := Min(TopN, n);
    assert Select(sorted).gainers == sorted[0..k];
    SliceSorted(sorted, 0, k);
    assert Select(sorted).losers == sorted[n - k..n];
    SliceSorted(sorted, n - k, n);
  }

  /** Nothing left out of `[:3]` has a larger change than what it keeps. */
  lemma SelectTop(sorted: seq<Change>)
    requires NonIncreasing(sorted)
    ensures multiset(Select(sorted).gainers) <= multiset(sorted)
    ensures forall x, g ::
      (x in multiset(sorted) - multiset(Select(sorted).gainers) && g in Select(sorted).gainers) ==> x.1 <= g.1
  {
    var k := Min(TopN, |sorted|);
    var top, rest := sorted[..k], sorted[k..];
    assert Select(sorted).gainers == top;
    assert sorted == top + rest;
    assert multiset(sorted) == multiset(top) + multiset(rest);
    forall x, g | x in multiset(sorted) - multiset(top) && g in top
      ensures x.1 <= g.1
    {
      assert x in rest;
      var i :| 0 <= i < k && top[i] == g;
      var j :| 0 <= j < |rest| && rest[j] == x;
      assert sorted[i] == g && sorted[k + j] == x;
    }
  }

  /** Nothing left out of `[-3:]` has a smaller change than what it keeps. */
  lemma SelectBottom(sorted: seq<Change>)
    requires NonIncreasing(sorted)
    ensures multiset(Select(sorted).losers) <= multiset(sorted)
    ensures forall x, l ::
      (x in multiset(sorted) - multiset(Select(sorted).losers) && l in Select(sorted).losers) ==> x.1 >= l.1
  {
    var m := |sorted| - Min(TopN, |sorted|);
    var rest, bottom := sorted[..m], sorted[m..];
    assert Select(sorted).losers == bottom;
    assert sorted == rest + bottom;
    assert multiset(sorted) == multiset(rest) + multiset(bottom);
    forall x, l | x in multiset(sorted) - multiset(bottom) && l in bottom
      ensures x.1 >= l.1
    {
      assert x in rest;
      var i :| 0 <= i < m && rest[i] == x;
      var j :| 0 <= j < |bottom| && bottom[j] == l;
      assert sorted[i] == x && sorted[m + j] == l;
    }
  }

  lemma SelectOverlap(sorted: seq<Change>)
    ensures 0 < |sorted| < 2 * TopN ==>
      exists e :: e in Select(sorted).gainers && e in Select(sorted).losers
    ensures |sorted| >= 2 * TopN ==>
      Select(sorted).gainers + sorted[TopN..|sorted| - TopN] + Select(sorted).losers == sorted
  {
    var n := |sorted|;
    if 0 < n < 2 * TopN {
      var k := Min(TopN, n);
      assert sorted[n - k] in Select(sorted).gainers;
      assert sorted[n - k] in Select(sorted).losers;
    } else if n >= 2 * TopN {
      assert sorted == sorted[..TopN] + sorted[TopN..n - TopN] + sorted[n - TopN..];
    }
  }

  /** Both lists hold `min(3, n)` entries in descending order of change. */
  lemma MoversSorted(changes: seq<Change>)
    ensures |Movers(changes).gainers| == Min(TopN, |changes|)
    ensures |Movers(changes).losers| == Min(TopN, |changes|)
    ensures NonIncreasing(Movers(changes).gainers) && NonIncreasing(Movers(changes).losers)
  {
    var sorted := SortDesc(changes);
    SelectShape(sorted);
    SelectSorted(sorted);
  }

  /** The gainers are top entries: every entry of `changes` that is not a
      gainer has a change no larger than any gainer's. Dually, every entry
      that is not a loser has a change no smaller than any loser's. */
  lemma MoversAreExtremes(changes: seq<Change>)
    ensures multiset(Movers(changes).gainers) <= multiset(changes)
    ensures multiset(Movers(changes).losers) <= multiset(changes)
    ensures forall x, g ::
      (x in multiset(changes) - multiset(Movers(changes).gainers) && g in Movers(changes).gainers) ==> x.1 <= g.1
    ensures forall x, l ::
      (x in multiset(changes) - multiset(Movers(changes).losers) && l in Movers(changes).losers) ==> x.1 >= l.1
  {
    SelectTop(SortDesc(changes));
    SelectBottom(SortDesc(changes));
  }

  /** With at most three qualifying tickers the two lists are the same: all
      of the qualifying entries, in descending order. */
  lemma SmallBatchMovers(changes: seq<Change>)
    requires |changes| <= TopN
    ensures Movers(changes).gainers == Movers(changes).losers
    ensures multiset(Movers(changes).gainers) == multiset(changes)
  {
    var sorted := SortDesc(changes);
    SelectShape(sorted);
    assert sorted[..|sorted|] == sorted && sorted[0..] == sorted;
  }

  /** With fewer than six qualifying tickers some entry is both a gainer and
      a loser; with six or more no entry is counted in both lists. */
  lemma MoversOverlap(changes: seq<Change>)
    ensures 0 < |changes| < 2 * TopN ==>
      exists e :: e in Movers(changes).gainers && e in Movers(changes).losers
    ensures |changes| >= 2 * TopN ==>
      multiset(Movers(changes).gainers) + multiset(Movers(changes).losers) <= multiset(changes)
  {
    var sorted := SortDesc(changes);
    assert Movers(changes) == Select(sorted) && |sorted| == |changes|;
    SelectOverlap(sorted);
    if |changes| >= 2 * TopN {
      var g, l := Select(sorted).gainers, Select(sorted).losers;
      var mid := sorted[TopN..|sorted| - TopN];
      assert multiset(g + mid + l) == multiset(g) + multiset(mid) + multiset(l);
    }
  }

  /** No qualifying ticker: both lists are empty and nothing fails. */
  lemma NoMoversWhenNoChanges()
    ensures Movers([]) == TopMovers([], [])
  {
  }

  /** Two tickers, one up and one down: both lists hold both tickers, and the
      losers keep the descending order. */
  lemma TwoTickerMovers()
    ensures Movers([("A", 1.5), ("B", -2.0)]) == TopMovers([("A", 1.5), ("B", -2.0)], [("A", 1.5), ("B", -2.0)])
  {
    assert SortDesc([("A", 1.5), ("B", -2.0)]) == [("A", 1.5), ("B", -2.0)] by {
      assert [("A", 1.5), ("B", -2.0)][1..] == [("B", -2.0)];
    }
  }
}
