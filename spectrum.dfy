/** Spectrum selection: the two policies the lightpath controllers use to turn
    a list of candidate slot indices into a contiguous block (first fit and the
    run-based best gap), with the definitions they are specified against. */
module Spectrum {

  /** Ascending (non-decreasing) order, as Python's `sorted` produces. */
  predicate Ascending(s: seq<int>) {
    forall i, j :: 0 <= i < j < |s| ==> s[i] <= s[j]
  }

  /** Strictly ascending. */
  predicate Increasing(s: seq<int>) {
    forall i, j :: 0 <= i < j < |s| ==> s[i] < s[j]
  }

  /** Joining two ascending lists, the first below the second, gives an
      ascending list. */
  lemma IncreasingJoin(a: seq<int>, b: seq<int>)
    requires Increasing(a) && Increasing(b)
    requires forall x, y :: x in a && y in b ==> x < y
    ensures Increasing(a + b)
  {
    forall i, j | 0 <= i < j < |a + b| ensures (a + b)[i] < (a + b)[j] {
      if j < |a| {
        assert (a + b)[i] == a[i] && (a + b)[j] == a[j];
      } else if i >= |a| {
        assert (a + b)[i] == b[i - |a|] && (a + b)[j] == b[j - |a|];
      } else {
        assert (a + b)[i] == a[i] && a[i] in a;
        assert (a + b)[j] == b[j - |a|] && b[j - |a|] in b;
      }
    }
  }

  /** Every element is its predecessor plus one. */
  predicate Consecutive(s: seq<int>) {
    forall i :: 0 <= i < |s| - 1 ==> s[i] + 1 == s[i + 1]
  }

  /** Python's `list(range(lo, hi))`. */
  function Range(lo: int, hi: int): (r: seq<int>)
    ensures |r| == if lo < hi then hi - lo else 0
    ensures forall i :: 0 <= i < |r| ==> r[i] == lo + i
    decreases hi - lo
  {
    if lo >= hi then [] else [lo] + Range(lo + 1, hi)
  }

  /** The window test of first fit, `sorted(w) == list(range(min(w), max(w) + 1))`,
      written for a window taken from an ascending list, whose minimum and
      maximum are its two ends. */
  predicate IsRange(w: seq<int>)
    requires w != []
  {
    w == Range(w[0], w[|w| - 1] + 1)
  }

  /** On an ascending window the range test is exactly "consecutive integers". */
  lemma {:induction false} IsRangeIffConsecutive(w: seq<int>)
    requires w != [] && Ascending(w)
    ensures IsRange(w) <==> Consecutive(w)
  {
    var r := Range(w[0], w[|w| - 1] + 1);
    if Consecutive(w) {
      ConsecutiveAt(w);
      assert |r| == |w|;
      forall i | 0 <= i < |w| ensures w[i] == r[i] {
      }
    }
    if IsRange(w) {
      forall i | 0 <= i < |w| - 1 ensures w[i] + 1 == w[i + 1] {
        assert w[i] == r[i] && w[i + 1] == r[i + 1];
      }
    }
  }

  lemma {:induction false} ConsecutiveAt(w: seq<int>)
    requires Consecutive(w)
    ensures forall i :: 0 <= i < |w| ==> w[i] == w[0] + i
  {
    if |w| > 1 {
      assert Consecutive(w[..|w| - 1]);
      ConsecutiveAt(w[..|w| - 1]);
      assert w[|w| - 1] == w[|w| - 2] + 1;
    }
  }

  // ---------------------------------------------------------------------------
  // Sorting (Python's `sorted`)

  /** `x` placed into the ascending list `s` before the first element not below it. */
  function Insert(x: int, s: seq<int>): (r: seq<int>)
    requires Ascending(s)
    ensures Ascending(r) && multiset(r) == multiset(s) + multiset{x}
  {
    if s == [] then [x]
    else if x <= s[0] then [x] + s
    else
      var t := Insert(x, s[1..]);
      assert forall k :: 0 <= k < |t| ==> s[0] <= t[k] by {
        LowerBound(s[0], t, s[1..], x);
      }
      assert multiset([s[0]] + t) == multiset(s) + multiset{x} by {
        assert s == [s[0]] + s[1..];
      }
      [s[0]] + t
  }

  /** A bound below `x` and below every element of `s` bounds every element of
      a permutation of `s` plus `x`. */
  lemma LowerBound(m: int, t: seq<int>, s: seq<int>, x: int)
    requires multiset(t) == multiset(s) + multiset{x}
    requires m <= x && forall k :: 0 <= k < |s| ==> m <= s[k]
    ensures forall k :: 0 <= k < |t| ==> m <= t[k]
  {
    forall k | 0 <= k < |t| ensures m <= t[k] {
      assert t[k] in multiset(t);
      if t[k] != x {
        assert t[k] in multiset(s);
      }
    }
  }

  /** The ascending permutation of `s`. */
  function Sort(s: seq<int>): (r: seq<int>)
    ensures Ascending(r) && multiset(r) == multiset(s)
  {
    if s == [] then []
    else
      assert s == [s[0]] + s[1..];
      Insert(s[0], Sort(s[1..]))
  }

  /** Two ascending lists with the same elements start with the same element. */
  lemma HeadsMatch(a: seq<int>, b: seq<int>)
    requires Ascending(a) && Ascending(b) && multiset(a) == multiset(b) && a != []
    ensures b != [] && a[0] == b[0] && multiset(a[1..]) == multiset(b[1..])
  {
    assert a[0] in multiset(b);
    SameHead(a, b);
    assert multiset(a[1..]) == multiset(a) - multiset{a[0]} by {
      assert a == [a[0]] + a[1..];
    }
    assert multiset(b[1..]) == multiset(b) - multiset{b[0]} by {
      assert b == [b[0]] + b[1..];
    }
  }

  /** The smallest element of either list is the other's too. */
  lemma SameHead(a: seq<int>, b: seq<int>)
    requires Ascending(a) && Ascending(b) && multiset(a) == multiset(b) && a != [] && b != []
    ensures a[0] == b[0]
  {
    assert a[0] in multiset(b) && b[0] in multiset(a);
    var i :| 0 <= i < |b| && b[i] == a[0];
    var j :| 0 <= j < |a| && a[j] == b[0];
    assert b[0] <= b[i] && a[0] <= a[j];
  }

  /** Two ascending lists with the same elements are the same list. */
  lemma {:induction false} AscendingUnique(a: seq<int>, b: seq<int>)
    requires Ascending(a) && Ascending(b) && multiset(a) == multiset(b)
    ensures a == b
  {
    if a != [] {
      HeadsMatch(a, b);
      assert Ascending(a[1..]) && Ascending(b[1..]);
      AscendingUnique(a[1..], b[1..]);
      assert a == [a[0]] + a[1..] && b == [b[0]] + b[1..];
    } else {
      assert |b| == |multiset(b)| == 0;
    }
  }

  /** Sorting first makes the result independent of the input order. */
  lemma SortIgnoresOrder(a: seq<int>, b: seq<int>)
    requires multiset(a) == multiset(b)
    ensures Sort(a) == Sort(b)
  {
    AscendingUnique(Sort(a), Sort(b));
  }

  /** Sorting an ascending list leaves it as it is. */
  lemma SortAscending(s: seq<int>)
    requires Ascending(s)
    ensures Sort(s) == s
  {
    AscendingUnique(Sort(s), s);
  }

  // ---------------------------------------------------------------------------
  // First fit

  /** `s[k..k+n]` is a window of exactly `n` consecutive integers. */
  predicate FitsAt(n: int, s: seq<int>, k: int) {
    0 <= k && 0 <= n && k + n <= |s| && Consecutive(s[k..k + n])
  }

  /** The scan of `checkSlotsFirstFit` over the sorted list `s` from position
      `i`: the first window `s[i..i+n]` that is a range of consecutive integers,
      or `[]` once the remaining windows are shorter than `n`. */
  function FirstFitFrom(n: int, s: seq<int>, i: nat): (r: seq<int>)
    requires n >= 1 && Ascending(s) && i <= |s|
    decreases |s| - i
  {
    if i == |s| || i + n > |s| then []
    else if IsRange(s[i..i + n]) then s[i..i + n]
    else FirstFitFrom(n, s, i + 1)
  }

  /** The scan from `i` answers `[]` exactly when no window at or after `i`
      fits, and otherwise the earliest window that does. */
  lemma {:induction false} FirstFitFromSpec(n: int, s: seq<int>, i: nat)
    requires n >= 1 && Ascending(s) && i <= |s|
    ensures FirstFitFrom(n, s, i) == [] <==> forall k :: i <= k ==> !FitsAt(n, s, k)
    ensures FirstFitFrom(n, s, i) != [] ==>
              exists k :: i <= k && FitsAt(n, s, k) && FirstFitFrom(n, s, i) == s[k..k + n]
                && forall t :: i <= t < k ==> !FitsAt(n, s, t)
    decreases |s| - i
  {
    if i == |s| || i + n > |s| {
    } else {
      var w := s[i..i + n];
      assert IsRange(w) <==> FitsAt(n, s, i) by {
        assert Ascending(w);
        IsRangeIffConsecutive(w);
      }
      if IsRange(w) {
        assert FirstFitFrom(n, s, i) == s[i..i + n];
        assert FitsAt(n, s, i) && forall t :: i <= t < i ==> !FitsAt(n, s, t);
      } else {
        FirstFitFromSpec(n, s, i + 1);
        assert FirstFitFrom(n, s, i) == FirstFitFrom(n, s, i + 1);
        if FirstFitFrom(n, s, i) != [] {
          var k :| i + 1 <= k && FitsAt(n, s, k) && FirstFitFrom(n, s, i + 1) == s[k..k + n]
                   && forall t :: i + 1 <= t < k ==> !FitsAt(n, s, t);
          assert forall t :: i <= t < k ==> !FitsAt(n, s, t);
        }
      }
    }
  }

  /** `checkSlotsFirstFit(n, l)`: the earliest window of `sorted(l)` made of
      exactly `n` consecutive integers, or `[]` when there is none. */
  function FirstFit(n: int, l: seq<int>): (r: seq<int>)
    requires n >= 1
  {
    FirstFitFrom(n, Sort(l), 0)
  }

  /** Some window of `s` is `n` consecutive integers. */
  ghost predicate HasFit(n: int, s: seq<int>) {
    exists k :: FitsAt(n, s, k)
  }

  /** `r` is the earliest window of `s` made of `n` consecutive integers. */
  ghost predicate IsEarliestFit(n: int, s: seq<int>, r: seq<int>) {
    exists k :: FitsAt(n, s, k) && r == s[k..k + n] && forall t :: 0 <= t < k ==> !FitsAt(n, s, t)
  }

  /** What first fit promises: `[]` exactly when no window of `n` consecutive
      integers exists in `sorted(l)`; otherwise the earliest such window, which
      is exactly `n` consecutive integers. */
  lemma FirstFitSpec(n: int, l: seq<int>)
    requires n >= 1
    ensures FirstFit(n, l) == [] <==> !HasFit(n, Sort(l))
    ensures FirstFit(n, l) != [] ==> IsEarliestFit(n, Sort(l), FirstFit(n, l))
    ensures FirstFit(n, l) != [] ==> |FirstFit(n, l)| == n && Consecutive(FirstFit(n, l))
  {
    var s := Sort(l);
    assert FirstFit(n, l) == FirstFitFrom(n, s, 0);
    FirstFitFromSpec(n, s, 0);
    assert forall k :: k < 0 ==> !FitsAt(n, s, k);
  }

  /** First fit does not depend on the order of its input. */
  lemma FirstFitIgnoresOrder(n: int, a: seq<int>, b: seq<int>)
    requires n >= 1 && multiset(a) == multiset(b)
    ensures FirstFit(n, a) == FirstFit(n, b)
  {
    SortIgnoresOrder(a, b);
  }

  /** The loop of `checkSlotsFirstFit` as the controllers write it: sort, then
      slide a window of width `n` and return at the first range. */
  method CheckSlotsFirstFit(n: int, l: seq<int>) returns (r: seq<int>)
    requires n >= 1
    ensures r == FirstFit(n, l)
  {
    var s := Sort(l);
    for i := 0 to |s|
      invariant FirstFitFrom(n, s, 0) == FirstFitFrom(n, s, i)
    {
      if i + n > |s| {
        return [];
      }
      var w := s[i..i + n];
      if IsRange(w) {
        return w;
      }
    }
    return [];
  }

  // ---------------------------------------------------------------------------
  // Maximal runs of consecutive integers

  /** Length of the run of consecutive integers that `s` starts with. */
  function RunLen(s: seq<int>): (k: nat)
    requires s != []
    ensures 1 <= k <= |s|
    decreases |s|
  {
    if |s| == 1 || s[0] + 1 != s[1] then 1 else 1 + RunLen(s[1..])
  }

  /** `s[..k]` is a run that cannot be extended to the right. */
  predicate MaximalPrefix(s: seq<int>, k: int) {
    1 <= k <= |s| && Consecutive(s[..k]) && (k < |s| ==> s[k - 1] + 1 != s[k])
  }

  /** `RunLen` is the one length at which a prefix is a maximal run. */
  lemma {:induction false} RunLenIsMaximal(s: seq<int>, k: int)
    requires s != []
    ensures MaximalPrefix(s, k) <==> k == RunLen(s)
    decreases |s|
  {
    if |s| == 1 || s[0] + 1 != s[1] {
      if |s| > 1 && 1 < k <= |s| {
        assert !Consecutive(s[..k]) by {
          assert s[..k][0] == s[0] && s[..k][1] == s[1];
        }
      }
    } else {
      if 1 <= k <= |s| {
        assert k > 1 ==> (Consecutive(s[..k]) <==> Consecutive(s[1..][..k - 1])) by {
          if k > 1 {
            assert s[..k] == [s[0]] + s[1..][..k - 1];
          }
        }
        if k > 1 {
          assert k < |s| ==> s[k - 1] == s[1..][k - 2] && s[k] == s[1..][k - 1];
          assert MaximalPrefix(s, k) <==> MaximalPrefix(s[1..], k - 1);
        } else {
          assert s[..k] == [s[0]];
        }
      }
      RunLenIsMaximal(s[1..], k - 1);
    }
  }

  /** The maximal runs of consecutive integers `s` splits into, left to right. */
  function Runs(s: seq<int>): (rs: seq<seq<int>>)
    decreases |s|
  {
    if s == [] then [] else [s[..RunLen(s)]] + Runs(s[RunLen(s)..])
  }

  /** The runs laid end to end. */
  function Flatten(rs: seq<seq<int>>): (s: seq<int>) {
    if rs == [] then [] else rs[0] + Flatten(rs[1..])
  }

  lemma {:induction false} FlattenAppend(a: seq<seq<int>>, b: seq<seq<int>>)
    ensures Flatten(a + b) == Flatten(a) + Flatten(b)
  {
    if a != [] {
      assert (a + b)[0] == a[0] && (a + b)[1..] == a[1..] + b;
      FlattenAppend(a[1..], b);
    } else {
      assert a + b == b;
    }
  }

  /** `rs` cuts `s` into non-empty runs of consecutive integers, none of which
      could be joined to the next one. */
  ghost predicate IsRunSplit(s: seq<int>, rs: seq<seq<int>>) {
    && Flatten(rs) == s
    && (forall i :: 0 <= i < |rs| ==> rs[i] != [] && Consecutive(rs[i]))
    && (forall i :: 0 <= i < |rs| - 1 ==> rs[i][|rs[i]| - 1] + 1 != rs[i + 1][0])
  }

  /** `Runs` is such a cut ... */
  lemma {:induction false} RunsSplit(s: seq<int>)
    ensures IsRunSplit(s, Runs(s))
    decreases |s|
  {
    if s != [] {
      var k := RunLen(s);
      var rest := Runs(s[k..]);
      var rs := Runs(s);
      assert rs == [s[..k]] + rest;
      RunsSplit(s[k..]);
      assert Flatten(rs) == s by {
        assert rs[1..] == rest;
        assert s == s[..k] + s[k..];
      }
      assert MaximalPrefix(s, k) by {
        RunLenIsMaximal(s, k);
      }
      forall i | 0 <= i < |rs|
        ensures rs[i] != [] && Consecutive(rs[i])
      {
        if i > 0 {
          assert rs[i] == rest[i - 1];
        }
      }
      forall i | 0 <= i < |rs| - 1
        ensures rs[i][|rs[i]| - 1] + 1 != rs[i + 1][0]
      {
        if i > 0 {
          assert rs[i] == rest[i - 1] && rs[i + 1] == rest[i];
        } else {
          assert rest[0][0] == Flatten(rest)[0] == s[k];
        }
      }
    }
  }

  /** ... and the only one. */
  lemma {:induction false} RunsUnique(s: seq<int>, rs: seq<seq<int>>)
    requires IsRunSplit(s, rs)
    ensures rs == Runs(s)
    decreases |s|
  {
    if rs != [] {
      var k := |rs[0]|;
      assert s == rs[0] + Flatten(rs[1..]);
      assert s[..k] == rs[0] && s[k..] == Flatten(rs[1..]);
      if k < |s| {
        assert rs[1..] != [];
        assert rs[1] != [] && Flatten(rs[1..])[0] == rs[1][0];
        assert s[k - 1] + 1 != s[k];
      }
      assert MaximalPrefix(s, k);
      RunLenIsMaximal(s, k);
      assert IsRunSplit(s[k..], rs[1..]);
      RunsUnique(s[k..], rs[1..]);
    }
  }

  /** Every run is made of elements of the list it was cut from. */
  lemma RunsCover(s: seq<int>, g: seq<int>)
    requires g in Runs(s)
    ensures forall x :: x in g ==> x in s
  {
    RunsSplit(s);
    FlattenCover(Runs(s), g);
  }

  lemma {:induction false} FlattenCover(rs: seq<seq<int>>, g: seq<int>)
    requires g in rs
    ensures forall x :: x in g ==> x in Flatten(rs)
  {
    if rs[0] != g {
      FlattenCover(rs[1..], g);
    }
  }

  /** A run that cannot be joined to the end of `a` is the last run of `a + b`. */
  lemma RunsAppend(a: seq<int>, b: seq<int>)
    requires b != [] && Consecutive(b)
    requires a != [] ==> a[|a| - 1] + 1 != b[0]
    ensures Runs(a + b) == Runs(a) + [b]
  {
    RunsSplit(a);
    SplitAppend(a, Runs(a), b);
    RunsUnique(a + b, Runs(a) + [b]);
  }

  lemma SplitAppend(a: seq<int>, rs: seq<seq<int>>, b: seq<int>)
    requires IsRunSplit(a, rs)
    requires b != [] && Consecutive(b)
    requires a != [] ==> a[|a| - 1] + 1 != b[0]
    ensures IsRunSplit(a + b, rs + [b])
  {
    var qs := rs + [b];
    FlattenAppend(rs, [b]);
    assert Flatten([b]) == b + Flatten([]);
    assert Flatten(qs) == a + b;
    assert forall i :: 0 <= i < |qs| ==> qs[i] != [] && Consecutive(qs[i]) by {
      forall i | 0 <= i < |qs| ensures qs[i] != [] && Consecutive(qs[i]) {
        if i < |rs| { assert qs[i] == rs[i]; }
      }
    }
    if rs != [] {
      assert a[|a| - 1] == rs[|rs| - 1][|rs[|rs| - 1]| - 1] by {
        LastOfFlatten(rs);
      }
    }
    forall i | 0 <= i < |qs| - 1 ensures qs[i][|qs[i]| - 1] + 1 != qs[i + 1][0] {
      if i < |rs| - 1 {
        assert qs[i] == rs[i] && qs[i + 1] == rs[i + 1];
      } else {
        assert qs[i] == rs[|rs| - 1] && qs[i + 1] == b;
      }
    }
  }

  lemma {:induction false} LastOfFlatten(rs: seq<seq<int>>)
    requires rs != [] && rs[|rs| - 1] != []
    ensures var s := Flatten(rs); var r := rs[|rs| - 1]; s != [] && s[|s| - 1] == r[|r| - 1]
  {
    if |rs| > 1 {
      LastOfFlatten(rs[1..]);
    } else {
      assert Flatten(rs) == rs[0] + Flatten([]);
    }
  }

  // ---------------------------------------------------------------------------
  // Best gap

  /** The runs of `rs` that are at least `n` long, in their order. */
  function LongRuns(rs: seq<seq<int>>, n: int): (ls: seq<seq<int>>) {
    if rs == [] then [] else (if |rs[0]| >= n then [rs[0]] else []) + LongRuns(rs[1..], n)
  }

  /** The long runs are exactly the runs of `rs` that are at least `n` long. */
  lemma {:induction false} LongRunsMembers(rs: seq<seq<int>>, n: int)
    ensures forall r :: r in LongRuns(rs, n) <==> r in rs && |r| >= n
  {
    if rs != [] {
      LongRunsMembers(rs[1..], n);
      assert forall r :: r in rs <==> r == rs[0] || r in rs[1..];
    }
  }

  lemma {:induction false} LongRunsAppend(a: seq<seq<int>>, b: seq<seq<int>>, n: int)
    ensures LongRuns(a + b, n) == LongRuns(a, n) + LongRuns(b, n)
  {
    if a != [] {
      assert (a + b)[0] == a[0] && (a + b)[1..] == a[1..] + b;
      LongRunsAppend(a[1..], b, n);
    } else {
      assert a + b == b;
    }
  }

  /** The length of the shortest run of a non-empty list of runs. */
  function MinLen(rs: seq<seq<int>>): (m: nat)
    requires rs != []
    ensures forall r :: r in rs ==> m <= |r|
    ensures exists r :: r in rs && |r| == m
  {
    if |rs| == 1 then |rs[0]|
    else
      var m := MinLen(rs[1..]);
      assert forall r :: r in rs <==> r == rs[0] || r in rs[1..];
      if |rs[0]| <= m then |rs[0]| else m
  }

  /** The first run of length `m`, or `[]`. */
  function FirstOfLen(rs: seq<seq<int>>, m: int): (r: seq<int>) {
    if rs == [] then [] else if |rs[0]| == m then rs[0] else FirstOfLen(rs[1..], m)
  }

  /** `checkSlotsBestGap(n_slot, lista)`: among the maximal runs of consecutive
      integers in `lista` that are at least `n_slot` long, the first of the
      shortest ones, whole (it may be longer than `n_slot`); `[]` when no run is
      long enough. */
  function BestGap(nSlot: int, lista: seq<int>): seq<int> {
    var long := LongRuns(Runs(lista), nSlot);
    if long == [] then [] else FirstOfLen(long, MinLen(long))
  }

  /** `g` is the run at some position `i` of `rs`, and every earlier run that is
      long enough is strictly longer than `g`. */
  ghost predicate FirstOfShortest(rs: seq<seq<int>>, n: int, g: seq<int>) {
    exists i :: 0 <= i < |rs| && rs[i] == g && forall j :: 0 <= j < i && |rs[j]| >= n ==> |rs[j]| > |g|
  }

  lemma {:induction false} FirstOfLenFinds(rs: seq<seq<int>>, n: int, m: int)
    requires exists r :: r in rs && |r| >= n && |r| == m
    requires forall r :: r in rs && |r| >= n ==> m <= |r|
    ensures var g := FirstOfLen(LongRuns(rs, n), m);
            g in rs && |g| == m && FirstOfShortest(rs, n, g)
  {
    var g := FirstOfLen(LongRuns(rs, n), m);
    assert forall r :: r in rs <==> r == rs[0] || r in rs[1..];
    if |rs[0]| >= n && |rs[0]| == m {
      assert LongRuns(rs, n) == [rs[0]] + LongRuns(rs[1..], n);
      assert g == rs[0];
      assert FirstOfShortest(rs, n, g) by {
        assert rs[0] == g;
      }
    } else {
      var tail := LongRuns(rs[1..], n);
      if |rs[0]| >= n {
        assert LongRuns(rs, n) == [rs[0]] + tail;
        assert ([rs[0]] + tail)[1..] == tail;
      } else {
        assert LongRuns(rs, n) == tail;
      }
      assert g == FirstOfLen(tail, m);
      FirstOfLenFinds(rs[1..], n, m);
      var i :| 0 <= i < |rs[1..]| && rs[1..][i] == g
               && forall j :: 0 <= j < i && |rs[1..][j]| >= n ==> |rs[1..][j]| > |g|;
      assert rs[i + 1] == g;
      assert forall j :: 0 <= j < i + 1 && |rs[j]| >= n ==> |rs[j]| > |g| by {
        forall j | 0 <= j < i + 1 && |rs[j]| >= n ensures |rs[j]| > |g| {
          if j > 0 {
            assert rs[j] == rs[1..][j - 1];
          }
        }
      }
    }
  }

  /** What best gap promises: `[]` exactly when no maximal run of `lista` is
      `n_slot` long; otherwise a maximal run of `lista`, at least `n_slot` long,
      no longer than any other run that is, and the first of that length. */
  lemma BestGapSpec(nSlot: int, lista: seq<int>)
    ensures BestGap(nSlot, lista) == [] <==> forall r :: r in Runs(lista) ==> |r| < nSlot
    ensures var g := BestGap(nSlot, lista);
            g != [] ==>
              && g in Runs(lista) && |g| >= nSlot && Consecutive(g)
              && (forall r :: r in Runs(lista) && |r| >= nSlot ==> |g| <= |r|)
              && FirstOfShortest(Runs(lista), nSlot, g)
  {
    var rs := Runs(lista);
    RunsSplit(lista);
    LongRunsMembers(rs, nSlot);
    var long := LongRuns(rs, nSlot);
    if long != [] {
      var m := MinLen(long);
      FirstOfLenFinds(rs, nSlot, m);
    }
  }

  lemma ConsecutiveExtend(w: seq<int>, x: int)
    requires Consecutive(w) && (w != [] ==> w[|w| - 1] + 1 == x)
    ensures Consecutive(w + [x])
  {
    var v := w + [x];
    forall t | 0 <= t < |v| - 1 ensures v[t] + 1 == v[t + 1] {
      if t < |w| - 1 {
        assert v[t] == w[t] && v[t + 1] == w[t + 1];
      }
    }
  }

  /** Closing the run `lista[j..k]`, which starts where no run could be joined,
      adds it to the long runs of the prefix if it is long enough. */
  lemma ClosedRuns(lista: seq<int>, j: int, k: int, n: int)
    requires 0 <= j < k <= |lista|
    requires j == 0 || lista[j - 1] + 1 != lista[j]
    requires Consecutive(lista[j..k])
    ensures LongRuns(Runs(lista[..k]), n)
            == LongRuns(Runs(lista[..j]), n) + (if k - j >= n then [lista[j..k]] else [])
  {
    assert lista[..k] == lista[..j] + lista[j..k];
    RunsAppend(lista[..j], lista[j..k]);
    LongRunsAppend(Runs(lista[..j]), [lista[j..k]], n);
    assert LongRuns([lista[j..k]], n) == (if k - j >= n then [lista[j..k]] else []) + LongRuns([], n);
  }

  /** The state of the scan of `checkSlotsBestGap` before position `i`: the
      run that `i` belongs to starts at `j`, `sublist` holds the long runs that
      end before `j`, and `index` the part of the open run seen so far (the
      whole run once the last pair has been looked at). */
  ghost predicate ScanState(lista: seq<int>, n: int, i: int, j: int, index: seq<int>, sublist: seq<seq<int>>) {
    && 0 <= j <= i < |lista|
    && (j == 0 || lista[j - 1] + 1 != lista[j])
    && Consecutive(lista[j..i + 1])
    && sublist == LongRuns(Runs(lista[..j]), n)
    && index == if i == |lista| - 1 && j < i then lista[j..] else lista[j..i]
  }

  lemma SliceSnoc(s: seq<int>, a: int, b: int)
    requires 0 <= a <= b < |s|
    ensures s[a..b] + [s[b]] == s[a..b + 1]
  {
  }

  lemma ScanExtends(lista: seq<int>, n: int, i: int, j: int, index: seq<int>, sublist: seq<seq<int>>)
    requires ScanState(lista, n, i, j, index, sublist)
    requires i + 1 < |lista| && lista[i] + 1 == lista[i + 1]
    ensures ScanState(lista, n, i + 1, j,
                      index + [lista[i]] + (if i + 1 == |lista| - 1 then [lista[i + 1]] else []), sublist)
  {
    SliceSnoc(lista, j, i + 1);
    ConsecutiveExtend(lista[j..i + 1], lista[i + 1]);
    SliceSnoc(lista, j, i);
    if i + 1 == |lista| - 1 {
      assert lista[j..i + 2] == lista[j..];
    }
  }

  /** What the scan closes at a break is the run `lista[j..i + 1]` whenever
      either of them is long enough to keep. */
  lemma ClosedRun(lista: seq<int>, n: int, i: int, j: int, index: seq<int>, sublist: seq<seq<int>>, closed: seq<int>)
    requires n > 1 && ScanState(lista, n, i, j, index, sublist)
    requires i + 1 < |lista|
    requires closed == index + (if (if i == 0 then lista[|lista| - 1] else lista[i - 1]) == lista[i] - 1 then [lista[i]] else [])
    ensures (if |closed| >= n then [closed] else []) == (if i + 1 - j >= n then [lista[j..i + 1]] else [])
  {
    assert index == lista[j..i];
    if j < i {
      var run := lista[j..i + 1];
      assert lista[i - 1] + 1 == lista[i] by {
        assert run[i - 1 - j] + 1 == run[i - j];
      }
      SliceSnoc(lista, j, i);
    }
  }

  lemma ScanCloses(lista: seq<int>, n: int, i: int, j: int, index: seq<int>, sublist: seq<seq<int>>, closed: seq<int>)
    requires n > 1 && ScanState(lista, n, i, j, index, sublist)
    requires i + 1 < |lista| && lista[i] + 1 != lista[i + 1]
    requires closed == index + (if (if i == 0 then lista[|lista| - 1] else lista[i - 1]) == lista[i] - 1 then [lista[i]] else [])
    ensures ScanState(lista, n, i + 1, i + 1, [], sublist + (if |closed| >= n then [closed] else []))
  {
    var sublist' := sublist + (if |closed| >= n then [closed] else []);
    assert sublist' == LongRuns(Runs(lista[..i + 1]), n) by {
      ClosedRun(lista, n, i, j, index, sublist, closed);
      ClosedRuns(lista, j, i + 1, n);
    }
    ScanStarts(lista, n, i + 1, sublist');
  }

  /** A fresh run starts at a break, with nothing of it seen yet. */
  lemma ScanStarts(lista: seq<int>, n: int, k: int, sublist: seq<seq<int>>)
    requires 0 < k < |lista| && lista[k - 1] + 1 != lista[k]
    requires sublist == LongRuns(Runs(lista[..k]), n)
    ensures ScanState(lista, n, k, k, [], sublist)
  {
    assert Consecutive(lista[k..k + 1]);
    assert lista[k..k] == [];
  }

  lemma ScanEnds(lista: seq<int>, n: int, i: int, j: int, index: seq<int>, sublist: seq<seq<int>>)
    requires n > 1 && ScanState(lista, n, i, j, index, sublist)
    requires i == |lista| - 1
    ensures sublist + (if |index| >= n then [index] else []) == LongRuns(Runs(lista), n)
  {
    ClosedRuns(lista, j, |lista|, n);
    assert lista[..|lista|] == lista;
  }

  /** The scanning loop of `checkSlotsBestGap`: it collects, in order, the runs
      of at least `nSlot` consecutive integers. Python's `lista[i - 1]` reads the
      last element when `i` is 0; with `nSlot > 1` that only ever adds one
      element to a list that is then dropped. */
  method CollectRuns(nSlot: int, lista: seq<int>) returns (sublist: seq<seq<int>>)
    requires nSlot > 1
    ensures sublist == LongRuns(Runs(lista), nSlot)
  {
    var index: seq<int> := [];
    sublist := [];
    ghost var j := 0;  // where the run that position i belongs to starts
    for i := 0 to |lista|
      invariant i < |lista| ==> ScanState(lista, nSlot, i, j, index, sublist)
      invariant i == |lista| ==> sublist == LongRuns(Runs(lista), nSlot)
    {
      if i + 1 < |lista| {
        if lista[i] + 1 == lista[i + 1] {
          ScanExtends(lista, nSlot, i, j, index, sublist);
          ghost var extended := index + [lista[i]] + (if i + 1 == |lista| - 1 then [lista[i + 1]] else []);
          index := index + [lista[i]];
          if i + 1 == |lista| - 1 {
            index := index + [lista[i + 1]];
          }
          assert index == extended;
        } else {
          ghost var open := index;
          var previous := if i == 0 then lista[|lista| - 1] else lista[i - 1];
          if previous == lista[i] - 1 {
            index := index + [lista[i]];
          }
          ScanCloses(lista, nSlot, i, j, open, sublist, index);
          ghost var grown := sublist + (if |index| >= nSlot then [index] else []);
          if |index| >= nSlot {
            sublist := sublist + [index];
          }
          assert sublist == grown;
          index := [];
          j := i + 1;
        }
      } else {
        ScanEnds(lista, nSlot, i, j, index, sublist);
        if |index| >= nSlot {
          sublist := sublist + [index];
        }
      }
    }
  }

  /** The `while True` loop of `checkSlotsBestGap`: it raises `n_slot` one at a
      time until some collected run has exactly that length, so it stops at the
      shortest length and returns the first run of it. */
  method PickShortest(nSlot: int, sublist: seq<seq<int>>) returns (r: seq<int>)
    requires forall g :: g in sublist ==> |g| >= nSlot
    ensures r == if sublist == [] then [] else FirstOfLen(sublist, MinLen(sublist))
  {
    if sublist == [] {
      return [];
    }
    var n := nSlot;
    while true
      invariant n <= MinLen(sublist)
      decreases MinLen(sublist) - n
    {
      for k := 0 to |sublist|
        invariant forall t :: 0 <= t < k ==> |sublist[t]| != n
        invariant FirstOfLen(sublist, n) == FirstOfLen(sublist[k..], n)
      {
        if |sublist[k]| == n {
          return sublist[k];
        }
      }
      n := n + 1;
    }
  }

  /** `checkSlotsBestGap` as the controllers write it. */
  method CheckSlotsBestGap(nSlot: int, lista: seq<int>) returns (r: seq<int>)
    requires nSlot > 1
    ensures r == BestGap(nSlot, lista)
  {
    var sublist := CollectRuns(nSlot, lista);
    LongRunsMembers(Runs(lista), nSlot);
    r := PickShortest(nSlot, sublist);
  }

  // ---------------------------------------------------------------------------
  // The worked example

  /** The candidate list the repository uses to compare the two policies. */
  function SampleChannels(): seq<int> {
    [0, 2, 3, 4, 5, 7, 8, 9, 12, 20, 21, 22]
  }

  /** On the sample with three slots, first fit takes `[2, 3, 4]`. */
  lemma SampleAscending()
    ensures Ascending(SampleChannels())
  {
  }

  lemma ScanOnSample()
    ensures Ascending(SampleChannels()) && FirstFitFrom(3, SampleChannels(), 0) == [2, 3, 4]
  {
    var s := SampleChannels();
    SampleAscending();
    assert s[0..3] == [0, 2, 3];
    assert !IsRange(s[0..3]);
    assert s[1..4] == [2, 3, 4];
    assert IsRange(s[1..4]);
  }

  lemma FirstFitOnSample()
    ensures FirstFit(3, SampleChannels()) == [2, 3, 4]
  {
    ScanOnSample();
    SortAscending(SampleChannels());
  }

  /** On the sample with three slots, best gap takes the run `[7, 8, 9]`: the
      runs long enough are `[2..5]`, `[7..9]` and `[20..22]`, and the first of
      the shortest is `[7..9]`. */
  lemma BestGapOnSample()
    ensures BestGap(3, SampleChannels()) == [7, 8, 9]
  {
    var _ := SampleRuns();
    SampleLongRuns();
    SampleShortest();
  }

  /** The runs of the sample with at least three slots. */
  lemma SampleLongRuns()
    ensures LongRuns([[0], [2, 3, 4, 5], [7, 8, 9], [12], [20, 21, 22]], 3)
            == [[2, 3, 4, 5], [7, 8, 9], [20, 21, 22]]
  {
    var rs: seq<seq<int>> := [[0], [2, 3, 4, 5], [7, 8, 9], [12], [20, 21, 22]];
    assert |rs[1..][1..][1..][1..][1..]| == 0;
  }

  /** The first of the shortest of those runs. */
  lemma SampleShortest()
    ensures var long := [[2, 3, 4, 5], [7, 8, 9], [20, 21, 22]];
            MinLen(long) == 3 && FirstOfLen(long, 3) == [7, 8, 9]
  {
    var long: seq<seq<int>> := [[2, 3, 4, 5], [7, 8, 9], [20, 21, 22]];
    assert long[1..] == [[7, 8, 9], [20, 21, 22]];
    assert long[1..][1..] == [[20, 21, 22]];
  }

  /** The maximal runs of the sample. */
  lemma SampleRuns() returns (rs: seq<seq<int>>)
    ensures rs == [[0], [2, 3, 4, 5], [7, 8, 9], [12], [20, 21, 22]]
    ensures Runs(SampleChannels()) == rs
  {
    rs := [[0], [2, 3, 4, 5], [7, 8, 9], [12], [20, 21, 22]];
    var s := SampleChannels();
    assert Flatten(rs) == s by {
      assert |rs[1..][1..][1..][1..][1..]| == 0;
    }
    assert forall i :: 0 <= i < |rs| ==> rs[i] != [] && Consecutive(rs[i]);
    assert forall i :: 0 <= i < |rs| - 1 ==> rs[i][|rs[i]| - 1] + 1 != rs[i + 1][0];
    RunsUnique(s, rs);
  }
}
