/** The stand-alone spectrum helpers: first fit (the same function the
    controllers use) and a window-based best gap that keeps the window with the
    smallest spread among those of `n` consecutive integers. */
module WindowSlots {
  import opened Wrappers
  import opened Spectrum

  /** `max(w) - min(w)` of a window of an ascending list. */
  function Spread(w: seq<int>): int
    requires w != []
  {
    w[|w| - 1] - w[0]
  }

  /** The loop of the window-based `checkSlotsBestGap` over the sorted list `s`
      from position `i`, with `best` the window kept so far (`None` before the
      first one). A window replaces `best` only if its spread is strictly
      smaller; the scan stops at the first window shorter than `n`. */
  function WindowScan(n: int, s: seq<int>, i: nat, best: Option<seq<int>>): seq<int>
    requires n >= 1 && i <= |s|
    requires best.Some? ==> best.value != []
    decreases |s| - i
  {
    if i == |s| || i + n > |s| then
      (if best.Some? then best.value else [])
    else
      var w := s[i..i + n];
      if IsRange(w) && (best.None? || Spread(w) < Spread(best.value)) then
        WindowScan(n, s, i + 1, Some(w))
      else
        WindowScan(n, s, i + 1, best)
  }

  /** `checkSlotsBestGap(n, l)` of the stand-alone helpers. */
  function WindowBestGap(n: int, l: seq<int>): seq<int>
    requires n >= 1
  {
    WindowScan(n, Sort(l), 0, None)
  }

  /** Every window of `n` consecutive integers spreads over exactly `n - 1`. */
  lemma RangeSpread(w: seq<int>)
    requires w != [] && IsRange(w)
    ensures Spread(w) == |w| - 1
  {
  }

  /** Once a window of `n` consecutive integers is kept, no later window has a
      strictly smaller spread, so it is the answer. */
  lemma {:induction false} KeptWindowStays(n: int, s: seq<int>, i: nat, b: seq<int>)
    requires n >= 1 && i <= |s| && b != [] && |b| == n && IsRange(b)
    ensures WindowScan(n, s, i, Some(b)) == b
    decreases |s| - i
  {
    if i < |s| && i + n <= |s| {
      var w := s[i..i + n];
      if IsRange(w) {
        RangeSpread(w);
        RangeSpread(b);
      }
      KeptWindowStays(n, s, i + 1, b);
    }
  }

  /** Before any window is kept, the scan finds what first fit finds. */
  lemma {:induction false} ScanMatchesFirstFit(n: int, s: seq<int>, i: nat)
    requires n >= 1 && Ascending(s) && i <= |s|
    ensures WindowScan(n, s, i, None) == FirstFitFrom(n, s, i)
    decreases |s| - i
  {
    if i < |s| && i + n <= |s| {
      var w := s[i..i + n];
      if IsRange(w) {
        KeptWindowStays(n, s, i + 1, w);
      } else {
        ScanMatchesFirstFit(n, s, i + 1);
      }
    }
  }

  /** The window-based best gap always agrees with first fit: every window of
      `n` consecutive integers has the same spread, so the strict comparison
      never replaces the first one found. */
  lemma WindowBestGapIsFirstFit(n: int, l: seq<int>)
    requires n >= 1
    ensures WindowBestGap(n, l) == FirstFit(n, l)
  {
    ScanMatchesFirstFit(n, Sort(l), 0);
  }

  /** Both helpers sort first, so neither depends on the order of its input. */
  lemma WindowBestGapIgnoresOrder(n: int, a: seq<int>, b: seq<int>)
    requires n >= 1 && multiset(a) == multiset(b)
    ensures WindowBestGap(n, a) == WindowBestGap(n, b)
  {
    SortIgnoresOrder(a, b);
  }

  /** On the sample list with three slots both helpers return `[2, 3, 4]`. */
  lemma HelpersOnSample()
    ensures FirstFit(3, SampleChannels()) == [2, 3, 4]
    ensures WindowBestGap(3, SampleChannels()) == [2, 3, 4]
  {
    FirstFitOnSample();
    WindowBestGapIsFirstFit(3, SampleChannels());
  }
}
