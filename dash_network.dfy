/** The network of the Dash front ends: an undirected graph of five nodes and
    six links with ten slots per link (`true` is free). A request takes the
    lowest free slots of the first link of its path that has enough of them,
    and on that link only; a release frees the given slots on every link of a
    path. */
module DashNetwork {
  import opened Wrappers
  import opened Spectrum

  /** The links of `_create_network`, each with its lower endpoint first. */
  const Links: seq<(int, int)> := [(1, 2), (1, 3), (2, 4), (3, 4), (3, 5), (4, 5)]
  /** Slots per link. */
  const SlotsPerLink := 10

  /** `graph[u][v]` and `graph[v][u]` are the same link: the key of a link is
      its endpoints in ascending order, as `Links` lists them. */
  function Key(u: int, v: int): (k: (int, int))
    ensures k.0 <= k.1 && {k.0, k.1} == {u, v}
  {
    if u <= v then (u, v) else (v, u)
  }

  /** The slot list every link starts with. */
  function AllFree(): seq<bool> {
    seq(SlotsPerLink, _ => true)
  }

  // ---------------------------------------------------------------------------
  // Slot lists

  /** The indices below `k` of the free slots of `row`, ascending. */
  function FreeBelow(row: seq<bool>, k: nat): seq<int>
    requires k <= |row|
  {
    if k == 0 then [] else FreeBelow(row, k - 1) + (if row[k - 1] then [k - 1] else [])
  }

  /** `[i for i, slot in enumerate(slots) if slot]`. */
  function FreeIndices(row: seq<bool>): seq<int> {
    FreeBelow(row, |row|)
  }

  /** The free indices are listed once each, ascending. */
  lemma {:induction false} FreeBelowSpec(row: seq<bool>, k: nat)
    requires k <= |row|
    ensures Increasing(FreeBelow(row, k))
    ensures forall x :: x in FreeBelow(row, k) <==> 0 <= x < k && row[x]
  {
    if k > 0 {
      FreeBelowSpec(row, k - 1);
      IncreasingJoin(FreeBelow(row, k - 1), if row[k - 1] then [k - 1] else []);
    }
  }

  /** Python's slice `s[:n]`: the first `n` elements, all of them when there
      are fewer, and for a negative `n` all but the last `-n`. */
  function Take(s: seq<int>, n: int): seq<int> {
    if n >= 0 then s[..if n <= |s| then n else |s|]
    else s[..if |s| + n >= 0 then |s| + n else 0]
  }

  /** The slice has exactly `n` elements exactly when `0 <= n <= |s|`, and
      holds only elements of `s`. */
  lemma TakeLength(s: seq<int>, n: int)
    ensures |Take(s, n)| == n <==> 0 <= n <= |s|
    ensures forall x :: x in Take(s, n) ==> x in s
  {
    var m := if n >= 0 then (if n <= |s| then n else |s|) else (if |s| + n >= 0 then |s| + n else 0);
    assert Take(s, n) == s[..m];
    forall x | x in s[..m] ensures x in s {
      var j :| 0 <= j < m && s[..m][j] == x;
      assert s[j] == x;
    }
  }

  /** `row` with every index in `idx` set to `v`. */
  function Mark(row: seq<bool>, idx: seq<int>, v: bool): (r: seq<bool>)
    ensures |r| == |row|
  {
    seq(|row|, p requires 0 <= p < |row| => if p in idx then v else row[p])
  }

  /** Setting no index changes nothing. */
  lemma MarkNone(row: seq<bool>, idx: seq<int>, v: bool)
    ensures Mark(row, idx[..0], v) == row
  {
    assert forall p :: 0 <= p < |row| ==> Mark(row, idx[..0], v)[p] == row[p];
  }

  /** Setting one more index is one more single-element update. */
  lemma MarkSnoc(row: seq<bool>, idx: seq<int>, t: nat, v: bool)
    requires t < |idx| && 0 <= idx[t] < |row|
    ensures Mark(row, idx[..t + 1], v) == Mark(row, idx[..t], v)[idx[t] := v]
  {
    assert idx[..t + 1] == idx[..t] + [idx[t]];
  }

  /** Setting the same indices twice to the same value changes nothing more. */
  lemma MarkTwice(row: seq<bool>, idx: seq<int>, v: bool)
    ensures Mark(Mark(row, idx, v), idx, v) == Mark(row, idx, v)
  {
  }

  /** Taking free slots and then freeing them restores the list. */
  lemma MarkRestores(row: seq<bool>, idx: seq<int>)
    requires forall s :: s in idx ==> 0 <= s < |row| && row[s]
    ensures Mark(Mark(row, idx, false), idx, true) == row
  {
  }

  // ---------------------------------------------------------------------------
  // Links of a path

  /** The link of hop `j` of `path`. */
  function Hop(path: seq<int>, j: int): (int, int)
    requires 0 <= j < |path| - 1
  {
    Key(path[j], path[j + 1])
  }

  /** Every two consecutive nodes of `path` are joined by a link of `m`
      (`graph[u][v]` raises otherwise). */
  predicate Joined(m: map<(int, int), seq<bool>>, path: seq<int>) {
    forall j :: 0 <= j < |path| - 1 ==> Hop(path, j) in m
  }

  /** The links of the first `i` hops of `path`. */
  function HopLinks(path: seq<int>, i: nat): set<(int, int)>
    requires i < |path| || i == 0
  {
    set j | 0 <= j < i :: Hop(path, j)
  }

  /** The links of every hop of `path`. */
  function PathLinks(path: seq<int>): set<(int, int)> {
    if |path| < 2 then {} else HopLinks(path, |path| - 1)
  }

  /** The first hop from `i` on whose link has `n` free slots, if any. */
  function FirstRoomy(m: map<(int, int), seq<bool>>, path: seq<int>, n: int, i: nat): (r: Option<nat>)
    requires Joined(m, path)
    ensures r.Some? ==> i <= r.value < |path| - 1
    decreases |path| - i
  {
    if i + 1 >= |path| then None
    else if |Take(FreeIndices(m[Hop(path, i)]), n)| == n then Some(i)
    else FirstRoomy(m, path, n, i + 1)
  }

  /** The hop found is the first with `n` free slots: `None` exactly when no
      hop from `i` on has them (or `n` is negative). */
  lemma {:induction false} FirstRoomySpec(m: map<(int, int), seq<bool>>, path: seq<int>, n: int, i: nat)
    requires Joined(m, path)
    ensures var r := FirstRoomy(m, path, n, i);
            && (r.None? <==>
                  n < 0 || forall j :: i <= j < |path| - 1 ==> |FreeIndices(m[Hop(path, j)])| < n)
            && (r.Some? ==>
                  && 0 <= n <= |FreeIndices(m[Hop(path, r.value)])|
                  && forall j :: i <= j < r.value ==> |FreeIndices(m[Hop(path, j)])| < n)
    decreases |path| - i
  {
    if i + 1 < |path| {
      TakeLength(FreeIndices(m[Hop(path, i)]), n);
      FirstRoomySpec(m, path, n, i + 1);
    }
  }

  /** `m` with the slots `ss` freed on every link of `links`. */
  function FreeOn(m: map<(int, int), seq<bool>>, links: set<(int, int)>, ss: seq<int>): (r: map<(int, int), seq<bool>>)
    ensures r.Keys == m.Keys
  {
    map k | k in m :: if k in links then Mark(m[k], ss, true) else m[k]
  }

  /** Releasing twice is releasing once. */
  lemma FreeOnTwice(m: map<(int, int), seq<bool>>, links: set<(int, int)>, ss: seq<int>)
    ensures FreeOn(FreeOn(m, links, ss), links, ss) == FreeOn(m, links, ss)
  {
    forall k | k in m && k in links
      ensures Mark(Mark(m[k], ss, true), ss, true) == Mark(m[k], ss, true)
    {
      MarkTwice(m[k], ss, true);
    }
  }

  /** Freeing the slots one more link: unchanged if the link was already
      covered, since freeing is idempotent. */
  lemma FreeOnStep(m: map<(int, int), seq<bool>>, links: set<(int, int)>, k: (int, int), ss: seq<int>)
    requires k in m
    ensures FreeOn(m, links + {k}, ss) == FreeOn(m, links, ss)[k := Mark(FreeOn(m, links, ss)[k], ss, true)]
  {
    if k in links {
      MarkTwice(m[k], ss, true);
    }
  }

  /** After a request took `idx` on link `k` and nothing else, releasing them
      on a path that crosses `k` restores link `k`. */
  lemma AllocateThenRelease(m: map<(int, int), seq<bool>>, k: (int, int), idx: seq<int>, links: set<(int, int)>)
    requires k in m && k in links
    requires forall s :: s in idx ==> 0 <= s < |m[k]| && m[k][s]
    ensures FreeOn(m[k := Mark(m[k], idx, false)], links, idx)[k] == m[k]
  {
    MarkRestores(m[k], idx);
  }

  // ---------------------------------------------------------------------------
  // The network

  class Network {
    /** `graph[u][v]['slots']` for every link. */
    var slots: map<(int, int), seq<bool>>

    /** Exactly the six links, each with ten slots. */
    ghost predicate Valid()
      reads this
    {
      && slots.Keys == set l | l in Links
      && forall k :: k in slots ==> |slots[k]| == SlotsPerLink
    }

    /** `_create_network`: every link gets ten free slots. */
    constructor ()
      ensures Valid()
      ensures forall k :: k in slots ==> slots[k] == AllFree()
    {
      slots := map l | l in Links :: AllFree();
    }

    /** `allocate_slots(path, num_slots)`: walk the hops of `path`; on the
        first link with at least `num_slots` free slots, take the lowest
        `num_slots` of them and return their indices; return `None`, with
        nothing changed, when no link qualifies. */
    method AllocateSlots(path: seq<int>, numSlots: int) returns (r: Option<seq<int>>)
      requires Valid() && Joined(slots, path)
      modifies this
      ensures Valid()
      ensures var f := FirstRoomy(old(slots), path, numSlots, 0);
              && (f.None? ==> r.None? && slots == old(slots))
              && (f.Some? ==> r == Some(Take(FreeIndices(old(slots)[Hop(path, f.value)]), numSlots)))
              && (f.Some? ==> slots == old(slots)[Hop(path, f.value) := Mark(old(slots)[Hop(path, f.value)], r.value, false)])
    {
      var found := FindRoomy(path, numSlots);
      if found.None? {
        return None;
      }
      var taken := TakeLowest(Hop(path, found.value), numSlots);
      r := Some(taken);
    }

    /** The search of `allocate_slots`: the first hop of `path` whose link
        has `n` free slots. */
    method FindRoomy(path: seq<int>, n: int) returns (found: Option<nat>)
      requires Joined(slots, path)
      ensures found == FirstRoomy(slots, path, n, 0)
    {
      var i := 0;
      while i + 1 < |path|
        invariant 0 <= i && (i < |path| || i == 0)
        invariant FirstRoomy(slots, path, n, i) == FirstRoomy(slots, path, n, 0)
        decreases |path| - i
      {
        if |Take(FreeIndices(slots[Hop(path, i)]), n)| == n {
          return Some(i);
        }
        i := i + 1;
      }
      return None;
    }

    /** The body of the hit in `allocate_slots`: take the lowest `n` free
        slots of link `k` (all of them when fewer are free). */
    method TakeLowest(k: (int, int), n: int) returns (taken: seq<int>)
      requires Valid() && k in slots
      modifies this
      ensures Valid()
      ensures taken == Take(FreeIndices(old(slots)[k]), n)
      ensures slots == old(slots)[k := Mark(old(slots)[k], taken, false)]
    {
      taken := Take(FreeIndices(slots[k]), n);
      assert forall s :: s in taken ==> 0 <= s < SlotsPerLink by {
        FreeBelowSpec(slots[k], |slots[k]|);
        TakeLength(FreeIndices(slots[k]), n);
      }
      SetSlots(k, taken, false);
    }

    /** `release_slots(path, slots)`: free the slots `ss` on every link of
        `path`, changing nothing else. */
    method ReleaseSlots(path: seq<int>, ss: seq<int>)
      requires Valid() && Joined(slots, path)
      requires forall s :: s in ss ==> 0 <= s < SlotsPerLink
      modifies this
      ensures Valid()
      ensures slots == FreeOn(old(slots), PathLinks(path), ss)
    {
      assert FreeOn(slots, {}, ss) == slots;
      var i := 0;
      while i + 1 < |path|
        invariant 0 <= i && (i < |path| || i == 0)
        invariant Valid()
        invariant slots == FreeOn(old(slots), HopLinks(path, i), ss)
        decreases |path| - i
      {
        var k := Hop(path, i);
        SetSlots(k, ss, true);
        FreeOnStep(old(slots), HopLinks(path, i), k, ss);
        assert HopLinks(path, i + 1) == HopLinks(path, i) + {k};
        i := i + 1;
      }
    }

    /** The innermost loop of both: `slots[s] = v` on link `k` for every `s`
        of `idx`. */
    method SetSlots(k: (int, int), idx: seq<int>, v: bool)
      requires Valid() && k in slots
      requires forall s :: s in idx ==> 0 <= s < SlotsPerLink
      modifies this
      ensures Valid()
      ensures slots == old(slots)[k := Mark(old(slots)[k], idx, v)]
    {
      MarkNone(slots[k], idx, v);
      assert slots[k := slots[k]] == slots;
      var t := 0;
      while t < |idx|
        invariant 0 <= t <= |idx|
        invariant slots == old(slots)[k := Mark(old(slots)[k], idx[..t], v)]
      {
        assert idx[t] in idx;
        MarkSnoc(old(slots)[k], idx, t, v);
        slots := slots[k := slots[k][idx[t] := v]];
        t := t + 1;
      }
      assert idx[..t] == idx;
    }
  }
}
