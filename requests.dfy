/** Lightpath requests and the bookkeeping over lists of them that the
    controller's invariants are stated with. */
module Requests {

  /** A spectrum slot of the network: (fiber index, slot index). */
  type Slot = (int, int)

  /** `LightPathRequest`: who asks, when, for how long and for how many slots;
      `slotUsed` is filled in when the request is admitted. */
  datatype Request = Request(id: int, src: int, dst: int, time: real, duration: real,
                             nslots: int, slotUsed: seq<Slot>)

  /** `fim`: the time the request's holding period ends. */
  function End(p: Request): real {
    p.time + p.duration
  }

  /** The slots a request holds. */
  function Held(p: Request): set<Slot> {
    set x | x in p.slotUsed
  }

  /** The slots held by the requests of `s`, together. */
  function Busy(s: seq<Request>): (b: set<Slot>)
    ensures forall i :: 0 <= i < |s| ==> Held(s[i]) <= b
  {
    if s == [] then {} else Held(s[0]) + Busy(s[1..])
  }

  /** No two requests of `s` hold the same slot. */
  predicate Disjoint(s: seq<Request>) {
    s == [] || (Held(s[0]) !! Busy(s[1..]) && Disjoint(s[1..]))
  }

  /** How many requests of `s` start at node `n`. */
  function CountSrc(s: seq<Request>, n: int): (c: nat)
    ensures c <= |s|
  {
    if s == [] then 0 else (if s[0].src == n then 1 else 0) + CountSrc(s[1..], n)
  }

  /** How many requests of `s` end at node `n`. */
  function CountDst(s: seq<Request>, n: int): (c: nat)
    ensures c <= |s|
  {
    if s == [] then 0 else (if s[0].dst == n then 1 else 0) + CountDst(s[1..], n)
  }

  lemma {:induction false} BusyAppend(a: seq<Request>, b: seq<Request>)
    ensures Busy(a + b) == Busy(a) + Busy(b)
  {
    if a != [] {
      assert (a + b)[0] == a[0] && (a + b)[1..] == a[1..] + b;
      BusyAppend(a[1..], b);
    } else {
      assert a + b == b;
    }
  }

  lemma {:induction false} CountAppend(a: seq<Request>, b: seq<Request>, n: int)
    ensures CountSrc(a + b, n) == CountSrc(a, n) + CountSrc(b, n)
    ensures CountDst(a + b, n) == CountDst(a, n) + CountDst(b, n)
  {
    if a != [] {
      assert (a + b)[0] == a[0] && (a + b)[1..] == a[1..] + b;
      CountAppend(a[1..], b, n);
    } else {
      assert a + b == b;
    }
  }

  /** Appending one request adds its slots and counts it once. */
  lemma AppendOne(s: seq<Request>, p: Request)
    ensures Busy(s + [p]) == Busy(s) + Held(p)
    ensures forall n :: CountSrc(s + [p], n) == CountSrc(s, n) + (if p.src == n then 1 else 0)
    ensures forall n :: CountDst(s + [p], n) == CountDst(s, n) + (if p.dst == n then 1 else 0)
  {
    BusyAppend(s, [p]);
    assert Busy([p]) == Held(p) + Busy([]);
    forall n
      ensures CountSrc(s + [p], n) == CountSrc(s, n) + (if p.src == n then 1 else 0)
      ensures CountDst(s + [p], n) == CountDst(s, n) + (if p.dst == n then 1 else 0)
    {
      CountAppend(s, [p], n);
      assert [p][1..] == [];
    }
  }

  /** Adding a request whose slots nobody holds keeps the list disjoint. */
  lemma {:induction false} DisjointAppend(s: seq<Request>, p: Request)
    requires Disjoint(s) && Held(p) !! Busy(s)
    ensures Disjoint(s + [p])
  {
    if s != [] {
      assert (s + [p])[0] == s[0] && (s + [p])[1..] == s[1..] + [p];
      DisjointAppend(s[1..], p);
      BusyAppend(s[1..], [p]);
      assert Busy([p]) == Held(p) + Busy([]);
    } else {
      assert Busy([]) == {};
      assert [p][1..] == [];
    }
  }

  /** Taking request `p` out of the middle of a list gives back its slots
      and its two counts, and leaves the rest disjoint. */
  lemma RemoveOne(a: seq<Request>, p: Request, b: seq<Request>)
    requires Disjoint(a + [p] + b)
    ensures Disjoint(a + b)
    ensures Busy(a + [p] + b) == Busy(a + b) + Held(p) && Held(p) !! Busy(a + b)
    ensures forall n :: CountSrc(a + [p] + b, n) == CountSrc(a + b, n) + (if p.src == n then 1 else 0)
    ensures forall n :: CountDst(a + [p] + b, n) == CountDst(a + b, n) + (if p.dst == n then 1 else 0)
  {
    assert a + [p] + b == a + ([p] + b);
    DisjointSplit(a, [p] + b);
    BusyAppend(a, [p] + b);
    BusyAppend(a, b);
    assert ([p] + b)[0] == p && ([p] + b)[1..] == b;
    DisjointJoin(a, b);
    forall n
      ensures CountSrc(a + [p] + b, n) == CountSrc(a + b, n) + (if p.src == n then 1 else 0)
      ensures CountDst(a + [p] + b, n) == CountDst(a + b, n) + (if p.dst == n then 1 else 0)
    {
      CountAppend(a, [p] + b, n);
      CountAppend(a, b, n);
    }
  }

  /** A disjoint list splits into two disjoint halves that share no slot. */
  lemma {:induction false} DisjointSplit(a: seq<Request>, b: seq<Request>)
    requires Disjoint(a + b)
    ensures Disjoint(a) && Disjoint(b) && Busy(a) !! Busy(b)
  {
    if a == [] {
      assert a + b == b;
    } else {
      assert (a + b)[0] == a[0] && (a + b)[1..] == a[1..] + b;
      DisjointSplit(a[1..], b);
      BusyAppend(a[1..], b);
    }
  }

  /** Two disjoint lists that share no slot join into a disjoint list. */
  lemma {:induction false} DisjointJoin(a: seq<Request>, b: seq<Request>)
    requires Disjoint(a) && Disjoint(b) && Busy(a) !! Busy(b)
    ensures Disjoint(a + b)
  {
    if a == [] {
      assert a + b == b;
    } else {
      assert (a + b)[0] == a[0] && (a + b)[1..] == a[1..] + b;
      DisjointJoin(a[1..], b);
      BusyAppend(a[1..], b);
    }
  }

  // ---------------------------------------------------------------------------
  // The sweep of `remove(now)`

  /** `remove(now)` walks the list it deletes from: after deleting the request
      at position `i` the next one moves into position `i` and the walk goes on
      at `i + 1`, so the request right after a deleted one is kept without being
      looked at. `Kept` is what stays in the list after one walk. */
  function Kept(s: seq<Request>, now: real): seq<Request> {
    if s == [] then []
    else if End(s[0]) < now then (if |s| == 1 then [] else [s[1]] + Kept(s[2..], now))
    else [s[0]] + Kept(s[1..], now)
  }

  /** The requests one walk of `remove(now)` deletes, in order. */
  function Released(s: seq<Request>, now: real): seq<Request> {
    if s == [] then []
    else if End(s[0]) < now then [s[0]] + (if |s| == 1 then [] else Released(s[2..], now))
    else Released(s[1..], now)
  }

  /** A walk splits the list: every request is kept or released, never both and
      never twice. */
  lemma {:induction false} SweepSplits(s: seq<Request>, now: real)
    ensures multiset(Kept(s, now)) + multiset(Released(s, now)) == multiset(s)
    decreases |s|, 1
  {
    if s == [] {
    } else if End(s[0]) < now && |s| == 1 {
      assert s == [s[0]];
    } else if End(s[0]) < now {
      SkipStep(s, now);
    } else {
      KeepStep(s, now);
    }
  }

  lemma {:induction false} SkipStep(s: seq<Request>, now: real)
    requires |s| > 1 && End(s[0]) < now
    ensures multiset(Kept(s, now)) + multiset(Released(s, now)) == multiset(s)
    decreases |s|, 0
  {
    SweepSplits(s[2..], now);
    assert Kept(s, now) == [s[1]] + Kept(s[2..], now);
    assert Released(s, now) == [s[0]] + Released(s[2..], now);
    assert s == [s[0]] + [s[1]] + s[2..];
  }

  lemma {:induction false} KeepStep(s: seq<Request>, now: real)
    requires |s| > 0 && now <= End(s[0])
    ensures multiset(Kept(s, now)) + multiset(Released(s, now)) == multiset(s)
    decreases |s|, 0
  {
    SweepSplits(s[1..], now);
    assert Kept(s, now) == [s[0]] + Kept(s[1..], now);
    assert Released(s, now) == Released(s[1..], now);
    assert s == [s[0]] + s[1..];
  }

  /** Only requests that ended strictly before `now` are released, so every
      request that has not ended is kept. */
  lemma SweepReleasesExpired(s: seq<Request>, now: real)
    ensures forall p :: p in Released(s, now) ==> End(p) < now
    ensures forall p :: p in s && now <= End(p) ==> p in Kept(s, now)
  {
    ReleasedExpired(s, now);
    SweepSplits(s, now);
    forall p | p in s && now <= End(p)
      ensures p in Kept(s, now)
    {
      assert p in multiset(s);
      assert p !in Released(s, now);
    }
  }

  lemma {:induction false} ReleasedExpired(s: seq<Request>, now: real)
    ensures forall p :: p in Released(s, now) ==> End(p) < now
  {
    if s != [] {
      if End(s[0]) < now {
        if |s| > 1 {
          ReleasedExpired(s[2..], now);
        }
      } else {
        ReleasedExpired(s[1..], now);
      }
    }
  }

  /** The counters a walk gives back add up with those it keeps. */
  lemma {:induction false} SweepCounts(s: seq<Request>, now: real, n: int)
    ensures CountSrc(Kept(s, now), n) + CountSrc(Released(s, now), n) == CountSrc(s, n)
    ensures CountDst(Kept(s, now), n) + CountDst(Released(s, now), n) == CountDst(s, n)
  {
    if s != [] {
      if End(s[0]) < now {
        if |s| > 1 {
          SweepCounts(s[2..], now, n);
          assert s[1..][1..] == s[2..];
          assert ([s[1]] + Kept(s[2..], now))[1..] == Kept(s[2..], now);
          assert ([s[0]] + Released(s[2..], now))[1..] == Released(s[2..], now);
        }
      } else {
        SweepCounts(s[1..], now, n);
        assert ([s[0]] + Kept(s[1..], now))[1..] == Kept(s[1..], now);
      }
    }
  }

  /** With no slot held twice, the slots a walk frees are exactly the held slots
      that no kept request holds. */
  lemma {:induction false} SweepBusy(s: seq<Request>, now: real)
    requires Disjoint(s)
    ensures Busy(Kept(s, now)) + Busy(Released(s, now)) == Busy(s)
    ensures Busy(Kept(s, now)) !! Busy(Released(s, now))
    ensures Disjoint(Kept(s, now))
  {
    if s != [] && End(s[0]) < now && |s| > 1 {
      var k2, r2 := Kept(s[2..], now), Released(s[2..], now);
      SweepBusy(s[2..], now);
      assert s[1..] == [s[1]] + s[2..];
      BusyCons(s[0], s[1..]);
      BusyCons(s[1], s[2..]);
      BusyCons(s[1], k2);
      BusyCons(s[0], r2);
    } else if s != [] && End(s[0]) < now {
      assert s == [s[0]] + [];
      BusyCons(s[0], []);
    } else if s != [] {
      SweepBusy(s[1..], now);
      assert s == [s[0]] + s[1..];
      BusyCons(s[0], s[1..]);
      BusyCons(s[0], Kept(s[1..], now));
    }
  }

  /** The slots of a list are those of its head and of its tail; it is
      disjoint when its tail is and the head shares no slot with the tail. */
  lemma BusyCons(p: Request, s: seq<Request>)
    ensures Busy([p] + s) == Held(p) + Busy(s)
    ensures Disjoint([p] + s) <==> Held(p) !! Busy(s) && Disjoint(s)
  {
    assert ([p] + s)[0] == p && ([p] + s)[1..] == s;
  }

  /** The walk has gone through `s[..q]` keeping `kept`: what it keeps in
      the end is `kept` followed by what the walk of `s[q..]` keeps. */
  ghost predicate Walked(s: seq<Request>, now: real, q: nat, kept: seq<Request>) {
    q <= |s| && Kept(s, now) == kept + Kept(s[q..], now)
  }

  /** A step of the walk on a request that has not ended: it is kept and the
      walk moves on to the next one. */
  lemma WalkKeeps(s: seq<Request>, now: real, q: nat, kept: seq<Request>)
    requires Walked(s, now, q, kept) && q < |s| && now <= End(s[q])
    ensures Walked(s, now, q + 1, kept + [s[q]])
    ensures kept + s[q..] == (kept + [s[q]]) + s[q + 1..]
  {
    assert s[q..] == [s[q]] + s[q + 1..];
    assert Kept(s[q..], now) == [s[q]] + Kept(s[q + 1..], now);
  }

  /** A step of the walk on an expired request: it is released and the one
      after it, if any, is kept unseen. */
  lemma WalkDrops(s: seq<Request>, now: real, q: nat, kept: seq<Request>)
    requires Walked(s, now, q, kept) && q < |s| && End(s[q]) < now
    ensures q + 1 < |s| ==> Walked(s, now, q + 2, kept + [s[q + 1]])
    ensures q + 1 < |s| ==> kept + s[q + 1..] == (kept + [s[q + 1]]) + s[q + 2..]
    ensures q + 1 == |s| ==> Walked(s, now, q + 1, kept)
    ensures kept + [s[q]] + s[q + 1..] == kept + s[q..]
  {
    assert s[q..] == [s[q]] + s[q + 1..];
    if q + 1 < |s| {
      assert s[q..][1] == s[q + 1] && s[q..][2..] == s[q + 2..];
      assert Kept(s[q..], now) == [s[q + 1]] + Kept(s[q + 2..], now);
      assert s[q + 1..] == [s[q + 1]] + s[q + 2..];
    } else {
      assert Kept(s[q..], now) == [];
      assert s[q + 1..] == [];
    }
  }

  /** At the end of the walk `kept` is all it keeps. */
  lemma WalkDone(s: seq<Request>, now: real, kept: seq<Request>)
    requires Walked(s, now, |s|, kept)
    ensures Kept(s, now) == kept
  {
    assert s[|s|..] == [];
  }

  /** The skip: of two expired requests in a row, one walk releases only the
      first; a second walk, at the same time, releases the other. */
  lemma SkipExample(a: Request, b: Request, now: real)
    requires End(a) < now && End(b) < now
    ensures Kept([a, b], now) == [b] && Released([a, b], now) == [a]
    ensures Kept(Kept([a, b], now), now) == []
  {
    assert [a, b][2..] == [];
  }
}
