/** The lightpath admission controller (`Control`): a transceiver table with a
    tx and an rx count per node and a fiber-by-slot occupancy matrix, updated in
    place when a request is admitted, when expired requests are released and
    when everything is reset. The route of a request is an input (it comes from
    a shortest-path search outside the controller). */
module LightPathControl {
  import opened Wrappers
  import opened Spectrum
  import opened Requests

  /** Slots per fiber. */
  const SlotsNumber := 10

  /** No value occurs twice. */
  predicate Distinct<T(==)>(s: seq<T>) {
    forall i, j :: 0 <= i < j < |s| ==> s[i] != s[j]
  }

  // ---------------------------------------------------------------------------
  // Routes and the fibers they use

  /** `edges.index(e)`: the position of the first occurrence of `e`. */
  function IndexOf(edges: seq<(int, int)>, e: (int, int)): (k: nat)
    requires e in edges
    ensures k < |edges| && edges[k] == e && e !in edges[..k]
  {
    if edges[0] == e then 0
    else
      var k := 1 + IndexOf(edges[1..], e);
      assert edges[..k] == [edges[0]] + edges[1..][..k - 1];
      k
  }

  /** Hop `i` of the path, from `path[i]` to `path[i + 1]`, is an edge of the
      network, in one direction or the other. */
  predicate Linked(path: seq<int>, i: int, edges: seq<(int, int)>)
    requires 0 <= i < |path| - 1
  {
    (path[i], path[i + 1]) in edges || (path[i + 1], path[i]) in edges
  }

  /** Consecutive nodes of the path are joined by an edge. */
  predicate Joined(path: seq<int>, edges: seq<(int, int)>) {
    forall i :: 0 <= i < |path| - 1 ==> Linked(path, i, edges)
  }

  /** The fiber an index names carries the hop from `a` to `b`: it is the first
      occurrence of `(a, b)` in the edge list, or of `(b, a)` when `(a, b)` is
      not listed. */
  predicate Carries(edges: seq<(int, int)>, k: int, a: int, b: int) {
    && 0 <= k < |edges|
    && (edges[k] == (a, b) || ((a, b) !in edges && edges[k] == (b, a)))
    && edges[k] !in edges[..k]
  }

  /** `get_edge_indices`: for every hop of the path, the index of its fiber. */
  function EdgeIndices(path: seq<int>, edges: seq<(int, int)>): (index: seq<int>)
    requires Joined(path, edges)
    ensures |index| == if path == [] then 0 else |path| - 1
    ensures forall i :: 0 <= i < |index| ==> Carries(edges, index[i], path[i], path[i + 1])
  {
    if |path| < 2 then []
    else
      seq(|path| - 1, i requires 0 <= i < |path| - 1 =>
        assert Linked(path, i, edges);
        if (path[i], path[i + 1]) in edges then IndexOf(edges, (path[i], path[i + 1]))
        else IndexOf(edges, (path[i + 1], path[i])))
  }

  /** A route from `src` to `dst` as the shortest-path search returns it: at
      least one hop, no node twice, every hop an edge of the network, nodes
      numbered from 1. */
  predicate Route(path: seq<int>, src: int, dst: int, edges: seq<(int, int)>, nodes: int) {
    && |path| >= 2 && path[0] == src && path[|path| - 1] == dst
    && Distinct(path) && Joined(path, edges)
    && forall i :: 0 <= i < |path| ==> 1 <= path[i] <= nodes
  }

  /** On a route no fiber is used twice. */
  lemma EdgeIndicesDistinct(path: seq<int>, edges: seq<(int, int)>)
    requires Distinct(path) && Joined(path, edges)
    ensures Distinct(EdgeIndices(path, edges))
  {
    var index := EdgeIndices(path, edges);
    forall i, j | 0 <= i < j < |index|
      ensures index[i] != index[j]
    {
      assert Carries(edges, index[i], path[i], path[i + 1]);
      assert Carries(edges, index[j], path[j], path[j + 1]);
      assert path[i] != path[j] && path[i] != path[j + 1] && path[i + 1] != path[j + 1];
    }
  }

  // ---------------------------------------------------------------------------
  // The slots an admission takes

  /** `(f, c)` for each channel `c` of `cs`, in order. */
  function Row(f: int, cs: seq<int>): (r: seq<Slot>)
    ensures |r| == |cs| && forall t :: 0 <= t < |cs| ==> r[t] == (f, cs[t])
  {
    seq(|cs|, t requires 0 <= t < |cs| => (f, cs[t]))
  }

  /** The `slot_used` list of an admission: the channels `cs` on the first
      fiber, then on the second, and so on. */
  function Assignment(fibers: seq<int>, cs: seq<int>): seq<Slot> {
    if fibers == [] then []
    else Assignment(fibers[..|fibers| - 1], cs) + Row(fibers[|fibers| - 1], cs)
  }

  /** An admission takes `|fibers| * |cs|` slots. */
  lemma {:induction false} AssignmentLength(fibers: seq<int>, cs: seq<int>)
    ensures |Assignment(fibers, cs)| == |fibers| * |cs|
  {
    if fibers != [] {
      var n := |fibers| - 1;
      AssignmentLength(fibers[..n], cs);
      assert |fibers| * |cs| == n * |cs| + |cs|;
    }
  }

  lemma RowMembers(f: int, cs: seq<int>)
    ensures forall x :: x in Row(f, cs) <==> x.0 == f && x.1 in cs
  {
    var r := Row(f, cs);
    forall x | x in r ensures x.0 == f && x.1 in cs {
      var t :| 0 <= t < |r| && r[t] == x;
    }
    forall x: Slot | x.0 == f && x.1 in cs ensures x in r {
      var t :| 0 <= t < |cs| && cs[t] == x.1;
      assert r[t] == x;
    }
  }

  /** An admission takes the slot of every (fiber, channel) pair and no other. */
  lemma {:induction false} AssignmentMembers(fibers: seq<int>, cs: seq<int>)
    ensures forall x :: x in Assignment(fibers, cs) <==> x.0 in fibers && x.1 in cs
  {
    if fibers != [] {
      var init, f := fibers[..|fibers| - 1], fibers[|fibers| - 1];
      AssignmentMembers(init, cs);
      RowMembers(f, cs);
      assert fibers == init + [f];
    }
  }

  /** When neither the fibers nor the channels repeat, no slot is taken twice. */
  lemma {:induction false} AssignmentDistinct(fibers: seq<int>, cs: seq<int>)
    requires Distinct(fibers) && Distinct(cs)
    ensures Distinct(Assignment(fibers, cs))
  {
    if fibers != [] {
      var init, f := fibers[..|fibers| - 1], fibers[|fibers| - 1];
      AssignmentDistinct(init, cs);
      AssignmentMembers(init, cs);
      assert f !in init by {
        assert fibers == init + [f];
      }
      var a, r := Assignment(init, cs), Row(f, cs);
      forall i, j | 0 <= i < j < |a + r| ensures (a + r)[i] != (a + r)[j] {
        if j < |a| {
          assert (a + r)[i] == a[i] && (a + r)[j] == a[j];
        } else if i >= |a| {
          assert (a + r)[i] == r[i - |a|] && (a + r)[j] == r[j - |a|];
        } else {
          assert (a + r)[i] == a[i] && (a + r)[j] == r[j - |a|];
          assert a[i] in a;
        }
      }
    }
  }

  /** Taking one more fiber appends its row. */
  lemma AssignmentSnoc(fibers: seq<int>, i: int, cs: seq<int>)
    requires 0 <= i < |fibers|
    ensures Assignment(fibers[..i + 1], cs) == Assignment(fibers[..i], cs) + Row(fibers[i], cs)
  {
    assert fibers[..i + 1][..i] == fibers[..i];
  }

  // ---------------------------------------------------------------------------
  // The controller

  class Control {
    /** The network's edge list; fiber `k` is `edges[k]`. */
    const edges: seq<(int, int)>
    /** Number of nodes; node `n` (from 1) owns row `n - 1` of `txrx`. */
    const nodes: nat
    /** What a reset fills every tx and rx count with. */
    const resetCapacity: int
    /** Requests are handled only while this is on. */
    const debug: bool
    /** Row `n - 1`: free transmitters (column 0) and receivers (column 1) of node `n`. */
    const txrx: array2<int>
    /** Row `k`, column `c`: slot `c` of fiber `k` is free. */
    const slots: array2<bool>
    /** Admitted requests still holding their resources. */
    var pktSent: seq<Request>
    /** Blocked requests. */
    var pktLost: seq<Request>
    /** The tx (and rx) count every node has with no request active: what the
        constructor filled in, then what the last reset did. */
    ghost var capacity: int

    /** The arrays have the sizes of the network. */
    predicate Shaped() {
      && txrx.Length0 == nodes && txrx.Length1 == 2
      && slots.Length0 == |edges| && slots.Length1 == SlotsNumber
    }

    /** A request names two nodes of the network and slots of its fibers. */
    predicate WellFormed(p: Request) {
      && 1 <= p.src <= nodes && 1 <= p.dst <= nodes
      && forall x :: x in p.slotUsed ==> 0 <= x.0 < |edges| && 0 <= x.1 < SlotsNumber
    }

    /** The conservation invariants, for the active list `s`: a slot is busy
        exactly when a request of `s` holds it, no slot is held twice, and a
        node's free tx (rx) count plus the requests of `s` leaving (entering)
        it is `capacity`, never negative. */
    ghost predicate Accounts(s: seq<Request>)
      reads this`capacity, txrx, slots
    {
      && Shaped() && 0 <= resetCapacity
      && (forall p :: p in s ==> WellFormed(p))
      && Disjoint(s)
      && (forall e, c :: 0 <= e < |edges| && 0 <= c < SlotsNumber ==> (slots[e, c] <==> (e, c) !in Busy(s)))
      && (forall r :: 0 <= r < nodes ==> 0 <= txrx[r, 0] && 0 <= txrx[r, 1])
      && (forall n :: 1 <= n <= nodes ==> txrx[n - 1, 0] + CountSrc(s, n) == capacity)
      && (forall n :: 1 <= n <= nodes ==> txrx[n - 1, 1] + CountDst(s, n) == capacity)
    }

    /** The conservation invariants hold for the active list. */
    ghost predicate Valid()
      reads this`pktSent, this`capacity, txrx, slots
    {
      Accounts(pktSent)
    }

    /** `__init__`: every node gets `capacity` transmitters and receivers, every
        slot of every fiber is free, no request is active. */
    constructor (edges: seq<(int, int)>, nodes: nat, capacity: int, resetCapacity: int, debug: bool)
      requires 0 <= capacity && 0 <= resetCapacity
      ensures this.edges == edges && this.nodes == nodes && this.debug == debug
      ensures this.resetCapacity == resetCapacity && this.capacity == capacity
      ensures fresh(txrx) && fresh(slots) && Valid()
      ensures pktSent == [] && pktLost == []
      ensures forall n, k :: 0 <= n < nodes && 0 <= k < 2 ==> txrx[n, k] == capacity
      ensures forall e, c :: 0 <= e < |edges| && 0 <= c < SlotsNumber ==> slots[e, c]
    {
      this.edges := edges;
      this.nodes := nodes;
      this.resetCapacity := resetCapacity;
      this.debug := debug;
      txrx := new int[nodes, 2]((n, k) => capacity);
      slots := new bool[|edges|, SlotsNumber]((e, c) => true);
      pktSent := [];
      pktLost := [];
      this.capacity := capacity;
    }

    // -------------------------------------------------------------------------
    // Candidate channels

    /** Slot column `c` is free on every fiber of the network. */
    predicate FreeEverywhere(c: int)
      reads slots
      requires 0 <= c < slots.Length1
    {
      forall e :: 0 <= e < slots.Length0 ==> slots[e, c]
    }

    /** The columns below `k` that are free on every fiber, ascending. */
    function FreeColumns(k: nat): seq<int>
      reads slots
      requires k <= slots.Length1
    {
      if k == 0 then []
      else FreeColumns(k - 1) + (if FreeEverywhere(k - 1) then [k - 1] else [])
    }

    /** The free columns are listed once each, in ascending order. */
    lemma {:induction false} FreeColumnsSpec(k: nat)
      requires k <= slots.Length1
      ensures var r := FreeColumns(k);
              && Increasing(r) && (forall x :: x in r ==> 0 <= x < k)
              && (forall x :: 0 <= x < k ==> (x in r <==> FreeEverywhere(x)))
    {
      if k > 0 {
        FreeColumnsSpec(k - 1);
        IncreasingJoin(FreeColumns(k - 1), if FreeEverywhere(k - 1) then [k - 1] else []);
      }
    }

    /** The slots of fiber `f` below `k` that are free, ascending. */
    function FreeOnFiber(f: int, k: nat): seq<int>
      reads slots
      requires 0 <= f < slots.Length0 && k <= slots.Length1
    {
      if k == 0 then []
      else FreeOnFiber(f, k - 1) + (if slots[f, k - 1] then [k - 1] else [])
    }

    /** The free slots of a fiber are listed once each, in ascending order. */
    lemma {:induction false} FreeOnFiberSpec(f: int, k: nat)
      requires 0 <= f < slots.Length0 && k <= slots.Length1
      ensures var r := FreeOnFiber(f, k);
              && Increasing(r) && (forall x :: x in r ==> 0 <= x < k)
              && (forall x :: 0 <= x < k ==> (x in r <==> slots[f, x]))
    {
      if k > 0 {
        FreeOnFiberSpec(f, k - 1);
        IncreasingJoin(FreeOnFiber(f, k - 1), if slots[f, k - 1] then [k - 1] else []);
      }
    }

    /** `get_available_channels`: on a route of more than one hop, the slot
        columns free on every fiber of the whole network (not only the route's);
        on a single hop, the free slots of its fiber. */
    function AvailableChannels(path: seq<int>, index: seq<int>): seq<int>
      reads slots
      requires Shaped() && |path| >= 2 && index != [] && 0 <= index[0] < |edges|
    {
      if |path| > 2 then FreeColumns(slots.Length1) else FreeOnFiber(index[0], slots.Length1)
    }

    /** The candidates are ascending, and a slot column is one exactly when it
        is free on every fiber (route of more than one hop) or on the route's
        only fiber (single hop). */
    lemma AvailableChannelsSpec(path: seq<int>, index: seq<int>)
      requires Shaped() && |path| >= 2 && index != [] && 0 <= index[0] < |edges|
      ensures var channels := AvailableChannels(path, index);
              && Increasing(channels)
              && forall c :: c in channels <==>
                   0 <= c < SlotsNumber && (if |path| > 2 then FreeEverywhere(c) else slots[index[0], c])
    {
      if |path| > 2 {
        FreeColumnsSpec(slots.Length1);
      } else {
        FreeOnFiberSpec(index[0], slots.Length1);
      }
    }

    // -------------------------------------------------------------------------
    // Admission

    /** The channels `allocate` hands on: the candidates of the route, narrowed
        to the best gap when more than one slot is asked for. */
    function Chosen(numSlots: int, path: seq<int>): (ch: seq<int>)
      reads slots
      requires Shaped() && |path| >= 2 && Joined(path, edges)
      ensures ch != [] ==> numSlots <= |ch|
    {
      var channels := AvailableChannels(path, EdgeIndices(path, edges));
      AvailableChannelsSpec(path, EdgeIndices(path, edges));
      NarrowedWithin(numSlots, channels);
      if numSlots > 1 then BestGap(numSlots, channels) else channels
    }

    /** What the chosen channels guarantee `allocate_slots`: they do not repeat,
        they are slots of a fiber, they are free on every fiber of the route,
        and there are at least `numSlots` of them unless there are none; with
        more than one slot asked for they are consecutive. */
    lemma ChosenFits(numSlots: int, path: seq<int>)
      requires Shaped() && |path| >= 2 && Joined(path, edges)
      ensures var ch := Chosen(numSlots, path);
              && FitsRoute(EdgeIndices(path, edges), ch)
              && (ch != [] ==> numSlots <= |ch|)
              && (1 < numSlots ==> Consecutive(ch))
    {
      var index := EdgeIndices(path, edges);
      var channels := AvailableChannels(path, index);
      var ch := Chosen(numSlots, path);
      AvailableChannelsSpec(path, index);
      NarrowedWithin(numSlots, channels);
      forall i, t | 0 <= i < |index| && 0 <= t < |ch|
        ensures 0 <= index[i] < slots.Length0 && 0 <= ch[t] < slots.Length1 && slots[index[i], ch[t]]
      {
        var c := ch[t];
        assert c in channels;
        assert Carries(edges, index[i], path[i], path[i + 1]);
        if |path| > 2 {
          assert FreeEverywhere(c);
        } else {
          assert i == 0 && slots[index[0], c];
        }
      }
    }

    /** While the invariants hold, a slot is free in the table exactly when no
        active request holds it, so the channels chosen from the table are
        those chosen from the active requests' slots. */
    lemma ChosenFromBusy(numSlots: int, path: seq<int>)
      requires Valid() && |path| >= 2 && Joined(path, edges)
      ensures Chosen(numSlots, path) == ChosenFor(edges, numSlots, path, Busy(pktSent))
    {
      if |path| > 2 {
        FreeColumnsFromBusy(SlotsNumber);
      } else {
        FreeOnFiberFromBusy(EdgeIndices(path, edges)[0], SlotsNumber);
      }
    }

    /** The free columns of the table are the columns no active request
        holds on any fiber. */
    lemma {:induction false} FreeColumnsFromBusy(k: nat)
      requires Valid() && k <= SlotsNumber
      ensures FreeColumns(k) == FreeColumnsFor(|edges|, Busy(pktSent), k)
    {
      if k > 0 {
        FreeColumnsFromBusy(k - 1);
        var c := k - 1;
        assert FreeEverywhere(c) <==> ColumnFree(|edges|, Busy(pktSent), c);
      }
    }

    /** The free slots of a fiber in the table are those no active request
        holds on it. */
    lemma {:induction false} FreeOnFiberFromBusy(f: int, k: nat)
      requires Valid() && 0 <= f < |edges| && k <= SlotsNumber
      ensures FreeOnFiber(f, k) == FreeOnFiberFor(f, Busy(pktSent), k)
    {
      if k > 0 {
        FreeOnFiberFromBusy(f, k - 1);
        assert slots[f, k - 1] <==> (f, k - 1) !in Busy(pktSent);
      }
    }

    /** While the invariants hold, the chosen channels are held by no active
        request on any fiber of the route. */
    lemma ChosenFree(numSlots: int, path: seq<int>)
      requires Valid() && |path| >= 2 && Joined(path, edges)
      ensures var ch := Chosen(numSlots, path);
              && FreeOnRoute(EdgeIndices(path, edges), ch, pktSent)
              && (1 < numSlots ==> Consecutive(ch))
    {
      var fibers, ch := EdgeIndices(path, edges), Chosen(numSlots, path);
      ChosenFits(numSlots, path);
      forall i, t | 0 <= i < |fibers| && 0 <= t < |ch|
        ensures 0 <= ch[t] < SlotsNumber && (fibers[i], ch[t]) !in Busy(pktSent)
      {
        assert slots[fibers[i], ch[t]];
      }
    }

    /** Channels `allocate_slots` can take on every fiber of `index`: no
        repeats, slots of a fiber, free on each fiber listed. */
    ghost predicate FitsRoute(index: seq<int>, ch: seq<int>)
      reads slots
    {
      && Distinct(ch)
      && (forall t :: 0 <= t < |ch| ==> 0 <= ch[t] < SlotsNumber)
      && (forall i, t :: 0 <= i < |index| && 0 <= t < |ch| ==>
            0 <= index[i] < slots.Length0 && 0 <= ch[t] < slots.Length1 && slots[index[i], ch[t]])
    }

    /** What `allocate` did to the tables: every slot of `slotUsed` was free
        and is now taken, no other slot changed, and when `disp` the source
        `src` has one transmitter fewer and the destination `dst` one receiver
        fewer, no other count changed and no count went below zero. */
    twostate predicate Took(src: int, dst: int, disp: bool, new slotUsed: seq<Slot>)
      reads slots, txrx
    {
      && Shaped()
      && (forall x :: x in slotUsed ==> 0 <= x.0 < |edges| && 0 <= x.1 < SlotsNumber && old(slots[x.0, x.1]))
      && (forall e, c :: 0 <= e < |edges| && 0 <= c < SlotsNumber ==>
            slots[e, c] == (old(slots[e, c]) && (e, c) !in slotUsed))
      && (forall n, k :: 0 <= n < nodes && 0 <= k < 2 ==>
            txrx[n, k] == old(txrx[n, k]) - (if disp && n == (if k == 0 then src else dst) - 1 then 1 else 0))
      && (forall n, k :: 0 <= n < nodes && 0 <= k < 2 && 0 <= old(txrx[n, k]) ==> 0 <= txrx[n, k])
    }

    /** What a release did to the tables: the slots of `p` are free again, no
        other slot changed, the source of `p` has one transmitter more and
        its destination one receiver more, and no other count changed. */
    twostate predicate Gave(new p: Request)
      reads slots, txrx
    {
      && Shaped()
      && (forall e, c :: 0 <= e < |edges| && 0 <= c < SlotsNumber ==>
            slots[e, c] == (old(slots[e, c]) || (e, c) in Held(p)))
      && (forall r, k :: 0 <= r < nodes && 0 <= k < 2 ==>
            txrx[r, k] == old(txrx[r, k]) + (if r == (if k == 0 then p.src else p.dst) - 1 then 1 else 0))
    }

    /** Releasing request `p` from the middle of the active list `a + [p] + b`
        keeps the conservation invariants for what is left. */
    twostate lemma ReleaseAccounts(new a: seq<Request>, new p: Request, new b: seq<Request>)
      requires old(Accounts(a + [p] + b)) && capacity == old(capacity) && Gave(p)
      ensures Accounts(a + b)
    {
      var before := a + [p] + b;
      assert p in before;
      RemoveOne(a, p, b);
      forall e, c | 0 <= e < |edges| && 0 <= c < SlotsNumber
        ensures slots[e, c] <==> (e, c) !in Busy(a + b)
      {
        assert old(slots[e, c]) <==> (e, c) !in Busy(before);
      }
      forall q | q in a + b ensures WellFormed(q) {
        assert q in before;
      }
      forall n | 1 <= n <= nodes
        ensures txrx[n - 1, 0] + CountSrc(a + b, n) == capacity
      {
        assert txrx[n - 1, 0] == old(txrx[n - 1, 0]) + (if p.src == n then 1 else 0);
        assert old(txrx[n - 1, 0]) + CountSrc(before, n) == capacity;
      }
      forall n | 1 <= n <= nodes
        ensures txrx[n - 1, 1] + CountDst(a + b, n) == capacity
      {
        assert txrx[n - 1, 1] == old(txrx[n - 1, 1]) + (if p.dst == n then 1 else 0);
        assert old(txrx[n - 1, 1]) + CountDst(before, n) == capacity;
      }
    }

    /** `allocate`: find the route's fibers and candidate channels, narrow them
        to the best gap when more than one slot is asked for, give up with
        nothing changed when no channel is left, and otherwise take the slots. */
    method Allocate(src: int, dst: int, numSlots: int, path: seq<int>)
      returns (disp: bool, slotUsed: seq<Slot>, route: seq<int>, ghost ch: seq<int>)
      requires Shaped() && Route(path, src, dst, edges, nodes)
      modifies slots, txrx
      ensures route == path
      ensures ch == old(Chosen(numSlots, path)) && (ch != [] ==> numSlots <= |ch|)
      ensures disp <==> ch != [] && 0 < numSlots && 0 < old(txrx[src - 1, 0]) && 0 < old(txrx[dst - 1, 1])
      ensures slotUsed == if disp then Assignment(EdgeIndices(path, edges), ch[..numSlots]) else []
      ensures Took(src, dst, disp, slotUsed)
    {
      ch := Chosen(numSlots, path);
      var index := EdgeIndices(path, edges);
      var channels := AvailableChannels(path, index);
      if numSlots > 1 {
        channels := CheckSlotsBestGap(numSlots, channels);
      }
      if channels == [] {
        return false, [], path, ch;
      }
      ChosenFits(numSlots, path);
      EdgeIndicesDistinct(path, edges);
      disp, slotUsed := AllocateSlots(src, dst, numSlots, index, channels);
      route := path;
    }

    /** `allocate_slots`: take the slots (see `TakeSlots`), then, if anything
        was taken and the source still has a free transmitter and the
        destination a free receiver, use one of each. With channels that do not
        repeat, are free on every fiber of the route and number at least
        `numSlots`, the outcome is all or nothing: either the first `numSlots`
        channels are taken on every fiber and the two counts drop by one, or
        nothing changes. */
    method AllocateSlots(src: int, dst: int, numSlots: int, index: seq<int>, channels: seq<int>)
      returns (disp: bool, slotUsed: seq<Slot>)
      requires Shaped() && 1 <= src <= nodes && 1 <= dst <= nodes
      requires index != [] && Distinct(index) && forall i :: 0 <= i < |index| ==> 0 <= index[i] < |edges|
      requires Distinct(channels) && numSlots <= |channels|
      requires forall t :: 0 <= t < |channels| ==> 0 <= channels[t] < SlotsNumber
      requires forall i, t :: 0 <= i < |index| && 0 <= t < |channels| ==> slots[index[i], channels[t]]
      modifies slots, txrx
      ensures disp <==> 0 < numSlots && 0 < old(txrx[src - 1, 0]) && 0 < old(txrx[dst - 1, 1])
      ensures slotUsed == if disp then Assignment(index, channels[..numSlots]) else []
      ensures Took(src, dst, disp, slotUsed)
    {
      if 0 < numSlots {
        AssignmentMembers(index, channels[..numSlots]);
      }
      disp, slotUsed := TakeSlots(src, dst, numSlots, index, channels);
      forall x | x in slotUsed
        ensures 0 <= x.0 < |edges| && 0 <= x.1 < SlotsNumber && old(slots[x.0, x.1])
      {
        var i :| 0 <= i < |index| && index[i] == x.0;
        var t :| 0 <= t < numSlots && channels[t] == x.1;
      }
      if disp && txrx[src - 1, 0] > 0 && txrx[dst - 1, 1] > 0 {
        txrx[src - 1, 0] := txrx[src - 1, 0] - 1;
        txrx[dst - 1, 1] := txrx[dst - 1, 1] - 1;
      } else {
        disp := false;
      }
    }

    /** The innermost loop of `allocate_slots`: walk `channels` and take the
        first slot still free on fiber `f`, provided the source has a free
        transmitter and the destination a free receiver; report where in
        `channels` it was found. */
    method TakeFirstFree(src: int, dst: int, f: int, channels: seq<int>) returns (found: Option<nat>)
      requires Shaped() && 1 <= src <= nodes && 1 <= dst <= nodes && 0 <= f < |edges|
      requires forall t :: 0 <= t < |channels| ==> 0 <= channels[t] < SlotsNumber
      modifies slots
      ensures found.Some? ==> && 0 < txrx[src - 1, 0] && 0 < txrx[dst - 1, 1]
                              && found.value < |channels| && old(slots[f, channels[found.value]])
                              && forall t :: 0 <= t < found.value ==> !old(slots[f, channels[t]])
      ensures found.None? ==> !(0 < txrx[src - 1, 0] && 0 < txrx[dst - 1, 1])
                              || forall t :: 0 <= t < |channels| ==> !old(slots[f, channels[t]])
      ensures forall e, c :: 0 <= e < |edges| && 0 <= c < SlotsNumber ==>
                slots[e, c] == (old(slots[e, c]) && !(found.Some? && e == f && c == channels[found.value]))
    {
      found := None;
      for t := 0 to |channels|
        invariant forall u :: 0 <= u < t ==> !(slots[f, channels[u]] && 0 < txrx[src - 1, 0] && 0 < txrx[dst - 1, 1])
        invariant unchanged(slots)
      {
        var j := channels[t];
        if slots[f, j] && txrx[src - 1, 0] > 0 && txrx[dst - 1, 1] > 0 {
          slots[f, j] := false;
          found := Some(t);
          break;
        }
      }
    }

    /** One fiber's turn in the loops of `allocate_slots`: `numSlots` times,
        take the first channel of `channels` still free on fiber `f`, as long
        as the source has a free transmitter and the destination a free
        receiver. With every candidate free on `f`, that takes the first
        `numSlots` candidates, or nothing. */
    method TakeOnFiber(src: int, dst: int, f: int, numSlots: int, channels: seq<int>) returns (row: seq<Slot>)
      requires Shaped() && 1 <= src <= nodes && 1 <= dst <= nodes && 0 <= f < |edges|
      requires Distinct(channels) && numSlots <= |channels|
      requires forall t :: 0 <= t < |channels| ==> 0 <= channels[t] < SlotsNumber
      requires forall t :: 0 <= t < |channels| ==> slots[f, channels[t]]
      modifies slots
      ensures row == if 0 < numSlots && 0 < txrx[src - 1, 0] && 0 < txrx[dst - 1, 1]
                     then Row(f, channels[..numSlots]) else []
      ensures forall e, c :: 0 <= e < |edges| && 0 <= c < SlotsNumber ==>
                slots[e, c] == (old(slots[e, c]) && (e, c) !in row)
    {
      row := [];
      ghost var ok := 0 < txrx[src - 1, 0] && 0 < txrx[dst - 1, 1];
      var k := 0;
      while k < numSlots
        invariant 0 <= k <= |channels| && k <= (if 0 < numSlots then numSlots else 0)
        invariant row == if ok then Row(f, channels[..k]) else []
        invariant forall e, c :: 0 <= e < |edges| && 0 <= c < SlotsNumber ==>
                    slots[e, c] == (old(slots[e, c]) && (e, c) !in row)
      {
        RowBefore(f, channels, k);
        var found := TakeFirstFree(src, dst, f, channels);
        assert found == if ok then Some(k) else None;
        if found.Some? {
          row := row + [(f, channels[found.value])];
        }
        assert Row(f, channels[..k + 1]) == Row(f, channels[..k]) + [(f, channels[k])];
        k := k + 1;
      }
    }

    /** The loops of `allocate_slots`: for every fiber of the route and
        `numSlots` times, take the first channel of `channels` still free on
        that fiber, as long as the source has a free transmitter and the
        destination a free receiver. */
    method TakeSlots(src: int, dst: int, numSlots: int, index: seq<int>, channels: seq<int>)
      returns (disp: bool, slotUsed: seq<Slot>)
      requires Shaped() && 1 <= src <= nodes && 1 <= dst <= nodes
      requires index != [] && Distinct(index) && forall i :: 0 <= i < |index| ==> 0 <= index[i] < |edges|
      requires Distinct(channels) && numSlots <= |channels|
      requires forall t :: 0 <= t < |channels| ==> 0 <= channels[t] < SlotsNumber
      requires forall i, t :: 0 <= i < |index| && 0 <= t < |channels| ==> slots[index[i], channels[t]]
      modifies slots
      ensures disp <==> 0 < numSlots && 0 < txrx[src - 1, 0] && 0 < txrx[dst - 1, 1]
      ensures slotUsed == if disp then Assignment(index, channels[..numSlots]) else []
      ensures forall e, c :: 0 <= e < |edges| && 0 <= c < SlotsNumber ==>
                slots[e, c] == (old(slots[e, c]) && (e, c) !in slotUsed)
    {
      slotUsed := [];
      disp := false;
      ghost var ok := 0 < numSlots && 0 < txrx[src - 1, 0] && 0 < txrx[dst - 1, 1];
      for i := 0 to |index|
        modifies slots
        invariant slotUsed == if ok then Assignment(index[..i], channels[..numSlots]) else []
        invariant disp == (ok && 0 < i)
        invariant forall e, c :: 0 <= e < |edges| && 0 <= c < SlotsNumber ==>
                    slots[e, c] == (old(slots[e, c]) && (e, c) !in slotUsed)
      {
        assert forall t :: 0 <= t < |channels| ==> slots[index[i], channels[t]] by {
          if ok {
            AssignmentMembers(index[..i], channels[..numSlots]);
            assert index[i] !in index[..i];
          }
        }
        var row := TakeOnFiber(src, dst, index[i], numSlots, channels);
        slotUsed := slotUsed + row;
        if row != [] {
          disp := true;
        }
        if ok {
          AssignmentSnoc(index, i, channels[..numSlots]);
        }
      }
      assert index[..|index|] == index;
    }

    // -------------------------------------------------------------------------
    // Release and reset

    /** `remove(now)`: walk the active list and release every request found to
        have ended strictly before `now`: it leaves the list, its source gets
        a transmitter back, its destination a receiver, and its slots are
        freed. Deleting from the list being walked skips the request after each
        deleted one, so the outcome is `Kept` and `Released` of the old list. */
    method Release(now: real)
      requires Valid()
      modifies this, txrx, slots
      ensures Valid() && capacity == old(capacity)
      ensures pktSent == Kept(old(pktSent), now) && pktLost == old(pktLost)
      ensures forall n :: 1 <= n <= nodes ==>
                && txrx[n - 1, 0] == old(txrx[n - 1, 0]) + CountSrc(Released(old(pktSent), now), n)
                && txrx[n - 1, 1] == old(txrx[n - 1, 1]) + CountDst(Released(old(pktSent), now), n)
      ensures forall e, c :: 0 <= e < |edges| && 0 <= c < SlotsNumber ==>
                slots[e, c] == (old(slots[e, c]) || (e, c) in Busy(Released(old(pktSent), now)))
    {
      ghost var s := pktSent;
      ghost var q := 0;
      ghost var kept: seq<Request> := [];
      var i := 0;
      while i < |pktSent|
        invariant Valid() && pktLost == old(pktLost) && capacity == old(capacity)
        invariant Walked(s, now, q, kept) && pktSent == kept + s[q..]
        invariant i == |kept| || (q == |s| && i == |kept| + 1)
        decreases |s| - q
      {
        var p := pktSent[i];
        assert p == s[q];
        i := i + 1;
        if End(p) < now {
          WalkDrops(s, now, q, kept);
          assert pktSent == kept + [p] + s[q + 1..];
          Drop(i - 1);
          if q + 1 < |s| {
            kept := kept + [s[q + 1]];
            q := q + 2;
          } else {
            q := q + 1;
          }
        } else {
          WalkKeeps(s, now, q, kept);
          kept := kept + [p];
          q := q + 1;
        }
      }
      WalkDone(s, now, kept);
      SweepBusy(s, now);
      forall n | 1 <= n <= nodes
        ensures CountSrc(pktSent, n) + CountSrc(Released(s, now), n) == CountSrc(s, n)
        ensures CountDst(pktSent, n) + CountDst(Released(s, now), n) == CountDst(s, n)
      {
        SweepCounts(s, now, n);
      }
    }

    /** One release inside the walk of `remove(now)`: the request at position
        `i` leaves the active list, its source gets a transmitter back, its
        destination a receiver, and its slots are freed; the conservation
        invariants still hold. */
    method Drop(i: nat)
      requires Valid() && i < |pktSent|
      modifies this, txrx, slots
      ensures Valid() && capacity == old(capacity) && pktLost == old(pktLost)
      ensures pktSent == old(pktSent[..i] + pktSent[i + 1..])
    {
      var p := pktSent[i];
      assert p in pktSent;
      ghost var a, b := pktSent[..i], pktSent[i + 1..];
      assert pktSent == a + [p] + b;
      pktSent := pktSent[..i] + pktSent[i + 1..];
      txrx[p.src - 1, 0] := txrx[p.src - 1, 0] + 1;
      txrx[p.dst - 1, 1] := txrx[p.dst - 1, 1] + 1;
      FreeSlots(p);
      forall r, k | 0 <= r < nodes && 0 <= k < 2
        ensures txrx[r, k] == old(txrx[r, k]) + (if r == (if k == 0 then p.src else p.dst) - 1 then 1 else 0)
      {
      }
      ReleaseAccounts(a, p, b);
    }

    /** The inner loop of `remove(now)`: free every slot the request holds. */
    method FreeSlots(p: Request)
      requires Shaped() && WellFormed(p)
      modifies slots
      ensures forall e, c :: 0 <= e < |edges| && 0 <= c < SlotsNumber ==>
                slots[e, c] == (old(slots[e, c]) || (e, c) in Held(p))
    {
      for t := 0 to |p.slotUsed|
        invariant forall e, c :: 0 <= e < |edges| && 0 <= c < SlotsNumber ==>
                    slots[e, c] == (old(slots[e, c]) || (e, c) in p.slotUsed[..t])
      {
        var slo := p.slotUsed[t];
        slots[slo.0, slo.1] := true;
      }
      assert p.slotUsed[..|p.slotUsed|] == p.slotUsed;
    }

    /** `remove(None)`: forget every active request and refill every tx and rx
        count with the reset value and every slot with "free". */
    method Reset()
      requires Shaped() && 0 <= resetCapacity
      modifies this, txrx, slots
      ensures Valid() && capacity == resetCapacity
      ensures pktSent == [] && pktLost == old(pktLost)
      ensures forall n, k :: 0 <= n < nodes && 0 <= k < 2 ==> txrx[n, k] == resetCapacity
      ensures forall e, c :: 0 <= e < |edges| && 0 <= c < SlotsNumber ==> slots[e, c]
    {
      pktSent := [];
      capacity := resetCapacity;
      for n := 0 to nodes
        modifies txrx
        invariant forall m, k :: 0 <= m < n && 0 <= k < 2 ==> txrx[m, k] == resetCapacity
      {
        txrx[n, 0] := resetCapacity;
        txrx[n, 1] := resetCapacity;
      }
      for e := 0 to |edges|
        modifies slots
        invariant forall m, c :: 0 <= m < e && 0 <= c < SlotsNumber ==> slots[m, c]
      {
        for c := 0 to SlotsNumber
          modifies slots
          invariant forall m, d :: 0 <= m < e && 0 <= d < SlotsNumber ==> slots[m, d]
          invariant forall d :: 0 <= d < c ==> slots[e, d]
        {
          slots[e, c] := true;
        }
      }
      assert Busy([]) == {} && Disjoint([]);
    }

    /** `remove(now)`: with a time, release what has expired; with none, reset. */
    method Remove(now: Option<real>)
      requires Valid()
      modifies this, txrx, slots
      ensures Valid() && pktLost == old(pktLost)
      ensures now.None? ==> pktSent == [] && capacity == resetCapacity
      ensures now.Some? ==> pktSent == Kept(old(pktSent), now.value) && capacity == old(capacity)
    {
      if now.None? {
        Reset();
      } else {
        Release(now.value);
      }
    }

    /** `put(pkt)`: `None` resets the controller. A request is ignored when
        `debug` is off; otherwise the requests that ended before the current
        time `now` are released first, and then the request is admitted, on
        the channels `ch` picked after that release, or blocked. A request is
        admitted exactly when channels were found, it asks for at least one
        slot, and its source and destination still have a transmitter and a
        receiver left once the requests still active are counted. */
    method Put(pkt: Option<Request>, now: real, path: seq<int>) returns (admitted: Option<bool>, ghost ch: seq<int>)
      requires Valid()
      requires pkt.Some? && debug ==> Route(path, pkt.value.src, pkt.value.dst, edges, nodes)
      modifies this, txrx, slots
      ensures Valid() && capacity == (if pkt.None? then resetCapacity else old(capacity))
      ensures pkt.None? ==> admitted.None? && pktSent == [] && pktLost == old(pktLost)
      ensures pkt.Some? && !debug ==> admitted.None? && pktSent == old(pktSent) && pktLost == old(pktLost)
      ensures pkt.Some? && debug ==>
                var p, kept := pkt.value, Kept(old(pktSent), now);
                && admitted.Some?
                && ch == ChosenFor(edges, p.nslots, path, Busy(kept))
                && (admitted.value <==>
                      ch != [] && 0 < p.nslots && CountSrc(kept, p.src) < capacity && CountDst(kept, p.dst) < capacity)
                && (ch != [] ==> p.nslots <= |ch|)
                && (1 < p.nslots ==> Consecutive(ch))
                && FreeOnRoute(EdgeIndices(path, edges), ch, kept)
                && (admitted.value ==>
                      && pktLost == old(pktLost)
                      && pktSent == kept + [p.(slotUsed := Assignment(EdgeIndices(path, edges), ch[..p.nslots]))])
                && (!admitted.value ==> pktSent == kept && pktLost == old(pktLost) + [p])
    {
      ch := [];
      if pkt.None? {
        Remove(None);
        admitted := None;
      } else if !debug {
        admitted := None;
      } else {
        var p := pkt.value;
        Remove(Some(now));
        assert txrx[p.src - 1, 0] + CountSrc(pktSent, p.src) == capacity;
        assert txrx[p.dst - 1, 1] + CountDst(pktSent, p.dst) == capacity;
        ChosenFromBusy(p.nslots, path);
        ghost var want := ChosenFor(edges, p.nslots, path, Busy(pktSent));
        var ok;
        ok, ch := Admit(p, path);
        assert ch == want;
        admitted := Some(ok);
      }
    }

    /** The admission step of `put`: allocate the request's route; if that
        succeeds the request joins the active list carrying the slots it took,
        otherwise it joins the blocked list and nothing else changes. `ch` is
        what `allocate` chose: channels free on every fiber of the route, at
        least as many as asked for, consecutive when more than one is asked for.
        The request is admitted exactly when some channel was chosen, at least
        one slot is asked for and both end nodes have a free transceiver. */
    method Admit(pkt: Request, path: seq<int>) returns (admitted: bool, ghost ch: seq<int>)
      requires Valid() && Route(path, pkt.src, pkt.dst, edges, nodes)
      modifies this, txrx, slots
      ensures Valid() && capacity == old(capacity)
      ensures ch == old(Chosen(pkt.nslots, path))
      ensures admitted <==> ch != [] && 0 < pkt.nslots && 0 < old(txrx[pkt.src - 1, 0]) && 0 < old(txrx[pkt.dst - 1, 1])
      ensures ch != [] ==> pkt.nslots <= |ch|
      ensures 1 < pkt.nslots ==> Consecutive(ch)
      ensures FreeOnRoute(EdgeIndices(path, edges), ch, old(pktSent))
      ensures admitted ==>
                && pktLost == old(pktLost)
                && pktSent == old(pktSent) + [pkt.(slotUsed := Assignment(EdgeIndices(path, edges), ch[..pkt.nslots]))]
      ensures !admitted ==> pktSent == old(pktSent) && pktLost == old(pktLost) + [pkt]
    {
      ChosenFree(pkt.nslots, path);
      var slotUsed;
      admitted, slotUsed, ch := AllocateFor(pkt, path, pktSent);
      if admitted {
        pktSent := pktSent + [pkt.(slotUsed := slotUsed)];
      } else {
        pktLost := pktLost + [pkt];
      }
    }

    /** `allocate` on behalf of `pkt` while `s` is the active list: the
        invariants then hold of `s` with `pkt` (holding the slots taken) added
        when it is admitted, and of `s` unchanged when it is not. */
    method AllocateFor(pkt: Request, path: seq<int>, ghost s: seq<Request>)
      returns (disp: bool, slotUsed: seq<Slot>, ghost ch: seq<int>)
      requires Accounts(s) && Route(path, pkt.src, pkt.dst, edges, nodes)
      modifies slots, txrx
      ensures ch == old(Chosen(pkt.nslots, path)) && (ch != [] ==> pkt.nslots <= |ch|)
      ensures disp <==> ch != [] && 0 < pkt.nslots && 0 < old(txrx[pkt.src - 1, 0]) && 0 < old(txrx[pkt.dst - 1, 1])
      ensures slotUsed == if disp then Assignment(EdgeIndices(path, edges), ch[..pkt.nslots]) else []
      ensures Accounts(if disp then s + [pkt.(slotUsed := slotUsed)] else s)
    {
      var route;
      disp, slotUsed, route, ch := Allocate(pkt.src, pkt.dst, pkt.nslots, path);
      if disp {
        var q := pkt.(slotUsed := slotUsed);
        assert WellFormed(q) by {
          assert path[0] == pkt.src && path[|path| - 1] == pkt.dst;
        }
        AdmissionAccounts(s, q);
      } else {
        UnchangedAccounts(s, pkt.src, pkt.dst);
      }
    }

    /** A failed admission changes no slot and no count, so the invariants
        still hold. */
    twostate lemma UnchangedAccounts(new s: seq<Request>, new src: int, new dst: int)
      requires old(Accounts(s)) && capacity == old(capacity) && Took(src, dst, false, [])
      ensures Accounts(s)
    {
      forall r | 0 <= r < nodes
        ensures 0 <= txrx[r, 0] && 0 <= txrx[r, 1]
      {
        assert 0 <= old(txrx[r, 0]) && 0 <= old(txrx[r, 1]);
      }
      forall n | 1 <= n <= nodes
        ensures txrx[n - 1, 0] + CountSrc(s, n) == capacity
      {
        assert old(txrx[n - 1, 0]) + CountSrc(s, n) == capacity;
      }
      forall n | 1 <= n <= nodes
        ensures txrx[n - 1, 1] + CountDst(s, n) == capacity
      {
        assert old(txrx[n - 1, 1]) + CountDst(s, n) == capacity;
      }
    }

    /** What admitting `q` does to the invariants: `allocate` has taken the
        slots `q` holds, all of them free before, and one transmitter of its
        source and one receiver of its destination; then the invariants hold
        of the active list with `q` added. */
    twostate lemma AdmissionAccounts(new s: seq<Request>, new q: Request)
      requires old(Accounts(s)) && capacity == old(capacity) && WellFormed(q)
      requires Took(q.src, q.dst, true, q.slotUsed)
      ensures Accounts(s + [q])
    {
      assert Held(q) !! Busy(s) by {
        forall x | x in Held(q) ensures x !in Busy(s) {
          assert old(slots[x.0, x.1]);
        }
      }
      AppendOne(s, q);
      DisjointAppend(s, q);
      forall e, c | 0 <= e < |edges| && 0 <= c < SlotsNumber
        ensures slots[e, c] <==> (e, c) !in Busy(s + [q])
      {
        assert old(slots[e, c]) <==> (e, c) !in Busy(s);
      }
      forall r | 0 <= r < nodes
        ensures 0 <= txrx[r, 0] && 0 <= txrx[r, 1]
      {
        assert 0 <= old(txrx[r, 0]) && 0 <= old(txrx[r, 1]);
      }
      forall n | 1 <= n <= nodes
        ensures txrx[n - 1, 0] + CountSrc(s + [q], n) == capacity
      {
        assert txrx[n - 1, 0] == old(txrx[n - 1, 0]) - (if q.src == n then 1 else 0);
        assert old(txrx[n - 1, 0]) + CountSrc(s, n) == capacity;
      }
      forall n | 1 <= n <= nodes
        ensures txrx[n - 1, 1] + CountDst(s + [q], n) == capacity
      {
        assert txrx[n - 1, 1] == old(txrx[n - 1, 1]) - (if q.dst == n then 1 else 0);
        assert old(txrx[n - 1, 1]) + CountDst(s, n) == capacity;
      }
    }
  }

  /** The channels `ch` are held by none of the requests `s` on any of the
      fibers `fibers`. */
  ghost predicate FreeOnRoute(fibers: seq<int>, ch: seq<int>, s: seq<Request>) {
    forall i, t :: 0 <= i < |fibers| && 0 <= t < |ch| ==>
      0 <= ch[t] < SlotsNumber && (fibers[i], ch[t]) !in Busy(s)
  }

  // ---------------------------------------------------------------------------
  // Channel selection from the slots in use

  /** Slot column `c` is held by no request on any of the `nEdges` fibers. */
  predicate ColumnFree(nEdges: int, busy: set<Slot>, c: int) {
    forall e :: 0 <= e < nEdges ==> (e, c) !in busy
  }

  /** The columns below `k` that no fiber has in `busy`, ascending. */
  function FreeColumnsFor(nEdges: int, busy: set<Slot>, k: nat): seq<int> {
    if k == 0 then []
    else FreeColumnsFor(nEdges, busy, k - 1) + (if ColumnFree(nEdges, busy, k - 1) then [k - 1] else [])
  }

  /** The slots below `k` of fiber `f` that are not in `busy`, ascending. */
  function FreeOnFiberFor(f: int, busy: set<Slot>, k: nat): seq<int> {
    if k == 0 then []
    else FreeOnFiberFor(f, busy, k - 1) + (if (f, k - 1) !in busy then [k - 1] else [])
  }

  /** `get_available_channels` when `busy` is the set of slots in use: on a
      route of more than one hop the columns free on every fiber of the
      network, on one hop the free slots of its fiber. */
  function CandidatesFor(edges: seq<(int, int)>, path: seq<int>, busy: set<Slot>): seq<int>
    requires |path| >= 2 && Joined(path, edges)
  {
    if |path| > 2 then FreeColumnsFor(|edges|, busy, SlotsNumber)
    else FreeOnFiberFor(EdgeIndices(path, edges)[0], busy, SlotsNumber)
  }

  /** The channels `allocate` hands on when `busy` is in use: the candidates,
      narrowed to the best gap when more than one slot is asked for. */
  function ChosenFor(edges: seq<(int, int)>, numSlots: int, path: seq<int>, busy: set<Slot>): (ch: seq<int>)
    requires |path| >= 2 && Joined(path, edges)
    ensures ch != [] ==> numSlots <= |ch|
  {
    var channels := CandidatesFor(edges, path, busy);
    BestGapSpec(numSlots, channels);
    if numSlots > 1 then BestGap(numSlots, channels) else channels
  }

  /** The columns listed are ascending and exactly those below `k` free on
      every fiber. */
  lemma {:induction false} FreeColumnsForSpec(nEdges: int, busy: set<Slot>, k: nat)
    ensures var r := FreeColumnsFor(nEdges, busy, k);
            && Increasing(r)
            && forall c :: c in r <==> 0 <= c < k && ColumnFree(nEdges, busy, c)
  {
    if k > 0 {
      FreeColumnsForSpec(nEdges, busy, k - 1);
      IncreasingJoin(FreeColumnsFor(nEdges, busy, k - 1), if ColumnFree(nEdges, busy, k - 1) then [k - 1] else []);
    }
  }

  /** The slots listed are ascending and exactly those of fiber `f` below `k`
      not in `busy`. */
  lemma {:induction false} FreeOnFiberForSpec(f: int, busy: set<Slot>, k: nat)
    ensures var r := FreeOnFiberFor(f, busy, k);
            && Increasing(r)
            && forall c :: c in r <==> 0 <= c < k && (f, c) !in busy
  {
    if k > 0 {
      FreeOnFiberForSpec(f, busy, k - 1);
      IncreasingJoin(FreeOnFiberFor(f, busy, k - 1), if (f, k - 1) !in busy then [k - 1] else []);
    }
  }

  /** The candidates are ascending slot indices; on more than one hop a column
      is one exactly when no fiber of the network has it busy, on one hop
      exactly when the route's fiber does not. */
  lemma CandidatesForSpec(edges: seq<(int, int)>, path: seq<int>, busy: set<Slot>)
    requires |path| >= 2 && Joined(path, edges)
    ensures var r := CandidatesFor(edges, path, busy);
            && Increasing(r)
            && forall c :: c in r <==>
                 0 <= c < SlotsNumber
                 && (if |path| > 2 then ColumnFree(|edges|, busy, c) else (EdgeIndices(path, edges)[0], c) !in busy)
  {
    if |path| > 2 {
      FreeColumnsForSpec(|edges|, busy, SlotsNumber);
    } else {
      FreeOnFiberForSpec(EdgeIndices(path, edges)[0], busy, SlotsNumber);
    }
  }

  /** Whether `put` admits `p` on `path` when the requests `kept` are active
      and every node started from `capacity` transceivers: some channels are
      chosen, at least one slot is asked for, and both end nodes have a
      transceiver that no active request uses. */
  predicate Admits(edges: seq<(int, int)>, capacity: int, p: Request, path: seq<int>, kept: seq<Request>)
    requires |path| >= 2 && Joined(path, edges)
  {
    && ChosenFor(edges, p.nslots, path, Busy(kept)) != [] && 0 < p.nslots
    && CountSrc(kept, p.src) < capacity && CountDst(kept, p.dst) < capacity
  }

  /** A request is admitted exactly when there is room for it: for one slot,
      some candidate channel is free; for more, some maximal run of free
      candidates is at least as long as asked; and both end nodes have a free
      transceiver. No request asking for no slot is admitted. */
  lemma AdmitsIffRoom(edges: seq<(int, int)>, capacity: int, p: Request, path: seq<int>, kept: seq<Request>)
    requires |path| >= 2 && Joined(path, edges)
    ensures p.nslots <= 0 ==> !Admits(edges, capacity, p, path, kept)
    ensures p.nslots == 1 ==>
              (Admits(edges, capacity, p, path, kept) <==>
                 CandidatesFor(edges, path, Busy(kept)) != []
                 && CountSrc(kept, p.src) < capacity && CountDst(kept, p.dst) < capacity)
    ensures p.nslots > 1 ==>
              (Admits(edges, capacity, p, path, kept) <==>
                 (exists r :: r in Runs(CandidatesFor(edges, path, Busy(kept))) && |r| >= p.nslots)
                 && CountSrc(kept, p.src) < capacity && CountDst(kept, p.dst) < capacity)
  {
    if p.nslots > 1 {
      BestGapSpec(p.nslots, CandidatesFor(edges, path, Busy(kept)));
    }
  }

  /** The channels `allocate` keeps are taken from the candidates: with more
      than one slot asked for, the best gap is a run of the candidates, at
      least that long, so it does not repeat and is long enough. */
  lemma NarrowedWithin(numSlots: int, channels: seq<int>)
    requires Increasing(channels)
    ensures var ch := if numSlots > 1 then BestGap(numSlots, channels) else channels;
            && (forall x :: x in ch ==> x in channels) && Distinct(ch)
            && (ch != [] ==> numSlots <= |ch|)
            && (1 < numSlots ==> Consecutive(ch))
  {
    if numSlots > 1 {
      var g := BestGap(numSlots, channels);
      BestGapSpec(numSlots, channels);
      if g != [] {
        RunsCover(channels, g);
        ConsecutiveAt(g);
      }
    }
  }

  /** Inside `allocate_slots`, after `k` rounds on fiber `f`: the channels
      taken on it so far are the first `k` candidates, and the next candidate
      is not among them. */
  lemma RowBefore(f: int, channels: seq<int>, k: int)
    requires Distinct(channels) && 0 <= k < |channels|
    ensures forall t :: 0 <= t < k ==> (f, channels[t]) in Row(f, channels[..k])
    ensures (f, channels[k]) !in Row(f, channels[..k])
  {
    var r := Row(f, channels[..k]);
    forall t | 0 <= t < k ensures (f, channels[t]) in r {
      assert r[t] == (f, channels[t]);
    }
    RowMembers(f, channels[..k]);
    assert channels[k] !in channels[..k];
  }
}
