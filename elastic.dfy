/** The script version of the controller: the same admission controller, built
    with 6 transmitters and receivers per node and reset to 4, which also
    records in a module-level list one entry per request it decides on: 0 when
    the request is admitted, 1 when it is blocked. */
module ElasticNetwork {
  import opened Wrappers
  import opened Requests
  import opened LightPathControl

  /** Transmitters and receivers per node at start. */
  const TxRxNumber := 6
  /** Transmitters and receivers per node after a reset. */
  const ResetTxRx := 4

  /** The number of blocked requests recorded in `outcomes`. */
  function Blocked(outcomes: seq<int>): (k: nat)
    ensures k <= |outcomes|
  {
    if outcomes == [] then 0
    else Blocked(outcomes[..|outcomes| - 1]) + (if outcomes[|outcomes| - 1] == 1 then 1 else 0)
  }

  /** Recording one more outcome adds one blocked request exactly when the
      outcome is 1. */
  lemma BlockedSnoc(outcomes: seq<int>, b: int)
    ensures Blocked(outcomes + [b]) == Blocked(outcomes) + (if b == 1 then 1 else 0)
  {
    assert (outcomes + [b])[..|outcomes|] == outcomes;
  }

  /** The controller of the script together with its blocking record
      (`TASA_BLOQ`). */
  class Elastic {
    const control: Control
    /** One entry per request decided on: 0 admitted, 1 blocked. */
    var outcomes: seq<int>

    /** The controller's invariants hold, a reset restores 4 transmitters
        and receivers, every recorded outcome is 0 or 1, and the 1s are
        exactly the requests on the lost list. */
    ghost predicate Valid()
      reads this, control, control.txrx, control.slots
    {
      && control.Valid() && control.resetCapacity == ResetTxRx
      && (forall k :: 0 <= k < |outcomes| ==> outcomes[k] == 0 || outcomes[k] == 1)
      && Blocked(outcomes) == |control.pktLost|
    }

    /** `Control(network)`: 6 transmitters and receivers per node, every
        slot free, nothing recorded. */
    constructor (edges: seq<(int, int)>, nodes: nat, debug: bool)
      ensures Valid() && outcomes == []
      ensures fresh(control) && fresh(control.txrx) && fresh(control.slots)
      ensures control.edges == edges && control.nodes == nodes && control.debug == debug
      ensures control.capacity == TxRxNumber && control.resetCapacity == ResetTxRx
      ensures control.pktSent == [] && control.pktLost == []
      ensures forall n, k :: 0 <= n < nodes && 0 <= k < 2 ==> control.txrx[n, k] == TxRxNumber
      ensures forall e, c :: 0 <= e < |edges| && 0 <= c < SlotsNumber ==> control.slots[e, c]
    {
      control := new Control(edges, nodes, TxRxNumber, ResetTxRx, debug);
      outcomes := [];
    }

    /** `put(pkt)`: the controller's `put`, and for a request it decides on
        (one that is not `None`, with `debug` on) one more outcome: 0 when the
        request is admitted and joins the active list holding the slots it
        took, 1 when it is blocked and joins the lost list. A reset restores 4
        transmitters and receivers per node, not 6. */
    method Put(pkt: Option<Request>, now: real, path: seq<int>)
      requires Valid()
      requires pkt.Some? && control.debug ==> Route(path, pkt.value.src, pkt.value.dst, control.edges, control.nodes)
      modifies this`outcomes, control, control.txrx, control.slots
      ensures Valid()
      ensures pkt.Some? ==> control.capacity == old(control.capacity)
      ensures pkt.None? ==>
                && outcomes == old(outcomes) && control.pktSent == []
                && control.capacity == ResetTxRx && control.pktLost == old(control.pktLost)
      ensures pkt.Some? && !control.debug ==>
                && outcomes == old(outcomes)
                && control.pktSent == old(control.pktSent) && control.pktLost == old(control.pktLost)
      ensures pkt.Some? && control.debug ==>
                var p, kept := pkt.value, Kept(old(control.pktSent), now);
                var admit := Admits(control.edges, old(control.capacity), p, path, kept);
                var ch := ChosenFor(control.edges, p.nslots, path, Busy(kept));
                && outcomes == old(outcomes) + [if admit then 0 else 1]
                && (admit ==>
                      && control.pktLost == old(control.pktLost)
                      && control.pktSent == kept + [p.(slotUsed := Assignment(EdgeIndices(path, control.edges), ch[..p.nslots]))])
                && (!admit ==> control.pktSent == kept && control.pktLost == old(control.pktLost) + [p])
    {
      var admitted, ch := control.Put(pkt, now, path);
      if admitted.Some? {
        BlockedSnoc(outcomes, if admitted.value then 0 else 1);
        outcomes := outcomes + [if admitted.value then 0 else 1];
      }
    }
  }
}
