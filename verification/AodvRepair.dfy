/**
 * What local repair does to AODV's order.  The repair timer takes a route down without a new
 * sequence number.  AodvNetwork shows that every run in which no timer finds its route still
 * under repair is loop free; here is the converse: such a timer always breaks the order, and
 * wherever another node still routes through the failed one, under its number, it leads to a
 * routing loop.
 */
module AodvRepair {
  import opened Options
  import opened AodvModel
  import opened AodvSteps
  import opened AodvNetwork
  import opened AodvDiscovery

  /** The timer keeps one entry's order unless the route is still under repair. */
  lemma TimeoutProgress(n: Node, d: Addr)
    requires d in n.table
    ensures Progress(n.table[d], RepairTimeout(n, d).table[d]) <==>
            !(n.table[d].flags.InRepair? && n.table[d].hops.Finite?)
  {
  }

  /** A repair timer keeps the network in order exactly when its route is not still under
      repair. */
  lemma TimerIff(net: Net, i: Addr, d: Addr)
    requires NetOk(net)
    ensures NetOk(Apply(net, RepairTimer(i, d))) <==> Timely(net, RepairTimer(i, d))
  {
    var ev := RepairTimer(i, d);
    if Timely(net, ev) {
      ApplyKeeps(net, ev);
    } else {
      var n, net' := net.nodes[i], Apply(net, ev);
      assert NodeOk(n) && EntryOk(n.table[d]);
      assert net'.nodes[i] == RepairTimeout(n, d);
      assert !EntryOk(net'.nodes[i].table[d]);
      assert !NodeOk(net'.nodes[i]);
    }
  }

  /** A repair makes the assert of handle_link_failure fail if the next hop is lost while it is
      under way. */
  lemma RepairFires(net: Net, i: Addr, d: Addr, granted: bool)
    requires NetOk(net) && i in net.nodes && d in net.nodes[i].table && net.nodes[i].table[d].hops.Finite?
    ensures i in Apply(net, Repair(i, d, granted)).nodes
    ensures !FailureAsserts(Apply(net, Repair(i, d, granted)).nodes[i], net.nodes[i].table[d].nexthop)
  {
    var n := Apply(net, Repair(i, d, granted)).nodes[i];
    assert EntryOk(net.nodes[i].table[d]);
    assert Uses(n.table[d], net.nodes[i].table[d].nexthop) && !UpAndEven(n.table[d]);
  }

  /** Repair begins at i, its request goes out, and the timer expires. */
  function Failure(i: Addr, d: Addr): seq<Event> {
    [Repair(i, d, true), RepairTimer(i, d)]
  }

  /** Packets from j for d follow w to i, which they reach for the first time at its end. */
  predicate Reaches(net: Net, d: Addr, w: seq<Addr>, j: Addr, i: Addr) {
    && |w| >= 2 && w[0] == j && w[|w| - 1] == i && i !in w[..|w| - 1]
    && Walk(net, d, w)
  }

  /** Whenever j reaches d through i, over however many hops, with the number i itself has, and j
      has not seen i's next request: a repair at i whose timer finds it under way, followed by two
      ordinary deliveries, makes i forward to j, so that packets go round along w. */
  lemma RepairLoops(net: Net, i: Addr, j: Addr, d: Addr, w: seq<Addr>, now: real)
    requires NetOk(net) && i in net.nodes && d != i && d in net.nodes[i].table && net.nodes[i].table[d].hops.Finite?
    requires Reaches(net, d, w, j, i) && j in net.nodes && d in net.nodes[j].table
    requires net.nodes[j].table[d].seqno == net.nodes[i].table[d].seqno && (i, net.nodes[i].bid) !in net.nodes[j].bcache
    ensures exists rreq, rrep ::
              var net' := Run(net, Failure(i, d) + [Deliver(j, rreq, now, false), Deliver(i, rrep, now, false)]);
              Walk(net', d, w + [j])
  {
    assert NextHop(net, d, w[0], w[1]) && j in w[..|w| - 1];
    var net1 := Apply(Apply(net, Repair(i, d, true)), RepairTimer(i, d));
    var rreq := RepairRequest(net.nodes[i], d);
    var rrep := Answer(net.nodes[j], rreq, d, now);
    Failed(net, i, d);
    assert NodeOk(net.nodes[j]) && net.nodes[j].index == j;
    WalkElsewhere(net, net1, d, w, i);
    LoopAfter(net1, i, j, d, w, rreq, rrep, now);
    RunFour(net, Repair(i, d, true), RepairTimer(i, d), Deliver(j, rreq, now, false), Deliver(i, rrep, now, false));
  }

  /** The walk is still there when no other node's route to d has changed. */
  lemma WalkElsewhere(net: Net, net': Net, d: Addr, w: seq<Addr>, i: Addr)
    requires Walk(net, d, w) && |w| >= 1 && i !in w[..|w| - 1]
    requires forall j | j in net.nodes && j != i && d in net.nodes[j].table && net.nodes[j].table[d].hops.Finite? ::
               NextHop(net, d, j, net.nodes[j].table[d].nexthop) ==> NextHop(net', d, j, net.nodes[j].table[d].nexthop)
    ensures Walk(net', d, w)
  {
    forall k | 0 <= k < |w| - 1
      ensures NextHop(net', d, w[k], w[k + 1])
    {
      assert w[k] == w[..|w| - 1][k];
      assert NextHop(net, d, w[k], w[k + 1]);
    }
  }

  /** The shortest case: j's next hop is i, and the two forward to each other. */
  lemma NeighboursLoop(net: Net, i: Addr, j: Addr, d: Addr, now: real)
    requires NetOk(net) && i in net.nodes && i != j && d != i
    requires d in net.nodes[i].table && net.nodes[i].table[d].hops.Finite?
    requires NextHop(net, d, j, i) && net.nodes[j].table[d].seqno == net.nodes[i].table[d].seqno
    requires (i, net.nodes[i].bid) !in net.nodes[j].bcache
    ensures exists rreq, rrep ::
              var net' := Run(net, Failure(i, d) + [Deliver(j, rreq, now, false), Deliver(i, rrep, now, false)]);
              NextHop(net', d, i, j) && NextHop(net', d, j, i)
  {
    RepairLoops(net, i, j, d, [j, i], now);
    var rreq, rrep :| var net' := Run(net, Failure(i, d) + [Deliver(j, rreq, now, false), Deliver(i, rrep, now, false)]);
                      Walk(net', d, [j, i] + [j]);
    var net' := Run(net, Failure(i, d) + [Deliver(j, rreq, now, false), Deliver(i, rrep, now, false)]);
    var round := [j, i] + [j];
    assert NextHop(net', d, round[0], round[1]) && NextHop(net', d, round[1], round[2]);
  }

  function RepairRequest(n: Node, d: Addr): Msg
    requires d in n.table
  {
    Rreq(n.index, n.index, n.seqno + 2, 1, d, n.table[d].seqno, n.bid)
  }

  /** What a failed repair leaves: the route down under its old number, and a request for it. */
  lemma Failed(net: Net, i: Addr, d: Addr)
    requires NetOk(net) && i in net.nodes && d in net.nodes[i].table && net.nodes[i].table[d].hops.Finite?
    ensures var net1 := Apply(Apply(net, Repair(i, d, true)), RepairTimer(i, d));
            && net1.nodes.Keys == net.nodes.Keys && (forall j | j in net.nodes && j != i :: net1.nodes[j] == net.nodes[j])
            && net1.nodes[i].index == net.nodes[i].index == i && d in net1.nodes[i].table
            && net1.nodes[i].table[d].hops.Infinite? && net1.nodes[i].table[d].seqno == net.nodes[i].table[d].seqno
            && RepairRequest(net.nodes[i], d) in net1.sent
  {
  }

  /** The two deliveries: j answers i's request from its table, and i believes the answer. */
  lemma LoopAfter(net: Net, i: Addr, j: Addr, d: Addr, w: seq<Addr>, rreq: Msg, rrep: Msg, now: real)
    requires i in net.nodes && d != i && Reaches(net, d, w, j, i)
    requires j in net.nodes && net.nodes[i].index == i && net.nodes[j].index == j
    requires d in net.nodes[i].table && net.nodes[i].table[d].hops.Infinite?
    requires d in net.nodes[j].table && net.nodes[j].table[d].seqno == net.nodes[i].table[d].seqno
    requires rreq in net.sent && rreq.Rreq? && rreq.sender == i && rreq.src == i && rreq.dst == d
    requires rreq.dstSeq == net.nodes[i].table[d].seqno && (i, rreq.bid) !in net.nodes[j].bcache
    requires net.nodes[j].table[d].hops.Finite? && rrep == Answer(net.nodes[j], rreq, d, now)
    ensures var net' := Apply(Apply(net, Deliver(j, rreq, now, false)), Deliver(i, rrep, now, false));
            Walk(net', d, w + [j])
  {
    assert NextHop(net, d, w[0], w[1]) && w[0] == w[..|w| - 1][0];
    var net2 := Apply(net, Deliver(j, rreq, now, false));
    Answers(net, i, j, d, rreq, rrep, now);
    WalkElsewhere(net, net2, d, w, i);
    var net3 := Apply(net2, Deliver(i, rrep, now, false));
    WalkElsewhere(net2, net3, d, w, i);
    forall k | 0 <= k < |w|
      ensures NextHop(net3, d, (w + [j])[k], (w + [j])[k + 1])
    {
      assert k < |w| - 1 ==> NextHop(net3, d, w[k], w[k + 1]);
    }
  }

  lemma Answers(net: Net, i: Addr, j: Addr, d: Addr, rreq: Msg, rrep: Msg, now: real)
    requires i in net.nodes && j in net.nodes && i != j && d != i && d != j
    requires net.nodes[i].index == i && net.nodes[j].index == j
    requires d in net.nodes[i].table && net.nodes[i].table[d].hops.Infinite?
    requires d in net.nodes[j].table && net.nodes[j].table[d].hops.Finite?
    requires net.nodes[j].table[d].seqno == net.nodes[i].table[d].seqno
    requires rreq in net.sent && rreq.Rreq? && rreq.sender == i && rreq.src == i && rreq.dst == d
    requires rreq.dstSeq == net.nodes[i].table[d].seqno && (i, rreq.bid) !in net.nodes[j].bcache
    requires rrep == Answer(net.nodes[j], rreq, d, now)
    ensures var net2 := Apply(net, Deliver(j, rreq, now, false));
            var net3 := Apply(net2, Deliver(i, rrep, now, false));
            && net2.nodes.Keys == net3.nodes.Keys == net.nodes.Keys
            && (forall k | k in net.nodes && k != j :: net2.nodes[k] == net.nodes[k])
            && (forall k | k in net.nodes && k != i :: net3.nodes[k] == net2.nodes[k])
            && d in net2.nodes[j].table && net2.nodes[j].table[d].hops == net.nodes[j].table[d].hops
            && net2.nodes[j].table[d].nexthop == net.nodes[j].table[d].nexthop
            && NextHop(net3, d, i, j)
  {
    var net2 := Apply(net, Deliver(j, rreq, now, false));
    assert rrep in net2.sent;
    assert net2.nodes[i] == net.nodes[i];
  }

  lemma RunFour(net: Net, ev1: Event, ev2: Event, ev3: Event, ev4: Event)
    ensures Run(net, [ev1, ev2] + [ev3, ev4]) == Apply(Apply(Apply(Apply(net, ev1), ev2), ev3), ev4)
  {
    var net2 := Apply(Apply(net, ev1), ev2);
    assert [ev1, ev2] + [ev3, ev4] == [ev1] + ([ev2] + ([ev3] + ([ev4] + [])));
    RunCons(net, ev1, [ev2] + ([ev3] + ([ev4] + [])));
    RunCons(Apply(net, ev1), ev2, [ev3] + ([ev4] + []));
    RunCons(net2, ev3, [ev4] + []);
    RunCons(Apply(net2, ev3), ev4, []);
  }

  lemma RunCons(net: Net, ev: Event, rest: seq<Event>)
    ensures Run(net, [ev] + rest) == Run(Apply(net, ev), rest)
  {
  }

  /** What a node with a fresh enough route to d answers to a first-hand request. */
  function Answer(n: Node, m: Msg, d: Addr, now: real): Msg
    requires m.Rreq? && d in n.table && n.table[d].hops.Finite?
  {
    var back := Reverse(Lookup(n.table, m.src), m, now, false).nexthop;
    Rrep(n.index, m.src, back, d, n.table[d].seqno, n.table[d].hops.hops + 1, (n.table[d].expire - now).Floor as real)
  }

  // ---------------------------------------------------------------- from fresh nodes

  lemma {:induction false} NothingRepaired(w: seq<Addr>, k: nat, now: real)
    requires k < |w|
    ensures forall ev | ev in Asking(w, k, now) :: !ev.Repair?
  {
    if k > 0 {
      NothingRepaired(w, k - 1, now);
    }
  }

  lemma {:induction false} DiscoveryRepairsNothing(w: seq<Addr>, k: nat, now: real)
    requires k < |w|
    ensures forall ev | ev in Discovering(w, k, now) :: !ev.Repair?
    decreases |w| - k
  {
    if k == |w| - 1 {
      NothingRepaired(w, k, now);
    } else {
      DiscoveryRepairsNothing(w, k + 1, now);
    }
  }

  /** After a discovery along a line every node on it reaches the destination through the next one,
      in a state that satisfies the network invariant. */
  lemma Discovered(net: Net, w: seq<Addr>, now: real)
    requires Line(net, w)
    ensures NetOk(Run(net, Discovery(w, now)))
    ensures forall k | 0 <= k < |w| - 1 :: Routed(Run(net, Discovery(w, now)), w, k)
    ensures Walk(Run(net, Discovery(w, now)), w[|w| - 1], w)
  {
    DiscoveryTheorem(net, w, now);
    DiscoveryRepairsNothing(w, 0, now);
    WithoutRepair(net, Discovery(w, now));
    ReachableOk(net, Discovery(w, now));
  }

  /** The first nodes of a line, up to node k, are such a walk. */
  lemma WalkUpTo(net: Net, w: seq<Addr>, k: nat)
    requires 0 < k < |w| - 1 && Walk(net, w[|w| - 1], w) && forall i, j | 0 <= i < j < |w| :: w[i] != w[j]
    ensures Reaches(net, w[|w| - 1], w[..k + 1], w[0], w[k])
  {
    var v := w[..k + 1];
    forall i | 0 <= i < |v| - 1
      ensures NextHop(net, w[|w| - 1], v[i], v[i + 1])
    {
      assert NextHop(net, w[|w| - 1], w[i], w[i + 1]);
    }
  }

  /** Wherever on the line a repair fails: an ordinary discovery, and then a failed repair at node k,
      end with packets from the source going round through it. */
  lemma RepairLoopReachable(net: Net, w: seq<Addr>, k: nat, now: real)
    requires Line(net, w) && 0 < k < |w| - 1
    ensures exists rreq, rrep ::
              Walk(Run(Run(net, Discovery(w, now)),
                       Failure(w[k], w[|w| - 1]) + [Deliver(w[0], rreq, now, false), Deliver(w[k], rrep, now, false)]),
                   w[|w| - 1], w[..k + 1] + [w[0]])
  {
    Discovered(net, w, now);
    var net' := Run(net, Discovery(w, now));
    assert Routed(net', w, 0) && Routed(net', w, k);
    WalkUpTo(net', w, k);
    RepairLoops(net', w[k], w[0], w[|w| - 1], w[..k + 1], now);
  }

  /** And wherever on the line a repair begins, the loss of the next hop makes the assert fail. */
  lemma AssertFires(net: Net, w: seq<Addr>, k: nat, granted: bool, now: real)
    requires Line(net, w) && k < |w| - 1
    ensures var net' := Run(net, Discovery(w, now) + [Repair(w[k], w[|w| - 1], granted)]);
            w[k] in net'.nodes && !FailureAsserts(net'.nodes[w[k]], w[k + 1])
  {
    Discovered(net, w, now);
    var net' := Run(net, Discovery(w, now));
    assert Routed(net', w, k);
    RepairFires(net', w[k], w[|w| - 1], granted);
    RunThen(net, Discovery(w, now), Repair(w[k], w[|w| - 1], granted));
  }
}
