/**
 * Many AODV nodes over a medium that may lose, duplicate, delay and overhear.  Every run in
 * which no repair timer finds its route still under repair keeps `NetOk`; a route can then
 * only lead to a node that is strictly fresher or closer, so next hops towards a destination
 * never form a cycle away from it.  Runs without local repair are among these.
 */
module AodvNetwork {
  import opened Options
  import opened AodvModel
  import opened AodvSteps

  datatype Net = Net(nodes: map<Addr, Node>, sent: set<Msg>)

  datatype Event =
    | Deliver(at: Addr, msg: Msg, now: real, renewed: bool)
    | NeighborLost(at: Addr, id: Addr)
    | LinkFailed(at: Addr, id: Addr)
    | Purge(at: Addr, now: real, waiting: set<Addr>)
    | Request(at: Addr, dst: Addr)
    | Data(at: Addr, dst: Addr, mine: bool, granted: bool, now: real)
    | HelloDue(at: Addr)
    | CachePurge(at: Addr, now: real)
    | Repair(at: Addr, dst: Addr, granted: bool)
    | RepairTimer(at: Addr, dst: Addr)

  // ---------------------------------------------------------------- the invariant

  ghost predicate Sent(net: Net, a: Ad) {
    exists m :: m in net.sent && AdOf(m) == Some(a)
  }

  /** The sender of a claim is the destination itself or covers the claim, and nobody
      claims more than the destination's own number. */
  ghost predicate Holds(nodes: map<Addr, Node>, a: Ad) {
    && AdOk(a)
    && a.via in nodes
    && (a.dst in nodes ==> a.seqno <= nodes[a.dst].seqno)
    && (a.dst != a.via ==> a.dst in nodes[a.via].table && Covers(nodes[a.via].table[a.dst], a))
  }

  ghost predicate NodesOk(net: Net) {
    forall i | i in net.nodes :: net.nodes[i].index == i && NodeOk(net.nodes[i])
  }

  ghost predicate SentOk(net: Net) {
    forall m | m in net.sent ::
      MsgOk(m) && m.sender in net.nodes && (AdOf(m).Some? ==> Holds(net.nodes, AdOf(m).value))
  }

  /** Every usable route was claimed by its next hop, with the entry's number and length. */
  ghost predicate RoutesHeard(net: Net) {
    forall i, d | i in net.nodes && d in net.nodes[i].table && net.nodes[i].table[d].hops.Finite? ::
      var e := net.nodes[i].table[d]; Sent(net, Ad(e.nexthop, d, e.seqno, e.hops.hops))
  }

  ghost predicate NetOk(net: Net) {
    NodesOk(net) && SentOk(net) && RoutesHeard(net)
  }

  // ---------------------------------------------------------------- runs

  predicate Initial(net: Net) {
    && net.sent == {}
    && forall i | i in net.nodes :: net.nodes[i] == Node(i, 2, 1, map[], map[], map[])
  }

  predicate Enabled(net: Net, ev: Event) {
    && ev.at in net.nodes
    && (ev.Deliver? ==> ev.msg in net.sent)
    && (ev.Request? ==> ev.dst in net.nodes[ev.at].table)
    && (ev.Repair? ==> ev.dst in net.nodes[ev.at].table && net.nodes[ev.at].table[ev.dst].hops.Finite?)
  }

  /** The event is no repair timer that finds its route still under repair. */
  predicate Timely(net: Net, ev: Event) {
    ev.RepairTimer? && ev.at in net.nodes && ev.dst in net.nodes[ev.at].table ==>
      !net.nodes[ev.at].table[ev.dst].flags.InRepair?
  }

  function React(n: Node, ev: Event): (Node, Out)
    requires ev.Request? || ev.Repair? ==> ev.dst in n.table
  {
    match ev
    case Deliver(_, m, now, renewed) => (
      match m
      case Rreq(_, _, _, _, _, _, _) => RecvRequest(n, m, now, renewed)
      case Rrep(_, _, _, _, _, _, _) => RecvReply(n, m, now, renewed)
      case Rerr(_, _) => RecvError(n, m)
      case Hello(_, _) => (RecvHello(n, m, now), Silent))
    case NeighborLost(_, id) => NbDelete(n, id)
    case LinkFailed(_, id) => HandleLinkFailure(n, id)
    case Purge(_, now, waiting) => (RtPurge(n, now, waiting), Silent)
    case Request(_, dst) => SendRequest(n, dst)
    case Data(_, dst, mine, granted, now) => RtResolve(n, dst, mine, granted, now)
    case HelloDue(_) => (n, SendHello(n))
    case CachePurge(_, now) => (IdPurge(n, now), Silent)
    case Repair(_, dst, granted) => RepairStart(n, dst, granted)
    case RepairTimer(_, dst) => (RepairTimeout(n, dst), Silent)
  }

  function Apply(net: Net, ev: Event): Net {
    if !Enabled(net, ev) then net
    else
      var (n', out) := React(net.nodes[ev.at], ev);
      Net(net.nodes[ev.at := n'], net.sent + if out.Send? then {out.msg} else {})
  }

  function Run(net: Net, events: seq<Event>): Net
    decreases |events|
  {
    if events == [] then net else Run(Apply(net, events[0]), events[1..])
  }

  lemma {:induction false} RunThen(net: Net, es: seq<Event>, ev: Event)
    ensures Run(net, es + [ev]) == Apply(Run(net, es), ev)
    decreases |es|
  {
    if es == [] {
      assert [ev][1..] == [];
    } else {
      RunThen(Apply(net, es[0]), es[1..], ev);
      assert (es + [ev])[1..] == es[1..] + [ev];
    }
  }

  /** Every repair of the run is over, one way or the other, when its timer expires. */
  predicate TimelyRun(net: Net, events: seq<Event>)
    decreases |events|
  {
    events == [] || (Timely(net, events[0]) && TimelyRun(Apply(net, events[0]), events[1..]))
  }

  // ---------------------------------------------------------------- preservation

  ghost function Heard(ev: Event): Option<Ad> {
    if ev.Deliver? then AdOf(ev.msg) else None
  }

  lemma ReactStep(n: Node, ev: Event)
    requires NodeOk(n)
    requires ev.Deliver? ==> MsgOk(ev.msg)
    requires Heard(ev).Some? && Heard(ev).value.dst == n.index ==> Heard(ev).value.seqno <= n.seqno
    requires ev.Request? || ev.Repair? ==> ev.dst in n.table
    requires ev.Repair? ==> n.table[ev.dst].hops.Finite?
    requires ev.RepairTimer? && ev.dst in n.table ==> !n.table[ev.dst].flags.InRepair?
    ensures var (n', out) := React(n, ev); NodeStep(n, n', Heard(ev), out) && (!ev.Repair? ==> NoNewRepair(n, n'))
  {
    forall d | d in n.table ensures EntryStep(d, Lookup(n.table, d), n.table[d], Heard(ev)) {
      assert EntryOk(n.table[d]);
    }
    match ev
    case Deliver(_, m, now, renewed) =>
      match m {
        case Rreq(_, _, _, _, _, _, _) => RecvRequestStep(n, m, now, renewed);
        case Rrep(_, _, _, _, _, _, _) => RecvReplyStep(n, m, now, renewed);
        case Rerr(_, _) => RecvErrorStep(n, m);
        case Hello(_, _) =>
      }
    case NeighborLost(_, id) => NbDeleteStep(n, id);
    case LinkFailed(_, id) => HandleLinkFailureStep(n, id);
    case Purge(_, now, waiting) => RtPurgeStep(n, now, waiting);
    case Request(_, dst) => SendRequestStep(n, dst);
    case Data(_, dst, mine, granted, now) => RtResolveStep(n, dst, mine, granted, now);
    case HelloDue(_) =>
    case CachePurge(_, now) =>
    case Repair(_, dst, granted) => RepairStartStep(n, dst, granted);
    case RepairTimer(_, dst) => RepairTimeoutStep(n, dst);
  }

  lemma HoldsAfter(net: Net, i: Addr, n': Node, heard: Option<Ad>, out: Out, a: Ad)
    requires NetOk(net) && Holds(net.nodes, a) && i in net.nodes && NodeStep(net.nodes[i], n', heard, out)
    ensures Holds(net.nodes[i := n'], a)
  {
  }

  /** A usable route's number never exceeds the destination's own. */
  lemma UsableBound(net: Net, i: Addr, d: Addr)
    requires NetOk(net) && i in net.nodes && d in net.nodes[i].table && net.nodes[i].table[d].hops.Finite?
    ensures d in net.nodes ==> net.nodes[i].table[d].seqno <= net.nodes[d].seqno
  {
  }

  lemma NewClaimHolds(net: Net, i: Addr, n': Node, heard: Option<Ad>, out: Out, a: Ad)
    requires NetOk(net) && i in net.nodes && NodeStep(net.nodes[i], n', heard, out)
    requires heard.Some? ==> Sent(net, heard.value)
    requires out.Send? && AdOf(out.msg) == Some(a)
    ensures Holds(net.nodes[i := n'], a)
  {
  }

  lemma SentOkAfter(net: Net, i: Addr, n': Node, heard: Option<Ad>, out: Out, net': Net)
    requires NetOk(net) && i in net.nodes && NodeStep(net.nodes[i], n', heard, out)
    requires heard.Some? ==> Sent(net, heard.value)
    requires net' == Net(net.nodes[i := n'], net.sent + if out.Send? then {out.msg} else {})
    ensures SentOk(net')
  {
    forall m | m in net'.sent
      ensures MsgOk(m) && m.sender in net'.nodes && (AdOf(m).Some? ==> Holds(net'.nodes, AdOf(m).value))
    {
      if m in net.sent {
        if AdOf(m).Some? {
          HoldsAfter(net, i, n', heard, out, AdOf(m).value);
        }
      } else if AdOf(m).Some? {
        NewClaimHolds(net, i, n', heard, out, AdOf(m).value);
      }
    }
  }

  lemma RoutesHeardAfter(net: Net, i: Addr, n': Node, heard: Option<Ad>, out: Out, net': Net)
    requires NetOk(net) && i in net.nodes && NodeStep(net.nodes[i], n', heard, out)
    requires heard.Some? ==> Sent(net, heard.value)
    requires net' == Net(net.nodes[i := n'], net.sent + if out.Send? then {out.msg} else {})
    ensures RoutesHeard(net')
  {
  }

  /** Every event but a repair timer that finds its route still under repair keeps the order. */
  lemma ApplyKeeps(net: Net, ev: Event)
    requires NetOk(net) && Timely(net, ev)
    ensures NetOk(Apply(net, ev))
  {
    if Enabled(net, ev) {
      var i := ev.at;
      var (n', out) := React(net.nodes[i], ev);
      if Heard(ev).Some? {
        assert Holds(net.nodes, Heard(ev).value);
      }
      ReactStep(net.nodes[i], ev);
      var net' := Apply(net, ev);
      SentOkAfter(net, i, n', Heard(ev), out, net');
      RoutesHeardAfter(net, i, n', Heard(ev), out, net');
    }
  }

  lemma {:induction false} RunKeeps(net: Net, events: seq<Event>)
    requires NetOk(net) && TimelyRun(net, events)
    ensures NetOk(Run(net, events))
    decreases |events|
  {
    if events != [] {
      ApplyKeeps(net, events[0]);
      RunKeeps(Apply(net, events[0]), events[1..]);
    }
  }

  /** The invariant in every state a timely run can reach. */
  lemma ReachableOk(init: Net, events: seq<Event>)
    requires Initial(init) && TimelyRun(init, events)
    ensures NetOk(Run(init, events))
  {
    RunKeeps(init, events);
  }

  /** The state of a network in which nothing is under repair. */
  predicate AllSettled(net: Net) {
    forall i | i in net.nodes :: Settled(net.nodes[i])
  }

  /** With local repair compiled out every run is timely, and no route is ever under repair. */
  lemma {:induction false} WithoutRepair(net: Net, events: seq<Event>)
    requires NetOk(net) && AllSettled(net) && forall ev | ev in events :: !ev.Repair?
    ensures TimelyRun(net, events) && AllSettled(Run(net, events))
    decreases |events|
  {
    if events != [] {
      var ev := events[0];
      assert AllSettled(Apply(net, ev)) by {
        if Enabled(net, ev) {
          if Heard(ev).Some? {
            assert Holds(net.nodes, Heard(ev).value);
          }
          ReactStep(net.nodes[ev.at], ev);
        }
      }
      ApplyKeeps(net, ev);
      WithoutRepair(Apply(net, ev), events[1..]);
    }
  }

  /** With local repair compiled out no assert of recvReply, recvError or handle_link_failure ever
      fires, whatever is received and whichever neighbour is lost. */
  lemma AssertsNeverFire(init: Net, events: seq<Event>, i: Addr, m: Msg, id: Addr)
    requires Initial(init) && (forall ev | ev in events :: !ev.Repair?) && i in Run(init, events).nodes
    ensures var n := Run(init, events).nodes[i];
            && FailureAsserts(n, id) && (m.Rerr? ==> ErrorAsserts(n, m)) && (m.Rrep? ==> ReplyAsserts(n, m))
  {
    WithoutRepair(init, events);
    ReachableOk(init, events);
    var n := Run(init, events).nodes[i];
    FailureAssertsIff(n, id);
    if m.Rerr? {
      ErrorAssertsIff(n, m);
    }
    if m.Rrep? && Better(Lookup(n.table, m.dst), m.dstSeq, m.hops) {
      ReplyAssertsIff(n, m);
    }
  }

  // ---------------------------------------------------------------- loop freedom

  /** i forwards packets for d to j; packets stop at d. */
  predicate NextHop(net: Net, d: Addr, i: Addr, j: Addr) {
    && i != d
    && i in net.nodes && d in net.nodes[i].table
    && net.nodes[i].table[d].hops.Finite? && net.nodes[i].table[d].nexthop == j
  }

  ghost predicate Closer(net: Net, d: Addr, i: Addr, j: Addr) {
    && i != d && i in net.nodes && d in net.nodes[i].table
    && (j == d
        || (&& j in net.nodes && d in net.nodes[j].table
            && var a := net.nodes[i].table[d];
               var b := net.nodes[j].table[d];
               || b.seqno > a.seqno
               || (b.seqno == a.seqno && b.hops.Finite? && Below(b.hops.hops, a.hops))))
  }

  predicate Walk(net: Net, d: Addr, w: seq<Addr>) {
    forall k | 0 <= k < |w| - 1 :: NextHop(net, d, w[k], w[k + 1])
  }

  lemma NextHopIsCloser(net: Net, d: Addr, i: Addr, j: Addr)
    requires NetOk(net) && NextHop(net, d, i, j)
    ensures Closer(net, d, i, j)
  {
  }

  lemma CloserTrans(net: Net, d: Addr, i: Addr, j: Addr, k: Addr)
    requires Closer(net, d, i, j) && Closer(net, d, j, k)
    ensures Closer(net, d, i, k)
  {
  }

  lemma {:induction false} WalkIsCloser(net: Net, d: Addr, w: seq<Addr>, a: nat, b: nat)
    requires NetOk(net) && Walk(net, d, w) && a < b < |w|
    ensures Closer(net, d, w[a], w[b])
    decreases b - a
  {
    assert NextHop(net, d, w[b - 1], w[b - 1 + 1]);
    NextHopIsCloser(net, d, w[b - 1], w[b]);
    if a < b - 1 {
      WalkIsCloser(net, d, w, a, b - 1);
      CloserTrans(net, d, w[a], w[b - 1], w[b]);
    }
  }

  /** After every run in which no repair timer finds its route still under repair, packets for
      any destination never visit a node twice. */
  lemma LoopFreedom(init: Net, events: seq<Event>, d: Addr, w: seq<Addr>)
    requires Initial(init) && TimelyRun(init, events) && Walk(Run(init, events), d, w)
    ensures forall a, b | 0 <= a < b < |w| :: w[a] != w[b]
  {
    ReachableOk(init, events);
    var net := Run(init, events);
    forall a, b | 0 <= a < b < |w| ensures w[a] != w[b] {
      WalkIsCloser(net, d, w, a, b);
    }
  }

  /** With local repair compiled out: after every run whatever. */
  lemma LoopFreedomWithoutRepair(init: Net, events: seq<Event>, d: Addr, w: seq<Addr>)
    requires Initial(init) && (forall ev | ev in events :: !ev.Repair?) && Walk(Run(init, events), d, w)
    ensures forall a, b | 0 <= a < b < |w| :: w[a] != w[b]
  {
    WithoutRepair(init, events);
    LoopFreedom(init, events, d, w);
  }

  /** Over any further run an entry's (number, distance) pair never gets worse. */
  lemma {:induction false} EntryProgress(net: Net, events: seq<Event>, i: Addr, d: Addr)
    requires NetOk(net) && TimelyRun(net, events) && i in net.nodes && d in net.nodes[i].table
    ensures i in Run(net, events).nodes && d in Run(net, events).nodes[i].table
    ensures Progress(net.nodes[i].table[d], Run(net, events).nodes[i].table[d])
    decreases |events|
  {
    if events != [] {
      var ev := events[0];
      var net1 := Apply(net, ev);
      if Enabled(net, ev) && ev.at == i {
        if Heard(ev).Some? {
          assert Holds(net.nodes, Heard(ev).value);
        }
        ReactStep(net.nodes[i], ev);
        assert EntryStep(d, net.nodes[i].table[d], net1.nodes[i].table[d], Heard(ev));
      }
      ApplyKeeps(net, ev);
      EntryProgress(net1, events[1..], i, d);
    }
  }
}
