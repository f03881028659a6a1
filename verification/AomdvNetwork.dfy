/**
 * Many AOMDV nodes over a medium that may lose, duplicate, delay and overhear: a message
 * once sent stays available, and any node may receive it at any later time.  Every run
 * keeps `NetOk`, and `NetOk` rules out routing loops for every destination at once.
 */
module AomdvNetwork {
  import opened Options
  import opened AomdvModel
  import opened AomdvSteps

  datatype Net = Net(nodes: map<Addr, Node>, sent: set<Msg>)

  datatype Event =
    | Deliver(at: Addr, msg: Msg, now: real, buffered: bool)
    | NeighborLost(at: Addr, id: Addr, queued: seq<Queued>, now: real)
    | LinkFailed(at: Addr, id: Addr)
    | Purge(at: Addr, now: real, waiting: set<Addr>)
    | Request(at: Addr, dst: Addr)
    | Data(at: Addr, dst: Addr, mine: bool, granted: bool, now: real)
    | HelloDue(at: Addr)
    | CachePurge(at: Addr, now: real)

  // ---------------------------------------------------------------- the invariant

  ghost predicate Sent(net: Net, a: Ad) {
    exists m :: m in net.sent && AdOf(m) == Some(a)
  }

  /** The sender of a claim is at least as fresh as the claim, or still advertises it. */
  ghost predicate Holds(nodes: map<Addr, Node>, a: Ad) {
    && a.via in nodes
    && var n := nodes[a.via];
       if a.dst == a.via then a.seqno <= n.seqno
       else
         && a.dst in n.table
         && var e := n.table[a.dst];
            e.seqno > a.seqno || (e.seqno == a.seqno && e.advertised == Hops(a.hops))
  }

  ghost predicate NodesOk(net: Net) {
    forall i | i in net.nodes :: net.nodes[i].index == i && NodeOk(net.nodes[i])
  }

  ghost predicate SentOk(net: Net) {
    forall m | m in net.sent ::
      && MsgOk(m)
      && m.sender in net.nodes
      && (AdOf(m).Some? ==> Holds(net.nodes, AdOf(m).value))
  }

  predicate Agree(a: Ad, b: Ad) {
    a.via == b.via && a.dst == b.dst && a.seqno == b.seqno ==> a.hops == b.hops
  }

  /** One hop count per sender, destination and sequence number, over the whole history. */
  ghost predicate Unique(net: Net) {
    forall a, b | Sent(net, a) && Sent(net, b) :: Agree(a, b)
  }

  /** Every stored path was advertised by its next hop under the entry's own number. */
  ghost predicate PathsHeard(net: Net) {
    forall i, d, p | i in net.nodes && d in net.nodes[i].table && p in net.nodes[i].table[d].paths ::
      p.hopcount >= 1 && Sent(net, Ad(p.nexthop, d, net.nodes[i].table[d].seqno, p.hopcount - 1))
  }

  ghost predicate NetOk(net: Net) {
    NodesOk(net) && SentOk(net) && Unique(net) && PathsHeard(net)
  }

  // ---------------------------------------------------------------- runs

  predicate Initial(net: Net) {
    && net.sent == {}
    && forall i | i in net.nodes ::
         net.nodes[i] == Node(i, 2, 1, map[], map[], net.nodes[i].maxPaths, net.nodes[i].lenDiff)
         && net.nodes[i].maxPaths >= 1
  }

  predicate Enabled(net: Net, ev: Event) {
    && ev.at in net.nodes
    && (ev.Deliver? ==> ev.msg in net.sent)
    && (ev.Request? ==> ev.dst in net.nodes[ev.at].table)
  }

  ghost function Receive(n: Node, m: Msg, now: real, buffered: bool): (Node, Out)
    requires NodeOk(n) && MsgOk(m)
  {
    match m
    case Rreq(_, _, _, _, _, _, _, _) => RecvRequest(n, m, now, buffered)
    case Rrep(sender, to, _, dst, dstSeq, hops, firstHop, lifetime, bid) =>
      RecvReply(n, sender, to, dst, dstSeq, hops, firstHop, lifetime, bid, now, buffered)
    case Rerr(_, _) => RecvError(n, m)
    case Hello(_, _) => RecvHello(n, m, now, buffered)
  }

  ghost function React(n: Node, ev: Event): (Node, Out)
    requires NodeOk(n)
    requires ev.Deliver? ==> MsgOk(ev.msg)
    requires ev.Request? ==> ev.dst in n.table
  {
    match ev
    case Deliver(_, m, now, buffered) => Receive(n, m, now, buffered)
    case NeighborLost(_, id, queued, now) => NbDelete(n, id, queued, now)
    case LinkFailed(_, id) => HandleLinkFailure(n, id)
    case Purge(_, now, waiting) => (RtPurge(n, now, waiting), Silent)
    case Request(_, dst) => SendRequest(n, dst)
    case Data(_, dst, mine, granted, now) => RtResolve(n, dst, mine, granted, now)
    case HelloDue(_) => (n, SendHello(n))
    case CachePurge(_, now) => (IdPurge(n, now), Silent)
  }

  ghost function Apply(net: Net, ev: Event): Net
    requires NetOk(net)
  {
    if !Enabled(net, ev) then net
    else
      var (n', out) := React(net.nodes[ev.at], ev);
      Net(net.nodes[ev.at := n'], net.sent + if out.Send? then {out.msg} else {})
  }

  ghost function Run(net: Net, events: seq<Event>): (r: Net)
    requires NetOk(net)
    ensures NetOk(r)
    decreases |events|
  {
    if events == [] then net
    else
      ApplyKeeps(net, events[0]);
      Run(Apply(net, events[0]), events[1..])
  }

  // ---------------------------------------------------------------- preservation

  lemma ReactStep(n: Node, ev: Event)
    requires NodeOk(n)
    requires ev.Deliver? ==> MsgOk(ev.msg)
    requires ev.Request? ==> ev.dst in n.table
    ensures var (n', out) := React(n, ev);
            NodeStep(n, n', if ev.Deliver? then AdOf(ev.msg) else None, out)
  {
    match ev
    case Deliver(_, m, now, buffered) =>
      match m {
        case Rreq(_, _, _, _, _, _, _, _) => RecvRequestStep(n, m, now, buffered);
        case Rrep(sender, to, _, dst, dstSeq, hops, firstHop, lifetime, bid) =>
          RecvReplyStep(n, sender, to, dst, dstSeq, hops, firstHop, lifetime, bid, now, buffered);
        case Rerr(_, _) => RecvErrorStep(n, m);
        case Hello(sender, dstSeq) =>
          RecvReplyStep(n, sender, n.index, sender, dstSeq, 0, n.index, HELLO_LIFETIME, 0, now, buffered);
      }
    case NeighborLost(_, id, queued, now) => NbDeleteStep(n, id, queued, now);
    case LinkFailed(_, id) => HandleLinkFailureStep(n, id);
    case Purge(_, now, waiting) => RtPurgeStep(n, now, waiting);
    case Request(_, dst) => SendRequestStep(n, dst);
    case Data(_, dst, mine, granted, now) => RtResolveStep(n, dst, mine, granted, now);
    case HelloDue(_) => StandsStill(n, n);
    case CachePurge(_, now) => StandsStill(n, IdPurge(n, now));
  }

  lemma StandsStill(n: Node, n': Node)
    requires NodeOk(n) && n' == n.(bcache := n'.bcache)
    ensures NodeStep(n, n', None, Silent)
  {
  }

  lemma HoldsAfter(nodes: map<Addr, Node>, i: Addr, n': Node, heard: Option<Ad>, out: Out, a: Ad)
    requires Holds(nodes, a) && i in nodes && nodes[i].index == i && NodeStep(nodes[i], n', heard, out)
    ensures Holds(nodes[i := n'], a)
  {
  }

  lemma SentOkAfter(net: Net, i: Addr, n': Node, heard: Option<Ad>, out: Out, net': Net)
    requires NetOk(net) && i in net.nodes && NodeStep(net.nodes[i], n', heard, out)
    requires net' == Net(net.nodes[i := n'], net.sent + if out.Send? then {out.msg} else {})
    ensures SentOk(net')
  {
    forall m | m in net'.sent
      ensures MsgOk(m) && m.sender in net'.nodes && (AdOf(m).Some? ==> Holds(net'.nodes, AdOf(m).value))
    {
      if m in net.sent && AdOf(m).Some? {
        HoldsAfter(net.nodes, i, n', heard, out, AdOf(m).value);
      }
    }
  }

  /** A new claim agrees with all earlier ones: its number's hop count was frozen when first sent. */
  lemma FreshClaimAgrees(net: Net, i: Addr, n': Node, heard: Option<Ad>, out: Out, a: Ad, b: Ad)
    requires NetOk(net) && i in net.nodes && NodeStep(net.nodes[i], n', heard, out)
    requires out.Send? && AdOf(out.msg) == Some(a) && Sent(net, b)
    ensures Agree(a, b)
  {
  }

  lemma UniqueAfter(net: Net, i: Addr, n': Node, heard: Option<Ad>, out: Out, net': Net)
    requires NetOk(net) && i in net.nodes && NodeStep(net.nodes[i], n', heard, out)
    requires net' == Net(net.nodes[i := n'], net.sent + if out.Send? then {out.msg} else {})
    ensures Unique(net')
  {
    forall a, b | Sent(net', a) && Sent(net', b) ensures Agree(a, b) {
      if !Sent(net, a) && Sent(net, b) {
        FreshClaimAgrees(net, i, n', heard, out, a, b);
      } else if Sent(net, a) && !Sent(net, b) {
        FreshClaimAgrees(net, i, n', heard, out, b, a);
      }
    }
  }

  lemma PathsHeardAfter(net: Net, i: Addr, n': Node, heard: Option<Ad>, out: Out, net': Net)
    requires NetOk(net) && i in net.nodes && NodeStep(net.nodes[i], n', heard, out)
    requires heard.Some? ==> Sent(net, heard.value)
    requires net' == Net(net.nodes[i := n'], net.sent + if out.Send? then {out.msg} else {})
    ensures PathsHeard(net')
  {
    forall a | Sent(net, a) ensures Sent(net', a) {
      var m :| m in net.sent && AdOf(m) == Some(a);
      assert m in net'.sent;
    }
    forall j, d, p | j in net'.nodes && d in net'.nodes[j].table && p in net'.nodes[j].table[d].paths
      ensures p.hopcount >= 1 && Sent(net', Ad(p.nexthop, d, net'.nodes[j].table[d].seqno, p.hopcount - 1))
    {
      if j == i {
        var e := Lookup(net.nodes[i].table, d);
        assert EntryStep(d, e, n'.table[d], heard);
        if e.seqno == n'.table[d].seqno && HasLink(e, p.nexthop, p.hopcount) {
          var q :| q in e.paths && q.nexthop == p.nexthop && q.hopcount == p.hopcount;
          assert d in net.nodes[i].table && q in net.nodes[i].table[d].paths;
        }
      } else {
        assert net.nodes[j] == net'.nodes[j];
      }
    }
  }

  lemma ApplyKeeps(net: Net, ev: Event)
    requires NetOk(net)
    ensures NetOk(Apply(net, ev))
  {
    if Enabled(net, ev) {
      var i := ev.at;
      var (n', out) := React(net.nodes[i], ev);
      var heard := if ev.Deliver? then AdOf(ev.msg) else None;
      ReactStep(net.nodes[i], ev);
      var net' := Apply(net, ev);
      SentOkAfter(net, i, n', heard, out, net');
      UniqueAfter(net, i, n', heard, out, net');
      PathsHeardAfter(net, i, n', heard, out, net');
    }
  }

  lemma InitialOk(net: Net)
    requires Initial(net)
    ensures NetOk(net)
  {
  }

  /** The state after a run from the start. */
  ghost function Reach(init: Net, events: seq<Event>): (r: Net)
    requires Initial(init)
    ensures NetOk(r)
  {
    InitialOk(init);
    Run(init, events)
  }

  // ---------------------------------------------------------------- loop freedom

  ghost predicate NextHop(net: Net, d: Addr, i: Addr, j: Addr) {
    && i in net.nodes
    && d in net.nodes[i].table
    && exists p :: p in net.nodes[i].table[d].paths && p.nexthop == j
  }

  /** j lies strictly closer to d than i does: fresher, or as fresh with fewer advertised hops. */
  ghost predicate Closer(net: Net, d: Addr, i: Addr, j: Addr) {
    && i in net.nodes && i != d && d in net.nodes[i].table
    && (j == d
        || (&& j in net.nodes && d in net.nodes[j].table
            && var a := net.nodes[i].table[d];
               var b := net.nodes[j].table[d];
               || b.seqno > a.seqno
               || (b.seqno == a.seqno && b.advertised.Hops? && Above(a.advertised, b.advertised.count))))
  }

  ghost predicate Walk(net: Net, d: Addr, w: seq<Addr>) {
    forall k | 0 <= k < |w| - 1 :: NextHop(net, d, w[k], w[k + 1])
  }

  lemma NextHopIsCloser(net: Net, d: Addr, i: Addr, j: Addr)
    requires NetOk(net) && NextHop(net, d, i, j)
    ensures Closer(net, d, i, j)
  {
  }

  lemma CloserTrans(net: Net, d: Addr, i: Addr, j: Addr, k: Addr)
    requires Closer(net, d, i, j) && Closer(net, d, j, k)
    ensures Closer(net, d, i, k)
  {
  }

  lemma {:induction false} WalkIsCloser(net: Net, d: Addr, w: seq<Addr>, a: nat, b: nat)
    requires NetOk(net) && Walk(net, d, w) && a < b < |w|
    ensures Closer(net, d, w[a], w[b])
    decreases b - a
  {
    assert NextHop(net, d, w[b - 1], w[b - 1 + 1]);
    NextHopIsCloser(net, d, w[b - 1], w[b]);
    if a < b - 1 {
      WalkIsCloser(net, d, w, a, b - 1);
      CloserTrans(net, d, w[a], w[b - 1], w[b]);
    }
  }

  /** In every reachable state, following any stored next hops towards any destination never
      visits a node twice. */
  lemma LoopFreedom(init: Net, events: seq<Event>, d: Addr, w: seq<Addr>)
    requires Initial(init)
    requires Walk(Reach(init, events), d, w)
    ensures forall a, b | 0 <= a < b < |w| :: w[a] != w[b]
  {
    var net := Reach(init, events);
    forall a, b | 0 <= a < b < |w| ensures w[a] != w[b] {
      WalkIsCloser(net, d, w, a, b);
    }
  }

  // ---------------------------------------------------------------- the source's assertions

  lemma OfferAssertsHold(net: Net, i: Addr, m: Msg, firstHop: Addr)
    requires NetOk(net) && i in net.nodes && m in net.sent && AdOf(m).Some?
    ensures OfferAsserts(Lookup(net.nodes[i].table, AdOf(m).value.dst), AdOf(m).value, firstHop)
  {
    var a := AdOf(m).value;
    var e := Lookup(net.nodes[i].table, a.dst);
    assert MsgOk(m) && Sent(net, a);
    assert NodeOk(net.nodes[i]);
    if e.seqno == a.seqno {
      var k := FindPath(e.paths, a.via, firstHop);
      if k.Some? {
        var p := e.paths[k.value];
        assert Sent(net, Ad(p.nexthop, a.dst, e.seqno, p.hopcount - 1));
      }
    }
  }

  lemma AssertsNeverFire(init: Net, events: seq<Event>, i: Addr, m: Msg, firstHop: Addr)
    requires Initial(init)
    requires i in Reach(init, events).nodes && m in Reach(init, events).sent && AdOf(m).Some?
    ensures OfferAsserts(Lookup(Reach(init, events).nodes[i].table, AdOf(m).value.dst), AdOf(m).value, firstHop)
  {
    OfferAssertsHold(Reach(init, events), i, m, firstHop);
  }

  /** Over a whole run, one node's messages about one destination under one number all carry
      the same hop count. */
  lemma AdvertisementUnique(init: Net, events: seq<Event>, m1: Msg, m2: Msg)
    requires Initial(init)
    requires m1 in Reach(init, events).sent && m2 in Reach(init, events).sent
    requires AdOf(m1).Some? && AdOf(m2).Some?
    requires var a, b := AdOf(m1).value, AdOf(m2).value; a.via == b.via && a.dst == b.dst && a.seqno == b.seqno
    ensures AdOf(m1).value.hops == AdOf(m2).value.hops
  {
    var net := Reach(init, events);
    var a, b := AdOf(m1).value, AdOf(m2).value;
    assert Sent(net, a) && Sent(net, b);
    assert Agree(a, b);
  }

  /** The parity asserts at lines 482, 955 and 1297: in every reachable state a route that is up
      has an even number, and one that is down an odd one or 0. */
  lemma UpIsEven(init: Net, events: seq<Event>, i: Addr, d: Addr)
    requires Initial(init) && i in Reach(init, events).nodes && d in Reach(init, events).nodes[i].table
    ensures var e := Reach(init, events).nodes[i].table[d];
            if e.flags.Up? then e.seqno % 2 == 0 else e.seqno == 0 || e.seqno % 2 == 1
  {
    var n := Reach(init, events).nodes[i];
    assert NodeOk(n) && EntryOk(n.table[d], n.maxPaths);
  }
}
