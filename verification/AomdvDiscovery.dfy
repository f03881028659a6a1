/**
 * Requests are answered in every reachable state, and route discovery along a line of nodes of any
 * length: the request passed along from the source and the reply passed back leave every node on
 * the line with a path to the destination through the next one.
 */
module AomdvDiscovery {
  import opened Options
  import opened AomdvModel
  import opened AomdvSteps
  import opened AomdvNetwork
  import opened AomdvEffects

  /** In every reachable state a request that was sent is answered by its destination as soon as
      the destination receives it and keeps what it offers, which it does with every fresher one. */
  lemma RequestIsAnswered(init: Net, events: seq<Event>, m: Msg, now: real, buffered: bool)
    requires Initial(init) && m in Reach(init, events).sent && m.Rreq?
    requires m.dst in Reach(init, events).nodes && m.src != m.dst
    requires KeepsRequest(Reach(init, events).nodes[m.dst], m)
    ensures NodeOk(Reach(init, events).nodes[m.dst]) && MsgOk(m)
    ensures var n := Reach(init, events).nodes[m.dst];
            var (n', out) := RecvRequest(n, m, now, buffered);
            out == Send(Rrep(m.dst, m.src, m.sender, m.dst, n'.seqno, 0, m.sender, 10.0, m.bid)) && n'.seqno >= m.dstSeq
  {
    var net := Reach(init, events);
    assert net.nodes[m.dst].index == m.dst;
    RequestAtDestination(net.nodes[m.dst], m, now, buffered);
  }

  // ---------------------------------------------------------------- a line of nodes

  /** Distinct nodes that have heard nothing yet, from a source w[0] to another node. */
  predicate Line(net: Net, w: seq<Addr>) {
    && |w| >= 2 && Initial(net)
    && (forall i | 0 <= i < |w| :: w[i] in net.nodes)
    && (forall i, j | 0 <= i < j < |w| :: w[i] != w[j])
  }

  /** The request as node k of the line sends it. */
  function RequestAt(w: seq<Addr>, k: nat): Msg
    requires k < |w|
  {
    Rreq(w[k], w[0], 4, k, if k == 0 then 0 else w[1], w[|w| - 1], 0, 1)
  }

  /** The reply as node k of the line sends it. */
  function ReplyAt(w: seq<Addr>, k: nat): Msg
    requires 0 < k < |w|
  {
    Rrep(w[k], w[0], w[k - 1], w[|w| - 1], 2, |w| - 1 - k, w[|w| - 2], 10.0, 1)
  }

  /** The source has a packet for the destination, and nodes 1 to k receive the request in turn. */
  function Asking(w: seq<Addr>, k: nat, now: real): seq<Event>
    requires k < |w|
  {
    if k == 0 then [Data(w[0], w[|w| - 1], true, true, now)]
    else Asking(w, k - 1, now) + [Deliver(w[k], RequestAt(w, k - 1), now, false)]
  }

  /** Then the nodes from the last but one down to node k receive the reply. */
  function Discovering(w: seq<Addr>, k: nat, now: real): seq<Event>
    requires k < |w|
    decreases |w| - k
  {
    if k == |w| - 1 then Asking(w, k, now)
    else Discovering(w, k + 1, now) + [Deliver(w[k], ReplyAt(w, k + 1), now, false)]
  }

  function Discovery(w: seq<Addr>, now: real): seq<Event>
    requires |w| > 0
  {
    Discovering(w, 0, now)
  }

  lemma {:induction false} RunThen(net: Net, es: seq<Event>, ev: Event)
    requires NetOk(net)
    ensures Run(net, es + [ev]) == Apply(Run(net, es), ev)
    decreases |es|
  {
    if es == [] {
      assert [ev][1..] == [];
      ApplyKeeps(net, ev);
      assert Run(Apply(net, ev), []) == Apply(net, ev);
    } else {
      ApplyKeeps(net, es[0]);
      RunThen(Apply(net, es[0]), es[1..], ev);
      assert (es + [ev])[1..] == es[1..] + [ev];
    }
  }

  // ---------------------------------------------------------------- the request

  predicate Untouched(net: Net, i: Addr) {
    && i in net.nodes
    && var n := net.nodes[i];
       n == Node(i, 2, 1, map[], map[], n.maxPaths, n.lenDiff) && n.maxPaths >= 1
  }

  /** The source has asked: its entry for the destination is blank, and it knows nothing else. */
  predicate Asked(net: Net, w: seq<Addr>)
    requires |w| >= 2
  {
    var d := w[|w| - 1];
    && w[0] in net.nodes
    && var n := net.nodes[w[0]];
       n.index == w[0] && n.table.Keys == {d} && n.table[d].seqno == 0 && n.table[d].flags.Down?
  }

  /** Node k has passed the request on, and knows the way back and nothing else. */
  predicate PassedOn(net: Net, w: seq<Addr>, k: nat)
    requires 0 < k < |w|
  {
    && w[k] in net.nodes
    && var n := net.nodes[w[k]];
       && n.index == w[k] && n.bcache.Keys == {(w[0], 1)} && n.bcache[(w[0], 1)].count == 0
       && n.table.Keys == {w[0]} && n.table[w[0]].flags.Up?
       && n.table[w[0]].paths != [] && n.table[w[0]].paths[0].nexthop == w[k - 1]
  }

  predicate AskedUpTo(net: Net, w: seq<Addr>, k: nat)
    requires k < |w| && |w| >= 2
  {
    && Asked(net, w)
    && (forall i | 0 < i <= k :: PassedOn(net, w, i))
    && (forall i | k < i < |w| :: Untouched(net, w[i]))
  }

  lemma DataAsks(net: Net, w: seq<Addr>, now: real)
    requires Line(net, w) && NetOk(net)
    ensures var net' := Apply(net, Data(w[0], w[|w| - 1], true, true, now));
            AskedUpTo(net', w, 0) && RequestAt(w, 0) in net'.sent && net'.nodes.Keys == net.nodes.Keys
  {
  }

  /** What a fresh node does with the request: learns the way back, and passes it on or answers. */
  lemma FreshNode(n: Node, w: seq<Addr>, k: nat, now: real)
    requires |w| >= 2 && 0 < k < |w| && n == Node(w[k], 2, 1, map[], map[], n.maxPaths, n.lenDiff) && n.maxPaths >= 1
    requires forall i, j | 0 <= i < j < |w| :: w[i] != w[j]
    ensures MsgOk(RequestAt(w, k - 1)) && NodeOk(n)
    ensures var (n', out) := RecvRequest(n, RequestAt(w, k - 1), now, false);
            && n'.index == w[k] && n'.bcache.Keys == {(w[0], 1)} && n'.bcache[(w[0], 1)].count == 0
            && n'.table.Keys == {w[0]} && n'.table[w[0]].flags.Up?
            && n'.table[w[0]].paths != [] && n'.table[w[0]].paths[0].nexthop == w[k - 1]
            && out == Send(if k < |w| - 1 then RequestAt(w, k) else ReplyAt(w, k))
  {
    var m := RequestAt(w, k - 1);
    var p := Path(w[k - 1], k, now + 6.0, w[1]);
    var u := UpdateReverse(FRESH, n.maxPaths, n.lenDiff, w[k - 1], 4, k - 1, if k == 1 then w[k] else w[1], m.dst == n.index, now);
    assert u.Kept? && u.entry.paths == [p];
    OnePath(p);
  }

  lemma OnePath(p: Path)
    requires p.hopcount > 0
    ensures MaxHopcount([p]) == Hops(p.hopcount)
  {
    assert [p][1..] == [];
  }

  /** One delivery of the request. */
  lemma RequestPasses(net: Net, w: seq<Addr>, k: nat, now: real)
    requires NetOk(net) && |w| >= 2 && 0 < k < |w| && AskedUpTo(net, w, k - 1) && RequestAt(w, k - 1) in net.sent
    requires forall i, j | 0 <= i < j < |w| :: w[i] != w[j]
    ensures var net' := Apply(net, Deliver(w[k], RequestAt(w, k - 1), now, false));
            && AskedUpTo(net', w, k) && net'.nodes.Keys == net.nodes.Keys
            && (if k < |w| - 1 then RequestAt(w, k) else ReplyAt(w, k)) in net'.sent
  {
    var net' := Apply(net, Deliver(w[k], RequestAt(w, k - 1), now, false));
    assert Untouched(net, w[k]);
    FreshNode(net.nodes[w[k]], w, k, now);
    assert net'.nodes == net.nodes[w[k] := net'.nodes[w[k]]];
    assert PassedOn(net', w, k);
    forall i | 0 < i < k
      ensures PassedOn(net', w, i)
    {
      assert PassedOn(net, w, i);
    }
  }

  lemma {:induction false} AskingReaches(net: Net, w: seq<Addr>, k: nat, now: real)
    requires Line(net, w) && NetOk(net) && k < |w|
    ensures var net' := Run(net, Asking(w, k, now));
            && AskedUpTo(net', w, k) && net'.nodes.Keys == net.nodes.Keys
            && (if k < |w| - 1 then RequestAt(w, k) else ReplyAt(w, k)) in net'.sent
  {
    if k == 0 {
      var ev := Data(w[0], w[|w| - 1], true, true, now);
      RunThen(net, [], ev);
      assert [] + [ev] == [ev];
      DataAsks(net, w, now);
    } else {
      AskingReaches(net, w, k - 1, now);
      RequestPasses(Run(net, Asking(w, k - 1, now)), w, k, now);
      RunThen(net, Asking(w, k - 1, now), Deliver(w[k], RequestAt(w, k - 1), now, false));
    }
  }

  // ---------------------------------------------------------------- the reply

  /** Node k has one path: through the next node of the line, with as many hops as are left. */
  predicate Routed(net: Net, w: seq<Addr>, k: nat)
    requires k < |w| - 1
  {
    && w[k] in net.nodes
    && var n, d := net.nodes[w[k]], w[|w| - 1];
       && d in n.table && n.table[d].flags.Up? && n.table[d].seqno == 2 && |n.table[d].paths| == 1
       && var p := n.table[d].paths[0];
          p.nexthop == w[k + 1] && p.hopcount == |w| - 1 - k && p.lasthop == w[|w| - 2]
  }

  /** The nodes before k still wait for the reply. */
  predicate AnsweredDownTo(net: Net, w: seq<Addr>, k: nat)
    requires k < |w| && |w| >= 2
  {
    && (if k > 0 then Asked(net, w) else true)
    && (forall i | 0 < i < k :: PassedOn(net, w, i))
    && (forall i | k <= i < |w| - 1 :: Routed(net, w, i))
  }

  /** What a node that waits for the reply does with it. */
  lemma WaitingNode(n: Node, w: seq<Addr>, k: nat, now: real)
    requires NodeOk(n) && |w| >= 2 && k < |w| - 1 && n.index == w[k]
    requires forall i, j | 0 <= i < j < |w| :: w[i] != w[j]
    requires Lookup(n.table, w[|w| - 1]).seqno == 0
    requires k > 0 ==>
               && w[0] in n.table && n.table[w[0]].flags.Up? && n.table[w[0]].paths[0].nexthop == w[k - 1]
               && (w[0], 1) in n.bcache && n.bcache[(w[0], 1)].count == 0
    ensures var d := w[|w| - 1];
            var (n', out) := RecvReply(n, w[k + 1], w[0], d, 2, |w| - 2 - k, w[|w| - 2], 10.0, 1, now, false);
            && d in n'.table && n'.table[d].flags.Up? && n'.table[d].seqno == 2
            && n'.table[d].paths == [Path(w[k + 1], |w| - 1 - k, now + 10.0, w[|w| - 2])]
            && (k > 0 ==> out == Send(ReplyAt(w, k)))
  {
    var d := w[|w| - 1];
    var p := Path(w[k + 1], |w| - 1 - k, now + 10.0, w[|w| - 2]);
    var u := UpdateForward(Lookup(n.table, d), n.maxPaths, n.lenDiff, w[k + 1], 2, |w| - 2 - k, w[|w| - 2], 10.0, now);
    assert u.Kept? && u.entry.paths == [p];
    OnePath(p);
  }

  lemma ReplyArrives(net: Net, w: seq<Addr>, k: nat, now: real)
    requires NetOk(net) && |w| >= 2 && k < |w| - 1 && ReplyAt(w, k + 1) in net.sent
    requires if k == 0 then Asked(net, w) else PassedOn(net, w, k)
    requires forall i, j | 0 <= i < j < |w| :: w[i] != w[j]
    ensures var net' := Apply(net, Deliver(w[k], ReplyAt(w, k + 1), now, false));
            && w[k] in net'.nodes && net'.nodes == net.nodes[w[k] := net'.nodes[w[k]]]
            && Routed(net', w, k) && (k > 0 ==> ReplyAt(w, k) in net'.sent)
  {
    var m := ReplyAt(w, k + 1);
    assert net.nodes[w[k]].index == w[k] && NodeOk(net.nodes[w[k]]);
    WaitingNode(net.nodes[w[k]], w, k, now);
    ReplyDelivered(net, w[k], m.sender, m.to, m.via, m.dst, m.dstSeq, m.hops, m.firstHop, m.lifetime, m.bid, now);
  }

  lemma ReplyDelivered(net: Net, i: Addr, sender: Addr, to: Addr, via: Addr, dst: Addr, dstSeq: nat, hops: nat,
                       firstHop: Addr, lifetime: real, bid: nat, now: real)
    requires NetOk(net) && i in net.nodes && Rrep(sender, to, via, dst, dstSeq, hops, firstHop, lifetime, bid) in net.sent
    ensures NodeOk(net.nodes[i]) && Usable(dstSeq)
    ensures var m := Rrep(sender, to, via, dst, dstSeq, hops, firstHop, lifetime, bid);
            var (n', out) := RecvReply(net.nodes[i], sender, to, dst, dstSeq, hops, firstHop, lifetime, bid, now, false);
            Apply(net, Deliver(i, m, now, false)) ==
            Net(net.nodes[i := n'], net.sent + if out.Send? then {out.msg} else {})
  {
    assert MsgOk(Rrep(sender, to, via, dst, dstSeq, hops, firstHop, lifetime, bid));
  }

  lemma ReplyPasses(net: Net, w: seq<Addr>, k: nat, now: real)
    requires NetOk(net) && |w| >= 2 && k < |w| - 1 && AnsweredDownTo(net, w, k + 1) && ReplyAt(w, k + 1) in net.sent
    requires forall i, j | 0 <= i < j < |w| :: w[i] != w[j]
    ensures var net' := Apply(net, Deliver(w[k], ReplyAt(w, k + 1), now, false));
            && AnsweredDownTo(net', w, k) && net'.nodes.Keys == net.nodes.Keys
            && (k > 0 ==> ReplyAt(w, k) in net'.sent)
  {
    var net' := Apply(net, Deliver(w[k], ReplyAt(w, k + 1), now, false));
    ReplyArrives(net, w, k, now);
    OthersWait(net, net', w, k);
  }

  /** What one delivery changes at node k, it does not change at the other nodes of the line. */
  lemma OthersWait(net: Net, net': Net, w: seq<Addr>, k: nat)
    requires |w| >= 2 && k < |w| - 1 && AnsweredDownTo(net, w, k + 1)
    requires w[k] in net'.nodes && net'.nodes == net.nodes[w[k] := net'.nodes[w[k]]] && Routed(net', w, k)
    requires forall i, j | 0 <= i < j < |w| :: w[i] != w[j]
    ensures AnsweredDownTo(net', w, k)
  {
    forall i | 0 < i < k
      ensures PassedOn(net', w, i)
    {
      assert PassedOn(net, w, i);
    }
    forall i | k < i < |w| - 1
      ensures Routed(net', w, i)
    {
      assert Routed(net, w, i);
    }
  }

  lemma {:induction false} DiscoveringReaches(net: Net, w: seq<Addr>, k: nat, now: real)
    requires Line(net, w) && NetOk(net) && k < |w|
    ensures var net' := Run(net, Discovering(w, k, now));
            && AnsweredDownTo(net', w, k) && net'.nodes.Keys == net.nodes.Keys
            && (k > 0 ==> ReplyAt(w, k) in net'.sent)
    decreases |w| - k
  {
    if k == |w| - 1 {
      AskingReaches(net, w, k, now);
    } else {
      DiscoveringReaches(net, w, k + 1, now);
      ReplyPasses(Run(net, Discovering(w, k + 1, now)), w, k, now);
      RunThen(net, Discovering(w, k + 1, now), Deliver(w[k], ReplyAt(w, k + 1), now, false));
    }
  }

  /** Discovery: on a line of any length, the request passed along and the reply passed back leave a
      walk of next hops from the source to the destination, each node with one path that knows how
      far it is and by which neighbour of the destination it arrives. */
  lemma DiscoveryTheorem(init: Net, w: seq<Addr>, now: real)
    requires Line(init, w)
    ensures var net := Reach(init, Discovery(w, now));
            && Walk(net, w[|w| - 1], w)
            && forall k | 0 <= k < |w| - 1 :: Routed(net, w, k)
  {
    InitialOk(init);
    DiscoveringReaches(init, w, 0, now);
    var net, d := Reach(init, Discovery(w, now)), w[|w| - 1];
    forall k | 0 <= k < |w| - 1
      ensures NextHop(net, d, w[k], w[k + 1])
    {
      assert Routed(net, w, k);
      assert net.nodes[w[k]].table[d].paths[0] in net.nodes[w[k]].table[d].paths;
    }
  }
}
