/**
 * Route discovery along a line of nodes of any length: the request passed along from the source
 * and the reply passed back leave every node on the line with a route to the destination through
 * the next one.
 */
module AodvDiscovery {
  import opened Options
  import opened AodvModel
  import opened AodvSteps
  import opened AodvNetwork

  /** Distinct nodes that have heard nothing yet, from a source w[0] to another node. */
  predicate Line(net: Net, w: seq<Addr>) {
    && |w| >= 2 && Initial(net)
    && (forall i | 0 <= i < |w| :: w[i] in net.nodes)
    && (forall i, j | 0 <= i < j < |w| :: w[i] != w[j])
  }

  /** The request as node k of the line sends it. */
  function RequestAt(w: seq<Addr>, k: nat): Msg
    requires k < |w|
  {
    Rreq(w[k], w[0], 4, k + 1, w[|w| - 1], 0, 1)
  }

  /** The reply as node k of the line sends it. */
  function ReplyAt(w: seq<Addr>, k: nat): Msg
    requires 0 < k < |w|
  {
    Rrep(w[k], w[0], w[k - 1], w[|w| - 1], 4, |w| - k, 10.0)
  }

  /** The source has a packet for the destination, and nodes 1 to k receive the request in turn. */
  function Asking(w: seq<Addr>, k: nat, now: real): seq<Event>
    requires k < |w|
  {
    if k == 0 then [Data(w[0], w[|w| - 1], true, true, now)]
    else Asking(w, k - 1, now) + [Deliver(w[k], RequestAt(w, k - 1), now, false)]
  }

  /** Then the nodes from the last but one down to node k receive the reply. */
  function Discovering(w: seq<Addr>, k: nat, now: real): seq<Event>
    requires k < |w|
    decreases |w| - k
  {
    if k == |w| - 1 then Asking(w, k, now)
    else Discovering(w, k + 1, now) + [Deliver(w[k], ReplyAt(w, k + 1), now, false)]
  }

  function Discovery(w: seq<Addr>, now: real): seq<Event>
    requires |w| > 0
  {
    Discovering(w, 0, now)
  }

  // ---------------------------------------------------------------- the request

  predicate Fresh(net: Net, i: Addr) {
    i in net.nodes && net.nodes[i] == Node(i, 2, 1, map[], map[], map[])
  }

  /** The source has asked: its entry for the destination is blank, and it knows nothing else. */
  predicate Asked(net: Net, w: seq<Addr>)
    requires |w| >= 2
  {
    var d := w[|w| - 1];
    && w[0] in net.nodes
    && var n := net.nodes[w[0]];
       && n.index == w[0] && n.seqno == 4 && n.bid == 2 && n.bcache == map[]
       && n.table.Keys == {d} && n.table[d].seqno == 0 && n.table[d].hops.Infinite?
  }

  /** Node k has passed the request on, and knows the way back and nothing else. */
  predicate PassedOn(net: Net, w: seq<Addr>, k: nat)
    requires 0 < k < |w|
  {
    && w[k] in net.nodes
    && var n := net.nodes[w[k]];
       && n.index == w[k] && n.bid == 1 && n.bcache.Keys == {(w[0], 1)}
       && n.table.Keys == {w[0]} && n.table[w[0]].hops.Finite? && n.table[w[0]].nexthop == w[k - 1]
  }

  predicate AskedUpTo(net: Net, w: seq<Addr>, k: nat)
    requires k < |w| && |w| >= 2
  {
    && Asked(net, w)
    && (forall i | 0 < i <= k :: PassedOn(net, w, i))
    && (forall i | k < i < |w| :: Fresh(net, w[i]))
  }

  lemma DataAsks(net: Net, w: seq<Addr>, now: real)
    requires Line(net, w)
    ensures var net' := Apply(net, Data(w[0], w[|w| - 1], true, true, now));
            AskedUpTo(net', w, 0) && RequestAt(w, 0) in net'.sent && net'.nodes.Keys == net.nodes.Keys
  {
  }

  /** One delivery of the request: the node learns the way back, and passes it on or answers. */
  lemma RequestPasses(net: Net, w: seq<Addr>, k: nat, now: real)
    requires |w| >= 2 && 0 < k < |w| && AskedUpTo(net, w, k - 1) && RequestAt(w, k - 1) in net.sent
    requires forall i, j | 0 <= i < j < |w| :: w[i] != w[j]
    ensures var net' := Apply(net, Deliver(w[k], RequestAt(w, k - 1), now, false));
            && AskedUpTo(net', w, k) && net'.nodes.Keys == net.nodes.Keys
            && (if k < |w| - 1 then RequestAt(w, k) else ReplyAt(w, k)) in net'.sent
  {
    var net' := Apply(net, Deliver(w[k], RequestAt(w, k - 1), now, false));
    assert Fresh(net, w[k]);
    assert net'.nodes == net.nodes[w[k] := net'.nodes[w[k]]];
    assert PassedOn(net', w, k);
    forall i | 0 < i < k
      ensures PassedOn(net', w, i)
    {
      assert PassedOn(net, w, i);
    }
  }

  lemma {:induction false} AskingReaches(net: Net, w: seq<Addr>, k: nat, now: real)
    requires Line(net, w) && k < |w|
    ensures var net' := Run(net, Asking(w, k, now));
            && AskedUpTo(net', w, k) && net'.nodes.Keys == net.nodes.Keys
            && (if k < |w| - 1 then RequestAt(w, k) else ReplyAt(w, k)) in net'.sent
  {
    if k == 0 {
      var ev := Data(w[0], w[|w| - 1], true, true, now);
      assert Run(net, [ev]) == Run(Apply(net, ev), []);
      DataAsks(net, w, now);
    } else {
      AskingReaches(net, w, k - 1, now);
      RequestPasses(Run(net, Asking(w, k - 1, now)), w, k, now);
      RunThen(net, Asking(w, k - 1, now), Deliver(w[k], RequestAt(w, k - 1), now, false));
    }
  }

  // ---------------------------------------------------------------- the reply

  /** Node k has its route: the next node of the line, and as many hops as are left. */
  predicate Routed(net: Net, w: seq<Addr>, k: nat)
    requires k < |w| - 1
  {
    && w[k] in net.nodes
    && var n, d := net.nodes[w[k]], w[|w| - 1];
       && n.index == w[k] && d in n.table
       && n.table[d].flags.Up? && n.table[d].seqno == 4
       && n.table[d].hops == Finite(|w| - 1 - k) && n.table[d].nexthop == w[k + 1]
       && n.bid == (if k == 0 then 2 else 1) && n.bcache.Keys == if k == 0 then {} else {(w[0], 1)}
  }

  /** The nodes before k still wait for the reply. */
  predicate AnsweredDownTo(net: Net, w: seq<Addr>, k: nat)
    requires k < |w| && |w| >= 2
  {
    && (if k > 0 then Asked(net, w) else true)
    && (forall i | 0 < i < k :: PassedOn(net, w, i))
    && (forall i | k <= i < |w| - 1 :: Routed(net, w, i))
  }

  lemma ReplyPasses(net: Net, w: seq<Addr>, k: nat, now: real)
    requires |w| >= 2 && k < |w| - 1 && AnsweredDownTo(net, w, k + 1) && ReplyAt(w, k + 1) in net.sent
    requires forall i, j | 0 <= i < j < |w| :: w[i] != w[j]
    ensures var net' := Apply(net, Deliver(w[k], ReplyAt(w, k + 1), now, false));
            && AnsweredDownTo(net', w, k) && net'.nodes.Keys == net.nodes.Keys
            && (k > 0 ==> ReplyAt(w, k) in net'.sent)
  {
    var net' := Apply(net, Deliver(w[k], ReplyAt(w, k + 1), now, false));
    assert if k == 0 then Asked(net, w) else PassedOn(net, w, k);
    assert net'.nodes == net.nodes[w[k] := net'.nodes[w[k]]];
    assert Routed(net', w, k);
    forall i | 0 < i < k
      ensures PassedOn(net', w, i)
    {
      assert PassedOn(net, w, i);
    }
    forall i | k < i < |w| - 1
      ensures Routed(net', w, i)
    {
      assert Routed(net, w, i);
    }
  }

  lemma {:induction false} DiscoveringReaches(net: Net, w: seq<Addr>, k: nat, now: real)
    requires Line(net, w) && k < |w|
    ensures var net' := Run(net, Discovering(w, k, now));
            && AnsweredDownTo(net', w, k) && net'.nodes.Keys == net.nodes.Keys
            && (k > 0 ==> ReplyAt(w, k) in net'.sent)
    decreases |w| - k
  {
    if k == |w| - 1 {
      AskingReaches(net, w, k, now);
    } else {
      DiscoveringReaches(net, w, k + 1, now);
      ReplyPasses(Run(net, Discovering(w, k + 1, now)), w, k, now);
      RunThen(net, Discovering(w, k + 1, now), Deliver(w[k], ReplyAt(w, k + 1), now, false));
    }
  }

  /** Discovery: on a line of any length, the request passed along and the reply passed back leave a
      walk from the source to the destination, each node knowing how far it is and under one
      number. */
  lemma DiscoveryTheorem(net: Net, w: seq<Addr>, now: real)
    requires Line(net, w)
    ensures var net' := Run(net, Discovery(w, now));
            && Walk(net', w[|w| - 1], w)
            && forall k | 0 <= k < |w| - 1 :: Routed(net', w, k)
  {
    DiscoveringReaches(net, w, 0, now);
    var net', d := Run(net, Discovery(w, now)), w[|w| - 1];
    forall k | 0 <= k < |w| - 1
      ensures NextHop(net', d, w[k], w[k + 1])
    {
      assert Routed(net', w, k);
    }
  }
}
