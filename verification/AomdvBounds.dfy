/**
 * How far ahead of a destination its number can run: over every run, nothing stored or in
 * flight about D exceeds D's own number by more than one, and only broken routes reach
 * that one.  So a destination answering a request never jumps by more than two.
 */
module AomdvBounds {
  import opened Options
  import opened AomdvModel
  import opened AomdvSteps
  import opened AomdvNetwork

  /** The destinations' own numbers. */
  type Caps = map<Addr, nat>

  predicate EntryCapped(e: Entry, cap: nat) {
    e.seqno <= cap + 1 && (e.flags.Up? ==> e.seqno <= cap) && e.highest <= cap + 1
  }

  predicate TableCapped(table: map<Addr, Entry>, caps: Caps) {
    forall d | d in table && d in caps :: EntryCapped(table[d], caps[d])
  }

  predicate MsgCapped(m: Msg, caps: Caps) {
    match m
    case Rreq(_, src, srcSeq, _, _, dst, dstSeq, _) =>
      (src in caps ==> srcSeq <= caps[src]) && (dst in caps ==> dstSeq <= caps[dst] + 1)
    case Rrep(_, _, _, dst, dstSeq, _, _, _, _) => dst in caps ==> dstSeq <= caps[dst]
    case Rerr(_, lost) => forall d | d in lost && d in caps :: lost[d] <= caps[d] + 1
    case Hello(sender, dstSeq) => sender in caps ==> dstSeq <= caps[sender]
  }

  ghost predicate NodeCapped(n: Node, caps: Caps) {
    NodeOk(n) && n.index in caps && caps[n.index] == n.seqno && TableCapped(n.table, caps)
  }

  ghost predicate StepCapped(n': Node, out: Out, caps: Caps) {
    && n'.index in caps
    && n'.seqno >= caps[n'.index]
    && TableCapped(n'.table, caps[n'.index := n'.seqno])
    && (out.Send? ==> MsgCapped(out.msg, caps[n'.index := n'.seqno]))
  }

  function OwnNumbers(nodes: map<Addr, Node>): (caps: Caps)
    ensures caps.Keys == nodes.Keys
    ensures forall i | i in nodes :: caps[i] == nodes[i].seqno
  {
    map i | i in nodes :: nodes[i].seqno
  }

  ghost predicate NetCapped(net: Net) {
    && (forall i | i in net.nodes :: TableCapped(net.nodes[i].table, OwnNumbers(net.nodes)))
    && (forall m | m in net.sent :: MsgCapped(m, OwnNumbers(net.nodes)))
  }

  /** Storing one capped entry, whatever happened to the broadcast-id cache. */
  lemma StoreCapped(n: Node, n1: Node, d: Addr, e: Entry, caps: Caps)
    requires NodeCapped(n, caps) && d != n.index && EntryOk(e, n.maxPaths)
    requires d in caps ==> EntryCapped(e, caps[d])
    requires n1 == n.(table := n.table[d := e], bcache := n1.bcache)
    ensures NodeCapped(n1, caps) && StepCapped(n1, Silent, caps)
  {
  }

  lemma LookupOk(n: Node, d: Addr, caps: Caps)
    requires NodeCapped(n, caps)
    ensures EntryOk(Lookup(n.table, d), n.maxPaths)
    ensures d in caps ==> EntryCapped(Lookup(n.table, d), caps[d])
  {
  }

  lemma LearnReverseCapped(n: Node, m: Msg, firstHop: Addr, now: real, buffered: bool,
                           cache: map<(Addr, nat), Bcast>, caps: Caps)
    requires NodeCapped(n, caps) && m.Rreq? && MsgOk(m) && MsgCapped(m, caps) && m.src != n.index
    ensures var u := UpdateReverse(Lookup(n.table, m.src), n.maxPaths, n.lenDiff, m.sender, m.srcSeq, m.hops,
                                   firstHop, m.dst == n.index, now);
            var n1 := n.(bcache := cache, table := n.table[m.src := Refreshed(u, buffered, now)]);
            NodeCapped(n1, caps) && StepCapped(n1, Silent, caps)
  {
    LookupOk(n, m.src, caps);
    var u := UpdateReverse(Lookup(n.table, m.src), n.maxPaths, n.lenDiff, m.sender, m.srcSeq, m.hops,
                           firstHop, m.dst == n.index, now);
    var e := Refreshed(u, buffered, now);
    StoreCapped(n, n.(bcache := cache, table := n.table[m.src := e]), m.src, e, caps);
  }

  lemma RecvRequestCapped(n: Node, m: Msg, now: real, buffered: bool, caps: Caps)
    requires NodeCapped(n, caps) && m.Rreq? && MsgOk(m) && MsgCapped(m, caps)
    ensures var (n', out) := RecvRequest(n, m, now, buffered); StepCapped(n', out, caps)
  {
    if m.src == n.index {
      assert caps[n.index := n.seqno] == caps;
    } else {
      var key := (m.src, m.bid);
      var cache := if key in n.bcache then n.bcache else n.bcache[key := Bcast(0, now + BCAST_ID_SAVE)];
      var firstHop := if m.hops == 0 then n.index else m.firstHop;
      LearnReverseCapped(n, m, firstHop, now, buffered, cache, caps);
      var u := UpdateReverse(Lookup(n.table, m.src), n.maxPaths, n.lenDiff, m.sender, m.srcSeq, m.hops,
                             firstHop, m.dst == n.index, now);
      var n1 := n.(bcache := cache, table := n.table[m.src := Refreshed(u, buffered, now)]);
      if u.Kept? {
        AnswerRequestCapped(n1, m, key in n.bcache, u.hasPath, now, caps);
        assert RecvRequest(n, m, now, buffered) == AnswerRequest(n1, m, key in n.bcache, u.hasPath, now);
      } else {
        assert RecvRequest(n, m, now, buffered) == (n1, Silent);
      }
    }
  }

  lemma AnswerRequestCapped(n: Node, m: Msg, duplicate: bool, hasPath: bool, now: real, caps: Caps)
    requires NodeCapped(n, caps) && m.Rreq? && MsgOk(m) && MsgCapped(m, caps) && (m.src, m.bid) in n.bcache
    requires m.src in n.table && n.table[m.src].flags.Up?
    ensures var (n', out) := AnswerRequest(n, m, duplicate, hasPath, now); StepCapped(n', out, caps)
  {
  }

  lemma ForwardReplyCapped(n: Node, to: Addr, dst: Addr, dstSeq: nat, lifetime: real, bid: nat, now: real, caps: Caps)
    requires NodeCapped(n, caps) && dst in n.table && n.table[dst].flags.Up? && (dst in caps ==> dstSeq <= caps[dst])
    ensures var (n', out) := ForwardReply(n, to, dst, dstSeq, lifetime, bid, now); StepCapped(n', out, caps)
  {
  }

  lemma RecvReplyCapped(n: Node, sender: Addr, to: Addr, dst: Addr, dstSeq: nat, hops: nat, firstHop: Addr,
                        lifetime: real, bid: nat, now: real, buffered: bool, caps: Caps)
    requires NodeCapped(n, caps) && Usable(dstSeq) && (dst in caps ==> dstSeq <= caps[dst])
    ensures var (n', out) := RecvReply(n, sender, to, dst, dstSeq, hops, firstHop, lifetime, bid, now, buffered);
            StepCapped(n', out, caps)
  {
    if dst == n.index {
      assert caps[n.index := n.seqno] == caps;
    } else {
      LookupOk(n, dst, caps);
      var u := UpdateForward(Lookup(n.table, dst), n.maxPaths, n.lenDiff, sender, dstSeq, hops, firstHop,
                             lifetime, now);
      var e := Refreshed(u, buffered, now);
      var n1 := n.(table := n.table[dst := e]);
      StoreCapped(n, n1, dst, e, caps);
      if u.Kept? {
        ForwardReplyCapped(n1, to, dst, dstSeq, lifetime, bid, now, caps);
      }
    }
  }

  /** A sweep that keeps each entry within bounds, and reports only numbers it leaves. */
  lemma SweepCapped(n: Node, table: map<Addr, Entry>, lost: map<Addr, nat>, caps: Caps)
    requires NodeCapped(n, caps) && TableCapped(table, caps)
    requires forall d | d in lost && d in caps :: lost[d] <= caps[d] + 1
    ensures StepCapped(n.(table := table), if lost == map[] then Silent else Send(Rerr(n.index, lost)), caps)
  {
    assert caps[n.index := n.seqno] == caps;
  }

  lemma LostCapped(e: Entry, via: Addr, lost: nat, cap: nat)
    requires EntryCapped(e, cap) && lost <= cap + 1
    ensures EntryCapped(AfterError(e, via, lost), cap)
  {
  }

  lemma RecvErrorCapped(n: Node, m: Msg, caps: Caps)
    requires NodeCapped(n, caps) && m.Rerr? && MsgCapped(m, caps)
    ensures var (n', out) := RecvError(n, m); StepCapped(n', out, caps)
  {
    var table, lost := ErrorSweep(n.table, m, {}), ErrorReport(n.table, m, {});
    forall d | d in table && d in caps
      ensures EntryCapped(table[d], caps[d])
      ensures d in lost ==> lost[d] <= caps[d] + 1
    {
      if d in m.lost {
        LostCapped(n.table[d], m.sender, m.lost[d], caps[d]);
      }
    }
    SweepCapped(n, table, lost, caps);
  }

  lemma FailedCapped(e: Entry, id: Addr, cap: nat)
    requires EntryCapped(e, cap)
    ensures EntryCapped(AfterFailure(e, id), cap)
  {
  }

  lemma HandleLinkFailureCapped(n: Node, id: Addr, caps: Caps)
    requires NodeCapped(n, caps)
    ensures var (n', out) := HandleLinkFailure(n, id); StepCapped(n', out, caps)
  {
    var table, lost := FailureSweep(n.table, id, {}), FailureReport(n.table, id, {});
    forall d | d in table && d in caps
      ensures EntryCapped(table[d], caps[d])
      ensures d in lost ==> lost[d] <= caps[d] + 1
    {
      FailedCapped(n.table[d], id, caps[d]);
    }
    SweepCapped(n, table, lost, caps);
  }

  lemma {:induction false} SalvageCapped(n: Node, queued: seq<Queued>, now: real, caps: Caps)
    requires TableCapped(n.table, caps)
    ensures TableCapped(Salvage(n, queued, now).table, caps)
    ensures Salvage(n, queued, now) == n.(table := Salvage(n, queued, now).table)
    decreases |queued|
  {
    if queued != [] {
      var p := queued[0];
      if CanSalvage(n, p) {
        SalvageCapped(n.(table := n.table[p.dst := Used(n.table[p.dst], p.mine, now)]), queued[1..], now, caps);
      } else {
        SalvageCapped(n, queued[1..], now, caps);
      }
    }
  }

  lemma NbDeleteCapped(n: Node, id: Addr, queued: seq<Queued>, now: real, caps: Caps)
    requires NodeCapped(n, caps)
    ensures var (n', out) := NbDelete(n, id, queued, now); StepCapped(n', out, caps)
  {
    var caps1 := caps[n.index := n.seqno + 2];
    var n0 := n.(seqno := n.seqno + 2);
    HandleLinkFailureCapped(n0, id, caps1);
    SalvageCapped(HandleLinkFailure(n0, id).0, queued, now, caps1);
  }

  lemma RtPurgeCapped(n: Node, now: real, buffered: set<Addr>, caps: Caps)
    requires NodeCapped(n, caps)
    ensures StepCapped(RtPurge(n, now, buffered), Silent, caps)
  {
  }

  lemma RtResolveCapped(n: Node, dst: Addr, mine: bool, granted: bool, now: real, caps: Caps)
    requires NodeCapped(n, caps)
    ensures var (n', out) := RtResolve(n, dst, mine, granted, now); StepCapped(n', out, caps)
  {
  }

  lemma ReactCapped(n: Node, ev: Event, caps: Caps)
    requires NodeCapped(n, caps)
    requires ev.Deliver? ==> MsgOk(ev.msg) && MsgCapped(ev.msg, caps)
    requires ev.Request? ==> ev.dst in n.table
    ensures var (n', out) := React(n, ev); StepCapped(n', out, caps)
  {
    match ev
    case Deliver(_, m, now, buffered) =>
      match m {
        case Rreq(_, _, _, _, _, _, _, _) => RecvRequestCapped(n, m, now, buffered, caps);
        case Rrep(sender, to, _, dst, dstSeq, hops, firstHop, lifetime, bid) =>
          RecvReplyCapped(n, sender, to, dst, dstSeq, hops, firstHop, lifetime, bid, now, buffered, caps);
        case Rerr(_, _) => RecvErrorCapped(n, m, caps);
        case Hello(sender, dstSeq) =>
          RecvReplyCapped(n, sender, n.index, sender, dstSeq, 0, n.index, HELLO_LIFETIME, 0, now, buffered, caps);
      }
    case NeighborLost(_, id, queued, now) => NbDeleteCapped(n, id, queued, now, caps);
    case LinkFailed(_, id) => HandleLinkFailureCapped(n, id, caps);
    case Purge(_, now, waiting) => RtPurgeCapped(n, now, waiting, caps);
    case Request(_, dst) =>
    case Data(_, dst, mine, granted, now) => RtResolveCapped(n, dst, mine, granted, now, caps);
    case HelloDue(_) =>
    case CachePurge(_, now) =>
  }

  /** Raising one node's own number keeps every other table and message within bounds. */
  lemma RaisedCaps(table: map<Addr, Entry>, sent: set<Msg>, caps: Caps, i: Addr, s: nat)
    requires i in caps && caps[i] <= s
    ensures TableCapped(table, caps) ==> TableCapped(table, caps[i := s])
    ensures forall m | m in sent && MsgCapped(m, caps) :: MsgCapped(m, caps[i := s])
  {
  }

  /** The network after one node has moved within its bounds. */
  lemma JoinCapped(net: Net, i: Addr, n': Node, out: Out)
    requires NetCapped(net) && i in net.nodes && n'.index == i && StepCapped(n', out, OwnNumbers(net.nodes))
    ensures NetCapped(Net(net.nodes[i := n'], net.sent + if out.Send? then {out.msg} else {}))
  {
    var caps, nodes := OwnNumbers(net.nodes), net.nodes[i := n'];
    assert OwnNumbers(nodes) == caps[i := n'.seqno];
    forall j | j in nodes ensures TableCapped(nodes[j].table, OwnNumbers(nodes)) {
      if j != i {
        RaisedCaps(net.nodes[j].table, {}, caps, i, n'.seqno);
      }
    }
    RaisedCaps(map[], net.sent, caps, i, n'.seqno);
  }

  lemma ApplyCapped(net: Net, ev: Event)
    requires NetOk(net) && NetCapped(net)
    ensures NetCapped(Apply(net, ev))
  {
    if Enabled(net, ev) {
      var caps, n := OwnNumbers(net.nodes), net.nodes[ev.at];
      assert NodeCapped(n, caps);
      ReactStep(n, ev);
      ReactCapped(n, ev, caps);
      JoinCapped(net, ev.at, React(n, ev).0, React(n, ev).1);
    }
  }

  lemma {:induction false} RunCapped(net: Net, events: seq<Event>)
    requires NetOk(net) && NetCapped(net)
    ensures NetCapped(Run(net, events))
    decreases |events|
  {
    if events != [] {
      ApplyKeeps(net, events[0]);
      ApplyCapped(net, events[0]);
      RunCapped(Apply(net, events[0]), events[1..]);
    }
  }

  /** In every reachable state no entry and no message about D is more than one ahead of D. */
  lemma SequenceNumberBound(init: Net, events: seq<Event>)
    requires Initial(init)
    ensures NetCapped(Reach(init, events))
  {
    InitialOk(init);
    RunCapped(init, events);
  }

  /** A destination answering any request that reaches it: its number becomes even and no
      smaller, and moves, by exactly two, only when the request asked for more than it had. */
  lemma ReplyNumber(init: Net, events: seq<Event>, m: Msg, now: real, buffered: bool)
    requires Initial(init)
    requires m in Reach(init, events).sent && m.Rreq? && m.dst in Reach(init, events).nodes
    ensures NodeOk(Reach(init, events).nodes[m.dst]) && MsgOk(m)
    ensures var n := Reach(init, events).nodes[m.dst];
            var (n', out) := RecvRequest(n, m, now, buffered);
            && n'.seqno == (if out.Send? && m.dstSeq > n.seqno then n.seqno + 2 else n.seqno)
            && (out.Send? ==> out.msg.Rrep? && out.msg.dst == m.dst && out.msg.dstSeq == n'.seqno
                              && out.msg.dstSeq >= m.dstSeq && out.msg.hops == 0)
  {
    SequenceNumberBound(init, events);
    var net := Reach(init, events);
    assert MsgCapped(m, OwnNumbers(net.nodes));
    assert net.nodes[m.dst].index == m.dst;
    ReplyNumberAt(net.nodes[m.dst], m, now, buffered);
  }

  lemma ReplyNumberAt(n: Node, m: Msg, now: real, buffered: bool)
    requires NodeOk(n) && m.Rreq? && MsgOk(m) && m.dst == n.index && m.dstSeq <= n.seqno + 1
    ensures var (n', out) := RecvRequest(n, m, now, buffered);
            && n'.seqno == (if out.Send? && m.dstSeq > n.seqno then n.seqno + 2 else n.seqno)
            && (out.Send? ==> out.msg.Rrep? && out.msg.dst == m.dst && out.msg.dstSeq == n'.seqno
                              && out.msg.dstSeq >= m.dstSeq && out.msg.hops == 0)
  {
  }
}
