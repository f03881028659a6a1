/**
 * How far ahead of a destination its number can run: over every run, nothing stored or in
 * flight about D exceeds D's own number by more than one.  So answering a request always
 * moves a destination's number by exactly two.
 */
module AodvBounds {
  import opened Options
  import opened AodvModel
  import opened AodvSteps
  import opened AodvNetwork

  /** The destinations' own numbers. */
  type Caps = map<Addr, nat>

  predicate EntryCapped(e: Entry, cap: nat) {
    e.seqno <= cap + 1 && (e.hops.Finite? ==> e.seqno <= cap)
  }

  predicate TableCapped(table: map<Addr, Entry>, caps: Caps) {
    forall d | d in table && d in caps :: EntryCapped(table[d], caps[d])
  }

  predicate MsgCapped(m: Msg, caps: Caps) {
    match m
    case Rreq(_, src, srcSeq, _, dst, dstSeq, _) =>
      (src in caps ==> srcSeq <= caps[src]) && (dst in caps ==> dstSeq <= caps[dst] + 1)
    case Rrep(_, _, _, dst, dstSeq, _, _) => dst in caps ==> dstSeq <= caps[dst]
    case Rerr(_, lost) => forall d | d in lost && d in caps :: lost[d] <= caps[d] + 1
    case Hello(sender, dstSeq) => sender in caps ==> dstSeq <= caps[sender]
  }

  ghost predicate NodeCapped(n: Node, caps: Caps) {
    NodeOk(n) && n.index in caps && caps[n.index] == n.seqno && TableCapped(n.table, caps)
  }

  ghost predicate StepCapped(n': Node, out: Out, caps: Caps) {
    && n'.index in caps
    && n'.seqno >= caps[n'.index]
    && TableCapped(n'.table, caps[n'.index := n'.seqno])
    && (out.Send? ==> MsgCapped(out.msg, caps[n'.index := n'.seqno]))
  }

  function OwnNumbers(nodes: map<Addr, Node>): (caps: Caps)
    ensures caps.Keys == nodes.Keys
    ensures forall i | i in nodes :: caps[i] == nodes[i].seqno
  {
    map i | i in nodes :: nodes[i].seqno
  }

  ghost predicate NetCapped(net: Net) {
    && (forall i | i in net.nodes :: TableCapped(net.nodes[i].table, OwnNumbers(net.nodes)))
    && (forall m | m in net.sent :: MsgCapped(m, OwnNumbers(net.nodes)))
  }

  lemma AnswerRequestCapped(n: Node, m: Msg, now: real, caps: Caps)
    requires NodeCapped(n, caps) && m.Rreq? && MsgCapped(m, caps) && m.src in n.table
    ensures var (n', out) := AnswerRequest(n, m, now); StepCapped(n', out, caps)
  {
  }

  lemma RecvRequestCapped(n: Node, m: Msg, now: real, renewed: bool, caps: Caps)
    requires NodeCapped(n, caps) && m.Rreq? && MsgOk(m) && MsgCapped(m, caps)
    ensures var (n', out) := RecvRequest(n, m, now, renewed); StepCapped(n', out, caps)
  {
    if m.src == n.index || (m.src, m.bid) in n.bcache {
      assert caps[n.index := n.seqno] == caps;
    } else {
      var r := Reverse(Lookup(n.table, m.src), m, now, renewed);
      assert EntryOk(Lookup(n.table, m.src));
      assert m.src in caps ==> EntryCapped(r, caps[m.src]);
      AnswerRequestCapped(
        n.(bcache := n.bcache[(m.src, m.bid) := now + BCAST_ID_SAVE], table := n.table[m.src := r]), m, now, caps);
    }
  }

  lemma RecvReplyCapped(n: Node, m: Msg, now: real, buffered: bool, caps: Caps)
    requires NodeCapped(n, caps) && m.Rrep? && MsgCapped(m, caps)
    ensures var (n', out) := RecvReply(n, m, now, buffered); StepCapped(n', out, caps)
  {
  }

  lemma HandleLinkFailureCapped(n: Node, id: Addr, caps: Caps)
    requires NodeCapped(n, caps)
    ensures var (n', out) := HandleLinkFailure(n, id); StepCapped(n', out, caps)
  {
  }

  lemma RecvErrorCapped(n: Node, m: Msg, caps: Caps)
    requires NodeCapped(n, caps) && m.Rerr? && MsgCapped(m, caps)
    ensures var (n', out) := RecvError(n, m); StepCapped(n', out, caps)
  {
  }

  lemma RtPurgeCapped(n: Node, now: real, buffered: set<Addr>, caps: Caps)
    requires NodeCapped(n, caps)
    ensures StepCapped(RtPurge(n, now, buffered), Silent, caps)
  {
  }

  lemma RtResolveCapped(n: Node, dst: Addr, mine: bool, granted: bool, now: real, caps: Caps)
    requires NodeCapped(n, caps)
    ensures var (n', out) := RtResolve(n, dst, mine, granted, now); StepCapped(n', out, caps)
  {
  }

  lemma ReactCapped(n: Node, ev: Event, caps: Caps)
    requires NodeCapped(n, caps)
    requires ev.Deliver? ==> MsgOk(ev.msg) && MsgCapped(ev.msg, caps)
    requires ev.Request? || ev.Repair? ==> ev.dst in n.table
    requires ev.RepairTimer? && ev.dst in n.table ==> !n.table[ev.dst].flags.InRepair?
    ensures var (n', out) := React(n, ev); StepCapped(n', out, caps)
  {
    match ev
    case Deliver(_, m, now, renewed) =>
      match m {
        case Rreq(_, _, _, _, _, _, _) => RecvRequestCapped(n, m, now, renewed, caps);
        case Rrep(_, _, _, _, _, _, _) => RecvReplyCapped(n, m, now, renewed, caps);
        case Rerr(_, _) => RecvErrorCapped(n, m, caps);
        case Hello(_, _) =>
      }
    case NeighborLost(_, id) =>
      HandleLinkFailureCapped(n.(seqno := n.seqno + 2, neighbors := n.neighbors - {id}), id,
                              caps[n.index := n.seqno + 2]);
    case LinkFailed(_, id) => HandleLinkFailureCapped(n, id, caps);
    case Purge(_, now, waiting) => RtPurgeCapped(n, now, waiting, caps);
    case Request(_, dst) =>
    case Data(_, dst, mine, granted, now) => RtResolveCapped(n, dst, mine, granted, now, caps);
    case HelloDue(_) =>
    case CachePurge(_, now) =>
    case Repair(_, dst, granted) =>
    case RepairTimer(_, dst) =>
  }

  /** Raising one node's own number keeps every other table and message within bounds. */
  lemma RaisedCaps(table: map<Addr, Entry>, sent: set<Msg>, caps: Caps, i: Addr, s: nat)
    requires i in caps && caps[i] <= s
    ensures TableCapped(table, caps) ==> TableCapped(table, caps[i := s])
    ensures forall m | m in sent && MsgCapped(m, caps) :: MsgCapped(m, caps[i := s])
  {
  }

  /** The network after one node has moved within its bounds. */
  lemma JoinCapped(net: Net, i: Addr, n': Node, out: Out)
    requires NetCapped(net) && i in net.nodes && n'.index == i && StepCapped(n', out, OwnNumbers(net.nodes))
    ensures NetCapped(Net(net.nodes[i := n'], net.sent + if out.Send? then {out.msg} else {}))
  {
    var caps, nodes := OwnNumbers(net.nodes), net.nodes[i := n'];
    assert OwnNumbers(nodes) == caps[i := n'.seqno];
    forall j | j in nodes ensures TableCapped(nodes[j].table, OwnNumbers(nodes)) {
      if j != i {
        RaisedCaps(net.nodes[j].table, {}, caps, i, n'.seqno);
      }
    }
    RaisedCaps(map[], net.sent, caps, i, n'.seqno);
  }

  lemma ApplyCapped(net: Net, ev: Event)
    requires NetOk(net) && NetCapped(net) && Timely(net, ev)
    ensures NetCapped(Apply(net, ev))
  {
    if Enabled(net, ev) {
      var caps, n := OwnNumbers(net.nodes), net.nodes[ev.at];
      assert NodeCapped(n, caps);
      ReactCapped(n, ev, caps);
      assert React(n, ev).0.index == ev.at by {
        if Heard(ev).Some? {
          assert Holds(net.nodes, Heard(ev).value);
        }
        ReactStep(n, ev);
      }
      JoinCapped(net, ev.at, React(n, ev).0, React(n, ev).1);
    }
  }

  lemma {:induction false} RunCapped(net: Net, events: seq<Event>)
    requires NetOk(net) && NetCapped(net) && TimelyRun(net, events)
    ensures NetCapped(Run(net, events))
    decreases |events|
  {
    if events != [] {
      ApplyKeeps(net, events[0]);
      ApplyCapped(net, events[0]);
      RunCapped(Apply(net, events[0]), events[1..]);
    }
  }

  /** In every state a timely run can reach, no entry and no message about D is more than one
      ahead of D. */
  lemma SequenceNumberBound(init: Net, events: seq<Event>)
    requires Initial(init) && TimelyRun(init, events)
    ensures NetCapped(Run(init, events))
  {
    RunCapped(init, events);
  }

  /** A destination answering a request not seen before: the reply's number is even, newer
      than its own and than the requested one, and exactly two above its own. */
  lemma ReplyNumber(init: Net, events: seq<Event>, m: Msg, now: real, renewed: bool)
    requires Initial(init) && TimelyRun(init, events)
    requires m in Run(init, events).sent && m.Rreq? && m.dst in Run(init, events).nodes && m.src != m.dst
    requires (m.src, m.bid) !in Run(init, events).nodes[m.dst].bcache
    ensures var n := Run(init, events).nodes[m.dst];
            var (n', out) := RecvRequest(n, m, now, renewed);
            && out.Send? && out.msg.Rrep? && out.msg.dst == m.dst && out.msg.hops == 1
            && out.msg.dstSeq == n'.seqno == n.seqno + 2
            && out.msg.dstSeq % 2 == 0 && out.msg.dstSeq > m.dstSeq
  {
    ReachableOk(init, events);
    SequenceNumberBound(init, events);
    var net := Run(init, events);
    assert MsgCapped(m, OwnNumbers(net.nodes));
    assert net.nodes[m.dst].index == m.dst && NodeOk(net.nodes[m.dst]);
  }
}
