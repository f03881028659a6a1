/**
 * What every AODV handler does, told by the fields of the routes and messages it leaves: which
 * routes change and how, when something is sent, and what it says.
 */
module AodvEffects {
  import opened Options
  import opened AodvModel

  // ---------------------------------------------------------------- requests

  /** Fresher, or as fresh and shorter. */
  predicate BetterThan(e: Entry, seqno: nat, hops: nat) {
    seqno > e.seqno || (seqno == e.seqno && (e.hops.Infinite? || hops < e.hops.hops))
  }

  predicate SameRoute(e: Entry, e': Entry) {
    e' == e.(expire := e'.expire, precursors := e'.precursors)
  }

  predicate RouteIs(e: Entry, seqno: nat, hops: nat, via: Addr) {
    e.flags.Up? && e.seqno == seqno && e.hops == Finite(hops) && e.nexthop == via
  }

  /** e' is e after the offer of a reverse route: taken exactly when better, and held at least six
      seconds, ten if something was waiting for it. */
  predicate ReverseOf(e: Entry, e': Entry, m: Msg, now: real, renewed: bool)
    requires m.Rreq?
  {
    var held := if e.expire < now + 6.0 then now + 6.0 else e.expire;
    if BetterThan(e, m.srcSeq, m.hops) then
      RouteIs(e', m.srcSeq, m.hops, m.sender) && e'.expire == if renewed then now + 10.0 else held
    else
      SameRoute(e, e') && e'.expire == held
  }

  /** The node's route answers the request. */
  predicate Answers(n: Node, m: Msg)
    requires m.Rreq?
  {
    m.dst in n.table && n.table[m.dst].hops.Finite? && n.table[m.dst].seqno >= m.dstSeq
  }

  /** Nothing but the routes to a and b, the request cache and the own number has changed. */
  predicate OnlyRoutes(n: Node, n': Node, a: Addr, b: Addr) {
    && n' == n.(table := n'.table, bcache := n'.bcache, seqno := n'.seqno)
    && n.table.Keys <= n'.table.Keys
    && forall d | d in n'.table && d != a && d != b :: d in n.table && n'.table[d] == n.table[d]
  }

  /** A request of one's own, or seen before, is ignored; any other teaches the reverse route. */
  lemma RequestLearns(n: Node, m: Msg, now: real, renewed: bool)
    requires m.Rreq?
    ensures var (n', out) := RecvRequest(n, m, now, renewed);
            if m.src == n.index || (m.src, m.bid) in n.bcache then n' == n && out == Silent
            else
              && out.Send? && OnlyRoutes(n, n', m.src, m.dst)
              && n'.bcache == n.bcache[(m.src, m.bid) := now + 6.0]
              && m.src in n'.table && ReverseOf(Lookup(n.table, m.src), n'.table[m.src], m, now, renewed)
  {
  }

  /** The destination answers every such request, with an even number above the one asked for. */
  lemma RequestAtDestination(n: Node, m: Msg, now: real, renewed: bool)
    requires m.Rreq? && m.src != n.index && (m.src, m.bid) !in n.bcache && m.dst == n.index
    ensures var (n', out) := RecvRequest(n, m, now, renewed);
            && m.src in n'.table
            && out == Send(Rrep(n.index, m.src, n'.table[m.src].nexthop, n.index, n'.seqno, 1, 10.0))
            && n'.seqno % 2 == 0 && n'.seqno > m.dstSeq && n'.seqno > n.seqno
            && n'.seqno <= (if m.dstSeq > n.seqno then m.dstSeq else n.seqno) + 2
            && forall d | d in n'.table && d != m.src :: d in n.table && n'.table[d] == n.table[d]
  {
  }

  /** A node whose route is fresh enough answers from it and records the two precursors. */
  lemma RequestAnswered(n: Node, m: Msg, now: real, renewed: bool)
    requires m.Rreq? && m.src != n.index && (m.src, m.bid) !in n.bcache && m.dst != n.index
    requires m.dst != m.src && Answers(n, m)
    ensures var (n', out) := RecvRequest(n, m, now, renewed);
            var e := n.table[m.dst];
            && m.src in n'.table && m.dst in n'.table && n'.seqno == n.seqno
            && out == Send(Rrep(n.index, m.src, n'.table[m.src].nexthop, m.dst, e.seqno, e.hops.hops + 1,
                                (e.expire - now).Floor as real))
            && n'.table[m.dst] == e.(precursors := e.precursors + {n'.table[m.src].nexthop})
            && n'.table[m.src].precursors == Lookup(n.table, m.src).precursors + {e.nexthop}
  {
  }

  /** Any other node passes it on, one hop further, under the highest number heard. */
  lemma RequestPassedOn(n: Node, m: Msg, now: real, renewed: bool)
    requires m.Rreq? && m.src != n.index && (m.src, m.bid) !in n.bcache && m.dst != n.index
    requires m.dst != m.src && !Answers(n, m)
    ensures var (n', out) := RecvRequest(n, m, now, renewed);
            && out.Send? && out.msg.Rreq? && out.msg.dstSeq >= m.dstSeq
            && (out.msg.dstSeq == m.dstSeq || (m.dst in n.table && out.msg.dstSeq == n.table[m.dst].seqno))
            && (m.dst in n.table ==> out.msg.dstSeq >= n.table[m.dst].seqno)
            && out.msg == Rreq(n.index, m.src, m.srcSeq, m.hops + 1, m.dst, out.msg.dstSeq, m.bid)
            && n'.seqno == n.seqno
            && (forall d | d in n'.table && d != m.src :: d in n.table && n'.table[d] == n.table[d])
            && m.src in n'.table && n'.table[m.src].precursors == Lookup(n.table, m.src).precursors
  {
  }

  // ---------------------------------------------------------------- replies

  /** A reply that is no better than the route is dropped. */
  lemma ReplyDropped(n: Node, m: Msg, now: real, buffered: bool)
    requires m.Rrep? && !BetterThan(Lookup(n.table, m.dst), m.dstSeq, m.hops)
    ensures RecvReply(n, m, now, buffered) == (n.(table := n.table[m.dst := Lookup(n.table, m.dst)]), Silent)
  {
  }

  /** One that is better is taken; it travels on exactly when it is for another node and there is a
      usable route to that one. */
  lemma ReplyTaken(n: Node, m: Msg, now: real, buffered: bool)
    requires m.Rrep? && BetterThan(Lookup(n.table, m.dst), m.dstSeq, m.hops)
    ensures var (n', out) := RecvReply(n, m, now, buffered);
            && n' == n.(table := n'.table) && n'.table.Keys == n.table.Keys + {m.dst}
            && RouteIs(n'.table[m.dst], m.dstSeq, m.hops, m.sender)
            && (forall d | d in n.table && d != m.dst && d != m.to :: n'.table[d] == n.table[d])
            && (m.to in n.table && m.to != m.dst ==> SameRoute(n.table[m.to], n'.table[m.to]))
            && (out.Send? <==> m.to != n.index && m.to in n'.table && n'.table[m.to].hops.Finite?)
            && (if out.Send? then
                  && out.msg == Rrep(n.index, m.to, n'.table[m.to].nexthop, m.dst, m.dstSeq, m.hops + 1, m.lifetime)
                  && n'.table[m.to].expire == now + 10.0
                  && n'.table[m.dst].precursors == Lookup(n.table, m.dst).precursors + {n'.table[m.to].nexthop}
                else
                  && n'.table[m.dst].precursors == Lookup(n.table, m.dst).precursors
                  && (m.to in n.table && m.to != m.dst ==> n'.table[m.to] == n.table[m.to]))
            && (!(out.Send? && m.to == m.dst) ==> n'.table[m.dst].expire == if buffered then now + 10.0 else now + m.lifetime)
  {
  }

  // ---------------------------------------------------------------- errors and lost neighbours

  /** The error message is about this route: it goes through the sender, and no fresher one is
      known. */
  predicate Hit(n: Node, m: Msg, d: Addr)
    requires m.Rerr?
  {
    && d in n.table && d in m.lost
    && n.table[d].hops.Finite? && n.table[d].nexthop == m.sender && n.table[d].seqno <= m.lost[d]
  }

  /** The route is down under the given number, and nobody depends on it any more. */
  predicate TakenDown(e: Entry, seqno: nat) {
    e.flags.Down? && e.hops.Infinite? && e.seqno == seqno && e.nexthop == 0 && e.expire == 0.0
  }

  /** recvError takes down exactly the routes the message hits, under the number it gives, and
      reports exactly those of them that somebody depended on. */
  lemma ErrorEffect(n: Node, m: Msg)
    requires NodeOk(n) && m.Rerr?
    ensures var (n', out) := RecvError(n, m);
            && n' == n.(table := n'.table) && n'.table.Keys == n.table.Keys
            && (forall d | d in n.table ::
                  if Hit(n, m, d) then TakenDown(n'.table[d], m.lost[d]) && n'.table[d].precursors == {}
                  else n'.table[d] == n.table[d])
            && (out.Send? <==> exists d :: Hit(n, m, d) && n.table[d].precursors != {})
            && (out.Send? ==>
                  && out.msg.Rerr? && out.msg.sender == n.index
                  && (forall d :: d in out.msg.lost <==> Hit(n, m, d) && n.table[d].precursors != {})
                  && forall d | d in out.msg.lost :: out.msg.lost[d] == m.lost[d])
  {
    var lost := ErrorReport(n.table, m, {});
    forall d | d in n.table
      ensures Hit(n, m, d) ==> !n.table[d].flags.Down?
    {
      assert EntryOk(n.table[d]);
    }
    assert forall d :: d in lost <==> Hit(n, m, d) && n.table[d].precursors != {};
    if lost != map[] {
      SomeMember(lost.Keys);
    }
  }

  predicate Through(n: Node, id: Addr, d: Addr) {
    d in n.table && n.table[d].hops.Finite? && n.table[d].nexthop == id
  }

  /** handle_link_failure takes down exactly the usable routes through the lost neighbour, each
      under the next number, and reports all of them. */
  lemma FailureEffect(n: Node, id: Addr)
    requires NodeOk(n)
    ensures var (n', out) := HandleLinkFailure(n, id);
            && n' == n.(table := n'.table) && n'.table.Keys == n.table.Keys
            && (forall d | d in n.table ::
                  && n'.table[d].precursors == n.table[d].precursors - {id}
                  && if Through(n, id, d) then TakenDown(n'.table[d], n.table[d].seqno + 1)
                     else SameRoute(n.table[d], n'.table[d]) && n'.table[d].expire == n.table[d].expire)
            && (out.Send? <==> exists d :: Through(n, id, d))
            && (out.Send? ==>
                  && out.msg.Rerr? && out.msg.sender == n.index
                  && (forall d :: d in out.msg.lost <==> Through(n, id, d))
                  && forall d | d in out.msg.lost :: out.msg.lost[d] == n.table[d].seqno + 1)
  {
    var lost := FailureReport(n.table, id, {});
    forall d | d in n.table
      ensures Through(n, id, d) ==> !n.table[d].flags.Down?
    {
      assert EntryOk(n.table[d]);
    }
    assert forall d :: d in lost <==> Through(n, id, d);
    if lost != map[] {
      SomeMember(lost.Keys);
    }
  }

  /** nb_delete does this too, with the own number raised by two and the neighbour forgotten. */
  lemma NeighborEffect(n: Node, id: Addr)
    ensures var (n', out) := NbDelete(n, id);
            && n'.seqno == n.seqno + 2 && n'.neighbors == n.neighbors - {id}
            && n'.index == n.index && n'.bid == n.bid && n'.bcache == n.bcache
            && n'.table == HandleLinkFailure(n, id).0.table && out == HandleLinkFailure(n, id).1
  {
  }

  // ---------------------------------------------------------------- time

  /** rt_purge takes down exactly the routes that are up and whose time has passed, each under the
      next number, and renews those that are up and that packets wait for. */
  lemma PurgeEffect(n: Node, now: real, waiting: set<Addr>)
    ensures var n' := RtPurge(n, now, waiting);
            && n' == n.(table := n'.table) && n'.table.Keys == n.table.Keys
            && forall d | d in n.table ::
                 var e := n.table[d];
                 if e.flags.Up? && e.expire < now then
                   TakenDown(n'.table[d], e.seqno + 1) && n'.table[d].precursors == e.precursors
                 else if e.flags.Up? && d in waiting then n'.table[d] == e.(expire := now + 10.0)
                 else n'.table[d] == e
  {
  }

  /** id_purge forgets exactly the requests whose time has come. */
  lemma CacheEffect(n: Node, now: real)
    ensures var n' := IdPurge(n, now);
            && n' == n.(bcache := n'.bcache)
            && (forall k :: k in n'.bcache <==> k in n.bcache && n.bcache[k] > now)
            && forall k | k in n'.bcache :: n'.bcache[k] == n.bcache[k]
  {
  }

  // ---------------------------------------------------------------- own traffic

  /** sendRequest asks for a route exactly when it is not up: first-hand, under fresh numbers, with
      the number the route had. */
  lemma AskEffect(n: Node, dst: Addr)
    requires dst in n.table
    ensures var (n', out) := SendRequest(n, dst);
            if n.table[dst].flags.Up? then n' == n && out == Silent
            else
              && out == Send(Rreq(n.index, n.index, n.seqno + 2, 1, dst, n.table[dst].seqno, n.bid))
              && n' == n.(seqno := n.seqno + 2, bid := n.bid + 1, table := n'.table)
              && n'.table.Keys == n.table.Keys && n'.table[dst] == n.table[dst].(expire := 0.0)
              && forall d | d in n.table && d != dst :: n'.table[d] == n.table[d]
  {
  }

  /** A data packet renews a route that is up; otherwise it asks for one if it is the node's own,
      waits if the route is under repair, and is reported as lost if not. */
  lemma DataEffect(n: Node, dst: Addr, mine: bool, granted: bool, now: real)
    ensures var (n', out) := RtResolve(n, dst, mine, granted, now);
            var e := Lookup(n.table, dst);
            && n'.table.Keys == n.table.Keys + {dst} && SameRoute(e, n'.table[dst])
            && (forall d | d in n.table && d != dst :: n'.table[d] == n.table[d])
            && (e.flags.Up? ==> out == Silent && n'.table[dst].expire == now + 10.0 && n'.seqno == n.seqno)
            && (!e.flags.Up? && mine && granted ==>
                  && out == Send(Rreq(n.index, n.index, n.seqno + 2, 1, dst, e.seqno, n.bid))
                  && n'.seqno == n.seqno + 2 && n'.bid == n.bid + 1)
            && (!e.flags.Up? && (mine ==> !granted) ==> n' == n.(table := n.table[dst := e]))
            && (!e.flags.Up? && mine && !granted ==> out == Silent)
            && (!e.flags.Up? && !mine ==>
                  out == if e.flags.InRepair? then Silent else Send(Rerr(n.index, map[dst := e.seqno])))
  {
  }

  /** A HELLO is remembered for four and a half seconds; a new neighbour raises the own number. */
  lemma HelloEffect(n: Node, m: Msg, now: real)
    requires m.Hello?
    ensures var n' := RecvHello(n, m, now);
            && n' == n.(neighbors := n.neighbors[m.sender := now + 4.5], seqno := n'.seqno)
            && n'.seqno == (if m.sender in n.neighbors then n.seqno else n.seqno + 2)
            && SendHello(n) == Send(Hello(n.index, n.seqno))
  {
  }

  /** The beginning of a repair marks the route and may ask for it; the timer takes it down, under
      its old number, exactly when it is not up. */
  lemma RepairEffect(n: Node, dst: Addr, granted: bool)
    requires dst in n.table
    ensures var (n', out) := RepairStart(n, dst, granted);
            && n'.table.Keys == n.table.Keys && (forall d | d in n.table && d != dst :: n'.table[d] == n.table[d])
            && n'.table[dst] == n.table[dst].(flags := InRepair, expire := n'.table[dst].expire)
            && out == if granted then Send(Rreq(n.index, n.index, n.seqno + 2, 1, dst, n.table[dst].seqno, n.bid)) else Silent
    ensures var n' := RepairTimeout(n, dst);
            && n' == n.(table := n'.table) && n'.table.Keys == n.table.Keys
            && (forall d | d in n.table && d != dst :: n'.table[d] == n.table[d])
            && (if n.table[dst].flags.InRepair? then
                  TakenDown(n'.table[dst], n.table[dst].seqno) && n'.table[dst].precursors == n.table[dst].precursors
                else n'.table[dst] == n.table[dst])
  {
  }
}
