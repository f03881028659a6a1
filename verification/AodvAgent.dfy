/**
 * The AODV agent in the form of the source: a route entry and an agent whose methods
 * assign their fields and sweep the route table.  Every method is proved to do to the
 * fields exactly what AodvModel says of their values; the source's assertions stand where
 * they stand there.
 */
module AodvAgent {
  import opened Options
  import opened AodvModel
  import AodvSteps

  class RtEntry {
    const dst: Addr
    var seqno: nat
    var hops: Distance
    var flags: Flag
    var nexthop: Addr
    var expire: real
    var precursors: set<Addr>

    ghost function Value(): Entry
      reads this
    {
      Entry(seqno, hops, flags, nexthop, expire, precursors)
    }

    constructor (id: Addr)
      ensures dst == id && Value() == FRESH
    {
      dst := id;
      seqno, hops, flags, nexthop, expire, precursors := 0, Infinite, Down, 0, 0.0, {};
    }

    method RtUpdate(seqnum: nat, metric: nat, via: Addr, until: real)
      modifies this
      ensures Value() == AodvModel.RtUpdate(old(Value()), seqnum, metric, via, until)
    {
      seqno := seqnum;
      hops := Finite(metric);
      flags := Up;
      nexthop := via;
      expire := until;
    }

    method RtDown()
      modifies this
      ensures Value() == AodvModel.RtDown(old(Value()))
    {
      if flags.Down? {
        return;
      }
      hops := Infinite;
      flags := Down;
      nexthop := 0;
      expire := 0.0;
    }

    method LearnReverse(m: Msg, now: real, pending: bool, buffered: bool)
      requires m.Rreq? && EntryOk(Value())
      modifies this
      ensures Value() == Reverse(old(Value()), m, now, pending || buffered)
    {
      expire := MaxReal(expire, now + REV_ROUTE_LIFE);
      if m.srcSeq > seqno || (m.srcSeq == seqno && Below(m.hops, hops)) {
        RtUpdate(m.srcSeq, m.hops, m.sender, MaxReal(expire, now + REV_ROUTE_LIFE));
        if pending {
          expire := now + ACTIVE_ROUTE_TIMEOUT;
        }
        assert flags.Up?;
        if buffered {
          assert hops.Finite?;
          expire := now + ACTIVE_ROUTE_TIMEOUT;
        }
      }
    }

    method LearnForward(m: Msg, now: real, buffered: bool) returns (suppressReply: bool)
      requires m.Rrep? && EntryOk(Value())
      modifies this
      ensures suppressReply == !Better(old(Value()), m.dstSeq, m.hops)
      ensures Value() == if suppressReply then old(Value()) else Forward(old(Value()), m, now, buffered)
    {
      if seqno < m.dstSeq || (seqno == m.dstSeq && Below(m.hops, hops)) {
        RtUpdate(m.dstSeq, m.hops, m.sender, now + m.lifetime);
        if buffered {
          assert flags.Up?;
          expire := now + ACTIVE_ROUTE_TIMEOUT;
        }
        return false;
      }
      return true;
    }

    method LoseVia(via: Addr, lost: nat) returns (report: bool)
      requires Loses(Value(), via, lost) ==> UpAndEven(Value())
      modifies this
      ensures Value() == AfterError(old(Value()), via, lost)
      ensures report == (Loses(old(Value()), via, lost) && old(precursors) != {})
    {
      report := false;
      if hops.Finite? && nexthop == via && seqno <= lost {
        assert flags.Up?;
        assert seqno % 2 == 0;
        seqno := lost;
        RtDown();
        if precursors != {} {
          report := true;
          precursors := {};
        }
      }
    }

    method FailVia(id: Addr) returns (report: bool)
      requires Uses(Value(), id) ==> UpAndEven(Value())
      modifies this
      ensures Value() == AfterFailure(old(Value()), id)
      ensures report == Uses(old(Value()), id)
      ensures report ==> seqno == old(seqno) + 1
    {
      report := false;
      if hops.Finite? && nexthop == id {
        assert flags.Up?;
        assert seqno % 2 == 0;
        seqno := seqno + 1;
        report := true;
        RtDown();
      }
      precursors := precursors - {id};
    }

    method Purge(now: real, buffered: bool)
      requires EntryOk(Value())
      modifies this
      ensures Value() == AfterPurge(old(Value()), now, buffered)
    {
      if flags.Up? && expire < now {
        assert hops.Finite?;
        seqno := seqno + 1;
        assert seqno % 2 == 1;
        RtDown();
      } else if flags.Up? {
        assert hops.Finite?;
        if buffered {
          expire := now + ACTIVE_ROUTE_TIMEOUT;
        }
      }
    }
  }

  class Agent {
    const index: Addr
    var seqno: nat
    var bid: nat
    var rtable: map<Addr, RtEntry>
    var bcache: map<(Addr, nat), real>
    var neighbors: map<Addr, real>
    ghost var Repr: set<RtEntry>

    /** The entries are distinct objects of this agent. */
    ghost predicate Distinct()
      reads this`rtable, this`Repr
    {
      && (forall c, d | c in rtable && d in rtable && c != d :: rtable[c] != rtable[d])
      && (forall d | d in rtable :: rtable[d] in Repr)
    }

    ghost predicate Valid()
      reads this, Repr
    {
      Distinct() && NodeOk(Value())
    }

    ghost function Table(): map<Addr, Entry>
      requires Distinct()
      reads this`rtable, this`Repr, Repr
    {
      map d | d in rtable :: rtable[d].Value()
    }

    ghost function Value(): Node
      requires Distinct()
      reads this, Repr
    {
      Node(index, seqno, bid, Table(), bcache, neighbors)
    }

    /** Only the entry for d has changed since the labelled state. */
    twostate lemma Stored(d: Addr)
      requires old(Distinct()) && d in rtable && rtable == old(rtable) && Repr == old(Repr)
      requires forall o | o in Repr && o != rtable[d] :: unchanged(o)
      ensures Distinct() && Table() == old(Table())[d := rtable[d].Value()]
    {
      forall c | c in rtable && c != d ensures rtable[c].Value() == old(rtable[c].Value()) {
        assert rtable[c] in Repr && rtable[c] != rtable[d];
      }
    }

    constructor (id: Addr)
      ensures Valid() && Repr == {} && Value() == Node(id, 2, 1, map[], map[], map[])
    {
      index, seqno, bid := id, 2, 1;
      rtable, bcache, neighbors, Repr := map[], map[], map[], {};
    }

    /** rt_lookup, adding a blank entry (rt_add) when there is none. */
    method Obtain(d: Addr) returns (rt: RtEntry)
      requires Distinct()
      modifies this`rtable, this`Repr
      ensures Distinct() && old(Repr) <= Repr && fresh(Repr - old(Repr))
      ensures d in rtable && rtable[d] == rt && rt.Value() == Lookup(old(Table()), d)
      ensures Table() == old(Table())[d := Lookup(old(Table()), d)]
    {
      if d in rtable {
        rt := rtable[d];
      } else {
        rt := new RtEntry(d);
        rtable := rtable[d := rt];
        Repr := Repr + {rt};
      }
    }

    method RecvRequest(m: Msg, now: real, pending: bool, buffered: bool) returns (out: Out)
      requires Valid() && m.Rreq? && MsgOk(m)
      modifies this, Repr
      ensures Valid() && fresh(Repr - old(Repr))
      ensures (Value(), out) == AodvModel.RecvRequest(old(Value()), m, now, pending || buffered)
    {
      AodvSteps.RecvRequestStep(Value(), m, now, pending || buffered);
      if m.src == index {
        return Silent;
      }
      if (m.src, m.bid) in bcache {
        return Silent;
      }
      out := HandleRequest(m, now, pending, buffered);
    }

    /** Lines 684-819: a request from elsewhere that has not been seen before. */
    method HandleRequest(m: Msg, now: real, pending: bool, buffered: bool) returns (out: Out)
      requires Valid() && m.Rreq? && MsgOk(m) && m.src != index && (m.src, m.bid) !in bcache
      modifies this, Repr
      ensures Distinct() && fresh(Repr - old(Repr))
      ensures (Value(), out) == AodvModel.RecvRequest(old(Value()), m, now, pending || buffered)
    {
      bcache := bcache[(m.src, m.bid) := now + BCAST_ID_SAVE];
      LearnReverse(m, now, pending, buffered);
      out := AnswerRequest(m, now);
    }

    /** Lines 695-741: the reverse route to the request's source. */
    method LearnReverse(m: Msg, now: real, pending: bool, buffered: bool)
      requires Valid() && m.Rreq? && MsgOk(m)
      modifies this`rtable, this`Repr, Repr
      ensures Distinct() && m.src in rtable && fresh(Repr - old(Repr))
      ensures Table() == old(Table())[m.src := Reverse(Lookup(old(Table()), m.src), m, now, pending || buffered)]
    {
      ghost var n0 := Value();
      var rt0 := Obtain(m.src);
      assert EntryOk(Lookup(n0.table, m.src));
      label Learn:
      rt0.LearnReverse(m, now, pending, buffered);
      Stored@Learn(m.src);
      assert Table() == n0.table[m.src := rt0.Value()];
    }

    method AnswerRequest(m: Msg, now: real) returns (out: Out)
      requires Distinct() && m.Rreq? && m.src in rtable
      modifies this`seqno, Repr
      ensures Distinct()
      ensures (Value(), out) == AodvModel.AnswerRequest(old(Value()), m, now)
    {
      var rt0 := rtable[m.src];
      if m.dst == index {
        seqno := Max(seqno, m.dstSeq) + 1;
        if seqno % 2 == 1 {
          seqno := seqno + 1;
        }
        return Send(Rrep(index, m.src, rt0.nexthop, index, seqno, 1, MY_ROUTE_TIMEOUT));
      }
      if m.dst in rtable && rtable[m.dst].hops.Finite? && rtable[m.dst].seqno >= m.dstSeq {
        var rt := rtable[m.dst];
        out := Send(Rrep(index, m.src, rt0.nexthop, m.dst, rt.seqno, rt.hops.hops + 1,
                         (rt.expire - now).Floor as real));
        label First:
        rt.precursors := rt.precursors + {rt0.nexthop};
        Stored@First(m.dst);
        label Second:
        rt0.precursors := rt0.precursors + {rt.nexthop};
        Stored@Second(m.src);
      } else {
        var dstSeq := if m.dst in rtable then Max(rtable[m.dst].seqno, m.dstSeq) else m.dstSeq;
        out := Send(Rreq(index, m.src, m.srcSeq, m.hops + 1, m.dst, dstSeq, m.bid));
      }
    }

    method RecvReply(m: Msg, now: real, buffered: bool) returns (out: Out)
      requires Valid() && m.Rrep? && MsgOk(m) && (m.dst == index ==> m.dstSeq <= seqno)
      requires ReplyAsserts(Value(), m)
      modifies this, Repr
      ensures Valid() && fresh(Repr - old(Repr))
      ensures (Value(), out) == AodvModel.RecvReply(old(Value()), m, now, buffered)
    {
      AodvSteps.RecvReplyStep(Value(), m, now, buffered);
      var suppressReply := LearnForward(m, now, buffered);
      if suppressReply {
        return Silent;
      }
      out := PassReply(m, now);
    }

    /** Lines 847-902. */
    method LearnForward(m: Msg, now: real, buffered: bool) returns (suppressReply: bool)
      requires Valid() && m.Rrep? && MsgOk(m)
      modifies this`rtable, this`Repr, Repr
      ensures Valid() && fresh(Repr - old(Repr)) && m.dst in rtable
      ensures var e := Lookup(old(Table()), m.dst);
              && suppressReply == !Better(e, m.dstSeq, m.hops)
              && Table() == old(Table())[m.dst := if suppressReply then e else Forward(e, m, now, buffered)]
    {
      ghost var n0 := Value();
      var rt := Obtain(m.dst);
      assert EntryOk(Lookup(n0.table, m.dst));
      label Learn:
      suppressReply := rt.LearnForward(m, now, buffered);
      Stored@Learn(m.dst);
      assert Table() == n0.table[m.dst := rt.Value()];
    }

    method PassReply(m: Msg, now: real) returns (out: Out)
      requires Distinct() && m.Rrep? && m.dst in rtable
      requires m.to != index && m.to in rtable && rtable[m.to].hops.Finite? ==> rtable[m.to].flags.Up?
      modifies Repr
      ensures Distinct()
      ensures (Value(), out) == AodvModel.PassReply(old(Value()), m, now)
    {
      if m.to == index {
        return Silent;
      }
      if m.to in rtable && rtable[m.to].hops.Finite? {
        var rt, rt0 := rtable[m.dst], rtable[m.to];
        assert rt0.flags.Up?;
        label First:
        rt0.expire := now + ACTIVE_ROUTE_TIMEOUT;
        Stored@First(m.to);
        label Second:
        rt.precursors := rt.precursors + {rt0.nexthop};
        Stored@Second(m.dst);
        return Send(Rrep(index, m.to, rt0.nexthop, m.dst, m.dstSeq, m.hops + 1, m.lifetime));
      }
      return Silent;
    }

    method RecvError(m: Msg) returns (out: Out)
      requires Valid() && m.Rerr? && MsgOk(m) && ErrorAsserts(Value(), m)
      modifies Repr
      ensures Valid()
      ensures (Value(), out) == AodvModel.RecvError(old(Value()), m)
    {
      AodvSteps.RecvErrorStep(Value(), m);
      var lost := LoseRoutes(m);
      out := if lost == map[] then Silent else Send(Rerr(index, lost));
    }

    /** The loop over the destinations of an error message. */
    method LoseRoutes(m: Msg) returns (lost: map<Addr, nat>)
      requires Distinct() && m.Rerr? && ErrorAsserts(Value(), m)
      modifies Repr
      ensures Distinct() && Table() == ErrorSweep(old(Table()), m, {}) && lost == ErrorReport(old(Table()), m, {})
    {
      ghost var before := Table();
      var todo := m.lost.Keys;
      lost := map[];
      while todo != {}
        invariant todo <= m.lost.Keys && Distinct()
        invariant Table() == ErrorSweep(before, m, todo)
        invariant lost == ErrorReport(before, m, todo)
        decreases |todo|
      {
        SomeMember(todo);
        var d :| d in todo;
        if d in rtable {
          assert before[d] == Table()[d];
          label One:
          var report := rtable[d].LoseVia(m.sender, m.lost[d]);
          Stored@One(d);
          if report {
            lost := lost[d := rtable[d].seqno];
          }
        }
        todo := todo - {d};
      }
    }

    method HandleLinkFailure(id: Addr) returns (out: Out)
      requires Valid() && FailureAsserts(Value(), id)
      modifies Repr
      ensures Valid()
      ensures (Value(), out) == AodvModel.HandleLinkFailure(old(Value()), id)
    {
      AodvSteps.HandleLinkFailureStep(Value(), id);
      var lost := FailRoutes(id);
      out := if lost == map[] then Silent else Send(Rerr(index, lost));
    }

    /** The loop over the whole table. */
    method FailRoutes(id: Addr) returns (lost: map<Addr, nat>)
      requires Distinct() && FailureAsserts(Value(), id)
      modifies Repr
      ensures Distinct() && Table() == FailureSweep(old(Table()), id, {}) && lost == FailureReport(old(Table()), id, {})
    {
      ghost var before := Table();
      var todo := rtable.Keys;
      lost := map[];
      while todo != {}
        invariant todo <= rtable.Keys && Distinct()
        invariant Table() == FailureSweep(before, id, todo)
        invariant lost == FailureReport(before, id, todo)
        decreases |todo|
      {
        SomeMember(todo);
        var d :| d in todo;
        assert before[d] == Table()[d];
        label One:
        var report := rtable[d].FailVia(id);
        Stored@One(d);
        if report {
          lost := lost[d := rtable[d].seqno];
        }
        todo := todo - {d};
      }
    }

    method NbDelete(id: Addr) returns (out: Out)
      requires Valid() && FailureAsserts(Value(), id)
      modifies this`seqno, this`neighbors, Repr
      ensures Valid()
      ensures (Value(), out) == AodvModel.NbDelete(old(Value()), id)
    {
      ghost var n0 := Value();
      seqno := seqno + 2;
      assert seqno % 2 == 0;
      neighbors := neighbors - {id};
      assert Value() == n0.(seqno := n0.seqno + 2, neighbors := n0.neighbors - {id});
      out := HandleLinkFailure(id);
    }

    method RtPurge(now: real, buffered: set<Addr>)
      requires Valid()
      modifies Repr
      ensures Valid()
      ensures Value() == AodvModel.RtPurge(old(Value()), now, buffered)
    {
      AodvSteps.RtPurgeStep(Value(), now, buffered);
      ghost var before := Table();
      var todo := rtable.Keys;
      while todo != {}
        invariant todo <= rtable.Keys && Distinct()
        invariant Table() == PurgeSweep(before, now, buffered, todo)
        decreases |todo|
      {
        SomeMember(todo);
        var d :| d in todo;
        assert before[d] == Table()[d] && EntryOk(before[d]);
        label One:
        rtable[d].Purge(now, d in buffered);
        Stored@One(d);
        todo := todo - {d};
      }
    }

    method SendRequest(dst: Addr) returns (out: Out)
      requires Valid() && dst in rtable
      modifies this`seqno, this`bid, rtable[dst]
      ensures Valid()
      ensures (Value(), out) == AodvModel.SendRequest(old(Value()), dst)
    {
      AodvSteps.SendRequestStep(Value(), dst);
      var rt := rtable[dst];
      if rt.flags.Up? {
        assert rt.hops.Finite?;
        return Silent;
      }
      label Begin:
      rt.expire := 0.0;
      Stored@Begin(dst);
      var id := bid;
      bid := bid + 1;
      seqno := seqno + 2;
      assert seqno % 2 == 0;
      out := Send(Rreq(index, index, seqno, 1, dst, rt.seqno, id));
    }

    method RtResolve(dst: Addr, mine: bool, granted: bool, now: real) returns (out: Out)
      requires Valid()
      modifies this, Repr
      ensures Valid() && fresh(Repr - old(Repr))
      ensures (Value(), out) == AodvModel.RtResolve(old(Value()), dst, mine, granted, now)
    {
      AodvSteps.RtResolveStep(Value(), dst, mine, granted, now);
      ghost var n0 := Value();
      var rt := Obtain(dst);
      assert EntryOk(Lookup(n0.table, dst));
      label Begin:
      out := Silent;
      if rt.flags.Up? {
        assert rt.hops.Finite?;
        rt.expire := now + ACTIVE_ROUTE_TIMEOUT;
        Stored@Begin(dst);
      } else if mine {
        if granted {
          out := SendRequest(dst);
        }
      } else if !rt.flags.InRepair? {
        assert rt.flags.Down?;
        out := Send(Rerr(index, map[dst := rt.seqno]));
      }
    }

    method RecvHello(m: Msg, now: real)
      requires Valid() && m.Hello?
      modifies this`seqno, this`neighbors
      ensures Valid()
      ensures Value() == AodvModel.RecvHello(old(Value()), m, now)
    {
      if m.sender !in neighbors {
        seqno := seqno + 2;
        assert seqno % 2 == 0;
      }
      neighbors := neighbors[m.sender := now + NEIGHBOR_LIFE];
    }

    /** local_rt_repair. */
    method LocalRtRepair(dst: Addr, granted: bool) returns (out: Out)
      requires Valid() && dst in rtable && rtable[dst].hops.Finite?
      modifies this`seqno, this`bid, rtable[dst]
      ensures Valid()
      ensures (Value(), out) == RepairStart(old(Value()), dst, granted)
    {
      AodvSteps.RepairStartStep(Value(), dst, granted);
      AodvSteps.RepairStartStep(Value(), dst, false);
      label Begin:
      rtable[dst].flags := InRepair;
      Stored@Begin(dst);
      out := Silent;
      if granted {
        out := SendRequest(dst);
      }
    }

    /** The repair timer. */
    method HandleRepairTimer(dst: Addr)
      requires Distinct()
      modifies Repr
      ensures Distinct() && Value() == RepairTimeout(old(Value()), dst)
      ensures old(Valid()) ==> (Valid() <==> dst in rtable ==> old(!rtable[dst].flags.InRepair?))
    {
      ghost var n0 := Value();
      assert NodeOk(n0) && dst in rtable ==> EntryOk(n0.table[dst]);
      if dst in rtable && !rtable[dst].flags.Up? {
        label Begin:
        rtable[dst].RtDown();
        Stored@Begin(dst);
      }
    }
  }
}
