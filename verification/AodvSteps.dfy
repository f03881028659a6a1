/**
 * What one AODV handler may do to its node, said without its body: the pair of sequence
 * number and distance never gets worse, a new next hop is exactly the one just heard from,
 * and a claim sent on never promises more than the table holds.
 */
module AodvSteps {
  import opened Options
  import opened AodvModel

  predicate AtMost(d: Distance, hops: int) {
    d.Finite? && d.hops <= hops
  }

  /** Lexicographically at least as good: newer, or as new and no longer. */
  predicate Progress(e: Entry, e': Entry) {
    || e'.seqno > e.seqno
    || (e'.seqno == e.seqno && (e.hops.Finite? ==> AtMost(e'.hops, e.hops.hops)))
  }

  ghost predicate LinkFrom(d: Addr, e: Entry, e': Entry, heard: Option<Ad>) {
    e'.hops.Finite? ==>
      || (e'.seqno == e.seqno && e'.hops == e.hops && e'.nexthop == e.nexthop)
      || heard == Some(Ad(e'.nexthop, d, e'.seqno, e'.hops.hops))
  }

  ghost predicate EntryStep(d: Addr, e: Entry, e': Entry, heard: Option<Ad>) {
    EntryOk(e') && Progress(e, e') && LinkFrom(d, e, e', heard)
  }

  /** The table is at least as good as the claim, one hop closer. */
  predicate Covers(e: Entry, a: Ad) {
    e.seqno > a.seqno || (e.seqno == a.seqno && AtMost(e.hops, a.hops - 1))
  }

  /** The number in a claim is our own, was just heard, or belongs to a usable route. */
  ghost predicate Grounded(n: Node, n': Node, heard: Option<Ad>, a: Ad) {
    || (a.dst == n.index && a.seqno <= n'.seqno)
    || (heard.Some? && heard.value.dst == a.dst && heard.value.seqno == a.seqno)
    || (a.dst in n.table && n.table[a.dst].hops.Finite? && n.table[a.dst].seqno == a.seqno)
  }

  ghost predicate SendOk(n: Node, n': Node, heard: Option<Ad>, m: Msg) {
    && MsgOk(m)
    && m.sender == n'.index
    && (AdOf(m).Some? ==>
          && var a := AdOf(m).value;
             && Grounded(n, n', heard, a)
             && (a.dst != n'.index ==> a.dst in n'.table && Covers(n'.table[a.dst], a)))
  }

  ghost predicate NodeStep(n: Node, n': Node, heard: Option<Ad>, out: Out) {
    && n'.index == n.index
    && n'.seqno >= n.seqno
    && Usable(n'.seqno)
    && n.table.Keys <= n'.table.Keys
    && (forall d | d in n'.table :: EntryStep(d, Lookup(n.table, d), n'.table[d], heard))
    && (out.Send? ==> SendOk(n, n', heard, out.msg))
  }

  /** A route is under repair only if it was before. */
  predicate NoNewRepair(n: Node, n': Node) {
    forall d | d in n'.table && n'.table[d].flags.InRepair? :: d in n.table && n.table[d].flags.InRepair?
  }

  lemma EntryStepTrans(d: Addr, e: Entry, e1: Entry, e2: Entry, heard: Option<Ad>)
    requires EntryStep(d, e, e1, heard) && EntryStep(d, e1, e2, heard)
    ensures EntryStep(d, e, e2, heard)
  {
  }

  lemma NodeStepTrans(n: Node, n1: Node, n2: Node, heard: Option<Ad>, out: Out)
    requires NodeOk(n) && NodeStep(n, n1, heard, Silent) && NodeStep(n1, n2, heard, out)
    ensures NodeStep(n, n2, heard, out)
  {
  }

  lemma AnswerRequestStep(n: Node, m: Msg, now: real)
    requires NodeOk(n) && m.Rreq? && MsgOk(m) && m.src != n.index && m.src in n.table
    requires Covers(n.table[m.src], Ad(n.index, m.src, m.srcSeq, m.hops + 1))
    ensures var (n', out) := AnswerRequest(n, m, now); NodeStep(n, n', AdOf(m), out) && NoNewRepair(n, n')
  {
    var (n', out) := AnswerRequest(n, m, now);
    forall d | d in n'.table ensures EntryStep(d, Lookup(n.table, d), n'.table[d], AdOf(m)) {
      assert EntryOk(n.table[d]);
    }
  }

  lemma RecvRequestStep(n: Node, m: Msg, now: real, renewed: bool)
    requires NodeOk(n) && m.Rreq? && MsgOk(m)
    ensures var (n', out) := RecvRequest(n, m, now, renewed); NodeStep(n, n', AdOf(m), out) && NoNewRepair(n, n')
  {
    forall d | d in n.table ensures EntryStep(d, Lookup(n.table, d), n.table[d], AdOf(m)) {
      assert EntryOk(n.table[d]);
    }
    if m.src != n.index && (m.src, m.bid) !in n.bcache {
      var r := Reverse(Lookup(n.table, m.src), m, now, renewed);
      var n1 := n.(bcache := n.bcache[(m.src, m.bid) := now + BCAST_ID_SAVE], table := n.table[m.src := r]);
      assert EntryOk(Lookup(n.table, m.src));
      assert NodeStep(n, n1, AdOf(m), Silent);
      AnswerRequestStep(n1, m, now);
      var (n', out) := AnswerRequest(n1, m, now);
      NodeStepTrans(n, n1, n', AdOf(m), out);
    }
  }

  lemma RecvReplyStep(n: Node, m: Msg, now: real, buffered: bool)
    requires NodeOk(n) && m.Rrep? && MsgOk(m)
    requires m.dst == n.index ==> m.dstSeq <= n.seqno
    ensures var (n', out) := RecvReply(n, m, now, buffered); NodeStep(n, n', AdOf(m), out) && NoNewRepair(n, n')
  {
    var (n', out) := RecvReply(n, m, now, buffered);
    forall d | d in n'.table ensures EntryStep(d, Lookup(n.table, d), n'.table[d], AdOf(m)) {
      assert EntryOk(Lookup(n.table, d));
    }
  }

  /** A sweep changes each entry on its own and reports only broken numbers. */
  lemma SweepStep(n: Node, n': Node, out: Out)
    requires NodeOk(n) && n'.index == n.index && n'.seqno >= n.seqno && Usable(n'.seqno)
    requires n'.table.Keys == n.table.Keys
    requires forall d | d in n.table :: EntryStep(d, n.table[d], n'.table[d], None)
    requires out.Send? ==> out.msg.Rerr? && out.msg.sender == n.index
    requires out.Send? ==> forall d | d in out.msg.lost :: Broken(out.msg.lost[d])
    ensures NodeStep(n, n', None, out)
  {
  }

  lemma RecvErrorStep(n: Node, m: Msg)
    requires NodeOk(n) && m.Rerr? && MsgOk(m)
    ensures var (n', out) := RecvError(n, m); NodeStep(n, n', None, out) && NoNewRepair(n, n')
  {
    var (n', out) := RecvError(n, m);
    forall d | d in n.table ensures EntryStep(d, n.table[d], n'.table[d], None) {
      assert EntryOk(n.table[d]);
    }
    SweepStep(n, n', out);
  }

  lemma HandleLinkFailureStep(n: Node, id: Addr)
    requires NodeOk(n)
    ensures var (n', out) := HandleLinkFailure(n, id); NodeStep(n, n', None, out) && NoNewRepair(n, n')
  {
    var (n', out) := HandleLinkFailure(n, id);
    forall d | d in n.table ensures EntryStep(d, n.table[d], n'.table[d], None) {
      assert EntryOk(n.table[d]);
    }
    SweepStep(n, n', out);
  }

  lemma NbDeleteStep(n: Node, id: Addr)
    requires NodeOk(n)
    ensures var (n', out) := NbDelete(n, id); NodeStep(n, n', None, out) && NoNewRepair(n, n')
  {
    HandleLinkFailureStep(n.(seqno := n.seqno + 2, neighbors := n.neighbors - {id}), id);
  }

  lemma RtPurgeStep(n: Node, now: real, buffered: set<Addr>)
    requires NodeOk(n)
    ensures NodeStep(n, RtPurge(n, now, buffered), None, Silent) && NoNewRepair(n, RtPurge(n, now, buffered))
  {
  }

  lemma RtResolveStep(n: Node, dst: Addr, mine: bool, granted: bool, now: real)
    requires NodeOk(n)
    ensures var (n', out) := RtResolve(n, dst, mine, granted, now); NodeStep(n, n', None, out) && NoNewRepair(n, n')
  {
  }

  lemma SendRequestStep(n: Node, dst: Addr)
    requires NodeOk(n) && dst in n.table
    ensures var (n', out) := SendRequest(n, dst); NodeStep(n, n', None, out) && NoNewRepair(n, n')
  {
  }

  /** Beginning a repair keeps to the guarantee: the route stays as good as it was. */
  lemma RepairStartStep(n: Node, dst: Addr, granted: bool)
    requires NodeOk(n) && dst in n.table && n.table[dst].hops.Finite?
    ensures var (n', out) := RepairStart(n, dst, granted); NodeStep(n, n', None, out)
  {
  }

  /** The repair timer keeps to the guarantee exactly when the route is not still under repair. */
  lemma RepairTimeoutStep(n: Node, dst: Addr)
    requires NodeOk(n)
    ensures NodeStep(n, RepairTimeout(n, dst), None, Silent) <==> dst in n.table ==> !n.table[dst].flags.InRepair?
    ensures NoNewRepair(n, RepairTimeout(n, dst))
  {
  }

  // Each assert fails exactly when the route it is about is under repair.

  lemma FailureAssertsIff(n: Node, id: Addr)
    requires NodeOk(n)
    ensures FailureAsserts(n, id) <==> forall d | d in n.table && n.table[d].nexthop == id :: !n.table[d].flags.InRepair?
  {
    forall d | d in n.table ensures EntryOk(n.table[d]) {
    }
  }

  lemma ErrorAssertsIff(n: Node, m: Msg)
    requires NodeOk(n) && m.Rerr?
    ensures ErrorAsserts(n, m) <==>
            forall d | d in n.table && d in m.lost && n.table[d].nexthop == m.sender && n.table[d].seqno <= m.lost[d] ::
              !n.table[d].flags.InRepair?
  {
    forall d | d in n.table ensures EntryOk(n.table[d]) {
    }
  }

  lemma ReplyAssertsIff(n: Node, m: Msg)
    requires NodeOk(n) && m.Rrep? && Better(Lookup(n.table, m.dst), m.dstSeq, m.hops)
    ensures ReplyAsserts(n, m) <==> (m.to != n.index && m.to != m.dst && m.to in n.table ==> !n.table[m.to].flags.InRepair?)
  {
    assert m.to in n.table ==> EntryOk(n.table[m.to]);
  }
}
