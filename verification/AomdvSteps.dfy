/**
 * What one AOMDV handler may do to its node, said without its body: freshness only moves
 * forward, an advertised hop count is frozen for its sequence number, every stored path
 * was there before or is the one just received, and whatever is sent matches the table.
 * Each handler is shown to keep to this; AomdvNetwork.dfy uses nothing else about them.
 */
module AomdvSteps {
  import opened Options
  import opened AomdvModel

  /** (seqno, advertised) never goes back, and is frozen once it is advertised. */
  predicate Progress(e: Entry, e': Entry) {
    || e'.seqno > e.seqno
    || (e'.seqno == e.seqno && (e.advertised.Hops? ==> e'.advertised == e.advertised))
  }

  ghost predicate HasLink(e: Entry, nexthop: Addr, hopcount: nat) {
    exists p :: p in e.paths && p.nexthop == nexthop && p.hopcount == hopcount
  }

  ghost predicate LinksFrom(d: Addr, e: Entry, e': Entry, heard: Option<Ad>) {
    forall p | p in e'.paths ::
      || (e'.seqno == e.seqno && HasLink(e, p.nexthop, p.hopcount))
      || (p.hopcount >= 1 && heard == Some(Ad(p.nexthop, d, e'.seqno, p.hopcount - 1)))
  }

  ghost predicate EntryStep(d: Addr, e: Entry, e': Entry, heard: Option<Ad>) {
    Progress(e, e') && LinksFrom(d, e, e', heard)
  }

  /** A claim this node may send: about itself, or exactly what its table advertises. */
  ghost predicate Backed(n: Node, a: Ad) {
    && a.via == n.index
    && if a.dst == n.index then a.seqno <= n.seqno
       else a.dst in n.table && n.table[a.dst].seqno == a.seqno && n.table[a.dst].advertised == Hops(a.hops)
  }

  ghost predicate SendOk(n: Node, m: Msg) {
    MsgOk(m) && m.sender == n.index && (AdOf(m).Some? ==> Backed(n, AdOf(m).value))
  }

  ghost predicate NodeStep(n: Node, n': Node, heard: Option<Ad>, out: Out) {
    && n'.index == n.index
    && n'.seqno >= n.seqno
    && NodeOk(n')
    && n.table.Keys <= n'.table.Keys
    && (forall d | d in n'.table :: EntryStep(d, Lookup(n.table, d), n'.table[d], heard))
    && (out.Send? ==> SendOk(n', out.msg))
  }

  lemma EntryStepTrans(d: Addr, e: Entry, e1: Entry, e2: Entry, heard: Option<Ad>)
    requires EntryStep(d, e, e1, heard) && EntryStep(d, e1, e2, None)
    ensures EntryStep(d, e, e2, heard)
  {
  }

  lemma NodeStepTrans(n: Node, n1: Node, n2: Node, heard: Option<Ad>, out: Out)
    requires NodeStep(n, n1, heard, Silent) && NodeStep(n1, n2, None, out)
    ensures NodeStep(n, n2, heard, out)
  {
    forall d | d in n2.table ensures EntryStep(d, Lookup(n.table, d), n2.table[d], heard) {
      if d in n1.table {
        EntryStepTrans(d, Lookup(n.table, d), n1.table[d], n2.table[d], heard);
      } else {
        EntryStepTrans(d, FRESH, FRESH, n2.table[d], heard);
      }
    }
  }

  lemma Unchanged(d: Addr, e: Entry, heard: Option<Ad>)
    ensures EntryStep(d, e, e, heard)
  {
  }

  lemma AdvertiseStep(d: Addr, e: Entry)
    ensures EntryStep(d, e, Advertise(e), None)
  {
  }

  lemma RenewedStep(d: Addr, e: Entry, now: real)
    ensures EntryStep(d, e, Renewed(e, now), None)
  {
  }

  lemma RefreshedStep(d: Addr, u: Update, buffered: bool, now: real)
    ensures EntryStep(d, u.entry, Refreshed(u, buffered, now), None)
  {
  }

  lemma ExtendedStep(d: Addr, e: Entry, k: nat, expire: real)
    requires k < |e.paths|
    ensures EntryStep(d, e, Extended(e, k, expire), None)
  {
  }

  lemma InsertedStep(d: Addr, e: Entry, p: Path, heard: Option<Ad>)
    requires p.hopcount >= 1 && heard == Some(Ad(p.nexthop, d, e.seqno, p.hopcount - 1))
    ensures EntryStep(d, e, Inserted(e, p), heard)
  {
  }

  lemma UpdateReverseStep(d: Addr, e: Entry, maxPaths: int, lenDiff: int, sender: Addr, srcSeq: nat, hops: nat,
                          firstHop: Addr, forMe: bool, now: real)
    requires EntryOk(e, maxPaths) && maxPaths >= 1 && Usable(srcSeq)
    ensures EntryStep(d, e, UpdateReverse(e, maxPaths, lenDiff, sender, srcSeq, hops, firstHop, forMe, now).entry,
                      Some(Ad(sender, d, srcSeq, hops)))
  {
    var heard := Some(Ad(sender, d, srcSeq, hops));
    Unchanged(d, e, heard);
    if e.seqno == srcSeq {
      InsertedStep(d, e, Path(sender, hops + 1, now + REV_ROUTE_LIFE, firstHop), heard);
    }
    var k := FindPath(e.paths, sender, firstHop);
    if k.Some? {
      ExtendedStep(d, e, k.value, now + REV_ROUTE_LIFE);
    }
  }

  lemma UpdateForwardStep(d: Addr, e: Entry, maxPaths: int, lenDiff: int, sender: Addr, dstSeq: nat, hops: nat,
                          firstHop: Addr, lifetime: real, now: real)
    requires EntryOk(e, maxPaths) && maxPaths >= 1 && Usable(dstSeq)
    ensures EntryStep(d, e, UpdateForward(e, maxPaths, lenDiff, sender, dstSeq, hops, firstHop, lifetime, now).entry,
                      Some(Ad(sender, d, dstSeq, hops)))
  {
  }

  /** Overwriting one entry by a legitimate successor is a legitimate step of the node. */
  lemma TableStep(n: Node, n': Node, d: Addr, e: Entry, heard: Option<Ad>, out: Out)
    requires NodeOk(n) && EntryOk(e, n.maxPaths) && (d == n.index ==> e.flags.Down?)
    requires EntryStep(d, Lookup(n.table, d), e, heard)
    requires n' == n.(table := n.table[d := e], bcache := n'.bcache)
    requires out.Send? ==> SendOk(n', out.msg)
    ensures NodeStep(n, n', heard, out)
  {
  }

  lemma AnswerRequestStep(n: Node, m: Msg, duplicate: bool, hasPath: bool, now: real)
    requires NodeOk(n) && m.Rreq? && MsgOk(m) && (m.src, m.bid) in n.bcache && m.src != n.index
    requires m.src in n.table && n.table[m.src].flags.Up? && n.table[m.src].seqno == m.srcSeq
    ensures var (n', out) := AnswerRequest(n, m, duplicate, hasPath, now); NodeStep(n, n', None, out)
  {
    forall d | d in n.table ensures EntryStep(d, Lookup(n.table, d), n.table[d], None) {
      Unchanged(d, n.table[d], None);
    }
    AdvertiseStep(m.src, n.table[m.src]);
    var (n', out) := AnswerRequest(n, m, duplicate, hasPath, now);
    if m.dst == n.index {
    } else if m.dst in n.table && n.table[m.dst].flags.Up? && n.table[m.dst].seqno >= m.dstSeq {
      AdvertiseStep(m.dst, n.table[m.dst]);
      var e := Advertise(n.table[m.dst]).(error := true);
      if hasPath && n.bcache[(m.src, m.bid)].count == 0 {
        TableStep(n, n', m.dst, e, None, out);
      }
    } else if !duplicate {
      TableStep(n, n', m.src, Advertise(n.table[m.src]), None, out);
    }
  }

  /** Storing what an offered reverse path leaves of its entry. */
  lemma LearnReverseStep(n: Node, m: Msg, firstHop: Addr, now: real, buffered: bool, cache: map<(Addr, nat), Bcast>)
    requires NodeOk(n) && m.Rreq? && MsgOk(m) && m.src != n.index
    ensures var u := UpdateReverse(Lookup(n.table, m.src), n.maxPaths, n.lenDiff, m.sender, m.srcSeq, m.hops,
                                   firstHop, m.dst == n.index, now);
            var n1 := n.(bcache := cache, table := n.table[m.src := Refreshed(u, buffered, now)]);
            NodeStep(n, n1, AdOf(m), Silent)
  {
    forall d | d in n.table ensures EntryStep(d, Lookup(n.table, d), n.table[d], AdOf(m)) {
      Unchanged(d, n.table[d], AdOf(m));
    }
    var e0 := Lookup(n.table, m.src);
    UpdateReverseStep(m.src, e0, n.maxPaths, n.lenDiff, m.sender, m.srcSeq, m.hops, firstHop, m.dst == n.index, now);
    var u := UpdateReverse(e0, n.maxPaths, n.lenDiff, m.sender, m.srcSeq, m.hops, firstHop, m.dst == n.index, now);
    var e := Refreshed(u, buffered, now);
    RefreshedStep(m.src, u, buffered, now);
    EntryStepTrans(m.src, e0, u.entry, e, AdOf(m));
    TableStep(n, n.(bcache := cache, table := n.table[m.src := e]), m.src, e, AdOf(m), Silent);
  }

  lemma RecvRequestStep(n: Node, m: Msg, now: real, buffered: bool)
    requires NodeOk(n) && m.Rreq? && MsgOk(m)
    ensures var (n', out) := RecvRequest(n, m, now, buffered); NodeStep(n, n', AdOf(m), out)
  {
    if m.src == n.index {
      forall d | d in n.table ensures EntryStep(d, Lookup(n.table, d), n.table[d], AdOf(m)) {
        Unchanged(d, n.table[d], AdOf(m));
      }
    } else {
      var key := (m.src, m.bid);
      var cache := if key in n.bcache then n.bcache else n.bcache[key := Bcast(0, now + BCAST_ID_SAVE)];
      var firstHop := if m.hops == 0 then n.index else m.firstHop;
      LearnReverseStep(n, m, firstHop, now, buffered, cache);
      var u := UpdateReverse(Lookup(n.table, m.src), n.maxPaths, n.lenDiff, m.sender, m.srcSeq, m.hops,
                             firstHop, m.dst == n.index, now);
      var n1 := n.(bcache := cache, table := n.table[m.src := Refreshed(u, buffered, now)]);
      if u.Kept? {
        AnswerRequestStep(n1, m, key in n.bcache, u.hasPath, now);
        var answered := AnswerRequest(n1, m, key in n.bcache, u.hasPath, now);
        NodeStepTrans(n, n1, answered.0, AdOf(m), answered.1);
        assert RecvRequest(n, m, now, buffered) == answered;
      } else {
        assert RecvRequest(n, m, now, buffered) == (n1, Silent);
      }
    }
  }

  lemma ForwardReplyStep(n: Node, to: Addr, dst: Addr, dstSeq: nat, lifetime: real, bid: nat, now: real)
    requires NodeOk(n) && dst in n.table && n.table[dst].flags.Up? && n.table[dst].seqno == dstSeq
    ensures var (n', out) := ForwardReply(n, to, dst, dstSeq, lifetime, bid, now); NodeStep(n, n', None, out)
  {
    forall d | d in n.table ensures EntryStep(d, Lookup(n.table, d), n.table[d], None) {
      Unchanged(d, n.table[d], None);
    }
    var (n', out) := ForwardReply(n, to, dst, dstSeq, lifetime, bid, now);
    if out.Send? {
      var e := Advertise(n.table[dst]).(error := true);
      AdvertiseStep(dst, n.table[dst]);
      var n1 := n.(table := n.table[dst := e]);
      TableStep(n, n1, dst, e, None, Silent);
      RenewedStep(to, n1.table[to], now);
      TableStep(n1, n', to, Renewed(n1.table[to], now), None, out);
      NodeStepTrans(n, n1, n', None, out);
    }
  }

  lemma RecvReplyStep(n: Node, sender: Addr, to: Addr, dst: Addr, dstSeq: nat, hops: nat, firstHop: Addr,
                      lifetime: real, bid: nat, now: real, buffered: bool)
    requires NodeOk(n) && Usable(dstSeq)
    ensures var (n', out) := RecvReply(n, sender, to, dst, dstSeq, hops, firstHop, lifetime, bid, now, buffered);
            NodeStep(n, n', Some(Ad(sender, dst, dstSeq, hops)), out)
  {
    var heard := Some(Ad(sender, dst, dstSeq, hops));
    forall d | d in n.table ensures EntryStep(d, Lookup(n.table, d), n.table[d], heard) {
      Unchanged(d, n.table[d], heard);
    }
    if dst != n.index {
      var e0 := Lookup(n.table, dst);
      UpdateForwardStep(dst, e0, n.maxPaths, n.lenDiff, sender, dstSeq, hops, firstHop, lifetime, now);
      var u := UpdateForward(e0, n.maxPaths, n.lenDiff, sender, dstSeq, hops, firstHop, lifetime, now);
      var e := Refreshed(u, buffered, now);
      RefreshedStep(dst, u, buffered, now);
      EntryStepTrans(dst, e0, u.entry, e, heard);
      var n1 := n.(table := n.table[dst := e]);
      TableStep(n, n1, dst, e, heard, Silent);
      if u.Kept? {
        ForwardReplyStep(n1, to, dst, dstSeq, lifetime, bid, now);
        var (n', out) := ForwardReply(n1, to, dst, dstSeq, lifetime, bid, now);
        NodeStepTrans(n, n1, n', heard, out);
      }
    }
  }

  lemma WithoutDistinct(paths: seq<Path>, id: Addr)
    requires DistinctHops(paths)
    ensures DistinctHops(Without(paths, id))
    ensures forall p | p in Without(paths, id) :: p.nexthop != id
  {
  }

  lemma UnexpiredDistinct(paths: seq<Path>, now: real)
    requires DistinctHops(paths)
    ensures DistinctHops(Unexpired(paths, now))
  {
    if paths != [] {
      assert DistinctHops(paths[1..]);
      UnexpiredDistinct(paths[1..], now);
      forall p | p in paths[1..]
        ensures p.nexthop != paths[0].nexthop && p.lasthop != paths[0].lasthop {
        var i :| 0 <= i < |paths[1..]| && paths[1..][i] == p;
        assert paths[i + 1] == p;
      }
    }
  }

  lemma SubListStep(d: Addr, e: Entry, paths: seq<Path>, highest: nat, maxPaths: int)
    requires EntryOk(e, maxPaths) && e.flags.Up?
    requires paths != [] && |paths| <= |e.paths| && DistinctHops(paths) && (forall p | p in paths :: p in e.paths)
    requires Broken(highest)
    ensures var e' := e.(paths := paths, numPaths := |paths|, highest := highest);
            EntryOk(e', maxPaths) && EntryStep(d, e, e', None)
  {
  }

  lemma AfterErrorStep(d: Addr, e: Entry, via: Addr, lost: nat, maxPaths: int)
    requires EntryOk(e, maxPaths) && Broken(lost)
    ensures EntryOk(AfterError(e, via, lost), maxPaths) && EntryStep(d, e, AfterError(e, via, lost), None)
    ensures ReportsError(e, via, lost) ==> Broken(AfterError(e, via, lost).seqno)
    ensures e.flags.Down? ==> AfterError(e, via, lost) == e
  {
    Unchanged(d, e, None);
    WithoutDistinct(e.paths, via);
    var rest := Without(e.paths, via);
    if LosesPath(e, via, lost) && rest != [] {
      SubListStep(d, e, rest, Max(e.highest, lost), maxPaths);
    }
  }

  lemma AfterFailureStep(d: Addr, e: Entry, id: Addr, maxPaths: int)
    requires EntryOk(e, maxPaths)
    ensures EntryOk(AfterFailure(e, id), maxPaths) && EntryStep(d, e, AfterFailure(e, id), None)
    ensures ReportsFailure(e, id) ==> Broken(AfterFailure(e, id).seqno)
    ensures e.flags.Down? ==> AfterFailure(e, id) == e
  {
    Unchanged(d, e, None);
    WithoutDistinct(e.paths, id);
    var rest := Without(e.paths, id);
    if UsesNeighbor(e, id) && rest != [] {
      SubListStep(d, e, rest, e.highest, maxPaths);
    }
  }

  lemma AfterPurgeStep(d: Addr, e: Entry, now: real, buffered: bool, maxPaths: int)
    requires EntryOk(e, maxPaths)
    ensures EntryOk(AfterPurge(e, now, buffered), maxPaths) && EntryStep(d, e, AfterPurge(e, now, buffered), None)
    ensures e.flags.Down? ==> AfterPurge(e, now, buffered) == e
  {
    Unchanged(d, e, None);
    RenewedStep(d, e, now);
    UnexpiredDistinct(e.paths, now);
    var live := Unexpired(e.paths, now);
    if e.flags.Up? && e.expire < now && live != [] {
      SubListStep(d, e, live, e.highest, maxPaths);
    }
  }

  /** One entry's successor in a sweep over the whole table. */
  ghost predicate Swept(d: Addr, e: Entry, e': Entry, maxPaths: int) {
    EntryOk(e', maxPaths) && EntryStep(d, e, e', None) && (e.flags.Down? ==> e' == e)
  }

  lemma SweepStep(n: Node, n': Node, out: Out)
    requires NodeOk(n) && n' == n.(table := n'.table) && n'.table.Keys == n.table.Keys
    requires forall d | d in n.table :: Swept(d, n.table[d], n'.table[d], n.maxPaths)
    requires out.Send? ==> out.msg.Rerr? && out.msg.sender == n.index
    requires out.Send? ==> forall d | d in out.msg.lost :: Broken(out.msg.lost[d])
    ensures NodeStep(n, n', None, out)
  {
  }

  lemma ErrorSwept(n: Node, m: Msg, d: Addr)
    requires NodeOk(n) && m.Rerr? && MsgOk(m) && d in n.table
    ensures Swept(d, n.table[d], ErrorSweep(n.table, m, {})[d], n.maxPaths)
    ensures d in ErrorReport(n.table, m, {}) ==> Broken(ErrorReport(n.table, m, {})[d])
  {
    if d in m.lost {
      AfterErrorStep(d, n.table[d], m.sender, m.lost[d], n.maxPaths);
    } else {
      Unchanged(d, n.table[d], None);
    }
  }

  lemma RecvErrorStep(n: Node, m: Msg)
    requires NodeOk(n) && m.Rerr? && MsgOk(m)
    ensures var (n', out) := RecvError(n, m); NodeStep(n, n', None, out)
  {
    var table, lost := ErrorSweep(n.table, m, {}), ErrorReport(n.table, m, {});
    forall d | d in n.table ensures Swept(d, n.table[d], table[d], n.maxPaths) {
      ErrorSwept(n, m, d);
    }
    forall d | d in lost ensures Broken(lost[d]) {
      ErrorSwept(n, m, d);
    }
    SweepStep(n, n.(table := table), if lost == map[] then Silent else Send(Rerr(n.index, lost)));
  }

  lemma HandleLinkFailureStep(n: Node, id: Addr)
    requires NodeOk(n)
    ensures var (n', out) := HandleLinkFailure(n, id); NodeStep(n, n', None, out)
  {
    var (n', out) := HandleLinkFailure(n, id);
    forall d | d in n.table
      ensures Swept(d, n.table[d], n'.table[d], n.maxPaths)
      ensures ReportsFailure(n.table[d], id) ==> Broken(n'.table[d].seqno)
    {
      AfterFailureStep(d, n.table[d], id, n.maxPaths);
    }
    SweepStep(n, n', out);
  }

  lemma UsedStep(d: Addr, e: Entry, mine: bool, now: real)
    ensures EntryStep(d, e, Used(e, mine, now), None)
  {
  }

  lemma {:induction false} SalvageStep(n: Node, queued: seq<Queued>, now: real)
    requires NodeOk(n)
    ensures NodeStep(n, Salvage(n, queued, now), None, Silent)
    decreases |queued|
  {
    forall d | d in n.table ensures EntryStep(d, Lookup(n.table, d), n.table[d], None) {
      Unchanged(d, n.table[d], None);
    }
    if queued != [] {
      var p := queued[0];
      if CanSalvage(n, p) {
        var e := Used(n.table[p.dst], p.mine, now);
        var n1 := n.(table := n.table[p.dst := e]);
        UsedStep(p.dst, n.table[p.dst], p.mine, now);
        TableStep(n, n1, p.dst, e, None, Silent);
        SalvageStep(n1, queued[1..], now);
        NodeStepTrans(n, n1, Salvage(n, queued, now), None, Silent);
      } else {
        SalvageStep(n, queued[1..], now);
      }
    }
  }

  /** An error message may go out before a further step. */
  lemma NodeStepThen(n: Node, n1: Node, n2: Node, out: Out)
    requires NodeStep(n, n1, None, out) && NodeStep(n1, n2, None, Silent) && (out.Send? ==> out.msg.Rerr?)
    ensures NodeStep(n, n2, None, out)
  {
    NodeStepTrans(n, n1, n2, None, Silent);
  }

  lemma NbDeleteStep(n: Node, id: Addr, queued: seq<Queued>, now: real)
    requires NodeOk(n)
    ensures var (n', out) := NbDelete(n, id, queued, now); NodeStep(n, n', None, out)
  {
    var n0 := n.(seqno := n.seqno + 2);
    forall d | d in n.table ensures EntryStep(d, Lookup(n.table, d), n.table[d], None) {
      Unchanged(d, n.table[d], None);
    }
    HandleLinkFailureStep(n0, id);
    var (n1, out) := HandleLinkFailure(n0, id);
    SalvageStep(n1, queued, now);
    NodeStepThen(n0, n1, Salvage(n1, queued, now), out);
    NodeStepTrans(n, n0, Salvage(n1, queued, now), None, out);
  }

  lemma RtPurgeStep(n: Node, now: real, buffered: set<Addr>)
    requires NodeOk(n)
    ensures NodeStep(n, RtPurge(n, now, buffered), None, Silent)
  {
    var n' := RtPurge(n, now, buffered);
    forall d | d in n.table ensures Swept(d, n.table[d], n'.table[d], n.maxPaths) {
      AfterPurgeStep(d, n.table[d], now, d in buffered, n.maxPaths);
    }
    SweepStep(n, n', Silent);
  }

  lemma SendRequestStep(n: Node, dst: Addr)
    requires NodeOk(n) && dst in n.table
    ensures var (n', out) := SendRequest(n, dst); NodeStep(n, n', None, out)
  {
  }

  lemma RtResolveStep(n: Node, dst: Addr, mine: bool, granted: bool, now: real)
    requires NodeOk(n)
    ensures var (n', out) := RtResolve(n, dst, mine, granted, now); NodeStep(n, n', None, out)
  {
    var e := Lookup(n.table, dst);
    Unchanged(dst, e, None);
    UsedStep(dst, e, mine, now);
    var n1 := n.(table := n.table[dst := e]);
    var (n', out) := RtResolve(n, dst, mine, granted, now);
    if e.flags.Up? {
      TableStep(n, n', dst, n'.table[dst], None, out);
    } else if mine {
      TableStep(n, n1, dst, e, None, Silent);
      if granted {
        SendRequestStep(n1, dst);
        NodeStepTrans(n, n1, n', None, out);
      }
    } else {
      TableStep(n, n', dst, e, None, out);
    }
  }
}
