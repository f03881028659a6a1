/**
 * The AOMDV agent in the form of the source: a route entry and an agent whose methods
 * assign their fields, loop over path lists and sweep the route table.  Every method is
 * proved to do to the fields exactly what AomdvModel says of their values.
 */
module AomdvAgent {
  import opened Options
  import opened AomdvModel
  import AomdvSteps

  class RtEntry {
    const dst: Addr
    var seqno: nat
    var advertised: Advertised
    var flags: Flag
    var pathList: seq<Path>
    var numPaths: int
    var highestHeard: nat
    var error: bool
    var expire: real

    ghost function Value(): Entry
      reads this
    {
      Entry(seqno, advertised, flags, pathList, numPaths, highestHeard, error, expire)
    }

    constructor (id: Addr)
      ensures dst == id && Value() == FRESH
    {
      dst := id;
      seqno, advertised, flags := 0, Unadvertised, Down;
      pathList, numPaths := [], 0;
      highestHeard, error, expire := 0, false, 0.0;
    }

    method PathInsert(nexthop: Addr, hopcount: nat, expireTime: real, lasthop: Addr)
      modifies this
      ensures Value() == Inserted(old(Value()), Path(nexthop, hopcount, expireTime, lasthop))
    {
      pathList := pathList + [Path(nexthop, hopcount, expireTime, lasthop)];
      numPaths := numPaths + 1;
    }

    method PathLookup(id: Addr) returns (k: Option<nat>)
      ensures k == FindNexthop(pathList, id)
    {
      for i := 0 to |pathList|
        invariant forall j | 0 <= j < i :: pathList[j].nexthop != id
      {
        if pathList[i].nexthop == id {
          return Some(i);
        }
      }
      return None;
    }

    method PathLookupLasthop(id: Addr) returns (k: Option<nat>)
      ensures k == FindLasthop(pathList, id)
    {
      for i := 0 to |pathList|
        invariant forall j | 0 <= j < i :: pathList[j].lasthop != id
      {
        if pathList[i].lasthop == id {
          return Some(i);
        }
      }
      return None;
    }

    method DisjointPathLookup(nexthop: Addr, lasthop: Addr) returns (k: Option<nat>)
      ensures k == FindPath(pathList, nexthop, lasthop)
    {
      for i := 0 to |pathList|
        invariant forall j | 0 <= j < i :: !SamePath(pathList[j], nexthop, lasthop)
      {
        if SamePath(pathList[i], nexthop, lasthop) {
          return Some(i);
        }
      }
      return None;
    }

    method NewDisjointPath(nexthop: Addr, lasthop: Addr) returns (r: bool)
      ensures r == NewDisjoint(pathList, nexthop, lasthop)
    {
      for i := 0 to |pathList|
        invariant forall j | 0 <= j < i :: pathList[j].nexthop != nexthop && pathList[j].lasthop != lasthop
      {
        if pathList[i].nexthop == nexthop || pathList[i].lasthop == lasthop {
          return false;
        }
      }
      return true;
    }

    method PathDelete(id: Addr)
      requires numPaths == |pathList|
      modifies this
      ensures Value() == Deleted(old(Value()), id)
    {
      for i := 0 to |pathList|
        invariant unchanged(this)
        invariant forall j | 0 <= j < i :: pathList[j].nexthop != id
      {
        if pathList[i].nexthop == id {
          pathList := pathList[..i] + pathList[i + 1..];
          numPaths := numPaths - 1;
          return;
        }
      }
    }

    method PathDeleteAll()
      modifies this
      ensures Value() == old(Value()).(paths := [], numPaths := 0)
    {
      while pathList != []
        invariant Value() == old(Value()).(paths := pathList)
        decreases |pathList|
      {
        pathList := pathList[1..];
      }
      numPaths := 0;
    }

    method PathGetMaxHopcount() returns (r: Advertised)
      ensures r == MaxHopcount(pathList)
    {
      var max := 0;
      for i := 0 to |pathList|
        invariant max >= 0
        invariant forall p | p in pathList[..i] :: p.hopcount <= max
        invariant max > 0 ==> exists p :: p in pathList[..i] && p.hopcount == max
      {
        assert pathList[..i + 1] == pathList[..i] + [pathList[i]];
        if pathList[i].hopcount > max {
          max := pathList[i].hopcount;
        }
      }
      assert pathList[..|pathList|] == pathList;
      r := if max == 0 then Unadvertised else Hops(max);
    }

    method PathGetMinHopcount() returns (r: Advertised)
      ensures r == MinHopcount(pathList)
    {
      r := Unadvertised;
      for i := 0 to |pathList|
        invariant r.Unadvertised? <==> i == 0
        invariant r.Hops? ==> forall p | p in pathList[..i] :: r.count <= p.hopcount
        invariant r.Hops? ==> exists p :: p in pathList[..i] && p.hopcount == r.count
      {
        assert pathList[..i + 1] == pathList[..i] + [pathList[i]];
        if r.Unadvertised? || pathList[i].hopcount < r.count {
          r := Hops(pathList[i].hopcount);
        }
      }
      assert pathList[..|pathList|] == pathList;
    }

    /** One expired path per round, until a whole scan finds none. */
    method PathPurge(now: real)
      requires numPaths == |pathList|
      modifies this`pathList, this`numPaths
      ensures pathList == Unexpired(old(pathList), now) && numPaths == |pathList|
    {
      var cond := true;
      while cond
        invariant numPaths == |pathList| && Unexpired(pathList, now) == Unexpired(old(pathList), now)
        invariant !cond ==> forall j | 0 <= j < |pathList| :: pathList[j].expire >= now
        decreases |pathList|, cond
      {
        cond := false;
        ghost var scanned := pathList;
        for i := 0 to |pathList|
          invariant pathList == scanned && numPaths == |pathList| && !cond
          invariant forall j | 0 <= j < i :: pathList[j].expire >= now
        {
          if pathList[i].expire < now {
            UnexpiredDrops(pathList, i, now);
            cond := true;
            pathList := pathList[..i] + pathList[i + 1..];
            numPaths := numPaths - 1;
            break;
          }
        }
      }
      UnexpiredKeeps(pathList, now);
    }

    method RtDown()
      modifies this
      ensures Value() == AomdvModel.RtDown(old(Value()))
    {
      if flags.Down? {
        return;
      }
      flags, advertised := Down, Unadvertised;
      PathDeleteAll();
      expire := 0.0;
    }

    method Advertise()
      modifies this
      ensures Value() == AomdvModel.Advertise(old(Value()))
    {
      if advertised.Unadvertised? {
        advertised := PathGetMaxHopcount();
      }
    }

    /** forward(rt, ..) of a packet this node originated. */
    method Forward(now: real)
      modifies this
      ensures Value() == Renewed(old(Value()), now)
    {
      if pathList != [] {
        pathList := pathList[0 := pathList[0].(expire := now + ACTIVE_ROUTE_TIMEOUT)];
      }
    }

    method Extend(k: nat, until: real)
      requires k < |pathList|
      modifies this
      ensures Value() == Extended(old(Value()), k, until)
    {
      pathList := pathList[k := pathList[k].(expire := MaxReal(pathList[k].expire, until))];
    }

    method Replace(newSeqno: nat, nexthop: Addr, hopcount: nat, until: real, lasthop: Addr)
      modifies this
      ensures Value() == Replaced(old(Value()), newSeqno, Path(nexthop, hopcount, until, lasthop))
    {
      seqno, advertised := newSeqno, Unadvertised;
      PathDeleteAll();
      flags := Up;
      PathInsert(nexthop, hopcount, until, lasthop);
    }

    method OfferReverse(maxPaths: int, lenDiff: int, sender: Addr, srcSeq: nat, hops: nat,
                        firstHop: Addr, forMe: bool, now: real) returns (kept: bool, hasPath: bool)
      requires EntryOk(Value(), maxPaths) && maxPaths >= 1 && Usable(srcSeq)
      requires OfferAsserts(Value(), Ad(sender, dst, srcSeq, hops), firstHop)
      modifies this
      ensures var u := UpdateReverse(old(Value()), maxPaths, lenDiff, sender, srcSeq, hops, firstHop, forMe, now);
              Value() == u.entry && kept == u.Kept? && (kept ==> hasPath == u.hasPath)
    {
      kept, hasPath := false, false;
      if seqno < srcSeq {
        Replace(srcSeq, sender, hops + 1, now + REV_ROUTE_LIFE, firstHop);
        return true, true;
      } else if seqno == srcSeq && Above(advertised, hops) {
        assert flags.Up?;
        var k := DisjointPathLookup(sender, firstHop);
        if k.Some? {
          assert pathList[k.value].hopcount == hops + 1;
          Extend(k.value, now + REV_ROUTE_LIFE);
          return true, true;
        }
        var disjoint := NewDisjointPath(sender, firstHop);
        if disjoint {
          var shortest := PathGetMinHopcount();
          if numPaths < maxPaths && CloseEnough(hops + 1, shortest, lenDiff) {
            PathInsert(sender, hops + 1, now + REV_ROUTE_LIFE, firstHop);
            hasPath := true;
          }
          shortest := PathGetMinHopcount();
          return CloseEnough(hops + 1, shortest, lenDiff), hasPath;
        }
        var l := PathLookupLasthop(firstHop);
        return !(forMe && (l.None? || hops + 1 > pathList[l.value].hopcount)), false;
      }
    }

    method OfferForward(maxPaths: int, lenDiff: int, sender: Addr, dstSeq: nat, hops: nat,
                        firstHop: Addr, lifetime: real, now: real) returns (kept: bool)
      requires EntryOk(Value(), maxPaths) && maxPaths >= 1 && Usable(dstSeq)
      requires OfferAsserts(Value(), Ad(sender, dst, dstSeq, hops), firstHop)
      modifies this
      ensures var u := UpdateForward(old(Value()), maxPaths, lenDiff, sender, dstSeq, hops, firstHop, lifetime, now);
              Value() == u.entry && kept == u.Kept?
    {
      if seqno < dstSeq {
        Replace(dstSeq, sender, hops + 1, now + lifetime, firstHop);
        return true;
      } else if seqno == dstSeq && Above(advertised, hops) {
        assert flags.Up?;
        kept := JoinForward(maxPaths, lenDiff, sender, dstSeq, hops, firstHop, lifetime, now);
        return kept;
      }
      return false;
    }

    /** Lines 1110-1139: an equally fresh forward path joins the list, or renews a known one. */
    method JoinForward(maxPaths: int, lenDiff: int, sender: Addr, dstSeq: nat, hops: nat,
                       firstHop: Addr, lifetime: real, now: real) returns (kept: bool)
      requires EntryOk(Value(), maxPaths) && maxPaths >= 1 && Usable(dstSeq)
      requires seqno == dstSeq && Above(advertised, hops)
      requires OfferAsserts(Value(), Ad(sender, dst, dstSeq, hops), firstHop)
      modifies this
      ensures var u := UpdateForward(old(Value()), maxPaths, lenDiff, sender, dstSeq, hops, firstHop, lifetime, now);
              Value() == u.entry && kept == u.Kept?
    {
      var k := DisjointPathLookup(sender, firstHop);
      if k.Some? {
        assert pathList[k.value].hopcount == hops + 1;
        Extend(k.value, now + lifetime);
        return true;
      }
      var disjoint := NewDisjointPath(sender, firstHop);
      var shortest := PathGetMinHopcount();
      if disjoint && numPaths < maxPaths && CloseEnough(hops + 1, shortest, lenDiff) {
        PathInsert(sender, hops + 1, now + lifetime, firstHop);
        return true;
      }
      return false;
    }

    method ErrorVia(via: Addr, lost: nat, ghost maxPaths: int) returns (report: bool)
      requires EntryOk(Value(), maxPaths)
      modifies this
      ensures Value() == AfterError(old(Value()), via, lost)
      ensures report == ReportsError(old(Value()), via, lost)
    {
      report := false;
      var k := PathLookup(via);
      if flags.Up? && k.Some? && seqno <= lost {
        assert seqno % 2 == 0;
        PathDelete(via);
        highestHeard := Max(highestHeard, lost);
        if pathList == [] {
          seqno := highestHeard;
          RtDown();
          if error {
            report, error := true, false;
          }
        }
      }
    }

    method FailVia(id: Addr, ghost maxPaths: int) returns (report: bool)
      requires EntryOk(Value(), maxPaths)
      modifies this
      ensures Value() == AfterFailure(old(Value()), id)
      ensures report == ReportsFailure(old(Value()), id)
    {
      report := false;
      var k := PathLookup(id);
      if flags.Up? && k.Some? {
        assert seqno % 2 == 0;
        PathDelete(id);
        if pathList == [] {
          seqno := seqno + 1;
          seqno := Max(seqno, highestHeard);
          if error {
            report, error := true, false;
          }
          RtDown();
        }
      }
    }

    method Purge(now: real, buffered: bool)
      requires numPaths == |pathList|
      modifies this
      ensures Value() == AfterPurge(old(Value()), now, buffered)
    {
      if flags.Up? && expire < now {
        PathPurge(now);
        if pathList == [] {
          seqno := seqno + 1;
          seqno := Max(seqno, highestHeard);
          if seqno % 2 == 0 {
            seqno := seqno + 1;
          }
          RtDown();
        }
      } else if flags.Up? {
        if buffered {
          Forward(now);
        }
      }
    }
  }

  lemma {:induction false} UnexpiredDrops(paths: seq<Path>, i: nat, now: real)
    requires i < |paths| && paths[i].expire < now
    ensures Unexpired(paths[..i] + paths[i + 1..], now) == Unexpired(paths, now)
  {
    if i == 0 {
      assert paths[..0] + paths[1..] == paths[1..];
    } else {
      var rest := paths[1..];
      UnexpiredDrops(rest, i - 1, now);
      assert (paths[..i] + paths[i + 1..])[1..] == rest[..i - 1] + rest[i..];
      assert rest[i - 1] == paths[i];
    }
  }

  lemma {:induction false} UnexpiredKeeps(paths: seq<Path>, now: real)
    requires forall j | 0 <= j < |paths| :: paths[j].expire >= now
    ensures Unexpired(paths, now) == paths
  {
    if paths != [] {
      UnexpiredKeeps(paths[1..], now);
    }
  }

  /** One more destination of an error message has been visited. */
  lemma ErrorSweepNext(before: map<Addr, Entry>, m: Msg, todo: set<Addr>, d: Addr)
    requires m.Rerr? && d in todo && d in m.lost && d in before
    ensures var e, report := AfterError(before[d], m.sender, m.lost[d]), ErrorReport(before, m, todo);
            && ErrorSweep(before, m, todo - {d}) == ErrorSweep(before, m, todo)[d := e]
            && ErrorReport(before, m, todo - {d}) ==
               if ReportsError(before[d], m.sender, m.lost[d]) then report[d := e.seqno] else report
  {
  }

  lemma LookupOk(n: Node, d: Addr)
    requires NodeOk(n)
    ensures EntryOk(Lookup(n.table, d), n.maxPaths)
  {
  }

  lemma StoreOk(n: Node, n': Node, d: Addr)
    requires NodeOk(n) && d != n.index && d in n'.table && EntryOk(n'.table[d], n.maxPaths)
    requires n' == n.(table := n.table[d := n'.table[d]], bcache := n'.bcache)
    ensures NodeOk(n')
  {
  }

  class Agent {
    const index: Addr
    const maxPaths: int
    const lenDiff: int
    var seqno: nat
    var bid: nat
    var rtable: map<Addr, RtEntry>
    var bcache: map<(Addr, nat), Bcast>
    ghost var Repr: set<RtEntry>

    /** The entries are distinct objects of this agent. */
    ghost predicate Distinct()
      reads this`rtable, this`Repr
    {
      && (forall c, d | c in rtable && d in rtable && c != d :: rtable[c] != rtable[d])
      && (forall d | d in rtable :: rtable[d] in Repr)
    }

    ghost predicate Valid()
      reads this, Repr
    {
      Distinct() && NodeOk(Value())
    }

    ghost function Table(): map<Addr, Entry>
      requires Distinct()
      reads this`rtable, this`Repr, Repr
    {
      map d | d in rtable :: rtable[d].Value()
    }

    ghost function Value(): Node
      requires Distinct()
      reads this, Repr
    {
      Node(index, seqno, bid, Table(), bcache, maxPaths, lenDiff)
    }

    /** Only the entry for d has changed since the labelled state. */
    twostate lemma Stored(d: Addr)
      requires old(Distinct()) && d in rtable && rtable == old(rtable) && Repr == old(Repr)
      requires forall o | o in Repr && o != rtable[d] :: unchanged(o)
      ensures Distinct() && Table() == old(Table())[d := rtable[d].Value()]
    {
      forall c | c in rtable && c != d ensures rtable[c].Value() == old(rtable[c].Value()) {
        assert rtable[c] in Repr && rtable[c] != rtable[d];
      }
    }

    constructor (id: Addr, maxPaths: int, lenDiff: int)
      requires maxPaths >= 1
      ensures Valid() && Repr == {} && Value() == Node(id, 2, 1, map[], map[], maxPaths, lenDiff)
    {
      index, this.maxPaths, this.lenDiff := id, maxPaths, lenDiff;
      seqno, bid := 2, 1;
      rtable, bcache, Repr := map[], map[], {};
    }

    /** rt_lookup, adding a blank entry (rt_add) when there is none. */
    method Obtain(d: Addr) returns (rt: RtEntry)
      requires Distinct()
      modifies this`rtable, this`Repr
      ensures Distinct() && old(Repr) <= Repr && fresh(Repr - old(Repr))
      ensures d in rtable && rtable[d] == rt && rt.Value() == Lookup(old(Table()), d)
      ensures Table() == old(Table())[d := Lookup(old(Table()), d)]
    {
      if d in rtable {
        rt := rtable[d];
      } else {
        rt := new RtEntry(d);
        rtable := rtable[d := rt];
        Repr := Repr + {rt};
      }
    }

    method RecvRequest(m: Msg, now: real, buffered: bool) returns (out: Out)
      requires Valid() && m.Rreq? && MsgOk(m)
      requires OfferAsserts(Lookup(Table(), m.src), AdOf(m).value, if m.hops == 0 then index else m.firstHop)
      modifies this, Repr
      ensures Valid() && fresh(Repr - old(Repr))
      ensures (Value(), out) == AomdvModel.RecvRequest(old(Value()), m, now, buffered)
    {
      AomdvSteps.RecvRequestStep(Value(), m, now, buffered);
      if m.src == index {
        return Silent;
      }
      out := HandleRequest(m, now, buffered);
    }

    /** Lines 803-1049: a request from elsewhere, seen before or not. */
    method HandleRequest(m: Msg, now: real, buffered: bool) returns (out: Out)
      requires Valid() && m.Rreq? && MsgOk(m) && m.src != index
      requires OfferAsserts(Lookup(Table(), m.src), AdOf(m).value, if m.hops == 0 then index else m.firstHop)
      modifies this, Repr
      ensures Distinct() && fresh(Repr - old(Repr))
      ensures (Value(), out) == AomdvModel.RecvRequest(old(Value()), m, now, buffered)
    {
      var duplicate := (m.src, m.bid) in bcache;
      if !duplicate {
        bcache := bcache[(m.src, m.bid) := Bcast(0, now + BCAST_ID_SAVE)];
      }
      var firstHop := if m.hops == 0 then index else m.firstHop;
      var kept, hasPath := LearnReverse(m, firstHop, now, buffered);
      if !kept {
        return Silent;
      }
      out := AnswerRequest(m, duplicate, hasPath, now);
    }

    /** Lines 821-922: the reverse route, and whatever was waiting for it. */
    method LearnReverse(m: Msg, firstHop: Addr, now: real, buffered: bool) returns (kept: bool, hasPath: bool)
      requires Valid() && m.Rreq? && MsgOk(m) && m.src != index
      requires OfferAsserts(Lookup(Table(), m.src), AdOf(m).value, firstHop)
      modifies this`rtable, this`Repr, Repr
      ensures Valid() && fresh(Repr - old(Repr))
      ensures m.src in rtable && (kept ==> rtable[m.src].flags.Up?)
      ensures var u := UpdateReverse(Lookup(old(Table()), m.src), maxPaths, lenDiff, m.sender, m.srcSeq, m.hops,
                                     firstHop, m.dst == index, now);
              && kept == u.Kept? && (kept ==> hasPath == u.hasPath)
              && Table() == old(Table())[m.src := Refreshed(u, buffered, now)]
    {
      ghost var n0 := Value();
      LookupOk(n0, m.src);
      var rt0 := Obtain(m.src);
      label Offer:
      kept, hasPath := rt0.OfferReverse(maxPaths, lenDiff, m.sender, m.srcSeq, m.hops, firstHop, m.dst == index, now);
      if kept && rt0.flags.Up? && buffered {
        rt0.Forward(now);
      }
      Stored@Offer(m.src);
      assert Table() == n0.table[m.src := rt0.Value()];
      StoreOk(n0, Value(), m.src);
    }

    method AnswerRequest(m: Msg, duplicate: bool, hasPath: bool, now: real) returns (out: Out)
      requires Valid() && m.Rreq? && m.src in rtable && rtable[m.src].flags.Up? && (m.src, m.bid) in bcache
      modifies this`seqno, this`bcache, Repr
      ensures Distinct()
      ensures (Value(), out) == AomdvModel.AnswerRequest(old(Value()), m, duplicate, hasPath, now)
    {
      ghost var n0 := Value();
      if m.dst == index {
        if seqno < m.dstSeq {
          seqno := m.dstSeq + 1;
        }
        if seqno % 2 == 1 {
          seqno := seqno + 1;
        }
        return Send(Rrep(index, m.src, m.sender, index, seqno, 0, m.sender, MY_ROUTE_TIMEOUT, m.bid));
      }
      if m.dst in rtable && rtable[m.dst].flags.Up? && rtable[m.dst].seqno >= m.dstSeq {
        var rt := rtable[m.dst];
        assert EntryOk(n0.table[m.dst], maxPaths);
        assert rt.seqno % 2 == 0;
        var b := bcache[(m.src, m.bid)];
        if hasPath && b.count == 0 {
          bcache := bcache[(m.src, m.bid) := b.(count := 1)];
          label Reply:
          rt.Advertise();
          rt.error := true;
          Stored@Reply(m.dst);
          var forwardPath := rt.pathList[0];
          return Send(Rrep(index, m.src, m.sender, m.dst, rt.seqno, rt.advertised.count, forwardPath.lasthop,
                           forwardPath.expire - now, m.bid));
        }
        return Silent;
      }
      if duplicate {
        return Silent;
      }
      var dstSeq := if m.dst in rtable then Max(rtable[m.dst].seqno, m.dstSeq) else m.dstSeq;
      var rt0 := rtable[m.src];
      assert EntryOk(n0.table[m.src], maxPaths);
      label Pass:
      rt0.Advertise();
      Stored@Pass(m.src);
      out := Send(Rreq(index, m.src, m.srcSeq, rt0.advertised.count, rt0.pathList[0].lasthop, m.dst, dstSeq, m.bid));
    }

    method RecvReply(sender: Addr, to: Addr, dst: Addr, dstSeq: nat, hops: nat, firstHop: Addr,
                     lifetime: real, bcastId: nat, now: real, buffered: bool) returns (out: Out)
      requires Valid() && Usable(dstSeq)
      requires OfferAsserts(Lookup(Table(), dst), Ad(sender, dst, dstSeq, hops), firstHop)
      modifies this, Repr
      ensures Valid() && fresh(Repr - old(Repr))
      ensures (Value(), out) == AomdvModel.RecvReply(old(Value()), sender, to, dst, dstSeq, hops, firstHop,
                                                     lifetime, bcastId, now, buffered)
    {
      AomdvSteps.RecvReplyStep(Value(), sender, to, dst, dstSeq, hops, firstHop, lifetime, bcastId, now, buffered);
      if dst == index {
        return Silent;
      }
      var kept := LearnForward(sender, dst, dstSeq, hops, firstHop, lifetime, now, buffered);
      if !kept {
        return Silent;
      }
      out := ForwardReply(to, dst, dstSeq, lifetime, bcastId, now);
    }

    /** Lines 1083-1171: the forward route, and whatever was waiting for it. */
    method LearnForward(sender: Addr, dst: Addr, dstSeq: nat, hops: nat, firstHop: Addr, lifetime: real,
                        now: real, buffered: bool) returns (kept: bool)
      requires Valid() && Usable(dstSeq) && dst != index
      requires OfferAsserts(Lookup(Table(), dst), Ad(sender, dst, dstSeq, hops), firstHop)
      modifies this`rtable, this`Repr, Repr
      ensures Valid() && fresh(Repr - old(Repr))
      ensures dst in rtable && (kept ==> rtable[dst].flags.Up?)
      ensures var u := UpdateForward(Lookup(old(Table()), dst), maxPaths, lenDiff, sender, dstSeq, hops, firstHop,
                                     lifetime, now);
              kept == u.Kept? && Table() == old(Table())[dst := Refreshed(u, buffered, now)]
    {
      ghost var n0 := Value();
      LookupOk(n0, dst);
      var rt := Obtain(dst);
      label Offer:
      kept := rt.OfferForward(maxPaths, lenDiff, sender, dstSeq, hops, firstHop, lifetime, now);
      if kept && rt.flags.Up? && buffered {
        rt.Forward(now);
      }
      Stored@Offer(dst);
      assert Table() == n0.table[dst := rt.Value()];
      StoreOk(n0, Value(), dst);
    }

    /** A HELLO is a reply from its sender about itself, addressed to whoever hears it. */
    method RecvHello(m: Msg, now: real, buffered: bool) returns (out: Out)
      requires Valid() && m.Hello? && MsgOk(m)
      requires OfferAsserts(Lookup(Table(), m.sender), AdOf(m).value, index)
      modifies this, Repr
      ensures Valid() && fresh(Repr - old(Repr))
      ensures (Value(), out) == AomdvModel.RecvHello(old(Value()), m, now, buffered)
    {
      out := RecvReply(m.sender, index, m.sender, m.dstSeq, 0, index, HELLO_LIFETIME, 0, now, buffered);
    }

    method ForwardReply(to: Addr, dst: Addr, dstSeq: nat, lifetime: real, bcastId: nat, now: real) returns (out: Out)
      requires Valid() && dst in rtable && rtable[dst].flags.Up?
      modifies this`bcache, Repr
      ensures Distinct()
      ensures (Value(), out) == AomdvModel.ForwardReply(old(Value()), to, dst, dstSeq, lifetime, bcastId, now)
    {
      if to == index {
        return Silent;
      }
      if to !in rtable || rtable[to].flags.Down? || (to, bcastId) !in bcache || bcache[(to, bcastId)].count != 0 {
        return Silent;
      }
      ghost var n0 := Value();
      assert EntryOk(n0.table[dst], maxPaths) && EntryOk(n0.table[to], maxPaths);
      bcache := bcache[(to, bcastId) := bcache[(to, bcastId)].(count := 1)];
      var rt, rt0 := rtable[dst], rtable[to];
      var next := rt0.pathList[0].nexthop;
      label Forwarding:
      rt.Advertise();
      rt.error := true;
      Stored@Forwarding(dst);
      label Advertised:
      var firstHop := rt.pathList[0].lasthop;
      var hopCount := rt.advertised.count;
      rt0.Forward(now);
      Stored@Advertised(to);
      out := Send(Rrep(index, to, next, dst, dstSeq, hopCount, firstHop, lifetime, bcastId));
    }

    method RecvError(m: Msg) returns (out: Out)
      requires Valid() && m.Rerr? && MsgOk(m)
      modifies Repr
      ensures Valid()
      ensures (Value(), out) == AomdvModel.RecvError(old(Value()), m)
    {
      AomdvSteps.RecvErrorStep(Value(), m);
      var lost := LoseRoutes(m);
      out := if lost == map[] then Silent else Send(Rerr(index, lost));
    }

    /** The loop over the destinations of an error message. */
    method LoseRoutes(m: Msg) returns (lost: map<Addr, nat>)
      requires Valid() && m.Rerr?
      modifies Repr
      ensures Distinct() && Table() == ErrorSweep(old(Table()), m, {}) && lost == ErrorReport(old(Table()), m, {})
    {
      ghost var before := Table();
      var todo := m.lost.Keys;
      lost := map[];
      while todo != {}
        invariant todo <= m.lost.Keys && Distinct()
        invariant Table() == ErrorSweep(before, m, todo)
        invariant lost == ErrorReport(before, m, todo)
        decreases |todo|
      {
        SomeMember(todo);
        var d :| d in todo;
        if d in rtable {
          assert before[d] == Table()[d] && EntryOk(before[d], maxPaths);
          label One:
          var report := rtable[d].ErrorVia(m.sender, m.lost[d], maxPaths);
          Stored@One(d);
          ErrorSweepNext(before, m, todo, d);
          if report {
            lost := lost[d := rtable[d].seqno];
          }
        }
        todo := todo - {d};
      }
    }

    method HandleLinkFailure(id: Addr) returns (out: Out)
      requires Valid()
      modifies Repr
      ensures Valid()
      ensures (Value(), out) == AomdvModel.HandleLinkFailure(old(Value()), id)
    {
      AomdvSteps.HandleLinkFailureStep(Value(), id);
      var lost := FailRoutes(id);
      out := if lost == map[] then Silent else Send(Rerr(index, lost));
    }

    /** The loop over the whole table. */
    method FailRoutes(id: Addr) returns (lost: map<Addr, nat>)
      requires Valid()
      modifies Repr
      ensures Distinct() && Table() == FailureSweep(old(Table()), id, {}) && lost == FailureReport(old(Table()), id, {})
    {
      ghost var before := Table();
      var todo := rtable.Keys;
      lost := map[];
      while todo != {}
        invariant todo <= rtable.Keys && Distinct()
        invariant Table() == FailureSweep(before, id, todo)
        invariant lost == FailureReport(before, id, todo)
        decreases |todo|
      {
        SomeMember(todo);
        var d :| d in todo;
        assert before[d] == Table()[d] && EntryOk(before[d], maxPaths);
        label One:
        var report := rtable[d].FailVia(id, maxPaths);
        Stored@One(d);
        if report {
          lost := lost[d := rtable[d].seqno];
        }
        todo := todo - {d};
      }
    }

    method NbDelete(id: Addr, queued: seq<Queued>, now: real) returns (out: Out)
      requires Valid()
      modifies this`seqno, Repr
      ensures Valid()
      ensures (Value(), out) == AomdvModel.NbDelete(old(Value()), id, queued, now)
    {
      ghost var n0 := Value();
      AomdvSteps.NbDeleteStep(n0, id, queued, now);
      seqno := seqno + 2;
      assert seqno % 2 == 0;
      assert Value() == n0.(seqno := n0.seqno + 2);
      out := HandleLinkFailure(id);
      SalvageAll(queued, now);
    }

    /** Lines 1744-1759: the packets queued for the lost neighbour. */
    method SalvageAll(queued: seq<Queued>, now: real)
      requires Distinct()
      modifies Repr
      ensures Distinct() && Value() == AomdvModel.Salvage(old(Value()), queued, now)
    {
      for i := 0 to |queued|
        invariant Distinct()
        invariant AomdvModel.Salvage(Value(), queued[i..], now) == AomdvModel.Salvage(old(Value()), queued, now)
      {
        ghost var n0 := Value();
        var p := queued[i];
        assert queued[i..][0] == p && queued[i..][1..] == queued[i + 1..];
        if p.dst in rtable {
          var rt := rtable[p.dst];
          if rt.flags.Up? && p.count < MAX_SALVAGE_COUNT {
            label Salvage:
            rt.Forward(now);
            if !p.mine {
              rt.error := true;
            }
            Stored@Salvage(p.dst);
            assert Value() == n0.(table := n0.table[p.dst := Used(n0.table[p.dst], p.mine, now)]);
          }
        }
      }
    }

    method RtPurge(now: real, buffered: set<Addr>)
      requires Valid()
      modifies Repr
      ensures Valid()
      ensures Value() == AomdvModel.RtPurge(old(Value()), now, buffered)
    {
      AomdvSteps.RtPurgeStep(Value(), now, buffered);
      ghost var before := Table();
      var todo := rtable.Keys;
      while todo != {}
        invariant todo <= rtable.Keys && Distinct()
        invariant Table() == PurgeSweep(before, now, buffered, todo)
        decreases |todo|
      {
        SomeMember(todo);
        var d :| d in todo;
        assert before[d] == Table()[d] && EntryOk(before[d], maxPaths);
        label One:
        rtable[d].Purge(now, d in buffered);
        Stored@One(d);
        todo := todo - {d};
      }
    }

    method SendRequest(dst: Addr) returns (out: Out)
      requires Valid() && dst in rtable
      modifies this`seqno, this`bid, rtable[dst]
      ensures Valid()
      ensures (Value(), out) == AomdvModel.SendRequest(old(Value()), dst)
    {
      AomdvSteps.SendRequestStep(Value(), dst);
      var rt := rtable[dst];
      if rt.flags.Up? {
        return Silent;
      }
      label Begin:
      rt.expire := 0.0;
      Stored@Begin(dst);
      var id := bid;
      bid := bid + 1;
      seqno := seqno + 2;
      assert seqno % 2 == 0;
      out := Send(Rreq(index, index, seqno, 0, 0, dst, rt.seqno, id));
    }

    method RtResolve(dst: Addr, mine: bool, granted: bool, now: real) returns (out: Out)
      requires Valid()
      modifies this, Repr
      ensures Valid() && fresh(Repr - old(Repr))
      ensures (Value(), out) == AomdvModel.RtResolve(old(Value()), dst, mine, granted, now)
    {
      AomdvSteps.RtResolveStep(Value(), dst, mine, granted, now);
      var rt := Obtain(dst);
      label Begin:
      out := Silent;
      if rt.flags.Up? {
        rt.Forward(now);
        if !mine {
          rt.error := true;
        }
        Stored@Begin(dst);
      } else if mine {
        if granted {
          out := SendRequest(dst);
        }
      } else {
        out := Send(Rerr(index, map[dst := rt.seqno]));
      }
    }
  }
}
