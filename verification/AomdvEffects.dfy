/**
 * What every AOMDV handler does, told by the fields of the routes, paths and messages it leaves:
 * which offered paths are kept, which requests and replies are answered or passed on and with what,
 * and what is lost when a path or a neighbour is.
 */
module AomdvEffects {
  import opened Options
  import opened AomdvModel

  // ---------------------------------------------------------------- offered paths

  predicate NewRoute(e: Entry, e': Entry, seqno: nat, p: Path) {
    e' == e.(seqno := seqno, advertised := Unadvertised, flags := Up, paths := [p], numPaths := 1)
  }

  predicate AlsoPath(e: Entry, e': Entry, p: Path) {
    e' == e.(paths := e.paths + [p], numPaths := e.numPaths + 1)
  }

  /** As fresh as the route, and shorter than what it has advertised. */
  predicate Joins(e: Entry, seqno: nat, hops: nat) {
    e.seqno == seqno && (e.advertised.Unadvertised? || hops < e.advertised.count)
  }

  /** Place k holds the path with both ends. */
  predicate KnownAt(e: Entry, k: nat, nexthop: Addr, lasthop: Addr)
    requires k < |e.paths|
  {
    e.paths[k].nexthop == nexthop && e.paths[k].lasthop == lasthop
  }

  predicate Knows(e: Entry, nexthop: Addr, lasthop: Addr) {
    exists k :: 0 <= k < |e.paths| && KnownAt(e, k, nexthop, lasthop)
  }

  predicate Held(e: Entry, e': Entry, k: nat, until: real)
    requires k < |e.paths|
  {
    e' == e.(paths := e.paths[k := e.paths[k].(expire := if e.paths[k].expire < until then until else e.paths[k].expire)])
  }

  /** No path of the route has either end. */
  predicate Disjoint(e: Entry, nexthop: Addr, lasthop: Addr) {
    forall k | 0 <= k < |e.paths| :: e.paths[k].nexthop != nexthop && e.paths[k].lasthop != lasthop
  }

  /** Not much longer than the shortest path. */
  predicate ShortEnough(e: Entry, hops: nat, lenDiff: int) {
    exists k :: 0 <= k < |e.paths| && IsShortest(e, k) && hops - e.paths[k].hopcount <= lenDiff
  }

  /** There is room for one more path, and it is short enough. */
  predicate RoomFor(e: Entry, hops: nat, maxPaths: int, lenDiff: int) {
    e.numPaths < maxPaths && ShortEnough(e, hops, lenDiff)
  }

  predicate IsShortest(e: Entry, k: nat)
    requires k < |e.paths|
  {
    forall j | 0 <= j < |e.paths| :: e.paths[k].hopcount <= e.paths[j].hopcount
  }

  /** The first path with this last hop is no longer than `hops`. */
  predicate ReachedBy(e: Entry, lasthop: Addr, hops: nat) {
    exists k :: 0 <= k < |e.paths| && e.paths[k].lasthop == lasthop && hops <= e.paths[k].hopcount
                && forall j | 0 <= j < k :: e.paths[j].lasthop != lasthop
  }

  lemma Shortest(e: Entry, hops: nat, lenDiff: int)
    requires e.paths != []
    ensures ShortEnough(e, hops, lenDiff) <==> CloseEnough(hops, MinHopcount(e.paths), lenDiff)
  {
    var m := MinHopcount(e.paths);
    var p :| p in e.paths && p.hopcount == m.count;
    var k :| 0 <= k < |e.paths| && e.paths[k] == p;
    assert IsShortest(e, k);
    forall j | 0 <= j < |e.paths| && IsShortest(e, j)
      ensures e.paths[j].hopcount == m.count
    {
      assert e.paths[j] in e.paths;
    }
  }

  lemma DisjointIs(e: Entry, nexthop: Addr, lasthop: Addr)
    ensures Disjoint(e, nexthop, lasthop) <==> NewDisjoint(e.paths, nexthop, lasthop)
  {
    if NewDisjoint(e.paths, nexthop, lasthop) {
      assert forall k | 0 <= k < |e.paths| :: e.paths[k] in e.paths;
    }
  }

  /** With distinct hops the search finds the one place there is. */
  lemma KnownIs(e: Entry, k: nat, nexthop: Addr, lasthop: Addr)
    requires k < |e.paths| && DistinctHops(e.paths) && KnownAt(e, k, nexthop, lasthop)
    ensures FindPath(e.paths, nexthop, lasthop) == Some(k)
  {
    assert e.paths[k] in e.paths;
  }

  /** recvReply's offer: fresher ones replace the route, known paths are held longer, disjoint ones
      join while there is room and they are short enough, and all others leave it unchanged. */
  lemma ForwardOffer(e: Entry, maxPaths: int, lenDiff: int, sender: Addr, dstSeq: nat, hops: nat,
                     firstHop: Addr, lifetime: real, now: real)
    requires EntryOk(e, maxPaths) && maxPaths >= 1 && Usable(dstSeq)
    ensures var u := UpdateForward(e, maxPaths, lenDiff, sender, dstSeq, hops, firstHop, lifetime, now);
            var p := Path(sender, hops + 1, now + lifetime, firstHop);
            && (dstSeq > e.seqno ==> u.Kept? && NewRoute(e, u.entry, dstSeq, p))
            && (Joins(e, dstSeq, hops) ==>
                  && (forall k | 0 <= k < |e.paths| && KnownAt(e, k, sender, firstHop) ::
                        u.Kept? && Held(e, u.entry, k, now + lifetime))
                  && (Disjoint(e, sender, firstHop) && RoomFor(e, hops + 1, maxPaths, lenDiff) ==>
                        u.Kept? && AlsoPath(e, u.entry, p)))
            && (u.Kept? <==>
                  || dstSeq > e.seqno
                  || (Joins(e, dstSeq, hops)
                      && (Knows(e, sender, firstHop)
                          || (Disjoint(e, sender, firstHop) && RoomFor(e, hops + 1, maxPaths, lenDiff)))))
            && (u.Dropped? ==> u.entry == e)
  {
    OfferCases(e, maxPaths, lenDiff, sender, hops, firstHop);
  }

  lemma OfferCases(e: Entry, maxPaths: int, lenDiff: int, sender: Addr, hops: nat, firstHop: Addr)
    requires EntryOk(e, maxPaths)
    ensures forall k | 0 <= k < |e.paths| && KnownAt(e, k, sender, firstHop) :: FindPath(e.paths, sender, firstHop) == Some(k)
    ensures Knows(e, sender, firstHop) <==> FindPath(e.paths, sender, firstHop).Some?
    ensures Disjoint(e, sender, firstHop) <==> NewDisjoint(e.paths, sender, firstHop)
    ensures e.paths != [] ==> (ShortEnough(e, hops + 1, lenDiff) <==> CloseEnough(hops + 1, MinHopcount(e.paths), lenDiff))
  {
    forall k | 0 <= k < |e.paths| && KnownAt(e, k, sender, firstHop)
      ensures FindPath(e.paths, sender, firstHop) == Some(k)
    {
      KnownIs(e, k, sender, firstHop);
    }
    var f := FindPath(e.paths, sender, firstHop);
    assert f.Some? ==> KnownAt(e, f.value, sender, firstHop);
    DisjointIs(e, sender, firstHop);
    if e.paths != [] {
      Shortest(e, hops + 1, lenDiff);
    }
  }

  /** A request's offer of a path back to its source is kept: fresher, or as fresh and known, or as
      fresh, disjoint and short enough, or as fresh and sharing an end with a path; at the
      destination such a path must come from the same neighbour of the source and be no longer. */
  predicate ReverseKept(e: Entry, maxPaths: int, lenDiff: int, sender: Addr, srcSeq: nat, hops: nat,
                        firstHop: Addr, forMe: bool) {
    || srcSeq > e.seqno
    || (Joins(e, srcSeq, hops)
        && (|| Knows(e, sender, firstHop)
            || (Disjoint(e, sender, firstHop) && ShortEnough(e, hops + 1, lenDiff)
                && (lenDiff >= 0 || e.numPaths >= maxPaths))
            || (!Disjoint(e, sender, firstHop) && (forMe ==> ReachedBy(e, firstHop, hops + 1)))))
  }

  /** recvRequest's offer of the reverse path, when it is fresher or is of no use. */
  lemma ReverseOffer(e: Entry, maxPaths: int, lenDiff: int, sender: Addr, srcSeq: nat, hops: nat,
                     firstHop: Addr, forMe: bool, now: real)
    requires EntryOk(e, maxPaths) && maxPaths >= 1 && Usable(srcSeq)
    ensures var u := UpdateReverse(e, maxPaths, lenDiff, sender, srcSeq, hops, firstHop, forMe, now);
            && (srcSeq > e.seqno ==>
                  u.Kept? && u.hasPath && NewRoute(e, u.entry, srcSeq, Path(sender, hops + 1, now + 6.0, firstHop)))
            && (srcSeq <= e.seqno && !Joins(e, srcSeq, hops) ==> u == Update.Dropped(e))
  {
  }

  /** And when it is as fresh: a known path is held longer, a disjoint one joins while there is room
      and it is short enough, and any other leaves the route unchanged. */
  lemma ReverseJoins(e: Entry, maxPaths: int, lenDiff: int, sender: Addr, srcSeq: nat, hops: nat,
                     firstHop: Addr, forMe: bool, now: real)
    requires EntryOk(e, maxPaths) && maxPaths >= 1 && Usable(srcSeq) && Joins(e, srcSeq, hops)
    ensures var u := UpdateReverse(e, maxPaths, lenDiff, sender, srcSeq, hops, firstHop, forMe, now);
            && (forall k | 0 <= k < |e.paths| && KnownAt(e, k, sender, firstHop) ::
                  u.Kept? && u.hasPath && Held(e, u.entry, k, now + 6.0))
            && (if Disjoint(e, sender, firstHop) && RoomFor(e, hops + 1, maxPaths, lenDiff) then
                  AlsoPath(e, u.entry, Path(sender, hops + 1, now + 6.0, firstHop)) && (u.Kept? ==> u.hasPath)
                else !Knows(e, sender, firstHop) ==> u.entry == e && (u.Kept? ==> !u.hasPath))
  {
    OfferCases(e, maxPaths, lenDiff, sender, hops, firstHop);
  }

  lemma ReverseKeptIff(e: Entry, maxPaths: int, lenDiff: int, sender: Addr, srcSeq: nat, hops: nat,
                       firstHop: Addr, forMe: bool, now: real)
    requires EntryOk(e, maxPaths) && maxPaths >= 1 && Usable(srcSeq)
    ensures UpdateReverse(e, maxPaths, lenDiff, sender, srcSeq, hops, firstHop, forMe, now).Kept? <==>
            ReverseKept(e, maxPaths, lenDiff, sender, srcSeq, hops, firstHop, forMe)
  {
    OfferCases(e, maxPaths, lenDiff, sender, hops, firstHop);
    if Joins(e, srcSeq, hops) && FindPath(e.paths, sender, firstHop).None? {
      if Disjoint(e, sender, firstHop) {
        DisjointKept(e, maxPaths, lenDiff, hops, Path(sender, hops + 1, now + 6.0, firstHop));
      } else {
        ReachedIs(e, firstHop, hops + 1);
      }
    }
  }

  /** A disjoint path is kept when it is short enough for the list it may just have joined. */
  lemma DisjointKept(e: Entry, maxPaths: int, lenDiff: int, hops: nat, p: Path)
    requires e.paths != [] && p.hopcount == hops + 1
    ensures var e' := if e.numPaths < maxPaths && CloseEnough(hops + 1, MinHopcount(e.paths), lenDiff) then Inserted(e, p) else e;
            CloseEnough(hops + 1, MinHopcount(e'.paths), lenDiff) <==>
            ShortEnough(e, hops + 1, lenDiff) && (lenDiff >= 0 || e.numPaths >= maxPaths)
  {
    Shortest(e, hops + 1, lenDiff);
    MinWith(e, p);
  }

  lemma ReachedIs(e: Entry, lasthop: Addr, hops: nat)
    ensures ReachedBy(e, lasthop, hops) <==>
            var l := FindLasthop(e.paths, lasthop); l.Some? && hops <= e.paths[l.value].hopcount
  {
    var l := FindLasthop(e.paths, lasthop);
    if l.None? {
      assert forall k | 0 <= k < |e.paths| :: e.paths[k] in e.paths;
    }
  }

  lemma MinWith(e: Entry, p: Path)
    requires e.paths != []
    ensures var m, m' := MinHopcount(e.paths), MinHopcount(e.paths + [p]);
            m'.Hops? && m'.count == if p.hopcount < m.count then p.hopcount else m.count
  {
    var r := e.paths + [p];
    assert p in r;
    assert forall x | x in e.paths :: x in r;
  }

  // ---------------------------------------------------------------- requests

  /** The neighbour of the source through which the request has come. */
  function FirstHop(n: Node, m: Msg): Addr
    requires m.Rreq?
  {
    if m.hops == 0 then n.index else m.firstHop
  }

  /** The node keeps what the request offers. */
  predicate KeepsRequest(n: Node, m: Msg)
    requires m.Rreq?
  {
    ReverseKept(Lookup(n.table, m.src), n.maxPaths, n.lenDiff, m.sender, m.srcSeq, m.hops, FirstHop(n, m), m.dst == n.index)
  }

  /** And has a path back over which the request came. */
  predicate HasWayBack(n: Node, m: Msg)
    requires m.Rreq?
  {
    var e := Lookup(n.table, m.src);
    || m.srcSeq > e.seqno
    || Knows(e, m.sender, FirstHop(n, m))
    || (Disjoint(e, m.sender, FirstHop(n, m)) && RoomFor(e, m.hops + 1, n.maxPaths, n.lenDiff))
  }

  /** A route that is up and fresh enough for the request. */
  predicate HasRoute(n: Node, m: Msg)
    requires m.Rreq?
  {
    m.dst in n.table && n.table[m.dst].flags.Up? && n.table[m.dst].seqno >= m.dstSeq
  }

  /** The number of hops the route advertises: what it has advertised, or its longest path. */
  predicate AdvertisedAs(e: Entry, hops: nat) {
    if e.advertised.Hops? then hops == e.advertised.count
    else (forall k | 0 <= k < |e.paths| :: e.paths[k].hopcount <= hops)
         && exists k :: 0 <= k < |e.paths| && e.paths[k].hopcount == hops
  }

  lemma AdvertiseIs(e: Entry, maxPaths: int)
    requires EntryOk(e, maxPaths) && e.flags.Up?
    ensures var r := Advertise(e);
            r.advertised.Hops? && AdvertisedAs(e, r.advertised.count) && r == e.(advertised := r.advertised)
  {
    assert e.paths[0] in e.paths;
    var m := MaxHop(e.paths);
    assert forall k | 0 <= k < |e.paths| :: e.paths[k] in e.paths;
    if e.advertised.Unadvertised? {
      var p :| p in e.paths && p.hopcount == m;
    }
  }

  /** The route back to the source as a request leaves it, before it is answered or passed on. */
  lemma LearnsReverse(n: Node, m: Msg, now: real, buffered: bool)
    requires NodeOk(n) && m.Rreq? && MsgOk(m) && m.src != n.index
    ensures var u := UpdateReverse(Lookup(n.table, m.src), n.maxPaths, n.lenDiff, m.sender, m.srcSeq, m.hops,
                                   FirstHop(n, m), m.dst == n.index, now);
            && (u.Kept? <==> KeepsRequest(n, m))
            && (u.Kept? ==> (u.hasPath <==> HasWayBack(n, m)))
  {
    var e := Lookup(n.table, m.src);
    ReverseOffer(e, n.maxPaths, n.lenDiff, m.sender, m.srcSeq, m.hops, FirstHop(n, m), m.dst == n.index, now);
    if Joins(e, m.srcSeq, m.hops) {
      ReverseJoins(e, n.maxPaths, n.lenDiff, m.sender, m.srcSeq, m.hops, FirstHop(n, m), m.dst == n.index, now);
    }
    ReverseKeptIff(e, n.maxPaths, n.lenDiff, m.sender, m.srcSeq, m.hops, FirstHop(n, m), m.dst == n.index, now);
  }

  /** The destination answers every request whose offer it keeps, along the way it came, with an even
      number no less than the one asked for; it ignores the others. */
  lemma RequestAtDestination(n: Node, m: Msg, now: real, buffered: bool)
    requires NodeOk(n) && m.Rreq? && MsgOk(m) && m.src != n.index && m.dst == n.index
    ensures var (n', out) := RecvRequest(n, m, now, buffered);
            && out == (if KeepsRequest(n, m)
                       then Send(Rrep(n.index, m.src, m.sender, n.index, n'.seqno, 0, m.sender, 10.0, m.bid)) else Silent)
            && n'.seqno % 2 == 0 && n'.seqno >= n.seqno
            && (KeepsRequest(n, m) ==> n'.seqno >= m.dstSeq)
            && (!KeepsRequest(n, m) || m.dstSeq <= n.seqno ==> n'.seqno == n.seqno)
            && n'.seqno <= (if m.dstSeq > n.seqno then m.dstSeq else n.seqno) + 2
            && (forall d | d in n'.table && d != m.src :: d in n.table && n'.table[d] == n.table[d])
            && (forall k | k != (m.src, m.bid) :: k in n'.bcache <==> k in n.bcache)
            && (m.src, m.bid) in n'.bcache
  {
    LearnsReverse(n, m, now, buffered);
  }

  /** Any other node ignores a request whose offer it does not keep. */
  lemma RequestIgnored(n: Node, m: Msg, now: real, buffered: bool)
    requires NodeOk(n) && m.Rreq? && MsgOk(m) && m.src != n.index && !KeepsRequest(n, m)
    ensures RecvRequest(n, m, now, buffered).1 == Silent
  {
    LearnsReverse(n, m, now, buffered);
  }

  /** One with a route that is fresh enough answers from it, once for each request, if the request
      brought a path back. */
  lemma RequestAnswered(n: Node, m: Msg, now: real, buffered: bool)
    requires NodeOk(n) && m.Rreq? && MsgOk(m) && m.src != n.index && KeepsRequest(n, m)
    requires m.dst != n.index && m.dst != m.src && HasRoute(n, m)
    ensures var (n', out) := RecvRequest(n, m, now, buffered);
            var e, key := n.table[m.dst], (m.src, m.bid);
            && n'.seqno == n.seqno && m.dst in n'.table && key in n'.bcache
            && (out.Send? <==> HasWayBack(n, m) && (key in n.bcache ==> n.bcache[key].count == 0))
            && (out.Send? ==>
                  && out.msg.Rrep? && AdvertisedAs(e, out.msg.hops)
                  && out.msg == Rrep(n.index, m.src, m.sender, m.dst, e.seqno, out.msg.hops, e.paths[0].lasthop,
                                     e.paths[0].expire - now, m.bid)
                  && n'.table[m.dst] == e.(advertised := Hops(out.msg.hops), error := true)
                  && n'.bcache[key].count == 1)
            && (out.Silent? ==> n'.table[m.dst] == e)
  {
    LearnsReverse(n, m, now, buffered);
    AdvertiseIs(n.table[m.dst], n.maxPaths);
  }

  /** One without passes a request on when it sees it for the first time, with the hops of its own
      route back and under the highest number heard. */
  lemma RequestPassedOn(n: Node, m: Msg, now: real, buffered: bool)
    requires NodeOk(n) && m.Rreq? && MsgOk(m) && m.src != n.index && KeepsRequest(n, m)
    requires m.dst != n.index && m.dst != m.src && !HasRoute(n, m)
    ensures var (n', out) := RecvRequest(n, m, now, buffered);
            && n'.seqno == n.seqno
            && (out.Send? <==> (m.src, m.bid) !in n.bcache)
            && (out.Send? ==>
                  && m.src in n'.table && n'.table[m.src].paths != [] && n'.table[m.src].advertised.Hops?
                  && out.msg.Rreq? && out.msg.dstSeq >= m.dstSeq
                  && (out.msg.dstSeq == m.dstSeq || (m.dst in n.table && out.msg.dstSeq == n.table[m.dst].seqno))
                  && (m.dst in n.table ==> out.msg.dstSeq >= n.table[m.dst].seqno)
                  && out.msg == Rreq(n.index, m.src, m.srcSeq, n'.table[m.src].advertised.count,
                                     n'.table[m.src].paths[0].lasthop, m.dst, out.msg.dstSeq, m.bid)
                  && (m.srcSeq > Lookup(n.table, m.src).seqno ==> out.msg.hops == m.hops + 1))
            && (forall d | d in n'.table && d != m.src :: d in n.table && n'.table[d] == n.table[d])
  {
    LearnsReverse(n, m, now, buffered);
  }

  // ---------------------------------------------------------------- replies

  /** A reply that is not kept stops here; one that is is passed on from the route it leaves. */
  lemma ReplyEffect(n: Node, sender: Addr, to: Addr, dst: Addr, dstSeq: nat, hops: nat, firstHop: Addr,
                    lifetime: real, bid: nat, now: real, buffered: bool)
    requires NodeOk(n) && Usable(dstSeq) && dst != n.index
    ensures var u := UpdateForward(Lookup(n.table, dst), n.maxPaths, n.lenDiff, sender, dstSeq, hops, firstHop, lifetime, now);
            var n1 := n.(table := n.table[dst := Refreshed(u, buffered, now)]);
            RecvReply(n, sender, to, dst, dstSeq, hops, firstHop, lifetime, bid, now, buffered) ==
            if u.Kept? then ForwardReply(n1, to, dst, dstSeq, lifetime, bid, now) else (n1, Silent)
  {
  }

  /** It travels on, once for each request, exactly when it is for another node to which a path is
      known: along the first such path, with what the route advertises. */
  lemma ReplyPassedOn(n: Node, to: Addr, dst: Addr, dstSeq: nat, lifetime: real, bid: nat, now: real)
    requires NodeOk(n) && dst in n.table && n.table[dst].flags.Up? && to != dst
    ensures var (n', out) := ForwardReply(n, to, dst, dstSeq, lifetime, bid, now);
            var e, key := n.table[dst], (to, bid);
            && (out.Send? <==> to != n.index && to in n.table && n.table[to].flags.Up?
                               && key in n.bcache && n.bcache[key].count == 0)
            && (out.Silent? ==> n' == n)
            && (out.Send? ==>
                  && out.msg.Rrep? && AdvertisedAs(e, out.msg.hops)
                  && out.msg == Rrep(n.index, to, n.table[to].paths[0].nexthop, dst, dstSeq, out.msg.hops,
                                     e.paths[0].lasthop, lifetime, bid)
                  && n' == n.(table := n'.table, bcache := n.bcache[key := n.bcache[key].(count := 1)])
                  && n'.table.Keys == n.table.Keys
                  && n'.table[dst] == e.(advertised := Hops(out.msg.hops), error := true)
                  && n'.table[to] == n.table[to].(paths := n.table[to].paths[0 := n.table[to].paths[0].(expire := now + 10.0)])
                  && forall d | d in n.table && d != dst && d != to :: n'.table[d] == n.table[d])
  {
    AdvertiseIs(n.table[dst], n.maxPaths);
  }

  /** Packets that waited for the route only renew its first path. */
  lemma RefreshedIs(u: Update, buffered: bool, now: real)
    ensures var e := u.entry;
            Refreshed(u, buffered, now) ==
            if u.Kept? && e.flags.Up? && buffered && e.paths != []
            then e.(paths := e.paths[0 := e.paths[0].(expire := now + 10.0)]) else e
  {
  }

  /** A HELLO is a reply of its sender about itself. */
  lemma HelloEffect(n: Node, m: Msg, now: real, buffered: bool)
    requires NodeOk(n) && m.Hello? && MsgOk(m)
    ensures RecvHello(n, m, now, buffered) ==
            RecvReply(n, m.sender, n.index, m.sender, m.dstSeq, 0, n.index, 4.0, 0, now, buffered)
    ensures SendHello(n) == Send(Hello(n.index, n.seqno))
  {
  }

  // ---------------------------------------------------------------- lost paths

  /** Place k holds the first path through the neighbour. */
  predicate FirstThrough(e: Entry, k: nat, id: Addr)
    requires k < |e.paths|
  {
    e.paths[k].nexthop == id && forall j | 0 <= j < k :: e.paths[j].nexthop != id
  }

  predicate UsesIt(e: Entry, id: Addr) {
    e.flags.Up? && exists k :: 0 <= k < |e.paths| && FirstThrough(e, k, id)
  }

  lemma FindIs(e: Entry, id: Addr)
    ensures forall k | 0 <= k < |e.paths| && FirstThrough(e, k, id) :: FindNexthop(e.paths, id) == Some(k)
    ensures FindNexthop(e.paths, id).Some? <==> exists k :: 0 <= k < |e.paths| && FirstThrough(e, k, id)
  {
    var f := FindNexthop(e.paths, id);
    assert forall k | 0 <= k < |e.paths| :: e.paths[k] in e.paths;
    assert f.Some? ==> FirstThrough(e, f.value, id);
  }

  /** The last path is gone: the route is down under the given number. */
  predicate WentDown(e: Entry, e': Entry, seqno: nat) {
    && e'.flags.Down? && e'.seqno == seqno && e'.paths == [] && e'.numPaths == 0
    && e'.advertised.Unadvertised? && e'.expire == 0.0
  }

  /** recvError about one route: it loses its path through the sender, and with its last path goes
      down under the highest number heard; every other route is unchanged. */
  lemma ErrorOf(e: Entry, via: Addr, lost: nat)
    ensures var e' := AfterError(e, via, lost);
            var top := if e.highest > lost then e.highest else lost;
            if UsesIt(e, via) && e.seqno <= lost then
              && e'.highest == top
              && (if |e.paths| == 1 then WentDown(e, e', top) && !e'.error
                  else forall k | 0 <= k < |e.paths| && FirstThrough(e, k, via) ::
                         e' == e.(paths := RemovedAt(e.paths, k), numPaths := |e.paths| - 1, highest := top))
            else e' == e
    ensures ReportsError(e, via, lost) <==> UsesIt(e, via) && e.seqno <= lost && |e.paths| == 1 && e.error
  {
    FindIs(e, via);
  }

  /** The whole of recvError: each listed route as above, the others unchanged, and a report of
      exactly the routes that went down and for which packets of others had come. */
  lemma ErrorEffect(n: Node, m: Msg)
    requires m.Rerr?
    ensures var (n', out) := RecvError(n, m);
            && n' == n.(table := n'.table) && n'.table.Keys == n.table.Keys
            && (forall d | d in n.table ::
                  n'.table[d] == if d in m.lost then AfterError(n.table[d], m.sender, m.lost[d]) else n.table[d])
            && (out.Send? <==> exists d :: ReportedLost(n, m, d))
            && (out.Send? ==>
                  && out.msg.Rerr? && out.msg.sender == n.index
                  && (forall d :: d in out.msg.lost <==> ReportedLost(n, m, d))
                  && forall d | d in out.msg.lost :: out.msg.lost[d] == n'.table[d].seqno)
  {
    var lost := ErrorReport(n.table, m, {});
    forall d
      ensures d in lost <==> ReportedLost(n, m, d)
    {
      if d in n.table && d in m.lost {
        ErrorOf(n.table[d], m.sender, m.lost[d]);
      }
    }
    if lost != map[] {
      SomeMember(lost.Keys);
    }
  }

  predicate ReportedLost(n: Node, m: Msg, d: Addr)
    requires m.Rerr?
  {
    && d in n.table && d in m.lost
    && UsesIt(n.table[d], m.sender) && n.table[d].seqno <= m.lost[d] && |n.table[d].paths| == 1 && n.table[d].error
  }

  /** handle_link_failure about one route: the path through the lost neighbour goes, and with the
      last path the route, under the next number or the highest heard. */
  lemma FailureOf(e: Entry, id: Addr)
    ensures var e' := AfterFailure(e, id);
            var top := if e.highest > e.seqno + 1 then e.highest else e.seqno + 1;
            if UsesIt(e, id) then
              if |e.paths| == 1 then WentDown(e, e', top) && !e'.error && e'.highest == e.highest
              else forall k | 0 <= k < |e.paths| && FirstThrough(e, k, id) ::
                     e' == e.(paths := RemovedAt(e.paths, k), numPaths := |e.paths| - 1)
            else e' == e
    ensures ReportsFailure(e, id) <==> UsesIt(e, id) && |e.paths| == 1 && e.error
  {
    FindIs(e, id);
  }

  lemma FailureEffect(n: Node, id: Addr)
    ensures var (n', out) := HandleLinkFailure(n, id);
            && n' == n.(table := n'.table) && n'.table.Keys == n.table.Keys
            && (forall d | d in n.table :: n'.table[d] == AfterFailure(n.table[d], id))
            && (out.Send? <==> exists d :: FailedFor(n, id, d))
            && (out.Send? ==>
                  && out.msg.Rerr? && out.msg.sender == n.index
                  && (forall d :: d in out.msg.lost <==> FailedFor(n, id, d))
                  && forall d | d in out.msg.lost :: out.msg.lost[d] == n'.table[d].seqno)
  {
    var lost := FailureReport(n.table, id, {});
    forall d
      ensures d in lost <==> FailedFor(n, id, d)
    {
      if d in n.table {
        FailureOf(n.table[d], id);
      }
    }
    if lost != map[] {
      SomeMember(lost.Keys);
    }
  }

  /** nb_delete: the own number moves on by two, the link fails, and the queued packets are salvaged. */
  lemma NeighborEffect(n: Node, id: Addr, queued: seq<Queued>, now: real)
    ensures var (n', out) := NbDelete(n, id, queued, now);
            && n'.seqno == n.seqno + 2 && out == HandleLinkFailure(n, id).1
            && n' == Salvage(HandleLinkFailure(n, id).0.(seqno := n.seqno + 2), queued, now)
  {
    SalvageEffect(HandleLinkFailure(n.(seqno := n.seqno + 2), id).0, queued, now);
  }

  /** The route went down with the neighbour, and packets of others had come for it. */
  predicate FailedFor(n: Node, id: Addr, d: Addr) {
    d in n.table && UsesIt(n.table[d], id) && |n.table[d].paths| == 1 && n.table[d].error
  }

  /** A packet queued for the lost neighbour that another path can take. */
  predicate Rescued(n: Node, queued: seq<Queued>, d: Addr, mine: bool) {
    d in n.table && n.table[d].flags.Up? && exists i :: 0 <= i < |queued| && queued[i].dst == d && queued[i].mine == mine && queued[i].count < 10
  }

  /** The salvaging of nb_delete renews the first path of exactly the routes that packets were
      rescued over, and marks those that packets of others took. */
  lemma {:induction false} SalvageEffect(n: Node, queued: seq<Queued>, now: real)
    ensures var n' := Salvage(n, queued, now);
            && n' == n.(table := n'.table) && n'.table.Keys == n.table.Keys
            && forall d | d in n.table ::
                 && n'.table[d] == (if Rescued(n, queued, d, true) || Rescued(n, queued, d, false)
                                    then Renewed(n.table[d], now) else n.table[d]).(error := n'.table[d].error)
                 && n'.table[d].error == (n.table[d].error || Rescued(n, queued, d, false))
    decreases |queued|
  {
    if queued != [] {
      var p, rest := queued[0], queued[1..];
      var n1 := if CanSalvage(n, p) then n.(table := n.table[p.dst := Used(n.table[p.dst], p.mine, now)]) else n;
      SalvageEffect(n1, rest, now);
      forall d, mine | d in n.table
        ensures Rescued(n, queued, d, mine) <==> (CanSalvage(n, p) && p.dst == d && p.mine == mine) || Rescued(n1, rest, d, mine)
      {
        RescuedFirst(n, queued, n1, d, mine);
      }
    }
  }

  lemma RescuedFirst(n: Node, queued: seq<Queued>, n1: Node, d: Addr, mine: bool)
    requires queued != [] && d in n.table && d in n1.table && n1.table[d].flags == n.table[d].flags
    ensures Rescued(n, queued, d, mine) <==>
            (CanSalvage(n, queued[0]) && queued[0].dst == d && queued[0].mine == mine) || Rescued(n1, queued[1..], d, mine)
  {
    var rest := queued[1..];
    assert forall i | 0 < i < |queued| :: queued[i] == rest[i - 1];
    if i: nat :| i < |rest| && rest[i].dst == d && rest[i].mine == mine && rest[i].count < 10 {
      assert queued[i + 1] == rest[i];
    }
  }

  // ---------------------------------------------------------------- time

  /** rt_purge about one route: one that is up and whose time has passed loses its expired paths,
      and with its last path goes down under an odd number; one that packets wait for is renewed. */
  lemma PurgeOf(e: Entry, now: real, waiting: bool)
    ensures var e' := AfterPurge(e, now, waiting);
            var top := if e.highest > e.seqno + 1 then e.highest else e.seqno + 1;
            if e.flags.Up? && e.expire < now then
              if forall k | 0 <= k < |e.paths| :: e.paths[k].expire < now
              then WentDown(e, e', if top % 2 == 0 then top + 1 else top)
              else e' == e.(paths := e'.paths, numPaths := |e'.paths|)
                   && e'.paths != [] && forall p :: p in e'.paths <==> p in e.paths && p.expire >= now
            else if e.flags.Up? && waiting then
              e' == e.(paths := if e.paths == [] then [] else e.paths[0 := e.paths[0].(expire := now + 10.0)])
            else e' == e
  {
    var live := Unexpired(e.paths, now);
    if live == [] {
      assert forall k | 0 <= k < |e.paths| :: e.paths[k] in e.paths;
    } else {
      assert live[0] in live;
    }
  }

  lemma PurgeEffect(n: Node, now: real, waiting: set<Addr>)
    ensures var n' := RtPurge(n, now, waiting);
            && n' == n.(table := n'.table) && n'.table.Keys == n.table.Keys
            && forall d | d in n.table :: n'.table[d] == AfterPurge(n.table[d], now, d in waiting)
  {
  }

  /** The cache forgets exactly the requests whose time has come. */
  lemma CacheEffect(n: Node, now: real)
    ensures var n' := IdPurge(n, now);
            && n' == n.(bcache := n'.bcache)
            && (forall k :: k in n'.bcache <==> k in n.bcache && n.bcache[k].expire > now)
            && forall k | k in n'.bcache :: n'.bcache[k] == n.bcache[k]
  {
  }

  // ---------------------------------------------------------------- own traffic

  /** sendRequest asks for a route exactly when it is not up. */
  lemma AskEffect(n: Node, dst: Addr)
    requires dst in n.table
    ensures var (n', out) := SendRequest(n, dst);
            if n.table[dst].flags.Up? then n' == n && out == Silent
            else
              && out == Send(Rreq(n.index, n.index, n.seqno + 2, 0, 0, dst, n.table[dst].seqno, n.bid))
              && n' == n.(seqno := n.seqno + 2, bid := n.bid + 1, table := n'.table)
              && n'.table.Keys == n.table.Keys && n'.table[dst] == n.table[dst].(expire := 0.0)
              && forall d | d in n.table && d != dst :: n'.table[d] == n.table[d]
  {
  }

  /** A data packet goes along the first path of a route that is up; otherwise it asks for one if it
      is the node's own and is reported as lost if not. */
  lemma DataEffect(n: Node, dst: Addr, mine: bool, granted: bool, now: real)
    ensures var (n', out) := RtResolve(n, dst, mine, granted, now);
            var e := Lookup(n.table, dst);
            && n'.table.Keys == n.table.Keys + {dst}
            && (forall d | d in n.table && d != dst :: n'.table[d] == n.table[d])
            && (e.flags.Up? ==>
                  && out == Silent && n'.seqno == n.seqno
                  && n'.table[dst].error == (e.error || !mine)
                  && n'.table[dst] == e.(error := n'.table[dst].error,
                                         paths := if e.paths == [] then [] else e.paths[0 := e.paths[0].(expire := now + 10.0)]))
            && (e.flags.Down? && mine && granted ==>
                  && out == Send(Rreq(n.index, n.index, n.seqno + 2, 0, 0, dst, e.seqno, n.bid))
                  && n'.seqno == n.seqno + 2 && n'.bid == n.bid + 1 && n'.table[dst] == e.(expire := 0.0))
            && (e.flags.Down? && !(mine && granted) ==>
                  && n' == n.(table := n.table[dst := e])
                  && out == if mine then Silent else Send(Rerr(n.index, map[dst := e.seqno])))
  {
  }
}
