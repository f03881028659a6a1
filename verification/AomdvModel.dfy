/**
 * AOMDV on values: route entries, messages, and what every handler of one node does to
 * its state.  AomdvAgent.dfy refines these functions with a class that updates its
 * fields in place; AomdvNetwork.dfy runs many nodes against a lossy, duplicating and
 * reordering medium.
 */
module AomdvModel {
  import opened Options

  type Addr = int

  const MY_ROUTE_TIMEOUT := 10.0
  const ACTIVE_ROUTE_TIMEOUT := 10.0
  const REV_ROUTE_LIFE := 6.0
  const BCAST_ID_SAVE := 6.0
  const MAX_SALVAGE_COUNT := 10
  const HELLO_LIFETIME := 4.0

  /** rt_advertised_hops: INFINITY stands for "nothing advertised for this number yet". */
  datatype Advertised = Unadvertised | Hops(count: nat)

  datatype Flag = Down | Up

  datatype Path = Path(nexthop: Addr, hopcount: nat, expire: real, lasthop: Addr)

  datatype Entry = Entry(
    seqno: nat, advertised: Advertised, flags: Flag, paths: seq<Path>, numPaths: int,
    highest: nat, error: bool, expire: real)

  /** An entry of the broadcast-id cache. */
  datatype Bcast = Bcast(count: nat, expire: real)

  datatype Node = Node(
    index: Addr, seqno: nat, bid: nat, table: map<Addr, Entry>, bcache: map<(Addr, nat), Bcast>,
    maxPaths: int, lenDiff: int)

  datatype Msg =
    | Rreq(sender: Addr, src: Addr, srcSeq: nat, hops: nat, firstHop: Addr,
           dst: Addr, dstSeq: nat, bid: nat)
    | Rrep(sender: Addr, to: Addr, via: Addr, dst: Addr, dstSeq: nat, hops: nat, firstHop: Addr,
           lifetime: real, bid: nat)
    | Rerr(sender: Addr, lost: map<Addr, nat>)
    | Hello(sender: Addr, dstSeq: nat)

  datatype Out = Silent | Send(msg: Msg)

  /** What a message claims: its sender `via` reaches `dst`, at freshness `seqno`, in `hops` hops. */
  datatype Ad = Ad(via: Addr, dst: Addr, seqno: nat, hops: nat)

  function AdOf(m: Msg): Option<Ad> {
    match m
    case Rreq(sender, src, srcSeq, hops, _, _, _, _) => Some(Ad(sender, src, srcSeq, hops))
    case Rrep(sender, _, _, dst, dstSeq, hops, _, _, _) => Some(Ad(sender, dst, dstSeq, hops))
    case Rerr(_, _) => None
    case Hello(sender, dstSeq) => Some(Ad(sender, sender, dstSeq, 0))
  }

  // ---------------------------------------------------------------- path lists

  function FindNexthop(paths: seq<Path>, id: Addr): (k: Option<nat>)
    ensures k.Some? ==> k.value < |paths| && paths[k.value].nexthop == id
    ensures k.Some? ==> forall i | 0 <= i < k.value :: paths[i].nexthop != id
    ensures k.None? ==> forall p | p in paths :: p.nexthop != id
  {
    if paths == [] then None
    else if paths[0].nexthop == id then Some(0)
    else
      match FindNexthop(paths[1..], id)
      case None => None
      case Some(k) => Some(k + 1)
  }

  function FindLasthop(paths: seq<Path>, id: Addr): (k: Option<nat>)
    ensures k.Some? ==> k.value < |paths| && paths[k.value].lasthop == id
    ensures k.Some? ==> forall i | 0 <= i < k.value :: paths[i].lasthop != id
    ensures k.None? ==> forall p | p in paths :: p.lasthop != id
  {
    if paths == [] then None
    else if paths[0].lasthop == id then Some(0)
    else
      match FindLasthop(paths[1..], id)
      case None => None
      case Some(k) => Some(k + 1)
  }

  predicate SamePath(p: Path, nexthop: Addr, lasthop: Addr) {
    p.nexthop == nexthop && p.lasthop == lasthop
  }

  function FindPath(paths: seq<Path>, nexthop: Addr, lasthop: Addr): (k: Option<nat>)
    ensures k.Some? ==> k.value < |paths| && SamePath(paths[k.value], nexthop, lasthop)
    ensures k.Some? ==> forall i | 0 <= i < k.value :: !SamePath(paths[i], nexthop, lasthop)
    ensures k.None? ==> forall p | p in paths :: !SamePath(p, nexthop, lasthop)
  {
    if paths == [] then None
    else if SamePath(paths[0], nexthop, lasthop) then Some(0)
    else
      match FindPath(paths[1..], nexthop, lasthop)
      case None => None
      case Some(k) => Some(k + 1)
  }

  predicate NewDisjoint(paths: seq<Path>, nexthop: Addr, lasthop: Addr) {
    forall p | p in paths :: p.nexthop != nexthop && p.lasthop != lasthop
  }

  /** path_delete(id): only the first path through `id` goes. */
  function Without(paths: seq<Path>, id: Addr): (r: seq<Path>)
    ensures forall p | p in r :: p in paths
    ensures |r| == |paths| - (if FindNexthop(paths, id).Some? then 1 else 0)
  {
    match FindNexthop(paths, id)
    case None => paths
    case Some(k) => RemovedAt(paths, k)
  }

  function Unexpired(paths: seq<Path>, now: real): (r: seq<Path>)
    ensures forall p | p in r :: p in paths && p.expire >= now
    ensures forall p | p in paths && p.expire >= now :: p in r
    ensures |r| <= |paths|
  {
    if paths == [] then []
    else if paths[0].expire < now then Unexpired(paths[1..], now)
    else [paths[0]] + Unexpired(paths[1..], now)
  }

  function MaxHop(paths: seq<Path>): (m: nat)
    ensures forall p | p in paths :: p.hopcount <= m
    ensures m > 0 ==> exists p :: p in paths && p.hopcount == m
  {
    if paths == [] then 0 else Max(paths[0].hopcount, MaxHop(paths[1..]))
  }

  function MaxHopcount(paths: seq<Path>): Advertised {
    var m := MaxHop(paths);
    if m == 0 then Unadvertised else Hops(m)
  }

  function MinHopcount(paths: seq<Path>): (m: Advertised)
    ensures m.Hops? ==> exists p :: p in paths && p.hopcount == m.count
    ensures m.Hops? ==> forall p | p in paths :: m.count <= p.hopcount
    ensures m.Unadvertised? <==> paths == []
  {
    if paths == [] then Unadvertised
    else
      match MinHopcount(paths[1..])
      case Unadvertised => Hops(paths[0].hopcount)
      case Hops(m) => if paths[0].hopcount < m then Hops(paths[0].hopcount) else Hops(m)
  }

  /** (hops) - (shortest known) <= (allowed difference); vacuous on an empty list. */
  predicate CloseEnough(hops: nat, shortest: Advertised, lenDiff: int) {
    shortest.Unadvertised? || hops - shortest.count <= lenDiff
  }

  predicate Above(adv: Advertised, hops: nat) {
    adv.Unadvertised? || adv.count > hops
  }

  // ---------------------------------------------------------------- entries

  const FRESH := Entry(0, Unadvertised, Down, [], 0, 0, false, 0.0)

  function Lookup(table: map<Addr, Entry>, d: Addr): Entry {
    if d in table then table[d] else FRESH
  }

  ghost predicate DistinctHops(paths: seq<Path>) {
    forall i, j | 0 <= i < j < |paths| ::
      paths[i].nexthop != paths[j].nexthop && paths[i].lasthop != paths[j].lasthop
  }

  /** Sequence numbers of broken routes are odd; 0 marks a route never heard of. */
  predicate Broken(s: nat) {
    s == 0 || s % 2 == 1
  }

  predicate Usable(s: nat) {
    s >= 2 && s % 2 == 0
  }

  /** What the handlers keep true of each entry. */
  ghost predicate EntryOk(e: Entry, maxPaths: int) {
    && (e.flags.Up? <==> e.paths != [])
    && e.numPaths == |e.paths| <= maxPaths
    && DistinctHops(e.paths)
    && (e.flags.Up? ==> Usable(e.seqno))
    && (e.flags.Down? ==> Broken(e.seqno) && e.advertised.Unadvertised?)
    && Broken(e.highest)
    && (forall p | p in e.paths :: p.hopcount >= 1 && (e.advertised.Hops? ==> p.hopcount <= e.advertised.count))
  }

  ghost predicate NodeOk(n: Node) {
    && Usable(n.seqno)
    && n.maxPaths >= 1
    && (forall d | d in n.table :: EntryOk(n.table[d], n.maxPaths))
    && (n.index in n.table ==> n.table[n.index].flags.Down?)
  }

  /** Local sanity of a message: which numbers and hop counts it may carry. */
  predicate AdOk(a: Ad) {
    Usable(a.seqno) && (a.hops == 0 <==> a.via == a.dst)
  }

  ghost predicate MsgOk(m: Msg) {
    && (AdOf(m).Some? ==> AdOk(AdOf(m).value))
    && (m.Rerr? ==> forall d | d in m.lost :: Broken(m.lost[d]))
  }

  function Inserted(e: Entry, p: Path): Entry {
    e.(paths := e.paths + [p], numPaths := e.numPaths + 1)
  }

  function Deleted(e: Entry, id: Addr): Entry {
    e.(paths := Without(e.paths, id), numPaths := |Without(e.paths, id)|)
  }

  function RtDown(e: Entry): Entry {
    if e.flags.Down? then e
    else e.(flags := Down, advertised := Unadvertised, paths := [], numPaths := 0, expire := 0.0)
  }

  function Advertise(e: Entry): (r: Entry)
    ensures forall maxPaths | EntryOk(e, maxPaths) && e.flags.Up? ::
      EntryOk(r, maxPaths) && r.advertised.Hops? && r.advertised.count >= 1
  {
    assert e.paths != [] ==> e.paths[0] in e.paths;
    if e.advertised.Unadvertised? then e.(advertised := MaxHopcount(e.paths)) else e
  }

  /** forward(rt, ..): the first path's lifetime is renewed. */
  function Renewed(e: Entry, now: real): (r: Entry)
    ensures forall maxPaths | EntryOk(e, maxPaths) :: EntryOk(r, maxPaths)
  {
    if e.paths == [] then e
    else e.(paths := e.paths[0 := e.paths[0].(expire := now + ACTIVE_ROUTE_TIMEOUT)])
  }

  // ---------------------------------------------------------------- route updates

  /** Outcome of offering an advertised path: the packet is dropped, or handled further. */
  datatype Update = Dropped(entry: Entry) | Kept(entry: Entry, hasPath: bool)

  function Replaced(e: Entry, seqno: nat, p: Path): Entry {
    e.(seqno := seqno, advertised := Unadvertised, paths := [p], numPaths := 1, flags := Up)
  }

  function Extended(e: Entry, k: nat, expire: real): Entry
    requires k < |e.paths|
  {
    e.(paths := e.paths[k := e.paths[k].(expire := MaxReal(e.paths[k].expire, expire))])
  }

  /** Lines 852 and 858 (requests), 1110 and 1113 (replies): an equally fresh offer finds the
      route up, and finds a known path only with the very hop count it had. */
  ghost predicate OfferAsserts(e: Entry, a: Ad, firstHop: Addr) {
    e.seqno == a.seqno && Above(e.advertised, a.hops) ==>
      && e.flags.Up?
      && var k := FindPath(e.paths, a.via, firstHop);
         k.Some? ==> e.paths[k.value].hopcount == a.hops + 1
  }

  /** Lines 833-903 of recvRequest: the reverse route to the request's source. */
  function UpdateReverse(e: Entry, maxPaths: int, lenDiff: int, sender: Addr, srcSeq: nat, hops: nat,
                         firstHop: Addr, forMe: bool, now: real): (u: Update)
    requires EntryOk(e, maxPaths) && maxPaths >= 1 && Usable(srcSeq)
    ensures EntryOk(u.entry, maxPaths)
    ensures u.Kept? ==> u.entry.flags.Up? && u.entry.seqno == srcSeq
  {
    var p := Path(sender, hops + 1, now + REV_ROUTE_LIFE, firstHop);
    if e.seqno < srcSeq then
      Kept(Replaced(e, srcSeq, p), true)
    else if e.seqno == srcSeq && Above(e.advertised, hops) then
      var k := FindPath(e.paths, sender, firstHop);
      if k.Some? then
        Kept(Extended(e, k.value, now + REV_ROUTE_LIFE), true)
      else if NewDisjoint(e.paths, sender, firstHop) then
        var room := e.numPaths < maxPaths && CloseEnough(hops + 1, MinHopcount(e.paths), lenDiff);
        var e' := if room then Inserted(e, p) else e;
        if CloseEnough(hops + 1, MinHopcount(e'.paths), lenDiff) then Kept(e', room) else Dropped(e')
      else
        var l := FindLasthop(e.paths, firstHop);
        if forMe && (l.None? || hops + 1 > e.paths[l.value].hopcount) then Dropped(e) else Kept(e, false)
    else
      Dropped(e)
  }

  /** Lines 1094-1139 of recvReply: the forward route to the reply's destination. */
  function UpdateForward(e: Entry, maxPaths: int, lenDiff: int, sender: Addr, dstSeq: nat, hops: nat,
                         firstHop: Addr, lifetime: real, now: real): (u: Update)
    requires EntryOk(e, maxPaths) && maxPaths >= 1 && Usable(dstSeq)
    ensures EntryOk(u.entry, maxPaths)
    ensures u.Kept? ==> u.entry.flags.Up? && u.entry.seqno == dstSeq
  {
    var p := Path(sender, hops + 1, now + lifetime, firstHop);
    if e.seqno < dstSeq then
      Kept(Replaced(e, dstSeq, p), true)
    else if e.seqno == dstSeq && Above(e.advertised, hops) then
      var k := FindPath(e.paths, sender, firstHop);
      if k.Some? then
        Kept(Extended(e, k.value, now + lifetime), true)
      else if && NewDisjoint(e.paths, sender, firstHop)
              && e.numPaths < maxPaths
              && CloseEnough(hops + 1, MinHopcount(e.paths), lenDiff) then
        Kept(Inserted(e, p), true)
      else
        Dropped(e)
    else
      Dropped(e)
  }

  /** The entry once packets waiting for it (`buffered`) have been sent along its first path. */
  function Refreshed(u: Update, buffered: bool, now: real): (e: Entry)
    ensures forall maxPaths | EntryOk(u.entry, maxPaths) :: EntryOk(e, maxPaths)
  {
    if u.Kept? && u.entry.flags.Up? && buffered then Renewed(u.entry, now) else u.entry
  }

  // ---------------------------------------------------------------- handlers

  /** Lines 929-935: the destination's own number, made even and newer than the request's. */
  function ReplySeqno(seqno: nat, requested: nat): nat {
    var s := if seqno < requested then requested + 1 else seqno;
    if s % 2 == 1 then s + 1 else s
  }

  function RecvRequest(n: Node, m: Msg, now: real, buffered: bool): (Node, Out)
    requires NodeOk(n) && m.Rreq? && MsgOk(m)
  {
    if m.src == n.index then (n, Silent)
    else
      var key := (m.src, m.bid);
      var cache := if key in n.bcache then n.bcache else n.bcache[key := Bcast(0, now + BCAST_ID_SAVE)];
      var firstHop := if m.hops == 0 then n.index else m.firstHop;
      var u := UpdateReverse(Lookup(n.table, m.src), n.maxPaths, n.lenDiff, m.sender, m.srcSeq, m.hops,
                             firstHop, m.dst == n.index, now);
      var n1 := n.(bcache := cache, table := n.table[m.src := Refreshed(u, buffered, now)]);
      if u.Dropped? then (n1, Silent) else AnswerRequest(n1, m, key in n.bcache, u.hasPath, now)
  }

  /** Lines 924-1049: reply as the destination, reply from the table, or pass the request on. */
  function AnswerRequest(n: Node, m: Msg, duplicate: bool, hasPath: bool, now: real): (Node, Out)
    requires NodeOk(n) && m.Rreq? && (m.src, m.bid) in n.bcache
    requires m.src in n.table && n.table[m.src].flags.Up?
  {
    if m.dst == n.index then
      var s := ReplySeqno(n.seqno, m.dstSeq);
      (n.(seqno := s),
       Send(Rrep(n.index, m.src, m.sender, n.index, s, 0, m.sender, MY_ROUTE_TIMEOUT, m.bid)))
    else if m.dst in n.table && n.table[m.dst].flags.Up? && n.table[m.dst].seqno >= m.dstSeq then
      var b := n.bcache[(m.src, m.bid)];
      var e := Advertise(n.table[m.dst]).(error := true);
      if hasPath && b.count == 0 then
        (n.(table := n.table[m.dst := e], bcache := n.bcache[(m.src, m.bid) := b.(count := 1)]),
         Send(Rrep(n.index, m.src, m.sender, m.dst, e.seqno, e.advertised.count, e.paths[0].lasthop,
                   e.paths[0].expire - now, m.bid)))
      else
        (n, Silent)
    else if duplicate then
      (n, Silent)
    else
      var e0 := Advertise(n.table[m.src]);
      var dstSeq := if m.dst in n.table then Max(n.table[m.dst].seqno, m.dstSeq) else m.dstSeq;
      (n.(table := n.table[m.src := e0]),
       Send(Rreq(n.index, m.src, m.srcSeq, e0.advertised.count, e0.paths[0].lasthop, m.dst, dstSeq, m.bid)))
  }

  /** recvReply; `to` is the request's source, which this node may itself be. */
  function RecvReply(n: Node, sender: Addr, to: Addr, dst: Addr, dstSeq: nat, hops: nat, firstHop: Addr,
                     lifetime: real, bid: nat, now: real, buffered: bool): (Node, Out)
    requires NodeOk(n) && Usable(dstSeq)
  {
    if dst == n.index then (n, Silent)
    else
      var u := UpdateForward(Lookup(n.table, dst), n.maxPaths, n.lenDiff, sender, dstSeq, hops, firstHop,
                             lifetime, now);
      var n1 := n.(table := n.table[dst := Refreshed(u, buffered, now)]);
      if u.Dropped? then (n1, Silent) else ForwardReply(n1, to, dst, dstSeq, lifetime, bid, now)
  }

  /** Lines 1174-1210: the reply travels on towards the request's source, once per request. */
  function ForwardReply(n: Node, to: Addr, dst: Addr, dstSeq: nat, lifetime: real, bid: nat, now: real): (Node, Out)
    requires NodeOk(n) && dst in n.table && n.table[dst].flags.Up?
  {
    if to == n.index then (n, Silent)
    else if to !in n.table || n.table[to].flags.Down? || (to, bid) !in n.bcache
         || n.bcache[(to, bid)].count != 0 then (n, Silent)
    else
      var b := n.bcache[(to, bid)];
      var e := Advertise(n.table[dst]);
      var next := n.table[to].paths[0].nexthop;
      var t1 := n.table[dst := e.(error := true)];
      var t2 := t1[to := Renewed(t1[to], now)];
      (n.(table := t2, bcache := n.bcache[(to, bid) := b.(count := 1)]),
       Send(Rrep(n.index, to, next, dst, dstSeq, e.advertised.count, e.paths[0].lasthop, lifetime, bid)))
  }

  function RecvHello(n: Node, m: Msg, now: real, buffered: bool): (Node, Out)
    requires NodeOk(n) && m.Hello? && MsgOk(m)
  {
    RecvReply(n, m.sender, n.index, m.sender, m.dstSeq, 0, n.index, HELLO_LIFETIME, 0, now, buffered)
  }

  /** Lines 1294-1320 of recvError, for one listed destination. */
  predicate LosesPath(e: Entry, via: Addr, lost: nat) {
    e.flags.Up? && FindNexthop(e.paths, via).Some? && e.seqno <= lost
  }

  function AfterError(e: Entry, via: Addr, lost: nat): Entry {
    if !LosesPath(e, via, lost) then e
    else
      var e1 := Deleted(e, via).(highest := Max(e.highest, lost));
      if e1.paths != [] then e1
      else RtDown(e1.(seqno := e1.highest)).(error := false)
  }

  predicate ReportsError(e: Entry, via: Addr, lost: nat) {
    LosesPath(e, via, lost) && Deleted(e, via).paths == [] && e.error
  }

  // A sweep over the route table, part way: destinations in `todo` are still to be visited.

  function ErrorSweep(before: map<Addr, Entry>, m: Msg, todo: set<Addr>): map<Addr, Entry>
    requires m.Rerr?
  {
    map d | d in before ::
      if d in m.lost && d !in todo then AfterError(before[d], m.sender, m.lost[d]) else before[d]
  }

  function ErrorReport(before: map<Addr, Entry>, m: Msg, todo: set<Addr>): map<Addr, nat>
    requires m.Rerr?
  {
    map d | d in before && d in m.lost && d !in todo && ReportsError(before[d], m.sender, m.lost[d]) ::
      AfterError(before[d], m.sender, m.lost[d]).seqno
  }

  function RecvError(n: Node, m: Msg): (Node, Out)
    requires m.Rerr?
  {
    var lost := ErrorReport(n.table, m, {});
    (n.(table := ErrorSweep(n.table, m, {})), if lost == map[] then Silent else Send(Rerr(n.index, lost)))
  }

  /** Lines 481-503 of handle_link_failure, for one entry. */
  predicate UsesNeighbor(e: Entry, id: Addr) {
    e.flags.Up? && FindNexthop(e.paths, id).Some?
  }

  function AfterFailure(e: Entry, id: Addr): Entry {
    if !UsesNeighbor(e, id) then e
    else
      var e1 := Deleted(e, id);
      if e1.paths != [] then e1
      else RtDown(e1.(seqno := Max(e1.seqno + 1, e1.highest), error := false))
  }

  predicate ReportsFailure(e: Entry, id: Addr) {
    UsesNeighbor(e, id) && Deleted(e, id).paths == [] && e.error
  }

  function FailureSweep(before: map<Addr, Entry>, id: Addr, todo: set<Addr>): map<Addr, Entry> {
    map d | d in before :: if d !in todo then AfterFailure(before[d], id) else before[d]
  }

  function FailureReport(before: map<Addr, Entry>, id: Addr, todo: set<Addr>): map<Addr, nat> {
    map d | d in before && d !in todo && ReportsFailure(before[d], id) :: AfterFailure(before[d], id).seqno
  }

  function HandleLinkFailure(n: Node, id: Addr): (Node, Out) {
    var lost := FailureReport(n.table, id, {});
    (n.(table := FailureSweep(n.table, id, {})), if lost == map[] then Silent else Send(Rerr(n.index, lost)))
  }

  /** A data packet that was queued for a neighbour, and how often it has been salvaged. */
  datatype Queued = Queued(dst: Addr, mine: bool, count: nat)

  /** What a forwarded packet does to its route; `mine` when this node is the packet's source. */
  function Used(e: Entry, mine: bool, now: real): (r: Entry)
    ensures forall maxPaths | EntryOk(e, maxPaths) :: EntryOk(r, maxPaths)
  {
    if mine then Renewed(e, now) else Renewed(e, now).(error := true)
  }

  predicate CanSalvage(n: Node, p: Queued) {
    p.dst in n.table && n.table[p.dst].flags.Up? && p.count < MAX_SALVAGE_COUNT
  }

  /** Lines 1744-1759: each packet queued for the lost neighbour goes along another path of its
      route, if the route is still up and it has not been salvaged too often. */
  function Salvage(n: Node, queued: seq<Queued>, now: real): Node
    decreases |queued|
  {
    if queued == [] then n
    else
      var p := queued[0];
      Salvage(if CanSalvage(n, p) then n.(table := n.table[p.dst := Used(n.table[p.dst], p.mine, now)]) else n,
              queued[1..], now)
  }

  /** nb_delete: the set of neighbours changed, so the own number moves on first. */
  function NbDelete(n: Node, id: Addr, queued: seq<Queued>, now: real): (Node, Out) {
    var (n1, out) := HandleLinkFailure(n.(seqno := n.seqno + 2), id);
    (Salvage(n1, queued, now), out)
  }

  /** Lines 641-664 of rt_purge, for one entry. */
  function AfterPurge(e: Entry, now: real, buffered: bool): Entry {
    if e.flags.Up? && e.expire < now then
      var live := Unexpired(e.paths, now);
      var e1 := e.(paths := live, numPaths := |live|);
      if live != [] then e1
      else
        var s := Max(e1.seqno + 1, e1.highest);
        RtDown(e1.(seqno := if s % 2 == 0 then s + 1 else s))
    else if e.flags.Up? && buffered then Renewed(e, now)
    else e
  }

  function PurgeSweep(before: map<Addr, Entry>, now: real, buffered: set<Addr>, todo: set<Addr>): map<Addr, Entry> {
    map d | d in before :: if d !in todo then AfterPurge(before[d], now, d in buffered) else before[d]
  }

  function RtPurge(n: Node, now: real, buffered: set<Addr>): Node {
    n.(table := PurgeSweep(n.table, now, buffered, {}))
  }

  /** sendRequest past its rate limiter, on a route that is down. */
  function SendRequest(n: Node, dst: Addr): (Node, Out)
    requires dst in n.table
  {
    if n.table[dst].flags.Up? then (n, Silent)
    else
      (n.(seqno := n.seqno + 2, bid := n.bid + 1, table := n.table[dst := n.table[dst].(expire := 0.0)]),
       Send(Rreq(n.index, n.index, n.seqno + 2, 0, 0, dst, n.table[dst].seqno, n.bid)))
  }

  /** rt_resolve for a data packet; `mine` when this node is its source, `granted` when the
      rate limiter lets a request out. */
  function RtResolve(n: Node, dst: Addr, mine: bool, granted: bool, now: real): (Node, Out) {
    var e := Lookup(n.table, dst);
    var n1 := n.(table := n.table[dst := e]);
    if e.flags.Up? then
      (n1.(table := n1.table[dst := Used(e, mine, now)]), Silent)
    else if mine then
      if granted then SendRequest(n1, dst) else (n1, Silent)
    else
      (n1, Send(Rerr(n.index, map[dst := e.seqno])))
  }

  function SendHello(n: Node): Out {
    Send(Hello(n.index, n.seqno))
  }

  function IdPurge(n: Node, now: real): Node {
    n.(bcache := map k | k in n.bcache && n.bcache[k].expire > now :: n.bcache[k])
  }
}
