/**
 * AODV on values: one next hop per destination, and what every handler of one node does to
 * its state.  The local-repair handlers stand at the end; without them no route is ever
 * under repair.
 */
module AodvModel {
  import opened Options

  type Addr = int

  const MY_ROUTE_TIMEOUT := 10.0
  const ACTIVE_ROUTE_TIMEOUT := 10.0
  const REV_ROUTE_LIFE := 6.0
  const BCAST_ID_SAVE := 6.0
  const NEIGHBOR_LIFE := 4.5

  datatype Distance = Infinite | Finite(hops: nat)

  datatype Flag = Down | Up | InRepair

  datatype Entry = Entry(
    seqno: nat, hops: Distance, flags: Flag, nexthop: Addr, expire: real, precursors: set<Addr>)

  datatype Node = Node(
    index: Addr, seqno: nat, bid: nat, table: map<Addr, Entry>, bcache: map<(Addr, nat), real>,
    neighbors: map<Addr, real>)

  datatype Msg =
    | Rreq(sender: Addr, src: Addr, srcSeq: nat, hops: nat, dst: Addr, dstSeq: nat, bid: nat)
    | Rrep(sender: Addr, to: Addr, via: Addr, dst: Addr, dstSeq: nat, hops: nat, lifetime: real)
    | Rerr(sender: Addr, lost: map<Addr, nat>)
    | Hello(sender: Addr, dstSeq: nat)

  datatype Out = Silent | Send(msg: Msg)

  /** What a message claims: whoever goes through `via` reaches `dst` in `hops` hops. */
  datatype Ad = Ad(via: Addr, dst: Addr, seqno: nat, hops: nat)

  function AdOf(m: Msg): Option<Ad> {
    match m
    case Rreq(sender, src, srcSeq, hops, _, _, _) => Some(Ad(sender, src, srcSeq, hops))
    case Rrep(sender, _, _, dst, dstSeq, hops, _) => Some(Ad(sender, dst, dstSeq, hops))
    case Rerr(_, _) => None
    case Hello(_, _) => None
  }

  // ---------------------------------------------------------------- entries

  const FRESH := Entry(0, Infinite, Down, 0, 0.0, {})

  function Lookup(table: map<Addr, Entry>, d: Addr): Entry {
    if d in table then table[d] else FRESH
  }

  /** Sequence numbers of broken routes are odd; 0 marks a route never heard of. */
  predicate Broken(s: nat) {
    s == 0 || s % 2 == 1
  }

  predicate Usable(s: nat) {
    s >= 2 && s % 2 == 0
  }

  /** What the handlers keep true of each entry. */
  predicate EntryOk(e: Entry) {
    && (e.hops.Finite? <==> !e.flags.Down?)
    && (if e.hops.Finite? then Usable(e.seqno) else Broken(e.seqno))
  }

  ghost predicate NodeOk(n: Node) {
    Usable(n.seqno) && forall d | d in n.table :: EntryOk(n.table[d])
  }

  /** No route of the node is under repair. */
  predicate Settled(n: Node) {
    forall d | d in n.table :: !n.table[d].flags.InRepair?
  }

  predicate AdOk(a: Ad) {
    Usable(a.seqno) && a.hops >= 1
  }

  ghost predicate MsgOk(m: Msg) {
    && (AdOf(m).Some? ==> AdOk(AdOf(m).value))
    && (m.Rerr? ==> forall d | d in m.lost :: Broken(m.lost[d]))
  }

  predicate Below(hops: nat, d: Distance) {
    d.Infinite? || hops < d.hops
  }

  /** The test at lines 706-708 and 861-863: fresher, or as fresh and shorter. */
  predicate Better(e: Entry, seqno: nat, hops: nat) {
    seqno > e.seqno || (seqno == e.seqno && Below(hops, e.hops))
  }

  function RtUpdate(e: Entry, seqno: nat, hops: nat, nexthop: Addr, expire: real): Entry {
    e.(seqno := seqno, hops := Finite(hops), flags := Up, nexthop := nexthop, expire := expire)
  }

  function RtDown(e: Entry): Entry {
    if e.flags.Down? then e
    else e.(hops := Infinite, flags := Down, nexthop := 0, expire := 0.0)
  }

  // ---------------------------------------------------------------- handlers

  /** Lines 704-736: the reverse route; `renewed` when a request of our own was pending or
      packets were waiting, so that the route is in use at once. */
  function Reverse(e: Entry, m: Msg, now: real, renewed: bool): (r: Entry)
    requires m.Rreq?
    ensures EntryOk(e) && MsgOk(m) ==> EntryOk(r)
  {
    var e1 := e.(expire := MaxReal(e.expire, now + REV_ROUTE_LIFE));
    if !Better(e1, m.srcSeq, m.hops) then e1
    else
      RtUpdate(e1, m.srcSeq, m.hops, m.sender,
               if renewed then now + ACTIVE_ROUTE_TIMEOUT else MaxReal(e1.expire, now + REV_ROUTE_LIFE))
  }

  function ReplySeqno(seqno: nat, requested: nat): nat {
    var s := Max(seqno, requested) + 1;
    if s % 2 == 1 then s + 1 else s
  }

  function RecvRequest(n: Node, m: Msg, now: real, renewed: bool): (Node, Out)
    requires m.Rreq?
  {
    if m.src == n.index || (m.src, m.bid) in n.bcache then (n, Silent)
    else
      AnswerRequest(
        n.(bcache := n.bcache[(m.src, m.bid) := now + BCAST_ID_SAVE],
           table := n.table[m.src := Reverse(Lookup(n.table, m.src), m, now, renewed)]),
        m, now)
  }

  /** Lines 745-819. */
  function AnswerRequest(n: Node, m: Msg, now: real): (Node, Out)
    requires m.Rreq? && m.src in n.table
  {
    var back := n.table[m.src].nexthop;
    if m.dst == n.index then
      var s := ReplySeqno(n.seqno, m.dstSeq);
      (n.(seqno := s), Send(Rrep(n.index, m.src, back, n.index, s, 1, MY_ROUTE_TIMEOUT)))
    else if m.dst in n.table && n.table[m.dst].hops.Finite? && n.table[m.dst].seqno >= m.dstSeq then
      var e := n.table[m.dst];
      var t1 := n.table[m.dst := e.(precursors := e.precursors + {back})];
      var e0 := t1[m.src];
      (n.(table := t1[m.src := e0.(precursors := e0.precursors + {e.nexthop})]),
       Send(Rrep(n.index, m.src, back, m.dst, e.seqno, e.hops.hops + 1, (e.expire - now).Floor as real)))
    else
      var dstSeq := if m.dst in n.table then Max(n.table[m.dst].seqno, m.dstSeq) else m.dstSeq;
      (n, Send(Rreq(n.index, m.src, m.srcSeq, m.hops + 1, m.dst, dstSeq, m.bid)))
  }

  function Forward(e: Entry, m: Msg, now: real, buffered: bool): (r: Entry)
    requires m.Rrep? && Better(e, m.dstSeq, m.hops)
    ensures MsgOk(m) ==> EntryOk(r)
  {
    RtUpdate(e, m.dstSeq, m.hops, m.sender, if buffered then now + ACTIVE_ROUTE_TIMEOUT else now + m.lifetime)
  }

  function RecvReply(n: Node, m: Msg, now: real, buffered: bool): (Node, Out)
    requires m.Rrep?
  {
    var e := Lookup(n.table, m.dst);
    if !Better(e, m.dstSeq, m.hops) then (n.(table := n.table[m.dst := e]), Silent)
    else
      PassReply(n.(table := n.table[m.dst := Forward(e, m, now, buffered)]), m, now)
  }

  /** Lines 908-935: the reply travels on towards the request's source. */
  function PassReply(n: Node, m: Msg, now: real): (Node, Out)
    requires m.Rrep? && m.dst in n.table
  {
    if m.to == n.index || m.to !in n.table || n.table[m.to].hops.Infinite? then (n, Silent)
    else
      var back := n.table[m.to].nexthop;
      var t1 := n.table[m.to := n.table[m.to].(expire := now + ACTIVE_ROUTE_TIMEOUT)];
      var e1 := t1[m.dst];
      (n.(table := t1[m.dst := e1.(precursors := e1.precursors + {back})]),
       Send(Rrep(n.index, m.to, back, m.dst, m.dstSeq, m.hops + 1, m.lifetime)))
  }

  predicate Loses(e: Entry, via: Addr, lost: nat) {
    e.hops.Finite? && e.nexthop == via && e.seqno <= lost
  }

  function AfterError(e: Entry, via: Addr, lost: nat): Entry {
    if Loses(e, via, lost) then RtDown(e.(seqno := lost)).(precursors := {}) else e
  }

  // A sweep over the route table, part way: destinations in `todo` are still to be visited.

  function ErrorSweep(before: map<Addr, Entry>, m: Msg, todo: set<Addr>): map<Addr, Entry>
    requires m.Rerr?
  {
    map d | d in before ::
      if d in m.lost && d !in todo then AfterError(before[d], m.sender, m.lost[d]) else before[d]
  }

  function ErrorReport(before: map<Addr, Entry>, m: Msg, todo: set<Addr>): map<Addr, nat>
    requires m.Rerr?
  {
    map d | d in before && d in m.lost && d !in todo
            && Loses(before[d], m.sender, m.lost[d]) && before[d].precursors != {} :: m.lost[d]
  }

  function RecvError(n: Node, m: Msg): (Node, Out)
    requires m.Rerr?
  {
    var lost := ErrorReport(n.table, m, {});
    (n.(table := ErrorSweep(n.table, m, {})), if lost == map[] then Silent else Send(Rerr(n.index, lost)))
  }

  predicate Uses(e: Entry, id: Addr) {
    e.hops.Finite? && e.nexthop == id
  }

  function AfterFailure(e: Entry, id: Addr): Entry {
    var e1 := if Uses(e, id) then RtDown(e.(seqno := e.seqno + 1)) else e;
    e1.(precursors := e1.precursors - {id})
  }

  function FailureSweep(before: map<Addr, Entry>, id: Addr, todo: set<Addr>): map<Addr, Entry> {
    map d | d in before :: if d !in todo then AfterFailure(before[d], id) else before[d]
  }

  function FailureReport(before: map<Addr, Entry>, id: Addr, todo: set<Addr>): map<Addr, nat> {
    map d | d in before && d !in todo && Uses(before[d], id) :: before[d].seqno + 1
  }

  function HandleLinkFailure(n: Node, id: Addr): (Node, Out) {
    var lost := FailureReport(n.table, id, {});
    (n.(table := FailureSweep(n.table, id, {})), if lost == map[] then Silent else Send(Rerr(n.index, lost)))
  }

  function NbDelete(n: Node, id: Addr): (Node, Out) {
    HandleLinkFailure(n.(seqno := n.seqno + 2, neighbors := n.neighbors - {id}), id)
  }

  function AfterPurge(e: Entry, now: real, buffered: bool): Entry {
    if e.flags.Up? && e.expire < now then RtDown(e.(seqno := e.seqno + 1))
    else if e.flags.Up? && buffered then e.(expire := now + ACTIVE_ROUTE_TIMEOUT)
    else e
  }

  function PurgeSweep(before: map<Addr, Entry>, now: real, buffered: set<Addr>, todo: set<Addr>): map<Addr, Entry> {
    map d | d in before :: if d !in todo then AfterPurge(before[d], now, d in buffered) else before[d]
  }

  function RtPurge(n: Node, now: real, buffered: set<Addr>): Node {
    n.(table := PurgeSweep(n.table, now, buffered, {}))
  }

  /** sendRequest past its rate limiter, on a route that is down. */
  function SendRequest(n: Node, dst: Addr): (Node, Out)
    requires dst in n.table
  {
    if n.table[dst].flags.Up? then (n, Silent)
    else
      (n.(seqno := n.seqno + 2, bid := n.bid + 1, table := n.table[dst := n.table[dst].(expire := 0.0)]),
       Send(Rreq(n.index, n.index, n.seqno + 2, 1, dst, n.table[dst].seqno, n.bid)))
  }

  function RtResolve(n: Node, dst: Addr, mine: bool, granted: bool, now: real): (Node, Out) {
    var e := Lookup(n.table, dst);
    var n1 := n.(table := n.table[dst := e]);
    if e.flags.Up? then (n1.(table := n1.table[dst := e.(expire := now + ACTIVE_ROUTE_TIMEOUT)]), Silent)
    else if mine then
      if granted then SendRequest(n1, dst) else (n1, Silent)
    else if e.flags.InRepair? then (n1, Silent)
    else (n1, Send(Rerr(n.index, map[dst := e.seqno])))
  }

  // What the source asserts of the routes a handler takes down, or sends a reply along.

  predicate UpAndEven(e: Entry) {
    e.flags.Up? && e.seqno % 2 == 0
  }

  /** Lines 358-359 of handle_link_failure. */
  predicate FailureAsserts(n: Node, id: Addr) {
    forall d | d in n.table && Uses(n.table[d], id) :: UpAndEven(n.table[d])
  }

  /** Lines 956-957 of recvError. */
  predicate ErrorAsserts(n: Node, m: Msg)
    requires m.Rerr?
  {
    forall d | d in n.table && d in m.lost && Loses(n.table[d], m.sender, m.lost[d]) :: UpAndEven(n.table[d])
  }

  /** Line 919 of recvReply, once the reply has been taken. */
  predicate ReplyAsserts(n: Node, m: Msg)
    requires m.Rrep?
  {
    && Better(Lookup(n.table, m.dst), m.dstSeq, m.hops)
    && m.to != n.index && m.to != m.dst && m.to in n.table
    && n.table[m.to].hops.Finite? ==>
      n.table[m.to].flags.Up?
  }

  function SendHello(n: Node): Out {
    Send(Hello(n.index, n.seqno))
  }

  function RecvHello(n: Node, m: Msg, now: real): Node
    requires m.Hello?
  {
    n.(neighbors := n.neighbors[m.sender := now + NEIGHBOR_LIFE],
       seqno := if m.sender in n.neighbors then n.seqno else n.seqno + 2)
  }

  function IdPurge(n: Node, now: real): Node {
    n.(bcache := map k | k in n.bcache && n.bcache[k] > now :: n.bcache[k])
  }

  // ---------------------------------------------------------------- local repair

  /** local_rt_repair: the route is marked, and a request for it goes out if the rate limiter
      lets it. */
  function RepairStart(n: Node, dst: Addr, granted: bool): (Node, Out)
    requires dst in n.table
  {
    var n1 := n.(table := n.table[dst := n.table[dst].(flags := InRepair)]);
    if granted then SendRequest(n1, dst) else (n1, Silent)
  }

  /** LocalRepairTimer::handle: a route that is not up goes down, its number as it is. */
  function RepairTimeout(n: Node, dst: Addr): Node {
    if dst in n.table && !n.table[dst].flags.Up? then n.(table := n.table[dst := RtDown(n.table[dst])]) else n
  }
}
