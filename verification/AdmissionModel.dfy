/**
 * Two-phase admission on values: what one link does to each signalling packet, the life of a
 * flow's handshake along its path, and the network of links and flows.
 */
module AdmissionModel {
  const NFLOWS := 500

  datatype Kind = Request | Accept | Reject | Confirm | Teardown

  datatype Packet = Packet(kind: Kind, flow: int, rate: real, decision: bool)

  /** `pending` holds the flow ids whose fate is not yet known, -1 in free slots; `cap` is
      utilization times bandwidth. */
  datatype Link = Link(cap: real, resv: real, pending: seq<int>, numfl: int)

  /** The first slot that holds `id`, |p| if none does. */
  function Find(p: seq<int>, id: int): (k: nat)
    ensures k <= |p| && (k < |p| ==> p[k] == id)
    ensures forall i | 0 <= i < k :: p[i] != id
  {
    if p == [] || p[0] == id then 0 else 1 + Find(p[1..], id)
  }

  /** A link about to admit a flow needs a free slot: the program stops without one. */
  predicate Room(l: Link) {
    Find(l.pending, -1) < |l.pending|
  }

  function Admits(l: Link, rate: real): bool {
    l.resv + rate <= l.cap
  }

  /** SALink::recv: the new state of the link, and the packet it passes on. */
  function Recv(l: Link, p: Packet): (Link, Packet)
    requires p.kind == Request && Admits(l, p.rate) ==> Room(l)
  {
    match p.kind
    case Request =>
      if Admits(l, p.rate) then
        (Link(l.cap, l.resv + p.rate, l.pending[Find(l.pending, -1) := p.flow], l.numfl + 1), p)
      else (l, p.(decision := false))
    case Confirm =>
      var j := Find(l.pending, p.flow);
      if j == |l.pending| then (l, p)
      else if p.decision then (l.(pending := l.pending[j := -1]), p)
      else (Link(l.cap, l.resv - p.rate, l.pending[j := -1], l.numfl - 1), p)
    case Teardown => (l.(resv := l.resv - p.rate, numfl := l.numfl - 1), p)
    case Accept => (l, p)
    case Reject => (l, p)
  }

  // ---------------------------------------------------------------- flows

  /** A flow's handshake. `Requesting(k, d)`: the REQUEST has passed k links and carries decision
      d. `Answered(d)`: it has reached the receiver. `Rejecting(k)`: the CONFIRM of a rejected flow
      has passed k links. `Accepted(k, t, s)`: the CONFIRM of an accepted flow has passed k links
      and its TEARDOWN t; s says whether the source has stopped. */
  datatype Phase =
    | Idle
    | Requesting(k: nat, decision: bool)
    | Answered(decision: bool)
    | Rejecting(k: nat)
    | Accepted(k: nat, t: nat, stopped: bool)

  /** The REQUEST has been at link j of the path and the CONFIRM has not. */
  predicate InDoubt(ph: Phase, j: nat) {
    match ph
    case Idle => false
    case Requesting(k, _) => j < k
    case Answered(_) => true
    case Rejecting(k) => j >= k
    case Accepted(k, _, _) => j >= k
  }

  /** The flow holds its rate at link j for certain. */
  predicate Sure(ph: Phase, j: nat) {
    ph.Accepted? && ph.t <= j < ph.k
  }

  type FlowId = f: int | f >= 0

  datatype Config = Config(path: map<FlowId, seq<int>>, rate: map<FlowId, real>)

  datatype Net = Net(links: map<int, Link>, flows: map<FlowId, Phase>)

  predicate ConfigOk(c: Config) {
    && c.rate.Keys == c.path.Keys
    && (forall f | f in c.rate :: c.rate[f] >= 0.0)
    && (forall f | f in c.path :: forall i, j | 0 <= i < j < |c.path[f]| :: c.path[f][i] != c.path[f][j])
  }

  /** Where link l stands on a path. */
  function Pos(path: seq<int>, l: int): (k: nat)
    ensures k <= |path| && (k < |path| <==> l in path) && (k < |path| ==> path[k] == l)
  {
    if path == [] || path[0] == l then 0 else 1 + Pos(path[1..], l)
  }

  /** Flow f holds its rate at link l. */
  predicate Holds(c: Config, flows: map<FlowId, Phase>, l: int, link: Link, f: FlowId)
    requires f in flows && f in c.path
  {
    && l in c.path[f]
    && (var j := Pos(c.path[f], l); Sure(flows[f], j) || (InDoubt(flows[f], j) && f in link.pending))
  }

  function Holders(c: Config, flows: map<FlowId, Phase>, l: int, link: Link): set<FlowId>
    requires flows.Keys <= c.path.Keys
  {
    set f | f in flows && Holds(c, flows, l, link, f)
  }

  /** The sum of the rates of a set of flows. */
  ghost function Sum(rate: map<FlowId, real>, s: set<FlowId>): real
    requires s <= rate.Keys
  {
    if s == {} then 0.0 else var f :| f in s; rate[f] + Sum(rate, s - {f})
  }

  lemma {:induction false} SumAdd(rate: map<FlowId, real>, s: set<FlowId>, f: FlowId)
    requires s <= rate.Keys && f in rate && f !in s
    ensures Sum(rate, s + {f}) == Sum(rate, s) + rate[f]
    decreases |s|
  {
    var t := s + {f};
    var g :| g in t && Sum(rate, t) == rate[g] + Sum(rate, t - {g});
    if g == f {
      assert t - {g} == s;
    } else {
      SumAdd(rate, s - {g}, f);
      assert t - {g} == (s - {g}) + {f};
      SumAdd(rate, s - {g}, g);
      assert (s - {g}) + {g} == s;
    }
  }

  lemma {:induction false} SumNonNegative(rate: map<FlowId, real>, s: set<FlowId>)
    requires s <= rate.Keys && forall f | f in rate :: rate[f] >= 0.0
    ensures Sum(rate, s) >= 0.0
    decreases |s|
  {
    if s != {} {
      var f :| f in s && Sum(rate, s) == rate[f] + Sum(rate, s - {f});
      SumNonNegative(rate, s - {f});
    }
  }

  // ---------------------------------------------------------------- the network

  datatype Event =
    | Start(f: FlowId)
    | AtLink(f: FlowId)       // REQUEST or CONFIRM at its next link
    | Answer(f: FlowId)       // REQUEST at the receiver
    | Turn(f: FlowId)         // ACCEPT or REJECT at the source
    | Done(f: FlowId)         // CONFIRM of a rejected flow, or TEARDOWN, past the last link
    | Stop(f: FlowId)         // the source tears the flow down
    | TeardownAt(f: FlowId)   // TEARDOWN at its next link

  /** The packet of a flow at the next link of its path. */
  function NextPacket(c: Config, f: FlowId, ph: Phase): Packet
    requires f in c.rate && (ph.Requesting? || ph.Rejecting? || ph.Accepted?)
  {
    match ph
    case Requesting(_, d) => Packet(Request, f, c.rate[f], d)
    case Rejecting(_) => Packet(Confirm, f, c.rate[f], false)
    case Accepted(_, _, _) => Packet(Confirm, f, c.rate[f], true)
  }

  /** The phase once that packet has left the link. */
  function Passed(ph: Phase, p: Packet): Phase
    requires ph.Requesting? || ph.Rejecting? || ph.Accepted?
  {
    match ph
    case Requesting(k, _) => Requesting(k + 1, p.decision)
    case Rejecting(k) => Rejecting(k + 1)
    case Accepted(k, t, s) => Accepted(k + 1, t, s)
  }

  predicate Enabled(c: Config, n: Net, e: Event) {
    e.f in n.flows && e.f in c.path && e.f in c.rate &&
    var ph, path := n.flows[e.f], c.path[e.f];
    match e
    case Start(_) => ph == Idle
    case AtLink(_) =>
      && (ph.Requesting? || ph.Rejecting? || ph.Accepted?) && ph.k < |path| && path[ph.k] in n.links
      && (ph.Requesting? && Admits(n.links[path[ph.k]], c.rate[e.f]) ==> Room(n.links[path[ph.k]]))
    case Answer(_) => ph.Requesting? && ph.k == |path|
    case Turn(_) => ph.Answered?
    case Done(_) => (ph.Rejecting? && ph.k == |path|) || (ph.Accepted? && ph.stopped && ph.t == |path|)
    case Stop(_) => ph.Accepted? && !ph.stopped
    case TeardownAt(_) => ph.Accepted? && ph.stopped && ph.t < ph.k <= |path| && path[ph.t] in n.links
  }

  function Step(c: Config, n: Net, e: Event): Net
    requires Enabled(c, n, e)
  {
    var ph, path := n.flows[e.f], c.path[e.f];
    match e
    case Start(f) => n.(flows := n.flows[f := Requesting(0, true)])
    case AtLink(f) =>
      var (link, p) := Recv(n.links[path[ph.k]], NextPacket(c, f, ph));
      Net(n.links[path[ph.k] := link], n.flows[f := Passed(ph, p)])
    case Answer(f) => n.(flows := n.flows[f := Answered(ph.decision)])
    case Turn(f) => n.(flows := n.flows[f := if ph.decision then Accepted(0, 0, false) else Rejecting(0)])
    case Done(f) => n.(flows := n.flows[f := Idle])
    case Stop(f) => n.(flows := n.flows[f := ph.(stopped := true)])
    case TeardownAt(f) =>
      var link := Recv(n.links[path[ph.t]], Packet(Teardown, f, c.rate[f], true)).0;
      Net(n.links[path[ph.t] := link], n.flows[f := ph.(t := ph.t + 1)])
  }

  predicate Runs(c: Config, n: Net, es: seq<Event>)
    decreases |es|
  {
    es == [] || (Enabled(c, n, es[0]) && Runs(c, Step(c, n, es[0]), es[1..]))
  }

  function Run(c: Config, n: Net, es: seq<Event>): Net
    requires Runs(c, n, es)
    decreases |es|
  {
    if es == [] then n else Run(c, Step(c, n, es[0]), es[1..])
  }
}
