/**
 * Conservation and all-or-nothing reservation over every run of the admission handshake, with any
 * interleaving of the flows' packets.
 */
module AdmissionNetwork {
  import opened AdmissionModel

  // ---------------------------------------------------------------- the invariant

  predicate SlotsOk(p: seq<int>) {
    && |p| == NFLOWS
    && forall i, j | 0 <= i < j < |p| :: p[i] == p[j] ==> p[i] == -1
  }

  /** A pending entry belongs to a flow whose fate is open at this link. */
  predicate PendingOk(c: Config, flows: map<FlowId, Phase>, l: int, p: seq<int>)
    requires flows.Keys <= c.path.Keys
  {
    forall f: FlowId | f in p :: f in flows && l in c.path[f] && InDoubt(flows[f], Pos(c.path[f], l))
  }

  /** The link's reserved rate is the sum over its holders, within its capacity. */
  ghost predicate Accounted(c: Config, link: Link, holders: set<FlowId>)
    requires holders <= c.rate.Keys
  {
    link.resv == Sum(c.rate, holders) && link.resv <= link.cap && link.numfl == |holders| - 1
  }

  ghost predicate LinkOk(c: Config, flows: map<FlowId, Phase>, l: int, link: Link)
    requires flows.Keys <= c.path.Keys && c.path.Keys == c.rate.Keys
  {
    && SlotsOk(link.pending) && PendingOk(c, flows, l, link.pending)
    && Accounted(c, link, Holders(c, flows, l, link))
  }

  predicate PendingAt(n: Net, path: seq<int>, f: FlowId, j: nat)
    requires j < |path|
  {
    path[j] in n.links && f in n.links[path[j]].pending
  }

  /** The carried decision is the conjunction of what the links so far decided, and each link
      that admitted keeps its pending entry until the CONFIRM passes. */
  predicate FlowOk(n: Net, path: seq<int>, f: FlowId, ph: Phase) {
    && (forall l | l in path :: l in n.links)
    && match ph
       case Idle => true
       case Requesting(k, d) => k <= |path| && (d <==> forall j | 0 <= j < k :: PendingAt(n, path, f, j))
       case Answered(d) => d <==> forall j | 0 <= j < |path| :: PendingAt(n, path, f, j)
       case Rejecting(k) => k <= |path|
       case Accepted(k, t, s) => t <= k <= |path| && (t > 0 ==> s) && forall j | k <= j < |path| :: PendingAt(n, path, f, j)
  }

  ghost predicate NetOk(c: Config, n: Net) {
    && ConfigOk(c) && n.flows.Keys <= c.path.Keys
    && (forall f | f in n.flows :: FlowOk(n, c.path[f], f, n.flows[f]))
    && (forall l | l in n.links :: LinkOk(c, n.flows, l, n.links[l]))
  }

  // ---------------------------------------------------------------- the pending table

  lemma Entered(p: seq<int>, f: FlowId)
    requires SlotsOk(p) && f !in p && Find(p, -1) < |p|
    ensures var p' := p[Find(p, -1) := f]; SlotsOk(p') && forall g: FlowId :: g in p' <==> g in p || g == f
  {
    var j := Find(p, -1);
    var p' := p[j := f];
    forall g: FlowId
      ensures g in p' <==> g in p || g == f
    {
      if g in p {
        var i :| 0 <= i < |p| && p[i] == g;
        assert p'[i] == g;
      }
      assert p'[j] == f;
    }
  }

  lemma Removed(p: seq<int>, f: FlowId)
    requires SlotsOk(p) && Find(p, f) < |p|
    ensures var p' := p[Find(p, f) := -1]; SlotsOk(p') && forall g: FlowId :: g in p' <==> g in p && g != f
  {
    var j := Find(p, f);
    var p' := p[j := -1];
    forall g: FlowId
      ensures g in p' <==> g in p && g != f
    {
      if g in p && g != f {
        var i :| 0 <= i < |p| && p[i] == g;
        assert p'[i] == g;
      }
      if g in p' {
        var i :| 0 <= i < |p'| && p'[i] == g;
        assert i != j;
      }
    }
  }

  lemma FindIs(p: seq<int>, f: int)
    ensures f in p <==> Find(p, f) < |p|
  {
  }

  // ---------------------------------------------------------------- one link, one flow

  /** A flow changes phase without changing its standing at link l: nothing changes there. */
  lemma StandingKept(c: Config, flows: map<FlowId, Phase>, f: FlowId, ph: Phase, l: int, link: Link)
    requires ConfigOk(c) && flows.Keys <= c.path.Keys && f in flows && LinkOk(c, flows, l, link)
    requires l in c.path[f] ==> var j := Pos(c.path[f], l);
               Sure(ph, j) == Sure(flows[f], j) && InDoubt(ph, j) == InDoubt(flows[f], j)
    ensures LinkOk(c, flows[f := ph], l, link)
  {
    assert Holders(c, flows[f := ph], l, link) == Holders(c, flows, l, link);
  }

  /** The pending entries of every flow but f agree. */
  ghost predicate SameOthers(p: seq<int>, p': seq<int>, f: FlowId) {
    forall g: FlowId | g != f :: g in p <==> g in p'
  }

  /** What remains to be known about flow f after it has changed a link: whether it holds. */
  lemma HoldersAfter(c: Config, flows: map<FlowId, Phase>, f: FlowId, ph: Phase, l: int, link: Link, link': Link)
    requires flows.Keys <= c.path.Keys && f in flows && SameOthers(link.pending, link'.pending, f)
    ensures var now := flows[f := ph];
            Holders(c, now, l, link') == if Holds(c, now, l, link', f) then Holders(c, flows, l, link) + {f}
                                         else Holders(c, flows, l, link) - {f}
  {
  }

  lemma PendingAfter(c: Config, flows: map<FlowId, Phase>, f: FlowId, ph: Phase, l: int, p: seq<int>, p': seq<int>)
    requires flows.Keys <= c.path.Keys && f in flows && PendingOk(c, flows, l, p) && SameOthers(p, p', f)
    requires f in p' ==> l in c.path[f] && InDoubt(ph, Pos(c.path[f], l))
    ensures PendingOk(c, flows[f := ph], l, p')
  {
  }

  /** A flow that did not hold now does, and the link has counted it. */
  lemma Gains(c: Config, link: Link, link': Link, h: set<FlowId>, f: FlowId)
    requires h <= c.rate.Keys && f in c.rate && f !in h && Accounted(c, link, h)
    requires link' == link.(resv := link.resv + c.rate[f], numfl := link.numfl + 1, pending := link'.pending)
    requires link'.resv <= link'.cap
    ensures Accounted(c, link', h + {f})
  {
    SumAdd(c.rate, h, f);
  }

  /** A flow that held no longer does, and the link has released it. */
  lemma Loses(c: Config, link: Link, link': Link, h: set<FlowId>, f: FlowId)
    requires ConfigOk(c) && h <= c.rate.Keys && f in h && Accounted(c, link, h)
    requires link' == link.(resv := link.resv - c.rate[f], numfl := link.numfl - 1, pending := link'.pending)
    ensures Accounted(c, link', h - {f})
  {
    SumAdd(c.rate, h - {f}, f);
    assert (h - {f}) + {f} == h;
  }

  /** Position of a link on a path without repetitions. */
  lemma PosOf(path: seq<int>, k: nat)
    requires k < |path| && forall i, j | 0 <= i < j < |path| :: path[i] != path[j]
    ensures Pos(path, path[k]) == k
  {
  }

  /** A REQUEST at its next link keeps that link's books. */
  lemma RequestLink(c: Config, flows: map<FlowId, Phase>, f: FlowId, l: int, link: Link)
    requires ConfigOk(c) && flows.Keys <= c.path.Keys && f in flows && LinkOk(c, flows, l, link)
    requires flows[f].Requesting? && flows[f].k < |c.path[f]| && l == c.path[f][flows[f].k]
    requires Admits(link, c.rate[f]) ==> Room(link)
    ensures var (link', p) := Recv(link, NextPacket(c, f, flows[f]));
            && LinkOk(c, flows[f := Passed(flows[f], p)], l, link')
            && SameOthers(link.pending, link'.pending, f) && (f in link'.pending <==> Admits(link, c.rate[f]))
            && p.decision == (flows[f].decision && Admits(link, c.rate[f]))
  {
    var (link', p) := Recv(link, NextPacket(c, f, flows[f]));
    var ph := Requesting(flows[f].k + 1, p.decision);
    PosOf(c.path[f], flows[f].k);
    if Admits(link, c.rate[f]) {
      Entered(link.pending, f);
    }
    HoldersAfter(c, flows, f, ph, l, link, link');
    PendingAfter(c, flows, f, ph, l, link.pending, link'.pending);
    var h := Holders(c, flows, l, link);
    assert f !in h;
    if Admits(link, c.rate[f]) {
      Gains(c, link, link', h, f);
    } else {
      assert h - {f} == h;
    }
  }

  /** The CONFIRM of an accepted flow at its next link: the reservation becomes firm. */
  lemma AcceptLink(c: Config, flows: map<FlowId, Phase>, f: FlowId, l: int, link: Link)
    requires ConfigOk(c) && flows.Keys <= c.path.Keys && f in flows && LinkOk(c, flows, l, link)
    requires flows[f].Accepted? && flows[f].t <= flows[f].k && f in link.pending
    requires flows[f].k < |c.path[f]| && l == c.path[f][flows[f].k]
    ensures var (link', p) := Recv(link, NextPacket(c, f, flows[f]));
            && LinkOk(c, flows[f := Passed(flows[f], p)], l, link')
            && SameOthers(link.pending, link'.pending, f) && f !in link'.pending
  {
    var (link', p) := Recv(link, NextPacket(c, f, flows[f]));
    var ph := Passed(flows[f], p);
    PosOf(c.path[f], flows[f].k);
    FindIs(link.pending, f);
    Removed(link.pending, f);
    HoldersAfter(c, flows, f, ph, l, link, link');
    PendingAfter(c, flows, f, ph, l, link.pending, link'.pending);
    var h := Holders(c, flows, l, link);
    assert f in h && h + {f} == h;
  }

  /** The CONFIRM of a rejected flow at its next link: rolled back if the link had admitted. */
  lemma RejectLink(c: Config, flows: map<FlowId, Phase>, f: FlowId, l: int, link: Link)
    requires ConfigOk(c) && flows.Keys <= c.path.Keys && f in flows && LinkOk(c, flows, l, link)
    requires flows[f].Rejecting? && flows[f].k < |c.path[f]| && l == c.path[f][flows[f].k]
    ensures var (link', p) := Recv(link, NextPacket(c, f, flows[f]));
            && LinkOk(c, flows[f := Passed(flows[f], p)], l, link')
            && SameOthers(link.pending, link'.pending, f) && f !in link'.pending
  {
    var (link', p) := Recv(link, NextPacket(c, f, flows[f]));
    var ph := Passed(flows[f], p);
    PosOf(c.path[f], flows[f].k);
    FindIs(link.pending, f);
    if f in link.pending {
      Removed(link.pending, f);
    }
    HoldersAfter(c, flows, f, ph, l, link, link');
    PendingAfter(c, flows, f, ph, l, link.pending, link'.pending);
    var h := Holders(c, flows, l, link);
    assert f in h <==> f in link.pending;
    if f in link.pending {
      Loses(c, link, link', h, f);
    } else {
      assert h - {f} == h;
    }
  }

  /** A TEARDOWN at its next link releases what the flow held. */
  lemma TeardownLink(c: Config, flows: map<FlowId, Phase>, f: FlowId, ph: Phase, l: int, link: Link, link': Link)
    requires ConfigOk(c) && flows.Keys <= c.path.Keys && f in flows && LinkOk(c, flows, l, link)
    requires flows[f].Accepted? && flows[f].t < flows[f].k && flows[f].t < |c.path[f]| && l == c.path[f][flows[f].t]
    requires link' == Recv(link, Packet(Teardown, f, c.rate[f], true)).0 && ph == flows[f].(t := flows[f].t + 1)
    ensures LinkOk(c, flows[f := ph], l, link') && SameOthers(link.pending, link'.pending, f)
  {
    PosOf(c.path[f], flows[f].t);
    HoldersAfter(c, flows, f, ph, l, link, link');
    PendingAfter(c, flows, f, ph, l, link.pending, link'.pending);
    var h := Holders(c, flows, l, link);
    assert f in h;
    Loses(c, link, link', h, f);
  }

  // ---------------------------------------------------------------- one step of the network

  /** The two phases differ at link l at most. */
  predicate SameElsewhere(path: seq<int>, l: int, ph: Phase, ph': Phase) {
    forall j | 0 <= j < |path| && path[j] != l :: Sure(ph', j) == Sure(ph, j) && InDoubt(ph', j) == InDoubt(ph, j)
  }

  lemma PassedElsewhere(path: seq<int>, ph: Phase, p: Packet)
    requires (ph.Requesting? || ph.Rejecting? || (ph.Accepted? && ph.t <= ph.k)) && ph.k < |path|
    ensures SameElsewhere(path, path[ph.k], ph, Passed(ph, p))
  {
  }

  lemma TornElsewhere(path: seq<int>, ph: Phase)
    requires ph.Accepted? && ph.t < ph.k && ph.t < |path|
    ensures SameElsewhere(path, path[ph.t], ph, ph.(t := ph.t + 1))
  {
  }

  /** The rest of the network when flow f changes phase and one link's books are redone. */
  lemma OneLink(c: Config, n: Net, f: FlowId, ph: Phase, l: int, link': Link)
    requires NetOk(c, n) && f in n.flows && l in n.links
    requires LinkOk(c, n.flows[f := ph], l, link') && SameOthers(n.links[l].pending, link'.pending, f)
    requires SameElsewhere(c.path[f], l, n.flows[f], ph)
    requires FlowOk(Net(n.links[l := link'], n.flows[f := ph]), c.path[f], f, ph)
    ensures NetOk(c, Net(n.links[l := link'], n.flows[f := ph]))
  {
    var n' := Net(n.links[l := link'], n.flows[f := ph]);
    forall m | m in n'.links
      ensures LinkOk(c, n'.flows, m, n'.links[m])
    {
      if m != l {
        StandingKept(c, n.flows, f, ph, m, n.links[m]);
      }
    }
    forall g | g in n'.flows
      ensures FlowOk(n', c.path[g], g, n'.flows[g])
    {
      if g != f {
        OtherFlow(n, n', c.path[g], g, n.flows[g], l, f);
      }
    }
  }

  lemma OtherFlow(n: Net, n': Net, path: seq<int>, g: FlowId, ph: Phase, l: int, f: FlowId)
    requires FlowOk(n, path, g, ph) && g != f && l in n.links && n'.links.Keys == n.links.Keys
    requires forall m | m in n.links && m != l :: n'.links[m] == n.links[m]
    requires SameOthers(n.links[l].pending, n'.links[l].pending, f)
    ensures FlowOk(n', path, g, ph)
  {
    forall j | 0 <= j < |path|
      ensures PendingAt(n', path, g, j) == PendingAt(n, path, g, j)
    {
    }
  }

  /** A change of phase that leaves the flow's standing at every link as it is. */
  lemma NoLink(c: Config, n: Net, f: FlowId, ph: Phase)
    requires NetOk(c, n) && f in n.flows && FlowOk(n, c.path[f], f, ph)
    requires forall j | 0 <= j < |c.path[f]| :: Sure(ph, j) == Sure(n.flows[f], j) && InDoubt(ph, j) == InDoubt(n.flows[f], j)
    ensures NetOk(c, n.(flows := n.flows[f := ph]))
  {
    var n' := n.(flows := n.flows[f := ph]);
    forall l | l in n.links
      ensures LinkOk(c, n'.flows, l, n.links[l])
    {
      StandingKept(c, n.flows, f, ph, l, n.links[l]);
    }
    forall g | g in n'.flows
      ensures FlowOk(n', c.path[g], g, n'.flows[g])
    {
      assert forall j | 0 <= j < |c.path[g]| :: PendingAt(n', c.path[g], g, j) == PendingAt(n, c.path[g], g, j);
    }
  }

  /** The decision carried past one more link. */
  lemma RequestFlow(n: Net, n': Net, path: seq<int>, f: FlowId, ph: Phase, admitted: bool)
    requires FlowOk(n, path, f, ph) && ph.Requesting? && ph.k < |path| && n.links.Keys == n'.links.Keys
    requires forall j | 0 <= j < ph.k :: PendingAt(n', path, f, j) == PendingAt(n, path, f, j)
    requires PendingAt(n', path, f, ph.k) == admitted
    ensures FlowOk(n', path, f, Requesting(ph.k + 1, ph.decision && admitted))
  {
  }

  lemma RequestStep(c: Config, n: Net, f: FlowId)
    requires NetOk(c, n) && Enabled(c, n, AtLink(f)) && n.flows[f].Requesting?
    ensures NetOk(c, Step(c, n, AtLink(f)))
  {
    var ph, path := n.flows[f], c.path[f];
    var l := path[ph.k];
    var (link', p) := Recv(n.links[l], NextPacket(c, f, ph));
    var ph', n' := Passed(ph, p), Step(c, n, AtLink(f));
    RequestLink(c, n.flows, f, l, n.links[l]);
    PassedElsewhere(path, ph, p);
    assert n' == Net(n.links[l := link'], n.flows[f := ph']);
    assert FlowOk(n', path, f, ph') by {
      RequestFlow(n, n', path, f, ph, Admits(n.links[l], c.rate[f]));
    }
    OneLink(c, n, f, ph', l, link');
  }

  lemma ConfirmStep(c: Config, n: Net, f: FlowId)
    requires NetOk(c, n) && Enabled(c, n, AtLink(f)) && !n.flows[f].Requesting?
    ensures NetOk(c, Step(c, n, AtLink(f)))
  {
    var ph, path := n.flows[f], c.path[f];
    var l := path[ph.k];
    var (link', p) := Recv(n.links[l], NextPacket(c, f, ph));
    var ph', n' := Passed(ph, p), Step(c, n, AtLink(f));
    if ph.Accepted? {
      assert PendingAt(n, path, f, ph.k);
      AcceptLink(c, n.flows, f, l, n.links[l]);
    } else {
      RejectLink(c, n.flows, f, l, n.links[l]);
    }
    assert forall j | ph.k < j < |path| :: PendingAt(n', path, f, j) == PendingAt(n, path, f, j);
    PassedElsewhere(path, ph, p);
    OneLink(c, n, f, ph', l, link');
  }

  lemma TeardownFlow(n: Net, n': Net, path: seq<int>, f: FlowId, ph: Phase)
    requires FlowOk(n, path, f, ph) && ph.Accepted? && ph.stopped && ph.t < ph.k && n.links.Keys == n'.links.Keys
    requires forall j | 0 <= j < |path| :: PendingAt(n', path, f, j) == PendingAt(n, path, f, j)
    ensures FlowOk(n', path, f, Accepted(ph.k, ph.t + 1, true))
  {
  }

  lemma TeardownStep(c: Config, n: Net, f: FlowId)
    requires NetOk(c, n) && Enabled(c, n, TeardownAt(f))
    ensures NetOk(c, Step(c, n, TeardownAt(f)))
  {
    var ph, path := n.flows[f], c.path[f];
    var l := path[ph.t];
    var link' := Recv(n.links[l], Packet(Teardown, f, c.rate[f], true)).0;
    var ph', n' := ph.(t := ph.t + 1), Step(c, n, TeardownAt(f));
    TeardownLink(c, n.flows, f, ph', l, n.links[l], link');
    TornElsewhere(path, ph);
    assert n' == Net(n.links[l := link'], n.flows[f := ph']);
    assert FlowOk(n', path, f, ph') by {
      TeardownFlow(n, n', path, f, ph);
    }
    OneLink(c, n, f, ph', l, link');
  }

  /** Every step keeps the invariant. */
  lemma StepKeeps(c: Config, n: Net, e: Event)
    requires NetOk(c, n) && Enabled(c, n, e)
    ensures NetOk(c, Step(c, n, e))
  {
    var f := e.f;
    var ph, path := n.flows[f], c.path[f];
    var n' := Step(c, n, e);
    match e
    case AtLink(_) =>
      if ph.Requesting? {
        RequestStep(c, n, f);
      } else {
        ConfirmStep(c, n, f);
      }
    case TeardownAt(_) => TeardownStep(c, n, f);
    case Start(_) => NoLink(c, n, f, n'.flows[f]);
    case Answer(_) =>
      assert forall j | 0 <= j < |path| :: PendingAt(n', path, f, j) == PendingAt(n, path, f, j);
      NoLink(c, n, f, n'.flows[f]);
    case Turn(_) =>
      assert forall j | 0 <= j < |path| :: PendingAt(n', path, f, j) == PendingAt(n, path, f, j);
      NoLink(c, n, f, n'.flows[f]);
    case Done(_) => NoLink(c, n, f, n'.flows[f]);
    case Stop(_) => NoLink(c, n, f, n'.flows[f]);
  }

  lemma {:induction false} RunKeeps(c: Config, n: Net, es: seq<Event>)
    requires NetOk(c, n) && Runs(c, n, es)
    ensures NetOk(c, Run(c, n, es))
    decreases |es|
  {
    if es != [] {
      StepKeeps(c, n, es[0]);
      RunKeeps(c, Step(c, n, es[0]), es[1..]);
    }
  }

  // ---------------------------------------------------------------- the theorems

  /** Before anything happens: nothing reserved, nothing pending, every flow idle. */
  ghost predicate Initial(c: Config, n: Net) {
    && ConfigOk(c) && n.flows.Keys <= c.path.Keys
    && (forall f | f in n.flows :: n.flows[f] == Idle && forall l | l in c.path[f] :: l in n.links)
    && (forall l | l in n.links ::
          n.links[l].cap >= 0.0 && n.links[l].resv == 0.0 && n.links[l].numfl == -1
          && n.links[l].pending == seq(NFLOWS, i => -1))
  }

  lemma InitialOk(c: Config, n: Net)
    requires Initial(c, n)
    ensures NetOk(c, n)
  {
  }

  /** Conservation: in every reachable state each link has reserved exactly the sum of the rates
      of the flows that hold it, and no more than its capacity. */
  lemma Conservation(c: Config, n: Net, es: seq<Event>, l: int)
    requires Initial(c, n) && Runs(c, n, es) && l in Run(c, n, es).links
    ensures var n' := Run(c, n, es);
            && n'.flows.Keys <= c.rate.Keys
            && n'.links[l].resv == Sum(c.rate, Holders(c, n'.flows, l, n'.links[l]))
            && 0.0 <= n'.links[l].resv <= n'.links[l].cap
            && n'.links[l].numfl == |Holders(c, n'.flows, l, n'.links[l])| - 1
  {
    InitialOk(c, n);
    RunKeeps(c, n, es);
    var n' := Run(c, n, es);
    SumNonNegative(c.rate, Holders(c, n'.flows, l, n'.links[l]));
  }

  /** All or nothing: once the CONFIRM of a flow has passed its whole path, every link holds its
      rate if it was accepted and has not begun to tear down, and none if it was rejected. */
  lemma AllOrNothing(c: Config, n: Net, es: seq<Event>, f: FlowId, l: int)
    requires Initial(c, n) && Runs(c, n, es) && f in Run(c, n, es).flows && f in c.path && l in c.path[f]
    ensures var n' := Run(c, n, es);
            l in n'.links &&
            var ph := n'.flows[f];
            && (ph == Accepted(|c.path[f]|, 0, ph.Accepted? && ph.stopped) ==> Holds(c, n'.flows, l, n'.links[l], f))
            && (ph == Idle || ph == Rejecting(|c.path[f]|) ==> !Holds(c, n'.flows, l, n'.links[l], f) && f !in n'.links[l].pending)
  {
    InitialOk(c, n);
    RunKeeps(c, n, es);
    var n' := Run(c, n, es);
    assert FlowOk(n', c.path[f], f, n'.flows[f]);
    assert PendingOk(c, n'.flows, l, n'.links[l].pending);
  }

  /** The decision that reaches the source is that of the whole path: it is positive exactly when
      every link has admitted the flow. */
  lemma DecisionIsJoint(c: Config, n: Net, es: seq<Event>, f: FlowId)
    requires Initial(c, n) && Runs(c, n, es) && f in Run(c, n, es).flows && f in c.path && Run(c, n, es).flows[f].Answered?
    ensures var n' := Run(c, n, es);
            n'.flows[f].decision <==> forall l | l in c.path[f] :: l in n'.links && Holds(c, n'.flows, l, n'.links[l], f)
  {
    InitialOk(c, n);
    RunKeeps(c, n, es);
    var n', path := Run(c, n, es), c.path[f];
    assert FlowOk(n', path, f, n'.flows[f]);
    forall j | 0 <= j < |path|
      ensures path[j] in n'.links && (PendingAt(n', path, f, j) <==> Holds(c, n'.flows, path[j], n'.links[path[j]], f))
    {
      assert path[j] in path;
    }
    if forall l | l in path :: l in n'.links && Holds(c, n'.flows, l, n'.links[l], f) {
      forall j | 0 <= j < |path|
        ensures PendingAt(n', path, f, j)
      {
        assert path[j] in path;
      }
    }
  }

  /** Nothing leaks: when every flow is idle again, nothing is reserved and no slot is taken. */
  lemma NothingLeaks(c: Config, n: Net, es: seq<Event>, l: int)
    requires Initial(c, n) && Runs(c, n, es) && l in Run(c, n, es).links
    requires forall f | f in Run(c, n, es).flows :: Run(c, n, es).flows[f] == Idle
    ensures var link := Run(c, n, es).links[l]; link.resv == 0.0 && forall f: FlowId :: f !in link.pending
  {
    InitialOk(c, n);
    RunKeeps(c, n, es);
    var n' := Run(c, n, es);
    assert LinkOk(c, n'.flows, l, n'.links[l]);
    assert Holders(c, n'.flows, l, n'.links[l]) == {};
  }

  /** A TEARDOWN leaves a link's books right exactly when the flow held the link: a source must
      not stop before it has been accepted, whatever its rate. */
  lemma TeardownIff(c: Config, link: Link, holders: set<FlowId>, f: FlowId)
    requires ConfigOk(c) && holders <= c.rate.Keys && f in c.rate && Accounted(c, link, holders)
    ensures Accounted(c, Recv(link, Packet(Teardown, f, c.rate[f], true)).0, holders - {f}) <==> f in holders
  {
    if f in holders {
      Loses(c, link, Recv(link, Packet(Teardown, f, c.rate[f], true)).0, holders, f);
    } else {
      assert holders - {f} == holders;
    }
  }
}
