/**
 * What one link does with each signalling packet, told by its fields, and one whole handshake: a
 * flow is accepted exactly when its rate fits at every link of its path.
 */
module AdmissionHandshake {
  import opened AdmissionModel
  import opened AdmissionNetwork

  // ---------------------------------------------------------------- one packet, one link

  /** The slot is free, and the first such. */
  predicate FirstSlot(p: seq<int>, j: nat, id: int)
    requires j < |p|
  {
    p[j] == id && forall i | 0 <= i < j :: p[i] != id
  }

  lemma SlotIs(p: seq<int>, id: int)
    ensures forall j | 0 <= j < |p| && FirstSlot(p, j, id) :: Find(p, id) == j
    ensures id in p <==> Find(p, id) < |p|
  {
  }

  /** A REQUEST is admitted exactly when the reserved rates and its own fit the share: it then takes
      the first free slot; otherwise it goes on with a negative decision. */
  lemma RequestEffect(l: Link, f: int, r: real, d: bool)
    requires -1 in l.pending
    ensures Room(l)
    ensures var (l', p) := Recv(l, Packet(Request, f, r, d));
            if l.resv + r <= l.cap then
              && p == Packet(Request, f, r, d)
              && l' == l.(resv := l.resv + r, numfl := l.numfl + 1, pending := l'.pending)
              && forall j | 0 <= j < |l.pending| && FirstSlot(l.pending, j, -1) :: l'.pending == l.pending[j := f]
            else l' == l && p == Packet(Request, f, r, false)
  {
    SlotIs(l.pending, -1);
  }

  /** A CONFIRM frees the flow's slot, and takes its rate back exactly when it was rejected; without
      a slot it changes nothing. A TEARDOWN takes the rate back. Answers change nothing. */
  lemma ConfirmEffect(l: Link, f: int, r: real, d: bool)
    ensures var (l', p) := Recv(l, Packet(Confirm, f, r, d));
            && p == Packet(Confirm, f, r, d)
            && (f !in l.pending ==> l' == l)
            && forall j | 0 <= j < |l.pending| && FirstSlot(l.pending, j, f) ::
                 l' == l.(pending := l.pending[j := -1], resv := if d then l.resv else l.resv - r,
                          numfl := if d then l.numfl else l.numfl - 1)
    ensures Recv(l, Packet(Teardown, f, r, d)) == (l.(resv := l.resv - r, numfl := l.numfl - 1), Packet(Teardown, f, r, d))
    ensures Recv(l, Packet(Accept, f, r, d)) == (l, Packet(Accept, f, r, d))
    ensures Recv(l, Packet(Reject, f, r, d)) == (l, Packet(Reject, f, r, d))
  {
    SlotIs(l.pending, f);
  }

  /** The answer at the source: what goes out next is the answer turned into a CONFIRM, and the flow
      runs exactly if it was positive. */
  lemma TurnEffect(c: Config, n: Net, f: FlowId)
    requires Enabled(c, n, Turn(f))
    ensures var n', d := Step(c, n, Turn(f)), n.flows[f].decision;
            var answer := Packet(if d then Accept else Reject, f, c.rate[f], d);
            && n'.links == n.links && n'.flows == n.flows[f := n'.flows[f]]
            && n'.flows[f] == (if d then Accepted(0, 0, false) else Rejecting(0))
            && NextPacket(c, f, n'.flows[f]) == answer.(kind := Confirm)
  {
  }

  // ---------------------------------------------------------------- one handshake

  /** After the run, the packet of the flow passes k links. */
  function Passing(es: seq<Event>, f: FlowId, k: nat): seq<Event> {
    if k == 0 then es else Passing(es, f, k - 1) + [AtLink(f)]
  }

  /** The REQUEST passes k links. */
  function Asking(f: FlowId, k: nat): seq<Event> {
    Passing([Start(f)], f, k)
  }

  /** It is answered at the end of a path of m links, and turned round. */
  function Turning(f: FlowId, m: nat): seq<Event> {
    Asking(f, m) + [Answer(f)] + [Turn(f)]
  }

  /** And the CONFIRM passes all of them. */
  function Handshake(f: FlowId, m: nat): seq<Event> {
    Passing(Turning(f, m), f, m)
  }

  predicate Fits(c: Config, n: Net, f: FlowId, l: int)
    requires f in c.rate
  {
    l in n.links && n.links[l].resv + c.rate[f] <= n.links[l].cap
  }

  predicate FitsUpTo(c: Config, n: Net, f: FlowId, k: nat)
    requires f in c.rate && f in c.path && k <= |c.path[f]|
  {
    forall j | 0 <= j < k :: Fits(c, n, f, c.path[f][j])
  }

  lemma {:induction false} RunThen(c: Config, n: Net, es: seq<Event>, e: Event)
    requires Runs(c, n, es) && Enabled(c, Run(c, n, es), e)
    ensures Runs(c, n, es + [e]) && Run(c, n, es + [e]) == Step(c, Run(c, n, es), e)
    decreases |es|
  {
    if es == [] {
      assert [] + [e] == [e] && [e][1..] == [];
      assert Run(c, Step(c, n, e), []) == Step(c, n, e);
    } else {
      RunThen(c, Step(c, n, es[0]), es[1..], e);
      assert (es + [e])[1..] == es[1..] + [e];
    }
  }

  /** The link with the flow's rate added if `held`. */
  predicate WithRate(l0: Link, l: Link, r: real, held: bool) {
    l.cap == l0.cap && l.resv == (if held then l0.resv + r else l0.resv) && l.numfl == (if held then l0.numfl + 1 else l0.numfl)
  }

  /** Before the handshake: the flow is idle, and every link of its path has a free slot. */
  ghost predicate Ready(c: Config, n: Net, f: FlowId) {
    && NetOk(c, n) && f in n.flows && n.flows[f] == Idle
    && forall l | l in c.path[f] :: -1 in n.links[l].pending
  }

  predicate Elsewhere(c: Config, n0: Net, n: Net, f: FlowId)
    requires f in c.path
  {
    && n.links.Keys == n0.links.Keys
    && (forall l | l in n.links && l !in c.path[f] :: n.links[l] == n0.links[l])
    && n.flows.Keys == n0.flows.Keys && forall g | g in n.flows && g != f :: n.flows[g] == n0.flows[g]
  }

  /** The REQUEST has passed k links: those where the rate fits have added it. */
  predicate Requested(c: Config, n0: Net, n: Net, f: FlowId, k: nat)
    requires f in c.path && f in c.rate && k <= |c.path[f]|
  {
    && Elsewhere(c, n0, n, f)
    && f in n.flows && n.flows[f] == Requesting(k, FitsUpTo(c, n0, f, k))
    && (forall j | 0 <= j < k :: RequestedAt(c, n0, n, f, c.path[f][j]))
    && (forall j | k <= j < |c.path[f]| :: Same(n0, n, c.path[f][j]))
  }

  predicate RequestedAt(c: Config, n0: Net, n: Net, f: FlowId, l: int)
    requires f in c.rate
  {
    && l in n0.links && l in n.links
    && WithRate(n0.links[l], n.links[l], c.rate[f], Fits(c, n0, f, l))
    && (f in n.links[l].pending <==> Fits(c, n0, f, l))
  }

  predicate Same(n0: Net, n: Net, l: int) {
    l in n0.links && l in n.links && n.links[l] == n0.links[l]
  }

  /** In a table without duplicates a slot put in or taken out is the only one of its flow. */
  lemma OnlySlot(p: seq<int>, j: nat, f: FlowId)
    requires SlotsOk(p) && j < |p|
    ensures f in p[j := f]
    ensures p[j] == f ==> f !in p[j := -1]
  {
    assert p[j := f][j] == f;
    if p[j] == f {
      var q := p[j := -1];
      forall i | 0 <= i < |q|
        ensures q[i] != f
      {
        assert i != j ==> p[i] != f;
      }
    }
  }

  /** What the REQUEST does to a link that does not know the flow yet. */
  lemma RequestAtLink(l: Link, f: FlowId, r: real, d: bool)
    requires SlotsOk(l.pending) && -1 in l.pending && f !in l.pending
    ensures Room(l)
    ensures var (l', p) := Recv(l, Packet(Request, f, r, d));
            var fits := l.resv + r <= l.cap;
            WithRate(l, l', r, fits) && (f in l'.pending <==> fits) && p.decision == (d && fits)
  {
    RequestEffect(l, f, r, d);
    OnlySlot(l.pending, Find(l.pending, -1), f);
  }

  /** What the CONFIRM does to a link that the REQUEST has passed, and that had l0 before it. */
  lemma ConfirmAtLink(l0: Link, l: Link, f: FlowId, r: real, fits: bool, ok: bool)
    requires SlotsOk(l.pending) && WithRate(l0, l, r, fits) && (f in l.pending <==> fits) && (ok ==> fits)
    ensures var l' := Recv(l, Packet(Confirm, f, r, ok)).0;
            WithRate(l0, l', r, ok) && f !in l'.pending
  {
    ConfirmEffect(l, f, r, ok);
    SlotIs(l.pending, f);
    if f in l.pending {
      OnlySlot(l.pending, Find(l.pending, f), f);
    }
  }

  /** No link the REQUEST has not reached knows the flow. */
  lemma NotPending(c: Config, n: Net, f: FlowId, k: nat)
    requires NetOk(c, n) && f in n.flows && n.flows[f].Requesting? && n.flows[f].k == k < |c.path[f]|
    ensures c.path[f][k] in n.links && f !in n.links[c.path[f][k]].pending && SlotsOk(n.links[c.path[f][k]].pending)
  {
    var l := c.path[f][k];
    assert FlowOk(n, c.path[f], f, n.flows[f]);
    assert LinkOk(c, n.flows, l, n.links[l]);
    assert Pos(c.path[f], l) == k;
  }

  lemma Slots(c: Config, n: Net, l: int)
    requires NetOk(c, n) && l in n.links
    ensures SlotsOk(n.links[l].pending)
  {
    assert LinkOk(c, n.flows, l, n.links[l]);
  }

  /** What one packet changes at link k of the path, it does not change at the others. */
  lemma OthersRequested(c: Config, n0: Net, n: Net, n': Net, f: FlowId, k: nat)
    requires ConfigOk(c) && f in c.path && k < |c.path[f]| && c.path[f][k] in n'.links
    requires n'.links == n.links[c.path[f][k] := n'.links[c.path[f][k]]]
    ensures forall j | 0 <= j < |c.path[f]| && j != k && RequestedAt(c, n0, n, f, c.path[f][j]) ::
              RequestedAt(c, n0, n', f, c.path[f][j])
    ensures forall j | 0 <= j < |c.path[f]| && j != k && Same(n0, n, c.path[f][j]) :: Same(n0, n', c.path[f][j])
    ensures forall j, ok | 0 <= j < |c.path[f]| && j != k && ConfirmedAt(c, n0, n, f, c.path[f][j], ok) ::
              ConfirmedAt(c, n0, n', f, c.path[f][j], ok)
  {
  }

  /** One more link. */
  lemma OneRequest(c: Config, n0: Net, n: Net, f: FlowId, k: nat)
    requires ConfigOk(c) && f in c.path && k < |c.path[f]| && Requested(c, n0, n, f, k)
    requires c.path[f][k] in n.links && SlotsOk(n.links[c.path[f][k]].pending)
    requires f !in n.links[c.path[f][k]].pending && -1 in n.links[c.path[f][k]].pending
    ensures Enabled(c, n, AtLink(f)) && Requested(c, n0, Step(c, n, AtLink(f)), f, k + 1)
  {
    var path := c.path[f];
    var l := path[k];
    assert Same(n0, n, l) && l in path;
    RequestAtLink(n.links[l], f, c.rate[f], FitsUpTo(c, n0, f, k));
    var n' := Step(c, n, AtLink(f));
    assert n'.links == n.links[l := n'.links[l]];
    OthersRequested(c, n0, n, n', f, k);
    assert RequestedAt(c, n0, n', f, l);
  }

  lemma {:induction false} AskingReaches(c: Config, n: Net, f: FlowId, k: nat)
    requires Ready(c, n, f) && k <= |c.path[f]|
    ensures Runs(c, n, Asking(f, k)) && NetOk(c, Run(c, n, Asking(f, k))) && Requested(c, n, Run(c, n, Asking(f, k)), f, k)
  {
    if k == 0 {
      RunThen(c, n, [], Start(f));
      assert [] + [Start(f)] == [Start(f)];
      StepKeeps(c, n, Start(f));
      assert FlowOk(n, c.path[f], f, n.flows[f]);
    } else {
      AskingReaches(c, n, f, k - 1);
      var n1, l := Run(c, n, Asking(f, k - 1)), c.path[f][k - 1];
      NotPending(c, n1, f, k - 1);
      assert Same(n, n1, l) && l in c.path[f];
      OneRequest(c, n, n1, f, k - 1);
      StepKeeps(c, n1, AtLink(f));
      RunThen(c, n, Asking(f, k - 1), AtLink(f));
    }
  }

  /** The CONFIRM has passed k links: those have added the rate exactly if the whole path admitted
      the flow, and its slots there are free again. */
  predicate Confirmed(c: Config, n0: Net, n: Net, f: FlowId, k: nat)
    requires f in c.path && f in c.rate && k <= |c.path[f]|
  {
    var ok := FitsUpTo(c, n0, f, |c.path[f]|);
    && Elsewhere(c, n0, n, f)
    && f in n.flows && n.flows[f] == (if ok then Accepted(k, 0, false) else Rejecting(k))
    && (forall j | 0 <= j < k :: ConfirmedAt(c, n0, n, f, c.path[f][j], ok))
    && (forall j | k <= j < |c.path[f]| :: RequestedAt(c, n0, n, f, c.path[f][j]))
  }

  predicate ConfirmedAt(c: Config, n0: Net, n: Net, f: FlowId, l: int, ok: bool)
    requires f in c.rate
  {
    l in n0.links && l in n.links && WithRate(n0.links[l], n.links[l], c.rate[f], ok) && f !in n.links[l].pending
  }

  lemma OneConfirm(c: Config, n0: Net, n: Net, f: FlowId, k: nat)
    requires ConfigOk(c) && f in c.path && k < |c.path[f]| && Confirmed(c, n0, n, f, k)
    requires c.path[f][k] in n.links && SlotsOk(n.links[c.path[f][k]].pending)
    ensures Enabled(c, n, AtLink(f)) && Confirmed(c, n0, Step(c, n, AtLink(f)), f, k + 1)
  {
    var path, ok := c.path[f], FitsUpTo(c, n0, f, |c.path[f]|);
    var l := path[k];
    assert RequestedAt(c, n0, n, f, l);
    assert ok ==> Fits(c, n0, f, path[k]);
    ConfirmAtLink(n0.links[l], n.links[l], f, c.rate[f], Fits(c, n0, f, l), ok);
    var n' := Step(c, n, AtLink(f));
    assert n'.links == n.links[l := n'.links[l]];
    OthersRequested(c, n0, n, n', f, k);
    assert ConfirmedAt(c, n0, n', f, l, ok);
  }

  /** The whole path has been asked, the receiver answers and the source turns the answer round. */
  lemma Turned(c: Config, n0: Net, n: Net, f: FlowId)
    requires f in c.path && f in c.rate && Requested(c, n0, n, f, |c.path[f]|)
    ensures Enabled(c, n, Answer(f)) && Enabled(c, Step(c, n, Answer(f)), Turn(f))
    ensures Confirmed(c, n0, Step(c, Step(c, n, Answer(f)), Turn(f)), f, 0)
  {
    TurnEffect(c, Step(c, n, Answer(f)), f);
  }

  /** The run is possible, and the CONFIRM has passed k links after it. */
  predicate Reached(c: Config, n: Net, es: seq<Event>, f: FlowId, k: nat)
    requires f in c.path && f in c.rate && k <= |c.path[f]|
  {
    Runs(c, n, es) && Confirmed(c, n, Run(c, n, es), f, k)
  }

  lemma TurningReaches(c: Config, n: Net, f: FlowId)
    requires Ready(c, n, f)
    ensures Reached(c, n, Turning(f, |c.path[f]|), f, 0)
  {
    var m := |c.path[f]|;
    AskingReaches(c, n, f, m);
    Turned(c, n, Run(c, n, Asking(f, m)), f);
    RunThen(c, n, Asking(f, m), Answer(f));
    RunThen(c, n, Asking(f, m) + [Answer(f)], Turn(f));
  }

  lemma ThenConfirm(c: Config, n: Net, es: seq<Event>, f: FlowId, k: nat)
    requires NetOk(c, n) && f in c.path && f in c.rate && k < |c.path[f]| && Reached(c, n, es, f, k)
    ensures Reached(c, n, es + [AtLink(f)], f, k + 1)
  {
    var n1 := Run(c, n, es);
    RunKeeps(c, n, es);
    assert RequestedAt(c, n, n1, f, c.path[f][k]);
    Slots(c, n1, c.path[f][k]);
    OneConfirm(c, n, n1, f, k);
    RunThen(c, n, es, AtLink(f));
  }

  lemma {:induction false} ConfirmsReach(c: Config, n: Net, es: seq<Event>, f: FlowId, k: nat)
    requires NetOk(c, n) && f in c.path && f in c.rate && k <= |c.path[f]| && Reached(c, n, es, f, 0)
    ensures Reached(c, n, Passing(es, f, k), f, k)
  {
    if k > 0 {
      ConfirmsReach(c, n, es, f, k - 1);
      ThenConfirm(c, n, Passing(es, f, k - 1), f, k - 1);
      PassingOne(es, f, k);
    } else {
      PassingNone(es, f);
    }
  }

  lemma PassingOne(es: seq<Event>, f: FlowId, k: nat)
    requires k > 0
    ensures Passing(es, f, k) == Passing(es, f, k - 1) + [AtLink(f)]
  {
  }

  lemma PassingNone(es: seq<Event>, f: FlowId)
    ensures Passing(es, f, 0) == es
  {
  }

  /** A whole handshake, on a path of any length and in any state the network can be in: the flow is
      accepted if and only if its rate fits at every link; its rate is then reserved at every link of
      the path and it is counted there, and otherwise nothing has changed; no slot of it is left. */
  lemma HandshakeTheorem(c: Config, n: Net, f: FlowId)
    requires Ready(c, n, f)
    ensures var path := c.path[f];
            var all := Handshake(f, |path|);
            && Runs(c, n, all)
            && var n' := Run(c, n, all);
               var ok := forall j | 0 <= j < |path| :: Fits(c, n, f, path[j]);
               && Elsewhere(c, n, n', f) && f in n'.flows
               && n'.flows[f] == (if ok then Accepted(|path|, 0, false) else Rejecting(|path|))
               && forall j | 0 <= j < |path| :: ConfirmedAt(c, n, n', f, path[j], ok)
  {
    TurningReaches(c, n, f);
    ConfirmsReach(c, n, Turning(f, |c.path[f]|), f, |c.path[f]|);
  }

  // ---------------------------------------------------------------- and its end

  /** The source stops, and the TEARDOWN passes k links. */
  function Tearing(f: FlowId, k: nat): seq<Event> {
    if k == 0 then [Stop(f)] else Tearing(f, k - 1) + [TeardownAt(f)]
  }

  predicate TornAt(c: Config, n0: Net, n: Net, f: FlowId, l: int)
    requires f in c.rate
  {
    && l in n0.links && l in n.links
    && n.links[l] == n0.links[l].(resv := n0.links[l].resv - c.rate[f], numfl := n0.links[l].numfl - 1)
  }

  /** The TEARDOWN has passed k links, and released the rate there. */
  predicate TornDown(c: Config, n0: Net, n: Net, f: FlowId, k: nat)
    requires f in c.path && f in c.rate && k <= |c.path[f]|
  {
    && Elsewhere(c, n0, n, f) && f in n.flows && n.flows[f] == Accepted(|c.path[f]|, k, true)
    && (forall j | 0 <= j < k :: TornAt(c, n0, n, f, c.path[f][j]))
    && (forall j | k <= j < |c.path[f]| :: Same(n0, n, c.path[f][j]))
  }

  lemma OneTeardown(c: Config, n0: Net, n: Net, f: FlowId, k: nat)
    requires ConfigOk(c) && f in c.path && k < |c.path[f]| && TornDown(c, n0, n, f, k)
    ensures Enabled(c, n, TeardownAt(f)) && TornDown(c, n0, Step(c, n, TeardownAt(f)), f, k + 1)
  {
    var path := c.path[f];
    var l, n' := path[k], Step(c, n, TeardownAt(f));
    assert Same(n0, n, l);
    ConfirmEffect(n.links[l], f, c.rate[f], true);
    assert n'.links == n.links[l := n'.links[l]];
    OthersRequested(c, n0, n, n', f, k);
    assert TornAt(c, n0, n', f, l);
    forall j | 0 <= j < k
      ensures TornAt(c, n0, n', f, path[j])
    {
      assert TornAt(c, n0, n, f, path[j]);
    }
  }

  lemma {:induction false} TearingReaches(c: Config, n: Net, f: FlowId, k: nat)
    requires NetOk(c, n) && f in n.flows && n.flows[f] == Accepted(|c.path[f]|, 0, false) && k <= |c.path[f]|
    ensures Runs(c, n, Tearing(f, k)) && TornDown(c, n, Run(c, n, Tearing(f, k)), f, k)
  {
    if k == 0 {
      RunThen(c, n, [], Stop(f));
      assert [] + [Stop(f)] == [Stop(f)];
      assert FlowOk(n, c.path[f], f, n.flows[f]);
    } else {
      TearingReaches(c, n, f, k - 1);
      OneTeardown(c, n, Run(c, n, Tearing(f, k - 1)), f, k - 1);
      RunThen(c, n, Tearing(f, k - 1), TeardownAt(f));
    }
  }

  /** When an accepted flow stops, its TEARDOWN releases its rate at every link of the path, however
      long, and changes nothing else; the flow is idle again. */
  lemma TeardownTheorem(c: Config, n: Net, f: FlowId)
    requires NetOk(c, n) && f in n.flows && n.flows[f] == Accepted(|c.path[f]|, 0, false)
    ensures var all := Tearing(f, |c.path[f]|) + [Done(f)];
            && Runs(c, n, all)
            && var n' := Run(c, n, all);
               && Elsewhere(c, n, n', f) && f in n'.flows && n'.flows[f] == Idle
               && forall j | 0 <= j < |c.path[f]| :: TornAt(c, n, n', f, c.path[f][j])
  {
    var m := |c.path[f]|;
    TearingReaches(c, n, f, m);
    var n1 := Run(c, n, Tearing(f, m));
    RunThen(c, n, Tearing(f, m), Done(f));
    forall j | 0 <= j < m
      ensures TornAt(c, n, Step(c, n1, Done(f)), f, c.path[f][j])
    {
      assert TornAt(c, n, n1, f, c.path[f][j]);
    }
  }

  /** A rejected flow is idle again once its CONFIRM has passed the path. */
  lemma RejectedEnds(c: Config, n: Net, f: FlowId)
    requires f in n.flows && f in c.path && f in c.rate && n.flows[f] == Rejecting(|c.path[f]|)
    ensures Enabled(c, n, Done(f)) && Step(c, n, Done(f)) == n.(flows := n.flows[f := Idle])
  {
  }
}
