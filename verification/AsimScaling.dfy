/**
 * One invariant of the bottleneck-scaling loop, on values: what `uc` and `utput` account
 * for, how congestion is bounded by the last factor, and why every flow scaled so far is
 * settled at a full link.  AsimUpdate.dfy runs the loop itself.
 */
module AsimScaling {
  import opened AsimModel

  /** utput is the unscaled load of each link, uc what scaled and short flows leave of it. */
  ghost predicate Accounts(routes: Routes, links: seq<Link>, before: seq<Flow>, flows: seq<Flow>)
    requires |routes| == |before| == |flows|
  {
    forall i | 0 <= i < |links| ::
      && links[i].utput == KindLoad(routes, flows, Unscaled, i)
      && links[i].uc == Capacity(routes, before, links[i].mu, i) - KindLoad(routes, flows, Scaled, i)
  }

  ghost predicate Open(routes: Routes, links: seq<Link>, before: seq<Flow>, i: nat)
    requires |routes| == |before| && i < |links|
  {
    Capacity(routes, before, links[i].mu, i) > 0.0
  }

  /** No open link is over-committed or more congested than gamma; the others stay closed. */
  ghost predicate Bounded(routes: Routes, links: seq<Link>, before: seq<Flow>, gamma: real)
    requires |routes| == |before|
  {
    forall i | 0 <= i < |links| :: LinkBounded(links[i], Open(routes, links, before, i), gamma)
  }

  predicate LinkBounded(l: Link, open: bool, gamma: real) {
    if open then 0.0 <= l.uc && l.utput <= l.uc * gamma else l.uc <= 0.0
  }

  /** The bottleneck during its round. */
  predicate Exact(l: Link, gamma: real) {
    l.utput == l.uc * gamma
  }

  /** factor[j] is what flow j's rate was divided by. */
  ghost predicate Divided(before: seq<Flow>, flows: seq<Flow>, factor: seq<real>, gamma: real) {
    && SameKinds(before, flows) && |factor| == |flows|
    && LongPositive(before)
    && forall j | 0 <= j < |flows| :: FlowDivided(before[j], flows[j], factor[j], gamma)
  }

  predicate FlowDivided(b: Flow, f: Flow, factor: real, gamma: real) {
    if b.isShort then f.scaled
    else if f.scaled then f.tput > 0.0 && factor >= gamma && b.tput == f.tput * factor
    else f.tput == b.tput
  }

  /** Flow f has found its bottleneck: link b is full of flows divided by at least as much. */
  ghost predicate Settled(routes: Routes, links: seq<Link>, before: seq<Flow>, flows: seq<Flow>, factor: seq<real>,
                          f: nat, b: nat)
    requires |routes| == |before| == |flows| == |factor| && f < |routes|
  {
    && b < |links| && Crosses(routes, f, b) && Open(routes, links, before, b) && links[b].uc == 0.0
    && forall g | 0 <= g < |flows| && !flows[g].isShort && Crosses(routes, g, b) ::
         flows[g].scaled && factor[g] >= factor[f]
  }

  /** Every scaled flow is settled, or was scaled in the current round at link `at`. */
  ghost predicate AllSettled(routes: Routes, links: seq<Link>, before: seq<Flow>, flows: seq<Flow>, factor: seq<real>,
                             at: int, gamma: real)
    requires |routes| == |before| == |flows| == |factor|
  {
    forall f | 0 <= f < |flows| && !flows[f].isShort && flows[f].scaled ::
      || (exists b: nat :: Settled(routes, links, before, flows, factor, f, b))
      || (at >= 0 && Crosses(routes, f, at) && factor[f] == gamma)
  }

  function ScaledFlow(f: Flow, gamma: real): Flow
    requires gamma != 0.0
  {
    f.(tput := f.tput / gamma, scaled := true)
  }

  /** A link visited c times, giving up x of its room and y of its unscaled load each time. */
  function Visited(l: Link, c: nat, x: real, y: real): Link {
    l.(uc := l.uc - Times(c, x), utput := l.utput - Times(c, y))
  }

  function AfterRoute(links: seq<Link>, route: seq<nat>, x: real, y: real): (r: seq<Link>)
    ensures |r| == |links|
    ensures forall i: nat | i < |links| :: r[i] == Visited(links[i], Count(route, i), x, y)
  {
    seq(|links|, i requires 0 <= i < |links| => Visited(links[i], Count(route, i), x, y))
  }

  lemma NoVisits(links: seq<Link>, x: real, y: real)
    ensures AfterRoute(links, [], x, y) == links
  {
  }

  lemma OneVisit(links: seq<Link>, route: seq<nat>, k: nat, x: real, y: real)
    requires k < |route| && route[k] < |links|
    ensures var done, i := AfterRoute(links, route[..k], x, y), route[k];
            AfterRoute(links, route[..k + 1], x, y) == done[i := done[i].(uc := done[i].uc - x, utput := done[i].utput - y)]
  {
    assert route[..k + 1][..k] == route[..k];
  }

  function Remaining(flows: seq<Flow>): nat {
    if flows == [] then 0
    else Remaining(flows[..|flows| - 1])
         + if !flows[|flows| - 1].isShort && !flows[|flows| - 1].scaled then 1 else 0
  }

  lemma {:induction false} RemainingDrops(flows: seq<Flow>, t: nat, f: Flow)
    requires t < |flows| && !flows[t].isShort && !flows[t].scaled && f.scaled
    ensures Remaining(flows[t := f]) == Remaining(flows) - 1
  {
    var n := |flows| - 1;
    if t == n {
      assert flows[t := f][..n] == flows[..n];
    } else {
      assert flows[t := f][..n] == flows[..n][t := f];
      RemainingDrops(flows[..n], t, f);
    }
  }

  lemma SharesUpdate(flows: seq<Flow>, t: nat, f: Flow, kind: Kind)
    requires t < |flows|
    ensures Shares(flows[t := f], kind) == Shares(flows, kind)[t := Share(f, kind)]
  {
  }

  lemma KindLoadUpdate(routes: Routes, flows: seq<Flow>, t: nat, f: Flow, kind: Kind, i: nat)
    requires |routes| == |flows| && t < |flows|
    ensures KindLoad(routes, flows[t := f], kind, i)
         == KindLoad(routes, flows, kind, i) + Times(Count(routes[t], i), Share(f, kind))
            - Times(Count(routes[t], i), Share(flows[t], kind))
  {
    SharesUpdate(flows, t, f, kind);
    LoadUpdate(routes, Shares(flows, kind), t, Share(f, kind), i, |routes|);
  }

  lemma UnscaledLoad(routes: Routes, before: seq<Flow>, flows: seq<Flow>, factor: seq<real>, gamma: real, i: nat)
    requires |routes| == |flows| && Divided(before, flows, factor, gamma)
    ensures KindLoad(routes, flows, Unscaled, i) >= 0.0
    ensures (forall g | 0 <= g < |flows| && Crosses(routes, g, i) :: flows[g].scaled)
         <==> KindLoad(routes, flows, Unscaled, i) == 0.0
  {
    var rates := Shares(flows, Unscaled);
    forall j | 0 <= j < |flows| ensures rates[j] >= 0.0 && (!flows[j].scaled ==> rates[j] > 0.0) {
      assert FlowDivided(before[j], flows[j], factor[j], gamma);
    }
    LoadAtLeast(routes, rates, i, |routes|);
    if forall g | 0 <= g < |flows| && Crosses(routes, g, i) :: flows[g].scaled {
      LoadZero(routes, rates, i, |routes|);
    }
  }

  // ---------------------------------------------------------------- one flow

  lemma PositiveFactor(q: real, gamma: real)
    ensures gamma > 0.0 && q * gamma > 0.0 ==> q > 0.0
    ensures gamma > 0.0 && q * gamma >= 0.0 ==> q >= 0.0
  {
    if gamma > 0.0 && q < 0.0 {
      assert q * gamma < 0.0;
    }
  }

  lemma Quotient(x: real, gamma: real)
    requires gamma > 0.0
    ensures x / gamma * gamma == x
    ensures x > 0.0 ==> x / gamma > 0.0
  {
    PositiveFactor(x / gamma, gamma);
  }

  lemma AccountsAfter(routes: Routes, links: seq<Link>, before: seq<Flow>, flows: seq<Flow>, gamma: real, t: nat,
                      links': seq<Link>)
    requires |routes| == |before| == |flows| && t < |flows| && gamma > 0.0
    requires Accounts(routes, links, before, flows) && !flows[t].isShort && !flows[t].scaled
    requires links' == AfterRoute(links, routes[t], flows[t].tput / gamma, flows[t].tput)
    ensures Accounts(routes, links', before, flows[t := ScaledFlow(flows[t], gamma)])
  {
    var f := ScaledFlow(flows[t], gamma);
    Quotient(flows[t].tput, gamma);
    forall i | 0 <= i < |links'|
      ensures links'[i].utput == KindLoad(routes, flows[t := f], Unscaled, i)
      ensures links'[i].uc == Capacity(routes, before, links'[i].mu, i) - KindLoad(routes, flows[t := f], Scaled, i)
    {
      KindLoadUpdate(routes, flows, t, f, Unscaled, i);
      KindLoadUpdate(routes, flows, t, f, Scaled, i);
      TimesZero(Count(routes[t], i));
    }
  }

  lemma DividedAfter(before: seq<Flow>, flows: seq<Flow>, factor: seq<real>, gamma: real, t: nat)
    requires gamma > 0.0 && Divided(before, flows, factor, gamma)
    requires t < |flows| && !flows[t].isShort && !flows[t].scaled
    ensures Divided(before, flows[t := ScaledFlow(flows[t], gamma)], factor[t := gamma], gamma)
  {
    assert FlowDivided(before[t], flows[t], factor[t], gamma);
    Quotient(flows[t].tput, gamma);
    var flows', factor' := flows[t := ScaledFlow(flows[t], gamma)], factor[t := gamma];
    forall j | 0 <= j < |flows'| ensures FlowDivided(before[j], flows'[j], factor'[j], gamma) {
      assert FlowDivided(before[j], flows[j], factor[j], gamma);
    }
  }

  /** An open link with room u <= c * gamma that gives up t: still within bounds. */
  lemma OpenLink(u: real, c: real, t: real, gamma: real)
    requires gamma > 0.0 && u <= c * gamma && u - t * gamma >= 0.0
    ensures u - t * gamma <= (c - t) * gamma && c - t >= 0.0
    ensures u == c * gamma ==> u - t * gamma == (c - t) * gamma
  {
    assert (c - t) * gamma == c * gamma - t * gamma;
    PositiveFactor(c - t, gamma);
  }

  lemma TightLink(u: real, c: real, t: real, gamma: real)
    ensures u == c * gamma ==> u - t * gamma == (c - t) * gamma
  {
    assert (c - t) * gamma == c * gamma - t * gamma;
  }

  /** Scaling one flow keeps open links within bounds, and a tight link stays tight. */
  lemma BoundedAfter(routes: Routes, links: seq<Link>, before: seq<Flow>, flows: seq<Flow>, factor: seq<real>,
                     gamma: real, t: nat, links': seq<Link>)
    requires |routes| == |before| == |flows| && t < |flows| && gamma > 0.0
    requires Accounts(routes, links, before, flows) && Divided(before, flows, factor, gamma)
    requires Bounded(routes, links, before, gamma) && !flows[t].isShort && !flows[t].scaled
    requires links' == AfterRoute(links, routes[t], flows[t].tput / gamma, flows[t].tput)
    ensures Bounded(routes, links', before, gamma)
    ensures forall i | 0 <= i < |links| && Exact(links[i], gamma) :: Exact(links'[i], gamma)
  {
    var x := flows[t].tput / gamma;
    AccountsAfter(routes, links, before, flows, gamma, t, links');
    DividedAfter(before, flows, factor, gamma, t);
    assert x > 0.0 && flows[t].tput == x * gamma by {
      assert FlowDivided(before[t], flows[t], factor[t], gamma);
      Quotient(flows[t].tput, gamma);
    }
    forall i | 0 <= i < |links|
      ensures LinkBounded(links'[i], Open(routes, links', before, i), gamma)
      ensures Exact(links[i], gamma) ==> Exact(links'[i], gamma)
    {
      UnscaledLoad(routes, before, flows[t := ScaledFlow(flows[t], gamma)], factor[t := gamma], gamma, i);
      assert links'[i] == Visited(links[i], Count(routes[t], i), x, flows[t].tput);
      assert links'[i].utput >= 0.0;
      LinkAfter(links[i], Count(routes[t], i), x, flows[t].tput, gamma, Open(routes, links, before, i));
    }
  }

  lemma LinkAfter(l: Link, c: nat, x: real, y: real, gamma: real, open: bool)
    requires gamma > 0.0 && x > 0.0 && y == x * gamma && Visited(l, c, x, y).utput >= 0.0
    requires LinkBounded(l, open, gamma)
    ensures var l' := Visited(l, c, x, y); LinkBounded(l', open, gamma) && (Exact(l, gamma) ==> Exact(l', gamma))
  {
    TimesAtLeast(c, x);
    TimesScale(c, x, gamma);
    TightLink(l.utput, l.uc, Times(c, x), gamma);
    if open {
      OpenLink(l.utput, l.uc, Times(c, x), gamma);
    }
  }

  lemma SettledAfter(routes: Routes, links: seq<Link>, before: seq<Flow>, flows: seq<Flow>, factor: seq<real>,
                     gamma: real, at: nat, t: nat, links': seq<Link>)
    requires |routes| == |before| == |flows| == |factor| && t < |flows| && gamma > 0.0
    requires AllSettled(routes, links, before, flows, factor, at, gamma)
    requires !flows[t].isShort && !flows[t].scaled && Crosses(routes, t, at)
    requires links' == AfterRoute(links, routes[t], flows[t].tput / gamma, flows[t].tput)
    ensures AllSettled(routes, links', before, flows[t := ScaledFlow(flows[t], gamma)], factor[t := gamma], at, gamma)
  {
    var flows', factor' := flows[t := ScaledFlow(flows[t], gamma)], factor[t := gamma];
    forall f | 0 <= f < |flows'| && !flows'[f].isShort && flows'[f].scaled
      ensures (exists b: nat :: Settled(routes, links', before, flows', factor', f, b))
           || (Crosses(routes, f, at) && factor'[f] == gamma)
    {
      if f != t && exists b: nat :: Settled(routes, links, before, flows, factor, f, b) {
        var b: nat :| Settled(routes, links, before, flows, factor, f, b);
        assert !Crosses(routes, t, b);
        assert Count(routes[t], b) == 0;
        assert links'[b] == links[b];
        assert Settled(routes, links', before, flows', factor', f, b);
      }
    }
  }

  // ---------------------------------------------------------------- one round

  /** Once no unscaled flow crosses the bottleneck it is full, and its flows are settled. */
  lemma RoundDone(routes: Routes, links: seq<Link>, before: seq<Flow>, flows: seq<Flow>, factor: seq<real>,
                  gamma: real, at: nat)
    requires |routes| == |before| == |flows| == |factor| && gamma > 0.0
    requires Accounts(routes, links, before, flows) && Divided(before, flows, factor, gamma)
    requires AllSettled(routes, links, before, flows, factor, at, gamma)
    requires at < |links| && Open(routes, links, before, at) && Exact(links[at], gamma)
    requires forall g | 0 <= g < |flows| && Crosses(routes, g, at) :: flows[g].scaled
    ensures links[at].uc == 0.0
    ensures AllSettled(routes, links, before, flows, factor, -1, gamma)
  {
    UnscaledLoad(routes, before, flows, factor, gamma, at);
    NoProduct(links[at].uc, gamma);
    forall f | 0 <= f < |flows| && !flows[f].isShort && flows[f].scaled
      ensures exists b: nat :: Settled(routes, links, before, flows, factor, f, b)
    {
      if Crosses(routes, f, at) && factor[f] == gamma {
        forall g | 0 <= g < |flows| && !flows[g].isShort && Crosses(routes, g, at)
          ensures factor[g] >= factor[f]
        {
          assert FlowDivided(before[g], flows[g], factor[g], gamma);
        }
        assert Settled(routes, links, before, flows, factor, f, at);
      }
    }
  }

  lemma NoProduct(x: real, gamma: real)
    ensures gamma > 0.0 && x * gamma == 0.0 ==> x == 0.0
  {
    if gamma > 0.0 && x > 0.0 {
      assert x * gamma > 0.0;
    } else if gamma > 0.0 && x < 0.0 {
      assert x * gamma < 0.0;
    }
  }

  /** The congestion of the chosen link never exceeds the previous one. */
  lemma FactorFalls(utput: real, uc: real, gamma: real, gamma': real)
    ensures uc > 0.0 && utput <= uc * gamma && utput == uc * gamma' ==> gamma' <= gamma
  {
    if uc > 0.0 && gamma' > gamma {
      assert uc * gamma' > uc * gamma;
    }
  }

  lemma LowerFactor(before: seq<Flow>, flows: seq<Flow>, factor: seq<real>, gamma: real, gamma': real)
    requires Divided(before, flows, factor, gamma) && gamma' <= gamma
    ensures Divided(before, flows, factor, gamma')
  {
    forall j | 0 <= j < |flows| ensures FlowDivided(before[j], flows[j], factor[j], gamma') {
      assert FlowDivided(before[j], flows[j], factor[j], gamma);
    }
  }

  // ---------------------------------------------------------------- the invariant as one

  ghost predicate Inv(routes: Routes, links: seq<Link>, before: seq<Flow>, flows: seq<Flow>, factor: seq<real>,
                      at: int, gamma: real)
  {
    && |routes| == |before| == |flows| == |factor|
    && Accounts(routes, links, before, flows)
    && Divided(before, flows, factor, gamma)
    && Bounded(routes, links, before, gamma)
    && AllSettled(routes, links, before, flows, factor, at, gamma)
  }

  /** What the search for the bottleneck finds: -1, or a loaded link, none being more congested. */
  predicate Chosen(links: seq<Link>, bneck: int, gamma: real) {
    && -1 <= bneck < |links|
    && (if bneck == -1 then gamma == 0.0 else gamma > 0.0 && Tight(links[bneck], gamma))
    && forall i | 0 <= i < |links| :: NoWorse(links[i], gamma)
  }

  predicate NoWorse(l: Link, gamma: real) {
    l.uc > 0.0 ==> l.utput <= l.uc * gamma
  }

  predicate Tight(l: Link, gamma: real) {
    l.uc > 0.0 && Exact(l, gamma)
  }

  /** One flow through the bottleneck `at` is scaled. */
  lemma ScaleKeeps(routes: Routes, links: seq<Link>, before: seq<Flow>, flows: seq<Flow>, factor: seq<real>,
                   at: nat, gamma: real, t: nat, links': seq<Link>)
    requires Inv(routes, links, before, flows, factor, at, gamma) && gamma > 0.0
    requires t < |flows| && !flows[t].isShort && !flows[t].scaled && Crosses(routes, t, at)
    requires links' == AfterRoute(links, routes[t], flows[t].tput / gamma, flows[t].tput)
    ensures Inv(routes, links', before, flows[t := ScaledFlow(flows[t], gamma)], factor[t := gamma], at, gamma)
    ensures forall i | 0 <= i < |links| && Exact(links[i], gamma) :: Exact(links'[i], gamma)
  {
    AccountsAfter(routes, links, before, flows, gamma, t, links');
    DividedAfter(before, flows, factor, gamma, t);
    BoundedAfter(routes, links, before, flows, factor, gamma, t, links');
    SettledAfter(routes, links, before, flows, factor, gamma, at, t, links');
  }

  /** Between rounds: the next bottleneck is no more congested than the last one. */
  lemma NextRound(routes: Routes, links: seq<Link>, before: seq<Flow>, flows: seq<Flow>, factor: seq<real>,
                  gamma: real, bneck: int, gamma': real)
    requires Inv(routes, links, before, flows, factor, -1, gamma) && gamma > 0.0 && Chosen(links, bneck, gamma')
    ensures gamma' <= gamma && Inv(routes, links, before, flows, factor, -1, gamma')
  {
    if bneck >= 0 {
      assert Open(routes, links, before, bneck);
      FactorFalls(links[bneck].utput, links[bneck].uc, gamma, gamma');
    }
    LowerFactor(before, flows, factor, gamma, gamma');
    forall i | 0 <= i < |links|
      ensures LinkBounded(links[i], Open(routes, links, before, i), gamma')
    {
      assert LinkBounded(links[i], Open(routes, links, before, i), gamma) && NoWorse(links[i], gamma');
      FullIsIdle(links[i].utput, links[i].uc, gamma);
      UnscaledLoad(routes, before, flows, factor, gamma, i);
    }
  }

  lemma FullIsIdle(utput: real, uc: real, gamma: real)
    ensures uc == 0.0 && 0.0 <= utput <= uc * gamma ==> utput == 0.0
  {
  }

  lemma Loads(routes: Routes, links: seq<Link>, before: seq<Flow>, flows: seq<Flow>, factor: seq<real>, gamma: real)
    requires |routes| == |before| == |flows| == |factor|
    requires Accounts(routes, links, before, flows) && Divided(before, flows, factor, gamma)
    ensures forall i | 0 <= i < |links| :: links[i].utput >= 0.0
  {
    forall i | 0 <= i < |links| ensures links[i].utput >= 0.0 {
      UnscaledLoad(routes, before, flows, factor, gamma, i);
    }
  }

  // ---------------------------------------------------------------- the end

  function Mus(links: seq<Link>): (r: seq<real>)
    ensures |r| == |links| && forall i | 0 <= i < |links| :: r[i] == links[i].mu
  {
    seq(|links|, i requires 0 <= i < |links| => links[i].mu)
  }

  /** When no open link carries unscaled load the allocation fits and is fair. */
  lemma Outcome(routes: Routes, links: seq<Link>, before: seq<Flow>, flows: seq<Flow>, factor: seq<real>)
    requires |routes| == |before| == |flows| == |factor|
    requires Accounts(routes, links, before, flows) && Divided(before, flows, factor, 0.0)
    requires Bounded(routes, links, before, 0.0) && AllSettled(routes, links, before, flows, factor, -1, 0.0)
    ensures Fits(routes, Mus(links), before, LongRates(flows))
    ensures Fair(routes, Mus(links), before, flows)
    ensures forall f | 0 <= f < |flows| && Servable(routes, Mus(links), before, f) :: flows[f].scaled
  {
    var mu := Mus(links);
    forall i | 0 <= i < |links| && Open(routes, links, before, i)
      ensures links[i].utput == 0.0 && Load(routes, LongRates(flows), i) <= Capacity(routes, before, mu[i], i)
    {
      UnscaledLoad(routes, before, flows, factor, 0.0, i);
      LongLoad(routes, flows, i);
    }
    forall f | 0 <= f < |flows| && Servable(routes, mu, before, f)
      ensures flows[f].scaled
      ensures exists b: nat :: Bottleneck(routes, mu, before, flows, f, b) && Capacity(routes, before, mu[b], b) > 0.0
    {
      var i: nat :| i < |mu| && Crosses(routes, f, i) && Capacity(routes, before, mu[i], i) > 0.0;
      assert Open(routes, links, before, i);
      UnscaledLoad(routes, before, flows, factor, 0.0, i);
      var b: nat :| Settled(routes, links, before, flows, factor, f, b);
      SettledIsBottleneck(routes, links, before, flows, factor, f, b);
    }
  }

  lemma LongLoad(routes: Routes, flows: seq<Flow>, i: nat)
    requires |routes| == |flows|
    ensures Load(routes, LongRates(flows), i) == KindLoad(routes, flows, Unscaled, i) + KindLoad(routes, flows, Scaled, i)
  {
    LoadSum(routes, Shares(flows, Unscaled), Shares(flows, Scaled), LongRates(flows), i, |routes|);
  }

  lemma CrossRatio(xf: real, xg: real, af: real, ag: real)
    requires xf >= 0.0 && xg >= 0.0 && ag >= af
    ensures xg * (xf * af) <= xf * (xg * ag)
  {
    assert xg * (xf * af) == (xg * xf) * af;
    assert xf * (xg * ag) == (xg * xf) * ag;
    var p := xg * xf;
    assert p >= 0.0;
    assert p * (ag - af) >= 0.0;
  }

  lemma SettledIsBottleneck(routes: Routes, links: seq<Link>, before: seq<Flow>, flows: seq<Flow>, factor: seq<real>,
                            f: nat, b: nat)
    requires |routes| == |before| == |flows| == |factor| && f < |flows|
    requires Accounts(routes, links, before, flows) && Divided(before, flows, factor, 0.0)
    requires Settled(routes, links, before, flows, factor, f, b) && !flows[f].isShort && flows[f].scaled
    ensures Bottleneck(routes, Mus(links), before, flows, f, b)
  {
    forall g | 0 <= g < |flows| && Crosses(routes, g, b) ensures flows[g].scaled {
      assert FlowDivided(before[g], flows[g], factor[g], 0.0);
    }
    UnscaledLoad(routes, before, flows, factor, 0.0, b);
    LongLoad(routes, flows, b);
    assert FlowDivided(before[f], flows[f], factor[f], 0.0);
    forall g | 0 <= g < |routes| && !before[g].isShort && Crosses(routes, g, b)
      ensures flows[g].tput * before[f].tput <= flows[f].tput * before[g].tput
    {
      assert FlowDivided(before[g], flows[g], factor[g], 0.0);
      CrossRatio(flows[f].tput, flows[g].tput, factor[f], factor[g]);
    }
  }
}
