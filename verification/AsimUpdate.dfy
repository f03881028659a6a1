/**
 * The bottleneck-scaling procedure itself: arrays of links and flows overwritten in place,
 * as in `newupdate`, and the link-to-flow incidence it walks.
 */
module AsimUpdate {
  import opened AsimModel
  import opened AsimScaling

  function Reset(flows: seq<Flow>): (r: seq<Flow>)
    ensures |r| == |flows|
    ensures forall j | 0 <= j < |flows| :: r[j] == flows[j].(scaled := flows[j].isShort)
  {
    seq(|flows|, j requires 0 <= j < |flows| => flows[j].(scaled := flows[j].isShort))
  }

  /** The links once the first n flows have been entered. */
  ghost predicate Entered(routes: Routes, start: seq<Link>, before: seq<Flow>, n: nat, links: seq<Link>)
    requires n <= |routes| == |before|
  {
    && |links| == |start|
    && forall i | 0 <= i < |start| ::
         links[i] == Link(start[i].mu, start[i].mu * HEADROOM - LoadOf(routes, Shares(before, Short), i, n),
                          LoadOf(routes, Shares(Reset(before), Unscaled), i, n))
  }

  lemma {:induction false} TimesMinus(c: nat, r: real)
    ensures Times(c, -r) == -Times(c, r)
  {
    if c > 0 {
      TimesMinus(c - 1, r);
    }
  }

  lemma EnterOne(routes: Routes, start: seq<Link>, before: seq<Flow>, n: nat, links: seq<Link>, links': seq<Link>)
    requires n < |routes| == |before| && Entered(routes, start, before, n, links)
    requires links' == AfterRoute(links, routes[n], Share(before[n], Short), -Share(Reset(before)[n], Unscaled))
    ensures Entered(routes, start, before, n + 1, links')
  {
    forall i | 0 <= i < |start|
      ensures links'[i] == Link(start[i].mu, start[i].mu * HEADROOM - LoadOf(routes, Shares(before, Short), i, n + 1),
                                LoadOf(routes, Shares(Reset(before), Unscaled), i, n + 1))
    {
      TimesMinus(Count(routes[n], i), Share(Reset(before)[n], Unscaled));
    }
  }

  /** Before the first round nothing has been divided, and open links have all their room. */
  lemma Start(routes: Routes, start: seq<Link>, links: seq<Link>, before: seq<Flow>, factor: seq<real>,
              bneck: int, gamma: real)
    requires |routes| == |before| == |factor| && LongPositive(before)
    requires Entered(routes, start, before, |routes|, links) && Chosen(links, bneck, gamma)
    ensures Inv(routes, links, before, Reset(before), factor, -1, gamma)
  {
    StartAccounts(routes, start, links, before, factor, gamma);
  }

  lemma StartAccounts(routes: Routes, start: seq<Link>, links: seq<Link>, before: seq<Flow>, factor: seq<real>, gamma: real)
    requires |routes| == |before| == |factor| && LongPositive(before)
    requires Entered(routes, start, before, |routes|, links)
    ensures Accounts(routes, links, before, Reset(before)) && Divided(before, Reset(before), factor, gamma)
    ensures forall i | 0 <= i < |links| :: links[i].uc == Capacity(routes, before, links[i].mu, i)
  {
    var flows := Reset(before);
    forall i | 0 <= i < |links| ensures KindLoad(routes, flows, Scaled, i) == 0.0 {
      LoadZero(routes, Shares(flows, Scaled), i, |routes|);
    }
  }

  lemma WholeRoute(route: seq<nat>)
    ensures route[..|route|] == route && route[..0] == []
  {
  }

  /** Part of a round later: the rates of the links are as they were, scaled flows stay scaled,
      and either nothing has changed or fewer flows remain. */
  ghost predicate Onward(links: seq<Link>, flows: seq<Flow>, links': seq<Link>, flows': seq<Flow>) {
    && Mus(links') == Mus(links) && |flows'| == |flows|
    && (forall c | 0 <= c < |flows| && flows[c].scaled :: flows'[c].scaled)
    && if flows' == flows then links' == links else Remaining(flows') < Remaining(flows)
  }

  /** The first k flows of a list are scaled. */
  predicate AllScaled(flows: seq<Flow>, fl: seq<nat>, k: nat) {
    k <= |fl| && forall c | 0 <= c < k :: fl[c] < |flows| && flows[fl[c]].scaled
  }

  lemma ScaledOnward(links: seq<Link>, flows: seq<Flow>, links': seq<Link>, flows': seq<Flow>, fl: seq<nat>, k: nat)
    requires Onward(links, flows, links', flows') && AllScaled(flows, fl, k)
    requires k < |fl| && fl[k] < |flows'| && flows'[fl[k]].scaled
    ensures AllScaled(flows', fl, k + 1)
  {
  }

  lemma OnwardTrans(links1: seq<Link>, flows1: seq<Flow>, links2: seq<Link>, flows2: seq<Flow>,
                    links3: seq<Link>, flows3: seq<Flow>)
    requires Onward(links1, flows1, links2, flows2) && Onward(links2, flows2, links3, flows3)
    ensures Onward(links1, flows1, links3, flows3)
  {
  }

  class Asim {
    const adj: Routes
    const links: array<Link>
    const flows: array<Flow>
    var theflows: seq<seq<nat>>

    ghost predicate Shaped()
      reads this
    {
      |adj| == flows.Length && WellFormed(adj, links.Length)
    }

    /** theflows lists, for every link, exactly the flows that cross it. */
    ghost predicate Valid()
      reads this
    {
      && Shaped() && |theflows| == links.Length
      && forall i | 0 <= i < |theflows| :: Incident(theflows[i], i)
    }

    ghost predicate Incident(fl: seq<nat>, i: nat) {
      && (forall k | 0 <= k < |fl| :: fl[k] < |adj| && Crosses(adj, fl[k], i))
      && (forall j | 0 <= j < |adj| && Crosses(adj, j, i) :: j in fl)
    }

    /** A list holds each flow as often as its route visits the link. */
    ghost predicate OncePerVisit(fl: seq<nat>, i: nat) {
      forall j | 0 <= j < |adj| :: multiset(fl)[j] == Count(adj[j], i)
    }

    ghost predicate Counted()
      reads this
    {
      forall i | 0 <= i < |theflows| :: OncePerVisit(theflows[i], i)
    }

    constructor (adj: Routes, links: array<Link>, flows: array<Flow>)
      requires |adj| == flows.Length && WellFormed(adj, links.Length)
      ensures this.adj == adj && this.links == links && this.flows == flows && Valid() && Counted()
    {
      this.adj, this.links, this.flows := adj, links, flows;
      theflows := [];
      new;
      CollectFlows();
    }

    /** The end of GetInputs: which flows go through each link, once per visit. */
    method CollectFlows()
      requires Shaped()
      modifies this
      ensures Valid() && Counted()
    {
      theflows := [];
      for i := 0 to links.Length
        invariant Shaped() && |theflows| == i
        invariant forall c | 0 <= c < i :: Incident(theflows[c], c) && OncePerVisit(theflows[c], c)
      {
        var fl := FlowsThrough(i);
        theflows := theflows + [fl];
      }
    }

    method FlowsThrough(i: nat) returns (fl: seq<nat>)
      ensures Incident(fl, i) && OncePerVisit(fl, i)
    {
      fl := [];
      for j := 0 to |adj|
        invariant forall k | 0 <= k < |fl| :: fl[k] < j && Crosses(adj, fl[k], i)
        invariant forall c | 0 <= c < j && Crosses(adj, c, i) :: c in fl
        invariant forall c | 0 <= c < j :: multiset(fl)[c] == Count(adj[c], i)
      {
        WholeRoute(adj[j]);
        ghost var earlier := multiset(fl);
        for k := 0 to |adj[j]|
          invariant forall k | 0 <= k < |fl| :: fl[k] <= j && Crosses(adj, fl[k], i)
          invariant forall c | 0 <= c < j && Crosses(adj, c, i) :: c in fl
          invariant forall c | 0 <= c < j :: multiset(fl)[c] == earlier[c]
          invariant multiset(fl)[j] == Count(adj[j][..k], i)
          invariant i in adj[j][..k] ==> j in fl
        {
          assert adj[j][..k + 1][..k] == adj[j][..k];
          if adj[j][k] == i {
            fl := fl + [j];
          }
        }
      }
    }

    /** Lines 850-869: short flows count as scaled, the rest as load still to be scaled. */
    method InitTputs()
      requires Shaped()
      modifies links, flows
      ensures flows[..] == Reset(old(flows[..]))
      ensures Entered(adj, old(links[..]), old(flows[..]), |adj|, links[..])
    {
      ghost var before, start := flows[..], links[..];
      for i := 0 to links.Length
        invariant flows[..] == before
        invariant forall c | 0 <= c < links.Length ::
          links[c] == if c < i then Link(start[c].mu, start[c].mu * HEADROOM, 0.0) else start[c]
      {
        links[i] := links[i].(uc := links[i].mu * HEADROOM, utput := 0.0);
      }
      for j := 0 to flows.Length
        invariant forall c | 0 <= c < flows.Length ::
          flows[c] == if c < j then before[c].(scaled := before[c].isShort) else before[c]
        invariant Entered(adj, start, before, j, links[..])
      {
        ghost var links0 := links[..];
        EnterFlow(j);
        EnterOne(adj, start, before, j, links0, links[..]);
      }
      assert flows[..] == Reset(before);
    }

    method EnterFlow(j: nat)
      requires Shaped() && j < flows.Length
      modifies links, flows
      ensures flows[..] == old(flows[..])[j := old(flows[j]).(scaled := old(flows[j]).isShort)]
      ensures links[..] == AfterRoute(old(links[..]), adj[j], Share(old(flows[j]), Short), -Share(flows[j], Unscaled))
    {
      flows[j] := flows[j].(scaled := flows[j].isShort);
      ghost var links0, x, y := links[..], Share(flows[j], Short), -Share(flows[j], Unscaled);
      WholeRoute(adj[j]);
      NoVisits(links0, x, y);
      for k := 0 to |adj[j]|
        invariant flows[..] == old(flows[..])[j := old(flows[j]).(scaled := old(flows[j]).isShort)]
        invariant links[..] == AfterRoute(links0, adj[j][..k], x, y)
      {
        var i := adj[j][k];
        OneVisit(links0, adj[j], k, x, y);
        if flows[j].isShort {
          links[i] := links[i].(uc := links[i].uc - flows[j].tput);
        } else {
          links[i] := links[i].(utput := links[i].utput + flows[j].tput);
        }
      }
    }

    /** The most congested link with capacity left, and its congestion; -1 when none is loaded. */
    method MostCongested() returns (bneck: int, maxgamma: real)
      requires forall i | 0 <= i < links.Length :: links[i].utput >= 0.0
      ensures Chosen(links[..], bneck, maxgamma)
    {
      bneck, maxgamma := -1, 0.0;
      for i := 0 to links.Length
        invariant -1 <= bneck < i
        invariant if bneck == -1 then maxgamma == 0.0 else maxgamma > 0.0 && Tight(links[bneck], maxgamma)
        invariant forall c | 0 <= c < i :: NoWorse(links[c], maxgamma)
      {
        if links[i].uc != 0.0 {
          var t := links[i].utput / links[i].uc;
          Congestion(links[i], t, maxgamma);
          if t > maxgamma {
            forall c | 0 <= c < i ensures NoWorse(links[c], t) {
              Raise(links[c], maxgamma, t);
            }
            bneck, maxgamma := i, t;
          }
        }
      }
    }

    static lemma Congestion(l: Link, t: real, gamma: real)
      requires l.uc != 0.0 && t == l.utput / l.uc && l.utput >= 0.0 && gamma >= 0.0
      ensures t > gamma ==> Tight(l, t) && NoWorse(l, t)
      ensures t <= gamma ==> NoWorse(l, gamma)
    {
      assert l.utput / l.uc * l.uc == l.utput;
      Opposite(l.uc, t);
      Raise(l, t, gamma);
    }

    static lemma Opposite(uc: real, t: real)
      ensures uc < 0.0 && t > 0.0 ==> uc * t < 0.0
    {
    }

    static lemma Raise(l: Link, t: real, gamma: real)
      ensures NoWorse(l, t) && t <= gamma ==> NoWorse(l, gamma)
    {
      if l.uc > 0.0 && t <= gamma {
        assert l.uc * (gamma - t) >= 0.0;
        assert l.uc * (gamma - t) == l.uc * gamma - l.uc * t;
      }
    }

    /** Lines 916-925: one flow's rate is divided, on every visit of every link. */
    method ScaleFlow(t: nat, gamma: real)
      requires Shaped() && t < flows.Length && gamma > 0.0
      modifies links, flows
      ensures flows[..] == old(flows[..])[t := ScaledFlow(old(flows[t]), gamma)]
      ensures links[..] == AfterRoute(old(links[..]), adj[t], old(flows[t]).tput / gamma, old(flows[t]).tput)
    {
      Quotient(flows[t].tput, gamma);
      ghost var y := flows[t].tput;
      flows[t] := flows[t].(tput := flows[t].tput / gamma, scaled := true);
      ghost var links0, x := links[..], flows[t].tput;
      WholeRoute(adj[t]);
      NoVisits(links0, x, y);
      for k := 0 to |adj[t]|
        invariant flows[..] == old(flows[..])[t := ScaledFlow(old(flows[t]), gamma)]
        invariant flows[t].tput == x && x * gamma == y
        invariant links[..] == AfterRoute(links0, adj[t][..k], x, y)
      {
        var i := adj[t][k];
        OneVisit(links0, adj[t], k, x, y);
        links[i] := links[i].(uc := links[i].uc - flows[t].tput, utput := links[i].utput - flows[t].tput * gamma);
      }
      WholeRoute(adj[t]);
    }

    /** Lines 915-927: one entry of the bottleneck's list of flows. */
    method ScaleOne(t: nat, ghost bneck: nat, gamma: real, ghost before: seq<Flow>, ghost factor: seq<real>)
      returns (ghost factor': seq<real>)
      requires Shaped() && Inv(adj, links[..], before, flows[..], factor, bneck, gamma) && gamma > 0.0
      requires t < flows.Length && bneck < links.Length && Crosses(adj, t, bneck)
      requires Exact(links[bneck], gamma)
      modifies links, flows
      ensures Inv(adj, links[..], before, flows[..], factor', bneck, gamma)
      ensures Exact(links[bneck], gamma) && flows[t].scaled
      ensures Onward(old(links[..]), old(flows[..]), links[..], flows[..])
    {
      factor' := factor;
      ghost var links0, flows0 := links[..], flows[..];
      if !flows[t].isShort && !flows[t].scaled {
        RemainingDrops(flows0, t, ScaledFlow(flows0[t], gamma));
        ScaleFlow(t, gamma);
        ScaleKeeps(adj, links0, before, flows0, factor, bneck, gamma, t, links[..]);
        assert Exact(links[..][bneck], gamma);
        factor' := factor[t := gamma];
      } else {
        assert FlowDivided(before[t], flows0[t], factor[t], gamma);
      }
    }

    /** Lines 909-928: all flows through the bottleneck that are not scaled yet. */
    method ScaleThrough(bneck: nat, gamma: real, ghost before: seq<Flow>, ghost factor: seq<real>)
      returns (ghost factor': seq<real>)
      requires Valid() && Inv(adj, links[..], before, flows[..], factor, -1, gamma)
      requires bneck < links.Length && gamma > 0.0 && Tight(links[bneck], gamma)
      modifies links, flows
      ensures Mus(links[..]) == old(Mus(links[..]))
      ensures Inv(adj, links[..], before, flows[..], factor', -1, gamma)
      ensures links[bneck].uc == 0.0
      ensures Remaining(flows[..]) < Remaining(old(flows[..]))
    {
      ghost var flows1, links1 := flows[..], links[..];
      assert Incident(theflows[bneck], bneck);
      factor' := ScaleList(theflows[bneck], bneck, gamma, before, factor);
      FinishRound(before, links1, flows1, factor', bneck, gamma);
    }

    /** The loop over the bottleneck's list. */
    method ScaleList(fl: seq<nat>, ghost bneck: nat, gamma: real, ghost before: seq<Flow>, ghost factor: seq<real>)
      returns (ghost factor': seq<real>)
      requires Shaped() && Inv(adj, links[..], before, flows[..], factor, bneck, gamma) && gamma > 0.0
      requires forall k | 0 <= k < |fl| :: fl[k] < |adj| && Crosses(adj, fl[k], bneck)
      requires bneck < links.Length && Exact(links[bneck], gamma)
      modifies links, flows
      ensures Inv(adj, links[..], before, flows[..], factor', bneck, gamma)
      ensures Exact(links[bneck], gamma) && AllScaled(flows[..], fl, |fl|)
      ensures Onward(old(links[..]), old(flows[..]), links[..], flows[..])
    {
      factor' := factor;
      for k := 0 to |fl|
        invariant Inv(adj, links[..], before, flows[..], factor', bneck, gamma)
        invariant Exact(links[bneck], gamma)
        invariant AllScaled(flows[..], fl, k)
        invariant Onward(old(links[..]), old(flows[..]), links[..], flows[..])
      {
        ghost var links0, flows0 := links[..], flows[..];
        factor' := ScaleOne(fl[k], bneck, gamma, before, factor');
        OnwardTrans(old(links[..]), old(flows[..]), links0, flows0, links[..], flows[..]);
        ScaledOnward(links0, flows0, links[..], flows[..], fl, k);
      }
    }

    lemma FinishRound(before: seq<Flow>, links1: seq<Link>, flows1: seq<Flow>, factor: seq<real>, bneck: nat, gamma: real)
      requires Valid() && Inv(adj, links[..], before, flows[..], factor, bneck, gamma)
      requires bneck < links.Length == |links1| && gamma > 0.0 && Tight(links1[bneck], gamma)
      requires Capacity(adj, before, links[bneck].mu, bneck) > 0.0
      requires Exact(links[bneck], gamma)
      requires AllScaled(flows[..], theflows[bneck], |theflows[bneck]|)
      requires flows[..] == flows1 ==> links[..] == links1
      ensures links[bneck].uc == 0.0 && flows[..] != flows1
      ensures Inv(adj, links[..], before, flows[..], factor, -1, gamma)
    {
      assert Incident(theflows[bneck], bneck);
      RoundDone(adj, links[..], before, flows[..], factor, gamma, bneck);
    }

    /** newupdate: progressive filling.  Afterwards no link the short flows leave room on
        carries more than 1.05 of its rate, every flow that crosses such a link has been
        scaled, and the allocation is weighted max-min fair. */
    method NewUpdate() returns (ghost rounds: nat)
      requires Valid() && LongPositive(flows[..])
      modifies links, flows
      ensures SameKinds(old(flows[..]), flows[..])
      ensures Mus(links[..]) == old(Mus(links[..]))
      ensures Fits(adj, Mus(links[..]), old(flows[..]), LongRates(flows[..]))
      ensures Fair(adj, Mus(links[..]), old(flows[..]), flows[..])
      ensures forall f | 0 <= f < flows.Length && Servable(adj, Mus(links[..]), old(flows[..]), f) :: flows[f].scaled
      ensures rounds <= Remaining(Reset(old(flows[..])))
    {
      ghost var before, start := flows[..], links[..];
      ghost var factor: seq<real> := seq(flows.Length, _ => 0.0);
      InitTputs();
      StartAccounts(adj, start, links[..], before, factor, 0.0);
      Loads(adj, links[..], before, flows[..], factor, 0.0);
      var bneck, maxgamma := MostCongested();
      Start(adj, start, links[..], before, factor, bneck, maxgamma);
      rounds := 0;
      while bneck + 1 != 0
        invariant Mus(links[..]) == Mus(start)
        invariant Inv(adj, links[..], before, flows[..], factor, -1, maxgamma)
        invariant Chosen(links[..], bneck, maxgamma)
        invariant rounds + Remaining(flows[..]) <= Remaining(Reset(before))
        decreases Remaining(flows[..])
      {
        factor := ScaleThrough(bneck, maxgamma, before, factor);
        ghost var links0, gamma := links[..], maxgamma;
        links[bneck] := links[bneck].(uc := 0.0);
        assert links[..] == links0;
        Loads(adj, links[..], before, flows[..], factor, gamma);
        bneck, maxgamma := MostCongested();
        NextRound(adj, links[..], before, flows[..], factor, gamma, bneck, maxgamma);
        rounds := rounds + 1;
      }
      Outcome(adj, links[..], before, flows[..], factor);
    }
  }
}
