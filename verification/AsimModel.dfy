/**
 * The quantities of the analytic simulator's bottleneck scaling, over exact reals: what a
 * set of flows loads onto a link, and when an allocation is weighted max-min fair.
 */
module AsimModel {
  datatype Flow = Flow(isShort: bool, scaled: bool, tput: real)

  datatype Link = Link(mu: real, uc: real, utput: real)

  /** For every flow, the links along its route; a link may occur more than once. */
  type Routes = seq<seq<nat>>

  datatype Kind = Short | Unscaled | Scaled

  const HEADROOM := 1.05

  function Share(f: Flow, kind: Kind): real {
    match kind
    case Short => if f.isShort then f.tput else 0.0
    case Unscaled => if !f.isShort && !f.scaled then f.tput else 0.0
    case Scaled => if !f.isShort && f.scaled then f.tput else 0.0
  }

  function Shares(flows: seq<Flow>, kind: Kind): (r: seq<real>)
    ensures |r| == |flows|
    ensures forall j | 0 <= j < |flows| :: r[j] == Share(flows[j], kind)
  {
    seq(|flows|, j requires 0 <= j < |flows| => Share(flows[j], kind))
  }

  /** How often a route visits a link. */
  function Count(route: seq<nat>, i: nat): (c: nat)
    ensures c > 0 <==> i in route
  {
    if route == [] then 0
    else
      assert route == route[..|route| - 1] + [route[|route| - 1]];
      Count(route[..|route| - 1], i) + if route[|route| - 1] == i then 1 else 0
  }

  /** c copies of r added up. */
  function Times(c: nat, r: real): real {
    if c == 0 then 0.0 else Times(c - 1, r) + r
  }

  /** What the first n flows put on link i at the given rates. */
  function LoadOf(routes: Routes, rates: seq<real>, i: nat, n: nat): real
    requires n <= |routes| == |rates|
  {
    if n == 0 then 0.0
    else LoadOf(routes, rates, i, n - 1) + Times(Count(routes[n - 1], i), rates[n - 1])
  }

  function Load(routes: Routes, rates: seq<real>, i: nat): real
    requires |routes| == |rates|
  {
    LoadOf(routes, rates, i, |routes|)
  }

  function KindLoad(routes: Routes, flows: seq<Flow>, kind: Kind, i: nat): real
    requires |routes| == |flows|
  {
    Load(routes, Shares(flows, kind), i)
  }

  /** What long flows may use of a link. */
  function Capacity(routes: Routes, flows: seq<Flow>, mu: real, i: nat): real
    requires |routes| == |flows|
  {
    mu * HEADROOM - KindLoad(routes, flows, Short, i)
  }

  predicate Crosses(routes: Routes, j: nat, i: nat)
    requires j < |routes|
  {
    i in routes[j]
  }

  predicate WellFormed(routes: Routes, links: nat) {
    forall j, k | 0 <= j < |routes| && 0 <= k < |routes[j]| :: routes[j][k] < links
  }

  ghost predicate LongPositive(flows: seq<Flow>) {
    forall j | 0 <= j < |flows| && !flows[j].isShort :: flows[j].tput > 0.0
  }

  // ---------------------------------------------------------------- loads

  lemma {:induction false} TimesMonotone(c: nat, x: real, y: real)
    requires x <= y
    ensures Times(c, x) <= Times(c, y)
    ensures c > 0 && x < y ==> Times(c, x) < Times(c, y)
  {
    if c > 0 {
      TimesMonotone(c - 1, x, y);
    }
  }

  lemma {:induction false} TimesZero(c: nat)
    ensures Times(c, 0.0) == 0.0
  {
    if c > 0 {
      TimesZero(c - 1);
    }
  }

  lemma {:induction false} TimesAtLeast(c: nat, r: real)
    requires r >= 0.0
    ensures Times(c, r) >= 0.0
    ensures c > 0 ==> Times(c, r) >= r
  {
    if c > 0 {
      TimesAtLeast(c - 1, r);
    }
  }

  lemma Distribute(x: real, y: real, k: real)
    ensures (x + y) * k == x * k + y * k
  {
  }

  lemma {:induction false} TimesScale(c: nat, r: real, k: real)
    ensures Times(c, r * k) == Times(c, r) * k
  {
    if c == 0 {
      assert Times(c, r) == 0.0 && 0.0 * k == 0.0;
    } else {
      TimesScale(c - 1, r, k);
      Distribute(Times(c - 1, r), r, k);
      assert Times(c, r) == Times(c - 1, r) + r;
    }
  }

  lemma {:induction false} LoadUpdate(routes: Routes, rates: seq<real>, j: nat, x: real, i: nat, n: nat)
    requires n <= |routes| == |rates| && j < |routes|
    ensures LoadOf(routes, rates[j := x], i, n)
         == LoadOf(routes, rates, i, n)
            + if j < n then Times(Count(routes[j], i), x) - Times(Count(routes[j], i), rates[j]) else 0.0
  {
    if n > 0 {
      LoadUpdate(routes, rates, j, x, i, n - 1);
    }
  }

  lemma {:induction false} LoadZero(routes: Routes, rates: seq<real>, i: nat, n: nat)
    requires n <= |routes| == |rates|
    requires forall j | 0 <= j < n && Crosses(routes, j, i) :: rates[j] == 0.0
    ensures LoadOf(routes, rates, i, n) == 0.0
  {
    if n > 0 {
      LoadZero(routes, rates, i, n - 1);
      if Crosses(routes, n - 1, i) {
        TimesZero(Count(routes[n - 1], i));
      }
    }
  }

  /** Non-negative rates: the load is at least any one crossing flow's rate. */
  lemma {:induction false} LoadAtLeast(routes: Routes, rates: seq<real>, i: nat, n: nat)
    requires n <= |routes| == |rates|
    requires forall j | 0 <= j < n :: rates[j] >= 0.0
    ensures LoadOf(routes, rates, i, n) >= 0.0
    ensures forall j | 0 <= j < n && Crosses(routes, j, i) :: LoadOf(routes, rates, i, n) >= rates[j]
  {
    if n > 0 {
      LoadAtLeast(routes, rates, i, n - 1);
      TimesAtLeast(Count(routes[n - 1], i), rates[n - 1]);
    }
  }

  /** Raising no crossing flow below, and one of them strictly, raises the load strictly. */
  lemma {:induction false} LoadMonotone(routes: Routes, x: seq<real>, y: seq<real>, i: nat, n: nat)
    requires n <= |routes| == |x| == |y|
    requires forall j | 0 <= j < n && Crosses(routes, j, i) :: x[j] <= y[j]
    ensures LoadOf(routes, x, i, n) <= LoadOf(routes, y, i, n)
    ensures forall j | 0 <= j < n && Crosses(routes, j, i) && x[j] < y[j] ::
      LoadOf(routes, x, i, n) < LoadOf(routes, y, i, n)
  {
    if n > 0 {
      LoadMonotone(routes, x, y, i, n - 1);
      if Crosses(routes, n - 1, i) {
        TimesMonotone(Count(routes[n - 1], i), x[n - 1], y[n - 1]);
      }
    }
  }

  /** Loads add up flow by flow. */
  lemma {:induction false} LoadSum(routes: Routes, x: seq<real>, y: seq<real>, z: seq<real>, i: nat, n: nat)
    requires n <= |routes| == |x| == |y| == |z|
    requires forall j | 0 <= j < n :: z[j] == x[j] + y[j] && (x[j] == 0.0 || y[j] == 0.0)
    ensures LoadOf(routes, z, i, n) == LoadOf(routes, x, i, n) + LoadOf(routes, y, i, n)
  {
    if n > 0 {
      LoadSum(routes, x, y, z, i, n - 1);
      TimesZero(Count(routes[n - 1], i));
    }
  }

  // ---------------------------------------------------------------- fairness

  /** All long flows' rates, scaled or not. */
  function LongRates(flows: seq<Flow>): (r: seq<real>)
    ensures |r| == |flows|
    ensures forall j | 0 <= j < |flows| :: r[j] == if flows[j].isShort then 0.0 else flows[j].tput
  {
    seq(|flows|, j requires 0 <= j < |flows| => if flows[j].isShort then 0.0 else flows[j].tput)
  }

  predicate SameKinds(before: seq<Flow>, after: seq<Flow>) {
    && |before| == |after|
    && forall j | 0 <= j < |before| ::
         after[j].isShort == before[j].isShort && (before[j].isShort ==> after[j].tput == before[j].tput)
  }

  /** Link b is full, and of the long flows crossing it none gained a larger factor than f. */
  ghost predicate Bottleneck(routes: Routes, mu: seq<real>, before: seq<Flow>, after: seq<Flow>, f: nat, b: nat)
    requires |routes| == |before| == |after| && f < |routes|
  {
    && b < |mu| && Crosses(routes, f, b)
    && Load(routes, LongRates(after), b) == Capacity(routes, before, mu[b], b)
    && forall g | 0 <= g < |routes| && !before[g].isShort && Crosses(routes, g, b) ::
         after[g].tput * before[f].tput <= after[f].tput * before[g].tput
  }

  /** f crosses a link that the short flows leave something of. */
  ghost predicate Servable(routes: Routes, mu: seq<real>, before: seq<Flow>, f: nat)
    requires |routes| == |before| && f < |routes|
  {
    !before[f].isShort && exists b: nat :: b < |mu| && Crosses(routes, f, b) && Capacity(routes, before, mu[b], b) > 0.0
  }

  /** Rates for the long flows that fit into every link. */
  ghost predicate Fits(routes: Routes, mu: seq<real>, before: seq<Flow>, rates: seq<real>)
    requires |routes| == |before| == |rates|
  {
    forall b | 0 <= b < |mu| && Capacity(routes, before, mu[b], b) > 0.0 ::
      Load(routes, rates, b) <= Capacity(routes, before, mu[b], b)
  }

  ghost predicate Fair(routes: Routes, mu: seq<real>, before: seq<Flow>, after: seq<Flow>)
    requires |routes| == |before| == |after|
  {
    forall f | 0 <= f < |routes| && Servable(routes, mu, before, f) ::
      exists b: nat :: Bottleneck(routes, mu, before, after, f, b) && Capacity(routes, before, mu[b], b) > 0.0
  }

  /** Weighted max-min fairness: any other allocation that fits and gives f more gives less
      to some flow that was no better off than f. */
  lemma MaxMinFair(routes: Routes, mu: seq<real>, before: seq<Flow>, after: seq<Flow>, rates: seq<real>, f: nat)
    requires |routes| == |before| == |after| == |rates| && SameKinds(before, after)
    requires Fair(routes, mu, before, after) && Fits(routes, mu, before, rates)
    requires forall j | 0 <= j < |before| && before[j].isShort :: rates[j] == 0.0
    requires f < |routes| && Servable(routes, mu, before, f) && rates[f] > after[f].tput
    ensures exists g :: 0 <= g < |routes| && !before[g].isShort && rates[g] < after[g].tput
                        && after[g].tput * before[f].tput <= after[f].tput * before[g].tput
  {
    var b: nat :| Bottleneck(routes, mu, before, after, f, b) && Capacity(routes, before, mu[b], b) > 0.0;
    var x := LongRates(after);
    assert x[f] < rates[f] && Crosses(routes, f, b);
    if forall g | 0 <= g < |routes| && Crosses(routes, g, b) :: x[g] <= rates[g] {
      LoadMonotone(routes, x, rates, b, |routes|);
    }
  }
}
