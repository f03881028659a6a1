/**
 * What becomes of every packet that arrives at the token bucket filter: exactly when it is sent,
 * queued or dropped, told from the tokens, and told from what the filter has forwarded so far.
 * A stream that keeps to the bound is not held up.
 */
module TbfOutcome {
  import opened Options
  import opened TbfModel

  // ---------------------------------------------------------------- one arrival

  /** A packet is sent at once exactly when nothing waits and the tokens accrued up to the bucket
      cover it, dropped exactly when it would have to wait and may not, and queued otherwise. */
  lemma ArrivalOutcome(c: Params, s: State, now: real, p: Packet)
    requires c.rate > 0.0 && c.bucket >= 0 && Ok(c, s) && Enabled(s, Arrive(now, p))
    ensures var (s', o) := Step(c, s, Arrive(now, p));
            && (o == Sent(p) || o == Queued(p) || o == Dropped(p))
            && (o.Sent? <==> s.q == [] && Credit(c, s, now) >= Bits(p))
            && (o.Dropped? <==> if s.q != [] then |s.q| >= c.qlen else Credit(c, s, now) < Bits(p) && c.qlen == 0)
            && s'.q == (if o.Queued? then s.q + [p] else s.q)
            && Credit(c, s', now) == Credit(c, s, now) - SentBits(o)
  {
    AccrualFacts(c.rate, now, now, now);
  }

  /** The same in every reachable state. */
  lemma ArrivalTheorem(c: Params, es: seq<Event>, now: real, p: Packet)
    requires c.rate > 0.0 && c.bucket >= 0 && Runs(c, INITIAL, es)
    requires Enabled(Run(c, INITIAL, es), Arrive(now, p))
    ensures var s := Run(c, INITIAL, es);
            var (s', o) := Step(c, s, Arrive(now, p));
            && (o == Sent(p) || o == Queued(p) || o == Dropped(p))
            && (o.Sent? <==> s.q == [] && Credit(c, s, now) >= Bits(p))
            && (o.Dropped? <==> if s.q != [] then |s.q| >= c.qlen else Credit(c, s, now) < Bits(p) && c.qlen == 0)
            && s'.q == (if o.Queued? then s.q + [p] else s.q)
  {
    RunOk(c, INITIAL, es);
    ArrivalOutcome(c, Run(c, INITIAL, es), now, p);
  }

  // ---------------------------------------------------------------- what the credit is

  /** One event spends exactly what it sends. */
  lemma StepSpends(c: Params, s: State, e: Event)
    requires c.rate > 0.0 && c.bucket >= 0 && Ok(c, s) && Enabled(s, e)
    requires var o := Step(c, s, e).1; o.Sent? ==> FitsBucket(c, o.p)
    ensures var (s', o) := Step(c, s, e);
            !s'.init && SentBits(o) + Credit(c, s', Time(s, e)) == Credit(c, s, Time(s, e))
  {
    match e
    case Arrive(now, p) => ArrivalOutcome(c, s, now, p);
    case Fire =>
      TimeoutOk(c, s);
      AccrualFacts(c.rate, s.due.value, s.due.value, s.due.value);
  }

  /** From one instant to a later one the credit grows by what accrues, up to the bucket. */
  lemma CreditLater(c: Params, s: State, t: real, t': real)
    requires c.rate > 0.0 && t <= t'
    ensures Credit(c, s, t') <= c.bucket as real
    ensures Credit(c, s, t') <= Credit(c, s, t) + Accrual(c.rate, t, t')
    ensures Credit(c, s, t') == c.bucket as real || Credit(c, s, t') == Credit(c, s, t) + Accrual(c.rate, t, t')
  {
    AccrualFacts(c.rate, t, t', t');
    AccrualFacts(c.rate, s.lastUpdate, t, t');
  }

  /** Everything in a run happens from its starting time on. */
  lemma {:induction false} ForwardedFrom(c: Params, s: State, es: seq<Event>, t1: real, t2: real, t: real)
    requires c.rate > 0.0 && c.bucket >= 0 && Ok(c, s) && Runs(c, s, es) && t1 <= s.clock && t2 <= s.clock
    ensures Forwarded(c, s, es, t1, t) == Forwarded(c, s, es, t2, t)
    decreases |es|
  {
    if es != [] {
      StepOk(c, s, es[0]);
      ForwardedFrom(c, Step(c, s, es[0]).0, es[1..], t1, t2, t);
    }
  }

  /** What has been forwarded from t1 on and what can still be sent at t make up a full bucket and
      all tokens since t1. */
  predicate Full(c: Params, s: State, es: seq<Event>, t1: real, t: real)
    requires c.rate > 0.0 && Runs(c, s, es)
  {
    Forwarded(c, s, es, t1, t) + Credit(c, Run(c, s, es), t) == c.bucket as real + Accrual(c.rate, t1, t)
  }

  /** The same for the starting state and its credit. */
  predicate FromStart(c: Params, s: State, es: seq<Event>, t: real)
    requires c.rate > 0.0 && Runs(c, s, es)
  {
    Forwarded(c, s, es, s.clock, t) + Credit(c, Run(c, s, es), t) ==
    Credit(c, s, s.clock) + Accrual(c.rate, s.clock, t)
  }

  lemma {:induction false} CreditAtMost(c: Params, s: State, es: seq<Event>, t1: real, t: real)
    requires c.rate > 0.0 && c.bucket >= 0 && Ok(c, s) && Solvent(s) && Runs(c, s, es) && SentFit(c, s, es)
    requires Run(c, s, es).clock <= t && t1 <= t
    ensures s.clock <= t
    ensures Forwarded(c, s, es, t1, t) + Credit(c, Run(c, s, es), t) <= c.bucket as real + Accrual(c.rate, t1, t)
    ensures t1 <= s.clock ==>
              Forwarded(c, s, es, t1, t) + Credit(c, Run(c, s, es), t) <= Credit(c, s, s.clock) + Accrual(c.rate, s.clock, t)
    decreases |es|
  {
    AccrualFacts(c.rate, t1, t, t);
    if es == [] {
      CreditLater(c, s, s.clock, t);
    } else {
      var s', u := Step(c, s, es[0]).0, Time(s, es[0]);
      StepOk(c, s, es[0]);
      SentFitSplit(c, s, es);
      StepCredit(c, s, es[0]);
      StepSpends(c, s, es[0]);
      CreditAtMost(c, s', es[1..], t1, t);
      CreditLater(c, s, s.clock, u);
      AccrualFacts(c.rate, t1, u, t);
      AccrualFacts(c.rate, s.clock, u, t);
    }
  }

  lemma {:induction false} CreditAttained(c: Params, s: State, es: seq<Event>, t: real) returns (t1: real)
    requires c.rate > 0.0 && c.bucket >= 0 && Ok(c, s) && Solvent(s) && Runs(c, s, es) && SentFit(c, s, es)
    requires Run(c, s, es).clock <= t
    ensures s.clock <= t
    ensures (s.clock < t1 <= t && Full(c, s, es, t1, t)) || FromStart(c, s, es, t)
    decreases |es|
  {
    AccrualFacts(c.rate, t, t, t);
    if es == [] {
      CreditLater(c, s, s.clock, t);
      t1 := t;
    } else {
      var s', u := Step(c, s, es[0]).0, Time(s, es[0]);
      StepOk(c, s, es[0]);
      SentFitSplit(c, s, es);
      StepCredit(c, s, es[0]);
      StepSpends(c, s, es[0]);
      t1 := CreditAttained(c, s', es[1..], t);
      if !(u < t1 <= t && Full(c, s', es[1..], t1, t)) {
        ForwardedFrom(c, s', es[1..], s.clock, u, t);
        CreditLater(c, s, s.clock, u);
        AccrualFacts(c.rate, s.clock, u, t);
        t1 := u;
      }
    }
  }

  /** Sending `bits` now would keep to the bound on every interval that ends now. */
  ghost predicate WouldConform(c: Params, es: seq<Event>, now: real, bits: real)
    requires c.rate > 0.0 && Runs(c, INITIAL, es)
  {
    forall t1 | t1 <= now ::
      Forwarded(c, INITIAL, es, t1, now) + bits <= c.bucket as real + Accrual(c.rate, t1, now)
  }

  /** The tokens are exactly what the bound still allows. */
  lemma CreditIs(c: Params, es: seq<Event>, t: real, bits: real)
    requires c.rate > 0.0 && c.bucket >= 0 && Runs(c, INITIAL, es) && SentFit(c, INITIAL, es)
    requires Run(c, INITIAL, es).clock <= t
    ensures Credit(c, Run(c, INITIAL, es), t) >= bits <==> WouldConform(c, es, t, bits)
  {
    var now := Credit(c, Run(c, INITIAL, es), t);
    forall t1 | t1 <= t
      ensures Forwarded(c, INITIAL, es, t1, t) + now <= c.bucket as real + Accrual(c.rate, t1, t)
    {
      CreditAtMost(c, INITIAL, es, t1, t);
    }
    var t1 := CreditAttained(c, INITIAL, es, t);
    if !Full(c, INITIAL, es, t1, t) || t1 > t {
      assert Full(c, INITIAL, es, 0.0, t);
    }
  }

  /** As long as no packet larger than the bucket has been forwarded: a packet that arrives is sent
      at once if and only if nothing waits and sending it keeps to the bound on every interval. */
  lemma SentIffConforming(c: Params, es: seq<Event>, now: real, p: Packet)
    requires c.rate > 0.0 && c.bucket >= 0 && Runs(c, INITIAL, es) && SentFit(c, INITIAL, es)
    requires Enabled(Run(c, INITIAL, es), Arrive(now, p))
    ensures Step(c, Run(c, INITIAL, es), Arrive(now, p)).1 == Sent(p) <==>
            Run(c, INITIAL, es).q == [] && WouldConform(c, es, now, Bits(p))
  {
    ArrivalTheorem(c, es, now, p);
    CreditIs(c, es, now, Bits(p));
  }

  // ---------------------------------------------------------------- streams within the bound

  datatype Timed = Timed(at: real, p: Packet)

  predicate InTimeOrder(ts: seq<Timed>, from: real) {
    forall i | 0 <= i < |ts| :: from <= ts[i].at && (i > 0 ==> ts[i - 1].at <= ts[i].at)
  }

  /** Bits that arrive at times in [t1, t2]. */
  function Offered(ts: seq<Timed>, t1: real, t2: real): real {
    if ts == [] then 0.0
    else (if t1 <= ts[0].at <= t2 then Bits(ts[0].p) else 0.0) + Offered(ts[1..], t1, t2)
  }

  function Arrivals(ts: seq<Timed>): (es: seq<Event>)
    ensures |es| == |ts|
  {
    seq(|ts|, i requires 0 <= i < |ts| => Arrive(ts[i].at, ts[i].p))
  }

  function Packets(ts: seq<Timed>): (ps: seq<Packet>)
    ensures |ps| == |ts|
  {
    seq(|ts|, i requires 0 <= i < |ts| => ts[i].p)
  }

  /** The stream keeps to bucket + rate * length on every interval. */
  ghost predicate WithinBound(c: Params, ts: seq<Timed>) {
    forall t1, t2 | t1 <= t2 :: Offered(ts, t1, t2) <= c.bucket as real + Accrual(c.rate, t1, t2)
  }

  /** From now on the stream keeps to the credit at hand. */
  ghost predicate WithinCredit(c: Params, s: State, ts: seq<Timed>) {
    forall t | s.clock <= t :: Offered(ts, s.clock, t) <= Credit(c, s, s.clock) + Accrual(c.rate, s.clock, t)
  }

  lemma {:induction false} OfferedFrom(ts: seq<Timed>, from: real, t1: real, t2: real, t: real)
    requires InTimeOrder(ts, from) && t1 <= from && t2 <= from
    ensures Offered(ts, t1, t) == Offered(ts, t2, t)
  {
    if ts != [] {
      assert forall i | 0 <= i < |ts[1..]| :: ts[1..][i] == ts[i + 1] && ts[1..][i].at >= ts[i].at;
      assert InTimeOrder(ts[1..], from);
      OfferedFrom(ts[1..], from, t1, t2, t);
    }
  }

  lemma {:induction false} OfferedNonNegative(ts: seq<Timed>, t1: real, t2: real)
    ensures Offered(ts, t1, t2) >= 0.0
  {
    if ts != [] {
      OfferedNonNegative(ts[1..], t1, t2);
    }
  }

  lemma {:induction false} LaterInOrder(ts: seq<Timed>, from: real)
    requires ts != [] && InTimeOrder(ts, from)
    ensures InTimeOrder(ts[1..], ts[0].at)
  {
    forall i | 0 <= i < |ts[1..]|
      ensures ts[0].at <= ts[1..][i].at && (i > 0 ==> ts[1..][i - 1].at <= ts[1..][i].at)
    {
      FirstIsEarliest(ts, from, i + 1);
    }
  }

  lemma {:induction false} FirstIsEarliest(ts: seq<Timed>, from: real, i: nat)
    requires i < |ts| && InTimeOrder(ts, from)
    ensures ts[0].at <= ts[i].at
  {
    if i > 0 {
      FirstIsEarliest(ts, from, i - 1);
    }
  }

  /** The first packet of such a stream is covered, and what is left keeps to the credit left. */
  lemma FirstCovered(c: Params, s: State, ts: seq<Timed>)
    requires c.rate > 0.0 && c.bucket >= 0 && Ok(c, s) && s.q == [] && ts != [] && InTimeOrder(ts, s.clock)
    requires WithinBound(c, ts) && WithinCredit(c, s, ts)
    ensures Enabled(s, Arrive(ts[0].at, ts[0].p))
    ensures var (s', o) := Step(c, s, Arrive(ts[0].at, ts[0].p));
            o == Sent(ts[0].p) && s'.q == [] && WithinCredit(c, s', ts[1..])
  {
    var u, p, rest := ts[0].at, ts[0].p, ts[1..];
    LaterInOrder(ts, s.clock);
    CreditLater(c, s, s.clock, u);
    forall t | u <= t
      ensures Bits(p) + Offered(rest, u, t) <= Credit(c, s, u) + Accrual(c.rate, u, t)
    {
      AccrualFacts(c.rate, s.clock, u, t);
      OfferedFrom(ts[1..], u, s.clock, u, t);
      assert Offered(ts, s.clock, t) == Bits(p) + Offered(rest, u, t);
      assert Offered(ts, u, t) == Bits(p) + Offered(rest, u, t);
    }
    AccrualFacts(c.rate, u, u, u);
    OfferedNonNegative(rest, u, u);
    ArrivalOutcome(c, s, u, p);
    StepOk(c, s, Arrive(u, p));
  }

  lemma {:induction false} PassesAtOnce(c: Params, s: State, ts: seq<Timed>)
    requires c.rate > 0.0 && c.bucket >= 0 && Ok(c, s) && s.q == [] && InTimeOrder(ts, s.clock)
    requires WithinBound(c, ts) && WithinCredit(c, s, ts)
    ensures Runs(c, s, Arrivals(ts))
    ensures SentPackets(c, s, Arrivals(ts)) == Packets(ts) && Run(c, s, Arrivals(ts)).q == []
    decreases |ts|
  {
    if ts != [] {
      FirstCovered(c, s, ts);
      LaterInOrder(ts, s.clock);
      var e := Arrive(ts[0].at, ts[0].p);
      var s' := Step(c, s, e).0;
      StepOk(c, s, e);
      RestWithin(c, ts);
      PassesAtOnce(c, s', ts[1..]);
      assert Arrivals(ts) == [e] + Arrivals(ts[1..]);
      assert Packets(ts) == [ts[0].p] + Packets(ts[1..]);
      assert Arrivals(ts)[1..] == Arrivals(ts[1..]);
    }
  }

  lemma RestWithin(c: Params, ts: seq<Timed>)
    requires ts != [] && WithinBound(c, ts)
    ensures WithinBound(c, ts[1..])
  {
    forall t1, t2 | t1 <= t2
      ensures Offered(ts[1..], t1, t2) <= c.bucket as real + Accrual(c.rate, t1, t2)
    {
      assert Offered(ts, t1, t2) >= Offered(ts[1..], t1, t2);
    }
  }

  /** The converse of conformance: a stream that keeps to the bound by itself is forwarded packet by
      packet as it arrives, with nothing queued and nothing dropped. */
  lemma Transparent(c: Params, ts: seq<Timed>)
    requires c.rate > 0.0 && c.bucket >= 0 && InTimeOrder(ts, 0.0) && WithinBound(c, ts)
    ensures Runs(c, INITIAL, Arrivals(ts))
    ensures SentPackets(c, INITIAL, Arrivals(ts)) == Packets(ts) && Run(c, INITIAL, Arrivals(ts)).q == []
  {
    assert WithinCredit(c, INITIAL, ts);
    PassesAtOnce(c, INITIAL, ts);
  }
}
