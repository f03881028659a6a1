/**
 * The token bucket filter as a timed state machine, and what it promises over every run:
 * conformance on every interval, an exact timer, and first-in first-out service.
 */
module TbfModel {
  import opened Options

  /** A packet; the filter works in bits, eight per byte of `size`. */
  datatype Packet = Packet(id: int, size: nat)

  datatype Params = Params(rate: real, bucket: int, qlen: int)

  /** `due` is when the pending timer expires; `clock` the time of the last event. */
  datatype State = State(
    tokens: real, lastUpdate: real, q: seq<Packet>, due: Option<real>, init: bool, clock: real)

  datatype Event = Arrive(now: real, p: Packet) | Fire

  datatype Outcome = Sent(p: Packet) | Queued(p: Packet) | Dropped(p: Packet)

  function Bits(p: Packet): real {
    (8 * p.size) as real
  }

  function MinReal(a: real, b: real): real {
    if a < b then a else b
  }

  /** Tokens that accrue from one instant to another. */
  function Accrual(rate: real, from: real, to: real): real {
    (to - from) * rate
  }

  /** When `need` more tokens will have accrued. */
  function DueAt(rate: real, now: real, need: real): real
    requires rate > 0.0
  {
    now + need / rate
  }

  const INITIAL := State(0.0, 0.0, [], None, true, 0.0)

  /** getupdatedtokens. */
  function Refilled(c: Params, s: State, now: real): State {
    s.(tokens := MinReal(s.tokens + Accrual(c.rate, s.lastUpdate, now), c.bucket as real), lastUpdate := now)
  }

  function Recv(c: Params, s0: State, p: Packet, now: real): (State, Outcome)
    requires c.rate > 0.0
  {
    var s := (if s0.init then s0.(tokens := c.bucket as real, lastUpdate := now, init := false) else s0).(clock := now);
    if s.q != [] then
      if |s.q| < c.qlen then (s.(q := s.q + [p]), Queued(p)) else (s, Dropped(p))
    else
      var r := Refilled(c, s, now);
      if r.tokens >= Bits(p) then (r.(tokens := r.tokens - Bits(p)), Sent(p))
      else if c.qlen != 0 then (r.(q := [p], due := Some(DueAt(c.rate, now, Bits(p) - r.tokens))), Queued(p))
      else (r, Dropped(p))
  }

  function Timeout(c: Params, s: State, now: real): (State, Outcome)
    requires c.rate > 0.0 && s.q != []
  {
    var p := s.q[0];
    var r := Refilled(c, s, now);
    var k := r.tokens - Bits(p);
    var rest := s.q[1..];
    var due := if rest == [] then None else Some(DueAt(c.rate, now, Bits(rest[0]) - k));
    (r.(tokens := k, q := rest, due := due, clock := now), Sent(p))
  }

  /** When the scheduler can deliver an event: in time order, the timer exactly when due. */
  predicate Enabled(s: State, e: Event) {
    match e
    case Arrive(now, _) => now >= s.clock && (s.due.Some? ==> now <= s.due.value)
    case Fire => s.due.Some? && s.q != []
  }

  function Time(s: State, e: Event): real
    requires Enabled(s, e)
  {
    match e
    case Arrive(now, _) => now
    case Fire => s.due.value
  }

  function Step(c: Params, s: State, e: Event): (State, Outcome)
    requires c.rate > 0.0 && Enabled(s, e)
  {
    match e
    case Arrive(now, p) => Recv(c, s, p, now)
    case Fire => Timeout(c, s, s.due.value)
  }

  /** All events of the list happen, each when the scheduler can deliver it. */
  predicate Runs(c: Params, s: State, es: seq<Event>)
    requires c.rate > 0.0
    decreases |es|
  {
    es == [] || (Enabled(s, es[0]) && Runs(c, Step(c, s, es[0]).0, es[1..]))
  }

  function Run(c: Params, s: State, es: seq<Event>): State
    requires c.rate > 0.0 && Runs(c, s, es)
    decreases |es|
  {
    if es == [] then s else Run(c, Step(c, s, es[0]).0, es[1..])
  }

  // ---------------------------------------------------------------- the invariant

  /** The timer is pending exactly when packets wait, and due when the head's tokens are. */
  predicate TimerExact(c: Params, s: State) {
    && (s.due.Some? <==> s.q != [])
    && (s.q != [] ==>
          && !s.init && s.due.value >= s.clock
          && Accrual(c.rate, s.lastUpdate, s.due.value) == Bits(s.q[0]) - s.tokens)
  }

  predicate Ok(c: Params, s: State) {
    && TimerExact(c, s)
    && (s.init ==> s.q == [] && s.tokens == 0.0)
    && (!s.init ==> s.lastUpdate <= s.clock && s.tokens <= c.bucket as real)
  }

  lemma AccrualFacts(rate: real, a: real, b: real, c: real)
    requires rate > 0.0
    ensures Accrual(rate, a, b) + Accrual(rate, b, c) == Accrual(rate, a, c)
    ensures Accrual(rate, a, a) == 0.0
    ensures a <= b ==> Accrual(rate, a, b) >= 0.0
  {
  }

  /** The unchecked send of the timer finds exactly the head's bits, or a full bucket when
      the head could never fit. */
  lemma TimeoutOk(c: Params, s: State)
    requires c.rate > 0.0 && c.bucket >= 0 && Ok(c, s) && s.q != []
    ensures var s' := Timeout(c, s, s.due.value).0;
            Ok(c, s') && s'.tokens == MinReal(Bits(s.q[0]), c.bucket as real) - Bits(s.q[0])
  {
  }

  lemma RecvOk(c: Params, s: State, p: Packet, now: real)
    requires c.rate > 0.0 && c.bucket >= 0 && Ok(c, s) && Enabled(s, Arrive(now, p))
    ensures Ok(c, Recv(c, s, p, now).0)
  {
  }

  /** Every event keeps the invariant. */
  lemma StepOk(c: Params, s: State, e: Event)
    requires c.rate > 0.0 && c.bucket >= 0 && Ok(c, s) && Enabled(s, e)
    ensures Ok(c, Step(c, s, e).0) && Step(c, s, e).0.clock == Time(s, e) >= s.clock
  {
    match e
    case Arrive(now, p) => RecvOk(c, s, p, now);
    case Fire => TimeoutOk(c, s);
  }

  lemma {:induction false} RunOk(c: Params, s: State, es: seq<Event>)
    requires c.rate > 0.0 && c.bucket >= 0 && Ok(c, s) && Runs(c, s, es)
    ensures Ok(c, Run(c, s, es))
    decreases |es|
  {
    if es != [] {
      StepOk(c, s, es[0]);
      RunOk(c, Step(c, s, es[0]).0, es[1..]);
    }
  }

  /** In every reachable state the timer is exact, and when it fires the head is paid for to
      the bit precisely when it fits the bucket. */
  lemma TimerTheorem(c: Params, es: seq<Event>)
    requires c.rate > 0.0 && c.bucket >= 0 && Runs(c, INITIAL, es)
    ensures var s := Run(c, INITIAL, es);
            && TimerExact(c, s)
            && (s.q != [] ==> (Timeout(c, s, s.due.value).0.tokens == 0.0 <==> Bits(s.q[0]) <= c.bucket as real))
  {
    RunOk(c, INITIAL, es);
    var s := Run(c, INITIAL, es);
    if s.q != [] {
      TimeoutOk(c, s);
    }
  }

  // ---------------------------------------------------------------- conformance

  function SentBits(o: Outcome): real {
    if o.Sent? then Bits(o.p) else 0.0
  }

  /** The packets forwarded during a run, in order. */
  function SentPackets(c: Params, s: State, es: seq<Event>): seq<Packet>
    requires c.rate > 0.0 && Runs(c, s, es)
    decreases |es|
  {
    if es == [] then []
    else
      var (s', o) := Step(c, s, es[0]);
      (if o.Sent? then [o.p] else []) + SentPackets(c, s', es[1..])
  }

  /** Bits forwarded at times in [t1, t2] during a run. */
  function Forwarded(c: Params, s: State, es: seq<Event>, t1: real, t2: real): real
    requires c.rate > 0.0 && Runs(c, s, es)
    decreases |es|
  {
    if es == [] then 0.0
    else
      var (s', o) := Step(c, s, es[0]);
      (if t1 <= Time(s, es[0]) <= t2 then SentBits(o) else 0.0) + Forwarded(c, s', es[1..], t1, t2)
  }

  predicate FitsBucket(c: Params, p: Packet) {
    Bits(p) <= c.bucket as real
  }

  /** Every packet forwarded during the run fits the bucket. */
  predicate SentFit(c: Params, s: State, es: seq<Event>)
    requires c.rate > 0.0 && Runs(c, s, es)
  {
    forall p | p in SentPackets(c, s, es) :: FitsBucket(c, p)
  }

  lemma SentFitSplit(c: Params, s: State, es: seq<Event>)
    requires c.rate > 0.0 && Runs(c, s, es) && es != []
    ensures var (s', o) := Step(c, s, es[0]);
            SentFit(c, s, es) <==> (o.Sent? ==> FitsBucket(c, o.p)) && SentFit(c, s', es[1..])
  {
    var (s', o) := Step(c, s, es[0]);
    var rest := SentPackets(c, s', es[1..]);
    if o.Sent? {
      assert SentPackets(c, s, es) == [o.p] + rest;
      assert o.p in [o.p] + rest;
    } else {
      assert SentPackets(c, s, es) == [] + rest;
    }
  }

  /** No debt is carried. */
  predicate Solvent(s: State) {
    s.tokens >= 0.0
  }

  /** Tokens on hand at time t if nothing is sent before. */
  function Credit(c: Params, s: State, t: real): real {
    if s.init then c.bucket as real
    else MinReal(s.tokens + Accrual(c.rate, s.lastUpdate, t), c.bucket as real)
  }

  /** One event spends no more than the credit at its time, and what is left is credit again. */
  lemma StepCredit(c: Params, s: State, e: Event)
    requires c.rate > 0.0 && c.bucket >= 0 && Ok(c, s) && Solvent(s) && Enabled(s, e)
    requires var o := Step(c, s, e).1; o.Sent? ==> FitsBucket(c, o.p)
    ensures var (s', o) := Step(c, s, e);
            && Solvent(s') && !s'.init && 0.0 <= SentBits(o)
            && SentBits(o) + Credit(c, s', Time(s, e)) <= Credit(c, s, Time(s, e))
  {
    match e
    case Arrive(now, p) => ArriveCredit(c, s, p, now);
    case Fire =>
      TimeoutOk(c, s);
      AccrualFacts(c.rate, s.due.value, s.due.value, s.due.value);
  }

  lemma ArriveCredit(c: Params, s: State, p: Packet, now: real)
    requires c.rate > 0.0 && c.bucket >= 0 && Ok(c, s) && Solvent(s) && Enabled(s, Arrive(now, p))
    ensures var (s', o) := Recv(c, s, p, now);
            Solvent(s') && !s'.init && 0.0 <= SentBits(o) && SentBits(o) + Credit(c, s', now) <= Credit(c, s, now)
  {
    AccrualFacts(c.rate, now, now, now);
    AccrualFacts(c.rate, s.lastUpdate, now, now);
  }

  /** Credit accrues at the token rate and never exceeds the bucket. */
  lemma CreditGrows(c: Params, s: State, t: real, t': real)
    requires c.rate > 0.0 && !s.init && t <= t'
    ensures Credit(c, s, t') <= Credit(c, s, t) + Accrual(c.rate, t, t')
    ensures Credit(c, s, t) <= c.bucket as real
  {
  }

  lemma CreditNonNegative(c: Params, s: State)
    requires c.rate > 0.0 && c.bucket >= 0 && Ok(c, s) && Solvent(s) && !s.init
    ensures Credit(c, s, s.clock) >= 0.0
  {
    AccrualFacts(c.rate, s.lastUpdate, s.clock, s.clock);
  }

  /** The part of a run still to come forwards at most the present credit and what accrues. */
  lemma {:induction false} SpendBound(c: Params, s: State, es: seq<Event>, t1: real, t2: real)
    requires c.rate > 0.0 && c.bucket >= 0 && Ok(c, s) && Solvent(s) && Runs(c, s, es) && !s.init
    requires SentFit(c, s, es) && s.clock <= t2
    ensures Forwarded(c, s, es, t1, t2) <= Credit(c, s, s.clock) + Accrual(c.rate, s.clock, t2)
    decreases |es|
  {
    CreditNonNegative(c, s);
    AccrualFacts(c.rate, s.clock, t2, t2);
    if es != [] {
      var s', t := Step(c, s, es[0]).0, Time(s, es[0]);
      StepOk(c, s, es[0]);
      SentFitSplit(c, s, es);
      if t <= t2 {
        StepCredit(c, s, es[0]);
        SpendBound(c, s', es[1..], t1, t2);
        CreditGrows(c, s, s.clock, t);
        AccrualFacts(c.rate, s.clock, t, t2);
      } else {
        NothingLater(c, s', es[1..], t1, t2);
      }
    }
  }

  lemma {:induction false} NothingLater(c: Params, s: State, es: seq<Event>, t1: real, t2: real)
    requires c.rate > 0.0 && c.bucket >= 0 && Ok(c, s) && Runs(c, s, es) && s.clock > t2
    ensures Forwarded(c, s, es, t1, t2) == 0.0
    decreases |es|
  {
    if es != [] {
      StepOk(c, s, es[0]);
      NothingLater(c, Step(c, s, es[0]).0, es[1..], t1, t2);
    }
  }

  lemma {:induction false} Conforms(c: Params, s: State, es: seq<Event>, t1: real, t2: real)
    requires c.rate > 0.0 && c.bucket >= 0 && Ok(c, s) && Solvent(s) && Runs(c, s, es)
    requires SentFit(c, s, es) && t1 <= t2
    ensures Forwarded(c, s, es, t1, t2) <= c.bucket as real + Accrual(c.rate, t1, t2)
    decreases |es|
  {
    AccrualFacts(c.rate, t1, t2, t2);
    if es != [] {
      var s', t := Step(c, s, es[0]).0, Time(s, es[0]);
      StepOk(c, s, es[0]);
      SentFitSplit(c, s, es);
      StepCredit(c, s, es[0]);
      if t < t1 {
        Conforms(c, s', es[1..], t1, t2);
      } else if t <= t2 {
        SpendBound(c, s', es[1..], t1, t2);
        AccrualFacts(c.rate, t1, t, t2);
      } else {
        NothingLater(c, s', es[1..], t1, t2);
      }
    }
  }

  /** For packets no larger than the bucket: on every interval of every run, at most
      bucket + rate * length bits are forwarded. */
  lemma Conformance(c: Params, es: seq<Event>, t1: real, t2: real)
    requires c.rate > 0.0 && c.bucket >= 0 && Runs(c, INITIAL, es) && t1 <= t2
    requires forall e | e in es :: e.Arrive? ==> FitsBucket(c, e.p)
    ensures Forwarded(c, INITIAL, es, t1, t2) <= c.bucket as real + Accrual(c.rate, t1, t2)
  {
    SentArrived(c, INITIAL, es);
    Conforms(c, INITIAL, es, t1, t2);
  }

  lemma {:induction false} SentArrived(c: Params, s: State, es: seq<Event>)
    requires c.rate > 0.0 && Runs(c, s, es)
    requires forall e | e in es :: e.Arrive? ==> FitsBucket(c, e.p)
    requires forall p | p in s.q :: FitsBucket(c, p)
    ensures SentFit(c, s, es)
    decreases |es|
  {
    if es != [] {
      assert es[0] in es;
      SentArrived(c, Step(c, s, es[0]).0, es[1..]);
      SentFitSplit(c, s, es);
    }
  }

  lemma {:induction false} ForwardedNonNegative(c: Params, s: State, es: seq<Event>, t1: real, t2: real)
    requires c.rate > 0.0 && Runs(c, s, es)
    ensures Forwarded(c, s, es, t1, t2) >= 0.0
    decreases |es|
  {
    if es != [] {
      ForwardedNonNegative(c, Step(c, s, es[0]).0, es[1..], t1, t2);
    }
  }

  /** A packet that is forwarded is forwarded at some instant. */
  lemma {:induction false} SentAt(c: Params, s: State, es: seq<Event>, p: Packet) returns (t: real)
    requires c.rate > 0.0 && Runs(c, s, es) && p in SentPackets(c, s, es)
    ensures Forwarded(c, s, es, t, t) >= Bits(p)
    decreases |es|
  {
    var (s', o) := Step(c, s, es[0]);
    if o == Sent(p) {
      t := Time(s, es[0]);
      ForwardedNonNegative(c, s', es[1..], t, t);
    } else {
      t := SentAt(c, s', es[1..], p);
    }
  }

  predicate ConformsOn(c: Params, es: seq<Event>, t1: real, t2: real)
    requires c.rate > 0.0 && Runs(c, INITIAL, es)
  {
    Forwarded(c, INITIAL, es, t1, t2) <= c.bucket as real + Accrual(c.rate, t1, t2)
  }

  /** The size limit is exact: a run conforms on every interval if and only if every packet it
      forwards fits the bucket. */
  lemma ConformanceIff(c: Params, es: seq<Event>)
    requires c.rate > 0.0 && c.bucket >= 0 && Runs(c, INITIAL, es)
    ensures (forall t1, t2 | t1 <= t2 :: ConformsOn(c, es, t1, t2)) <==> SentFit(c, INITIAL, es)
  {
    if SentFit(c, INITIAL, es) {
      forall t1, t2 | t1 <= t2
        ensures ConformsOn(c, es, t1, t2)
      {
        Conforms(c, INITIAL, es, t1, t2);
      }
    } else {
      var p :| p in SentPackets(c, INITIAL, es) && !FitsBucket(c, p);
      var t := SentAt(c, INITIAL, es, p);
      AccrualFacts(c.rate, t, t, t);
      assert !ConformsOn(c, es, t, t);
    }
  }

  lemma RunTwo(c: Params, s: State, e: Event, f: Event)
    requires c.rate > 0.0 && Enabled(s, e) && Enabled(Step(c, s, e).0, f)
    ensures Runs(c, s, [e, f])
    ensures forall t1, t2 :: Forwarded(c, s, [e, f], t1, t2) ==
                             (if t1 <= Time(s, e) <= t2 then SentBits(Step(c, s, e).1) else 0.0) +
                             Forwarded(c, Step(c, s, e).0, [f], t1, t2)
  {
    assert [e, f][1..] == [f];
  }

  /** A packet that does not fit is forwarded: first in line, it waits for its tokens, the refill stops at the
      full bucket, and the timer sends it all the same. */
  lemma OversizeIsSent(c: Params, now: real, p: Packet)
    requires c.rate > 0.0 && c.bucket >= 0 && c.qlen != 0 && now >= 0.0 && Bits(p) > c.bucket as real
    ensures var run, t := [Arrive(now, p), Fire], DueAt(c.rate, now, Bits(p) - c.bucket as real);
            && Runs(c, INITIAL, run) && SentPackets(c, INITIAL, run) == [p]
            && Forwarded(c, INITIAL, run, t, t) > c.bucket as real + Accrual(c.rate, t, t)
  {
    var e := Arrive(now, p);
    var (s, o) := Step(c, INITIAL, e);
    assert s.q == [p] && s.due == Some(DueAt(c.rate, now, Bits(p) - c.bucket as real)) && o == Queued(p);
    RunTwo(c, INITIAL, e, Fire);
    assert [e, Fire][1..] == [Fire];
    var t := s.due.value;
    assert Forwarded(c, INITIAL, [e, Fire], t, t) == Forwarded(c, s, [Fire], t, t);
  }

  // ---------------------------------------------------------------- order and conservation

  /** The arrivals that were not dropped, in order of arrival. */
  function Admitted(c: Params, s: State, es: seq<Event>): seq<Packet>
    requires c.rate > 0.0 && Runs(c, s, es)
    decreases |es|
  {
    if es == [] then []
    else
      var (s', o) := Step(c, s, es[0]);
      (if es[0].Arrive? && !o.Dropped? then [es[0].p] else []) + Admitted(c, s', es[1..])
  }

  lemma QueueStep(c: Params, s: State, e: Event)
    requires c.rate > 0.0 && Enabled(s, e)
    ensures var (s', o) := Step(c, s, e);
            s.q + (if e.Arrive? && !o.Dropped? then [e.p] else []) == (if o.Sent? then [o.p] else []) + s'.q
  {
  }

  /** Packets leave in arrival order: what was admitted is what was sent and then what waits. */
  lemma {:induction false} FirstInFirstOut(c: Params, s: State, es: seq<Event>)
    requires c.rate > 0.0 && Runs(c, s, es)
    ensures s.q + Admitted(c, s, es) == SentPackets(c, s, es) + Run(c, s, es).q
    decreases |es|
  {
    if es != [] {
      var (s', o) := Step(c, s, es[0]);
      FirstInFirstOut(c, s', es[1..]);
      QueueStep(c, s, es[0]);
      var a := if es[0].Arrive? && !o.Dropped? then [es[0].p] else [];
      var b := if o.Sent? then [o.p] else [];
      var rest, sent := Admitted(c, s', es[1..]), SentPackets(c, s', es[1..]);
      assert Admitted(c, s, es) == a + rest && SentPackets(c, s, es) == b + sent;
      Regroup(s.q, a, rest, b, s'.q, sent, Run(c, s, es).q);
    }
  }

  lemma Regroup(q: seq<Packet>, a: seq<Packet>, rest: seq<Packet>, b: seq<Packet>, q': seq<Packet>,
                sent: seq<Packet>, last: seq<Packet>)
    requires q + a == b + q' && q' + rest == sent + last
    ensures q + (a + rest) == (b + sent) + last
  {
    assert q + (a + rest) == (q + a) + rest;
    assert (b + q') + rest == b + (q' + rest);
    assert b + (sent + last) == (b + sent) + last;
  }
}
