/**
 * The send buffer of AODV on values: a bounded, timed queue of packets waiting for a route.
 * Packets are numbered in the order in which they are buffered.
 */
module RqueueModel {
  import opened Options

  /** `ts` is the time at which the packet expires. */
  datatype Pkt = Pkt(id: int, dst: int, ts: real)

  const LIMIT := 64
  const TIMEOUT := 30.0

  /** The packets that have not expired, in order. */
  function Purged(q: seq<Pkt>, now: real): (r: seq<Pkt>)
    ensures |r| <= |q|
  {
    if q == [] then []
    else if q[0].ts < now then Purged(q[1..], now)
    else [q[0]] + Purged(q[1..], now)
  }

  /** The purge that only looks at the head of the queue. */
  function HeadPurge(q: seq<Pkt>, now: real): seq<Pkt> {
    if q != [] && q[0].ts < now then HeadPurge(q[1..], now) else q
  }

  /** The place of the first packet for `dst`, or |q|. */
  function FirstFor(q: seq<Pkt>, dst: int): (k: nat)
    ensures k <= |q| && forall i | 0 <= i < k :: q[i].dst != dst
    ensures k < |q| ==> q[k].dst == dst
  {
    if q == [] || q[0].dst == dst then 0 else 1 + FirstFor(q[1..], dst)
  }

  function Enque(q: seq<Pkt>, id: int, dst: int, now: real): seq<Pkt> {
    var r := Purged(q, now);
    (if |r| == LIMIT then r[1..] else r) + [Pkt(id, dst, now + TIMEOUT)]
  }

  function Deque(q: seq<Pkt>, now: real): (seq<Pkt>, Option<Pkt>) {
    var r := Purged(q, now);
    if r == [] then (r, None) else (r[1..], Some(r[0]))
  }

  function DequeFor(q: seq<Pkt>, dst: int, now: real): (seq<Pkt>, Option<Pkt>) {
    var r := Purged(q, now);
    var k := FirstFor(r, dst);
    if k == |r| then (r, None) else (RemovedAt(r, k), Some(r[k]))
  }

  // ---------------------------------------------------------------- purging

  lemma {:induction false} PurgedConcat(a: seq<Pkt>, b: seq<Pkt>, now: real)
    ensures Purged(a + b, now) == Purged(a, now) + Purged(b, now)
  {
    if a == [] {
      assert a + b == b;
    } else {
      assert (a + b)[1..] == a[1..] + b;
      PurgedConcat(a[1..], b, now);
    }
  }

  /** Taking out an expired packet does not change what a purge leaves. */
  lemma PurgedRemoved(q: seq<Pkt>, k: nat, now: real)
    requires k < |q| && q[k].ts < now
    ensures Purged(RemovedAt(q, k), now) == Purged(q, now)
  {
    PurgedConcat(q[..k], q[k + 1..], now);
    PurgedConcat(q[..k], q[k..], now);
    assert q == q[..k] + q[k..] && q[k..][1..] == q[k + 1..];
  }

  lemma {:induction false} PurgedAll(q: seq<Pkt>, now: real)
    requires forall i | 0 <= i < |q| :: q[i].ts >= now
    ensures Purged(q, now) == q
  {
    if q != [] {
      PurgedAll(q[1..], now);
    }
  }

  /** What remains after a purge is exactly the packets whose time has not passed. */
  lemma {:induction false} PurgedMembers(q: seq<Pkt>, now: real)
    ensures forall p :: p in Purged(q, now) <==> p in q && p.ts >= now
  {
    if q != [] {
      PurgedMembers(q[1..], now);
      assert q == [q[0]] + q[1..];
    }
  }

  /** The scanning purge and the head-only purge agree at time `now` exactly when no packet that
      has expired stands behind one that has not. */
  lemma {:induction false} PurgesAgree(q: seq<Pkt>, now: real)
    ensures Purged(q, now) == HeadPurge(q, now) <==> forall i, j | 0 <= i < j < |q| :: q[j].ts < now ==> q[i].ts < now
  {
    if q == [] {
    } else if q[0].ts < now {
      PurgesAgree(q[1..], now);
      assert forall i, j | 0 <= i < j < |q[1..]| :: q[1..][i] == q[i + 1] && q[1..][j] == q[j + 1];
      assert forall i, j | 0 <= i < j < |q| && i > 0 :: q[i] == q[1..][i - 1] && q[j] == q[1..][j - 1];
    } else if forall j | 0 <= j < |q| :: q[j].ts >= now {
      PurgedAll(q, now);
    } else {
      var j :| 0 <= j < |q| && q[j].ts < now;
      PurgedMembers(q, now);
      assert q[j] !in Purged(q, now) && q[j] in HeadPurge(q, now);
    }
  }

  // ---------------------------------------------------------------- what deque(dst) returns

  /** Place i holds the oldest packet for `dst` that has not expired. */
  predicate OldestFor(q: seq<Pkt>, dst: int, now: real, i: nat)
    requires i < |q|
  {
    && q[i].dst == dst && q[i].ts >= now
    && forall j | 0 <= j < i :: q[j].dst != dst || q[j].ts < now
  }

  /** deque(dst) returns the oldest unexpired packet for `dst` and leaves the other unexpired
      packets in their order; it returns nothing exactly when there is none. */
  lemma {:induction false} DequeForOldest(q: seq<Pkt>, dst: int, now: real)
    ensures var (r, p) := DequeFor(q, dst, now);
            if exists i :: 0 <= i < |q| && OldestFor(q, dst, now, i) then
              exists i :: 0 <= i < |q| && OldestFor(q, dst, now, i) && p == Some(q[i]) && r == Purged(RemovedAt(q, i), now)
            else p == None && r == Purged(q, now) && forall i | 0 <= i < |q| :: q[i].dst != dst || q[i].ts < now
  {
    var u := Purged(q, now);
    var k := FirstFor(u, dst);
    PurgedMembers(q, now);
    if k == |u| {
      forall i | 0 <= i < |q|
        ensures q[i].dst != dst || q[i].ts < now
      {
        if q[i].ts >= now {
          assert q[i] in u;
        }
      }
    } else {
      var i := SplitAt(q, dst, now);
      PurgedConcat(q[..i], q[i + 1..], now);
      var a, b := Purged(q[..i], now), Purged(q[i + 1..], now);
      assert u == a + [q[i]] + b && |a| == k;
      assert u[..k] == a && u[k + 1..] == b && u[k] == q[i];
    }
  }

  /** Cutting a queue at place i: what is before and after it among the unexpired packets. */
  ghost predicate CutAt(q: seq<Pkt>, now: real, i: nat, k: nat)
    requires i < |q|
  {
    && Purged(q[..i], now) + [q[i]] + Purged(q[i + 1..], now) == Purged(q, now)
    && |Purged(q[..i], now)| == k
  }

  /** Where the first unexpired packet for `dst` stands before the purge. */
  lemma {:induction false} SplitAt(q: seq<Pkt>, dst: int, now: real) returns (i: nat)
    requires FirstFor(Purged(q, now), dst) < |Purged(q, now)|
    ensures i < |q| && OldestFor(q, dst, now, i) && CutAt(q, now, i, FirstFor(Purged(q, now), dst))
  {
    i := FirstOldest(q, dst, now);
    PurgedConcat(q[..i], q[i..], now);
    assert q == q[..i] + q[i..] && q[i..][0] == q[i] && q[i..][1..] == q[i + 1..];
    PurgedMembers(q[..i], now);
    FirstForAfter(Purged(q[..i], now), Purged(q[i..], now), dst);
  }

  lemma {:induction false} FirstOldest(q: seq<Pkt>, dst: int, now: real) returns (i: nat)
    requires FirstFor(Purged(q, now), dst) < |Purged(q, now)|
    ensures i < |q| && OldestFor(q, dst, now, i)
  {
    if q[0].ts >= now && q[0].dst == dst {
      i := 0;
    } else {
      var i' := FirstOldest(q[1..], dst, now);
      i := i' + 1;
      assert forall j | 0 < j < i :: q[j] == q[1..][j - 1];
    }
  }

  lemma {:induction false} FirstForAfter(a: seq<Pkt>, b: seq<Pkt>, dst: int)
    requires (forall p | p in a :: p.dst != dst) && b != [] && b[0].dst == dst
    ensures FirstFor(a + b, dst) == |a|
  {
    var k := FirstFor(a + b, dst);
    assert (a + b)[|a|].dst == dst;
    assert forall i | 0 <= i < |a| :: (a + b)[i] == a[i] && a[i] in a;
  }

  // ---------------------------------------------------------------- whole runs

  datatype Event = Put(now: real, dst: int) | Take(now: real) | TakeFor(now: real, dst: int)

  datatype Departure = Departure(p: Pkt, at: real)

  /** The queue with the history of what was handed out, and the number of packets buffered. */
  datatype State = State(q: seq<Pkt>, out: seq<Departure>, next: int, clock: real)

  function Step(s: State, e: Event): State {
    match e
    case Put(now, dst) => State(Enque(s.q, s.next, dst, now), s.out, s.next + 1, now)
    case Take(now) => Handed(s, Deque(s.q, now), now)
    case TakeFor(now, dst) => Handed(s, DequeFor(s.q, dst, now), now)
  }

  function Handed(s: State, r: (seq<Pkt>, Option<Pkt>), now: real): State {
    State(r.0, if r.1.Some? then s.out + [Departure(r.1.value, now)] else s.out, s.next, now)
  }

  /** The clock does not go back during the run. */
  predicate Timed(clock: real, es: seq<Event>)
    decreases |es|
  {
    es == [] || (clock <= es[0].now && Timed(es[0].now, es[1..]))
  }

  function Run(s: State, es: seq<Event>): State
    decreases |es|
  {
    if es == [] then s else Run(Step(s, es[0]), es[1..])
  }

  predicate Ordered(q: seq<Pkt>) {
    forall i, j | 0 <= i < j < |q| :: q[i].id < q[j].id && q[i].ts <= q[j].ts
  }

  /** Queued packets are in order of arrival and of expiry. */
  predicate QueueOk(q: seq<Pkt>, next: int, clock: real) {
    Ordered(q) && forall p | p in q :: p.id < next && p.ts <= clock + TIMEOUT
  }

  /** Each packet left while it was valid, and no earlier than it was buffered. */
  predicate InTime(out: seq<Departure>) {
    forall d | d in out :: d.p.ts - TIMEOUT <= d.at <= d.p.ts
  }

  /** Packets for one destination leave in the order in which they were buffered. */
  predicate FifoPerDst(out: seq<Departure>) {
    forall i, j | 0 <= i < j < |out| :: out[i].p.dst == out[j].p.dst ==> out[i].p.id < out[j].p.id
  }

  predicate OutBefore(out: seq<Departure>, q: seq<Pkt>) {
    forall d, p | d in out && p in q :: d.p.dst == p.dst ==> d.p.id < p.id
  }

  predicate Inv(s: State) {
    && |s.q| <= LIMIT && QueueOk(s.q, s.next, s.clock)
    && InTime(s.out) && FifoPerDst(s.out) && OutBefore(s.out, s.q)
    && forall d | d in s.out :: d.p.id < s.next
  }

  lemma {:induction false} PurgedOrdered(q: seq<Pkt>, now: real)
    requires Ordered(q)
    ensures Ordered(Purged(q, now))
  {
    if q != [] {
      PurgedOrdered(q[1..], now);
      PurgedMembers(q[1..], now);
      var r := Purged(q[1..], now);
      assert forall i | 0 <= i < |r| :: r[i] in q[1..];
    }
  }

  /** A purge as time passes keeps the invariant. */
  lemma PurgeKeeps(s: State, now: real)
    requires Inv(s) && s.clock <= now
    ensures Inv(s.(q := Purged(s.q, now), clock := now))
    ensures forall i | 0 <= i < |Purged(s.q, now)| :: Purged(s.q, now)[i].ts >= now
  {
    PurgedOrdered(s.q, now);
    PurgedMembers(s.q, now);
  }

  /** Handing out the first packet for its destination keeps the invariant. */
  lemma DepartKeeps(s: State, k: nat)
    requires Inv(s) && k < |s.q| && s.q[k].ts >= s.clock && forall i | 0 <= i < k :: s.q[i].dst != s.q[k].dst
    ensures Inv(s.(q := RemovedAt(s.q, k), out := s.out + [Departure(s.q[k], s.clock)]))
  {
    var p, rest := s.q[k], RemovedAt(s.q, k);
    assert p in s.q;
    forall x | x in rest
      ensures x in s.q && (x.dst == p.dst ==> p.id < x.id)
    {
      var i :| 0 <= i < |rest| && rest[i] == x;
      assert x == s.q[if i < k then i else i + 1];
    }
    RestOrdered(s.q, k);
  }

  lemma RestOrdered(q: seq<Pkt>, k: nat)
    requires Ordered(q) && k < |q|
    ensures Ordered(RemovedAt(q, k))
  {
  }

  lemma EnqueKeeps(s: State, dst: int)
    requires Inv(s)
    ensures Inv(State((if |s.q| == LIMIT then s.q[1..] else s.q) + [Pkt(s.next, dst, s.clock + TIMEOUT)], s.out, s.next + 1, s.clock))
  {
  }

  lemma PutStep(s: State, now: real, dst: int)
    requires Inv(s) && s.clock <= now
    ensures Inv(Step(s, Put(now, dst)))
  {
    var s1 := s.(q := Purged(s.q, now), clock := now);
    assert Inv(s1) by {
      PurgeKeeps(s, now);
    }
    EnqueKeeps(s1, dst);
  }

  lemma TakeStep(s: State, now: real)
    requires Inv(s) && s.clock <= now
    ensures Inv(Step(s, Take(now)))
  {
    PurgeKeeps(s, now);
    var r := Purged(s.q, now);
    if r != [] {
      assert RemovedAt(r, 0) == r[1..];
      DepartKeeps(s.(q := r, clock := now), 0);
    }
  }

  lemma TakeForStep(s: State, now: real, dst: int)
    requires Inv(s) && s.clock <= now
    ensures Inv(Step(s, TakeFor(now, dst)))
  {
    PurgeKeeps(s, now);
    var r := Purged(s.q, now);
    var k := FirstFor(r, dst);
    if k < |r| {
      DepartKeeps(s.(q := r, clock := now), k);
    }
  }

  lemma StepKeeps(s: State, e: Event)
    requires Inv(s) && s.clock <= e.now
    ensures Inv(Step(s, e)) && Step(s, e).clock == e.now
  {
    match e
    case Put(now, dst) => PutStep(s, now, dst);
    case Take(now) => TakeStep(s, now);
    case TakeFor(now, dst) => TakeForStep(s, now, dst);
  }

  lemma {:induction false} RunKeeps(s: State, es: seq<Event>)
    requires Inv(s) && Timed(s.clock, es)
    ensures Inv(Run(s, es)) && Run(s, es).clock >= s.clock
    decreases |es|
  {
    if es != [] {
      StepKeeps(s, es[0]);
      RunKeeps(Step(s, es[0]), es[1..]);
    }
  }

  /** Over every run under a clock that does not go back: at most 64 packets wait, each
      destination is served in arrival order, no packet leaves after its 30 seconds, and at every
      later time the scanning purge and the head-only purge leave the same queue. */
  lemma BufferTheorem(es: seq<Event>, clock: real, now: real)
    requires Timed(clock, es)
    ensures var s := Run(State([], [], 0, clock), es);
            && |s.q| <= LIMIT && FifoPerDst(s.out) && InTime(s.out) && OutBefore(s.out, s.q)
            && Purged(s.q, now) == HeadPurge(s.q, now)
  {
    RunKeeps(State([], [], 0, clock), es);
    PurgesAgree(Run(State([], [], 0, clock), es).q, now);
  }
}
