/**
 * What becomes of each buffered packet: what every operation stores, hands out and gives up, and
 * over whole runs that each packet ever buffered waits, was handed out, or was given up for a
 * reason, and only one of these.
 */
module RqueueFate {
  import opened Options
  import opened RqueueModel

  // ---------------------------------------------------------------- one operation

  /** The 64 packets that wait are all still valid, and p is the oldest. */
  predicate Evicts(q: seq<Pkt>, now: real, p: Pkt) {
    |q| == 64 && p == q[0] && forall i | 0 <= i < |q| :: q[i].ts >= now
  }

  /** Place i holds the oldest packet that has not expired. */
  predicate Oldest(q: seq<Pkt>, now: real, i: nat)
    requires i < |q|
  {
    q[i].ts >= now && forall j | 0 <= j < i :: q[j].ts < now
  }

  lemma SameNumber(q: seq<Pkt>, a: Pkt, b: Pkt)
    requires Ordered(q) && a in q && b in q && a.id == b.id
    ensures a == b
  {
    var i :| 0 <= i < |q| && q[i] == a;
    var j :| 0 <= j < |q| && q[j] == b;
    assert i < j ==> q[i].id < q[j].id;
    assert j < i ==> q[j].id < q[i].id;
  }

  lemma {:induction false} PurgedShrinks(q: seq<Pkt>, now: real)
    ensures |Purged(q, now)| == |q| <==> forall i | 0 <= i < |q| :: q[i].ts >= now
    ensures |Purged(q, now)| == |q| ==> Purged(q, now) == q
  {
    if q != [] {
      PurgedShrinks(q[1..], now);
      assert forall i | 0 < i < |q| :: q[i] == q[1..][i - 1];
    }
  }

  lemma AllButFirst(q: seq<Pkt>)
    requires Ordered(q) && q != []
    ensures forall p :: p in q[1..] <==> p in q && p != q[0]
  {
    forall p
      ensures p in q[1..] <==> p in q && p != q[0]
    {
      if p in q[1..] {
        var i :| 0 <= i < |q[1..]| && q[1..][i] == p;
        assert q[0].id < q[i + 1].id;
      }
      if p in q && p != q[0] {
        var i :| 0 <= i < |q| && q[i] == p;
        assert q[1..][i - 1] == p;
      }
    }
  }

  /** enque: the new packet stands last, with its 30 seconds; in front of it, in order, stand
      exactly the packets that have not expired, without the oldest if 64 of them waited. */
  lemma PutEffect(s: State, now: real, dst: int)
    requires Inv(s) && s.clock <= now
    ensures var s' := Step(s, Put(now, dst));
            && s'.q != [] && s'.q[|s'.q| - 1] == Pkt(s.next, dst, now + 30.0)
            && Ordered(s'.q) && s'.out == s.out && s'.next == s.next + 1
            && forall p :: p in s'.q[..|s'.q| - 1] <==> p in s.q && p.ts >= now && !Evicts(s.q, now, p)
  {
    PutStep(s, now, dst);
    var r := Purged(s.q, now);
    var front := if |r| == LIMIT then r[1..] else r;
    assert Step(s, Put(now, dst)).q == front + [Pkt(s.next, dst, now + 30.0)];
    PurgedMembers(s.q, now);
    PurgedShrinks(s.q, now);
    if |r| == LIMIT {
      assert r == s.q;
      AllButFirst(s.q);
    }
  }

  /** deque: the oldest packet that has not expired is handed out, and all other such packets still
      wait; if there is none, nothing is handed out and nothing waits. */
  lemma TakeEffect(s: State, now: real)
    requires Inv(s) && s.clock <= now
    ensures var s' := Step(s, Take(now));
            && Ordered(s'.q) && s'.next == s.next
            && (forall i | 0 <= i < |s.q| && Oldest(s.q, now, i) ::
                  && s'.out == s.out + [Departure(s.q[i], now)]
                  && forall p :: p in s'.q <==> p in s.q && p.ts >= now && p != s.q[i])
            && ((forall i | 0 <= i < |s.q| :: s.q[i].ts < now) ==> s'.out == s.out && s'.q == [])
  {
    TakeStep(s, now);
    PurgedMembers(s.q, now);
    PurgedOrdered(s.q, now);
    var r := Purged(s.q, now);
    forall i | 0 <= i < |s.q| && Oldest(s.q, now, i)
      ensures r != [] && r[0] == s.q[i]
    {
      PurgedHead(s.q, now, i);
    }
    if r != [] {
      AllButFirst(r);
      assert r[0] in r;
    }
  }

  lemma PurgedHead(q: seq<Pkt>, now: real, i: nat)
    requires i < |q| && Oldest(q, now, i)
    ensures Purged(q, now) != [] && Purged(q, now)[0] == q[i]
  {
    if i > 0 {
      assert Oldest(q[1..], now, i - 1);
      PurgedHead(q[1..], now, i - 1);
    }
  }

  /** deque(dst): the same for the oldest unexpired packet for dst. */
  lemma TakeForEffect(s: State, now: real, dst: int)
    requires Inv(s) && s.clock <= now
    ensures var s' := Step(s, TakeFor(now, dst));
            && Ordered(s'.q) && s'.next == s.next
            && (forall i | 0 <= i < |s.q| && OldestFor(s.q, dst, now, i) ::
                  && s'.out == s.out + [Departure(s.q[i], now)]
                  && forall p :: p in s'.q <==> p in s.q && p.ts >= now && p != s.q[i])
            && ((forall i | 0 <= i < |s.q| :: s.q[i].dst != dst || s.q[i].ts < now) ==>
                  s'.out == s.out && forall p :: p in s'.q <==> p in s.q && p.ts >= now)
  {
    TakeForStep(s, now, dst);
    DequeForOldest(s.q, dst, now);
    PurgedMembers(s.q, now);
    forall i | 0 <= i < |s.q| && OldestFor(s.q, dst, now, i)
      ensures var s' := Step(s, TakeFor(now, dst));
              && s'.out == s.out + [Departure(s.q[i], now)]
              && forall p :: p in s'.q <==> p in s.q && p.ts >= now && p != s.q[i]
    {
      OneOldest(s, now, dst, i);
    }
  }

  lemma OneOldest(s: State, now: real, dst: int, i: nat)
    requires Inv(s) && i < |s.q| && OldestFor(s.q, dst, now, i)
    ensures var s' := Step(s, TakeFor(now, dst));
            && s'.out == s.out + [Departure(s.q[i], now)]
            && forall p :: p in s'.q <==> p in s.q && p.ts >= now && p != s.q[i]
  {
    DequeForOldest(s.q, dst, now);
    var (r, d) := DequeFor(s.q, dst, now);
    var k :| 0 <= k < |s.q| && OldestFor(s.q, dst, now, k) && d == Some(s.q[k]) && r == Purged(RemovedAt(s.q, k), now);
    assert k == i;
    PurgedMembers(RemovedAt(s.q, i), now);
    AllBut(s.q, i);
  }

  lemma AllBut(q: seq<Pkt>, k: nat)
    requires Ordered(q) && k < |q|
    ensures forall p :: p in RemovedAt(q, k) <==> p in q && p != q[k]
  {
    var rest := RemovedAt(q, k);
    forall p
      ensures p in rest <==> p in q && p != q[k]
    {
      if p in rest {
        var i :| 0 <= i < |rest| && rest[i] == p;
        assert p == q[if i < k then i else i + 1];
      }
      if p in q && p != q[k] {
        var i :| 0 <= i < |q| && q[i] == p;
        assert rest[if i < k then i else i - 1] == p;
      }
    }
  }

  // ---------------------------------------------------------------- the fate of a packet

  predicate Waits(s: State, id: int) {
    exists p :: p in s.q && p.id == id
  }

  predicate HandedOut(s: State, id: int) {
    exists d :: d in s.out && d.p.id == id
  }

  /** The packet's time has passed when the operation comes. */
  predicate ExpiredAt(s: State, e: Event, id: int) {
    exists p :: p in s.q && p.id == id && p.ts < e.now
  }

  /** The operation is an enque, 64 valid packets wait, and this is the oldest. */
  predicate EvictedAt(s: State, e: Event, id: int) {
    e.Put? && exists p :: p in s.q && p.id == id && Evicts(s.q, e.now, p)
  }

  predicate LostAt(s: State, e: Event, id: int) {
    ExpiredAt(s, e, id) || EvictedAt(s, e, id)
  }

  /** At some operation of the run the packet expires or is evicted. */
  predicate Lost(s: State, es: seq<Event>, id: int)
    decreases |es|
  {
    es != [] && (LostAt(s, es[0], id) || Lost(Step(s, es[0]), es[1..], id))
  }

  /** Nothing handed out is still waiting. */
  predicate Parted(s: State) {
    forall d, p | d in s.out && p in s.q :: d.p.id != p.id
  }

  /** What one operation does, whichever it is: what it leaves waiting and hands out waited before,
      except for the packet it may store; what it neither keeps nor hands out is lost. */
  lemma StepFate(s: State, e: Event, id: int)
    requires Inv(s) && Parted(s) && s.clock <= e.now
    ensures Parted(Step(s, e))
    ensures HandedOut(s, id) ==> HandedOut(Step(s, e), id)
    ensures !(e.Put? && id == s.next) ==>
              (Waits(Step(s, e), id) || (HandedOut(Step(s, e), id) && !HandedOut(s, id)) <==> Waits(s, id) && !LostAt(s, e, id))
    ensures Step(s, e).next == s.next + if e.Put? then 1 else 0
    ensures e.Put? ==> Waits(Step(s, e), s.next)
  {
    match e
    case Put(now, dst) => PutFate(s, now, dst, id);
    case Take(now) =>
      TakeEffect(s, now);
      if i: nat :| i < |s.q| && Oldest(s.q, now, i) {
        HandFate(s, e, i, id);
      } else {
        NoneOldest(s.q, now);
        DropFate(s, e, id);
      }
    case TakeFor(now, dst) =>
      TakeForEffect(s, now, dst);
      if i: nat :| i < |s.q| && OldestFor(s.q, dst, now, i) {
        HandFate(s, e, i, id);
      } else {
        NoneOldestFor(s.q, dst, now);
        DropFate(s, e, id);
      }
  }

  lemma {:induction false} NoneOldest(q: seq<Pkt>, now: real)
    requires !exists i: nat :: i < |q| && Oldest(q, now, i)
    ensures forall i | 0 <= i < |q| :: q[i].ts < now
  {
    if q != [] {
      assert q[0].ts >= now ==> Oldest(q, now, 0);
      forall k: nat | k < |q[1..]|
        ensures !Oldest(q[1..], now, k)
      {
        assert !Oldest(q, now, k + 1);
      }
      NoneOldest(q[1..], now);
      assert forall i | 0 < i < |q| :: q[i] == q[1..][i - 1];
    }
  }

  lemma NoneOldestFor(q: seq<Pkt>, dst: int, now: real)
    requires !exists i: nat :: i < |q| && OldestFor(q, dst, now, i)
    ensures forall i | 0 <= i < |q| :: q[i].dst != dst || q[i].ts < now
  {
    DequeForOldest(q, dst, now);
  }

  lemma PutFate(s: State, now: real, dst: int, id: int)
    requires Inv(s) && Parted(s) && s.clock <= now
    ensures var e := Put(now, dst);
            && Parted(Step(s, e)) && Step(s, e).out == s.out
            && (id != s.next ==> (Waits(Step(s, e), id) <==> Waits(s, id) && !LostAt(s, e, id)))
            && Waits(Step(s, e), s.next)
  {
    PutEffect(s, now, dst);
    var s' := Step(s, Put(now, dst));
    var last := s'.q[|s'.q| - 1];
    assert s'.q == s'.q[..|s'.q| - 1] + [last];
    assert last in s'.q && last.id == s.next;
    forall p
      ensures p in s'.q <==> (p in s.q && p.ts >= now && !Evicts(s.q, now, p)) || p == last
    {
      assert p in s'.q <==> p in s'.q[..|s'.q| - 1] || p == last;
    }
    Numbers(s, now, id);
  }

  /** A number stands for one waiting packet only. */
  lemma Numbers(s: State, now: real, id: int)
    requires Inv(s)
    ensures forall p, r | p in s.q && r in s.q && p.id == id && r.id == id :: p == r
  {
    forall p, r | p in s.q && r in s.q && p.id == id && r.id == id
      ensures p == r
    {
      SameNumber(s.q, p, r);
    }
  }

  lemma HandFate(s: State, e: Event, i: nat, id: int)
    requires Inv(s) && Parted(s) && !e.Put? && i < |s.q| && s.q[i].ts >= e.now
    requires Step(s, e).out == s.out + [Departure(s.q[i], e.now)]
    requires forall p :: p in Step(s, e).q <==> p in s.q && p.ts >= e.now && p != s.q[i]
    ensures Parted(Step(s, e))
    ensures HandedOut(s, id) ==> HandedOut(Step(s, e), id)
    ensures Waits(Step(s, e), id) || (HandedOut(Step(s, e), id) && !HandedOut(s, id)) <==> Waits(s, id) && !LostAt(s, e, id)
  {
    var s', d := Step(s, e), Departure(s.q[i], e.now);
    assert s.q[i] in s.q && d in s'.out;
    Numbers(s, e.now, id);
    forall x, p | x in s'.out && p in s'.q
      ensures x.p.id != p.id
    {
      if x == d && x.p.id == p.id {
        SameNumber(s.q, p, s.q[i]);
      }
    }
    assert forall x | x in s.out :: x in s'.out;
    assert forall x | x in s'.out :: x in s.out || x == d;
  }

  lemma DropFate(s: State, e: Event, id: int)
    requires Inv(s) && Parted(s) && !e.Put? && Step(s, e).out == s.out
    requires forall p :: p in Step(s, e).q <==> p in s.q && p.ts >= e.now
    ensures Parted(Step(s, e))
    ensures Waits(Step(s, e), id) <==> Waits(s, id) && !LostAt(s, e, id)
  {
    Numbers(s, e.now, id);
  }

  /** The state has the packet, waiting or among those handed out. */
  predicate Has(s: State, id: int) {
    Waits(s, id) || HandedOut(s, id)
  }

  lemma StepHas(s: State, e: Event, id: int)
    requires Inv(s) && Parted(s) && s.clock <= e.now
    ensures Has(Step(s, e), id) <==> (Has(s, id) && !LostAt(s, e, id)) || (e.Put? && id == s.next)
    ensures LostAt(s, e, id) ==> Waits(s, id) && id < s.next
  {
    StepFate(s, e, id);
    if Has(s, id) {
      Below(s, id);
    }
  }

  lemma Below(s: State, id: int)
    requires Inv(s) && Has(s, id)
    ensures id < s.next
  {
  }

  lemma {:induction false} FateOf(s: State, es: seq<Event>, id: int)
    requires Inv(s) && Parted(s) && Timed(s.clock, es)
    ensures Parted(Run(s, es))
    ensures 0 <= s.next <= id < Run(s, es).next || Has(s, id) ==> (Has(Run(s, es), id) <==> !Lost(s, es, id))
    ensures id < s.next && !Has(s, id) ==> !Has(Run(s, es), id)
    decreases |es|
  {
    if es != [] {
      var e, s' := es[0], Step(s, es[0]);
      StepKeeps(s, e);
      StepFate(s, e, id);
      StepHas(s, e, id);
      FateOf(s', es[1..], id);
      NextGrows(s', es[1..]);
    }
  }

  lemma {:induction false} NextGrows(s: State, es: seq<Event>)
    ensures Run(s, es).next >= s.next
    decreases |es|
  {
    if es != [] {
      NextGrows(Step(s, es[0]), es[1..]);
    }
  }

  /** Conservation: over every run, each packet ever buffered is waiting, was handed out, or was
      lost because its time had passed or because 64 valid packets waited when one more came; and
      exactly one of these holds. */
  lemma Conservation(es: seq<Event>, clock: real, id: int)
    requires Timed(clock, es) && 0 <= id < Run(State([], [], 0, clock), es).next
    ensures var s0 := State([], [], 0, clock);
            var s := Run(s0, es);
            && (Waits(s, id) || HandedOut(s, id) || Lost(s0, es, id))
            && !(Waits(s, id) && HandedOut(s, id))
            && !(Lost(s0, es, id) && (Waits(s, id) || HandedOut(s, id)))
  {
    FateOf(State([], [], 0, clock), es, id);
  }
}
