/**
 * The receive side of the data path on values: the reassembly queue is a sequence of segments.
 * The main theorem says where rcv_nxt_ stands after any arrival order with duplicates;
 * ReassemblyOverlap says what happens when segments overlap otherwise.
 */
module ReassemblyModel {
  datatype Flag = Fin | Syn | Push | Ack

  /** Bytes start..end (end excluded) of the stream, with the header flags they came with. */
  datatype Seg = Seg(start: int, end: int, flags: set<Flag>)

  datatype State = State(rcvNxt: int, queue: seq<Seg>)

  // ---------------------------------------------------------------- the queue operations

  /** Where the search of `add` stops: the first segment that starts at or after `end`. */
  function Place(q: seq<Seg>, end: int): (k: nat)
    ensures k <= |q|
    ensures forall i | 0 <= i < k :: q[i].start < end
    ensures k < |q| ==> end <= q[k].start
  {
    if q == [] || end <= q[0].start then 0 else 1 + Place(q[1..], end)
  }

  function Insert(q: seq<Seg>, n: Seg): seq<Seg> {
    var k := if q != [] && q[|q| - 1].end <= n.start then |q| else Place(q, n.end);
    q[..k] + [n] + q[k..]
  }

  /** The delivery loop of `add`; also returns the flags of everything it consumed. */
  function Deliver(q: seq<Seg>): (State, set<Flag>)
    requires q != []
  {
    if |q| == 1 then (State(q[0].end, []), q[0].flags)
    else if q[0].end < q[1].start then (State(q[0].end, q[1..]), q[0].flags)
    else var (s, flags) := Deliver(q[1..]); (s, q[0].flags + flags)
  }

  function Add(s: State, n: Seg): (State, set<Flag>) {
    var q := Insert(s.queue, n);
    if q[0].start > s.rcvNxt then (State(s.rcvNxt, q), {}) else Deliver(q)
  }

  /** How many leading bytes of a data segment lie below rcv_nxt_ and are trimmed. */
  function Trim(s: State, p: Seg): int {
    var todrop := s.rcvNxt - p.start;
    if todrop <= 0 then 0 else if todrop >= p.end - p.start then p.end - p.start else todrop
  }

  /** What `add` makes of a trimmed segment: it starts after the trimmed bytes, but its end is
      recomputed from the size of the whole packet. */
  function Entry(s: State, p: Seg): Seg {
    var start := p.start + Trim(s, p);
    Seg(start, start + (p.end - p.start), p.flags)
  }

  /** A data segment passes the trimming and the data path of recv. */
  function Recv(s: State, p: Seg): State {
    var drop := Trim(s, p);
    var datalen := p.end - p.start - drop;
    if datalen > 0 then
      if p.start + drop == s.rcvNxt && s.queue == [] then State(s.rcvNxt + datalen, [])
      else Add(s, Entry(s, p)).0
    else s
  }

  function Run(s: State, ps: seq<Seg>): State
    decreases |ps|
  {
    if ps == [] then s else Run(Recv(s, ps[0]), ps[1..])
  }

  // ---------------------------------------------------------------- the arrivals

  predicate SameBytes(a: Seg, b: Seg) {
    a.start == b.start && a.end == b.end
  }

  predicate EqualOrDisjoint(a: Seg, b: Seg) {
    SameBytes(a, b) || a.end <= b.start || b.end <= a.start
  }

  /** Data segments of one stream that begins at byte `isn`. */
  predicate Stream(isn: int, ps: seq<Seg>) {
    && (forall i | 0 <= i < |ps| :: isn <= ps[i].start < ps[i].end)
    && (forall i, j | 0 <= i < |ps| && 0 <= j < |ps| :: EqualOrDisjoint(ps[i], ps[j]))
  }

  predicate Holds(p: Seg, b: int) {
    p.start <= b < p.end
  }

  predicate Received(ps: seq<Seg>, b: int) {
    exists i :: 0 <= i < |ps| && Holds(ps[i], b)
  }

  // ---------------------------------------------------------------- the invariant

  /** Neither starts nor ends later; the two may overlap. */
  predicate Before(a: Seg, b: Seg) {
    a.start <= b.start && a.end <= b.end
  }

  /** `w` waits: `p` then finds its place behind it, or lies wholly in front of it. */
  predicate Follows(w: Seg, p: Seg) {
    Before(w, p) || p.end <= w.start
  }

  predicate Sorted(q: seq<Seg>) {
    forall i, j | 0 <= i < j < |q| :: Before(q[i], q[j])
  }

  /** `s` after the arrivals `ps`: the frontier is the first missing byte, and whatever was
      received past it waits in the sorted queue. */
  ghost predicate Frontier(isn: int, ps: seq<Seg>, s: State) {
    && isn <= s.rcvNxt
    && (forall b | isn <= b < s.rcvNxt :: Received(ps, b))
    && Sorted(s.queue)
    && (forall i | 0 <= i < |s.queue| :: s.rcvNxt < s.queue[i].start && s.queue[i] in ps)
    && (forall p | p in ps :: p.end <= s.rcvNxt || p in s.queue)
  }

  // ---------------------------------------------------------------- the queue stays sorted

  predicate NonEmpty(q: seq<Seg>) {
    forall i | 0 <= i < |q| :: q[i].start < q[i].end
  }

  lemma InsertMembers(q: seq<Seg>, n: Seg)
    ensures multiset(Insert(q, n)) == multiset(q) + multiset{n}
    ensures forall p :: p in Insert(q, n) <==> p in q || p == n
  {
    var k := if q != [] && q[|q| - 1].end <= n.start then |q| else Place(q, n.end);
    assert q == q[..k] + q[k..];
    assert multiset(Insert(q, n)) == multiset(q) + multiset{n};
    forall p
      ensures p in Insert(q, n) <==> p in q || p == n
    {
      assert p in Insert(q, n) <==> p in multiset(Insert(q, n));
      assert p in q <==> p in multiset(q);
    }
  }

  lemma BeforePlace(q: seq<Seg>, n: Seg, k: nat, i: nat)
    requires Sorted(q) && NonEmpty(q) && n.start < n.end && i < |q| && Follows(q[i], n)
    requires k == if q != [] && q[|q| - 1].end <= n.start then |q| else Place(q, n.end)
    ensures i < k ==> Before(q[i], n)
    ensures i >= k ==> Before(n, q[i])
  {
  }

  lemma InsertSorted(q: seq<Seg>, n: Seg)
    requires Sorted(q) && NonEmpty(q) && n.start < n.end && forall i | 0 <= i < |q| :: Follows(q[i], n)
    ensures Sorted(Insert(q, n))
  {
    var k := if q != [] && q[|q| - 1].end <= n.start then |q| else Place(q, n.end);
    var r := Insert(q, n);
    forall i, j | 0 <= i < j < |r|
      ensures Before(r[i], r[j])
    {
      if i == k {
        BeforePlace(q, n, k, j - 1);
      } else if j == k {
        BeforePlace(q, n, k, i);
      }
    }
  }

  // ---------------------------------------------------------------- delivery

  lemma ReceivedFurther(q: seq<Seg>, k: nat, b: int)
    requires 0 < k <= |q| && (Holds(q[0], b) || Received(q[1..][..k - 1], b))
    ensures Received(q[..k], b)
  {
    if Holds(q[0], b) {
      assert Holds(q[..k][0], b);
    } else {
      var i :| 0 <= i < k - 1 && Holds(q[1..][..k - 1][i], b);
      assert Holds(q[..k][i + 1], b);
    }
  }

  /** Delivery consumes a prefix of the sorted queue without a gap and stops at the first one. */
  lemma {:induction false} DeliverTakes(q: seq<Seg>) returns (k: nat)
    requires q != [] && Sorted(q) && NonEmpty(q)
    ensures 1 <= k <= |q| && Deliver(q).0 == State(q[k - 1].end, q[k..])
    ensures forall i | 0 <= i < k :: q[i].end <= q[k - 1].end
    ensures forall b | q[0].start <= b < q[k - 1].end :: Received(q[..k], b)
    ensures k < |q| ==> q[k - 1].end < q[k].start
  {
    k := 1;
    if |q| > 1 && q[0].end >= q[1].start {
      var t := q[1..];
      assert forall i, j | 0 <= i < j < |t| :: t[i] == q[i + 1] && t[j] == q[j + 1];
      var k' := DeliverTakes(t);
      k := k' + 1;
      assert Before(q[0], q[1]);
      forall b | q[0].start <= b < q[k - 1].end
        ensures Received(q[..k], b)
      {
        ReceivedFurther(q, k, b);
      }
    } else {
      forall b | q[0].start <= b < q[0].end
        ensures Received(q[..1], b)
      {
        assert Holds(q[..1][0], b);
      }
    }
  }

  /** The flags returned are those of the segments consumed, and no others. */
  lemma {:induction false} DeliverFlags(q: seq<Seg>)
    requires q != []
    ensures |Deliver(q).0.queue| < |q| && Deliver(q).0.queue == q[|q| - |Deliver(q).0.queue|..]
    ensures forall f :: f in Deliver(q).1 <==> exists i :: 0 <= i < |q| - |Deliver(q).0.queue| && f in q[i].flags
  {
    if |q| > 1 && q[0].end >= q[1].start {
      var t := q[1..];
      DeliverFlags(t);
      var k := |t| - |Deliver(t).0.queue|;
      forall f
        ensures f in Deliver(q).1 <==> exists i :: 0 <= i < k + 1 && f in q[i].flags
      {
        if i: nat :| i < k && f in t[i].flags {
          assert f in q[i + 1].flags;
        }
        if i: nat :| i < k + 1 && f in q[i].flags {
          assert i > 0 ==> f in t[i - 1].flags;
        }
      }
    }
  }

  /** `add` returns no flags while a hole is still to be filled. */
  lemma AddFlags(s: State, n: Seg)
    ensures var q := Insert(s.queue, n);
            var (s', flags) := Add(s, n);
            if s.rcvNxt < q[0].start then flags == {} && s' == State(s.rcvNxt, q)
            else |s'.queue| < |q| && forall f :: f in flags <==> exists i :: 0 <= i < |q| - |s'.queue| && f in q[i].flags
  {
    DeliverFlags(Insert(s.queue, n));
  }

  // ---------------------------------------------------------------- one arrival

  /** A segment that starts below the frontier lies wholly below it. */
  lemma NoPartialOverlap(isn: int, ps: seq<Seg>, s: State, p: Seg)
    requires Frontier(isn, ps, s) && Stream(isn, ps + [p]) && p.start < s.rcvNxt
    ensures p.end <= s.rcvNxt
  {
    var all := ps + [p];
    assert all[|ps|] == p;
    assert Received(ps, p.start);
    var i :| 0 <= i < |ps| && Holds(ps[i], p.start);
    assert all[i] == ps[i] && EqualOrDisjoint(all[i], all[|ps|]);
    assert ps[i] in ps;
  }

  lemma ReceivedMore(ps: seq<Seg>, p: Seg, b: int)
    ensures Received(ps + [p], b) <==> Received(ps, b) || Holds(p, b)
  {
    var all := ps + [p];
    assert all[|ps|] == p;
    if Received(ps, b) {
      var i :| 0 <= i < |ps| && Holds(ps[i], b);
      assert all[i] == ps[i];
    }
    if Received(all, b) {
      var i :| 0 <= i < |all| && Holds(all[i], b);
      assert i < |ps| ==> all[i] == ps[i];
    }
  }

  lemma StreamFacts(isn: int, ps: seq<Seg>, p: Seg, x: Seg, y: Seg)
    requires Stream(isn, ps + [p]) && (x in ps || x == p) && (y in ps || y == p)
    ensures isn <= x.start < x.end && EqualOrDisjoint(x, y)
  {
    var i, j := IndexIn(ps, p, x), IndexIn(ps, p, y);
  }

  ghost function IndexIn(ps: seq<Seg>, p: Seg, x: Seg): (i: nat)
    requires x in ps || x == p
    ensures i <= |ps| && (ps + [p])[i] == x
  {
    if x == p then |ps| else var i :| 0 <= i < |ps| && ps[i] == x; i
  }

  /** The queue after an insertion: sorted, made of arrivals, nothing below the frontier. */
  lemma AfterInsert(isn: int, ps: seq<Seg>, s: State, p: Seg)
    requires Frontier(isn, ps, s) && Stream(isn, ps + [p]) && p.start >= s.rcvNxt
    ensures var q := Insert(s.queue, p);
            && q != [] && Sorted(q) && NonEmpty(q)
            && (forall x | x in q :: x in ps + [p] && s.rcvNxt <= x.start)
            && (forall x | x in ps + [p] :: x.end <= s.rcvNxt || x in q)
  {
    forall x | x in s.queue
      ensures x in ps
    {
      var i :| 0 <= i < |s.queue| && s.queue[i] == x;
    }
    forall x | x in s.queue + [p]
      ensures x.start < x.end && Follows(x, p)
    {
      StreamFacts(isn, ps, p, x, p);
      StreamFacts(isn, ps, p, p, p);
    }
    assert forall i | 0 <= i < |s.queue| :: s.queue[i] in s.queue + [p];
    assert p in s.queue + [p];
    InsertSorted(s.queue, p);
    InsertMembers(s.queue, p);
    var q := Insert(s.queue, p);
    forall i | 0 <= i < |q|
      ensures q[i].start < q[i].end
    {
      assert q[i] in q;
    }
  }

  /** What `add` does to the frontier. */
  lemma AddKeeps(isn: int, ps: seq<Seg>, s: State, p: Seg)
    requires Frontier(isn, ps, s) && Stream(isn, ps + [p]) && p.start >= s.rcvNxt
    ensures Frontier(isn, ps + [p], Add(s, p).0) && Add(s, p).0.rcvNxt >= s.rcvNxt
  {
    AfterInsert(isn, ps, s, p);
    var q := Insert(s.queue, p);
    if q[0].start > s.rcvNxt {
      StillWaiting(isn, ps, s, p, q);
    } else {
      Delivers(isn, ps, s, p, q);
    }
  }

  lemma StillWaiting(isn: int, ps: seq<Seg>, s: State, p: Seg, q: seq<Seg>)
    requires Frontier(isn, ps, s) && q != [] && Sorted(q) && NonEmpty(q) && q[0].start > s.rcvNxt
    requires forall x | x in q :: x in ps + [p] && s.rcvNxt <= x.start
    requires forall x | x in ps + [p] :: x.end <= s.rcvNxt || x in q
    ensures Frontier(isn, ps + [p], State(s.rcvNxt, q))
  {
    forall b | isn <= b < s.rcvNxt
      ensures Received(ps + [p], b)
    {
      ReceivedMore(ps, p, b);
    }
    forall i | 0 <= i < |q|
      ensures s.rcvNxt < q[i].start && q[i] in ps + [p]
    {
      assert q[i] in q;
      assert i > 0 ==> Before(q[0], q[i]);
    }
  }

  lemma ReceivedWithin(q: seq<Seg>, k: nat, all: seq<Seg>, b: int)
    requires k <= |q| && Received(q[..k], b) && forall x | x in q :: x in all
    ensures Received(all, b)
  {
    var i :| 0 <= i < k && Holds(q[..k][i], b);
    assert q[i] in q;
    var j :| 0 <= j < |all| && all[j] == q[i];
    assert Holds(all[j], b);
  }

  lemma Delivers(isn: int, ps: seq<Seg>, s: State, p: Seg, q: seq<Seg>)
    requires Frontier(isn, ps, s) && q != [] && Sorted(q) && NonEmpty(q) && q[0].start <= s.rcvNxt
    requires forall x | x in q :: x in ps + [p] && s.rcvNxt <= x.start
    requires forall x | x in ps + [p] :: x.end <= s.rcvNxt || x in q
    ensures Frontier(isn, ps + [p], Deliver(q).0) && Deliver(q).0.rcvNxt >= s.rcvNxt
  {
    var all := ps + [p];
    var k := DeliverTakes(q);
    var s' := Deliver(q).0;
    assert q[0] in q && q[k - 1] in q;
    forall b | isn <= b < s'.rcvNxt
      ensures Received(all, b)
    {
      if b < s.rcvNxt {
        ReceivedMore(ps, p, b);
      } else {
        ReceivedWithin(q, k, all, b);
      }
    }
    RestOfQueue(q, k);
    forall i | 0 <= i < |s'.queue|
      ensures s'.rcvNxt < s'.queue[i].start && s'.queue[i] in all
    {
      assert s'.queue[i] == q[k..][i] && q[k..][i] in q;
    }
  }

  lemma RestOfQueue(q: seq<Seg>, k: nat)
    requires 1 <= k <= |q| && Sorted(q) && NonEmpty(q) && (k < |q| ==> q[k - 1].end < q[k].start)
    requires forall i | 0 <= i < k :: q[i].end <= q[k - 1].end
    ensures Sorted(q[k..])
    ensures forall i | 0 <= i < |q[k..]| :: q[k - 1].end < q[k..][i].start
    ensures forall x | x in q :: x.end <= q[k - 1].end || x in q[k..]
  {
  }

  /** What recv does to a segment that does not straddle the frontier. */
  lemma RecvCases(s: State, p: Seg)
    requires p.start < p.end && (p.start >= s.rcvNxt || p.end <= s.rcvNxt)
    ensures Recv(s, p) == (if p.end <= s.rcvNxt then s
                           else if p.start == s.rcvNxt && s.queue == [] then State(p.end, [])
                           else Add(s, p).0)
  {
  }

  /** Every arrival keeps the frontier exact and never moves it back. */
  lemma RecvKeeps(isn: int, ps: seq<Seg>, s: State, p: Seg)
    requires Frontier(isn, ps, s) && Stream(isn, ps + [p])
    ensures Frontier(isn, ps + [p], Recv(s, p)) && Recv(s, p).rcvNxt >= s.rcvNxt
  {
    StreamFacts(isn, ps, p, p, p);
    if p.start < s.rcvNxt {
      NoPartialOverlap(isn, ps, s, p);
    }
    RecvCases(s, p);
    if p.end <= s.rcvNxt {
      Widen(isn, ps, s, p);
    } else if p.start == s.rcvNxt && s.queue == [] {
      InOrder(isn, ps, s, p);
    } else {
      AddKeeps(isn, ps, s, p);
    }
  }

  lemma Widen(isn: int, ps: seq<Seg>, s: State, p: Seg)
    requires Frontier(isn, ps, s) && p.end <= s.rcvNxt
    ensures Frontier(isn, ps + [p], s)
  {
    forall b | isn <= b < s.rcvNxt
      ensures Received(ps + [p], b)
    {
      ReceivedMore(ps, p, b);
    }
  }

  lemma InOrder(isn: int, ps: seq<Seg>, s: State, p: Seg)
    requires Frontier(isn, ps, s) && s.queue == [] && p.start == s.rcvNxt < p.end
    ensures Frontier(isn, ps + [p], State(p.end, []))
  {
    forall b | isn <= b < p.end
      ensures Received(ps + [p], b)
    {
      ReceivedMore(ps, p, b);
    }
  }

  // ---------------------------------------------------------------- whole runs

  /** `b` is the first byte of the stream not yet received. */
  ghost predicate FirstMissing(isn: int, ps: seq<Seg>, b: int) {
    isn <= b && (forall x | isn <= x < b :: Received(ps, x)) && !Received(ps, b)
  }

  lemma FrontierIsFirstMissing(isn: int, ps: seq<Seg>, s: State)
    requires Frontier(isn, ps, s)
    ensures FirstMissing(isn, ps, s.rcvNxt)
  {
  }

  /** After any arrivals, in any order and with any duplicates: rcv_nxt_ is the first byte not
      yet received, and the queue is sorted and holds exactly what was received beyond. */
  lemma FrontierTheorem(isn: int, ps: seq<Seg>)
    requires Stream(isn, ps)
    ensures var s := Run(State(isn, []), ps);
            && FirstMissing(isn, ps, s.rcvNxt)
            && (forall i, j | 0 <= i < j < |s.queue| :: SameBytes(s.queue[i], s.queue[j]) || s.queue[i].end <= s.queue[j].start)
            && (forall p :: p in s.queue <==> p in ps && p.start > s.rcvNxt)
  {
    RunKeeps(isn, [], State(isn, []), ps);
    assert [] + ps == ps;
    FrontierIsFirstMissing(isn, ps, Run(State(isn, []), ps));
    QueueIsRest(isn, ps, Run(State(isn, []), ps));
    QueueIsApart(isn, ps, Run(State(isn, []), ps));
  }

  lemma QueueIsApart(isn: int, ps: seq<Seg>, s: State)
    requires Frontier(isn, ps, s) && Stream(isn, ps)
    ensures forall i, j | 0 <= i < j < |s.queue| :: SameBytes(s.queue[i], s.queue[j]) || s.queue[i].end <= s.queue[j].start
  {
    forall i, j | 0 <= i < j < |s.queue|
      ensures SameBytes(s.queue[i], s.queue[j]) || s.queue[i].end <= s.queue[j].start
    {
      assert Before(s.queue[i], s.queue[j]);
      var a :| 0 <= a < |ps| && ps[a] == s.queue[i];
      var b :| 0 <= b < |ps| && ps[b] == s.queue[j];
      assert EqualOrDisjoint(ps[a], ps[b]);
    }
  }

  lemma QueueIsRest(isn: int, ps: seq<Seg>, s: State)
    requires Frontier(isn, ps, s) && Stream(isn, ps)
    ensures forall p :: p in s.queue <==> p in ps && p.start > s.rcvNxt
  {
    forall p | p in ps
      ensures p.start < p.end
    {
      var i :| 0 <= i < |ps| && ps[i] == p;
    }
  }

  lemma {:induction false} RunKeeps(isn: int, before: seq<Seg>, s: State, ps: seq<Seg>)
    requires Stream(isn, before + ps) && Frontier(isn, before, s)
    ensures Frontier(isn, before + ps, Run(s, ps)) && Run(s, ps).rcvNxt >= s.rcvNxt
    decreases |ps|
  {
    if ps == [] {
      assert before + ps == before;
    } else {
      var all, now := before + ps, before + [ps[0]];
      assert all == now + ps[1..];
      assert forall i | 0 <= i < |now| :: now[i] == all[i];
      RecvKeeps(isn, before, s, ps[0]);
      RunKeeps(isn, now, Recv(s, ps[0]), ps[1..]);
    }
  }

  /** The frontier depends only on the set of bytes received: arrival order does not matter. */
  lemma OrderIrrelevant(isn: int, ps: seq<Seg>, qs: seq<Seg>)
    requires Stream(isn, ps) && Stream(isn, qs) && forall b :: Received(ps, b) <==> Received(qs, b)
    ensures Run(State(isn, []), ps).rcvNxt == Run(State(isn, []), qs).rcvNxt
  {
    FrontierTheorem(isn, ps);
    FrontierTheorem(isn, qs);
    OneFirstMissing(isn, ps, qs, Run(State(isn, []), ps).rcvNxt, Run(State(isn, []), qs).rcvNxt);
  }

  lemma OneFirstMissing(isn: int, ps: seq<Seg>, qs: seq<Seg>, a: int, b: int)
    requires FirstMissing(isn, ps, a) && FirstMissing(isn, qs, b)
    requires forall x :: Received(ps, x) <==> Received(qs, x)
    ensures a == b
  {
  }
}
