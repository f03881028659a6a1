/**
 * Arrivals that overlap in any way, and queues in any state they can lead to: the runs in which
 * rcv_nxt_ is the first missing byte after every arrival are exactly those whose every arrival
 * advances as `Advances` says.
 */
module ReassemblyExact {
  import opened ReassemblyModel
  import opened ReassemblyOverlap

  // ---------------------------------------------------------------- any queue

  /** What every insertion keeps, whatever overlaps: nothing starts behind the end of a segment
      that is further back in the queue. */
  predicate Loose(q: seq<Seg>) {
    forall i, j | 0 <= i < j < |q| :: Clear(q[i], q[j])
  }

  predicate Clear(a: Seg, b: Seg) {
    a.start < b.end
  }

  predicate AllBeyond(q: seq<Seg>, r: int) {
    forall i | 0 <= i < |q| :: r < q[i].start
  }

  /** The queue holds arrivals only, and every arrival that reaches past r. */
  predicate HoldsRest(q: seq<Seg>, ps: seq<Seg>, r: int) {
    (forall x | x in q :: x in ps) && (forall x | x in ps :: x.end <= r || x in q)
  }

  /** The frontier is the first missing byte, and what was received past it waits. */
  ghost predicate Standing(isn: int, ps: seq<Seg>, s: State) {
    && FirstMissing(isn, ps, s.rcvNxt)
    && Loose(s.queue) && NonEmpty(s.queue)
    && AllBeyond(s.queue, s.rcvNxt)
    && HoldsRest(s.queue, ps, s.rcvNxt)
  }

  /** Every byte in [lo, hi) has been received. */
  predicate ReceivedAll(ps: seq<Seg>, lo: int, hi: int) {
    forall b | lo <= b < hi :: Received(ps, b)
  }

  /** How many segments at the head of the queue follow each other without a gap. */
  function Gapless(q: seq<Seg>): (k: nat)
    requires q != []
    ensures 1 <= k <= |q| && (k < |q| ==> q[k - 1].end < q[k].start)
    ensures forall i | 0 < i < k :: q[i].start <= q[i - 1].end
  {
    if |q| == 1 || q[0].end < q[1].start then 1 else 1 + Gapless(q[1..])
  }

  /** The last of the first k segments reaches furthest, and the others start beyond it. */
  predicate Smooth(q: seq<Seg>, k: nat)
    requires 0 < k <= |q|
  {
    && (forall i | 0 <= i < k :: q[i].end <= q[k - 1].end)
    && (forall i | k <= i < |q| :: q[k - 1].end < q[i].start)
  }

  /** The arrival reaches the frontier while something waits: with the end that `add` records for
      it, it comes before everything waiting, delivery stops where nothing waiting overlaps, and
      the bytes recorded past its own end are waiting too. */
  predicate Joins(s: State, p: Seg)
    requires s.queue != []
  {
    var e := Entry(s, p);
    && e.end <= s.queue[0].start
    && Smooth(Delivered(s, p), Gapless(Delivered(s, p)))
    && ReceivedAll(s.queue, p.end, e.end)
  }

  predicate Advances(s: State, p: Seg) {
    p.end <= s.rcvNxt || p.start > s.rcvNxt || s.queue == [] || Joins(s, p)
  }

  lemma InsertLoose(q: seq<Seg>, n: Seg)
    requires Loose(q) && NonEmpty(q) && n.start < n.end
    ensures Loose(Insert(q, n)) && NonEmpty(Insert(q, n))
  {
    var k := if q != [] && q[|q| - 1].end <= n.start then |q| else Place(q, n.end);
    var r := Insert(q, n);
    forall i | 0 <= i < |q|
      ensures i < k ==> Clear(q[i], n)
      ensures i >= k ==> Clear(n, q[i])
    {
      assert i > k ==> Clear(q[k], q[i]);
      assert i < |q| - 1 ==> Clear(q[i], q[|q| - 1]);
    }
    forall i, j | 0 <= i < j < |r|
      ensures Clear(r[i], r[j])
    {
      assert i < k ==> r[i] == q[i];
      assert j > k ==> r[j] == q[j - 1];
      assert i > k ==> r[i] == q[i - 1];
      assert j < k ==> r[j] == q[j];
    }
  }

  /** A segment that ends before the first of the queue starts may be put in front. */
  lemma ConsLoose(e: Seg, q: seq<Seg>)
    requires Loose(q) && NonEmpty(q) && q != [] && e.start < e.end <= q[0].start
    ensures Loose([e] + q) && NonEmpty([e] + q)
    ensures forall i | 0 <= i < |q| :: e.end < q[i].end
  {
    var r := [e] + q;
    forall i | 0 <= i < |q|
      ensures e.end < q[i].end
    {
      assert i > 0 ==> Clear(q[0], q[i]);
    }
    forall i, j | 0 <= i < j < |r|
      ensures Clear(r[i], r[j])
    {
      assert r[j] == q[j - 1] && (i > 0 ==> r[i] == q[i - 1]);
    }
  }

  lemma {:induction false} DeliverIs(q: seq<Seg>)
    requires q != []
    ensures Deliver(q).0 == State(q[Gapless(q) - 1].end, q[Gapless(q)..])
  {
    if |q| > 1 && q[0].end >= q[1].start {
      DeliverIs(q[1..]);
    }
  }

  /** Segments without a gap hold every byte from the first one's start to the last one's end. */
  lemma {:induction false} Covered(q: seq<Seg>, b: int)
    requires q != [] && q[0].start <= b < q[Gapless(q) - 1].end
    ensures Received(q[..Gapless(q)], b)
  {
    var k := Gapless(q);
    if b < q[0].end {
      assert Holds(q[..k][0], b);
    } else {
      Covered(q[1..], b);
      ReceivedFurther(q, k, b);
    }
  }

  // ---------------------------------------------------------------- one arrival

  /** Delivery stops at a byte that nothing waiting holds exactly when the queue is smooth there. */
  lemma StopsIff(q: seq<Seg>, k: nat)
    requires 0 < k <= |q| && Loose(q) && NonEmpty(q) && (k < |q| ==> q[k - 1].end < q[k].start)
    ensures !Received(q, q[k - 1].end) <==> Smooth(q, k)
  {
    var r := q[k - 1].end;
    if !Received(q, r) {
      forall i | 0 <= i < |q|
        ensures i < k ==> q[i].end <= r
        ensures i >= k ==> r < q[i].start
      {
        assert !Holds(q[i], r);
        assert i < k - 1 ==> Clear(q[i], q[k - 1]);
        assert i > k ==> Clear(q[k], q[i]);
      }
    }
  }

  lemma ReceivedIn(ps: seq<Seg>, qs: seq<Seg>, b: int)
    requires Received(ps, b) && forall x | x in ps && Holds(x, b) :: x in qs
    ensures Received(qs, b)
  {
    var i :| 0 <= i < |ps| && Holds(ps[i], b);
    assert ps[i] in qs;
    var j :| 0 <= j < |qs| && qs[j] == ps[i];
    assert Holds(qs[j], b);
  }

  lemma ReceivedBehind(e: Seg, q: seq<Seg>, b: int)
    ensures Received([e] + q, b) <==> Holds(e, b) || Received(q, b)
  {
    if Received(q, b) {
      var i :| 0 <= i < |q| && Holds(q[i], b);
      assert ([e] + q)[i + 1] == q[i];
    }
    if Holds(e, b) {
      assert ([e] + q)[0] == e;
    }
    if Received([e] + q, b) {
      var i :| 0 <= i < |q| + 1 && Holds(([e] + q)[i], b);
      assert i > 0 ==> ([e] + q)[i] == q[i - 1];
    }
  }

  /** Past the frontier, what was received and what waits are the same. */
  lemma WaitingIff(ps: seq<Seg>, q: seq<Seg>, r: int, b: int)
    requires HoldsRest(q, ps, r) && b >= r
    ensures Received(ps, b) <==> Received(q, b)
  {
    if Received(ps, b) {
      ReceivedIn(ps, q, b);
    }
    if Received(q, b) {
      ReceivedIn(q, ps, b);
    }
  }

  /** The arrival reaches the frontier and comes before everything waiting. */
  ghost predicate Front(isn: int, ps: seq<Seg>, s: State, p: Seg) {
    && Standing(isn, ps, s) && s.queue != []
    && isn <= p.start <= s.rcvNxt < p.end && Entry(s, p).end <= s.queue[0].start
  }

  /** The queue that is delivered then. */
  function Delivered(s: State, p: Seg): (q: seq<Seg>)
    ensures q != []
  {
    [Entry(s, p)] + s.queue
  }

  lemma FrontFacts(isn: int, ps: seq<Seg>, s: State, p: Seg)
    requires Front(isn, ps, s, p)
    ensures var e, q, k := Entry(s, p), Delivered(s, p), Gapless(Delivered(s, p));
            && e.start == s.rcvNxt && p.end <= e.end <= q[k - 1].end
            && Loose(q) && NonEmpty(q)
            && Recv(s, p) == State(q[k - 1].end, q[k..])
  {
    var e, q := Entry(s, p), Delivered(s, p);
    ConsLoose(e, s.queue);
    assert Place(s.queue, e.end) == 0;
    assert Insert(s.queue, e) == q;
    assert Recv(s, p) == Add(s, e).0 == Deliver(q).0;
    DeliverIs(q);
    var k := Gapless(q);
    assert k > 1 ==> q[k - 1] == s.queue[k - 2];
  }

  /** Between the recorded end and the end of delivery everything was waiting. */
  lemma DeliveredCovers(e: Seg, w: seq<Seg>)
    ensures var q := [e] + w; ReceivedAll(w, e.end, q[Gapless(q) - 1].end)
  {
    var q := [e] + w;
    var k := Gapless(q);
    forall b | e.end <= b < q[k - 1].end
      ensures Received(w, b)
    {
      DeliveredAt(e, w, b);
    }
  }

  lemma DeliveredAt(e: Seg, w: seq<Seg>, b: int)
    requires var q := [e] + w; e.end <= b < q[Gapless(q) - 1].end
    ensures Received(w, b)
  {
    var q := [e] + w;
    if w != [] && w[0].start <= e.end {
      assert q[1..] == w;
      assert q[Gapless(q) - 1] == w[Gapless(w) - 1];
      Covered(w, b);
      ReceivedWithin(w, Gapless(w), w, b);
    }
  }

  /** Everything below the new frontier r has arrived exactly when what was recorded past the end
      of the arrival was waiting. */
  lemma BelowIff(isn: int, ps: seq<Seg>, w: seq<Seg>, rcvNxt: int, p: Seg, end: int, r: int)
    requires ReceivedAll(ps, isn, rcvNxt) && HoldsRest(w, ps, rcvNxt) && ReceivedAll(w, end, r)
    requires isn <= p.start <= rcvNxt < p.end <= end <= r
    ensures ReceivedAll(ps + [p], isn, r) <==> ReceivedAll(w, p.end, end)
  {
    forall b | isn <= b < r
      ensures b < p.end || end <= b ==> Received(ps + [p], b)
      ensures p.end <= b ==> (Received(ps + [p], b) <==> Received(w, b))
    {
      ReceivedMore(ps, p, b);
      if b >= rcvNxt {
        WaitingIff(ps, w, rcvNxt, b);
      }
    }
    if ReceivedAll(ps + [p], isn, r) {
      assert forall b | p.end <= b < end :: Received(ps + [p], b);
    }
  }

  lemma AboveIff(ps: seq<Seg>, w: seq<Seg>, rcvNxt: int, p: Seg, e: Seg, k: nat)
    requires 0 < k <= |w| + 1 && HoldsRest(w, ps, rcvNxt)
    requires var q := [e] + w;
             && Loose(q) && NonEmpty(q) && (k < |q| ==> q[k - 1].end < q[k].start)
             && rcvNxt < p.end <= e.end <= q[k - 1].end
    ensures var q := [e] + w; !Received(ps + [p], q[k - 1].end) <==> Smooth(q, k)
  {
    var r := ([e] + w)[k - 1].end;
    ReceivedMore(ps, p, r);
    WaitingIff(ps, w, rcvNxt, r);
    ReceivedBehind(e, w, r);
    StopsIff([e] + w, k);
  }

  /** What is left of a smooth queue. */
  lemma SmoothRest(q: seq<Seg>, k: nat)
    requires 0 < k <= |q| && Smooth(q, k) && Loose(q) && NonEmpty(q)
    ensures Loose(q[k..]) && NonEmpty(q[k..]) && AllBeyond(q[k..], q[k - 1].end)
    ensures forall x | x in q :: x.end <= q[k - 1].end || x in q[k..]
  {
    forall x | x in q
      ensures x.end <= q[k - 1].end || x in q[k..]
    {
      var i :| 0 <= i < |q| && q[i] == x;
      assert i >= k ==> q[k..][i - k] == x;
    }
    forall i, j | 0 <= i < j < |q[k..]|
      ensures Clear(q[k..][i], q[k..][j])
    {
      assert Clear(q[k + i], q[k + j]);
    }
  }

  lemma StillHeld(ps: seq<Seg>, w: seq<Seg>, rcvNxt: int, p: Seg, e: Seg, rest: seq<Seg>, r: int)
    requires HoldsRest(w, ps, rcvNxt) && rcvNxt <= r && p.end <= r && (forall x | x in rest :: x in w)
    requires forall x | x in [e] + w :: x.end <= r || x in rest
    ensures HoldsRest(rest, ps + [p], r)
  {
    forall x | x in ps + [p]
      ensures x.end <= r || x in rest
    {
      if x in w {
        assert x in [e] + w;
      }
    }
  }

  /** With something waiting, an arrival that reaches the frontier leaves it exact if and only if it
      joins up. */
  lemma JoinsIff(isn: int, ps: seq<Seg>, s: State, p: Seg)
    requires Standing(isn, ps, s) && s.queue != [] && isn <= p.start <= s.rcvNxt < p.end
    ensures FirstMissing(isn, ps + [p], Recv(s, p).rcvNxt) <==> Joins(s, p)
    ensures Joins(s, p) ==> Standing(isn, ps + [p], Recv(s, p))
  {
    var e := Entry(s, p);
    if e.end <= s.queue[0].start {
      FrontIff(isn, ps, s, p);
      if Joins(s, p) {
        RestStands(isn, ps, s, p);
      }
    } else {
      assert Recv(s, p) == Add(s, e).0;
      assert Place(s.queue, e.end) > 0 && Insert(s.queue, e)[0] == s.queue[0];
      ReceivedMore(ps, p, s.rcvNxt);
    }
  }

  lemma FrontIff(isn: int, ps: seq<Seg>, s: State, p: Seg)
    requires Front(isn, ps, s, p)
    ensures FirstMissing(isn, ps + [p], Recv(s, p).rcvNxt) <==> Joins(s, p)
  {
    FrontFacts(isn, ps, s, p);
    MissingIff(isn, ps, s.rcvNxt);
    StopIsExactIff(isn, ps, s.queue, s.rcvNxt, p, Entry(s, p));
    MissingIff(isn, ps + [p], Recv(s, p).rcvNxt);
  }

  /** Where the delivery of e and what waits, w, stops is the first missing byte exactly when
      nothing waiting overlaps there and what e records past the end of p was waiting. */
  lemma StopIsExactIff(isn: int, ps: seq<Seg>, w: seq<Seg>, rcvNxt: int, p: Seg, e: Seg)
    requires ReceivedAll(ps, isn, rcvNxt) && HoldsRest(w, ps, rcvNxt)
    requires Loose([e] + w) && NonEmpty([e] + w)
    requires isn <= p.start <= rcvNxt < p.end <= e.end <= ([e] + w)[Gapless([e] + w) - 1].end
    ensures var q, k := [e] + w, Gapless([e] + w);
            ReceivedAll(ps + [p], isn, q[k - 1].end) && !Received(ps + [p], q[k - 1].end) <==>
            Smooth(q, k) && ReceivedAll(w, p.end, e.end)
  {
    var q, k := [e] + w, Gapless([e] + w);
    DeliveredCovers(e, w);
    BelowIff(isn, ps, w, rcvNxt, p, e.end, q[k - 1].end);
    AboveIff(ps, w, rcvNxt, p, e, k);
  }

  lemma MissingIff(isn: int, ps: seq<Seg>, b: int)
    ensures FirstMissing(isn, ps, b) <==> isn <= b && ReceivedAll(ps, isn, b) && !Received(ps, b)
  {
  }

  /** After a delivery that stops at a smooth place, what is left stands as before. */
  lemma RestStands(isn: int, ps: seq<Seg>, s: State, p: Seg)
    requires Front(isn, ps, s, p) && Joins(s, p)
    ensures var s' := Recv(s, p);
            && Loose(s'.queue) && NonEmpty(s'.queue)
            && AllBeyond(s'.queue, s'.rcvNxt) && HoldsRest(s'.queue, ps + [p], s'.rcvNxt)
  {
    FrontFacts(isn, ps, s, p);
    var q, k := Delivered(s, p), Gapless(Delivered(s, p));
    SmoothRest(q, k);
    assert q[k..] == s.queue[k - 1..];
    StillHeld(ps, s.queue, s.rcvNxt, p, Entry(s, p), q[k..], q[k - 1].end);
  }

  /** It lies below the frontier, or beyond it: the frontier does not move and is still exact. */
  lemma Passes(isn: int, ps: seq<Seg>, s: State, p: Seg)
    requires Standing(isn, ps, s) && p.start < p.end && (p.end <= s.rcvNxt || p.start > s.rcvNxt)
    ensures Recv(s, p).rcvNxt == s.rcvNxt && Standing(isn, ps + [p], Recv(s, p))
  {
    RecvCases(s, p);
    StillMissing(isn, ps, s, p);
    if p.start > s.rcvNxt {
      var q := Insert(s.queue, p);
      InsertMembers(s.queue, p);
      InsertLoose(s.queue, p);
      forall i | 0 <= i < |q|
        ensures s.rcvNxt < q[i].start
      {
        assert q[i] in q;
      }
    }
  }

  lemma StillMissing(isn: int, ps: seq<Seg>, s: State, p: Seg)
    requires FirstMissing(isn, ps, s.rcvNxt) && !Holds(p, s.rcvNxt)
    ensures FirstMissing(isn, ps + [p], s.rcvNxt)
  {
    forall b | isn <= b <= s.rcvNxt
      ensures Received(ps + [p], b) <==> b < s.rcvNxt
    {
      ReceivedMore(ps, p, b);
    }
  }

  /** One arrival, whatever overlaps, leaves rcv_nxt_ at the first missing byte if and only if it
      advances as said; the state is then as good as before. */
  lemma AdvancesIff(isn: int, ps: seq<Seg>, s: State, p: Seg)
    requires Standing(isn, ps, s) && isn <= p.start < p.end
    ensures FirstMissing(isn, ps + [p], Recv(s, p).rcvNxt) <==> Advances(s, p)
    ensures Advances(s, p) ==> Standing(isn, ps + [p], Recv(s, p))
  {
    if p.end <= s.rcvNxt || p.start > s.rcvNxt {
      Passes(isn, ps, s, p);
    } else if s.queue == [] {
      AllBelow(isn, ps, s, p);
    } else {
      JoinsIff(isn, ps, s, p);
    }
  }

  lemma AllBelow(isn: int, ps: seq<Seg>, s: State, p: Seg)
    requires Standing(isn, ps, s) && s.queue == [] && p.start <= s.rcvNxt < p.end
    ensures Standing(isn, ps + [p], Recv(s, p))
  {
    assert Recv(s, p) == State(p.end, []);
    forall b | isn <= b <= p.end
      ensures Received(ps + [p], b) <==> b < p.end
    {
      ReceivedMore(ps, p, b);
      if b >= s.rcvNxt {
        WaitingIff(ps, [], s.rcvNxt, b);
      }
    }
  }

  // ---------------------------------------------------------------- whole runs

  predicate AdvancesAt(isn: int, ps: seq<Seg>, n: nat)
    requires n < |ps|
  {
    Advances(Run(State(isn, []), ps[..n]), ps[n])
  }

  ghost predicate ExactAt(isn: int, ps: seq<Seg>, n: nat)
    requires n <= |ps|
  {
    FirstMissing(isn, ps[..n], Run(State(isn, []), ps[..n]).rcvNxt)
  }

  lemma {:induction false} RunOneMore(s: State, ps: seq<Seg>, p: Seg)
    ensures Run(s, ps + [p]) == Recv(Run(s, ps), p)
    decreases |ps|
  {
    if ps == [] {
      assert [p][1..] == [];
    } else {
      RunOneMore(Recv(s, ps[0]), ps[1..], p);
      assert (ps + [p])[1..] == ps[1..] + [p];
    }
  }

  predicate AllAdvance(isn: int, ps: seq<Seg>, m: nat)
    requires m <= |ps|
  {
    forall n | 0 <= n < m :: AdvancesAt(isn, ps, n)
  }

  ghost predicate AllExact(isn: int, ps: seq<Seg>, m: nat)
    requires m <= |ps|
  {
    forall n | 0 <= n <= m :: ExactAt(isn, ps, n)
  }

  lemma OneMore(isn: int, ps: seq<Seg>, m: nat)
    requires Segments(isn, ps) && m < |ps| && Standing(isn, ps[..m], Run(State(isn, []), ps[..m]))
    ensures ExactAt(isn, ps, m + 1) <==> AdvancesAt(isn, ps, m)
    ensures AdvancesAt(isn, ps, m) ==> Standing(isn, ps[..m + 1], Run(State(isn, []), ps[..m + 1]))
  {
    assert ps[..m + 1] == ps[..m] + [ps[m]];
    RunOneMore(State(isn, []), ps[..m], ps[m]);
    AdvancesIff(isn, ps[..m], Run(State(isn, []), ps[..m]), ps[m]);
  }

  lemma Prefixes(isn: int, ps: seq<Seg>, m: nat)
    requires m < |ps|
    ensures AllExact(isn, ps, m + 1) <==> AllExact(isn, ps, m) && ExactAt(isn, ps, m + 1)
    ensures AllAdvance(isn, ps, m + 1) <==> AllAdvance(isn, ps, m) && AdvancesAt(isn, ps, m)
  {
  }

  lemma {:induction false} ExactPrefix(isn: int, ps: seq<Seg>, m: nat)
    requires Segments(isn, ps) && m <= |ps|
    ensures AllExact(isn, ps, m) <==> AllAdvance(isn, ps, m)
    ensures AllAdvance(isn, ps, m) ==> Standing(isn, ps[..m], Run(State(isn, []), ps[..m]))
    decreases m
  {
    if m == 0 {
      assert ps[..0] == [];
      assert ExactAt(isn, ps, 0);
    } else {
      ExactPrefix(isn, ps, m - 1);
      Prefixes(isn, ps, m - 1);
      if AllAdvance(isn, ps, m - 1) {
        OneMore(isn, ps, m - 1);
      }
    }
  }

  /** For every run of segments, overlapping in any way: rcv_nxt_ is the first missing byte after
      every arrival if and only if every arrival advances. */
  lemma AlwaysExactIff(isn: int, ps: seq<Seg>)
    requires Segments(isn, ps)
    ensures (forall n | 0 <= n <= |ps| :: ExactAt(isn, ps, n)) <==> (forall n | 0 <= n < |ps| :: AdvancesAt(isn, ps, n))
  {
    ExactPrefix(isn, ps, |ps|);
  }

  /** An orderly arrival advances. */
  lemma OrderlyAdvances(isn: int, before: seq<Seg>, s: State, p: Seg)
    requires Segments(isn, before) && Frontier(isn, before, s) && isn <= p.start < p.end && Orderly(s, p)
    ensures Advances(s, p)
  {
    FrontierIff(isn, before, s, p);
    Waiting(isn, before, s);
    FrontierIsFirstMissing(isn, before, s);
    assert forall i, j | 0 <= i < j < |s.queue| :: Before(s.queue[i], s.queue[j]);
    assert Standing(isn, before, s);
    AdvancesIff(isn, before, s, p);
  }

  // ---------------------------------------------------------------- overlaps while waiting

  /** Two segments wait, and a third fills the gap in front of them. */
  lemma FillsFront(isn: int, a: Seg, b: Seg, c: Seg)
    requires isn < a.start <= b.start && a.start < a.end && b.start < b.end && b.start < a.end
    requires c.start == isn && c.end == a.start
    ensures Run(State(isn, []), [a, b, c]) == State(b.end, [])
  {
    RunThree(State(isn, []), a, b, c);
    RecvCases(State(isn, []), a);
    assert Insert([], a) == [a];
    RecvCases(State(isn, [a]), b);
    assert Insert([a], b) == [a, b];
    RecvCases(State(isn, [a, b]), c);
    assert Insert([a, b], c) == [c, a, b];
    DeliverIs([c, a, b]);
  }

  /** Segments that overlap in order while they wait are delivered right; one that lies inside a
      waiting segment ends delivery at its own end, though the byte there did arrive. */
  lemma WaitingOverlap(isn: int, a: Seg, b: Seg, c: Seg)
    requires isn < a.start <= b.start && a.start < a.end && b.start < b.end && b.start < a.end
    requires c.start == isn && c.end == a.start
    ensures Run(State(isn, []), [a, b, c]) == State(b.end, [])
    ensures FirstMissing(isn, [a, b, c], b.end) <==> a.end <= b.end
  {
    FillsFront(isn, a, b, c);
    var ps := [a, b, c];
    forall x
      ensures Received(ps, x) <==> Holds(a, x) || Holds(b, x) || Holds(c, x)
    {
      assert ps[0] == a && ps[1] == b && ps[2] == c;
    }
  }
}
