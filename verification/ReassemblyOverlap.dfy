/**
 * The frontier under segments that overlap in any way, while the queue is in order of both ends:
 * exactly which arrivals leave rcv_nxt_ at the first missing byte, and exactly which leave the
 * queue in that order.  ReassemblyExact drops the order.
 */
module ReassemblyOverlap {
  import opened ReassemblyModel

  predicate Segments(isn: int, ps: seq<Seg>) {
    forall i | 0 <= i < |ps| :: isn <= ps[i].start < ps[i].end
  }

  /** The arrival lies below the frontier or beyond it, nothing is waiting, or it starts at the
      frontier and ends before what is waiting. */
  predicate Fits(s: State, p: Seg) {
    || p.end <= s.rcvNxt
    || p.start > s.rcvNxt
    || s.queue == []
    || (p.start == s.rcvNxt && p.end <= s.queue[0].start)
  }

  lemma Waiting(isn: int, ps: seq<Seg>, s: State)
    requires Frontier(isn, ps, s) && Segments(isn, ps)
    ensures NonEmpty(s.queue)
    ensures forall i | 0 <= i < |s.queue| :: s.queue[0].start <= s.queue[i].start
    ensures s.queue != [] ==> s.queue[|s.queue| - 1].end > s.rcvNxt
  {
    forall i | 0 <= i < |s.queue|
      ensures s.queue[i].start < s.queue[i].end && s.queue[0].start <= s.queue[i].start
    {
      assert s.queue[i] in ps && s.queue[0] in ps;
      assert i > 0 ==> Before(s.queue[0], s.queue[i]);
    }
  }

  /** Nothing between the frontier and the first waiting segment has been received. */
  lemma Gap(isn: int, ps: seq<Seg>, s: State, b: int)
    requires Frontier(isn, ps, s) && Segments(isn, ps) && b >= s.rcvNxt
    requires s.queue == [] || b < s.queue[0].start
    ensures !Received(ps, b)
  {
    Waiting(isn, ps, s);
    forall i | 0 <= i < |ps|
      ensures !Holds(ps[i], b)
    {
      assert ps[i] in ps;
    }
  }

  /** The frontier where it was is right if it is not held by the arrival. */
  lemma Unmoved(isn: int, ps: seq<Seg>, s: State, p: Seg)
    requires Frontier(isn, ps, s) && Segments(isn, ps)
    ensures FirstMissing(isn, ps + [p], s.rcvNxt) <==> !Holds(p, s.rcvNxt)
  {
    Gap(isn, ps, s, s.rcvNxt);
    ReceivedMore(ps, p, s.rcvNxt);
    forall b | isn <= b < s.rcvNxt
      ensures Received(ps + [p], b)
    {
      ReceivedMore(ps, p, b);
    }
  }

  /** Nothing is waiting: the arrival moves the frontier to its own end. */
  lemma NothingWaiting(isn: int, ps: seq<Seg>, s: State, p: Seg)
    requires Frontier(isn, ps, s) && Segments(isn, ps) && s.queue == [] && p.start <= s.rcvNxt < p.end
    ensures Recv(s, p) == State(p.end, []) && Frontier(isn, ps + [p], State(p.end, []))
  {
    forall b | isn <= b < p.end
      ensures Received(ps + [p], b)
    {
      ReceivedMore(ps, p, b);
    }
  }

  /** The arrival is queued behind the first waiting segment, and the frontier does not move. */
  lemma Blocked(isn: int, ps: seq<Seg>, s: State, e: Seg)
    requires Frontier(isn, ps, s) && Segments(isn, ps) && s.queue != []
    requires e.start <= s.rcvNxt < e.end && e.end > s.queue[0].start
    ensures Add(s, e).0.rcvNxt == s.rcvNxt
  {
    Waiting(isn, ps, s);
    assert Place(s.queue, e.end) > 0;
    assert Insert(s.queue, e)[0] == s.queue[0];
  }

  lemma InFrontSorted(q: seq<Seg>, e: Seg)
    requires q != [] && Sorted(q) && NonEmpty(q) && e.start < e.end <= q[0].start
    requires forall i | 0 <= i < |q| :: q[0].start <= q[i].start
    ensures Sorted([e] + q) && NonEmpty([e] + q)
  {
  }

  /** The arrival is queued in front of everything, and delivered. */
  lemma InFront(isn: int, ps: seq<Seg>, s: State, e: Seg)
    requires Frontier(isn, ps, s) && Segments(isn, ps) && s.queue != []
    requires e.start <= s.rcvNxt < e.end <= s.queue[0].start
    ensures Insert(s.queue, e) == [e] + s.queue && Sorted([e] + s.queue) && NonEmpty([e] + s.queue)
    ensures Add(s, e) == Deliver([e] + s.queue) && Add(s, e).0.rcvNxt >= e.end
  {
    Waiting(isn, ps, s);
    InFrontSorted(s.queue, e);
    assert Place(s.queue, e.end) == 0;
    DeliversFirst([e] + s.queue);
  }

  lemma DeliversFirst(q: seq<Seg>)
    requires q != [] && Sorted(q) && NonEmpty(q)
    ensures Deliver(q).0.rcvNxt >= q[0].end
  {
    var k := DeliverTakes(q);
  }

  /** It starts at the frontier and fills a gap: the frontier is right again. */
  lemma FillsGap(isn: int, ps: seq<Seg>, s: State, p: Seg)
    requires Frontier(isn, ps, s) && Segments(isn, ps) && s.queue != []
    requires p.start == s.rcvNxt < p.end <= s.queue[0].start
    ensures Frontier(isn, ps + [p], Recv(s, p))
  {
    RecvCases(s, p);
    InFront(isn, ps, s, p);
    InFrontMembers(isn, ps, s, p);
    Delivers(isn, ps, s, p, [p] + s.queue);
  }

  lemma InFrontMembers(isn: int, ps: seq<Seg>, s: State, p: Seg)
    requires Frontier(isn, ps, s) && s.rcvNxt <= p.start
    ensures forall x | x in [p] + s.queue :: x in ps + [p] && s.rcvNxt <= x.start
    ensures forall x | x in ps + [p] :: x.end <= s.rcvNxt || x in [p] + s.queue
  {
    forall x | x in [p] + s.queue
      ensures x in ps + [p] && s.rcvNxt <= x.start
    {
      if x != p {
        var i :| 0 <= i < |s.queue| && s.queue[i] == x;
      }
    }
  }

  /** It straddles the frontier while something waits: the frontier is wrong afterwards. */
  lemma Straddles(isn: int, ps: seq<Seg>, s: State, p: Seg)
    requires Frontier(isn, ps, s) && Segments(isn, ps) && s.queue != [] && p.start < s.rcvNxt < p.end
    ensures !FirstMissing(isn, ps + [p], Recv(s, p).rcvNxt)
  {
    var e := Entry(s, p);
    assert Recv(s, p) == Add(s, e).0;
    if e.end > s.queue[0].start {
      Blocked(isn, ps, s, e);
      Unmoved(isn, ps, s, p);
    } else {
      InFront(isn, ps, s, e);
      Gap(isn, ps, s, p.end);
      ReceivedMore(ps, p, p.end);
      assert isn <= p.end < Recv(s, p).rcvNxt;
    }
  }

  /** One arrival, however it overlaps what came before, leaves rcv_nxt_ at the first missing
      byte if and only if it fits. */
  lemma FrontierIff(isn: int, ps: seq<Seg>, s: State, p: Seg)
    requires Frontier(isn, ps, s) && Segments(isn, ps) && isn <= p.start < p.end
    ensures FirstMissing(isn, ps + [p], Recv(s, p).rcvNxt) <==> Fits(s, p)
  {
    Waiting(isn, ps, s);
    if p.end <= s.rcvNxt {
      RecvCases(s, p);
      Unmoved(isn, ps, s, p);
    } else if p.start > s.rcvNxt {
      Beyond(isn, ps, s, p);
      Unmoved(isn, ps, s, p);
    } else if s.queue == [] {
      NothingWaiting(isn, ps, s, p);
      FrontierIsFirstMissing(isn, ps + [p], State(p.end, []));
    } else if p.start < s.rcvNxt {
      Straddles(isn, ps, s, p);
    } else if p.end <= s.queue[0].start {
      FillsGap(isn, ps, s, p);
      FrontierIsFirstMissing(isn, ps + [p], Recv(s, p));
    } else {
      RecvCases(s, p);
      Blocked(isn, ps, s, p);
      Unmoved(isn, ps, s, p);
    }
  }

  lemma Beyond(isn: int, ps: seq<Seg>, s: State, p: Seg)
    requires Frontier(isn, ps, s) && Segments(isn, ps) && s.rcvNxt < p.start < p.end
    ensures Recv(s, p) == State(s.rcvNxt, Insert(s.queue, p))
  {
    RecvCases(s, p);
    InsertMembers(s.queue, p);
    assert Insert(s.queue, p)[0] in Insert(s.queue, p);
  }

  // ---------------------------------------------------------------- runs with overlaps

  /** It fits, and if it is to wait it neither lies inside a waiting segment nor reaches round
      the front of one. */
  predicate Orderly(s: State, p: Seg) {
    && Fits(s, p)
    && (p.start > s.rcvNxt ==> forall i | 0 <= i < |s.queue| :: Follows(s.queue[i], p))
  }

  /** One arrival keeps the frontier exact and the queue in order if and only if it is orderly. */
  lemma KeptIff(isn: int, ps: seq<Seg>, s: State, p: Seg)
    requires Frontier(isn, ps, s) && Segments(isn, ps) && isn <= p.start < p.end
    ensures Frontier(isn, ps + [p], Recv(s, p)) <==> Orderly(s, p)
  {
    FrontierIff(isn, ps, s, p);
    if !Fits(s, p) {
      if Frontier(isn, ps + [p], Recv(s, p)) {
        FrontierIsFirstMissing(isn, ps + [p], Recv(s, p));
      }
    } else if p.end <= s.rcvNxt {
      RecvCases(s, p);
      Widen(isn, ps, s, p);
    } else if p.start > s.rcvNxt {
      BeyondKeptIff(isn, ps, s, p);
    } else if s.queue == [] {
      NothingWaiting(isn, ps, s, p);
    } else {
      FillsGap(isn, ps, s, p);
    }
  }

  lemma BeyondKept(isn: int, ps: seq<Seg>, s: State, p: Seg)
    requires Frontier(isn, ps, s) && Segments(isn, ps) && s.rcvNxt < p.start < p.end
    requires forall i | 0 <= i < |s.queue| :: Follows(s.queue[i], p)
    ensures Frontier(isn, ps + [p], State(s.rcvNxt, Insert(s.queue, p)))
  {
    var q := Insert(s.queue, p);
    Waiting(isn, ps, s);
    InsertSorted(s.queue, p);
    InsertMembers(s.queue, p);
    forall x | x in q
      ensures x in ps + [p] && s.rcvNxt < x.start < x.end
    {
      if x != p {
        var i :| 0 <= i < |s.queue| && s.queue[i] == x;
      }
    }
    assert forall i | 0 <= i < |q| :: q[i] in q;
    StillWaiting(isn, ps, s, p, q);
  }

  lemma BeyondKeptIff(isn: int, ps: seq<Seg>, s: State, p: Seg)
    requires Frontier(isn, ps, s) && Segments(isn, ps) && s.rcvNxt < p.start < p.end
    ensures Frontier(isn, ps + [p], Recv(s, p)) <==> forall i | 0 <= i < |s.queue| :: Follows(s.queue[i], p)
  {
    Beyond(isn, ps, s, p);
    if forall i | 0 <= i < |s.queue| :: Follows(s.queue[i], p) {
      BeyondKept(isn, ps, s, p);
    } else {
      Overlapping(s.queue, p);
    }
  }

  lemma Overlapping(queue: seq<Seg>, p: Seg)
    requires Sorted(queue) && exists i :: 0 <= i < |queue| && !Follows(queue[i], p)
    ensures !Sorted(Insert(queue, p))
  {
    var i :| 0 <= i < |queue| && !Follows(queue[i], p);
    var q := Insert(queue, p);
    var k := if queue != [] && queue[|queue| - 1].end <= p.start then |queue| else Place(queue, p.end);
    forall j | k <= j < |queue|
      ensures Follows(queue[j], p)
    {
      assert j > k ==> Before(queue[k], queue[j]);
    }
    assert q[i] == queue[i] && q[k] == p && !Before(q[i], q[k]);
  }

  /** Every arrival of the run is orderly. */
  predicate OrderlyRun(s: State, ps: seq<Seg>)
    decreases |ps|
  {
    ps == [] || (Orderly(s, ps[0]) && OrderlyRun(Recv(s, ps[0]), ps[1..]))
  }

  /** The frontier is exact after every orderly run, overlaps or not. */
  lemma {:induction false} OrderlyRunKeeps(isn: int, before: seq<Seg>, s: State, ps: seq<Seg>)
    requires Segments(isn, before + ps) && Frontier(isn, before, s) && OrderlyRun(s, ps)
    ensures Frontier(isn, before + ps, Run(s, ps)) && FirstMissing(isn, before + ps, Run(s, ps).rcvNxt)
    decreases |ps|
  {
    if ps == [] {
      assert before + ps == before;
      FrontierIsFirstMissing(isn, before, s);
    } else {
      var all, now := before + ps, before + [ps[0]];
      assert all == now + ps[1..] && all[|before|] == ps[0];
      assert forall i | 0 <= i < |before| :: before[i] == all[i];
      KeptIff(isn, before, s, ps[0]);
      OrderlyRunKeeps(isn, now, Recv(s, ps[0]), ps[1..]);
    }
  }

  // ---------------------------------------------------------------- how it goes wrong

  /** The end that recv records for a segment reaching past the frontier is the segment's own end
      exactly when nothing was trimmed or the queue is empty: `add` measures the whole packet. */
  lemma TrimmedEnd(s: State, p: Seg)
    requires p.start < p.end && s.rcvNxt < p.end
    ensures var accepted := if p.start + Trim(s, p) == s.rcvNxt && s.queue == [] then Recv(s, p).rcvNxt
                            else Entry(s, p).end;
            accepted == p.end <==> p.start >= s.rcvNxt || s.queue == []
  {
  }

  /** So with anything waiting further on, a retransmission that straddles the frontier moves it
      past the end of that segment, by exactly the number of bytes already received. */
  lemma OvershootBy(s: State, p: Seg)
    requires s.queue != [] && p.start < s.rcvNxt < p.end && Entry(s, p).end < s.queue[0].start
    requires s.queue[|s.queue| - 1].end > s.rcvNxt
    ensures Recv(s, p) == State(p.end + (s.rcvNxt - p.start), s.queue)
  {
  }

  /** The frontier then passes a byte that no arrival holds. */
  lemma Overshoot(isn: int, ps: seq<Seg>, s: State, p: Seg)
    requires Frontier(isn, ps, s) && Segments(isn, ps) && s.queue != []
    requires p.start < s.rcvNxt < p.end && Entry(s, p).end < s.queue[0].start
    ensures Recv(s, p).rcvNxt > p.end && !Received(ps + [p], p.end)
  {
    Waiting(isn, ps, s);
    OvershootBy(s, p);
    Gap(isn, ps, s, p.end);
    ReceivedMore(ps, p, p.end);
  }

  lemma RunThree(s: State, a: Seg, b: Seg, c: Seg)
    ensures Run(s, [a, b, c]) == Recv(Recv(Recv(s, a), b), c)
  {
    assert [a, b, c][1..] == [b, c] && [b, c][1..] == [c] && [c][1..] == [];
    assert Run(s, [a, b, c]) == Run(Recv(s, a), [b, c]);
    assert Run(Recv(s, a), [b, c]) == Run(Recv(Recv(s, a), b), [c]);
    assert Run(Recv(Recv(s, a), b), [c]) == Run(Recv(Recv(Recv(s, a), b), c), []);
  }

  /** From the beginning of a connection: a, then b further on, then c straddling the end of a.
      The frontier passes the end of c by as many bytes as c repeats of a. */
  lemma OvershootRun(isn: int, a: Seg, b: Seg, c: Seg)
    requires a.start == isn <= c.start < a.end < c.end && c.end + (a.end - c.start) < b.start < b.end
    ensures Run(State(isn, []), [a, b, c]).rcvNxt == c.end + (a.end - c.start) && !Received([a, b, c], c.end)
  {
    FirstTwo(isn, a, b);
    OvershootBy(State(a.end, [b]), c);
    RunThree(State(isn, []), a, b, c);
  }

  lemma FirstTwo(isn: int, a: Seg, b: Seg)
    requires a.start == isn < a.end < b.start < b.end
    ensures Recv(Recv(State(isn, []), a), b) == State(a.end, [b])
  {
    RecvCases(State(isn, []), a);
    RecvCases(State(a.end, []), b);
    assert Insert([], b) == [b];
  }

  /** Bytes 0..10 and 20..21 arrive, and then 8..12: the frontier stands at 14, though byte 12 has
      not arrived. */
  lemma OvershootExample(a: Seg, b: Seg, c: Seg)
    requires a.start == 0 && a.end == 10 && b.start == 20 && b.end == 21 && c.start == 8 && c.end == 12
    ensures Run(State(0, []), [a, b, c]).rcvNxt == 14 && !Received([a, b, c], 12)
  {
    OvershootRun(0, a, b, c);
  }

  /** And an overlapping pair can be queued the wrong way round, which stalls the frontier at a
      byte that did arrive. */
  lemma OverlapStalls(r: int, a: Seg, b: Seg)
    requires r < a.start < a.end && b.start == r && a.start < b.end
    ensures Recv(Recv(State(r, []), a), b) == State(r, [a, b]) && Received([a, b], r)
  {
    RecvCases(State(r, []), a);
    assert Insert([], a) == [a];
    RecvCases(State(r, [a]), b);
    assert Insert([a], b) == [a, b];
    assert Holds([a, b][1], r);
  }
}
