/**
 * The doubly linked reassembly queue, rewired in place, and the data path of recv above it.
 * Both are proved to do exactly what ReassemblyModel says on values.
 */
module Reassembly {
  import opened ReassemblyModel

  class SegInfo {
    var next_: SegInfo?
    var prev_: SegInfo?
    var startseq_: int
    var endseq_: int
    var flags_: set<Flag>

    constructor (s: Seg)
      ensures startseq_ == s.start && endseq_ == s.end && flags_ == s.flags
      ensures next_ == null && prev_ == null
    {
      next_, prev_ := null, null;
      startseq_, endseq_, flags_ := s.start, s.end, s.flags;
    }

    function Info(): Seg
      reads this
    {
      Seg(startseq_, endseq_, flags_)
    }
  }

  ghost predicate Apart(spine: seq<SegInfo>, i: nat, j: nat)
    requires i < |spine| && j < |spine|
  {
    spine[i] != spine[j]
  }

  /** Node k is found at place k only. */
  ghost predicate Only(spine: seq<SegInfo>, k: nat) {
    k < |spine| ==> forall i | 0 <= i < |spine| && i != k :: spine[i] != spine[k]
  }

  function Next(spine: seq<SegInfo>, i: nat): SegInfo?
    requires i < |spine|
  {
    if i + 1 < |spine| then spine[i + 1] else null
  }

  function Prev(spine: seq<SegInfo>, i: nat): SegInfo?
    requires i < |spine|
  {
    if i > 0 then spine[i - 1] else null
  }

  function Inserted<T>(spine: seq<T>, n: T, k: nat): seq<T>
    requires k <= |spine|
  {
    spine[..k] + [n] + spine[k..]
  }

  /** Node i has the right neighbours and holds segment i. */
  ghost predicate NodeAt(spine: seq<SegInfo>, contents: seq<Seg>, i: nat)
    requires i < |spine| == |contents|
    reads spine
  {
    spine[i].next_ == Next(spine, i) && spine[i].prev_ == Prev(spine, i) && spine[i].Info() == contents[i]
  }

  /** Node i of a list around whose place k the links to a new node `n` have been set. */
  ghost predicate RewiredAt(spine: seq<SegInfo>, contents: seq<Seg>, n: SegInfo, k: nat, i: nat)
    requires i < |spine| == |contents|
    reads spine
  {
    && spine[i].next_ == (if i + 1 == k then n else Next(spine, i))
    && spine[i].prev_ == (if i == k then n else Prev(spine, i))
    && spine[i].Info() == contents[i]
  }

  /** The nodes of `spine` form a doubly linked list that holds `contents`. */
  ghost predicate Listed(spine: seq<SegInfo>, contents: seq<Seg>)
    reads spine
  {
    && |contents| == |spine|
    && (forall i, j | 0 <= i < j < |spine| :: Apart(spine, i, j))
    && (forall i | 0 <= i < |spine| :: NodeAt(spine, contents, i))
  }

  lemma OnlyOnce(spine: seq<SegInfo>, contents: seq<Seg>, k: nat)
    requires Listed(spine, contents)
    ensures Only(spine, k)
  {
    if k < |spine| {
      forall i | 0 <= i < |spine| && i != k
        ensures spine[i] != spine[k]
      {
        assert if i < k then Apart(spine, i, k) else Apart(spine, k, i);
      }
    }
  }

  /** Setting the links around a new node at place k lists one more segment. */
  lemma InsertedLinks(was: seq<SegInfo>, contents: seq<Seg>, n: SegInfo, k: nat)
    requires k <= |was| == |contents| && n !in was
    requires forall i, j | 0 <= i < j < |was| :: Apart(was, i, j)
    requires forall i | 0 <= i < |was| :: RewiredAt(was, contents, n, k, i)
    requires n.next_ == (if k < |was| then was[k] else null) && n.prev_ == (if k > 0 then was[k - 1] else null)
    ensures Listed(Inserted(was, n, k), Inserted(contents, n.Info(), k))
  {
    var spine, all := Inserted(was, n, k), Inserted(contents, n.Info(), k);
    forall i | 0 <= i < |spine|
      ensures NodeAt(spine, all, i)
    {
      if i != k {
        assert RewiredAt(was, contents, n, k, if i < k then i else i - 1);
      }
    }
    forall i, j | 0 <= i < j < |spine|
      ensures Apart(spine, i, j)
    {
      if i != k && j != k {
        assert Apart(was, if i < k then i else i - 1, if j < k then j else j - 1);
      }
    }
  }

  /** Node i of a list whose first node has been taken out. */
  ghost predicate RewiredFirst(spine: seq<SegInfo>, contents: seq<Seg>, i: nat)
    requires 1 <= i < |spine| == |contents|
    reads spine
  {
    && spine[i].next_ == Next(spine, i) && spine[i].Info() == contents[i]
    && spine[i].prev_ == (if i == 1 then null else spine[i - 1])
  }

  lemma WithoutFirst(was: seq<SegInfo>, contents: seq<Seg>)
    requires |was| == |contents| > 0
    requires forall i, j | 0 <= i < j < |was| :: Apart(was, i, j)
    requires forall i | 1 <= i < |was| :: RewiredFirst(was, contents, i)
    ensures Listed(was[1..], contents[1..])
  {
    var spine, rest := was[1..], contents[1..];
    forall i | 0 <= i < |spine|
      ensures NodeAt(spine, rest, i)
    {
      assert RewiredFirst(was, contents, i + 1);
      assert spine[i] == was[i + 1] && rest[i] == contents[i + 1];
      assert i > 0 ==> spine[i - 1] == was[i];
    }
    forall i, j | 0 <= i < j < |spine|
      ensures Apart(spine, i, j)
    {
      assert Apart(was, i + 1, j + 1);
    }
  }

  class BayReassemblyQueue {
    var head_: SegInfo?
    var tail_: SegInfo?
    /** The receiver's rcv_nxt_, which the queue updates through a reference. */
    var rcv_nxt_: int
    ghost var spine: seq<SegInfo>
    ghost var contents: seq<Seg>

    ghost predicate Valid()
      reads this, spine
    {
      && Listed(spine, contents)
      && head_ == (if spine == [] then null else spine[0])
      && tail_ == (if spine == [] then null else spine[|spine| - 1])
    }

    ghost function Nodes(): set<SegInfo>
      reads this
    {
      set x | x in spine
    }

    ghost function State(): ReassemblyModel.State
      reads this
    {
      ReassemblyModel.State(rcv_nxt_, contents)
    }

    constructor (nxt: int)
      ensures Valid() && State() == ReassemblyModel.State(nxt, []) && spine == []
    {
      head_, tail_, rcv_nxt_ := null, null, nxt;
      spine, contents := [], [];
    }

    method Empty() returns (r: bool)
      requires Valid()
      ensures r <==> contents == []
    {
      r := head_ == null;
    }

    /** Frees every node. */
    method Clear()
      requires Valid()
      modifies this`head_, this`tail_, this`spine, this`contents
      ensures Valid() && contents == [] && spine == []
    {
      head_, tail_ := null, null;
      spine, contents := [], [];
    }

    /** Links `n` in at the head. */
    method LinkFirst(n: SegInfo)
      requires Valid() && n !in spine && spine != []
      modifies this`head_, this`spine, this`contents, Nodes(), n
      ensures Valid() && spine == Inserted(old(spine), n, 0) && contents == Inserted(old(contents), old(n.Info()), 0)
    {
      OnlyOnce(spine, contents, 0);
      RewireFirst(n);
      InsertedLinks(spine, contents, n, 0);
      contents := Inserted(contents, n.Info(), 0);
      spine := Inserted(spine, n, 0);
    }

    method RewireFirst(n: SegInfo)
      requires |contents| == |spine| > 0 && n !in spine && Only(spine, 0) && head_ == spine[0]
      requires forall i | 0 <= i < |spine| :: NodeAt(spine, contents, i)
      modifies this`head_, spine[0], n
      ensures forall i | 0 <= i < |spine| :: RewiredAt(spine, contents, n, 0, i)
      ensures n.next_ == spine[0] && n.prev_ == null && head_ == n && n.Info() == old(n.Info())
    {
      n.next_ := head_;
      n.prev_ := null;
      head_.prev_ := n;
      head_ := n;
      forall i | 0 <= i < |spine|
        ensures RewiredAt(spine, contents, n, 0, i)
      {
        assert old(NodeAt(spine, contents, i));
      }
    }

    /** Links `n` in after the node `p`, which is node k - 1. */
    method LinkAfter(p: SegInfo, n: SegInfo, ghost k: nat)
      requires Valid() && 0 < k <= |spine| && n !in spine && p == spine[k - 1]
      modifies this`tail_, this`spine, this`contents, Nodes(), n
      ensures Valid() && spine == Inserted(old(spine), n, k)
      ensures contents == Inserted(old(contents), old(n.Info()), k)
    {
      OnlyOnce(spine, contents, k - 1);
      OnlyOnce(spine, contents, k);
      RewireAfter(p, n, k);
      InsertedLinks(spine, contents, n, k);
      contents := Inserted(contents, n.Info(), k);
      spine := Inserted(spine, n, k);
    }

    method RewireAfter(p: SegInfo, n: SegInfo, ghost k: nat)
      requires 0 < k <= |spine| == |contents| && n !in spine && p == spine[k - 1]
      requires Only(spine, k - 1) && Only(spine, k) && tail_ == spine[|spine| - 1]
      requires forall i | 0 <= i < |spine| :: NodeAt(spine, contents, i)
      modifies this`tail_, p, if k < |spine| then {spine[k]} else {}, n
      ensures forall i | 0 <= i < |spine| :: RewiredAt(spine, contents, n, k, i)
      ensures n.next_ == (if k < |spine| then spine[k] else null) && n.prev_ == p && n.Info() == old(n.Info())
      ensures tail_ == if k == |spine| then n else old(tail_)
    {
      assert NodeAt(spine, contents, k - 1);
      n.next_ := p.next_;
      if p.next_ != null {
        p.next_.prev_ := n;
      }
      p.next_ := n;
      n.prev_ := p;
      if p == tail_ {
        tail_ := n;
      }
      forall i | 0 <= i < |spine|
        ensures RewiredAt(spine, contents, n, k, i)
      {
        assert old(NodeAt(spine, contents, i));
      }
    }

    /** The search of `add` for the segment after this one. */
    method Search(end: int) returns (q: SegInfo?, ghost k: nat)
      requires Valid()
      ensures k == Place(contents, end) && q == (if k < |spine| then spine[k] else null)
    {
      q, k := head_, 0;
      while q != null && end > q.startseq_
        invariant k <= |spine| && q == (if k < |spine| then spine[k] else null)
        invariant Place(contents, end) == k + Place(contents[k..], end)
        decreases |spine| - k
      {
        assert NodeAt(spine, contents, k);
        q := q.next_;
        k := k + 1;
      }
      if k < |spine| {
        assert NodeAt(spine, contents, k);
      }
    }

    /** The part of `add` that puts a new segment in its place. */
    method Insert(s: Seg)
      requires Valid()
      modifies this`head_, this`tail_, this`spine, this`contents, Nodes()
      ensures Valid() && contents == ReassemblyModel.Insert(old(contents), s)
      ensures fresh(Nodes() - old(Nodes()))
    {
      var n := new SegInfo(s);
      if head_ == null {
        tail_, head_ := n, n;
        spine, contents := [n], [s];
        return;
      }
      ghost var k := |spine|;
      var p := tail_;
      assert NodeAt(spine, contents, k - 1);
      if tail_.endseq_ > s.start {
        var q;
        q, k := Search(s.end);
        assert k < |spine| ==> NodeAt(spine, contents, k);
        p := if q == null then tail_ else q.prev_;
      }
      Link(p, n, k);
    }

    method Link(p: SegInfo?, n: SegInfo, ghost k: nat)
      requires Valid() && k <= |spine| && n !in spine && spine != []
      requires p == (if k > 0 then spine[k - 1] else null)
      modifies this`head_, this`tail_, this`spine, this`contents, Nodes(), n
      ensures Valid() && contents == Inserted(old(contents), old(n.Info()), k)
      ensures Nodes() == old(Nodes()) + {n}
    {
      if p == null {
        LinkFirst(n);
      } else {
        LinkAfter(p, n, k);
      }
    }

    /** Takes the first node out of the list. */
    method Unlink(q: SegInfo)
      requires Valid() && spine != [] && q == spine[0]
      modifies this`head_, this`tail_, this`spine, this`contents, Nodes()
      ensures Valid() && spine == old(spine)[1..] && contents == old(contents)[1..]
    {
      OnlyOnce(spine, contents, 1);
      assert NodeAt(spine, contents, 0);
      head_ := q.next_;
      if q.next_ != null {
        q.next_.prev_ := q.prev_;
      } else {
        tail_ := q.prev_;
      }
      forall i | 1 <= i < |spine|
        ensures RewiredFirst(spine, contents, i)
      {
        assert old(NodeAt(spine, contents, i));
      }
      WithoutFirst(spine, contents);
      spine, contents := spine[1..], contents[1..];
    }

    /** The delivery loop of `add`: consumes the in-sequence segments at the front. */
    method Deliver() returns (tiflags: set<Flag>)
      requires Valid() && spine != []
      modifies this`head_, this`tail_, this`rcv_nxt_, this`spine, this`contents, Nodes()
      ensures Valid() && (State(), tiflags) == ReassemblyModel.Deliver(old(contents))
      ensures Nodes() <= old(Nodes())
    {
      tiflags := {};
      var p := head_;
      ghost var result := ReassemblyModel.Deliver(contents);
      while p != null
        invariant Valid() && p == head_ && Nodes() <= old(Nodes())
        invariant if p == null then (State(), tiflags) == result
                  else ReassemblyModel.Deliver(contents).0 == result.0 && tiflags + ReassemblyModel.Deliver(contents).1 == result.1
        decreases |spine|
      {
        assert NodeAt(spine, contents, 0);
        assert |spine| > 1 ==> NodeAt(spine, contents, 1);
        rcv_nxt_ := p.endseq_;
        tiflags := tiflags + p.flags_;
        var q := p;
        var gap := q.next_ != null && q.endseq_ < q.next_.startseq_;
        p := p.next_;
        Unlink(q);
        if gap {
          break;
        }
      }
    }

    /** Adds a segment and delivers what is now in sequence; the flags of what was delivered are
        returned, none while a hole is still to be filled. */
    method Add(s: Seg) returns (tiflags: set<Flag>)
      requires Valid()
      modifies this, Nodes()
      ensures Valid() && (State(), tiflags) == ReassemblyModel.Add(old(State()), s)
      ensures fresh(Nodes() - old(Nodes()))
    {
      Insert(s);
      assert NodeAt(spine, contents, 0);
      if head_.startseq_ > rcv_nxt_ {
        return {};
      }
      tiflags := Deliver();
    }
  }

  /** The receive side of the agent. */
  class BayFullTcpAgent {
    const rq_: BayReassemblyQueue
    var acknow_: bool
    var delack_: bool

    constructor (nxt: int)
      ensures rq_.Valid() && rq_.State() == ReassemblyModel.State(nxt, [])
    {
      rq_ := new BayReassemblyQueue(nxt);
      acknow_, delack_ := false, false;
    }

    /** The trimming of recv: how many bytes to drop at the front of a data segment. One that
        carries nothing new is acknowledged at once. */
    method TrimFront(p: Seg) returns (todrop: int)
      requires p.flags * {Fin, Syn, Ack} == {Ack}
      modifies this`acknow_
      ensures todrop == Trim(rq_.State(), p)
      ensures acknow_ == (old(acknow_) || (p.start < rq_.rcv_nxt_ && p.end <= rq_.rcv_nxt_))
    {
      todrop := rq_.rcv_nxt_ - p.start;
      if todrop > 0 {
        if todrop >= p.end - p.start {
          acknow_ := true;
          todrop := p.end - p.start;
        }
      } else {
        todrop := 0;
      }
    }

    /** Trimming and data path of recv for a data segment. */
    method Recv(p: Seg)
      requires rq_.Valid() && p.flags * {Fin, Syn, Ack} == {Ack}
      modifies this, rq_, rq_.Nodes()
      ensures rq_.Valid() && rq_.State() == ReassemblyModel.Recv(old(rq_.State()), p)
      ensures delack_ == (old(delack_) || (p.start <= old(rq_.rcv_nxt_) < p.end && old(rq_.contents) == []))
      ensures acknow_ == (|| old(acknow_)
                          || (p.start < old(rq_.rcv_nxt_) && p.end <= old(rq_.rcv_nxt_))
                          || (&& p.start < p.end && old(rq_.rcv_nxt_) < p.end
                              && (p.start > old(rq_.rcv_nxt_) || old(rq_.contents) != [])
                              && Push !in ReassemblyModel.Add(old(rq_.State()), Entry(old(rq_.State()), p)).1))
      ensures fresh(rq_.Nodes() - old(rq_.Nodes()))
    {
      var todrop := TrimFront(p);
      var seqno := p.start + todrop;
      var datalen := p.end - p.start - todrop;
      if datalen > 0 {
        var empty := rq_.Empty();
        if seqno == rq_.rcv_nxt_ && empty {
          delack_ := true;
          rq_.rcv_nxt_ := rq_.rcv_nxt_ + datalen;
        } else {
          var tiflags := rq_.Add(Seg(seqno, seqno + (p.end - p.start), p.flags));
          if Push !in tiflags {
            acknow_ := true;
          }
        }
      }
    }

    /** With `isn` the first byte of the stream and `before` the arrivals so far: rcv_nxt_ is the
        first missing byte again, and has not moved back. */
    method RecvInStream(p: Seg, ghost isn: int, ghost before: seq<Seg>)
      requires rq_.Valid() && p.flags * {Fin, Syn, Ack} == {Ack}
      requires Frontier(isn, before, rq_.State()) && Stream(isn, before + [p])
      modifies this, rq_, rq_.Nodes()
      ensures rq_.Valid() && Frontier(isn, before + [p], rq_.State())
      ensures FirstMissing(isn, before + [p], rq_.rcv_nxt_) && rq_.rcv_nxt_ >= old(rq_.rcv_nxt_)
    {
      RecvKeeps(isn, before, rq_.State(), p);
      FrontierIsFirstMissing(isn, before + [p], ReassemblyModel.Recv(rq_.State(), p));
      Recv(p);
    }
  }
}
