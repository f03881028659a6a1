/**
 * The linked send buffer of AODV. Every operation is proved to do to its list what RqueueModel
 * does to a sequence; the consistency check `VerifyQueue` and the asserts of the unlinking code
 * are proved never to fail.
 */
module Rqueue {
  import opened Options
  import opened RqueueModel

  class Packet {
    var next_: Packet?
    const id: int
    const daddr: int
    var ts_: real

    constructor (number: int, dst: int)
      ensures next_ == null && id == number && daddr == dst
    {
      next_, ts_, id, daddr := null, 0.0, number, dst;
    }

    function Info(): Pkt
      reads this
    {
      Pkt(id, daddr, ts_)
    }
  }

  datatype DropReason = NotDropped | QueueFull | QueueTimeout

  ghost predicate Apart(spine: seq<Packet>, i: nat, j: nat)
    requires i < |spine| && j < |spine|
  {
    spine[i] != spine[j]
  }

  function Next(spine: seq<Packet>, i: nat): Packet?
    requires i < |spine|
  {
    if i + 1 < |spine| then spine[i + 1] else null
  }

  ghost predicate NodeAt(spine: seq<Packet>, contents: seq<Pkt>, i: nat)
    requires i < |spine| == |contents|
    reads spine
  {
    spine[i].next_ == Next(spine, i) && spine[i].Info() == contents[i]
  }

  /** Packet i of a list whose packet k has been passed over by its predecessor. */
  ghost predicate SkippedAt(spine: seq<Packet>, contents: seq<Pkt>, k: nat, i: nat)
    requires i < |spine| == |contents| && k < |spine|
    reads spine
  {
    spine[i].next_ == (if i + 1 == k then Next(spine, k) else Next(spine, i)) && spine[i].Info() == contents[i]
  }

  /** The packets of `spine` form a linked list that holds `contents`. */
  ghost predicate Listed(spine: seq<Packet>, contents: seq<Pkt>)
    reads spine
  {
    && |contents| == |spine|
    && (forall i, j | 0 <= i < j < |spine| :: Apart(spine, i, j))
    && (forall i | 0 <= i < |spine| :: NodeAt(spine, contents, i))
  }

  lemma Skipped(was: seq<Packet>, contents: seq<Pkt>, k: nat)
    requires k < |was| == |contents|
    requires forall i, j | 0 <= i < j < |was| :: Apart(was, i, j)
    requires forall i | 0 <= i < |was| && i != k :: SkippedAt(was, contents, k, i)
    ensures Listed(RemovedAt(was, k), RemovedAt(contents, k)) && was[k] !in RemovedAt(was, k)
  {
    var spine, rest := RemovedAt(was, k), RemovedAt(contents, k);
    forall i | 0 <= i < |spine|
      ensures NodeAt(spine, rest, i)
    {
      assert SkippedAt(was, contents, k, if i < k then i else i + 1);
    }
    forall i, j | 0 <= i < j < |spine|
      ensures Apart(spine, i, j)
    {
      assert Apart(was, if i < k then i else i + 1, if j < k then j else j + 1);
    }
    forall i | 0 <= i < |was| && i != k
      ensures was[i] != was[k]
    {
      assert if i < k then Apart(was, i, k) else Apart(was, k, i);
    }
  }

  /** The last packet's link set to a new packet `n`: one more packet is listed. */
  ghost predicate TailLinkedAt(spine: seq<Packet>, contents: seq<Pkt>, n: Packet, i: nat)
    requires i < |spine| == |contents|
    reads spine
  {
    spine[i].next_ == (if i + 1 == |spine| then n else Next(spine, i)) && spine[i].Info() == contents[i]
  }

  lemma Appended(was: seq<Packet>, contents: seq<Pkt>, n: Packet)
    requires |was| == |contents| && n !in was && n.next_ == null
    requires forall i, j | 0 <= i < j < |was| :: Apart(was, i, j)
    requires forall i | 0 <= i < |was| :: TailLinkedAt(was, contents, n, i)
    ensures Listed(was + [n], contents + [n.Info()])
  {
    var spine, all := was + [n], contents + [n.Info()];
    forall i | 0 <= i < |spine|
      ensures NodeAt(spine, all, i)
    {
      assert i < |was| ==> TailLinkedAt(was, contents, n, i);
    }
    forall i, j | 0 <= i < j < |spine|
      ensures Apart(spine, i, j)
    {
      assert j < |was| ==> Apart(was, i, j);
    }
  }

  class SendBuffer {
    var head_: Packet?
    var tail_: Packet?
    var len_: int
    const limit_: int := LIMIT
    const timeout_: real := TIMEOUT
    ghost var spine: seq<Packet>
    ghost var contents: seq<Pkt>

    ghost predicate Valid()
      reads this, spine
    {
      && Listed(spine, contents) && len_ == |spine|
      && head_ == (if spine == [] then null else spine[0])
      && tail_ == (if spine == [] then null else spine[|spine| - 1])
    }

    ghost function Nodes(): set<Packet>
      reads this
    {
      set x | x in spine
    }

    constructor ()
      ensures Valid() && contents == []
    {
      head_, tail_, len_ := null, null, 0;
      spine, contents := [], [];
    }

    /** Counts the packets and finds the last; its two asserts always hold. */
    method VerifyQueue()
      requires Valid()
    {
      var p, prev, cnt := head_, null, 0;
      while p != null
        invariant 0 <= cnt <= |spine| && p == (if cnt < |spine| then spine[cnt] else null)
        invariant prev == (if cnt > 0 then spine[cnt - 1] else null)
        decreases |spine| - cnt
      {
        assert NodeAt(spine, contents, cnt);
        cnt := cnt + 1;
        prev := p;
        p := p.next_;
      }
      assert cnt == len_;
      assert prev == tail_;
    }

    method RemoveHead() returns (p: Packet?)
      requires Valid()
      modifies this
      ensures Valid() && Nodes() <= old(Nodes()) && p == old(head_) && (p != null ==> p !in Nodes())
      ensures if p == null then old(contents) == [] && contents == []
              else old(contents) == [p.Info()] + contents
    {
      if |spine| > 0 {
        assert NodeAt(spine, contents, 0);
        assert |spine| > 1 ==> Apart(spine, 0, |spine| - 1);
        forall i | 0 <= i < |spine| && i != 0
          ensures SkippedAt(spine, contents, 0, i)
        {
          assert NodeAt(spine, contents, i);
        }
        Skipped(spine, contents, 0);
      }
      p := head_;
      if head_ == tail_ {
        head_, tail_ := null, null;
      } else {
        head_ := head_.next_;
      }
      if p != null {
        len_ := len_ - 1;
        spine, contents := RemovedAt(spine, 0), RemovedAt(contents, 0);
      }
    }

    method FindPacketWithDst(dst: int) returns (p: Packet?, prev: Packet?, ghost k: nat)
      requires Valid()
      ensures k == FirstFor(contents, dst)
      ensures p == (if k < |spine| then spine[k] else null)
      ensures prev == (if k > 0 then spine[k - 1] else null)
    {
      p, prev, k := head_, null, 0;
      while p != null
        invariant k <= |spine| && p == (if k < |spine| then spine[k] else null)
        invariant prev == (if k > 0 then spine[k - 1] else null)
        invariant FirstFor(contents, dst) == k + FirstFor(contents[k..], dst)
        decreases |spine| - k
      {
        assert NodeAt(spine, contents, k);
        if p.daddr == dst {
          return;
        }
        prev := p;
        p := p.next_;
        k := k + 1;
      }
    }

    method Find(dst: int) returns (r: bool)
      requires Valid()
      ensures r <==> exists i :: 0 <= i < |contents| && contents[i].dst == dst
    {
      var p, prev;
      ghost var k;
      p, prev, k := FindPacketWithDst(dst);
      r := p != null;
    }

    method FindAgedPacket(now: real) returns (found: bool, p: Packet?, prev: Packet?, ghost k: nat)
      requires Valid()
      ensures !found ==> forall i | 0 <= i < |contents| :: contents[i].ts >= now
      ensures found ==> k < |spine| && p == spine[k] && contents[k].ts < now && prev == (if k > 0 then spine[k - 1] else null)
    {
      p, prev, k := head_, null, 0;
      while p != null
        invariant k <= |spine| && p == (if k < |spine| then spine[k] else null)
        invariant prev == (if k > 0 then spine[k - 1] else null)
        invariant forall i | 0 <= i < k :: contents[i].ts >= now
        decreases |spine| - k
      {
        assert NodeAt(spine, contents, k);
        if p.ts_ < now {
          return true, p, prev, k;
        }
        prev := p;
        p := p.next_;
        k := k + 1;
      }
      found := false;
    }

    /** The unlinking code shared by purge and deque(dst). */
    method Unlink(p: Packet, prev: Packet?, ghost k: nat)
      requires Valid() && k < |spine| && p == spine[k] && prev == (if k > 0 then spine[k - 1] else null)
      modifies this, Nodes()
      ensures Valid() && Nodes() <= old(Nodes()) && contents == RemovedAt(old(contents), k)
      ensures p.Info() == old(p.Info())
    {
      assert k > 0 ==> NodeAt(spine, contents, k - 1) && Apart(spine, 0, k) && Apart(spine, k - 1, k);
      assert NodeAt(spine, contents, k);
      assert k + 1 < |spine| ==> Apart(spine, k, |spine| - 1);
      assert (p == head_ && prev == null) || (prev != null && prev.next_ == p);
      if p == head_ {
        var first := RemoveHead();
      } else {
        PassOver(p, prev, k);
        len_ := len_ - 1;
        spine, contents := RemovedAt(spine, k), RemovedAt(contents, k);
      }
    }

    /** Links around packet k, which is not the head. */
    method PassOver(p: Packet, prev: Packet, ghost k: nat)
      requires Valid() && 0 < k < |spine| && p == spine[k] && prev == spine[k - 1]
      modifies this`tail_, prev`next_
      ensures Listed(RemovedAt(spine, k), RemovedAt(contents, k))
      ensures tail_ == (if k + 1 == |spine| then prev else old(tail_))
    {
      assert NodeAt(spine, contents, k);
      assert k + 1 < |spine| ==> Apart(spine, k, |spine| - 1);
      if p == tail_ {
        prev.next_ := null;
        tail_ := prev;
      } else {
        prev.next_ := p.next_;
      }
      forall i | 0 <= i < |spine| && i != k
        ensures SkippedAt(spine, contents, k, i)
      {
        assert old(NodeAt(spine, contents, i));
        assert i < k - 1 ==> Apart(spine, i, k - 1);
        assert i > k - 1 ==> Apart(spine, k - 1, i);
      }
      Skipped(spine, contents, k);
    }

    /** Takes out every packet whose time has passed, wherever it stands. */
    method Purge(now: real)
      requires Valid()
      modifies this, Nodes()
      ensures Valid() && Nodes() <= old(Nodes()) && contents == Purged(old(contents), now)
    {
      var found, p, prev;
      ghost var k;
      found, p, prev, k := FindAgedPacket(now);
      while found
        invariant Valid() && Nodes() <= old(Nodes())
        invariant Purged(contents, now) == Purged(old(contents), now)
        invariant !found ==> forall i | 0 <= i < |contents| :: contents[i].ts >= now
        invariant found ==> 0 <= k < |spine| && p == spine[k] && contents[k].ts < now && prev == (if k > 0 then spine[k - 1] else null)
        decreases |contents|
      {
        PurgedRemoved(contents, k, now);
        Unlink(p, prev, k);
        VerifyQueue();
        found, p, prev, k := FindAgedPacket(now);
      }
      PurgedAll(contents, now);
    }

    /** Buffers a packet. A full queue loses its oldest packet, which by then is not overdue. */
    method Enque(p: Packet, now: real) returns (p0: Packet?, reason: DropReason)
      requires Valid() && p !in Nodes() && |contents| <= LIMIT
      modifies this, Nodes(), p
      ensures Valid() && Nodes() <= old(Nodes()) + {p} && |contents| <= LIMIT
      ensures contents == RqueueModel.Enque(old(contents), p.id, p.daddr, now)
      ensures p0 == null <==> |Purged(old(contents), now)| < LIMIT
      ensures p0 != null ==> p0.Info() == Purged(old(contents), now)[0] && (reason == QueueTimeout <==> p0.ts_ == now)
    {
      Purge(now);
      PurgedMembers(old(contents), now);
      p.next_ := null;
      p.ts_ := now + timeout_;
      p0, reason := null, NotDropped;
      if len_ == limit_ {
        assert contents[0] in contents;
        p0 := RemoveHead();
        assert p0 != null;
        reason := if p0.ts_ > now then QueueFull else QueueTimeout;
      }
      Append(p);
      VerifyQueue();
    }

    method Append(p: Packet)
      requires Valid() && p !in spine && p.next_ == null
      modifies this, Nodes()
      ensures Valid() && spine == old(spine) + [p] && contents == old(contents) + [old(p.Info())]
    {
      if head_ == null {
        head_, tail_ := p, p;
      } else {
        tail_.next_ := p;
        tail_ := p;
      }
      forall i | 0 <= i < |spine|
        ensures TailLinkedAt(spine, contents, p, i)
      {
        assert old(NodeAt(spine, contents, i));
        assert i + 1 < |spine| ==> Apart(spine, i, |spine| - 1);
      }
      Appended(spine, contents, p);
      len_ := len_ + 1;
      spine, contents := spine + [p], contents + [p.Info()];
    }

    method Deque(now: real) returns (p: Packet?)
      requires Valid()
      modifies this, Nodes()
      ensures Valid() && Nodes() <= old(Nodes())
      ensures (contents, if p == null then None else Some(p.Info())) == RqueueModel.Deque(old(contents), now)
    {
      Purge(now);
      p := RemoveHead();
      VerifyQueue();
    }

    /** Hands out the oldest packet for `dst` that has not expired. */
    method DequeFor(dst: int, now: real) returns (p: Packet?)
      requires Valid()
      modifies this, Nodes()
      ensures Valid() && Nodes() <= old(Nodes())
      ensures (contents, if p == null then None else Some(p.Info())) == RqueueModel.DequeFor(old(contents), dst, now)
    {
      Purge(now);
      var prev;
      ghost var k;
      p, prev, k := FindPacketWithDst(dst);
      if p == null {
        return;
      }
      assert NodeAt(spine, contents, k);
      Unlink(p, prev, k);
      VerifyQueue();
    }
  }
}
