/**
 * The multicast classifier's hash tables: bucket chains pushed at the front, changed and cleared
 * in place. Each table is proved to be searched as if it were the one flat list of McastModel.
 */
module Mcast {
  import opened Options
  import opened McastModel

  class HashNode {
    const slot: int
    const src: Addr
    const dst: Addr
    var next: HashNode?
    var iif: int

    constructor (e: Entry, n: HashNode?)
      ensures slot == e.slot && src == e.src && dst == e.dst && iif == e.iif && next == n
    {
      slot, src, dst, iif, next := e.slot, e.src, e.dst, e.iif, n;
    }

    function Info(): Entry
      reads this
    {
      Entry(src, dst, slot, iif)
    }
  }

  /** The first place from `i` on that belongs to bucket `h`, given the bucket of every entry. */
  function Chain(keys: seq<nat>, i: nat, h: nat): (k: nat)
    requires i <= |keys|
    ensures i <= k <= |keys| && (k < |keys| ==> keys[k] == h)
    ensures forall j | i <= j < k :: keys[j] != h
    decreases |keys| - i
  {
    if i == |keys| || keys[i] == h then i else Chain(keys, i + 1, h)
  }

  function NodeOrNull(all: seq<HashNode>, k: nat): HashNode? {
    if k < |all| then all[k] else null
  }

  /** Node i's link leads to the next older node of its bucket. */
  ghost predicate LinkAt(all: seq<HashNode>, keys: seq<nat>, i: nat)
    requires i < |all| == |keys|
    reads all
  {
    all[i].next == NodeOrNull(all, Chain(keys, i + 1, keys[i]))
  }

  ghost predicate InfoAt(all: seq<HashNode>, c: seq<Entry>, i: nat)
    requires i < |all| == |c|
    reads all
  {
    all[i].Info() == c[i]
  }

  ghost predicate Apart(all: seq<HashNode>, i: nat, j: nat)
    requires i < |all| && j < |all|
  {
    all[i] != all[j]
  }

  /** The nodes, newest first, form the bucket chains of a table that holds the entries `c`. */
  ghost predicate Chained(all: seq<HashNode>, c: seq<Entry>, keys: seq<nat>)
    reads all
  {
    && |all| == |c| == |keys|
    && (forall i | 0 <= i < |c| :: keys[i] == Hash(c[i].src, c[i].dst))
    && (forall i, j | 0 <= i < j < |all| :: Apart(all, i, j))
    && (forall i | 0 <= i < |all| :: InfoAt(all, c, i))
    && (forall i | 0 <= i < |all| :: LinkAt(all, keys, i))
  }

  /** A newer entry in front moves every place in the chains by one. */
  lemma {:induction false} ChainCons(key: nat, keys: seq<nat>, i: nat, h: nat)
    requires i <= |keys|
    ensures Chain([key] + keys, i + 1, h) == Chain(keys, i, h) + 1
    decreases |keys| - i
  {
    if i < |keys| && keys[i] != h {
      ChainCons(key, keys, i + 1, h);
    }
  }

  lemma OlderLink(all: seq<HashNode>, keys: seq<nat>, p: HashNode, key: nat, i: nat)
    requires i < |all| == |keys| && LinkAt(all, keys, i)
    ensures LinkAt([p] + all, [key] + keys, i + 1)
  {
    ChainCons(key, keys, i + 1, keys[i]);
  }

  /** A new node in front whose link is the old head of its bucket. */
  lemma Pushed(all: seq<HashNode>, c: seq<Entry>, keys: seq<nat>, p: HashNode)
    requires Chained(all, c, keys) && p !in all
    requires p.next == NodeOrNull(all, Chain(keys, 0, Hash(p.src, p.dst)))
    ensures Chained([p] + all, [p.Info()] + c, [Hash(p.src, p.dst)] + keys)
  {
    var key := Hash(p.src, p.dst);
    var all', c', keys' := [p] + all, [p.Info()] + c, [key] + keys;
    ChainCons(key, keys, 0, key);
    forall i | 0 <= i < |all'|
      ensures LinkAt(all', keys', i) && InfoAt(all', c', i)
    {
      if i > 0 {
        OlderLink(all, keys, p, key, i - 1);
        assert InfoAt(all, c, i - 1);
      }
    }
    forall i, j | 0 <= i < j < |all'|
      ensures Apart(all', i, j)
    {
      assert i > 0 ==> Apart(all, i - 1, j - 1);
    }
  }

  /** Where the head of bucket `b` leads after a new node has been put in front. */
  lemma PushedHead(all: seq<HashNode>, keys: seq<nat>, p: HashNode, key: nat, b: nat)
    requires |all| == |keys|
    ensures NodeOrNull([p] + all, Chain([key] + keys, 0, b)) ==
            if key == b then p else NodeOrNull(all, Chain(keys, 0, b))
  {
    ChainCons(key, keys, 0, b);
  }

  lemma FirstIs(c: seq<Entry>, q: Query, k: nat)
    requires k <= |c| && (k < |c| ==> Matches(c[k], q)) && forall i | 0 <= i < k :: !Matches(c[i], q)
    ensures First(c, q) == k
  {
  }

  class HashTable {
    const ht: array<HashNode?>
    ghost var all: seq<HashNode>
    ghost var entries: seq<Entry>
    ghost var keys: seq<nat>

    ghost predicate HeadAt(h: nat)
      requires h < ht.Length
      reads this, ht
    {
      ht[h] == NodeOrNull(all, Chain(keys, 0, h))
    }

    ghost predicate Valid()
      reads this, ht, all
    {
      && ht.Length == HASHSIZE && Chained(all, entries, keys)
      && (forall h | 0 <= h < HASHSIZE :: HeadAt(h))
    }

    ghost function Nodes(): set<HashNode>
      reads this
    {
      set x | x in all
    }

    constructor ()
      ensures Valid() && entries == [] && fresh(ht) && Nodes() == {}
    {
      ht := new HashNode?[HASHSIZE](i => null);
      all, entries, keys := [], [], [];
    }

    /** set_hash: a new entry becomes the head of its bucket. */
    method SetHash(e: Entry)
      requires Valid()
      modifies this, ht
      ensures Valid() && entries == [e] + old(entries)
      ensures fresh(Nodes() - old(Nodes()))
    {
      var h := Hash(e.src, e.dst);
      assert HeadAt(h);
      var p := new HashNode(e, ht[h]);
      Pushed(all, entries, keys, p);
      ghost var was, before := all, keys;
      all, entries, keys := [p] + all, [e] + entries, [h] + keys;
      ht[h] := p;
      forall b | 0 <= b < HASHSIZE
        ensures HeadAt(b)
      {
        assert old(HeadAt(b));
        PushedHead(was, before, p, h, b);
      }
    }

    /** The search loop: along one bucket, yet it finds what a scan of the whole list finds. */
    method Lookup(q: Query) returns (p: HashNode?)
      requires Valid()
      requires q.Star? ==> forall e | e in entries :: e.src == 0
      ensures p == NodeOrNull(all, First(entries, q))
      ensures McastModel.Lookup(entries, q) == if p == null then None else Some(p.Info())
    {
      var h := Bucket(q);
      assert HeadAt(h);
      p := ht[h];
      ghost var k := Chain(keys, 0, h);
      OtherBuckets(q, h, 0, k);
      while p != null && !(p.dst == q.dst && (q.Exact? ==> p.src == q.src) && (q.iface == ANY_IFACE || p.iif == q.iface))
        invariant k == |all| || (k < |all| && keys[k] == h)
        invariant p == NodeOrNull(all, k)
        invariant forall i | 0 <= i < k :: !Matches(entries[i], q)
        decreases |all| - k
      {
        assert LinkAt(all, keys, k) && InfoAt(all, entries, k);
        ghost var k' := Chain(keys, k + 1, h);
        OtherBuckets(q, h, k + 1, k');
        p := p.next;
        k := k';
      }
      assert k < |all| ==> InfoAt(all, entries, k);
      FirstIs(entries, q, k);
    }

    /** Entries of other buckets do not match. */
    lemma OtherBuckets(q: Query, h: nat, i: nat, k: nat)
      requires Valid() && h == Bucket(q) && i <= k <= |entries| && forall j | i <= j < k :: keys[j] != h
      requires q.Star? ==> forall e | e in entries :: e.src == 0
      ensures forall j | i <= j < k :: !Matches(entries[j], q)
    {
    }

    method ChangeIface(q: Query, iif: int)
      requires Valid()
      requires q.Star? ==> forall e | e in entries :: e.src == 0
      modifies this`entries, Nodes()
      ensures Valid() && entries == McastModel.ChangeIface(old(entries), q, iif)
    {
      var p := Lookup(q);
      if p != null {
        Relabel(p, First(entries, q), iif);
      }
    }

    /** Gives node k another interface; chains and buckets stay as they are. */
    method Relabel(p: HashNode, ghost k: nat, iif: int)
      requires Valid() && k < |all| && p == all[k]
      modifies this`entries, p`iif
      ensures Valid() && entries == old(entries)[k := old(entries)[k].(iif := iif)]
    {
      ghost var changed := entries[k := entries[k].(iif := iif)];
      assert InfoAt(all, entries, k);
      entries := changed;
      p.iif := iif;
      forall i | 0 <= i < |all|
        ensures LinkAt(all, keys, i)
      {
        assert old(LinkAt(all, keys, i));
      }
      forall i | 0 <= i < |all|
        ensures InfoAt(all, changed, i)
      {
        assert old(InfoAt(all, entries, i));
        assert i < k ==> Apart(all, i, k);
        assert i > k ==> Apart(all, k, i);
      }
      forall h | 0 <= h < HASHSIZE
        ensures HeadAt(h)
      {
        assert old(HeadAt(h));
      }
    }

    method Clear()
      requires Valid()
      modifies this, ht
      ensures Valid() && entries == [] && Nodes() == {}
    {
      for i := 0 to HASHSIZE
        invariant forall h | 0 <= h < i :: ht[h] == null
      {
        ht[i] := null;
      }
      all, entries, keys := [], [], [];
    }
  }

  /** The classifier: one table searched by source and group, one by group only. */
  class MCastClassifier {
    const ht_: HashTable
    const ht_star_: HashTable

    ghost predicate Valid()
      reads this, ht_, ht_star_, ht_.ht, ht_star_.ht, ht_.all, ht_star_.all
    {
      && ht_ != ht_star_ && ht_.ht != ht_star_.ht && ht_.Nodes() !! ht_star_.Nodes()
      && ht_.Valid() && ht_star_.Valid()
      && forall e | e in ht_star_.entries :: e.src == 0
    }

    constructor ()
      ensures Valid() && ht_.entries == [] && ht_star_.entries == []
    {
      ht_ := new HashTable();
      ht_star_ := new HashTable();
    }

    /** The set-hash command; no source stands for a shared tree. */
    method SetHash(src: Option<Addr>, dst: Addr, slot: int, iface: int)
      requires Valid()
      modifies ht_, ht_star_, ht_.ht, ht_star_.ht
      ensures Valid()
      ensures ht_.entries == (if src.Some? then [Entry(src.value, dst, slot, iface)] else []) + old(ht_.entries)
      ensures ht_star_.entries == (if src.None? then [Entry(0, dst, slot, iface)] else []) + old(ht_star_.entries)
    {
      if src.None? {
        ht_star_.SetHash(Entry(0, dst, slot, iface));
      } else {
        ht_.SetHash(Entry(src.value, dst, slot, iface));
      }
    }

    /** The change-iface command. */
    method ChangeIface(src: Option<Addr>, dst: Addr, oldiface: int, newiface: int)
      requires Valid()
      modifies ht_, ht_star_, ht_.Nodes(), ht_star_.Nodes()
      ensures Valid()
      ensures ht_.entries == if src.None? then old(ht_.entries)
                             else McastModel.ChangeIface(old(ht_.entries), Exact(src.value, dst, oldiface), newiface)
      ensures ht_star_.entries == if src.Some? then old(ht_star_.entries)
                                  else McastModel.ChangeIface(old(ht_star_.entries), Star(dst, oldiface), newiface)
    {
      if src.None? {
        ht_star_.ChangeIface(Star(dst, oldiface), newiface);
      } else {
        ht_.ChangeIface(Exact(src.value, dst, oldiface), newiface);
      }
    }

    method ClearAll()
      requires Valid()
      modifies ht_, ht_star_, ht_.ht, ht_star_.ht
      ensures Valid() && ht_.entries == [] && ht_star_.entries == []
    {
      ht_.Clear();
      ht_star_.Clear();
    }

    /** What classify makes of a packet, up to the upcalls on a miss. */
    method Classify(src: Addr, dst: Addr, iface: int) returns (r: Outcome)
      requires Valid()
      ensures r == McastModel.Classify(ht_.entries, ht_star_.entries, src, dst, iface)
    {
      var p := ht_.Lookup(Exact(src, dst, iface));
      if p == null {
        p := ht_star_.Lookup(Star(dst, iface));
      }
      if p == null {
        p := ht_.Lookup(Exact(src, dst, ANY_IFACE));
        if p == null {
          p := ht_star_.Lookup(Star(dst, ANY_IFACE));
        }
        if p == null {
          return CacheMiss;
        }
        if p.iif == ANY_IFACE {
          return Slot(p.slot);
        }
        return WrongIif;
      }
      r := Slot(p.slot);
    }
  }
}
