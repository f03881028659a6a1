/**
 * The multicast forwarding table on values: two flat lists, newest entry first, searched from
 * the front. Also what classification makes of them.
 */
module McastModel {
  import opened Options

  type Addr = bv32

  datatype Entry = Entry(src: Addr, dst: Addr, slot: int, iif: int)

  /** A look-up for one source and group, or for a group whatever its source. */
  datatype Query = Exact(src: Addr, dst: Addr, iface: int) | Star(dst: Addr, iface: int)

  const ANY_IFACE := -2
  const HASHSIZE := 256

  function Hash(src: Addr, dst: Addr): (h: nat)
    ensures h < HASHSIZE
  {
    var s := src ^ dst;
    var t := s ^ (s >> 16);
    var u := t ^ (t >> 8);
    (u & 0xff) as nat
  }

  /** The bucket a query looks in; shared-tree entries are stored under source 0. */
  function Bucket(q: Query): (h: nat)
    ensures h < HASHSIZE
  {
    match q
    case Exact(src, dst, _) => Hash(src, dst)
    case Star(dst, _) => Hash(0, dst)
  }

  predicate Matches(e: Entry, q: Query) {
    && e.dst == q.dst && (q.iface == ANY_IFACE || e.iif == q.iface)
    && (q.Exact? ==> e.src == q.src)
  }

  /** The newest matching entry, |c| if there is none. */
  function First(c: seq<Entry>, q: Query): (k: nat)
    ensures k <= |c| && (k < |c| ==> Matches(c[k], q))
    ensures forall i | 0 <= i < k :: !Matches(c[i], q)
  {
    if c == [] || Matches(c[0], q) then 0 else 1 + First(c[1..], q)
  }

  function Lookup(c: seq<Entry>, q: Query): Option<Entry> {
    var k := First(c, q);
    if k < |c| then Some(c[k]) else None
  }

  /** change_iface: the newest matching entry gets another interface. */
  function ChangeIface(c: seq<Entry>, q: Query, iif: int): (r: seq<Entry>)
    ensures |r| == |c|
  {
    var k := First(c, q);
    if k < |c| then c[k := c[k].(iif := iif)] else c
  }

  /** Changing an interface and back restores the list exactly when there was nothing to change,
      or no newer entry of the pair already had the second interface. */
  lemma ChangeBack(c: seq<Entry>, src: Addr, dst: Addr, a: int, b: int)
    requires a != ANY_IFACE && b != ANY_IFACE && a != b
    ensures var k := First(c, Exact(src, dst, a));
            ChangeIface(ChangeIface(c, Exact(src, dst, a), b), Exact(src, dst, b), a) == c <==>
            (if k < |c| then First(c, Exact(src, dst, b)) >= k else First(c, Exact(src, dst, b)) == |c|)
  {
    var qa, qb := Exact(src, dst, a), Exact(src, dst, b);
    var k, j := First(c, qa), First(c, qb);
    var d := ChangeIface(c, qa, b);
    if k < |c| {
      assert Matches(d[k], qb);
      var j' := First(d, qb);
      assert forall i | 0 <= i < k :: d[i] == c[i];
      if j < k {
        assert j' == j;
        assert ChangeIface(d, qb, a)[j].iif == a && c[j].iif == b;
      } else {
        assert j' == k;
        assert ChangeIface(d, qb, a)[k] == c[k];
      }
    } else if j < |c| {
      assert ChangeIface(d, qb, a)[j].iif == a && c[j].iif == b;
    }
  }

  // ---------------------------------------------------------------- classification

  datatype Outcome = Slot(slot: int) | CacheMiss | WrongIif

  /** classify: an entry for the packet's interface; failing that the newest entry of the pair, or
      of the group, which must accept any interface. */
  function Classify(exact: seq<Entry>, star: seq<Entry>, src: Addr, dst: Addr, iface: int): Outcome {
    var first := Lookup(exact, Exact(src, dst, iface));
    var p := if first.Some? then first else Lookup(star, Star(dst, iface));
    if p.Some? then Slot(p.value.slot)
    else
      var any := Lookup(exact, Exact(src, dst, ANY_IFACE));
      var r := if any.Some? then any else Lookup(star, Star(dst, ANY_IFACE));
      if r.None? then CacheMiss
      else if r.value.iif == ANY_IFACE then Slot(r.value.slot)
      else WrongIif
  }

  predicate Has(c: seq<Entry>, q: Query) {
    exists i :: 0 <= i < |c| && Matches(c[i], q)
  }

  /** A cache miss is reported exactly when neither list has any entry for the packet. */
  lemma MissIff(exact: seq<Entry>, star: seq<Entry>, src: Addr, dst: Addr, iface: int)
    ensures Classify(exact, star, src, dst, iface) == CacheMiss <==>
            !Has(exact, Exact(src, dst, ANY_IFACE)) && !Has(star, Star(dst, ANY_IFACE))
  {
  }

  predicate OfPair(e: Entry, src: Addr, dst: Addr) {
    e.src == src && e.dst == dst
  }

  /** The pair has an entry for any interface, and no newer entry of the pair is in front of it. */
  predicate PairAcceptsAny(c: seq<Entry>, src: Addr, dst: Addr) {
    exists i :: 0 <= i < |c| && OfPair(c[i], src, dst) && c[i].iif == ANY_IFACE
                && forall j | 0 <= j < i :: !OfPair(c[j], src, dst)
  }

  /** The same for a group, whatever the source. */
  predicate GroupAcceptsAny(c: seq<Entry>, dst: Addr) {
    exists i :: 0 <= i < |c| && c[i].dst == dst && c[i].iif == ANY_IFACE
                && forall j | 0 <= j < i :: c[j].dst != dst
  }

  lemma PairNewest(c: seq<Entry>, src: Addr, dst: Addr)
    ensures var k := First(c, Exact(src, dst, ANY_IFACE));
            && (k < |c| <==> exists i :: 0 <= i < |c| && OfPair(c[i], src, dst))
            && (PairAcceptsAny(c, src, dst) <==> k < |c| && c[k].iif == ANY_IFACE)
  {
    var k := First(c, Exact(src, dst, ANY_IFACE));
    assert forall i | 0 <= i < |c| :: Matches(c[i], Exact(src, dst, ANY_IFACE)) == OfPair(c[i], src, dst);
    if PairAcceptsAny(c, src, dst) {
      var i :| 0 <= i < |c| && OfPair(c[i], src, dst) && c[i].iif == ANY_IFACE
               && forall j | 0 <= j < i :: !OfPair(c[j], src, dst);
      assert i == k;
    }
  }

  lemma GroupNewest(c: seq<Entry>, dst: Addr)
    ensures var k := First(c, Star(dst, ANY_IFACE));
            GroupAcceptsAny(c, dst) <==> k < |c| && c[k].iif == ANY_IFACE
  {
    var k := First(c, Star(dst, ANY_IFACE));
    assert forall i | 0 <= i < |c| :: Matches(c[i], Star(dst, ANY_IFACE)) == (c[i].dst == dst);
    if GroupAcceptsAny(c, dst) {
      var i :| 0 <= i < |c| && c[i].dst == dst && c[i].iif == ANY_IFACE && forall j | 0 <= j < i :: c[j].dst != dst;
      assert i == k;
    }
  }

  /** An entry that accepts any interface does not always accept the packet.  It passes exactly
      when some entry names its own interface, or the pair (the group, if the pair has no entry at
      all) has an entry for any interface with no newer one of that pair (group) in front of it. */
  lemma WildcardIff(exact: seq<Entry>, star: seq<Entry>, src: Addr, dst: Addr, iface: int)
    ensures Classify(exact, star, src, dst, iface).Slot? <==>
            || Has(exact, Exact(src, dst, iface)) || Has(star, Star(dst, iface))
            || (if exists i :: 0 <= i < |exact| && OfPair(exact[i], src, dst) then PairAcceptsAny(exact, src, dst)
                else GroupAcceptsAny(star, dst))
  {
    PairNewest(exact, src, dst);
    GroupNewest(star, dst);
  }

  // ---------------------------------------------------------------- which slot

  /** The entry takes packets of the interface, or the interface does not matter. */
  predicate OnIface(e: Entry, iface: int) {
    iface == ANY_IFACE || e.iif == iface
  }

  /** Place i holds the newest entry of the pair on the interface. */
  predicate NewestOfPair(c: seq<Entry>, i: nat, src: Addr, dst: Addr, iface: int)
    requires i < |c|
  {
    && OfPair(c[i], src, dst) && OnIface(c[i], iface)
    && forall j | 0 <= j < i :: !(OfPair(c[j], src, dst) && OnIface(c[j], iface))
  }

  /** The same for the group, whatever the source. */
  predicate NewestOfGroup(c: seq<Entry>, i: nat, dst: Addr, iface: int)
    requires i < |c|
  {
    && c[i].dst == dst && OnIface(c[i], iface)
    && forall j | 0 <= j < i :: !(c[j].dst == dst && OnIface(c[j], iface))
  }

  predicate NoPair(c: seq<Entry>, src: Addr, dst: Addr, iface: int) {
    forall j | 0 <= j < |c| :: !(OfPair(c[j], src, dst) && OnIface(c[j], iface))
  }

  predicate NoGroup(c: seq<Entry>, dst: Addr, iface: int) {
    forall j | 0 <= j < |c| :: !(c[j].dst == dst && OnIface(c[j], iface))
  }

  /** What an entry found without regard to the interface makes of the packet. */
  function Unasked(e: Entry): Outcome {
    if e.iif == ANY_IFACE then Slot(e.slot) else WrongIif
  }

  lemma PairFirst(c: seq<Entry>, src: Addr, dst: Addr, iface: int)
    ensures NoPair(c, src, dst, iface) <==> First(c, Exact(src, dst, iface)) == |c|
    ensures forall i | 0 <= i < |c| && NewestOfPair(c, i, src, dst, iface) :: First(c, Exact(src, dst, iface)) == i
  {
    assert forall e: Entry :: Matches(e, Exact(src, dst, iface)) == (OfPair(e, src, dst) && OnIface(e, iface));
  }

  lemma GroupFirst(c: seq<Entry>, dst: Addr, iface: int)
    ensures NoGroup(c, dst, iface) <==> First(c, Star(dst, iface)) == |c|
    ensures forall i | 0 <= i < |c| && NewestOfGroup(c, i, dst, iface) :: First(c, Star(dst, iface)) == i
  {
    assert forall e: Entry :: Matches(e, Star(dst, iface)) == (e.dst == dst && OnIface(e, iface));
  }

  /** Changing an interface touches the newest entry of the pair (of the group) on it, and nothing
      else. */
  lemma ChangesNewest(c: seq<Entry>, src: Addr, dst: Addr, a: int, b: int)
    ensures forall i | 0 <= i < |c| && NewestOfPair(c, i, src, dst, a) ::
              ChangeIface(c, Exact(src, dst, a), b) == c[i := c[i].(iif := b)]
    ensures forall i | 0 <= i < |c| && NewestOfGroup(c, i, dst, a) ::
              ChangeIface(c, Star(dst, a), b) == c[i := c[i].(iif := b)]
    ensures NoPair(c, src, dst, a) ==> ChangeIface(c, Exact(src, dst, a), b) == c
    ensures NoGroup(c, dst, a) ==> ChangeIface(c, Star(dst, a), b) == c
  {
    PairFirst(c, src, dst, a);
    GroupFirst(c, dst, a);
  }

  /** The newest entry of the pair on the packet's interface decides, whatever the shared tree
      holds; failing that the newest of the group on that interface; failing that the newest of the
      pair, and then of the group, must accept any interface. */
  lemma WhichSlot(exact: seq<Entry>, star: seq<Entry>, src: Addr, dst: Addr, iface: int)
    ensures forall i | 0 <= i < |exact| && NewestOfPair(exact, i, src, dst, iface) ::
              Classify(exact, star, src, dst, iface) == Slot(exact[i].slot)
    ensures NoPair(exact, src, dst, iface) ==>
              forall i | 0 <= i < |star| && NewestOfGroup(star, i, dst, iface) ::
                Classify(exact, star, src, dst, iface) == Slot(star[i].slot)
    ensures NoPair(exact, src, dst, iface) && NoGroup(star, dst, iface) ==>
              forall i | 0 <= i < |exact| && NewestOfPair(exact, i, src, dst, ANY_IFACE) ::
                Classify(exact, star, src, dst, iface) == Unasked(exact[i])
    ensures NoPair(exact, src, dst, ANY_IFACE) && NoGroup(star, dst, iface) ==>
              forall i | 0 <= i < |star| && NewestOfGroup(star, i, dst, ANY_IFACE) ::
                Classify(exact, star, src, dst, iface) == Unasked(star[i])
  {
    PairFirst(exact, src, dst, iface);
    PairFirst(exact, src, dst, ANY_IFACE);
    GroupFirst(star, dst, iface);
    GroupFirst(star, dst, ANY_IFACE);
  }

  /** So a newer entry for another interface hides an entry that accepts any. */
  lemma Shadowed(src: Addr, dst: Addr, iface: int, other: int, slot: int)
    requires iface != other && iface != ANY_IFACE && other != ANY_IFACE
    ensures Classify([Entry(src, dst, slot, other), Entry(src, dst, slot, ANY_IFACE)], [], src, dst, iface) == WrongIif
    ensures Classify([Entry(src, dst, slot, ANY_IFACE), Entry(src, dst, slot, other)], [], src, dst, iface) == Slot(slot)
  {
  }
}
