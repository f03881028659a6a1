/**
 * The slot table of a classifier and the round robin of the multipath classifier over it, on
 * values: a table is a sequence of slots, null where nothing is installed.
 */
module SlotTable {
  class NsObject {
  }

  type Slots = seq<NsObject?>

  // ---------------------------------------------------------------- the highest occupied slot

  /** The highest occupied slot, -1 if there is none. */
  function Top(s: Slots): (r: int)
    ensures -1 <= r < |s| && (r >= 0 ==> s[r] != null)
    ensures forall i | r < i < |s| :: s[i] == null
  {
    if s == [] then -1
    else if s[|s| - 1] != null then |s| - 1
    else Top(s[..|s| - 1])
  }

  /** The size `alloc` ends with: doubled until `slot` fits. */
  function GrownSize(n: nat, slot: nat): (m: nat)
    requires n > 0
    ensures m > slot && m >= n
    decreases slot - n
  {
    if n <= slot then GrownSize(2 * n, slot) else n
  }

  /** `s` with room for at least `m` slots, the new ones empty. */
  function Padded(s: Slots, m: nat): (r: Slots)
    requires |s| <= m
    ensures |r| == m && s <= r
  {
    s + seq(m - |s|, i => null)
  }

  lemma TopIs(s: Slots, t: int)
    requires -1 <= t < |s| && (t >= 0 ==> s[t] != null) && forall i | t < i < |s| :: s[i] == null
    ensures Top(s) == t
  {
  }

  lemma PaddedTop(s: Slots, m: nat)
    requires |s| <= m
    ensures Top(Padded(s, m)) == Top(s)
  {
    TopIs(Padded(s, m), Top(s));
  }

  /** How `install` moves maxslot_. */
  function MaxAfterInstall(maxslot: int, slot: nat): int {
    if slot >= maxslot then slot else maxslot
  }

  /** `install` keeps maxslot_ at the highest occupied slot exactly when it installs an object, or
      empties a slot below it. */
  lemma InstallTop(s: Slots, slot: nat, p: NsObject?)
    requires slot < |s|
    ensures MaxAfterInstall(Top(s), slot) == Top(s[slot := p]) <==> p != null || slot < Top(s)
  {
    var s', m := s[slot := p], MaxAfterInstall(Top(s), slot);
    if p != null || slot < Top(s) {
      assert s'[m] != null;
    }
  }

  /** Emptying a slot that is not the highest leaves the highest; otherwise it moves down. */
  lemma ClearTop(s: Slots, slot: nat)
    requires slot < |s|
    ensures slot != Top(s) ==> Top(s[slot := null]) == Top(s)
    ensures slot == Top(s) ==> Top(s[slot := null]) == Top(s[..slot])
  {
    var s' := s[slot := null];
    if slot == Top(s) {
      var t := Top(s[..slot]);
      assert t >= 0 ==> s'[t] == s[..slot][t];
      assert forall i | t < i < slot :: s'[i] == s[..slot][i];
    } else if Top(s) >= 0 {
      assert s'[Top(s)] != null;
    }
  }

  /** The highest occupied slot of `s` is n - 1. */
  predicate Highest(s: Slots, n: nat) {
    0 < n <= |s| && s[n - 1] != null && forall i | n <= i < |s| :: s[i] == null
  }

  lemma TopIsHighest(s: Slots, n: nat)
    requires n > 0
    ensures Top(s) == n - 1 <==> Highest(s, n)
  {
  }

  /** The number of slots the multipath choice divides by, maxslot_ + 1, is zero exactly when no
      slot is occupied, as long as maxslot_ is right; a clear brings that about exactly when it
      empties the only occupied slot. */
  lemma NoneToChoose(s: Slots, maxslot: int, slot: nat)
    requires slot < |s| && maxslot == Top(s)
    ensures maxslot + 1 == 0 <==> forall i | 0 <= i < |s| :: s[i] == null
    ensures Top(s[slot := null]) + 1 == 0 <==> forall i | 0 <= i < |s| :: i == slot || s[i] == null
  {
    var s' := s[slot := null];
    assert forall i | 0 <= i < |s| :: s'[i] == if i == slot then null else s[i];
    assert Top(s) >= 0 ==> s[Top(s)] != null;
    assert Top(s') >= 0 ==> s'[Top(s')] != null;
  }

  /** Installing a null object at or above maxslot_ leaves it at a slot that is not occupied: no
      choice divides by zero afterwards, even if there is nothing to choose. */
  lemma NullInstalled(s: Slots, slot: nat)
    requires Top(s) <= slot < |s|
    ensures MaxAfterInstall(Top(s), slot) == slot && Top(s[slot := null]) < slot && MaxAfterInstall(Top(s), slot) + 1 > 0
  {
    InstallTop(s, slot, null);
  }

  // ---------------------------------------------------------------- the multipath choice

  /** The first occupied slot from `i` on, below `n`; `n` if there is none. */
  function NextFrom(s: Slots, i: nat, n: nat): (k: nat)
    requires i <= n <= |s|
    ensures i <= k <= n && (k < n ==> s[k] != null)
    ensures forall j | i <= j < k :: s[j] == null
    decreases n - i
  {
    if i == n || s[i] != null then i else NextFrom(s, i + 1, n)
  }

  /** The first occupied slot from `ns` on; there is one, since the last slot is occupied. */
  function Pick(s: Slots, n: nat, ns: nat): (k: nat)
    requires Highest(s, n) && ns < n
    ensures ns <= k < n && s[k] != null
  {
    NextFrom(s, ns, n)
  }

  /** Where the counter stands after slot `cl` has been tried. */
  function After(n: nat, cl: nat): (ns: nat)
    requires n > 0
    ensures ns < n && (cl < n ==> ns == if cl + 1 == n then 0 else cl + 1)
  {
    ModSmall(cl + 1, n);
    (cl + 1) % n
  }

  lemma ModSmall(x: nat, n: nat)
    requires n > 0
    ensures 0 <= x % n < n && (x < n ==> x % n == x) && (x == n ==> x % n == 0)
  {
  }

  /** The counter from which the next packet in fact chooses: one that a `clear` has left beyond
      the table first comes back into it. */
  function Start(n: nat, ns: nat): (r: nat)
    requires n > 0
    ensures r < n
  {
    if ns < n then ns else After(n, ns)
  }

  function Choice(s: Slots, n: nat, ns: nat): nat
    requires Highest(s, n)
  {
    Pick(s, n, Start(n, ns))
  }

  /** The slots chosen by `m` packets in a row on an unchanged table. */
  function Round(s: Slots, n: nat, ns: nat, m: nat): (r: seq<nat>)
    requires Highest(s, n)
    ensures |r| == m
    decreases m
  {
    if m == 0 then [] else var cl := Choice(s, n, ns); [cl] + Round(s, n, After(n, cl), m - 1)
  }

  /** The occupied slots in [i, j), in order. */
  function Occupied(s: Slots, i: nat, j: nat): (r: seq<nat>)
    requires i <= j <= |s|
    decreases j - i
  {
    if i == j then []
    else if s[i] != null then [i] + Occupied(s, i + 1, j)
    else Occupied(s, i + 1, j)
  }

  lemma {:induction false} OccupiedMembers(s: Slots, i: nat, j: nat)
    requires i <= j <= |s|
    ensures forall k :: k in Occupied(s, i, j) <==> i <= k < j && s[k] != null
    decreases j - i
  {
    if i < j {
      OccupiedMembers(s, i + 1, j);
    }
  }

  predicate Increasing(r: seq<nat>) {
    forall a, b | 0 <= a < b < |r| :: r[a] < r[b]
  }

  lemma {:induction false} OccupiedIncreases(s: Slots, i: nat, j: nat)
    requires i <= j <= |s|
    ensures Increasing(Occupied(s, i, j))
    decreases j - i
  {
    if i < j {
      OccupiedIncreases(s, i + 1, j);
      OccupiedMembers(s, i + 1, j);
      var rest := Occupied(s, i + 1, j);
      assert forall b | 0 <= b < |rest| :: rest[b] in rest;
    }
  }

  lemma {:induction false} OccupiedFrom(s: Slots, i: nat, j: nat)
    requires i <= j <= |s|
    ensures var k := NextFrom(s, i, j);
            Occupied(s, i, j) == if k < j then [k] + Occupied(s, k + 1, j) else []
    decreases j - i
  {
    if i < j && s[i] == null {
      OccupiedFrom(s, i + 1, j);
    }
  }

  lemma {:induction false} NextShorter(s: Slots, i: nat, j: nat, n: nat)
    requires i <= j <= n <= |s| && NextFrom(s, i, j) < j
    ensures NextFrom(s, i, n) == NextFrom(s, i, j)
    decreases j - i
  {
  }

  lemma {:induction false} OccupiedSplit(s: Slots, i: nat, j: nat, k: nat)
    requires i <= j <= k <= |s|
    ensures Occupied(s, i, k) == Occupied(s, i, j) + Occupied(s, j, k)
    decreases j - i
  {
    if i < j {
      OccupiedSplit(s, i + 1, j, k);
    }
  }

  lemma {:induction false} NothingAbove(s: Slots, i: nat)
    requires i <= |s| && forall k | i <= k < |s| :: s[k] == null
    ensures Occupied(s, i, |s|) == []
    decreases |s| - i
  {
    if i < |s| {
      NothingAbove(s, i + 1);
    }
  }

  /** `r` is what |r| packets in a row choose from counter `ns`. */
  predicate Chosen(s: Slots, n: nat, ns: nat, r: seq<nat>)
    requires Highest(s, n)
  {
    Round(s, n, ns, |r|) == r
  }

  lemma ChosenCons(s: Slots, n: nat, ns: nat, rest: seq<nat>)
    requires Highest(s, n) && ns < n && Chosen(s, n, After(n, Pick(s, n, ns)), rest)
    ensures Chosen(s, n, ns, [Pick(s, n, ns)] + rest)
  {
  }

  /** The occupied slots below `end` are chosen one after the other. */
  lemma {:induction false} RoundBelow(s: Slots, n: nat, ns: nat, end: nat)
    requires Highest(s, n) && ns <= end < n
    ensures Chosen(s, n, ns, Occupied(s, ns, end))
    decreases end - ns
  {
    OccupiedFrom(s, ns, end);
    var k := NextFrom(s, ns, end);
    if k < end {
      NextShorter(s, ns, end, n);
      RoundBelow(s, n, k + 1, end);
      ChosenCons(s, n, ns, Occupied(s, k + 1, end));
    }
  }

  /** From any counter within the table, one packet per occupied slot: first the occupied slots
      from the counter to the end, then those before it. */
  lemma {:induction false} RoundGoesRound(s: Slots, n: nat, ns: nat, start: nat)
    requires Highest(s, n) && start <= ns < n
    ensures Chosen(s, n, ns, Occupied(s, ns, n) + Occupied(s, 0, start))
    decreases n - ns
  {
    var k := Pick(s, n, ns);
    OccupiedFrom(s, ns, n);
    var back, later := Occupied(s, 0, start), Occupied(s, k + 1, n);
    assert Occupied(s, ns, n) + back == [k] + (later + back);
    if k + 1 < n {
      RoundGoesRound(s, n, k + 1, start);
    } else {
      RoundBelow(s, n, 0, start);
      assert later + back == back;
    }
    ChosenCons(s, n, ns, later + back);
  }

  /** How many slots are occupied. */
  function Count(s: Slots): nat {
    |Occupied(s, 0, |s|)|
  }

  lemma RoundIs(s: Slots, n: nat, ns: nat)
    requires Highest(s, n)
    ensures Round(s, n, ns, Count(s)) == Occupied(s, Start(n, ns), n) + Occupied(s, 0, Start(n, ns))
  {
    var start := Start(n, ns);
    RoundGoesRound(s, n, start, start);
    OccupiedSplit(s, 0, start, n);
    OccupiedSplit(s, 0, n, |s|);
    NothingAbove(s, n);
    SameStart(s, n, ns, Count(s));
  }

  /** A counter left beyond the table chooses as the one it starts from. */
  lemma SameStart(s: Slots, n: nat, ns: nat, m: nat)
    requires Highest(s, n)
    ensures Round(s, n, ns, m) == Round(s, n, Start(n, ns), m)
  {
  }

  /** `r` names each occupied slot exactly once and nothing else. */
  ghost predicate OnceEach(s: Slots, r: seq<nat>) {
    && (forall k :: k in r <==> 0 <= k < |s| && s[k] != null)
    && (forall a, b | 0 <= a < b < |r| :: r[a] != r[b])
  }

  /** Round robin: as many packets in a row as there are occupied slots use each of them exactly
      once, wherever the counter stands. */
  lemma RoundRobin(s: Slots, n: nat, ns: nat)
    requires Highest(s, n)
    ensures OnceEach(s, Round(s, n, ns, Count(s)))
  {
    var start := Start(n, ns);
    RoundIs(s, n, ns);
    OccupiedMembers(s, start, n);
    OccupiedMembers(s, 0, start);
    OccupiedIncreases(s, start, n);
    OccupiedIncreases(s, 0, start);
    Joined(s, n, Occupied(s, start, n), Occupied(s, 0, start), start);
  }

  lemma Joined(s: Slots, n: nat, front: seq<nat>, back: seq<nat>, cut: nat)
    requires Highest(s, n) && cut < n && Increasing(front) && Increasing(back)
    requires forall k :: k in front <==> cut <= k < n && s[k] != null
    requires forall k :: k in back <==> 0 <= k < cut && s[k] != null
    ensures OnceEach(s, front + back)
  {
    assert forall a | 0 <= a < |front| :: front[a] in front;
    assert forall a | 0 <= a < |back| :: back[a] in back;
  }
}
