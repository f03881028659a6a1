/**
 * The classifier's slot array, reallocated and written in place, and the multipath classifier's
 * search loops. `maxslot_` is kept at the highest occupied slot, which is what makes the search
 * terminate at an occupied one.
 */
module Classifiers {
  import opened SlotTable

  class Classifier {
    var slot_: array?<NsObject?>
    var nslot_: nat
    var maxslot_: int
    var nsize_: nat

    ghost predicate Shaped()
      reads this
    {
      (slot_ == null ==> nslot_ == 0) && (slot_ != null ==> nslot_ == slot_.Length > 0)
    }

    ghost function Table(): Slots
      requires Shaped()
      reads this, slot_
    {
      if slot_ == null then [] else slot_[..]
    }

    ghost predicate Valid()
      reads this, slot_
    {
      Shaped() && maxslot_ == Top(Table())
    }

    constructor (nsize: nat)
      ensures Valid() && Table() == [] && nsize_ == nsize && slot_ == null
    {
      slot_, nslot_, maxslot_, nsize_ := null, 0, -1, nsize;
    }

    /** Makes room for `slot` in a new array, with the old contents in front. */
    method Alloc(slot: nat)
      requires Shaped() && slot >= nslot_
      modifies this`slot_, this`nslot_
      ensures Shaped() && slot < nslot_ && fresh(slot_)
      ensures Table() == Padded(old(Table()), nslot_)
      ensures nslot_ == GrownSize(if old(slot_) != null then old(nslot_) else if nsize_ != 0 then nsize_ else 32, slot)
    {
      var was := slot_;
      var n := nslot_;
      if was == null {
        if nsize_ != 0 {
          nslot_ := nsize_;
        } else {
          nslot_ := 32;
        }
      }
      ghost var first := nslot_;
      while nslot_ <= slot
        invariant nslot_ > 0 && nslot_ >= n && GrownSize(nslot_, slot) == GrownSize(first, slot)
        decreases slot - nslot_
      {
        nslot_ := 2 * nslot_;
      }
      var now := new NsObject?[nslot_](i => null);
      slot_ := now;
      for i := 0 to n
        modifies now
        invariant forall k | 0 <= k < i :: now[k] == was[k]
        invariant forall k | i <= k < now.Length :: now[k] == null
      {
        now[i] := was[i];
      }
    }

    method Install(slot: nat, p: NsObject?)
      requires Valid()
      modifies this`slot_, this`nslot_, this`maxslot_, slot_
      ensures Shaped() && slot < nslot_ && nslot_ >= old(nslot_) && (slot_ == old(slot_) || fresh(slot_))
      ensures slot < old(nslot_) ==> nslot_ == old(nslot_)
      ensures Table() == Padded(old(Table()), nslot_)[slot := p]
      ensures Valid() <==> p != null || slot < old(maxslot_)
    {
      ghost var before := Table();
      if slot >= nslot_ {
        Alloc(slot);
      }
      ghost var t := Table();
      assert t == Padded(before, nslot_);
      PaddedTop(before, nslot_);
      InstallTop(t, slot, p);
      Write(slot, p);
      if slot >= maxslot_ {
        maxslot_ := slot;
      }
    }

    method Write(slot: nat, p: NsObject?)
      requires Shaped() && slot < nslot_
      modifies slot_
      ensures Shaped() && Table() == old(Table())[slot := p]
    {
      slot_[slot] := p;
    }

    /** Empties a slot; if it was the highest occupied one, finds the next below it. */
    method Clear(slot: nat)
      requires Valid() && slot < nslot_
      modifies this`maxslot_, slot_
      ensures Valid() && Table() == old(Table())[slot := null]
    {
      ghost var t := Table();
      Write(slot, null);
      ClearTop(t, slot);
      if slot == maxslot_ {
        maxslot_ := maxslot_ - 1;
        while maxslot_ >= 0 && slot_[maxslot_] == null
          invariant -1 <= maxslot_ < slot && Table() == t[slot := null]
          invariant Top(t[..maxslot_ + 1]) == Top(t[..slot])
        {
          assert Table()[maxslot_] == t[maxslot_];
          assert t[..maxslot_ + 1][..maxslot_] == t[..maxslot_];
          maxslot_ := maxslot_ - 1;
        }
        assert maxslot_ >= 0 ==> Table()[maxslot_] == t[maxslot_];
      }
    }

    /** A free slot: empty, or holding the null agent; the table grows if there is none. */
    method GetNxt(nullagent: NsObject?) returns (i: nat)
      requires Valid()
      modifies this`slot_, this`nslot_
      ensures Valid() && nslot_ >= old(nslot_) && i < nslot_ && Table() == Padded(old(Table()), nslot_)
      ensures Table()[i] == null || Table()[i] == nullagent
      ensures forall k | 0 <= k < i :: Table()[k] != null && Table()[k] != nullagent
      ensures slot_ == old(slot_) || fresh(slot_)
    {
      i := 0;
      while i < nslot_
        invariant i <= nslot_
        invariant forall k | 0 <= k < i :: slot_ != null && slot_[k] != null && slot_[k] != nullagent
      {
        if slot_[i] == null || slot_[i] == nullagent {
          assert Table() == Padded(old(Table()), nslot_);
          return;
        }
        i := i + 1;
      }
      i := nslot_;
      Alloc(nslot_);
      PaddedTop(old(Table()), nslot_);
    }

    /** Installs an object in the first slot above all occupied ones. */
    method InstallNext(node: NsObject) returns (slot: int)
      requires Valid()
      modifies this`slot_, this`nslot_, this`maxslot_, slot_
      ensures Valid() && nslot_ >= old(nslot_) && slot == old(maxslot_) + 1 == maxslot_ < nslot_
      ensures Table() == Padded(old(Table()), nslot_)[slot := node]
    {
      slot := maxslot_ + 1;
      Install(slot, node);
      assert Table()[slot] == node;
    }
  }

  class MultiPathForwarder {
    const table: Classifier
    var ns_: nat

    constructor (t: Classifier)
      ensures table == t && ns_ == 0
    {
      table, ns_ := t, 0;
    }

    method Next(n: nat, cl: nat) returns (ns: nat)
      requires n > 0
      ensures ns == After(n, cl)
    {
      ns := (cl + 1) % n;
    }

    /** Per-packet choice. The loop ends at an occupied slot, never by coming back to where it
        started. */
    method Classify() returns (cl: nat)
      requires table.Valid() && table.maxslot_ >= 0 && ns_ < table.nslot_
      modifies this`ns_
      ensures Highest(table.Table(), table.maxslot_ + 1)
      ensures cl == Choice(table.Table(), table.maxslot_ + 1, old(ns_)) && ns_ == After(table.maxslot_ + 1, cl)
      ensures cl < table.nslot_ && table.Table()[cl] != null && ns_ < table.nslot_
    {
      ghost var s := table.Table();
      var n := table.maxslot_ + 1;
      TopIsHighest(s, n);
      var fail := ns_;
      ghost var start := Start(n, ns_);
      ghost var last := Pick(s, n, start);
      cl := ns_;
      ns_ := Next(n, cl);
      while table.slot_[cl] == null && ns_ != fail
        invariant cl < table.nslot_ && ns_ == After(n, cl)
        invariant cl == fail || start <= cl <= last
        decreases if cl >= n then n else n - 1 - cl
      {
        assert table.slot_[cl] == s[cl];
        cl := ns_;
        ns_ := Next(n, cl);
      }
      assert table.slot_[cl] == s[cl];
    }

    /** Per-flow choice from the flow's hash: the same flow takes the same occupied slot as long
        as the table does not change. */
    method ClassifyFlow(hash: nat) returns (cl: nat)
      requires table.Valid() && table.maxslot_ >= 0
      ensures Highest(table.Table(), table.maxslot_ + 1)
      ensures cl == Choice(table.Table(), table.maxslot_ + 1, hash % (table.maxslot_ + 1))
      ensures cl < table.nslot_ && table.Table()[cl] != null
    {
      ghost var s := table.Table();
      var n := table.maxslot_ + 1;
      TopIsHighest(s, n);
      ModSmall(hash, n);
      var ms := hash % n;
      var fail := ms;
      cl := ms;
      ms := Next(n, cl);
      while table.slot_[cl] == null && ms != fail
        invariant fail <= cl <= Pick(s, n, fail) && ms == After(n, cl)
        decreases n - cl
      {
        cl := ms;
        ms := Next(n, cl);
      }
    }
  }
}
