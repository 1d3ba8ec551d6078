/** The table from hash slots to connections, with its cover bitmap; losing a connection and getting it back. */
module Locator {
  import opened Definitions
  import opened SlotBitmap

  const INVALID: nat := 0xFFFF

  type Index = i: int | 0 <= i <= 0xFFFF

  // ---------- what the operations do to the table ----------

  function Ranged(t: seq<Index>, first: nat, last: int, index: Index): (u: seq<Index>)
    ensures |u| == |t|
  {
    seq(|t|, s requires 0 <= s < |t| => if first <= s <= last then index else t[s])
  }

  function Reassociated(t: seq<Index>, from: Index, to: Index): (u: seq<Index>)
    ensures |u| == |t|
  {
    seq(|t|, s requires 0 <= s < |t| => if t[s] == from then to else t[s])
  }

  /** The number of slots that name an index. */
  function Count(t: seq<Index>, index: Index): nat {
    if t == [] then 0 else Count(t[..|t| - 1], index) + (if t[|t| - 1] == index then 1 else 0)
  }

  /** The slots of a bitmap are given back to a connection. */
  function Restored(t: seq<Index>, slots: set<nat>, index: Index): (u: seq<Index>)
    ensures |u| == |t|
  {
    seq(|t|, s requires 0 <= s < |t| => if s in slots then index else t[s])
  }

  class Table {
    const index: array<Index>
    const cover: Bitmap

    ghost predicate Valid()
      reads this, index, cover, cover.top, cover.bottom
    {
      && index.Length == SLOTS && cover.Valid()
      && forall s :: 0 <= s < SLOTS ==> (cover.Has(s) <==> index[s] != INVALID)
    }

    constructor ()
      ensures Valid() && fresh(index) && fresh(cover.top) && fresh(cover.bottom)
      ensures forall s :: 0 <= s < SLOTS ==> index[s] == INVALID
    {
      index := new Index[SLOTS](i => INVALID);
      var bitmap := new Bitmap();
      cover := bitmap;
    }

    /** A connection is found exactly for the slots that the cover bitmap has. */
    method GetConnIndex(slot: nat) returns (i: Index)
      requires Valid()
      ensures i != INVALID <==> slot < SLOTS && cover.Has(slot)
      ensures i != INVALID ==> i == index[slot]
    {
      i := if slot < SLOTS then index[slot] else INVALID;
    }

    method AssignConnIndex(i: Index, slot: nat) returns (rc: int)
      requires Valid()
      modifies index, cover.top, cover.bottom
      ensures Valid()
      ensures rc == if slot < SLOTS then 0 else 0 - EINVAL
      ensures index[..] == if slot < SLOTS then old(index[..])[slot := i] else old(index[..])
    {
      if slot >= SLOTS {
        return 0 - EINVAL;
      }
      index[slot] := i;
      if i == INVALID {
        rc := cover.Unset(slot);
      } else {
        rc := cover.Set(slot);
      }
      rc := 0;
    }

    method RemoveConnIndex(slot: nat) returns (rc: int)
      requires Valid()
      modifies index, cover.top, cover.bottom
      ensures Valid()
      ensures rc == if slot < SLOTS then 0 else 0 - EINVAL
      ensures index[..] == if slot < SLOTS then old(index[..])[slot := INVALID] else old(index[..])
    {
      if slot >= SLOTS {
        return 0 - EINVAL;
      }
      index[slot] := INVALID;
      rc := cover.Unset(slot);
      rc := 0;
    }

    /** A range that leaves the table is assigned as far as the table goes, and then refused. */
    method AssociateRange(first: Index, last: Index, i: Index) returns (rc: int)
      requires Valid()
      modifies index, cover.top, cover.bottom
      ensures Valid()
      ensures rc == if first <= last && last >= SLOTS then 0 - EINVAL else 0
      ensures index[..] == Ranged(old(index[..]), first, last, i)
    {
      rc := 0;
      var slot: nat := first;
      assert index[..] == Ranged(old(index[..]), first, slot - 1, i);
      while rc == 0 && slot <= last
        invariant Valid() && first <= slot && (slot <= last + 1 || slot == first)
        invariant rc == if slot > SLOTS && slot > first then 0 - EINVAL else 0
        invariant index[..] == Ranged(old(index[..]), first, slot - 1, i)
        decreases last - slot, rc == 0
      {
        ghost var was := index[..];
        rc := AssignConnIndex(i, slot);
        assert index[..] == Ranged(old(index[..]), first, slot, i);
        slot := slot + 1;
      }
    }

    method ReassociateConnIndex(from: Index, to: Index) returns (updated: nat)
      requires Valid()
      modifies index, cover.top, cover.bottom
      ensures Valid()
      ensures index[..] == Reassociated(old(index[..]), from, to)
      ensures updated == Count(old(index[..]), from)
    {
      updated := 0;
      var i := 0;
      ghost var was := index[..];
      while i < SLOTS
        invariant 0 <= i <= SLOTS && Valid()
        invariant forall s :: 0 <= s < i ==> index[s] == if was[s] == from then to else was[s]
        invariant forall s :: i <= s < SLOTS ==> index[s] == was[s]
        invariant updated == Count(was[..i], from)
      {
        assert was[..i + 1][..i] == was[..i];
        if index[i] == from {
          index[i] := to;
          if to == INVALID {
            var _ := cover.Unset(i);
          } else {
            var _ := cover.Set(i);
          }
          updated := updated + 1;
        }
        i := i + 1;
      }
      assert was[..i] == was;
    }

    /** All slots are mapped, as the cover bitmap has it. */
    method HashCovered() returns (rc: int)
      requires Valid()
      ensures rc == if forall s :: 0 <= s < SLOTS ==> index[s] != INVALID then 1 else 0
    {
      rc := cover.Full();
      if forall s :: 0 <= s < SLOTS ==> index[s] != INVALID {
        assert cover.Complete();
      } else {
        var s :| 0 <= s < SLOTS && index[s] == INVALID;
        assert !cover.Has(s);
      }
    }

    // ---------- a connection is lost and restored ----------

    /** The receiver takes a failed connection out of the table. */
    method LoseConnection(i: Index)
      requires Valid()
      modifies index, cover.top, cover.bottom
      ensures Valid() && index[..] == Reassociated(old(index[..]), i, INVALID)
    {
      var _ := ReassociateConnIndex(i, INVALID);
    }

    /** The slots that a connection remembers are assigned to it again. */
    method RestoreConnection(i: Index, bitmap: Bitmap)
      requires Valid() && bitmap.Valid()
      requires bitmap.top != cover.top && bitmap.bottom != cover.bottom && bitmap.top != cover.bottom && bitmap.bottom != cover.top
      modifies index, cover.top, cover.bottom
      ensures Valid() && index[..] == Restored(old(index[..]), SlotsOf(bitmap), i)
    {
      ghost var was := index[..];
      var slot := 0;
      while slot < SLOTS
        invariant 0 <= slot <= SLOTS && Valid() && bitmap.Valid()
        invariant forall s :: 0 <= s < slot ==> index[s] == if s in SlotsOf(bitmap) then i else was[s]
        invariant forall s :: slot <= s < SLOTS ==> index[s] == was[s]
      {
        var bit := bitmap.Get(slot);
        if bit != 0 {
          ghost var before := index[..];
          var _ := AssignConnIndex(i, slot);
          assert forall s :: 0 <= s < SLOTS ==> index[s] == index[..][s] == if s == slot then i else before[s];
        }
        slot := slot + 1;
      }
    }
  }

  ghost function SlotsOf(b: Bitmap): set<nat>
    requires b.Shaped()
    reads b.bottom
  {
    set s: nat | s < SLOTS && b.Has(s)
  }

  /**
    Losing a connection and restoring it gives the table back exactly if the connection remembers just
    the slots that named it; in between, no slot names it.
   */
  lemma RestoredIff(t: seq<Index>, slots: set<nat>, i: Index)
    requires |t| == SLOTS && i != INVALID && forall s :: s in slots ==> s < SLOTS
    ensures forall s :: 0 <= s < SLOTS ==> Reassociated(t, i, INVALID)[s] != i
    ensures Restored(Reassociated(t, i, INVALID), slots, i) == t <==> forall s :: 0 <= s < SLOTS ==> (s in slots <==> t[s] == i)
  {
    var u := Restored(Reassociated(t, i, INVALID), slots, i);
    if u == t {
      forall s | 0 <= s < SLOTS ensures s in slots <==> t[s] == i {
        assert u[s] == t[s];
      }
    }
  }

  /** The cover bitmap is a function of the table, so it comes back with it. */
  lemma CoverFromTable(a: Bitmap, top: seq<Word>, bottom: seq<Word>, t: seq<Index>)
    requires a.Valid() && |t| == SLOTS && |top| == 4 && |bottom| == 256
    requires forall s :: 0 <= s < SLOTS ==> (a.Has(s) <==> t[s] != INVALID)
    requires forall s :: 0 <= s < SLOTS ==> (bottom[s / 64][s % 64] <==> t[s] != INVALID)
    requires forall b :: 0 <= b < 256 ==> (top[b / 64][b % 64] <==> bottom[b] == FULL)
    ensures a.top[..] == top && a.bottom[..] == bottom
  {
    forall b | 0 <= b < 256 ensures a.bottom[b] == bottom[b] {
      forall k | 0 <= k < 64 ensures a.bottom[b][k] == bottom[b][k] {
        assert a.Has(64 * b + k) <==> t[64 * b + k] != INVALID;
        assert bottom[(64 * b + k) / 64][(64 * b + k) % 64] <==> t[64 * b + k] != INVALID;
      }
      assert a.bottom[b] == bottom[b];
    }
    forall i | 0 <= i < 4 ensures a.top[i] == top[i] {
      forall k | 0 <= k < 64 ensures a.top[i][k] == top[i][k] {
        assert a.Summarised(64 * i + k);
        assert top[(64 * i + k) / 64][(64 * i + k) % 64] <==> bottom[64 * i + k] == FULL;
      }
      assert a.top[i] == top[i];
    }
  }

  /** Failure and recovery of a connection that remembers its slots leave table and cover as they were. */
  method FailAndRecover(t: Table, i: Index, bitmap: Bitmap)
    requires t.Valid() && bitmap.Valid() && i != INVALID
    requires bitmap.top != t.cover.top && bitmap.bottom != t.cover.bottom
    requires bitmap.top != t.cover.bottom && bitmap.bottom != t.cover.top
    requires forall s :: 0 <= s < SLOTS ==> (bitmap.Has(s) <==> t.index[s] == i)
    modifies t.index, t.cover.top, t.cover.bottom
    ensures t.Valid() && t.index[..] == old(t.index[..])
    ensures t.cover.top[..] == old(t.cover.top[..]) && t.cover.bottom[..] == old(t.cover.bottom[..])
  {
    ghost var was, top, bottom := t.index[..], t.cover.top[..], t.cover.bottom[..];
    SummaryOf(t.cover, top, bottom, was);
    t.LoseConnection(i);
    t.RestoreConnection(i, bitmap);
    RestoredIff(was, SlotsOf(bitmap), i);
    assert forall s :: 0 <= s < SLOTS ==> t.index[s] == t.index[..][s] == was[s];
    CoverFromTable(t.cover, top, bottom, was);
  }

  lemma SummaryOf(a: Bitmap, top: seq<Word>, bottom: seq<Word>, t: seq<Index>)
    requires a.Valid() && top == a.top[..] && bottom == a.bottom[..] && |t| == SLOTS
    requires forall s :: 0 <= s < SLOTS ==> (a.Has(s) <==> t[s] != INVALID)
    ensures forall s :: 0 <= s < SLOTS ==> (bottom[s / 64][s % 64] <==> t[s] != INVALID)
    ensures forall b :: 0 <= b < 256 ==> (top[b / 64][b % 64] <==> bottom[b] == FULL)
  {
    forall s | 0 <= s < SLOTS ensures bottom[s / 64][s % 64] <==> t[s] != INVALID {
      assert a.Has(s) <==> t[s] != INVALID;
    }
    forall b | 0 <= b < 256 ensures top[b / 64][b % 64] <==> bottom[b] == FULL {
      assert a.Summarised(b);
    }
  }
}
