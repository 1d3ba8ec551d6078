/** The two-level bitmap of hash slots: 256 words of 64 slots, and four words that say which of them are full. */
module SlotBitmap {
  import opened Definitions

  /** An unsigned 64-bit word by its bits; bit k has weight 2^k. */
  type Word = w: seq<bool> | |w| == 64 witness seq(64, i => false)

  const FULL: Word := seq(64, i => true)
  const EMPTY: Word := seq(64, i => false)

  function And(v: Word, w: Word): Word {
    seq(64, i requires 0 <= i < 64 => v[i] && w[i])
  }

  /** __builtin_ffsll( ~w ) - 1: the lowest zero bit, -1 if there is none. */
  method LowestZero(w: Word) returns (k: int)
    ensures k == -1 <==> w == FULL
    ensures k != -1 ==> 0 <= k < 64 && !w[k] && forall j :: 0 <= j < k ==> w[j]
  {
    k := 0;
    while k < 64 && w[k]
      invariant 0 <= k <= 64 && forall j :: 0 <= j < k ==> w[j]
    {
      k := k + 1;
    }
    if k == 64 {
      assert w == FULL;
      k := -1;
    }
  }

  class Bitmap {
    const top: array<Word>
    const bottom: array<Word>

    ghost predicate Valid()
      reads this, top, bottom
    {
      && Shaped()
      && forall b :: 0 <= b < 256 ==> Summarised(b)
    }

    ghost predicate Shaped() {
      top != bottom && top.Length == 4 && bottom.Length == 256
    }

    /** Bit b of the top level says that word b is full. */
    ghost predicate Summarised(b: nat)
      requires Shaped() && b < 256
      reads top, bottom
    {
      top[b / 64][b % 64] <==> bottom[b] == FULL
    }

    predicate Has(slot: nat)
      requires top.Length == 4 && bottom.Length == 256
      reads bottom
    {
      slot < SLOTS && bottom[slot / 64][slot % 64]
    }

    ghost predicate Complete()
      requires top.Length == 4 && bottom.Length == 256
      reads bottom
    {
      forall s :: 0 <= s < SLOTS ==> Has(s)
    }

    constructor ()
      ensures Valid() && fresh(top) && fresh(bottom)
      ensures forall s: nat :: !Has(s)
    {
      top := new Word[4](i => EMPTY);
      bottom := new Word[256](i => EMPTY);
      new;
      assert !EMPTY[0] && FULL[0];
    }

    method Set(slot: int) returns (rc: int)
      requires Valid()
      modifies top, bottom
      ensures Valid()
      ensures rc == if 0 <= slot < SLOTS then slot else 0 - EINVAL
      ensures forall s: nat :: Has(s) <==> old(Has(s)) || (s == slot && s < SLOTS)
    {
      if slot < 0 || slot >= SLOTS {
        return 0 - EINVAL;
      }
      var b, k := slot / 64, slot % 64;
      bottom[b] := bottom[b][k := true];
      if bottom[b] == FULL {
        top[b / 64] := top[b / 64][b % 64 := true];
      }
      rc := slot;
      Touched(b, k, slot);
      assert bottom[b] == old(bottom[b])[k := true];
      assert old(bottom[b]) == FULL ==> bottom[b] == FULL;
      forall c | 0 <= c < 256
        ensures Summarised(c)
      {
        OtherBit(b, c);
        assert old(Summarised(c));
      }
    }

    lemma Touched(b: nat, k: nat, slot: nat)
      requires slot < SLOTS && b == slot / 64 && k == slot % 64
      ensures forall s: nat :: s / 64 == b && s % 64 == k <==> s == slot
    {
    }

    lemma OtherBit(b: nat, c: nat)
      requires b < 256 && c < 256
      ensures c / 64 == b / 64 && c % 64 == b % 64 <==> c == b
    {
    }

    method Unset(slot: int) returns (rc: int)
      requires Valid()
      modifies top, bottom
      ensures Valid()
      ensures rc == if 0 <= slot < SLOTS then slot else 0 - EINVAL
      ensures forall s: nat :: Has(s) <==> old(Has(s)) && s != slot
    {
      if slot < 0 || slot >= SLOTS {
        return 0 - EINVAL;
      }
      var b, k := slot / 64, slot % 64;
      top[b / 64] := top[b / 64][b % 64 := false];
      bottom[b] := bottom[b][k := false];
      rc := slot;
      Touched(b, k, slot);
      assert bottom[b] == old(bottom[b])[k := false];
      assert !bottom[b][k] && FULL[k];
      forall c | 0 <= c < 256
        ensures Summarised(c)
      {
        OtherBit(b, c);
        assert old(Summarised(c));
      }
    }

    method Reset()
      requires Valid()
      modifies top, bottom
      ensures Valid() && forall s: nat :: !Has(s)
    {
      forall i | 0 <= i < 4 {
        top[i] := EMPTY;
      }
      forall i | 0 <= i < 256 {
        bottom[i] := EMPTY;
      }
      assert !EMPTY[0] && FULL[0];
    }

    method Get(slot: int) returns (rc: int)
      requires Valid()
      ensures rc == if slot < 0 || slot >= SLOTS then 0 - EINVAL else if Has(slot) then 1 else 0
    {
      if slot < 0 || slot >= SLOTS {
        return 0 - EINVAL;
      }
      rc := if bottom[slot / 64][slot % 64] then 1 else 0;
    }

    /** Only the four top words are looked at. */
    method Full() returns (rc: int)
      requires Valid()
      ensures rc == if Complete() then 1 else 0
    {
      var cover := FULL;
      var n := 0;
      while n < 4 && cover == FULL
        invariant 0 <= n <= 4
        invariant cover == FULL <==> forall i :: 0 <= i < n ==> top[i] == FULL
      {
        AndFull(cover, top[n]);
        cover := And(cover, top[n]);
        n := n + 1;
      }
      rc := if cover == FULL then 1 else 0;
      FullIsComplete();
      assert cover != FULL ==> exists i :: 0 <= i < n && top[i] != FULL;
    }

    lemma AndFull(v: Word, w: Word)
      ensures And(v, w) == FULL <==> v == FULL && w == FULL
    {
      if And(v, w) == FULL {
        forall i | 0 <= i < 64 ensures v[i] && w[i] {
          assert And(v, w)[i] == FULL[i];
        }
        assert v == FULL && w == FULL;
      }
    }

    /** The top level is full exactly if every slot is set. */
    lemma FullIsComplete()
      requires Valid()
      ensures (forall t :: 0 <= t < 4 ==> top[t] == FULL) <==> Complete()
    {
      if forall t :: 0 <= t < 4 ==> top[t] == FULL {
        forall s | 0 <= s < SLOTS ensures Has(s) {
          assert Summarised(s / 64);
          assert top[s / 64 / 64] == FULL;
        }
      }
      if Complete() {
        forall t | 0 <= t < 4 ensures top[t] == FULL {
          forall k | 0 <= k < 64 ensures top[t][k] {
            WordFull(64 * t + k);
            assert Summarised(64 * t + k);
          }
          assert top[t] == FULL;
        }
      }
    }

    lemma WordFull(b: nat)
      requires Shaped() && b < 256 && Complete()
      ensures bottom[b] == FULL
    {
      forall k | 0 <= k < 64 ensures bottom[b][k] {
        assert Has(64 * b + k);
      }
      assert bottom[b] == FULL;
    }

    /** The least slot that is not set, -1 if there is none. */
    method GetFirstUnset() returns (slot: int)
      requires Valid()
      ensures slot == -1 <==> Complete()
      ensures slot != -1 ==> 0 <= slot < SLOTS && !Has(slot) && forall s :: 0 <= s < slot ==> Has(s)
    {
      FullIsComplete();
      var t := 0;
      while t < 4 && top[t] == FULL
        invariant 0 <= t <= 4 && forall i :: 0 <= i < t ==> top[i] == FULL
      {
        t := t + 1;
      }
      if t == 4 {
        return -1;
      }
      var first := LowestZero(top[t]);
      var b := 64 * t + first;
      assert Summarised(b);
      var low := LowestZero(bottom[b]);
      slot := 64 * b + low;
      assert !Has(slot);
      forall s | 0 <= s < slot ensures Has(s) {
        if s / 64 < b {
          assert Summarised(s / 64);
          assert s / 64 / 64 == t || top[s / 64 / 64] == FULL;
        }
      }
    }
  }
}
