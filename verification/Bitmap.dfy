/** The free-slot bitmap of the swap file (A3/swap.c:18-142).

    A word is a number below 2^32.  Slot `i` is bit `i % 32` of word `i / 32`;
    the bits past `nbits` in the last word are set at creation and stay set. */
module Bitmap {

  const WORD_ALLBITS: nat := 0xffff_ffff

  function DivRoundUp(a: nat, b: nat): nat
    requires 0 < b
  {
    (a + b - 1) / b
  }

  // ----- one word

  /** The mask of bit `j`: one shifted left by `j`. */
  function Mask(j: nat): (m: nat)
    ensures 0 < m
  {
    if j == 0 then 1 else 2 * Mask(j - 1)
  }

  /** Whether `word & Mask(j)` is nonzero. */
  predicate Bit(word: nat, j: nat) {
    if j == 0 then word % 2 == 1 else Bit(word / 2, j - 1)
  }

  /** `word | Mask(j)`: a one-bit mask is added unless the bit is already there. */
  function OrMask(word: nat, j: nat): nat {
    if Bit(word, j) then word else word + Mask(j)
  }

  /** Twice a number, added or taken away, shows in the half and not in the last bit. */
  lemma HalfPlus(word: nat, m: nat)
    ensures (word + 2 * m) / 2 == word / 2 + m && (word + 2 * m) % 2 == word % 2
    ensures 2 * m <= word ==> (word - 2 * m) / 2 == word / 2 - m && (word - 2 * m) % 2 == word % 2
    ensures word == 2 * (word / 2) + word % 2
  {
  }

  lemma {:induction false} BitIsWithin(word: nat, j: nat)
    requires Bit(word, j)
    ensures Mask(j) <= word
  {
    if j > 0 {
      BitIsWithin(word / 2, j - 1);
    }
  }

  /** `word & ~Mask(j)`. */
  function AndNotMask(word: nat, j: nat): nat {
    if Bit(word, j) then BitIsWithin(word, j); word - Mask(j) else word
  }

  lemma {:induction false} OrMaskBits(word: nat, j: nat, k: nat)
    ensures Bit(OrMask(word, j), k) <==> j == k || Bit(word, k)
  {
    if !Bit(word, j) {
      if j == 0 {
        assert (word + 1) / 2 == word / 2;
      } else {
        HalfPlus(word, Mask(j - 1));
        if k > 0 {
          OrMaskBits(word / 2, j - 1, k - 1);
        }
      }
    }
  }

  lemma {:induction false} AndNotMaskBits(word: nat, j: nat, k: nat)
    ensures Bit(AndNotMask(word, j), k) <==> j != k && Bit(word, k)
  {
    if Bit(word, j) {
      BitIsWithin(word, j);
      if j == 0 {
        assert (word - 1) / 2 == word / 2;
      } else {
        BitIsWithin(word / 2, j - 1);
        HalfPlus(word, Mask(j - 1));
        if k > 0 {
          AndNotMaskBits(word / 2, j - 1, k - 1);
        }
      }
    }
  }

  lemma FitsTwice(h: nat, bit: nat, m: nat, limit: nat)
    requires h + m < limit && bit < 2
    ensures 2 * h + bit + 2 * m < 2 * limit
  {
  }

  lemma HalfFits(word: nat, n: nat)
    requires word < Mask(n) && 0 < n
    ensures word / 2 < Mask(n - 1) && Mask(n) == 2 * Mask(n - 1)
  {
  }

  lemma {:induction false} OrMaskFits(word: nat, j: nat, n: nat)
    requires word < Mask(n) && j < n
    ensures OrMask(word, j) < Mask(n)
  {
    if !Bit(word, j) {
      HalfPlus(word, 0);
      HalfFits(word, n);
      if j == 0 {
        FitsTwice(word / 2, 1, 0, Mask(n - 1));
      } else {
        OrMaskFits(word / 2, j - 1, n - 1);
        FitsTwice(word / 2, word % 2, Mask(j - 1), Mask(n - 1));
      }
    }
  }

  lemma {:induction false} AndNotMaskFits(word: nat, j: nat)
    ensures AndNotMask(word, j) <= word
  {
    if Bit(word, j) {
      BitIsWithin(word, j);
    }
  }

  lemma {:induction false} OnesBits(n: nat, k: nat)
    requires k < n
    ensures Bit(Mask(n) - 1, k)
  {
    assert Mask(n) == 2 * Mask(n - 1);
    assert (Mask(n) - 1) / 2 == Mask(n - 1) - 1;
    if k > 0 {
      OnesBits(n - 1, k - 1);
    }
  }

  lemma {:induction false} AllBitsSet(word: nat, n: nat)
    requires word < Mask(n)
    requires forall k: nat | k < n :: Bit(word, k)
    ensures word == Mask(n) - 1
  {
    if n > 0 {
      assert Bit(word, 0);
      forall k: nat | k < n - 1
        ensures Bit(word / 2, k)
      {
        assert Bit(word, k + 1);
      }
      AllBitsSet(word / 2, n - 1);
    }
  }

  /** Comparing a word with WORD_ALLBITS decides whether some bit of it is clear. */
  lemma FullWord(word: nat)
    requires word <= WORD_ALLBITS
    ensures word == WORD_ALLBITS ==> forall k: nat | k < 32 :: Bit(word, k)
    ensures (forall k: nat | k < 32 :: Bit(word, k)) ==> word == WORD_ALLBITS
  {
    WordSize();
    if forall k: nat | k < 32 :: Bit(word, k) {
      AllBitsSet(word, 32);
    }
    if word == WORD_ALLBITS {
      forall k: nat | k < 32
        ensures Bit(word, k)
      {
        OnesBits(32, k);
        assert word == Mask(32) - 1;
      }
    }
  }

  lemma WordSize()
    ensures Mask(32) == WORD_ALLBITS + 1
  {
    assert Mask(8) == 0x100;
    assert Mask(16) == 0x1_0000;
    assert Mask(24) == 0x100_0000;
  }

  // ----- the whole map

  predicate IsSet(v: seq<nat>, i: nat)
    requires i / 32 < |v|
  {
    Bit(v[i / 32], i % 32)
  }

  /** The words of a map of `nbits` slots: the right number of them, each of 32
      bits, with the padding past `nbits` set. */
  ghost predicate WellFormed(v: seq<nat>, nbits: nat) {
    && |v| == DivRoundUp(nbits, 32)
    && (forall ix: nat | ix < |v| :: v[ix] <= WORD_ALLBITS)
    && forall i: nat | nbits <= i < 32 * |v| :: IsSet(v, i)
  }

  /** The slots in use. */
  ghost function UsedSlots(v: seq<nat>, nbits: nat): set<nat>
    requires WellFormed(v, nbits)
  {
    set i: nat | i < nbits && IsSet(v, i)
  }

  /** Writing word `ix` with its bit `j` changed changes slot `32 * ix + j` only. */
  lemma ChangeOneBit(v: seq<nat>, ix: nat, j: nat, v': seq<nat>, on: bool)
    requires ix < |v| && j < 32
    requires v' == v[ix := if on then OrMask(v[ix], j) else AndNotMask(v[ix], j)]
    requires v[ix] <= WORD_ALLBITS
    ensures forall i: nat | i / 32 < |v| :: IsSet(v', i) <==> if i == 32 * ix + j then on else IsSet(v, i)
    ensures v'[ix] <= WORD_ALLBITS
  {
    WordSize();
    OrMaskFits(v[ix], j, 32);
    AndNotMaskFits(v[ix], j);
    forall i: nat | i / 32 < |v|
      ensures IsSet(v', i) <==> if i == 32 * ix + j then on else IsSet(v, i)
    {
      OrMaskBits(v[ix], j, i % 32);
      AndNotMaskBits(v[ix], j, i % 32);
    }
  }

  lemma ChangeOneSlot(v: seq<nat>, nbits: nat, i: nat, v': seq<nat>, on: bool)
    requires WellFormed(v, nbits) && i < nbits
    requires v' == v[i / 32 := if on then OrMask(v[i / 32], i % 32) else AndNotMask(v[i / 32], i % 32)]
    ensures WellFormed(v', nbits)
    ensures UsedSlots(v', nbits) == if on then UsedSlots(v, nbits) + {i} else UsedSlots(v, nbits) - {i}
  {
    ChangeOneBit(v, i / 32, i % 32, v', on);
  }

  lemma {:induction false} ZeroBits(k: nat)
    ensures !Bit(0, k)
  {
    if k > 0 {
      ZeroBits(k - 1);
    }
  }

  /** The words before `ix` and the first `n` bits of that word are set. */
  lemma WordPrefix(v: seq<nat>, ix: nat, n: nat)
    requires ix < |v| && n <= 32
    requires forall i: nat | i < 32 * ix :: IsSet(v, i)
    requires forall k: nat | k < n :: Bit(v[ix], k)
    ensures forall i: nat | i < 32 * ix + n :: IsSet(v, i)
  {
    forall i: nat | 32 * ix <= i < 32 * ix + n
      ensures IsSet(v, i)
    {
      assert i / 32 == ix && i % 32 == i - 32 * ix;
      assert Bit(v[ix], i % 32);
    }
  }

  class Bitmap {
    const nbits: nat
    const v: array<nat>

    /** What bitmap_create establishes and every operation keeps. */
    ghost predicate Valid()
      reads v
    {
      WellFormed(v[..], nbits)
    }

    ghost function Used(): (s: set<nat>)
      requires Valid()
      reads v
    {
      UsedSlots(v[..], nbits)
    }

    constructor (nbits: nat)
      ensures Valid() && fresh(v) && this.nbits == nbits
      ensures Used() == {}
    {
      var words := DivRoundUp(nbits, 32);
      this.nbits := nbits;
      v := new nat[words](_ => 0);
      new;
      forall k: nat { ZeroBits(k); }
      if words > nbits / 32 {
        var ix := words - 1;
        var overbits := nbits - ix * 32;
        assert nbits / 32 == words - 1;
        assert 0 < overbits < 32;
        for j := overbits to 32
          invariant forall k: nat | k < v.Length :: v[k] <= WORD_ALLBITS
          invariant forall i: nat | i < 32 * v.Length :: IsSet(v[..], i) <==> nbits <= i < 32 * ix + j
        {
          ghost var was := v[..];
          v[ix] := OrMask(v[ix], j);
          assert v[..] == was[ix := OrMask(was[ix], j)];
          ChangeOneBit(was, ix, j, v[..], true);
        }
      }
    }

    /** Takes slot `32 * ix + offset`, the first of its word that is free. */
    method Take(ix: nat, offset: nat) returns (index: nat)
      requires Valid() && ix < v.Length && offset < 32 && !Bit(v[ix], offset)
      modifies v
      ensures Valid() && index == 32 * ix + offset && index < nbits && index !in old(Used())
      ensures Used() == old(Used()) + {index}
    {
      index := ix * 32 + offset;
      assert index / 32 == ix && index % 32 == offset;
      assert !IsSet(v[..], index);
      v[ix] := OrMask(v[ix], offset);
      assert v[..] == old(v[..])[ix := OrMask(old(v[ix]), offset)];
      ChangeOneSlot(old(v[..]), nbits, index, v[..], true);
    }

    /** Takes the least free slot; fails exactly when every slot is in use. */
    method Alloc() returns (full: bool, index: nat)
      requires Valid()
      modifies v
      ensures Valid()
      ensures full <==> forall i: nat | i < nbits :: i in old(Used())
      ensures full ==> Used() == old(Used())
      ensures !full ==> index < nbits && index !in old(Used()) && Used() == old(Used()) + {index}
      ensures !full ==> forall i: nat | i < index :: i in old(Used())
    {
      hide Bit, OrMask, Mask;
      ghost var used := Used();
      var maxix := DivRoundUp(nbits, 32);
      for ix := 0 to maxix
        invariant v[..] == old(v[..])
        invariant forall i: nat | i < 32 * ix :: IsSet(v[..], i)
      {
        FullWord(v[ix]);
        if v[ix] != WORD_ALLBITS {
          for offset := 0 to 32
            invariant v[..] == old(v[..])
            invariant forall k: nat | k < offset :: Bit(v[ix], k)
          {
            if !Bit(v[ix], offset) {
              WordPrefix(v[..], ix, offset);
              index := Take(ix, offset);
              assert index !in used;
              return false, index;
            }
          }
          assert false;
        }
        WordPrefix(v[..], ix, 32);
      }
      return true, 0;
    }

    method Mark(index: nat)
      requires Valid() && index < nbits && index !in Used()
      modifies v
      ensures Valid() && Used() == old(Used()) + {index}
    {
      var ix, j := index / 32, index % 32;
      v[ix] := OrMask(v[ix], j);
      assert v[..] == old(v[..])[ix := OrMask(old(v[ix]), j)];
      ChangeOneSlot(old(v[..]), nbits, index, v[..], true);
    }

    method Unmark(index: nat)
      requires Valid() && index < nbits && index in Used()
      modifies v
      ensures Valid() && Used() == old(Used()) - {index}
    {
      var ix, j := index / 32, index % 32;
      v[ix] := AndNotMask(v[ix], j);
      assert v[..] == old(v[..])[ix := AndNotMask(old(v[ix]), j)];
      ChangeOneSlot(old(v[..]), nbits, index, v[..], false);
    }

    /** Nothing checks the index: past `nbits` it reads the padding, which is set. */
    method Test(index: nat) returns (marked: bool)
      requires Valid() && index / 32 < v.Length
      ensures marked <==> nbits <= index || index in Used()
    {
      marked := Bit(v[index / 32], index % 32);
      assert marked == IsSet(v[..], index);
    }
  }
}
