/** The bitmap of the frame allocator: 32 frames a word, read as the set of its set bits. */
module Bitmap {
  import opened Bits

  function BitMask(k: nat): (m: uint32)
    requires k < 32
    ensures forall j: nat :: Bit(m, j) <==> j == k
  {
    SingleBit(k);
    Shl(1, k)
  }

  lemma SingleBit(k: nat)
    requires k < 32
    ensures Shl(1, k) < UINT32_LIMIT
    ensures forall j: nat :: Bit(Shl(1, k), j) <==> j == k
  {
    forall j: nat
      ensures Bit(Shl(1, k), j) <==> j == k
    {
      BitShl(1, k, j);
      if j > k {
        BitOfZero(j - k - 1);
      }
    }
    Bounded(Shl(1, k), 32);
    PowerConstants();
  }

  /** `word & mask` is nonzero exactly when the bit is set. */
  lemma TestBit(word: uint32, k: nat)
    requires k < 32
    ensures And(word, BitMask(k)) != 0 <==> Bit(word, k)
  {
    BitAnd(word, BitMask(k), k);
    BitOfZero(k);
    if !Bit(word, k) {
      forall i: nat
        ensures Bit(And(word, BitMask(k)), i) == Bit(0, i)
      {
        BitAnd(word, BitMask(k), i);
        BitOfZero(i);
      }
      BitsDetermine(And(word, BitMask(k)), 0);
    }
  }

  lemma SetBit(word: uint32, k: nat)
    requires k < 32
    ensures Or(word, BitMask(k)) < UINT32_LIMIT
    ensures forall j: nat :: Bit(Or(word, BitMask(k)), j) <==> j == k || Bit(word, j)
  {
    PowerConstants();
    forall j: nat
      ensures Bit(Or(word, BitMask(k)), j) <==> j == k || Bit(word, j)
    {
      BitOr(word, BitMask(k), j);
    }
    forall j: nat | j >= 32
      ensures !Bit(Or(word, BitMask(k)), j)
    {
      HighBitsZero(word, 32, j);
    }
    Bounded(Or(word, BitMask(k)), 32);
  }

  lemma ClearBit(word: uint32, k: nat)
    requires k < 32
    ensures forall j: nat :: Bit(And(word, Not32(BitMask(k))), j) <==> j != k && Bit(word, j)
  {
    PowerConstants();
    forall j: nat
      ensures Bit(And(word, Not32(BitMask(k))), j) <==> j != k && Bit(word, j)
    {
      BitAnd(word, Not32(BitMask(k)), j);
      if j < 32 {
        BitNot32(BitMask(k), j, 32);
      } else {
        HighBitsZero(word, 32, j);
      }
    }
  }

  /** Frame i has its bit set in the bitmap. */
  predicate Has(words: seq<uint32>, i: nat)
    requires i < 32 * |words|
  {
    Bit(words[i / 32], i % 32)
  }

  /** The frames below pages whose bit is set. */
  function Taken(words: seq<uint32>, pages: nat): (s: set<nat>)
    requires pages <= 32 * |words|
    ensures forall i: nat :: i in s <==> i < pages && Has(words, i)
  {
    set i: nat | i < pages && Has(words, i)
  }

  /** No bit beyond the last frame is set. */
  ghost predicate PaddingClear(words: seq<uint32>, pages: nat) {
    forall i :: pages <= i < 32 * |words| ==> !Has(words, i)
  }

  lemma TakenAfterSet(words: seq<uint32>, pages: nat, i: nat)
    requires pages <= 32 * |words| && i < pages
    requires PaddingClear(words, pages)
    ensures Or(words[i / 32], BitMask(i % 32)) < UINT32_LIMIT
    ensures var after := words[i / 32 := Or(words[i / 32], BitMask(i % 32))];
            Taken(after, pages) == Taken(words, pages) + {i} && PaddingClear(after, pages) && Has(after, i)
  {
    SetBit(words[i / 32], i % 32);
    var after := words[i / 32 := Or(words[i / 32], BitMask(i % 32))];
    forall j: nat | j < 32 * |words|
      ensures Has(after, j) <==> j == i || Has(words, j)
    {
    }
  }

  lemma TakenAfterClear(words: seq<uint32>, pages: nat, i: nat)
    requires pages <= 32 * |words| && i < pages
    requires PaddingClear(words, pages)
    ensures var after := words[i / 32 := And(words[i / 32], Not32(BitMask(i % 32)))];
            Taken(after, pages) == Taken(words, pages) - {i} && PaddingClear(after, pages) && !Has(after, i)
  {
    ClearBit(words[i / 32], i % 32);
    var after := words[i / 32 := And(words[i / 32], Not32(BitMask(i % 32)))];
    forall j: nat | j < 32 * |words|
      ensures Has(after, j) <==> j != i && Has(words, j)
    {
    }
  }

  /** The shortcut of the search: a word is skipped exactly when all its 32 frames are set. */
  lemma FullWord(words: seq<uint32>, w: nat)
    requires w < |words|
    ensures words[w] == UINT32_LIMIT - 1 <==> forall i :: 32 * w <= i < 32 * w + 32 ==> Has(words, i)
  {
    PowerConstants();
    AllOnes(words[w], 32);
    if words[w] == UINT32_LIMIT - 1 {
      forall i | 32 * w <= i < 32 * w + 32
        ensures Has(words, i)
      {
        assert i / 32 == w && i % 32 == i - 32 * w;
        BitOfMask(32, i - 32 * w);
      }
    } else {
      var j: nat :| j < 32 && !Bit(words[w], j);
      assert !Has(words, 32 * w + j);
    }
  }

  lemma NothingTaken(words: seq<uint32>, pages: nat)
    requires pages <= 32 * |words|
    requires forall w :: 0 <= w < |words| ==> words[w] == 0
    ensures Taken(words, pages) == {} && PaddingClear(words, pages)
  {
    forall i: nat | i < 32 * |words|
      ensures !Has(words, i)
    {
      BitOfZero(i % 32);
    }
  }
}
