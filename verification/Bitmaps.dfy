/** lib/bitmap.cc: a bitmap packed into 32-bit words.
    `Bits()` is the plain sequence of booleans the packed words stand for. */
module Bitmaps {
  import opened Bytes

  // ---------------------------------------------------------------------
  // One bit inside one word
  // ---------------------------------------------------------------------

  /** 1 << k */
  function Mask(k: bv5): bv32 {
    1 << k
  }

  function MarkBit(w: bv32, mask: bv32): bv32 {
    w | mask
  }

  function ClearBit(w: bv32, mask: bv32): bv32 {
    w & !mask
  }

  predicate TestBit(w: bv32, mask: bv32) {
    w & mask != 0
  }

  /** The mask of bit number `which`. */
  function BitMask(which: nat): bv32 {
    Mask((which % BITS_IN_WORD) as bv5)
  }

  lemma ShiftValue(k: nat)
    requires k < BITS_IN_WORD
    ensures (k as bv5) as nat == k
  {
  }

  lemma DistinctShifts(j: nat, k: nat)
    requires j < BITS_IN_WORD && k < BITS_IN_WORD && j != k
    ensures j as bv5 != k as bv5
  {
    ShiftValue(j);
    ShiftValue(k);
  }

  /** The masks are 1, 2, 4, ...: bit 0 of a word is its lowest. */
  lemma MasksDouble(k: bv5)
    ensures Mask(0) == 1
    ensures k < 31 ==> Mask(k + 1) == Mask(k) + Mask(k)
  {
  }

  lemma DisjointMasks(j: bv5, k: bv5)
    ensures Mask(j) != 0
    ensures j != k ==> Mask(j) != Mask(k) && Mask(j) & Mask(k) == 0
  {
  }

  lemma BitMasks(i: nat, j: nat)
    ensures BitMask(j) != 0
    ensures i % BITS_IN_WORD != j % BITS_IN_WORD ==> BitMask(i) != BitMask(j) && BitMask(i) & BitMask(j) == 0
  {
    if i % BITS_IN_WORD != j % BITS_IN_WORD {
      DistinctShifts(i % BITS_IN_WORD, j % BITS_IN_WORD);
    }
    DisjointMasks((i % BITS_IN_WORD) as bv5, (j % BITS_IN_WORD) as bv5);
    DisjointMasks((j % BITS_IN_WORD) as bv5, (i % BITS_IN_WORD) as bv5);
  }

  lemma MarkOther(w: bv32, m: bv32, n: bv32)
    requires m & n == 0
    ensures TestBit(MarkBit(w, m), n) == TestBit(w, n)
  {
  }

  lemma ClearOther(w: bv32, m: bv32, n: bv32)
    requires m & n == 0
    ensures TestBit(ClearBit(w, m), n) ==> TestBit(w, n)
  {
  }

  lemma ClearKeepsOther(w: bv32, m: bv32, n: bv32)
    requires m & n == 0
    ensures TestBit(w, n) ==> TestBit(ClearBit(w, m), n)
  {
  }

  lemma SameBit(w: bv32, m: bv32)
    requires m != 0
    ensures TestBit(MarkBit(w, m), m) && !TestBit(ClearBit(w, m), m)
  {
  }

  /** Setting or clearing the bit of mask `m` changes that bit and no other. */
  lemma MaskedBits(w: bv32, m: bv32, n: bv32)
    requires n != 0
    requires m == n || m & n == 0
    ensures TestBit(MarkBit(w, m), n) <==> m == n || TestBit(w, n)
    ensures TestBit(ClearBit(w, m), n) <==> m != n && TestBit(w, n)
  {
    if m == n {
      SameBit(w, m);
    } else {
      MarkOther(w, m, n);
      ClearOther(w, m, n);
      ClearKeepsOther(w, m, n);
    }
  }

  /** The bits that a sequence of words holds. */
  function BitsOfWords(ws: seq<bv32>, n: nat): (bits: seq<bool>)
    requires n <= BITS_IN_WORD * |ws|
    ensures |bits| == n
  {
    seq(n, i requires 0 <= i < n => TestBit(ws[i / BITS_IN_WORD], BitMask(i)))
  }

  lemma SetBitOfWords(ws: seq<bv32>, n: nat, which: nat, ws': seq<bv32>, value: bool)
    requires n <= BITS_IN_WORD * |ws| && which < n
    requires var k := which / BITS_IN_WORD;
             var s := BitMask(which);
             ws' == ws[k := if value then MarkBit(ws[k], s) else ClearBit(ws[k], s)]
    ensures BitsOfWords(ws', n) == BitsOfWords(ws, n)[which := value]
  {
    forall i | 0 <= i < n
      ensures BitsOfWords(ws', n)[i] == BitsOfWords(ws, n)[which := value][i]
    {
      if i / BITS_IN_WORD == which / BITS_IN_WORD {
        BitMasks(which, i);
        MaskedBits(ws[i / BITS_IN_WORD], BitMask(which), BitMask(i));
      }
    }
  }

  // ---------------------------------------------------------------------
  // What allocation means on the plain bits
  // ---------------------------------------------------------------------

  function CountClear(bits: seq<bool>): (n: nat)
    ensures n <= |bits|
  {
    if bits == [] then 0
    else CountClear(bits[..|bits| - 1]) + if bits[|bits| - 1] then 0 else 1
  }

  /** `s` is the lowest clear bit. */
  predicate LowestClear(bits: seq<bool>, s: int) {
    0 <= s < |bits| && !bits[s] && forall j | 0 <= j < s :: bits[j]
  }

  /** Taking the lowest clear bit once for each element of `ds` yields `ds` and leaves `bits'`. */
  predicate Allocates(bits: seq<bool>, ds: seq<int>, bits': seq<bool>)
    decreases |ds|
  {
    if ds == [] then bits' == bits
    else LowestClear(bits, ds[0]) && Allocates(bits[ds[0] := true], ds[1..], bits')
  }

  function ClearAll(bits: seq<bool>, ds: seq<int>): (bits': seq<bool>)
    requires forall i | 0 <= i < |ds| :: 0 <= ds[i] < |bits|
    ensures |bits'| == |bits|
    decreases |ds|
  {
    if ds == [] then bits else ClearAll(bits[ds[0] := false], ds[1..])
  }

  ghost predicate Distinct(ds: seq<int>) {
    forall i, j | 0 <= i < j < |ds| :: ds[i] != ds[j]
  }

  lemma {:induction false} CountClearUpdate(bits: seq<bool>, s: nat)
    requires s < |bits| && !bits[s]
    ensures CountClear(bits[s := true]) == CountClear(bits) - 1
  {
    var n := |bits| - 1;
    if s == n {
      assert bits[s := true][..n] == bits[..n];
    } else {
      CountClearUpdate(bits[..n], s);
      assert bits[s := true][..n] == bits[..n][s := true];
    }
  }

  lemma {:induction false} NoneClear(bits: seq<bool>)
    ensures CountClear(bits) == 0 <==> forall j | 0 <= j < |bits| :: bits[j]
  {
    if bits != [] {
      var n := |bits| - 1;
      NoneClear(bits[..n]);
      if forall j | 0 <= j < n + 1 :: bits[j] {
        assert forall j | 0 <= j < n :: bits[..n][j];
      }
      if CountClear(bits) == 0 {
        assert forall j | 0 <= j < n :: bits[..n][j] == bits[j];
      }
    }
  }

  /** The count is that of the numbers of clear bits. */
  lemma {:induction false} CountClearIs(bits: seq<bool>)
    ensures CountClear(bits) == |set j | 0 <= j < |bits| && !bits[j]|
  {
    if bits != [] {
      var n := |bits| - 1;
      CountClearIs(bits[..n]);
      var before, after := set j | 0 <= j < n && !bits[..n][j], set j | 0 <= j < n + 1 && !bits[j];
      assert after == before + if bits[n] then {} else {n};
    }
  }

  /** One more FindAndSet after a run of them. */
  lemma {:induction false} AllocatesOneMore(bits: seq<bool>, ds: seq<int>, bits': seq<bool>, s: int)
    requires Allocates(bits, ds, bits') && LowestClear(bits', s)
    ensures Allocates(bits, ds + [s], bits'[s := true])
    decreases |ds|
  {
    if ds == [] {
      assert [s][1..] == [];
    } else {
      AllocatesOneMore(bits[ds[0] := true], ds[1..], bits', s);
      assert (ds + [s])[1..] == ds[1..] + [s];
    }
  }

  /** A run of FindAndSet calls marks distinct bits that were clear, and no others. */
  lemma {:induction false} AllocatesMarks(bits: seq<bool>, ds: seq<int>, bits': seq<bool>)
    requires Allocates(bits, ds, bits')
    ensures |bits'| == |bits|
    ensures forall j | j in ds :: 0 <= j < |bits| && !bits[j]
    ensures forall j | 0 <= j < |bits| :: bits'[j] <==> bits[j] || j in ds
    ensures CountClear(bits') == CountClear(bits) - |ds|
    decreases |ds|
  {
    if ds != [] {
      AllocatesMarks(bits[ds[0] := true], ds[1..], bits');
      CountClearUpdate(bits, ds[0]);
      forall j ensures j in ds <==> j == ds[0] || j in ds[1..] {
        assert ds == [ds[0]] + ds[1..];
      }
    }
  }

  /** The bits taken come in increasing order, and every clear bit left over is above all of them. */
  lemma {:induction false} AllocatesLowest(bits: seq<bool>, ds: seq<int>, bits': seq<bool>)
    requires Allocates(bits, ds, bits')
    ensures |bits'| == |bits|
    ensures forall i, j | 0 <= i < j < |ds| :: ds[i] < ds[j]
    ensures forall d, j | d in ds && 0 <= j < |bits| && !bits'[j] :: d < j
    decreases |ds|
  {
    if ds != [] {
      var s, rest := ds[0], ds[1..];
      AllocatesLowest(bits[s := true], rest, bits');
      AllocatesMarks(bits, ds, bits');
      AllocatesMarks(bits[s := true], rest, bits');
      forall d | d in rest ensures s < d {
        assert !bits[s := true][d];
      }
      forall i, j | 0 <= i < j < |ds| ensures ds[i] < ds[j] {
        assert ds[j] == rest[j - 1];
        if i > 0 { assert ds[i] == rest[i - 1]; }
      }
      forall d, j | d in ds && 0 <= j < |bits| && !bits'[j] ensures d < j {
        assert d == s || d in rest;
      }
    }
  }

  lemma {:induction false} ClearAllMeaning(bits: seq<bool>, ds: seq<int>)
    requires forall i | 0 <= i < |ds| :: 0 <= ds[i] < |bits|
    ensures forall j | 0 <= j < |bits| :: ClearAll(bits, ds)[j] <==> bits[j] && j !in ds
    decreases |ds|
  {
    if ds != [] {
      var next := bits[ds[0] := false];
      ClearAllMeaning(next, ds[1..]);
      forall j | 0 <= j < |bits|
        ensures ClearAll(bits, ds)[j] <==> bits[j] && j !in ds
      {
        assert ds == [ds[0]] + ds[1..];
        assert j in ds <==> j == ds[0] || j in ds[1..];
      }
    }
  }

  /** Clearing distinct marked bits makes that many more bits clear. */
  lemma {:induction false} ClearAllCount(bits: seq<bool>, ds: seq<int>)
    requires forall i | 0 <= i < |ds| :: 0 <= ds[i] < |bits| && bits[ds[i]]
    requires Distinct(ds)
    ensures CountClear(ClearAll(bits, ds)) == CountClear(bits) + |ds|
    decreases |ds|
  {
    if ds != [] {
      var next := bits[ds[0] := false];
      assert next[ds[0] := true] == bits;
      CountClearUpdate(next, ds[0]);
      ClearAllCount(next, ds[1..]);
    }
  }

  /** Clearing what an allocation marked gives the old bits back. */
  lemma DeallocateInvertsAllocate(bits: seq<bool>, ds: seq<int>, bits': seq<bool>)
    requires Allocates(bits, ds, bits')
    ensures |bits'| == |bits| && forall i | 0 <= i < |ds| :: 0 <= ds[i] < |bits|
    ensures ClearAll(bits', ds) == bits
  {
    AllocatesMarks(bits, ds, bits');
    assert forall i | 0 <= i < |ds| :: ds[i] in ds;
    ClearAllMeaning(bits', ds);
  }

  // ---------------------------------------------------------------------
  // The class
  // ---------------------------------------------------------------------

  class Bitmap {
    const numBits: nat
    const numWords: nat
    const words: array<bv32>

    ghost predicate Valid() {
      && numBits > 0
      && numWords == DivRoundUp(numBits, BITS_IN_WORD)
      && words.Length == numWords
    }

    ghost function Bits(): (bits: seq<bool>)
      requires Valid()
      reads words
      ensures |bits| == numBits
    {
      BitsOfWords(words[..], numBits)
    }

    constructor (numItems: nat)
      requires numItems > 0
      ensures Valid() && fresh(words) && numBits == numItems
      ensures Bits() == seq(numItems, _ => false)
    {
      numBits := numItems;
      numWords := DivRoundUp(numItems, BITS_IN_WORD);
      words := new bv32[DivRoundUp(numItems, BITS_IN_WORD)];
      new;
      for i := 0 to numWords
        invariant forall k | 0 <= k < i :: words[k] == 0
      {
        words[i] := 0;
      }
      for i := 0 to numBits
        invariant forall k | 0 <= k < numWords :: words[k] == 0
      {
        words[i / BITS_IN_WORD] := ClearBit(words[i / BITS_IN_WORD], BitMask(i));
      }
    }

    method Mark(which: int)
      requires Valid() && 0 <= which < numBits
      modifies words
      ensures Bits() == old(Bits())[which := true]
    {
      ghost var ws := words[..];
      words[which / BITS_IN_WORD] := MarkBit(words[which / BITS_IN_WORD], BitMask(which));
      SetBitOfWords(ws, numBits, which, words[..], true);
    }

    method Clear(which: int)
      requires Valid() && 0 <= which < numBits
      modifies words
      ensures Bits() == old(Bits())[which := false]
    {
      ghost var ws := words[..];
      words[which / BITS_IN_WORD] := ClearBit(words[which / BITS_IN_WORD], BitMask(which));
      SetBitOfWords(ws, numBits, which, words[..], false);
    }

    method Test(which: int) returns (b: bool)
      requires Valid() && 0 <= which < numBits
      ensures b == Bits()[which]
    {
      b := TestBit(words[which / BITS_IN_WORD], BitMask(which));
    }

    method FindAndSet() returns (r: int)
      requires Valid()
      modifies words
      ensures r == -1 ==> CountClear(old(Bits())) == 0 && Bits() == old(Bits())
      ensures r != -1 ==> LowestClear(old(Bits()), r) && Bits() == old(Bits())[r := true]
    {
      for i := 0 to numBits
        invariant Bits() == old(Bits())
        invariant forall j | 0 <= j < i :: Bits()[j]
      {
        var b := Test(i);
        if !b {
          Mark(i);
          return i;
        }
      }
      NoneClear(Bits());
      return -1;
    }

    method NumClear() returns (count: int)
      requires Valid()
      ensures count == CountClear(Bits())
    {
      hide BitsOfWords;
      hide DivRoundUp;
      count := 0;
      for i := 0 to numBits
        invariant count == CountClear(Bits()[..i])
      {
        var b := Test(i);
        assert Bits()[..i + 1][..i] == Bits()[..i];
        if !b {
          count := count + 1;
        }
      }
      assert Bits()[..numBits] == Bits();
    }
  }
}
