/** The allocation bitmaps (easy-fs/src/bitmap.rs): consecutive blocks of 4096 bits, each block read as
    64 words of 64 bits. */
module Bitmaps {
  import opened Bits
  import opened Blocks
  import opened BlockCaches
  import opened Options

  const U64_MAX: nat := Pow2(64) - 1

  predicate BlockBit(b: Block, k: nat)
    requires k < 4096
  {
    Bit(Word64(b, k / 64), k % 64)
  }

  /** The bitmap block holding a bit, the word in that block, the bit in that word. */
  function Decomposition(bit: nat): (r: (nat, nat, nat))
    ensures r.1 < 64 && r.2 < 64
    ensures r.0 * 4096 + r.1 * 64 + r.2 == bit
  {
    var rest := bit % 4096;
    (bit / 4096, rest / 64, rest % 64)
  }

  lemma Recompose(block: nat, pos: nat, inner: nat)
    requires pos < 64 && inner < 64
    ensures var k := block * 4096 + pos * 64 + inner;
            k / 4096 == block && k % 4096 / 64 == pos && k % 4096 % 64 == inner && k % 4096 == pos * 64 + inner
  {
    ModUnique(block * 4096 + (pos * 64 + inner), 4096, block, pos * 64 + inner);
    ModUnique(pos * 64 + inner, 64, pos, inner);
  }

  /** `words[pos] |= 1 << inner`. */
  function MarkBit(b: Block, pos: nat, inner: nat): Block
    requires pos < 64 && inner < 64
  {
    WordOrBound(Word64(b, pos), inner);
    SetWord64(b, pos, Or(Word64(b, pos), Pow2(inner)))
  }

  lemma WordOrBound(w: nat, inner: nat)
    requires w < Pow2(64) && inner < 64
    ensures Or(w, Pow2(inner)) < Pow2(64)
  {
    Pow2Monotone(inner + 1, 64);
    OrBound(w, Pow2(inner), 64);
  }

  lemma MarkBitReads(b: Block, pos: nat, inner: nat)
    requires pos < 64 && inner < 64
    ensures forall j: nat | j < 4096 :: BlockBit(MarkBit(b, pos, inner), j) == (j == pos * 64 + inner || BlockBit(b, j))
  {
    hide Bit, Or, Word64, Pow2, SetWord64;
    var r := MarkBit(b, pos, inner);
    WordOrBound(Word64(b, pos), inner);
    forall j: nat | j < 4096 ensures BlockBit(r, j) == (j == pos * 64 + inner || BlockBit(b, j)) {
      OrIsBitwise(Word64(b, pos), Pow2(inner), j % 64);
      BitOfPow2(inner, j % 64);
    }
  }

  /** `words[pos] -= 1 << inner`, which the source guards with an assertion that the bit is set. */
  function ClearBit(b: Block, pos: nat, inner: nat): Block
    requires pos < 64 && inner < 64 && Bit(Word64(b, pos), inner)
  {
    SubPow2(Word64(b, pos), inner, 0);
    SetWord64(b, pos, Word64(b, pos) - Pow2(inner))
  }

  lemma ClearBitReads(b: Block, pos: nat, inner: nat)
    requires pos < 64 && inner < 64 && Bit(Word64(b, pos), inner)
    ensures forall j: nat | j < 4096 ::
            BlockBit(ClearBit(b, pos, inner), j) == (j != pos * 64 + inner && BlockBit(b, j))
  {
    hide Bit, Word64, Pow2, SetWord64;
    var r := ClearBit(b, pos, inner);
    SubPow2(Word64(b, pos), inner, 0);
    forall j: nat | j < 4096 ensures BlockBit(r, j) == (j != pos * 64 + inner && BlockBit(b, j)) {
      SubPow2(Word64(b, pos), inner, j % 64);
    }
  }

  lemma FullWord(w: nat, i: nat)
    requires w == U64_MAX && i < 64
    ensures Bit(w, i)
  {
    AllOnes(64, i);
  }

  /** The closure of `alloc` on one block: the first word that is not all ones, its lowest zero. */
  method FindFree(b: Block) returns (r: Option<(nat, nat)>)
    ensures r.Some? ==> r.value.0 < 64 && r.value.1 < 64
    ensures r.Some? ==> var k := r.value.0 * 64 + r.value.1; !BlockBit(b, k) && forall j | 0 <= j < k :: BlockBit(b, j)
    ensures r.None? ==> forall j | 0 <= j < 4096 :: BlockBit(b, j)
  {
    hide Bit, Word64, Pow2, TrailingOnes, U64_MAX;
    var pos := 0;
    while pos < 64 && Word64(b, pos) == U64_MAX
      invariant pos <= 64
      invariant forall j | 0 <= j < pos * 64 :: BlockBit(b, j)
    {
      forall j | pos * 64 <= j < (pos + 1) * 64 ensures BlockBit(b, j) { FullWord(Word64(b, pos), j % 64); }
      pos := pos + 1;
    }
    if pos == 64 { return None; }
    var inner := TrailingOnes(Word64(b, pos));
    LowestZero(b, pos);
    return Some((pos, inner));
  }

  lemma LowestZero(b: Block, pos: nat)
    requires pos < 64 && Word64(b, pos) != U64_MAX
    ensures TrailingOnes(Word64(b, pos)) < 64
    ensures !BlockBit(b, pos * 64 + TrailingOnes(Word64(b, pos)))
    ensures forall j | pos * 64 <= j < pos * 64 + TrailingOnes(Word64(b, pos)) :: BlockBit(b, j)
  {
    hide Bit, Word64, Pow2, TrailingOnes;
    TrailingOnesFits(Word64(b, pos), 64);
    TrailingOnesIsLowestZero(Word64(b, pos));
  }

  datatype Bitmap = Bitmap(start: nat, blocks: nat) {

    ghost predicate Fits(view: seq<Block>) {
      start + blocks <= |view|
    }

    function Maximum(): nat {
      blocks * 4096
    }

    ghost predicate IsSet(view: seq<Block>, k: nat)
      requires Fits(view) && k < Maximum()
    {
      BlockBit(view[start + k / 4096], k % 4096)
    }

    /** Bit `k` is now `to`; no other bit of the bitmap and no other block changed. */
    ghost predicate Changed(view: seq<Block>, view': seq<Block>, k: nat, to: bool)
      requires Fits(view) && k < Maximum()
    {
      && |view'| == |view|
      && (forall b | 0 <= b < |view| && b != start + k / 4096 :: view'[b] == view[b])
      && (forall j: nat | j < Maximum() :: IsSet(view', j) == (if j == k then to else IsSet(view, j)))
    }

    ghost predicate Free(held: set<nat>) {
      |held| < BLOCK_CACHE_SIZE && forall b | b in held :: b < start || start + blocks <= b
    }

    lemma MarkChanges(view: seq<Block>, k: nat)
      requires Fits(view) && k < Maximum()
      ensures Changed(view, view[start + k / 4096 := MarkBit(view[start + k / 4096], k % 4096 / 64, k % 4096 % 64)], k,
                      true)
    {
      hide BlockBit, MarkBit;
      MarkBitReads(view[start + k / 4096], k % 4096 / 64, k % 4096 % 64);
      OneBlockChanges(view, MarkBit(view[start + k / 4096], k % 4096 / 64, k % 4096 % 64), k, true);
    }

    lemma ClearChanges(view: seq<Block>, k: nat)
      requires Fits(view) && k < Maximum()
      requires Bit(Word64(view[start + k / 4096], k % 4096 / 64), k % 4096 % 64)
      ensures Changed(view, view[start + k / 4096 := ClearBit(view[start + k / 4096], k % 4096 / 64, k % 4096 % 64)],
                      k, false)
    {
      hide BlockBit, ClearBit;
      ClearBitReads(view[start + k / 4096], k % 4096 / 64, k % 4096 % 64);
      OneBlockChanges(view, ClearBit(view[start + k / 4096], k % 4096 / 64, k % 4096 % 64), k, false);
    }

    lemma OneBlockChanges(view: seq<Block>, b: Block, k: nat, to: bool)
      requires Fits(view) && k < Maximum()
      requires forall j: nat | j < 4096 ::
               BlockBit(b, j) == (if j == k % 4096 then to else BlockBit(view[start + k / 4096], j))
      ensures Changed(view, view[start + k / 4096 := b], k, to)
    {
      hide BlockBit;
      var view' := view[start + k / 4096 := b];
      forall j: nat | j < Maximum() ensures IsSet(view', j) == (if j == k then to else IsSet(view, j)) {
        if j / 4096 == k / 4096 {
          assert j % 4096 == k % 4096 <==> j == k;
        }
      }
    }

    /** First fit: the lowest clear bit is set and returned; nothing is returned only when none is clear. */
    method Alloc(dev: BlockCacheManager) returns (r: Option<nat>)
      requires dev.Valid() && Fits(dev.view) && Free(dev.held)
      modifies dev
      ensures dev.Valid() && dev.held == old(dev.held)
      ensures r.Some? ==> r.value < Maximum() && !IsSet(old(dev.view), r.value)
                          && Changed(old(dev.view), dev.view, r.value, true)
      ensures r.Some? ==> forall j | 0 <= j < r.value :: IsSet(old(dev.view), j)
      ensures r.None? ==> dev.view == old(dev.view) && forall j | 0 <= j < Maximum() :: IsSet(dev.view, j)
    {
      hide BlockBit, MarkBit, Coherent;
      var block := 0;
      while block < blocks
        invariant block <= blocks
        invariant dev.Valid() && dev.view == old(dev.view) && dev.held == old(dev.held)
        invariant forall j | 0 <= j < block * 4096 :: IsSet(dev.view, j)
      {
        dev.Acquire(start + block);
        var b := dev.Load(start + block);
        var found := FindFree(b);
        if found.Some? {
          var pos, inner := found.value.0, found.value.1;
          var k := block * 4096 + pos * 64 + inner;
          Recompose(block, pos, inner);
          MarkChanges(dev.view, k);
          dev.Store(start + block, MarkBit(b, pos, inner));
          dev.Release(start + block);
          return Some(k);
        }
        dev.Store(start + block, b);
        dev.Release(start + block);
        block := block + 1;
      }
      return None;
    }

    /** Clears a bit; the source asserts that it was set. */
    method Dealloc(dev: BlockCacheManager, bit: nat)
      requires dev.Valid() && Fits(dev.view) && Free(dev.held)
      requires bit < Maximum() && IsSet(dev.view, bit)
      modifies dev
      ensures dev.Valid() && dev.held == old(dev.held)
      ensures Changed(old(dev.view), dev.view, bit, false)
    {
      hide Coherent, ClearBit, And, Pow2;
      var (block, pos, inner) := Decomposition(bit);
      dev.Acquire(start + block);
      var b := dev.Load(start + block);
      AndPow2(Word64(b, pos), inner);
      assert And(Word64(b, pos), Pow2(inner)) > 0;
      ClearChanges(dev.view, bit);
      dev.Store(start + block, ClearBit(b, pos, inner));
      dev.Release(start + block);
    }

    /** Deallocating what was just allocated restores every bit. */
    lemma DeallocInvertsAlloc(v0: seq<Block>, v1: seq<Block>, v2: seq<Block>, k: nat)
      requires Fits(v0) && k < Maximum() && !IsSet(v0, k)
      requires Changed(v0, v1, k, true) && Changed(v1, v2, k, false)
      ensures forall j: nat | j < Maximum() :: IsSet(v2, j) == IsSet(v0, j)
      ensures forall b | 0 <= b < |v0| && b != start + k / 4096 :: v2[b] == v0[b]
    {
      hide BlockBit;
      forall j: nat | j < Maximum() ensures IsSet(v2, j) == IsSet(v0, j) {
        assert IsSet(v1, j) == (j == k || IsSet(v0, j));
      }
    }
  }
}
