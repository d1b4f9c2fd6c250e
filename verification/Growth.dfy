/** `DiskInode::increase_size` and `DiskInode::clear_size` (easy-fs/src/layout.rs). */
module Growth {
  import opened Blocks
  import opened BlockCaches
  import opened Layouts

  /** Writing one field of the inode touches nothing but that inode. */
  lemma FieldOnly(view: seq<Block>, at: InodePos, L: seq<nat>, field: nat, v: nat)
    requires InBlock(view, at) && field < 31 && v < WORD_LIMIT
    ensures OnlyIndex(view, Poke(view, at.block, at.base + field, v), at, L)
  {
    hide Entry, Poke, IsIndexPos;
  }

  /** Writing one word of an index block touches nothing else. */
  lemma IndexOnly(view: seq<Block>, at: InodePos, L: seq<nat>, p: nat, i: nat, v: nat)
    requires Separate(view, at, L) && p < |L| && IsIndexPos(p) && i < 128 && v < WORD_LIMIT
    ensures OnlyIndex(view, Poke(view, L[p], i, v), at, L)
  {
    hide Entry, Poke, IsIndexPos;
  }

  lemma SizeKeepsIndexed(view: seq<Block>, at: InodePos, L: seq<nat>, n: nat, size: nat)
    requires Separate(view, at, L) && Indexed(view, at, L, n) && size < WORD_LIMIT
    ensures var v := Poke(view, at.block, at.base, size);
            Indexed(v, at, L, n) && Separate(v, at, L) && Size(v, at) == size
  {
    hide Entry, Poke, IsIndexPos, DataPos;
    var v := Poke(view, at.block, at.base, size);
    assert Indirect1(v, at) == Indirect1(view, at);
    assert Indirect2(v, at) == Indirect2(view, at);
    SameLookup(view, v, at, L, n);
  }

  lemma SameLookup(view: seq<Block>, v: seq<Block>, at: InodePos, L: seq<nat>, n: nat)
    requires Separate(view, at, L) && Indexed(view, at, L, n)
    requires forall k | 0 <= k < n && k < 28 :: Direct(v, at, k) == Direct(view, at, k)
    requires n > 28 ==> Indirect1(v, at) == Indirect1(view, at)
    requires n > 156 ==> Indirect2(v, at) == Indirect2(view, at)
    requires n > 28 ==> forall i: nat | i < n - 28 :: Entry(v, L[28], i) == Entry(view, L[28], i)
    requires n > 156 ==> forall i: nat | i < SubCount(n) :: Entry(v, L[157], i) == Entry(view, L[157], i)
    requires forall a, i: nat | 0 <= a < SubCount(n) && 156 + 128 * a + i < n ::
             SubPos(a) < |L| && Entry(v, L[SubPos(a)], i) == Entry(view, L[SubPos(a)], i)
    ensures Indexed(v, at, L, n)
  {
    hide Entry, IsIndexPos, DataPos;
    forall k | 0 <= k < n ensures BlockId(v, at, k) == BlockId(view, at, k) {
      if k >= 156 {
        var a, i := (k - 156) / 128, (k - 156) % 128;
        assert a < SubCount(n) && 156 + 128 * a + i == k;
      }
    }
  }

  lemma DirectStep(view: seq<Block>, at: InodePos, L: seq<nat>, c: nat)
    requires Separate(view, at, L) && Indexed(view, at, L, c) && c < 28 && c < |L|
    ensures var v := Poke(view, at.block, at.base + 1 + c, L[c]);
            Indexed(v, at, L, c + 1) && Size(v, at) == Size(view, at)
  {
    hide Entry, Poke, IsIndexPos;
  }

  lemma Indirect1Set(view: seq<Block>, at: InodePos, L: seq<nat>)
    requires Separate(view, at, L) && Indexed(view, at, L, 28) && 28 < |L|
    ensures var v := Poke(view, at.block, at.base + 29, L[28]);
            Indexed(v, at, L, 28) && Indirect1(v, at) == L[28] && Size(v, at) == Size(view, at)
  {
    hide Entry, Poke, IsIndexPos, DataPos;
    SameLookup(view, Poke(view, at.block, at.base + 29, L[28]), at, L, 28);
  }

  lemma Indirect1Step(view: seq<Block>, at: InodePos, L: seq<nat>, c: nat)
    requires Separate(view, at, L) && Indexed(view, at, L, c) && 28 <= c < 156 && c + 1 < |L|
    requires Indirect1(view, at) == L[28]
    ensures var v := Poke(view, L[28], c - 28, L[c + 1]);
            Indexed(v, at, L, c + 1) && Indirect1(v, at) == L[28] && Size(v, at) == Size(view, at)
  {
    hide Entry, Poke, IsIndexPos;
  }

  lemma Indirect2Set(view: seq<Block>, at: InodePos, L: seq<nat>)
    requires Separate(view, at, L) && Indexed(view, at, L, 156) && 157 < |L|
    ensures var v := Poke(view, at.block, at.base + 30, L[157]);
            Indexed(v, at, L, 156) && Indirect2(v, at) == L[157] && Size(v, at) == Size(view, at)
  {
    hide Entry, Poke, IsIndexPos, DataPos;
    SameLookup(view, Poke(view, at.block, at.base + 30, L[157]), at, L, 156);
  }

  lemma SubSet(view: seq<Block>, at: InodePos, L: seq<nat>, a: nat)
    requires Separate(view, at, L) && Indexed(view, at, L, 156 + 128 * a) && a < 128 && SubPos(a) < |L|
    requires Indirect2(view, at) == L[157]
    ensures var v := Poke(view, L[157], a, L[SubPos(a)]);
            Indexed(v, at, L, 156 + 128 * a) && Indirect2(v, at) == L[157] && Entry(v, L[157], a) == L[SubPos(a)]
            && Size(v, at) == Size(view, at)
  {
    hide Entry, Poke, IsIndexPos, DataPos;
    SameLookup(view, Poke(view, L[157], a, L[SubPos(a)]), at, L, 156 + 128 * a);
  }

  lemma SubStep(view: seq<Block>, at: InodePos, L: seq<nat>, a: nat, b: nat)
    requires Separate(view, at, L) && Indexed(view, at, L, 156 + 128 * a + b) && a < 128 && b < 128
    requires DataPos(156 + 128 * a + b) < |L| && SubPos(a) < |L|
    requires Indirect2(view, at) == L[157] && Entry(view, L[157], a) == L[SubPos(a)]
    ensures var v := Poke(view, L[SubPos(a)], b, L[DataPos(156 + 128 * a + b)]);
            Indexed(v, at, L, 156 + 128 * a + b + 1) && Indirect2(v, at) == L[157]
                && Entry(v, L[157], a) == L[SubPos(a)]
            && Size(v, at) == Size(view, at)
  {
    hide Entry, Poke, IsIndexPos, DataPos;
    var c := 156 + 128 * a + b;
    var v := Poke(view, L[SubPos(a)], b, L[DataPos(c)]);
    SameLookup(view, v, at, L, c);
    assert (c - 156) / 128 == a && (c - 156) % 128 == b;
    assert BlockId(v, at, c) == L[DataPos(c)];
    assert SubCount(c + 1) == a + 1;
    TotalSteps(c);
  }

  // ---------------------------------------------------------------- increase_size

  /** `c` data blocks of the list are recorded; since `v0` only index structure changed. */
  ghost predicate Grown(v0: seq<Block>, view: seq<Block>, at: InodePos, L: seq<nat>, c: nat, size: nat) {
    Separate(view, at, L) && Indexed(view, at, L, c) && OnlyIndex(v0, view, at, L) && Size(view, at) == size
  }

  lemma GrowField(v0: seq<Block>, view: seq<Block>, at: InodePos, L: seq<nat>, c: nat, size: nat, field: nat, v: nat,
                  c': nat)
    requires Grown(v0, view, at, L, c, size) && field < 31 && v < WORD_LIMIT
    requires Indexed(Poke(view, at.block, at.base + field, v), at, L, c')
    requires Size(Poke(view, at.block, at.base + field, v), at) == size
    ensures Grown(v0, Poke(view, at.block, at.base + field, v), at, L, c', size)
  {
    hide Entry, Poke, Indexed, OnlyIndex;
    FieldOnly(view, at, L, field, v);
    OnlyIndexTransitive(v0, view, Poke(view, at.block, at.base + field, v), at, L);
  }

  lemma GrowIndex(v0: seq<Block>, view: seq<Block>, at: InodePos, L: seq<nat>, c: nat, size: nat, p: nat, i: nat,
                  v: nat, c': nat)
    requires Grown(v0, view, at, L, c, size) && p < |L| && IsIndexPos(p) && i < 128 && v < WORD_LIMIT
    requires Indexed(Poke(view, L[p], i, v), at, L, c') && Size(Poke(view, L[p], i, v), at) == size
    ensures Grown(v0, Poke(view, L[p], i, v), at, L, c', size)
  {
    hide Entry, Poke, Indexed, OnlyIndex, IsIndexPos;
    IndexOnly(view, at, L, p, i, v);
    OnlyIndexTransitive(v0, view, Poke(view, L[p], i, v), at, L);
  }

  /** Since `v0`, the words of the index that are for data blocks from `c` on have not been written. */
  ghost predicate Later(v0: seq<Block>, view: seq<Block>, at: InodePos, L: seq<nat>, c: nat) {
    && (forall k: nat | c <= k < 28 :: Direct(view, at, k) == Direct(v0, at, k))
    && (28 < |L| ==> forall i: nat | c <= 28 + i < 156 :: Entry(view, L[28], i) == Entry(v0, L[28], i))
    && (157 < |L| ==> forall a: nat | a < 128 && c <= 156 + 128 * a :: Entry(view, L[157], a) == Entry(v0, L[157], a))
    && (forall a: nat, i: nat | SubPos(a) < |L| && i < 128 && c <= 156 + 128 * a + i ::
          Entry(view, L[SubPos(a)], i) == Entry(v0, L[SubPos(a)], i))
  }

  lemma LaterField(v0: seq<Block>, view: seq<Block>, at: InodePos, L: seq<nat>, c: nat, field: nat, v: nat, c': nat)
    requires Separate(view, at, L) && Later(v0, view, at, L, c) && field < 31 && v < WORD_LIMIT && c <= c'
    requires 1 <= field < 29 ==> field - 1 < c'
    ensures Later(v0, Poke(view, at.block, at.base + field, v), at, L, c')
  {
    hide Entry, Poke;
  }

  lemma LaterWeaker(v0: seq<Block>, view: seq<Block>, at: InodePos, L: seq<nat>, c: nat, c': nat)
    requires Later(v0, view, at, L, c) && c <= c'
    ensures Later(v0, view, at, L, c')
  {
    hide Entry;
  }

  lemma LaterIndex(v0: seq<Block>, view: seq<Block>, at: InodePos, L: seq<nat>, c: nat, p: nat, i: nat, v: nat, c': nat)
    requires Separate(view, at, L) && Later(v0, view, at, L, c) && p < |L| && i < 128 && v < WORD_LIMIT && c <= c'
    requires p == 28 || p == 157 || exists a :: p == SubPos(a)
    requires (p == 28 ==> 28 + i < c') && (p == 157 ==> 156 + 128 * i < c')
    requires forall a: nat | p == SubPos(a) :: 156 + 128 * a + i < c'
    ensures Later(v0, Poke(view, L[p], i, v), at, L, c')
  {
    hide Entry, Poke;
  }

  /** None of the listed blocks is locked, and two more locks are to be had. */
  ghost predicate Unlocked(held: set<nat>, L: seq<nat>) {
    |held| + 2 < BLOCK_CACHE_SIZE && forall p | 0 <= p < |L| :: L[p] !in held
  }

  method PokeWord(dev: BlockCacheManager, b: nat, i: nat, v: nat)
    requires dev.Valid() && b in dev.held && i < 128 && v < WORD_LIMIT
    modifies dev
    ensures dev.Valid() && dev.held == old(dev.held)
    ensures b < |old(dev.view)| && dev.view == Poke(old(dev.view), b, i, v)
  {
    hide Coherent, SetWord, Entry;
    var block := dev.Load(b);
    dev.Store(b, SetWord(block, i, v));
  }

  method PeekWord(dev: BlockCacheManager, b: nat, i: nat) returns (v: nat)
    requires dev.Valid() && b in dev.held && i < 128
    ensures v == Entry(dev.view, b, i) && v < WORD_LIMIT
  {
    hide Coherent, Word;
    var block := dev.Load(b);
    v := Word(block, i);
  }

  /** The first loop of `increase_size`. */
  method FillDirect(dev: BlockCacheManager, at: InodePos, blocks: seq<nat>, from: nat, total: nat,
                    ghost L0: seq<nat>, ghost v0: seq<Block>, ghost size: nat)
    returns (current: nat, it: nat)
    requires dev.Valid() && at.block in dev.held && from <= total
    requires |L0| == Total(from) && |L0| + |blocks| == Total(total)
    requires Grown(v0, dev.view, at, L0 + blocks, from, size) && Later(v0, dev.view, at, L0 + blocks, from)
    modifies dev
    ensures dev.Valid() && dev.held == old(dev.held)
    ensures current == if from >= 28 then from else if total < 28 then total else 28
    ensures |L0| + it == Total(current) && Grown(v0, dev.view, at, L0 + blocks, current, size)
    ensures Later(v0, dev.view, at, L0 + blocks, current)
    ensures Indirect1(dev.view, at) == Indirect1(old(dev.view), at)
            && Indirect2(dev.view, at) == Indirect2(old(dev.view), at)
  {
    hide Coherent, Poke, Entry, Indexed, OnlyIndex, IsIndexPos, Later;
    current, it := from, 0;
    while current < total && current < 28
      invariant from <= current <= total && (current == from || current <= 28)
      invariant dev.Valid() && dev.held == old(dev.held)
      invariant |L0| + it == Total(current) && Grown(v0, dev.view, at, L0 + blocks, current, size)
      invariant Later(v0, dev.view, at, L0 + blocks, current)
      invariant Indirect1(dev.view, at) == Indirect1(old(dev.view), at)
                && Indirect2(dev.view, at) == Indirect2(old(dev.view), at)
    {
      assert blocks[it] == (L0 + blocks)[current];
      DirectStep(dev.view, at, L0 + blocks, current);
      LaterField(v0, dev.view, at, L0 + blocks, current, 1 + current, blocks[it], current + 1);
      GrowField(v0, dev.view, at, L0 + blocks, current, size, 1 + current, blocks[it], current + 1);
      PokeWord(dev, at.block, at.base + (1 + current), blocks[it]);
      current, it := current + 1, it + 1;
    }
  }

  /** The single-indirect part: allocate the index block if this growth enters it, then fill it. */
  method FillIndirect1(dev: BlockCacheManager, at: InodePos, blocks: seq<nat>, from: nat, it0: nat, total: nat,
                       ghost L0: seq<nat>, ghost v0: seq<Block>, ghost size: nat)
    returns (current: nat, it: nat)
    requires dev.Valid() && at.block in dev.held && 28 <= from <= total && 28 < total
    requires |L0| + it0 == Total(from) && |L0| + |blocks| == Total(total)
    requires Grown(v0, dev.view, at, L0 + blocks, from, size) && Unlocked(dev.held, L0 + blocks)
    requires Later(v0, dev.view, at, L0 + blocks, from)
    modifies dev
    ensures dev.Valid() && dev.held == old(dev.held)
    ensures current == if from >= 156 then from else if total < 156 then total else 156
    ensures |L0| + it == Total(current) && Grown(v0, dev.view, at, L0 + blocks, current, size)
    ensures Later(v0, dev.view, at, L0 + blocks, current) && Indirect2(dev.view, at) == Indirect2(old(dev.view), at)
  {
    hide Coherent, Poke, Entry, Indexed, OnlyIndex, IsIndexPos, Later;
    ghost var L := L0 + blocks;
    current, it := from, it0;
    TotalMonotone(29, total);
    if current == 28 {
      assert blocks[it] == L[28];
      Indirect1Set(dev.view, at, L);
      GrowField(v0, dev.view, at, L, 28, size, 29, blocks[it], 28);
      LaterField(v0, dev.view, at, L, 28, 29, blocks[it], 28);
      PokeWord(dev, at.block, at.base + 29, blocks[it]);
      it := it + 1;
    } else {
      Indirect1Known(dev.view, at, L, current);
    }
    var index := PeekWord(dev, at.block, at.base + 29);
    dev.Acquire(index);
    while current < total && current < 156
      invariant from <= current <= total && (current == from || current <= 156)
      invariant dev.Valid() && dev.held == old(dev.held) + {index} && index == L[28] == Indirect1(dev.view, at)
      invariant |L0| + it == (if current == 28 then 29 else Total(current))
      invariant Grown(v0, dev.view, at, L, current, size)
      invariant Later(v0, dev.view, at, L, current) && Indirect2(dev.view, at) == Indirect2(old(dev.view), at)
    {
      TotalSteps(current);
      TotalMonotone(current + 1, total);
      assert blocks[it] == L[current + 1];
      Indirect1Step(dev.view, at, L, current);
      GrowIndex(v0, dev.view, at, L, current, size, 28, current - 28, blocks[it], current + 1) by { IndexPositions(0); }
      LaterIndex(v0, dev.view, at, L, current, 28, current - 28, blocks[it], current + 1);
      PokeWord(dev, index, current - 28, blocks[it]);
      current, it := current + 1, it + 1;
    }
    dev.Release(index);
  }

  lemma Indirect1Known(view: seq<Block>, at: InodePos, L: seq<nat>, c: nat)
    requires Indexed(view, at, L, c) && c > 28
    ensures 28 < |L| && Indirect1(view, at) == L[28]
  {
  }

  lemma Indirect2Known(view: seq<Block>, at: InodePos, L: seq<nat>, c: nat)
    requires Indexed(view, at, L, c) && c > 156
    ensures 157 < |L| && Indirect2(view, at) == L[157]
    ensures forall a | 0 <= a < SubCount(c) :: SubPos(a) < |L| && Entry(view, L[157], a) == L[SubPos(a)]
  {
  }

  /** The double-indirect part, walking from entry (a0, b0) to (a1, b1). */
  method FillIndirect2(dev: BlockCacheManager, at: InodePos, blocks: seq<nat>, from: nat, it0: nat, total: nat,
                       ghost L0: seq<nat>, ghost v0: seq<Block>, ghost size: nat)
    requires dev.Valid() && at.block in dev.held && 156 <= from <= total && 156 < total <= MAX_BLOCKS
    requires |L0| + it0 == Total(from) && |L0| + |blocks| == Total(total)
    requires Grown(v0, dev.view, at, L0 + blocks, from, size) && Unlocked(dev.held, L0 + blocks)
    requires Later(v0, dev.view, at, L0 + blocks, from)
    modifies dev
    ensures dev.Valid() && dev.held == old(dev.held)
    ensures Grown(v0, dev.view, at, L0 + blocks, total, size) && Later(v0, dev.view, at, L0 + blocks, total)
  {
    hide Coherent, Poke, Entry, Indexed, OnlyIndex, IsIndexPos, Total, DataPos, Later;
    ghost var L := L0 + blocks;
    var it: nat := it0;
    TotalSteps(156);
    TotalMonotone(157, total);
    if from == 156 {
      assert blocks[it] == L[157];
      Indirect2Set(dev.view, at, L);
      GrowField(v0, dev.view, at, L, 156, size, 30, blocks[it], 156);
      LaterField(v0, dev.view, at, L, 156, 30, blocks[it], 156);
      PokeWord(dev, at.block, at.base + 30, blocks[it]);
      it := it + 1;
    } else {
      Indirect2Known(dev.view, at, L, from);
    }
    var a0: nat, b0: nat := (from - 156) / 128, (from - 156) % 128;
    var a1, b1 := (total - 156) / 128, (total - 156) % 128;
    assert total == 156 + 128 * a1 + b1 && from == 156 + 128 * a0 + b0;
    var index := PeekWord(dev, at.block, at.base + 30);
    dev.Acquire(index);
    while a0 < a1 || (a0 == a1 && b0 < b1)
      invariant b0 < 128 && from <= 156 + 128 * a0 + b0 <= total
      invariant dev.Valid() && dev.held == old(dev.held) + {index} && index == L[157] == Indirect2(dev.view, at)
      invariant |L0| + it == (if 156 + 128 * a0 + b0 == 156 then 158 else Total(156 + 128 * a0 + b0))
      invariant Grown(v0, dev.view, at, L, 156 + 128 * a0 + b0, size) && Later(v0, dev.view, at, L, 156 + 128 * a0 + b0)
      decreases a1 - a0, 128 - b0
    {
      it := FillEntry(dev, at, blocks, a0, b0, it, total, index, L0, v0, size);
      b0 := b0 + 1;
      if b0 == 128 {
        b0, a0 := 0, a0 + 1;
      }
    }
    dev.Release(index);
  }

  /** One turn of that loop: a new second-level block when `b` is 0, then the data block. */
  method FillEntry(dev: BlockCacheManager, at: InodePos, blocks: seq<nat>, a: nat, b: nat, it0: nat, ghost total: nat,
                   index: nat,
                   ghost L0: seq<nat>, ghost v0: seq<Block>, ghost size: nat)
    returns (it: nat)
    requires b < 128 && 156 + 128 * a + b < total <= MAX_BLOCKS
    requires |L0| + |blocks| == Total(total)
    requires dev.Valid() && index in dev.held && |L0| + |blocks| > 157
             && index == (L0 + blocks)[157] == Indirect2(dev.view, at)
    requires |L0| + it0 == (if 156 + 128 * a + b == 156 then 158 else Total(156 + 128 * a + b))
    requires Grown(v0, dev.view, at, L0 + blocks, 156 + 128 * a + b, size)
             && Later(v0, dev.view, at, L0 + blocks, 156 + 128 * a + b)
    requires |dev.held| < BLOCK_CACHE_SIZE
             && forall p | 0 <= p < |L0 + blocks| && p != 157 :: (L0 + blocks)[p] !in dev.held
    modifies dev
    ensures dev.Valid() && dev.held == old(dev.held) && index == Indirect2(dev.view, at)
    ensures |L0| + it == Total(156 + 128 * a + b + 1)
    ensures Grown(v0, dev.view, at, L0 + blocks, 156 + 128 * a + b + 1, size)
    ensures Later(v0, dev.view, at, L0 + blocks, 156 + 128 * a + b + 1)
  {
    hide Coherent, Poke, Entry, Indexed, OnlyIndex, IsIndexPos, Total, DataPos, Later;
    ghost var L := L0 + blocks;
    ghost var c := 156 + 128 * a + b;
    assert (c - 156) / 128 == a && (c - 156) % 128 == b;
    TotalSteps(c);
    TotalMonotone(c + 1, total);
    IndexPositions(a);
    it := it0;
    if b == 0 {
      assert blocks[it] == L[SubPos(a)];
      SubSet(dev.view, at, L, a);
      GrowIndex(v0, dev.view, at, L, c, size, 157, a, blocks[it], c);
      LaterIndex(v0, dev.view, at, L, c, 157, a, blocks[it], c + 1);
      PokeWord(dev, index, a, blocks[it]);
      it := it + 1;
    } else {
      Indirect2Known(dev.view, at, L, c);
      LaterWeaker(v0, dev.view, at, L, c, c + 1);
    }
    var sub := PeekWord(dev, index, a);
    dev.Acquire(sub);
    assert blocks[it] == L[DataPos(c)];
    SubStep(dev.view, at, L, a, b);
    GrowIndex(v0, dev.view, at, L, c, size, SubPos(a), b, blocks[it], c + 1);
    LaterIndex(v0, dev.view, at, L, c + 1, SubPos(a), b, blocks[it], c + 1);
    PokeWord(dev, sub, b, blocks[it]);
    it := it + 1;
    dev.Release(sub);
  }

  lemma IndexPositions(a: nat)
    ensures IsIndexPos(28) && IsIndexPos(157) && IsIndexPos(SubPos(a))
  {
  }

  /** Growth is append-only: given exactly the blocks the larger size needs, the inode afterwards lists its
      old blocks followed by the new ones, in order. */
  method IncreaseSize(dev: BlockCacheManager, at: InodePos, newSize: nat, blocks: seq<nat>, ghost L0: seq<nat>)
    requires dev.Valid() && at.block in dev.held && Separate(dev.view, at, L0 + blocks)
             && Unlocked(dev.held, L0 + blocks)
    requires Size(dev.view, at) <= newSize && DataBlocks(newSize) <= MAX_BLOCKS
    requires |L0| == TotalBlocks(Size(dev.view, at)) && |L0| + |blocks| == TotalBlocks(newSize)
    requires Indexed(dev.view, at, L0, DataBlocks(Size(dev.view, at)))
    modifies dev
    ensures dev.Valid() && dev.held == old(dev.held)
    ensures Separate(dev.view, at, L0 + blocks) && Indexed(dev.view, at, L0 + blocks, DataBlocks(newSize))
    ensures Size(dev.view, at) == newSize
    ensures OnlyIndex(old(dev.view), dev.view, at, L0 + blocks)
    ensures Later(old(dev.view), dev.view, at, L0 + blocks, DataBlocks(newSize))
    ensures DataBlocks(newSize) <= 28 ==> Indirect1(dev.view, at) == Indirect1(old(dev.view), at)
    ensures DataBlocks(newSize) <= 156 ==> Indirect2(dev.view, at) == Indirect2(old(dev.view), at)
  {
    hide Coherent, Poke, Entry, Indexed, OnlyIndex, IsIndexPos, Total, Later;
    ghost var v0, L := dev.view, L0 + blocks;
    var size := PeekWord(dev, at.block, at.base);
    var current, total := DataBlocks(size), DataBlocks(newSize);
    IndexedExtends(v0, at, L0, blocks, current);
    SizeKeepsIndexed(v0, at, L, current, newSize);
    FieldOnly(v0, at, L, 0, newSize);
    LaterStart(v0, at, L, current);
    LaterField(v0, v0, at, L, current, 0, newSize, current);
    PokeWord(dev, at.block, at.base, newSize);
    var it;
    current, it := FillDirect(dev, at, blocks, current, total, L0, v0, newSize);
    if total <= 28 { return; }
    current, it := FillIndirect1(dev, at, blocks, current, it, total, L0, v0, newSize);
    if total <= 156 { return; }
    FillIndirect2(dev, at, blocks, current, it, total, L0, v0, newSize);
  }

  lemma LaterStart(view: seq<Block>, at: InodePos, L: seq<nat>, c: nat)
    ensures Later(view, view, at, L, c)
  {
    hide Entry;
  }

  lemma IndexedExtends(view: seq<Block>, at: InodePos, L: seq<nat>, more: seq<nat>, n: nat)
    requires Indexed(view, at, L, n)
    ensures Indexed(view, at, L + more, n)
  {
    hide Entry, DataPos;
  }

  // ---------------------------------------------------------------- clear_size

  /** Since `v0` only the inode's own fields changed, and not yet the two indirect ones. */
  ghost predicate Clearing(v0: seq<Block>, view: seq<Block>, at: InodePos) {
    && OnlyIndex(v0, view, at, [])
    && Size(view, at) == 0
  }

  lemma ClearField(v0: seq<Block>, view: seq<Block>, at: InodePos, field: nat)
    requires InBlock(view, at) && Clearing(v0, view, at) && field < 31
    ensures Clearing(v0, Poke(view, at.block, at.base + field, 0), at)
  {
    hide Entry, Poke, OnlyIndex;
    FieldOnly(view, at, [], field, 0);
    OnlyIndexTransitive(v0, view, Poke(view, at.block, at.base + field, 0), at, []);
  }

  lemma ClearStart(view: seq<Block>, at: InodePos)
    requires InBlock(view, at)
    ensures Clearing(view, Poke(view, at.block, at.base, 0), at)
  {
    hide Entry, Poke, OnlyIndex;
    FieldOnly(view, at, [], 0, 0);
  }

  /** Index blocks read as they did when clearing began. */
  lemma SameIndexBlock(v0: seq<Block>, view: seq<Block>, at: InodePos, b: nat)
    requires Clearing(v0, view, at) && b != at.block
    ensures forall i: nat :: Entry(view, b, i) == Entry(v0, b, i)
  {
    hide IsIndexPos, Word;
  }

  method CollectDirect(dev: BlockCacheManager, at: InodePos, n: nat, ghost L: seq<nat>, ghost v0: seq<Block>)
    returns (v: seq<nat>)
    requires dev.Valid() && at.block in dev.held && InBlock(dev.view, at)
    requires Indexed(v0, at, L, n) && Clearing(v0, dev.view, at)
    requires forall w: nat | w > at.base :: Entry(dev.view, at.block, w) == Entry(v0, at.block, w)
    modifies dev
    ensures dev.Valid() && dev.held == old(dev.held) && |dev.view| == |old(dev.view)|
    ensures Clearing(v0, dev.view, at) && Indirect1(dev.view, at) == Indirect1(v0, at)
            && Indirect2(dev.view, at) == Indirect2(v0, at)
    ensures v == L[..if n < 28 then n else 28]
    ensures forall k: nat | k < 28 :: Direct(dev.view, at, k) == if k < n then 0 else Direct(v0, at, k)
  {
    hide Coherent, Poke, Entry, OnlyIndex;
    v := [];
    var current := 0;
    while current < n && current < 28
      invariant current <= n && current <= 28
      invariant dev.Valid() && dev.held == old(dev.held) && |dev.view| == |old(dev.view)|
      invariant Clearing(v0, dev.view, at) && v == L[..current]
      invariant forall w: nat | w > at.base + current :: Entry(dev.view, at.block, w) == Entry(v0, at.block, w)
      invariant forall k: nat | k < current :: Direct(dev.view, at, k) == 0
    {
      var d := PeekWord(dev, at.block, at.base + (1 + current));
      assert d == Direct(v0, at, current) == BlockId(v0, at, current) == L[DataPos(current)];
      v := v + [d];
      ClearField(v0, dev.view, at, 1 + current);
      ghost var v1 := dev.view;
      PokeWord(dev, at.block, at.base + (1 + current), 0);
      assert forall k: nat | k < 28 :: Direct(dev.view, at, k) == if k == current then 0 else Direct(v1, at, k);
      current := current + 1;
    }
  }

  method CollectIndirect1(dev: BlockCacheManager, at: InodePos, n: nat, v1: seq<nat>, ghost L: seq<nat>,
                          ghost v0: seq<Block>)
    returns (v: seq<nat>)
    requires dev.Valid() && at.block in dev.held && Separate(dev.view, at, L) && Unlocked(dev.held, L) && n > 28
    requires Indexed(v0, at, L, n) && Clearing(v0, dev.view, at)
    requires Indirect1(dev.view, at) == Indirect1(v0, at) && Indirect2(dev.view, at) == Indirect2(v0, at)
    requires v1 == L[..28]
    modifies dev
    ensures dev.Valid() && dev.held == old(dev.held) && Separate(dev.view, at, L)
    ensures Clearing(v0, dev.view, at) && Indirect2(dev.view, at) == Indirect2(v0, at)
    ensures v == L[..if n < 156 then n + 1 else 157] && Indirect1(dev.view, at) == 0
    ensures forall k: nat | k < 28 :: Direct(dev.view, at, k) == Direct(old(dev.view), at, k)
  {
    hide Coherent, Poke, Entry, OnlyIndex;
    var index := PeekWord(dev, at.block, at.base + 29);
    v := v1 + [index];
    dev.Acquire(index);
    SameIndexBlock(v0, dev.view, at, index);
    var current := 28;
    while current < n && current < 156
      invariant 28 <= current <= n && current <= 156 && dev.Valid() && dev.view == old(dev.view)
                && dev.held == old(dev.held) + {index}
      invariant v == L[..current + 1]
    {
      var d := PeekWord(dev, index, current - 28);
      assert d == BlockId(v0, at, current) == L[DataPos(current)];
      v := v + [d];
      current := current + 1;
    }
    dev.Release(index);
    ClearField(v0, dev.view, at, 29);
    PokeWord(dev, at.block, at.base + 29, 0);
  }

  method CollectIndirect2(dev: BlockCacheManager, at: InodePos, n: nat, v1: seq<nat>, ghost L: seq<nat>,
                          ghost v0: seq<Block>)
    returns (v: seq<nat>)
    requires dev.Valid() && at.block in dev.held && Separate(dev.view, at, L) && Unlocked(dev.held, L)
             && 156 < n <= MAX_BLOCKS
    requires |L| == Total(n) && Indexed(v0, at, L, n) && Clearing(v0, dev.view, at)
    requires Indirect2(dev.view, at) == Indirect2(v0, at)
    requires v1 == L[..157]
    modifies dev
    ensures dev.Valid() && dev.held == old(dev.held) && Clearing(v0, dev.view, at)
    ensures v == L && Indirect1(dev.view, at) == Indirect1(old(dev.view), at) && Indirect2(dev.view, at) == 0
    ensures forall k: nat | k < 28 :: Direct(dev.view, at, k) == Direct(old(dev.view), at, k)
  {
    hide Coherent, Poke, Entry, OnlyIndex, Indexed;
    var index := PeekWord(dev, at.block, at.base + 30);
    Indirect2Known(v0, at, L, n);
    v := v1 + [index];
    var a1, b1 := (n - 156) / 128, (n - 156) % 128;
    assert n == 156 + 128 * a1 + b1;
    dev.Acquire(index);
    SameIndexBlock(v0, dev.view, at, index);
    var a := 0;
    while a < a1
      invariant a <= a1 && dev.Valid() && dev.view == old(dev.view) && dev.held == old(dev.held) + {index}
      invariant v == L[..158 + 129 * a]
    {
      v := CollectSub(dev, at, n, a, 128, index, v, L, v0);
      a := a + 1;
    }
    if b1 > 0 {
      v := CollectSub(dev, at, n, a1, b1, index, v, L, v0);
    }
    dev.Release(index);
    ClearField(v0, dev.view, at, 30);
    PokeWord(dev, at.block, at.base + 30, 0);
  }

  /** One second-level block: the block itself, then its first `count` entries. */
  method CollectSub(dev: BlockCacheManager, at: InodePos, ghost n: nat, a: nat, count: nat, index: nat, v1: seq<nat>,
                    ghost L: seq<nat>, ghost v0: seq<Block>)
    returns (v: seq<nat>)
    requires dev.Valid() && Separate(dev.view, at, L) && Clearing(v0, dev.view, at)
    requires 0 < count <= 128 && 156 + 128 * a + count <= n <= MAX_BLOCKS && Indexed(v0, at, L, n)
    requires |L| > 157 && index == L[157] && index in dev.held
    requires |dev.held| < BLOCK_CACHE_SIZE && forall p | 0 <= p < |L| && p != 157 :: L[p] !in dev.held
    requires |L| >= 158 + 129 * a && v1 == L[..158 + 129 * a]
    modifies dev
    ensures dev.Valid() && dev.held == old(dev.held) && dev.view == old(dev.view)
    ensures |L| >= 159 + 129 * a + count && v == L[..159 + 129 * a + count]
  {
    hide Coherent, Poke, Entry, OnlyIndex, Indexed;
    assert a < SubCount(n);
    SubPosInRange(a, n);
    Indirect2Known(v0, at, L, n);
    SameIndexBlock(v0, dev.view, at, index);
    var sub := PeekWord(dev, index, a);
    v := v1 + [sub];
    dev.Acquire(sub);
    SameIndexBlock(v0, dev.view, at, sub);
    var i := 0;
    while i < count
      invariant i <= count && dev.Valid() && dev.view == old(dev.view) && dev.held == old(dev.held) + {sub}
      invariant |L| >= 159 + 129 * a + i && v == L[..159 + 129 * a + i]
    {
      var d := PeekWord(dev, sub, i);
      SubEntry(v0, at, L, n, a, i);
      v := v + [d];
      i := i + 1;
    }
    dev.Release(sub);
  }

  lemma SubEntry(view: seq<Block>, at: InodePos, L: seq<nat>, n: nat, a: nat, i: nat)
    requires Indexed(view, at, L, n) && i < 128 && 156 + 128 * a + i < n
    ensures 157 < |L| && SubPos(a) + 1 + i < |L| && Entry(view, L[SubPos(a)], i) == L[SubPos(a) + 1 + i]
  {
    hide Entry;
    var k := 156 + 128 * a + i;
    assert (k - 156) / 128 == a && (k - 156) % 128 == i;
    assert BlockId(view, at, k) == L[DataPos(k)];
    assert a < SubCount(n);
  }

  /** With the direct entries in use cleared, all of them are zero; so are indirect fields that were not in use. */
  lemma AllCleared(v0: seq<Block>, view: seq<Block>, at: InodePos, L: seq<nat>, n: nat)
    requires Unfilled(v0, at, L, n) && Indirect1(view, at) == Indirect1(v0, at)
             && Indirect2(view, at) == Indirect2(v0, at)
    requires forall k: nat | k < 28 :: Direct(view, at, k) == if k < n then 0 else Direct(v0, at, k)
    ensures (forall k: nat | k < 28 :: Direct(view, at, k) == 0) && (n <= 28 ==> Indirect1(view, at) == 0)
            && (n <= 156 ==> Indirect2(view, at) == 0)
  {
    hide Entry;
  }

  lemma FieldsZero(view: seq<Block>, at: InodePos)
    requires (forall k: nat | k < 28 :: Direct(view, at, k) == 0) && Indirect1(view, at) == Indirect2(view, at) == 0
    ensures Unfilled(view, at, [], 0)
  {
    hide Entry;
  }

  /** Clearing returns exactly the list of blocks the inode owns, in order, and empties the inode. */
  method ClearSize(dev: BlockCacheManager, at: InodePos, ghost L: seq<nat>) returns (v: seq<nat>)
    requires dev.Valid() && at.block in dev.held && Separate(dev.view, at, L) && Unlocked(dev.held, L)
    requires DataBlocks(Size(dev.view, at)) <= MAX_BLOCKS && |L| == TotalBlocks(Size(dev.view, at))
    requires Indexed(dev.view, at, L, DataBlocks(Size(dev.view, at)))
             && Unfilled(dev.view, at, L, DataBlocks(Size(dev.view, at)))
    modifies dev
    ensures dev.Valid() && dev.held == old(dev.held)
    ensures v == L && Size(dev.view, at) == 0 && Unfilled(dev.view, at, [], 0)
    ensures OnlyIndex(old(dev.view), dev.view, at, [])
  {
    hide Coherent, Poke, Entry, OnlyIndex, Indexed, Unfilled;
    ghost var v0 := dev.view;
    var size := PeekWord(dev, at.block, at.base);
    var n := DataBlocks(size);
    ClearStart(dev.view, at);
    PokeWord(dev, at.block, at.base, 0);
    v := CollectDirect(dev, at, n, L, v0);
    AllCleared(v0, dev.view, at, L, n);
    if n <= 28 { FieldsZero(dev.view, at); return; }
    v := CollectIndirect1(dev, at, n, v, L, v0);
    if n <= 156 { FieldsZero(dev.view, at); return; }
    v := CollectIndirect2(dev, at, n, v, L, v0);
    FieldsZero(dev.view, at);
  }
}
