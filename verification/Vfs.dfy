/** The file system as its users see it (easy-fs/src/vfs.rs, easy-fs/src/efs.rs): a root directory of named
    byte strings, over the block cache. */
module Vfs {
  import opened Sequences
  import opened Blocks
  import opened BlockCaches
  import opened Bitmaps
  import opened Options
  import opened Layouts
  import opened Growth
  import opened FileData
  import opened FsState
  import opened Efs
  import opened Inodes

  // ---------------------------------------------------------------- a new inode

  /** From `v1` to `v2` the 32 words of the inode at `at` became `kind` and zeros; nothing else changed. */
  ghost predicate Initialized(v1: seq<Block>, v2: seq<Block>, at: InodePos, kind: nat) {
    && |v2| == |v1| && Kind(v2, at) == kind
       && (forall w: nat | at.base <= w < at.base + 31 :: Entry(v2, at.block, w) == 0)
    && (forall b | 0 <= b < |v1| && b != at.block :: v2[b] == v1[b])
    && (forall i: nat | i < at.base || at.base + 32 <= i :: Entry(v2, at.block, i) == Entry(v1, at.block, i))
  }

  /** `DiskInode::initialize`. */
  method InitInode(dev: BlockCacheManager, at: InodePos, kind: nat)
    requires dev.Valid() && InBlock(dev.view, at) && at.block !in dev.held && |dev.held| < BLOCK_CACHE_SIZE
             && kind < WORD_LIMIT
    modifies dev
    ensures dev.Valid() && dev.held == old(dev.held) && Initialized(old(dev.view), dev.view, at, kind)
  {
    hide Coherent, Poke, Entry;
    ghost var v1 := dev.view;
    dev.Acquire(at.block);
    PokeWord(dev, at.block, at.base + 31, kind);
    var i := 0;
    while i < 31
      invariant i <= 31 && dev.Valid() && dev.held == old(dev.held) + {at.block} && |dev.view| == |v1|
      invariant Kind(dev.view, at) == kind
                && forall w: nat | at.base <= w < at.base + i :: Entry(dev.view, at.block, w) == 0
      invariant forall b | 0 <= b < |v1| && b != at.block :: dev.view[b] == v1[b]
      invariant forall i: nat | i < at.base || at.base + 32 <= i ::
                Entry(dev.view, at.block, i) == Entry(v1, at.block, i)
    {
      PokeWord(dev, at.block, at.base + i, 0);
      i := i + 1;
    }
    dev.Release(at.block);
  }

  lemma NewInodeOthers(v0: seq<Block>, v1: seq<Block>, v2: seq<Block>, g: Geometry, owned: seq<seq<nat>>, kind: nat,
                       j: nat)
    requires FsOk(v0, g, owned) && |owned| < g.inodeBitmapBlocks * 4096 && j < |owned|
    requires g.InodeBitmap().Changed(v0, v1, |owned|, true) && Initialized(v1, v2, g.Pos(|owned|), kind)
    ensures InodeOk(v2, g.Pos(j), owned[j]) && Kind(v2, g.Pos(j)) == Kind(v0, g.Pos(j))
    ensures Content(v2, owned[j], Size(v2, g.Pos(j))) == Content(v0, owned[j], Size(v0, g.Pos(j)))
  {
    hide InodeOk, InodeBits, DataBits, SuperOk, FreeZero, Word, Content, BlockBit;
    g.PosInArea(j);
    g.PosInArea(|owned|);
    if g.Pos(j).block == g.Pos(|owned|).block { g.PosDisjoint(j, |owned|); }
    forall i: nat | g.Pos(j).base <= i < g.Pos(j).base + 32
      ensures Entry(v2, g.Pos(j).block, i) == Entry(v0, g.Pos(j).block, i) {
      assert v1[g.Pos(j).block] == v0[g.Pos(j).block];
    }
    InodeKept(v0, v2, g.Pos(j), owned[j]);
  }

  lemma NewInodeBits(v0: seq<Block>, v1: seq<Block>, v2: seq<Block>, g: Geometry, owned: seq<seq<nat>>, kind: nat)
    requires FsOk(v0, g, owned) && |owned| < g.inodeBitmapBlocks * 4096
    requires g.InodeBitmap().Changed(v0, v1, |owned|, true) && Initialized(v1, v2, g.Pos(|owned|), kind)
    ensures |v2| == |v0| && InodeBits(v2, g, |owned| + 1) && DataBits(v2, g, Used(owned)) && SuperOk(v2, g)
            && FreeZero(v2, g, Used(owned))
  {
    hide InodesOk, DataBits, BlockBit, Word, OwnedOk, ZeroBlock;
    g.PosInArea(|owned|);
    forall i: nat | i < g.InodeBitmap().Maximum() ensures g.InodeBitmap().IsSet(v2, i) == (i < |owned| + 1) {
      assert g.InodeBitmap().IsSet(v0, i) == (i < |owned|);
      assert v2[1 + i / 4096] == v1[1 + i / 4096];
      assert g.InodeBitmap().IsSet(v2, i) == g.InodeBitmap().IsSet(v1, i);
    }
    assert forall b | 0 <= b < |v0| && (b == 0 || b >= g.DataBitmap().start) :: v2[b] == v0[b];
    DataBitsFrame(v0, v2, g, Used(owned));
  }

  lemma UsedWithEmpty(owned: seq<seq<nat>>)
    ensures Used(owned + [[]]) == Used(owned)
  {
    var owned' := owned + [[]];
    forall b | b in Used(owned) ensures b in Used(owned') {
      var i, p :| 0 <= i < |owned| && 0 <= p < |owned[i]| && owned[i][p] == b;
      assert owned'[i][p] == b;
    }
    forall b | b in Used(owned') ensures b in Used(owned) {
      var i, p :| 0 <= i < |owned'| && 0 <= p < |owned'[i]| && owned'[i][p] == b;
      assert owned[i][p] == b;
    }
  }

  lemma FreshFields(view: seq<Block>, at: InodePos)
    requires forall w: nat | at.base <= w < at.base + 31 :: Entry(view, at.block, w) == 0
    ensures Size(view, at) == 0 && Unfilled(view, at, [], 0)
  {
    hide Entry;
    assert SubCount(0) == 0;
    forall k: nat | k < 28 ensures Direct(view, at, k) == 0 { assert Entry(view, at.block, at.base + 1 + k) == 0; }
    assert Indirect1(view, at) == 0 && Indirect2(view, at) == 0;
  }

  /** A fresh inode adds an empty file and changes no other. */
  lemma NewInodeFs(v0: seq<Block>, v1: seq<Block>, v2: seq<Block>, g: Geometry, owned: seq<seq<nat>>, kind: nat)
    requires FsOk(v0, g, owned) && |owned| < g.inodeBitmapBlocks * 4096
    requires g.InodeBitmap().Changed(v0, v1, |owned|, true) && Initialized(v1, v2, g.Pos(|owned|), kind)
    ensures FsOk(v2, g, owned + [[]]) && Files(v2, g, owned + [[]]) == Files(v0, g, owned) + [[]]
    ensures forall j | 0 <= j < |owned| :: Kind(v2, g.Pos(j)) == Kind(v0, g.Pos(j))
  {
    hide InodeOk, DataBits, InodeBits, SuperOk, FreeZero, Content, Entry, BlockBit;
    var owned' := owned + [[]];
    NewInodeBits(v0, v1, v2, g, owned, kind);
    UsedWithEmpty(owned);
    FreshFields(v2, g.Pos(|owned|));
    EmptyInode(v2, g.Pos(|owned|));
    forall j | 0 <= j < |owned|
      ensures InodeOk(v2, g.Pos(j), owned[j]) && Kind(v2, g.Pos(j)) == Kind(v0, g.Pos(j))
      ensures Content(v2, owned[j], Size(v2, g.Pos(j))) == Content(v0, owned[j], Size(v0, g.Pos(j)))
    {
      NewInodeOthers(v0, v1, v2, g, owned, kind, j);
    }
  }

  /** `alloc_inode` and the initialization of what it returned: inodes are numbered in order of creation. */
  method NewInode(dev: BlockCacheManager, g: Geometry, kind: nat, ghost owned: seq<seq<nat>>) returns (id: nat)
    requires dev.Valid() && dev.held == {} && FsOk(dev.view, g, owned) && |owned| < g.inodeBitmapBlocks * 4096
             && kind < WORD_LIMIT
    modifies dev
    ensures dev.Valid() && dev.held == {} && id == |owned|
    ensures FsOk(dev.view, g, owned + [[]]) && Files(dev.view, g, owned + [[]]) == Files(old(dev.view), g, owned) + [[]]
    ensures Kind(dev.view, g.Pos(id)) == kind
            && forall j | 0 <= j < |owned| :: Kind(dev.view, g.Pos(j)) == Kind(old(dev.view), g.Pos(j))
  {
    hide Coherent, Files, Entry, BlockBit;
    ghost var v0 := dev.view;
    var r := g.InodeBitmap().Alloc(dev);
    assert r.Some? && r.value == |owned| by { NextInode(v0, g, owned, r); }
    id := r.value;
    ghost var v1 := dev.view;
    g.PosInArea(id);
    InitInode(dev, g.Pos(id), kind);
    NewInodeFs(v0, v1, dev.view, g, owned, kind);
  }

  lemma NextInode(view: seq<Block>, g: Geometry, owned: seq<seq<nat>>, r: Option<nat>)
    requires FsOk(view, g, owned) && |owned| < g.inodeBitmapBlocks * 4096
    requires r.Some? ==> r.value < g.InodeBitmap().Maximum() && !g.InodeBitmap().IsSet(view, r.value)
                         && forall j | 0 <= j < r.value :: g.InodeBitmap().IsSet(view, j)
    requires r.None? ==> forall j | 0 <= j < g.InodeBitmap().Maximum() :: g.InodeBitmap().IsSet(view, j)
    ensures r == Some(|owned|)
  {
    hide BlockBit, InodesOk, DataBits, SuperOk, FreeZero, OwnedOk;
    assert !g.InodeBitmap().IsSet(view, |owned|);
    if r.Some? && r.value > |owned| { assert false; }
  }

  // ---------------------------------------------------------------- space

  /** Data and index blocks that files of these lengths occupy. */
  function BlocksInUse(files: seq<seq<byte>>): nat {
    if files == [] then 0 else BlocksInUse(files[..|files| - 1]) + TotalBlocks(|files[|files| - 1]|)
  }

  lemma {:induction false} BlocksInUseUpdate(files: seq<seq<byte>>, id: nat, c: seq<byte>)
    requires id < |files|
    ensures BlocksInUse(files[id := c]) + TotalBlocks(|files[id]|) == BlocksInUse(files) + TotalBlocks(|c|)
  {
    var k := |files| - 1;
    if id < k {
      assert files[id := c][..k] == files[..k][id := c];
      BlocksInUseUpdate(files[..k], id, c);
    } else {
      assert files[id := c][..k] == files[..k];
    }
  }

  /** The bitmap's ones can be counted from the files' lengths. */
  lemma {:induction false} UsedCount(g: Geometry, owned: seq<seq<nat>>, files: seq<seq<byte>>)
    requires OwnedOk(g, owned) && |files| == |owned|
    requires forall i | 0 <= i < |owned| :: |owned[i]| == TotalBlocks(|files[i]|)
    ensures |Used(owned)| == BlocksInUse(files)
  {
    hide TotalBlocks, OwnedOk, Used, Elements, NoRepeats;
    if owned != [] {
      var k := |owned| - 1;
      OwnedPrefix(g, owned);
      UsedCount(g, owned[..k], files[..k]);
      UsedSplit(owned);
      ElementCount(owned[k]);
    }
  }

  lemma OwnedPrefix(g: Geometry, owned: seq<seq<nat>>)
    requires OwnedOk(g, owned) && owned != []
    ensures OwnedOk(g, owned[..|owned| - 1]) && NoRepeats(owned[|owned| - 1])
    ensures Used(owned[..|owned| - 1]) !! Elements(owned[|owned| - 1])
  {
    var k := |owned| - 1;
    var init := owned[..k];
    forall b | b in Used(init) ensures b !in Elements(owned[k]) {
      var i, p :| 0 <= i < |init| && 0 <= p < |init[i]| && init[i][p] == b;
      assert owned[i][p] == b;
    }
    assert OwnedOk(g, init) by {
      assert forall i | 0 <= i < k :: init[i] == owned[i];
    }
  }

  lemma UsedSplit(owned: seq<seq<nat>>)
    requires owned != []
    ensures Used(owned) == Used(owned[..|owned| - 1]) + Elements(owned[|owned| - 1])
  {
    var k := |owned| - 1;
    var init := owned[..k];
    forall b | b in Used(owned) ensures b in Used(init) + Elements(owned[k]) {
      var i, p :| 0 <= i < |owned| && 0 <= p < |owned[i]| && owned[i][p] == b;
      if i < k { assert init[i][p] == b; }
    }
    forall b | b in Used(init) ensures b in Used(owned) {
      var i, p :| 0 <= i < |init| && 0 <= p < |init[i]| && init[i][p] == b;
      assert owned[i][p] == b;
    }
    forall b | b in Elements(owned[k]) ensures b in Used(owned) {
      var p :| 0 <= p < |owned[k]| && owned[k][p] == b;
    }
  }

  lemma {:induction false} ElementCount(s: seq<nat>)
    requires NoRepeats(s)
    ensures |Elements(s)| == |s|
  {
    if s != [] {
      var k := |s| - 1;
      ElementCount(s[..k]);
      assert Elements(s) == Elements(s[..k]) + {s[k]} by { assert s == s[..k] + [s[k]]; }
    }
  }

  /** The invariant's lists are as long as the files demand, so free space is known from the files alone. */
  lemma SpaceFromFiles(view: seq<Block>, g: Geometry, owned: seq<seq<nat>>, id: nat, c: seq<byte>)
    requires FsOk(view, g, owned) && id < |owned| && |c| <= MAX_BLOCKS * 512
    requires BlocksInUse(Files(view, g, owned)[id := c]) <= g.dataAreaBlocks
    ensures Affordable(g, owned, id, |c|)
  {
    hide InodeBits, DataBits, SuperOk, FreeZero, Total, Indexed, Entry;
    var files := Files(view, g, owned);
    forall i | 0 <= i < |owned|
      ensures |owned[i]| == TotalBlocks(|files[i]|) { assert InodeOk(view, g.Pos(i), owned[i]); }
    UsedCount(g, owned, files);
    BlocksInUseUpdate(files, id, c);
  }
}
