/** Formatting a device and opening a formatted one (`EasyFileSystem::create` and `open`, easy-fs/src/efs.rs). */
module Mount {
  import opened Bits
  import opened Blocks
  import opened BlockCaches
  import opened Bitmaps
  import opened Layouts
  import opened Growth
  import opened FsState
  import opened Directory
  import opened Vfs
  import opened FileSystems
  import DiskFormat

  /** The layout arithmetic of `create`. */
  function PlanLayout(total: nat, inodeBitmapBlocks: nat): Geometry
    requires 1 + inodeBitmapBlocks + (inodeBitmapBlocks * 4096 * 128 + 511) / 512 <= total
  {
    var inodeAreaBlocks := (inodeBitmapBlocks * 4096 * 128 + 511) / 512;
    var dataTotal := total - 1 - (inodeBitmapBlocks + inodeAreaBlocks);
    var dataBitmapBlocks := (dataTotal + 4096) / 4097;
    Geometry(total, inodeBitmapBlocks, inodeAreaBlocks, dataBitmapBlocks, dataTotal - dataBitmapBlocks)
  }

  /** For every disk size the regions tile the disk and the data bitmap covers the data area. */
  lemma LayoutTiles(total: nat, inodeBitmapBlocks: nat)
    requires 1 + inodeBitmapBlocks + (inodeBitmapBlocks * 4096 * 128 + 511) / 512 <= total < WORD_LIMIT
             && inodeBitmapBlocks > 0
    ensures var g := PlanLayout(total, inodeBitmapBlocks);
            g.Ok() && g.total == total && g.inodeBitmapBlocks == inodeBitmapBlocks
  {
    assert inodeBitmapBlocks * 4096 * 128 + 511 == (inodeBitmapBlocks * 1024) * 512 + 511;
    ModUnique(inodeBitmapBlocks * 4096 * 128 + 511, 512, inodeBitmapBlocks * 1024, 511);
  }

  /** The data bitmap is the smallest that covers the rest of the disk. */
  lemma BitmapSmallest(total: nat, inodeBitmapBlocks: nat, blocks: nat)
    requires 1 + inodeBitmapBlocks + (inodeBitmapBlocks * 4096 * 128 + 511) / 512 <= total
    ensures var g := PlanLayout(total, inodeBitmapBlocks);
            && (g.dataBitmapBlocks > 0 ==> 4096 * (g.dataBitmapBlocks - 1) < g.dataAreaBlocks + 1)
            && (g.dataBitmapBlocks + g.dataAreaBlocks <= blocks + 4096 * blocks ==> g.dataBitmapBlocks <= blocks)
  {
    var g := PlanLayout(total, inodeBitmapBlocks);
    var rest := g.dataBitmapBlocks + g.dataAreaBlocks;
    assert rest + 4096 == 4097 * g.dataBitmapBlocks + (rest + 4096) % 4097;
  }

  lemma ZeroBits(k: nat)
    requires k < 4096
    ensures !BlockBit(ZeroBlock(), k)
  {
    ZeroBlockWords64(k / 64);
    BitOfZero(k % 64);
  }

  /** A zeroed disk with a super block is a file system without inodes. */
  lemma BlankFs(view: seq<Block>, g: Geometry)
    requires g.Ok() && g.total <= |view| && SuperOk(view, g)
    requires forall b | 0 < b < g.total :: view[b] == ZeroBlock()
    ensures FsOk(view, g, []) && Files(view, g, []) == []
  {
    hide BlockBit, ZeroBlock, SuperOk;
    forall k: nat | k < g.InodeBitmap().Maximum() ensures !g.InodeBitmap().IsSet(view, k) { ZeroBits(k % 4096); }
    forall k: nat | k < g.DataBitmap().Maximum() ensures !g.DataBitmap().IsSet(view, k) { ZeroBits(k % 4096); }
    assert Used([]) == {};
  }

  method ZeroDisk(dev: BlockCacheManager, total: nat)
    requires dev.Valid() && dev.held == {} && total <= |dev.view|
    modifies dev
    ensures dev.Valid() && dev.held == {} && |dev.view| == |old(dev.view)|
    ensures forall b | 0 <= b < total :: dev.view[b] == ZeroBlock()
  {
    hide Coherent, ZeroBlock;
    var i := 0;
    while i < total
      invariant i <= total && dev.Valid() && dev.held == {} && |dev.view| == |old(dev.view)|
      invariant forall b | 0 <= b < i :: dev.view[b] == ZeroBlock()
    {
      dev.Acquire(i);
      dev.Store(i, ZeroBlock());
      dev.Release(i);
      i := i + 1;
    }
  }

  /** `SuperBlock::initialize`. */
  method WriteSuper(dev: BlockCacheManager, g: Geometry)
    requires dev.Valid() && dev.held == {} && |dev.view| > 0 && g.Ok()
    modifies dev
    ensures dev.Valid() && dev.held == {} && |dev.view| == |old(dev.view)| && SuperOk(dev.view, g)
    ensures forall b | 0 < b < |dev.view| :: dev.view[b] == old(dev.view)[b]
  {
    hide Coherent, Poke, Entry;
    dev.Acquire(0);
    PokeWord(dev, 0, 0, EFS_MAGIC);
    PokeWord(dev, 0, 1, g.total);
    PokeWord(dev, 0, 2, g.inodeBitmapBlocks);
    PokeWord(dev, 0, 3, g.inodeAreaBlocks);
    PokeWord(dev, 0, 4, g.dataBitmapBlocks);
    PokeWord(dev, 0, 5, g.dataAreaBlocks);
    dev.Release(0);
  }

  /** Formatting, whatever the device held before, leaves an empty root directory. */
  method Format(dev: BlockCacheManager, total: nat, inodeBitmapBlocks: nat) returns (fs: FileSystem)
    requires dev.Valid() && dev.held == {} && total <= |dev.view| && inodeBitmapBlocks > 0
    requires 1 + inodeBitmapBlocks + (inodeBitmapBlocks * 4096 * 128 + 511) / 512 <= total < WORD_LIMIT
    modifies dev
    ensures fresh(fs) && fs.dev == dev && fs.g == PlanLayout(total, inodeBitmapBlocks)
    ensures fs.Valid() && fs.Abs() == FsAbs([], [])
    ensures DiskFormat.Pictured(dev.disk, [], [])
  {
    hide Coherent, ZeroBlock, SuperOk, FsOk, PlanLayout, Files, Entry, DiskFormat.Pictured;
    var g := PlanLayout(total, inodeBitmapBlocks);
    LayoutTiles(total, inodeBitmapBlocks);
    PlanTotal(total, inodeBitmapBlocks);
    ZeroDisk(dev, total);
    WriteSuper(dev, g);
    BlankFs(dev.view, g);
    ghost var none: seq<seq<nat>> := [];
    var root := NewInode(dev, g, 1, none);
    assert root == 0 && none + [[]] == [[]];
    dev.SyncAll();
    EmptyDirectory(dev.view, g);
    fs := new FileSystem(dev, g, [[]], []);
    fs.OnDevice();
  }

  lemma PlanTotal(total: nat, inodeBitmapBlocks: nat)
    requires 1 + inodeBitmapBlocks + (inodeBitmapBlocks * 4096 * 128 + 511) / 512 <= total
    ensures PlanLayout(total, inodeBitmapBlocks).total == total
            && PlanLayout(total, inodeBitmapBlocks).inodeBitmapBlocks == inodeBitmapBlocks
  {
  }

  lemma EmptyDirectory(view: seq<Block>, g: Geometry)
    requires Kind(view, g.Pos(0)) == 1 && Files(view, g, [[]])[0] == []
    ensures DirOk(view, g, [[]], [])
  {
    hide Files, Kind;
  }

  /** Opening a device whose blocks hold a file system finds its layout and its files again. */
  method Open(dev: BlockCacheManager, ghost g: Geometry, ghost owned: seq<seq<nat>>, ghost names: seq<Name>)
    returns (fs: FileSystem)
    requires dev.Valid() && dev.held == {} && dev.Synced() && FsOk(dev.view, g, owned)
             && DirOk(dev.view, g, owned, names)
    modifies dev
    ensures dev.view == old(dev.view) && fresh(fs) && fs.dev == dev && fs.g == g
    ensures fs.Valid() && fs.Abs() == FsAbs(names, Files(dev.view, g, owned)[1..])
  {
    hide Coherent, FsOk, DirOk, Files, Entry;
    SuperReadable(dev.view, g, owned);
    dev.Acquire(0);
    var magic := PeekWord(dev, 0, 0);
    assert magic == EFS_MAGIC;
    var total := PeekWord(dev, 0, 1);
    var inodeBitmapBlocks := PeekWord(dev, 0, 2);
    var inodeAreaBlocks := PeekWord(dev, 0, 3);
    var dataBitmapBlocks := PeekWord(dev, 0, 4);
    var dataAreaBlocks := PeekWord(dev, 0, 5);
    dev.Release(0);
    fs := new FileSystem(dev, Geometry(total, inodeBitmapBlocks, inodeAreaBlocks, dataBitmapBlocks, dataAreaBlocks),
                         owned, names);
  }

  lemma SuperReadable(view: seq<Block>, g: Geometry, owned: seq<seq<nat>>)
    requires FsOk(view, g, owned)
    ensures SuperOk(view, g) && |view| > 0
  {
  }
}
