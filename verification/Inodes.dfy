/** Growing, writing, clearing and reading one inode of a well-formed image (easy-fs/src/vfs.rs). */
module Inodes {
  import opened Sequences
  import opened Blocks
  import opened BlockCaches
  import opened Layouts
  import opened Growth
  import opened FileData
  import opened FsState
  import opened Efs
  import opened Options

  /** What an inode's list offers to the index operations. */
  lemma ListReady(view: seq<Block>, g: Geometry, owned: seq<seq<nat>>, id: nat)
    requires FsOk(view, g, owned) && id < |owned|
    ensures InodeOk(view, g.Pos(id), owned[id]) && Separate(view, g.Pos(id), owned[id])
    ensures Unlocked({g.Pos(id).block}, owned[id]) && Within(owned[id], Elements(owned[id]))
    ensures Private(g, owned, id, Elements(owned[id])) && NoRepeats(owned[id])
    ensures g.InodeStart() <= g.Pos(id).block < g.DataBitmap().start && g.DataBitmap().Free({g.Pos(id).block})
  {
    hide InodeOk, InodeBits, DataBits, SuperOk, FreeZero;
    g.PosInArea(id);
  }

  /** New blocks from outside `Used` extend the list without clashes. */
  ghost predicate NewBlocks(g: Geometry, owned: seq<seq<nat>>, blocks: seq<nat>) {
    NoRepeats(blocks) && forall p | 0 <= p < |blocks| :: g.DataStart() <= blocks[p] < g.total
                                                         && blocks[p] !in Used(owned)
  }

  lemma LongerListReady(view: seq<Block>, g: Geometry, owned: seq<seq<nat>>, id: nat, blocks: seq<nat>)
    requires FsOk(view, g, owned) && id < |owned| && NewBlocks(g, owned, blocks)
    ensures var L := owned[id] + blocks;
            && Separate(view, g.Pos(id), L) && Unlocked({g.Pos(id).block}, L) && Private(g, owned, id, Elements(L))
               && NoRepeats(L)
            && Within(owned[id], Elements(L)) && Within(L, Elements(L))
  {
    hide InodeOk, InodeBits, DataBits, SuperOk, FreeZero;
    g.PosInArea(id);
    var L := owned[id] + blocks;
    forall j, p | 0 <= j < |owned| && 0 <= p < |owned[j]|
      ensures owned[j][p] !in blocks { assert owned[j][p] in Used(owned); }
  }

  lemma UsedAfterGrowth(owned: seq<seq<nat>>, id: nat, blocks: seq<nat>)
    requires id < |owned|
    ensures Used(owned[id := owned[id] + blocks]) == Used(owned) + Elements(blocks)
  {
    var owned' := owned[id := owned[id] + blocks];
    forall b | b in Used(owned) + Elements(blocks) ensures b in Used(owned') {
      if b in Used(owned) {
        var i, p :| 0 <= i < |owned| && 0 <= p < |owned[i]| && owned[i][p] == b;
        assert owned'[i][p] == b;
      } else {
        var p :| 0 <= p < |blocks| && blocks[p] == b;
        assert owned'[id][|owned[id]| + p] == b;
      }
    }
    forall b | b in Used(owned') ensures b in Used(owned) + Elements(blocks) {
      var i, p :| 0 <= i < |owned'| && 0 <= p < |owned'[i]| && owned'[i][p] == b;
      if i == id && p >= |owned[id]| { assert blocks[p - |owned[id]|] == b; } else { assert owned[i][p] == b; }
    }
  }

  /** Allocating data blocks changes nothing an inode depends on. */
  lemma InodeAfterAlloc(v0: seq<Block>, v1: seq<Block>, g: Geometry, owned: seq<seq<nat>>, id: nat)
    requires FsOk(v0, g, owned) && id < |owned| && OnlyDataBitmap(v0, v1, g)
    ensures InodeOk(v1, g.Pos(id), owned[id]) && Size(v1, g.Pos(id)) == Size(v0, g.Pos(id))
    ensures forall p | 0 <= p < |owned[id]| :: owned[id][p] < |v0| && v1[owned[id][p]] == v0[owned[id][p]]
  {
    hide InodeOk, InodeBits, DataBits, SuperOk, FreeZero, Word;
    g.PosInArea(id);
    InodeKept(v0, v1, g.Pos(id), owned[id]);
  }

  lemma NewBlocksZero(v0: seq<Block>, v1: seq<Block>, g: Geometry, owned: seq<seq<nat>>, blocks: seq<nat>)
    requires FsOk(v0, g, owned) && OnlyDataBitmap(v0, v1, g) && NewBlocks(g, owned, blocks)
    ensures forall p | 0 <= p < |blocks| :: blocks[p] < |v1| && v1[blocks[p]] == ZeroBlock()
  {
    hide InodesOk, InodeBits, DataBits, SuperOk, ZeroBlock, OwnedOk;
  }

  /** Index changes outside the data bitmap leave it as it is. */
  lemma GrowthTouches(v0: seq<Block>, v1: seq<Block>, v2: seq<Block>, g: Geometry, owned: seq<seq<nat>>, id: nat,
                      L: seq<nat>)
    requires FsOk(v0, g, owned) && id < |owned| && OnlyDataBitmap(v0, v1, g)
    requires OnlyIndex(v1, v2, g.Pos(id), L) && Private(g, owned, id, Elements(L))
    ensures Touches(v0, v2, g, id, Elements(L))
    ensures forall b | 0 <= b < |v1| && InDataBitmap(g, b) :: v2[b] == v1[b]
  {
    hide InodesOk, InodeBits, DataBits, SuperOk, ZeroBlock, OwnedOk, FreeZero, Word, IsIndexPos;
    g.PosInArea(id);
    var at := g.Pos(id);
    forall i: nat | i < at.base || at.base + 31 <= i ensures Entry(v2, at.block, i) == Entry(v0, at.block, i) {
      assert Entry(v1, at.block, i) == Entry(v0, at.block, i);
    }
    assert forall p | 0 <= p < |L| :: L[p] in Elements(L);
  }

  lemma GrownFs(v0: seq<Block>, v1: seq<Block>, v2: seq<Block>, g: Geometry, owned: seq<seq<nat>>, id: nat,
                blocks: seq<nat>, newSize: nat)
    requires FsOk(v0, g, owned) && id < |owned| && OnlyDataBitmap(v0, v1, g) && NewBlocks(g, owned, blocks)
    requires DataBits(v1, g, Used(owned) + Elements(blocks))
    requires Size(v0, g.Pos(id)) <= newSize && DataBlocks(newSize) <= MAX_BLOCKS
    requires var L := owned[id] + blocks;
             && Separate(v2, g.Pos(id), L) && Indexed(v2, g.Pos(id), L, DataBlocks(newSize))
                && |L| == TotalBlocks(newSize)
             && Size(v2, g.Pos(id)) == newSize && OnlyIndex(v1, v2, g.Pos(id), L)
                && Unfilled(v2, g.Pos(id), L, DataBlocks(newSize))
    ensures FsOk(v2, g, owned[id := owned[id] + blocks]) && SameKinds(v0, v2, g, |owned|)
    ensures Files(v2, g, owned[id := owned[id] + blocks]) ==
            Files(v0, g, owned)[id := Files(v0, g, owned)[id] + Zeros(newSize - |Files(v0, g, owned)[id]|)]
  {
    hide InodeOk, InodeBits, DataBits, SuperOk, ZeroBlock, OwnedOk, FreeZero, Indexed, Unfilled, OnlyIndex, Separate,
         Size, Zeros, Content;
    var at, L := g.Pos(id), owned[id] + blocks;
    LongerListReady(v0, g, owned, id, blocks);
    InodeAfterAlloc(v0, v1, g, owned, id);
    NewBlocksZero(v0, v1, g, owned, blocks);
    assert InodeOk(v0, at, owned[id]);
    GrownContent(v0, v1, v2, at, owned[id], blocks, Size(v0, at), newSize);
    GrowthTouches(v0, v1, v2, g, owned, id, L);
    UsedAfterGrowth(owned, id, blocks);
    DataBitsFrame(v1, v2, g, Used(owned) + Elements(blocks));
    OneInode(v0, v2, g, owned, id, L, Elements(L));
  }

  /** Free space for one growth, in terms of the files' sizes alone. */
  ghost predicate Affordable(g: Geometry, owned: seq<seq<nat>>, id: nat, newSize: nat)
    requires id < |owned|
  {
    DataBlocks(newSize) <= MAX_BLOCKS && |Used(owned)| + TotalBlocks(newSize) <= g.dataAreaBlocks + |owned[id]|
  }

  lemma RoomToGrow(view: seq<Block>, g: Geometry, owned: seq<seq<nat>>, id: nat, newSize: nat)
    requires FsOk(view, g, owned) && id < |owned| && Affordable(g, owned, id, newSize)
             && |owned[id]| <= TotalBlocks(newSize)
    ensures RoomFor(g, Used(owned), TotalBlocks(newSize) - |owned[id]|)
  {
    hide InodesOk, InodeBits, DataBits, SuperOk, FreeZero, DataArea;
    forall b | b in Used(owned) ensures b in DataArea(g) {
      var i, p :| 0 <= i < |owned| && 0 <= p < |owned[i]| && owned[i][p] == b;
    }
  }

  lemma MoreBytesMoreBlocks(a: nat, b: nat)
    requires a <= b
    ensures TotalBlocks(a) <= TotalBlocks(b)
  {
    TotalMonotone(DataBlocks(a), DataBlocks(b));
  }

  /** `Inode::increase_size`: grows the file to `newSize` with zeros, or leaves a longer file alone. */
  method GrowInode(dev: BlockCacheManager, g: Geometry, id: nat, newSize: nat, ghost owned: seq<seq<nat>>)
    returns (ghost owned': seq<seq<nat>>)
    requires dev.Valid() && FsOk(dev.view, g, owned) && id < |owned| && dev.held == {g.Pos(id).block}
    requires Affordable(g, owned, id, newSize)
    modifies dev
    ensures dev.Valid() && dev.held == old(dev.held) && FsOk(dev.view, g, owned')
            && SameKinds(old(dev.view), dev.view, g, |owned|)
    ensures |owned'| == |owned| && forall j | 0 <= j < |owned| && j != id :: owned'[j] == owned[j]
    ensures var f := Files(old(dev.view), g, owned);
            Files(dev.view, g, owned') == f[id := f[id] + Zeros(if newSize < |f[id]| then 0 else newSize - |f[id]|)]
    ensures Size(dev.view, g.Pos(id)) >= newSize && |dev.view| == |old(dev.view)|
  {
    hide Coherent, FsOk, Indexed, Unfilled, Later, OnlyIndex, Separate, DataBits, Total, Entry, Zeros, Content,
         OnlyDataBitmap, Files;
    ghost var v0 := dev.view;
    var at := g.Pos(id);
    FsBasics(v0, g, owned, id);
    ListReady(v0, g, owned, id);
    var size := PeekWord(dev, at.block, at.base);
    owned' := owned;
    if newSize < size {
      assert Files(v0, g, owned)[id] + Zeros(0) == Files(v0, g, owned)[id];
      return;
    }
    var needed := TotalBlocks(newSize) - TotalBlocks(size);
    MoreBytesMoreBlocks(size, newSize);
    RoomToGrow(v0, g, owned, id, newSize);
    var v := AllocBlocks(dev, g, needed, Used(owned));
    InodeAfterAlloc(v0, dev.view, g, owned, id);
    LongerListReady(v0, g, owned, id, v);
    ghost var v1 := dev.view;
    SeparateFrame(v0, v1, g, at, owned[id] + v);
    NewBlocksZero(v0, v1, g, owned, v);
    IncreaseSize(dev, at, newSize, v, owned[id]);
    GrownUnfilled(v1, dev.view, at, owned[id], v, DataBlocks(size), DataBlocks(newSize));
    GrownFs(v0, v1, dev.view, g, owned, id, v, newSize);
    SameLengths(v0, v1, dev.view, g, at, owned[id] + v);
    owned' := owned[id := owned[id] + v];
  }

  lemma SameLengths(v0: seq<Block>, v1: seq<Block>, v2: seq<Block>, g: Geometry, at: InodePos, L: seq<nat>)
    requires OnlyDataBitmap(v0, v1, g) && OnlyIndex(v1, v2, at, L)
    ensures |v2| == |v0|
  {
  }

  lemma FsBasics(view: seq<Block>, g: Geometry, owned: seq<seq<nat>>, id: nat)
    requires FsOk(view, g, owned) && id < |owned|
    ensures g.Ok() && g.total <= |view| && DataBits(view, g, Used(owned))
            && |Files(view, g, owned)[id]| == Size(view, g.Pos(id))
  {
  }

  lemma SeparateFrame(v0: seq<Block>, v1: seq<Block>, g: Geometry, at: InodePos, L: seq<nat>)
    requires Separate(v0, at, L) && OnlyDataBitmap(v0, v1, g)
    ensures Separate(v1, at, L)
  {
  }

  // ---------------------------------------------------------------- write_at and read_at on an inode

  lemma DataTouches(v0: seq<Block>, v1: seq<Block>, g: Geometry, owned: seq<seq<nat>>, id: nat, n: nat)
    requires FsOk(v0, g, owned) && id < |owned| && Total(n) <= |owned[id]| && OnlyData(v0, v1, owned[id], n)
    ensures Touches(v0, v1, g, id, Elements(owned[id])) && Size(v1, g.Pos(id)) == Size(v0, g.Pos(id))
    ensures forall b | 0 <= b < |v0| && InDataBitmap(g, b) :: v1[b] == v0[b]
  {
    hide InodesOk, InodeBits, DataBits, SuperOk, FreeZero, Word, DataPos, Total;
    g.PosInArea(id);
    forall k | 0 <= k < n ensures DataPos(k) < |owned[id]| { DataPosInRange(k, n); }
    forall b | 0 <= b < |v0| && b !in owned[id] ensures v1[b] == v0[b] {
    }
    ListReady(v0, g, owned, id);
  }

  lemma WrittenFs(v0: seq<Block>, v1: seq<Block>, g: Geometry, owned: seq<seq<nat>>, id: nat, offset: nat,
                  buf: seq<byte>)
    requires FsOk(v0, g, owned) && id < |owned| && offset + |buf| <= Size(v0, g.Pos(id))
    requires var n := DataBlocks(Size(v0, g.Pos(id)));
             && OnlyData(v0, v1, owned[id], n) && Indexed(v1, g.Pos(id), owned[id], n)
             && Content(v1, owned[id], 512 * n) == Splice(Content(v0, owned[id], 512 * n), offset, buf)
    ensures FsOk(v1, g, owned) && SameKinds(v0, v1, g, |owned|)
    ensures var f := Files(v0, g, owned);
            offset + |buf| <= |f[id]| && Files(v1, g, owned) == f[id := Splice(f[id], offset, buf)]
  {
    hide InodeOk, InodeBits, DataBits, SuperOk, ZeroBlock, OwnedOk, FreeZero, Indexed, Unfilled, OnlyData, Size,
         Content, Splice, Total;
    var at, L := g.Pos(id), owned[id];
    ListReady(v0, g, owned, id);
    ListLength(v0, at, L);
    DataTouches(v0, v1, g, owned, id, DataBlocks(Size(v0, at)));
    DataKeepsUnfilled(v0, v1, at, L, DataBlocks(Size(v0, at)));
    WrittenInode(v0, v1, at, L, offset, buf);
    assert owned[id := L] == owned;
    DataBitsFrame(v0, v1, g, Used(owned));
    OneInode(v0, v1, g, owned, id, L, Elements(L));
  }

  lemma ListLength(view: seq<Block>, at: InodePos, L: seq<nat>)
    requires InodeOk(view, at, L)
    ensures |L| == TotalBlocks(Size(view, at)) && DataBlocks(Size(view, at)) <= MAX_BLOCKS
    ensures Indexed(view, at, L, DataBlocks(Size(view, at))) && Unfilled(view, at, L, DataBlocks(Size(view, at)))
  {
    hide Indexed, Unfilled;
  }

  /** Data blocks are no index blocks. */
  lemma DataKeepsUnfilled(v0: seq<Block>, v1: seq<Block>, at: InodePos, L: seq<nat>, n: nat)
    requires Unfilled(v0, at, L, n) && Separate(v0, at, L) && Total(n) <= |L| && OnlyData(v0, v1, L, n)
    ensures Unfilled(v1, at, L, n)
  {
    hide Word, DataPos, Total, IsIndexPos, Unfilled;
    forall k | 0 <= k < n ensures DataPos(k) < |L| && !IsIndexPos(DataPos(k)) { DataPosInRange(k, n); }
    assert v1[at.block] == v0[at.block];
    forall p | 0 <= p < |L| && IsIndexPos(p) ensures v1[L[p]] == v0[L[p]] {
      forall k | 0 <= k < n ensures DataPos(k) < |L| && L[DataPos(k)] != L[p] { }
    }
    SameUnfilled(v0, v1, at, L, n);
  }

  /** The write would go through an index block that is not there: it is empty, lies at the end, and the end is where
      the next block needs an index block of its own. */
  predicate Astray(size: nat, offset: nat, buf: seq<byte>) {
    buf == [] && offset >= size && offset % 512 == 0 && NoBlock(offset / 512)
  }

  /** In a well-formed image, a write that stays within the size goes astray only there; and there it fails, unless the
      device is so large that it has a block numbered by the magic. */
  lemma WriteLands(view: seq<Block>, g: Geometry, owned: seq<seq<nat>>, id: nat, offset: nat, buf: seq<byte>)
    requires FsOk(view, g, owned) && id < |owned| && offset + |buf| <= Size(view, g.Pos(id))
    ensures var size := Size(view, g.Pos(id));
            var lands := offset < 512 * DataBlocks(size) || Lands(view, g.Pos(id), DataBlocks(size));
            && (!Astray(size, offset, buf) ==> lands)
            && (|view| <= EFS_MAGIC ==> (lands <==> !Astray(size, offset, buf)))
  {
    hide InodeOk, InodeBits, DataBits, FreeZero, OwnedOk, Lookup, Unfilled, Indexed, Separate, Word;
    var at, size := g.Pos(id), Size(view, g.Pos(id));
    ListReady(view, g, owned, id);
    ListLength(view, at, owned[id]);
    LandsPastEnd(view, at, owned[id], DataBlocks(size));
  }

  /** The smallest failure: in a file of 28 full blocks the empty write at the end is sent to the block numbered by the
      magic. In an empty file it is sent to block 0, which it leaves as it is. */
  lemma AstrayAtTheFirstIndexBlock(view: seq<Block>, g: Geometry, owned: seq<seq<nat>>, id: nat)
    requires FsOk(view, g, owned) && id < |owned|
    ensures Size(view, g.Pos(id)) == 14336 ==> Astray(14336, 14336, [])
                                               && Lookup(view, g.Pos(id), 28) == Some(EFS_MAGIC)
    ensures Size(view, g.Pos(id)) == 0 ==> !Astray(0, 0, []) && Lookup(view, g.Pos(id), 0) == Some(0)
  {
    hide InodeOk, InodeBits, DataBits, FreeZero, OwnedOk, Lookup, Unfilled, Indexed, Separate, Word;
    var at := g.Pos(id);
    ListReady(view, g, owned, id);
    ListLength(view, at, owned[id]);
    LookupPastEnd(view, at, owned[id], DataBlocks(Size(view, at)));
  }

  lemma DataSameLength(v0: seq<Block>, v1: seq<Block>, L: seq<nat>, n: nat)
    requires OnlyData(v0, v1, L, n)
    ensures |v1| == |v0|
  {
  }

  /** `DiskInode::write_at` within the size of a file. */
  method WriteInode(dev: BlockCacheManager, g: Geometry, id: nat, offset: nat, buf: seq<byte>,
                    ghost owned: seq<seq<nat>>)
    returns (ok: bool, written: nat)
    requires dev.Valid() && FsOk(dev.view, g, owned) && id < |owned| && dev.held == {g.Pos(id).block}
    requires offset + |buf| <= Size(dev.view, g.Pos(id))
    modifies dev
    ensures dev.Valid() && dev.held == old(dev.held) && FsOk(dev.view, g, owned)
            && SameKinds(old(dev.view), dev.view, g, |owned|)
    ensures !Astray(Size(old(dev.view), g.Pos(id)), offset, buf) ==> ok
    ensures |dev.view| <= EFS_MAGIC ==> (ok <==> !Astray(Size(old(dev.view), g.Pos(id)), offset, buf))
    ensures |dev.view| == |old(dev.view)| && (ok ==> written == |buf|)
    ensures var f := Files(old(dev.view), g, owned);
            offset + |buf| <= |f[id]| && (ok ==> Files(dev.view, g, owned) == f[id := Splice(f[id], offset, buf)])
  {
    hide Coherent, FsOk, InodeOk, Indexed, Unfilled, OnlyData, Separate, Total, Entry, Content, Splice, Files, Lands;
    ghost var v0 := dev.view;
    FsBasics(v0, g, owned, id);
    ListReady(v0, g, owned, id);
    ListLength(v0, g.Pos(id), owned[id]);
    WriteLands(v0, g, owned, id, offset, buf);
    ok, written := WriteAt(dev, g.Pos(id), offset, buf, owned[id]);
    assert ok ==> buf[..written] == buf;
    assert |dev.view| == |v0| by { DataSameLength(v0, dev.view, owned[id], DataBlocks(Size(v0, g.Pos(id)))); }
    WrittenFs(v0, dev.view, g, owned, id, offset, buf[..written]);
  }

  /** `DiskInode::read_at` delivers the window of the byte string. */
  method ReadInode(dev: BlockCacheManager, g: Geometry, id: nat, offset: nat, len: nat, ghost owned: seq<seq<nat>>)
    returns (data: seq<byte>)
    requires dev.Valid() && FsOk(dev.view, g, owned) && id < |owned| && dev.held == {g.Pos(id).block}
    modifies dev
    ensures dev.Valid() && dev.held == old(dev.held) && dev.view == old(dev.view)
            && (old(dev.Synced()) ==> dev.Synced())
    ensures data == Window(Files(dev.view, g, owned)[id], offset, len)
  {
    hide Coherent, FsOk, InodeOk, Indexed, Separate, Total, Entry, Content;
    ListReady(dev.view, g, owned, id);
    ListLength(dev.view, g.Pos(id), owned[id]);
    data := ReadAt(dev, g.Pos(id), offset, len, owned[id]);
  }

  // ---------------------------------------------------------------- clear

  /** Part of the way through deallocating the list: its first `i` blocks are zero and free. */
  ghost predicate Freed(v1: seq<Block>, view: seq<Block>, g: Geometry, L: seq<nat>, i: nat, used: set<nat>)
    requires i <= |L| && g.DataBitmap().Fits(view)
  {
    && |view| == |v1|
    && (forall b | 0 <= b < |v1| && !InDataBitmap(g, b) && b !in L :: view[b] == v1[b])
    && (forall p | 0 <= p < i :: L[p] < |view| && view[L[p]] == ZeroBlock())
    && DataBits(view, g, used - Elements(L[..i]))
  }

  lemma FreedNext(v1: seq<Block>, view: seq<Block>, view': seq<Block>, g: Geometry, L: seq<nat>, i: nat, used: set<nat>)
    requires g.Ok() && g.total <= |view| && i < |L| && NoRepeats(L) && Freed(v1, view, g, L, i, used)
    requires forall p | 0 <= p < |L| :: g.DataStart() <= L[p] < g.total
    requires OnlyDataBitmap(view[L[i] := ZeroBlock()], view', g) && DataBits(view', g, used - Elements(L[..i]) - {L[i]})
    ensures |view'| == |view| && Freed(v1, view', g, L, i + 1, used)
  {
    hide DataBits, ZeroBlock;
    assert L[..i + 1] == L[..i] + [L[i]];
    assert used - Elements(L[..i + 1]) == used - Elements(L[..i]) - {L[i]};
  }

  lemma FreedFirst(v1: seq<Block>, g: Geometry, L: seq<nat>, used: set<nat>)
    requires g.DataBitmap().Fits(v1) && DataBits(v1, g, used)
    ensures Freed(v1, v1, g, L, 0, used)
  {
    assert used - Elements(L[..0]) == used;
  }

  method DeallocAll(dev: BlockCacheManager, g: Geometry, blocks: seq<nat>, ghost used: set<nat>)
    requires dev.Valid() && g.Ok() && g.total <= |dev.view| && g.DataBitmap().Free(dev.held) && NoRepeats(blocks)
    requires DataBits(dev.view, g, used)
    requires forall p | 0 <= p < |blocks| :: g.DataStart() <= blocks[p] < g.total && blocks[p] in used
                                             && blocks[p] !in dev.held
    modifies dev
    ensures dev.Valid() && dev.held == old(dev.held) && |dev.view| == |old(dev.view)|
    ensures Freed(old(dev.view), dev.view, g, blocks, |blocks|, used)
  {
    hide Coherent, DataBits, Freed, OnlyDataBitmap, ZeroBlock, Elements;
    ghost var v1 := dev.view;
    FreedFirst(v1, g, blocks, used);
    var i := 0;
    while i < |blocks|
      invariant i <= |blocks| && dev.Valid() && dev.held == old(dev.held) && |dev.view| == |v1|
      invariant Freed(v1, dev.view, g, blocks, i, used)
    {
      ghost var v2 := dev.view;
      FreedBits(v1, v2, g, blocks, i, used);
      DeallocData(dev, g, blocks[i], used - Elements(blocks[..i]));
      FreedNext(v1, v2, dev.view, g, blocks, i, used);
      FreedBits(v1, dev.view, g, blocks, i + 1, used);
      i := i + 1;
    }
  }

  lemma FreedBits(v1: seq<Block>, view: seq<Block>, g: Geometry, L: seq<nat>, i: nat, used: set<nat>)
    requires i <= |L| && g.DataBitmap().Fits(view) && Freed(v1, view, g, L, i, used) && NoRepeats(L)
    ensures DataBits(view, g, used - Elements(L[..i])) && |view| == |v1|
    ensures i < |L| ==> L[i] !in Elements(L[..i])
  {
  }

  lemma UsedAfterClear(g: Geometry, owned: seq<seq<nat>>, id: nat)
    requires id < |owned| && OwnedOk(g, owned)
    ensures Used(owned[id := []]) == Used(owned) - Elements(owned[id])
  {
    var owned' := owned[id := []];
    forall b | b in Used(owned) - Elements(owned[id]) ensures b in Used(owned') {
      var i, p :| 0 <= i < |owned| && 0 <= p < |owned[i]| && owned[i][p] == b;
      assert owned'[i][p] == b;
    }
    forall b | b in Used(owned') ensures b in Used(owned) - Elements(owned[id]) {
      var i, p :| 0 <= i < |owned'| && 0 <= p < |owned'[i]| && owned'[i][p] == b;
      assert owned[i][p] == b;
    }
  }

  lemma ClearedFs(v0: seq<Block>, v1: seq<Block>, v2: seq<Block>, g: Geometry, owned: seq<seq<nat>>, id: nat)
    requires FsOk(v0, g, owned) && id < |owned| && g.DataBitmap().Fits(v2)
    requires OnlyIndex(v0, v1, g.Pos(id), []) && Size(v1, g.Pos(id)) == 0 && Unfilled(v1, g.Pos(id), [], 0)
    requires Freed(v1, v2, g, owned[id], |owned[id]|, Used(owned))
    ensures FsOk(v2, g, owned[id := []]) && SameKinds(v0, v2, g, |owned|)
    ensures Files(v2, g, owned[id := []]) == Files(v0, g, owned)[id := []]
  {
    hide InodesOk, InodeBits, DataBits, SuperOk, ZeroBlock, FreeZero, Word, IsIndexPos;
    var at, L := g.Pos(id), owned[id];
    ListReady(v0, g, owned, id);
    UsedAfterClear(g, owned, id);
    assert L[..|L|] == L;
    assert v2[at.block] == v1[at.block];
    assert Size(v2, at) == 0;
    assert Touches(v0, v2, g, id, Elements(L)) by { assert OnlyInode(v1, v2, at); }
    assert forall k: nat | k < 28 :: Direct(v2, at, k) == Direct(v1, at, k);
    EmptyInode(v2, at);
    OneInode(v0, v2, g, owned, id, [], Elements(L));
  }

  lemma EmptyInode(view: seq<Block>, at: InodePos)
    requires Size(view, at) == 0 && Unfilled(view, at, [], 0)
    ensures InodeOk(view, at, []) && Content(view, [], Size(view, at)) == []
  {
  }

  /** `Inode::clear`: the file becomes empty and its blocks, all of them, are free and zero. */
  method ClearInode(dev: BlockCacheManager, g: Geometry, id: nat, ghost owned: seq<seq<nat>>)
    requires dev.Valid() && FsOk(dev.view, g, owned) && id < |owned| && dev.held == {g.Pos(id).block}
    modifies dev
    ensures dev.Valid() && dev.held == old(dev.held) && FsOk(dev.view, g, owned[id := []])
            && SameKinds(old(dev.view), dev.view, g, |owned|)
    ensures Files(dev.view, g, owned[id := []]) == Files(old(dev.view), g, owned)[id := []]
  {
    hide Coherent, FsOk, InodeOk, Indexed, Unfilled, OnlyIndex, Separate, Total, Entry, DataBits, Freed, Files;
    ghost var v0 := dev.view;
    var at := g.Pos(id);
    FsBasics(v0, g, owned, id);
    ListReady(v0, g, owned, id);
    ListLength(v0, at, owned[id]);
    var size := PeekWord(dev, at.block, at.base);
    var v := ClearSize(dev, at, owned[id]);
    assert |v| == TotalBlocks(size);
    ghost var v1 := dev.view;
    BitsAfterClearSize(v0, v1, g, owned, id);
    DeallocAll(dev, g, v, Used(owned));
    ClearedFs(v0, v1, dev.view, g, owned, id);
  }

  lemma BitsAfterClearSize(v0: seq<Block>, v1: seq<Block>, g: Geometry, owned: seq<seq<nat>>, id: nat)
    requires FsOk(v0, g, owned) && id < |owned| && OnlyIndex(v0, v1, g.Pos(id), [])
    ensures |v1| == |v0| && DataBits(v1, g, Used(owned))
    ensures forall p | 0 <= p < |owned[id]| :: g.DataStart() <= owned[id][p] < g.total && owned[id][p] in Used(owned)
  {
    hide InodesOk, InodeBits, DataBits, SuperOk, FreeZero, OnlyInode, IsIndexPos;
    g.PosInArea(id);
    DataBitsFrame(v0, v1, g, Used(owned));
  }
}
