/** The invariant of an easy-fs image, and what one operation on one inode does to it.

    `owned[i]` lists the data and index blocks of inode `i`, in the order growth consumed them. */
module FsState {
  import opened Sequences
  import opened Blocks
  import opened Bitmaps
  import opened Layouts
  import opened Growth
  import opened FileData

  const EFS_MAGIC: nat := 0x3b800001

  /** The regions of the disk: super block, inode bitmap, inodes, data bitmap, data. */
  datatype Geometry = Geometry(total: nat, inodeBitmapBlocks: nat, inodeAreaBlocks: nat, dataBitmapBlocks: nat,
                               dataAreaBlocks: nat) {

    function InodeBitmap(): Bitmap {
      Bitmap(1, inodeBitmapBlocks)
    }

    function InodeStart(): nat {
      1 + inodeBitmapBlocks
    }

    function DataBitmap(): Bitmap {
      Bitmap(1 + inodeBitmapBlocks + inodeAreaBlocks, dataBitmapBlocks)
    }

    function DataStart(): nat {
      1 + inodeBitmapBlocks + inodeAreaBlocks + dataBitmapBlocks
    }

    /** `get_disk_inode_pos`: four inodes of 32 words to a block. */
    function Pos(id: nat): InodePos {
      InodePos(InodeStart() + id / 4, id % 4 * 32)
    }

    /** The regions tile the disk; the inode area holds all inodes, the data bitmap covers the data area. */
    ghost predicate Ok() {
      && DataStart() + dataAreaBlocks == total < WORD_LIMIT
      && inodeAreaBlocks == inodeBitmapBlocks * 1024
      && dataAreaBlocks <= dataBitmapBlocks * 4096
      && inodeBitmapBlocks > 0
    }

    /** Inodes have their own words, in the inode area: 128 bytes each, one behind the other. */
    lemma PosInArea(id: nat)
      requires Ok() && id < inodeBitmapBlocks * 4096
      ensures InodeStart() <= Pos(id).block < InodeStart() + inodeAreaBlocks
      ensures Pos(id).base + 32 <= 128
      ensures 512 * Pos(id).block + 4 * Pos(id).base == 512 * InodeStart() + 128 * id
    {
    }

    lemma PosDisjoint(i: nat, j: nat)
      requires i != j && Pos(i).block == Pos(j).block
      ensures Pos(i).base + 32 <= Pos(j).base || Pos(j).base + 32 <= Pos(i).base
    {
    }
  }

  ghost predicate SuperOk(view: seq<Block>, g: Geometry) {
    && Entry(view, 0, 0) == EFS_MAGIC
    && Entry(view, 0, 1) == g.total
    && Entry(view, 0, 2) == g.inodeBitmapBlocks
    && Entry(view, 0, 3) == g.inodeAreaBlocks
    && Entry(view, 0, 4) == g.dataBitmapBlocks
    && Entry(view, 0, 5) == g.dataAreaBlocks
  }

  /** Block `b` belongs to some inode. */
  ghost function Used(owned: seq<seq<nat>>): (u: set<nat>)
    ensures forall b :: b in u <==> exists i, p :: 0 <= i < |owned| && 0 <= p < |owned[i]| && owned[i][p] == b
  {
    set i, p | 0 <= i < |owned| && 0 <= p < |owned[i]| :: owned[i][p]
  }

  /** Ownership is disjoint and stays in the data area. */
  ghost predicate OwnedOk(g: Geometry, owned: seq<seq<nat>>) {
    && (forall i, p | 0 <= i < |owned| && 0 <= p < |owned[i]| :: g.DataStart() <= owned[i][p] < g.total)
    && (forall i, p, j, q | 0 <= i < |owned| && 0 <= p < |owned[i]| && 0 <= j < |owned| && 0 <= q < |owned[j]| ::
        owned[i][p] == owned[j][q] ==> i == j && p == q)
  }

  ghost predicate TailZero(view: seq<Block>, L: seq<nat>, size: nat) {
    forall i: nat | size <= i < 512 * DataBlocks(size) :: ByteAt(view, L, i) == 0
  }

  /** One inode: its index records its list, as long as its size demands, and is zero beyond; so are bytes past its
      size. */
  ghost predicate InodeOk(view: seq<Block>, at: InodePos, L: seq<nat>) {
    && DataBlocks(Size(view, at)) <= MAX_BLOCKS
    && |L| == TotalBlocks(Size(view, at))
    && Indexed(view, at, L, DataBlocks(Size(view, at)))
    && Unfilled(view, at, L, DataBlocks(Size(view, at)))
    && TailZero(view, L, Size(view, at))
  }

  ghost predicate InodesOk(view: seq<Block>, g: Geometry, owned: seq<seq<nat>>) {
    forall i | 0 <= i < |owned| :: InodeOk(view, g.Pos(i), owned[i])
  }

  /** Inodes are handed out in order. */
  ghost predicate InodeBits(view: seq<Block>, g: Geometry, n: nat)
    requires g.InodeBitmap().Fits(view)
  {
    forall i: nat | i < g.InodeBitmap().Maximum() :: g.InodeBitmap().IsSet(view, i) == (i < n)
  }

  /** The set bits of the data bitmap are exactly the blocks in use. */
  ghost predicate DataBits(view: seq<Block>, g: Geometry, used: set<nat>)
    requires g.DataBitmap().Fits(view)
  {
    forall k: nat | k < g.DataBitmap().Maximum() :: g.DataBitmap().IsSet(view, k) == (g.DataStart() + k in used)
  }

  ghost predicate FreeZero(view: seq<Block>, g: Geometry, used: set<nat>)
    requires g.total <= |view|
  {
    forall b | g.DataStart() <= b < g.total && b !in used :: view[b] == ZeroBlock()
  }

  ghost predicate FsOk(view: seq<Block>, g: Geometry, owned: seq<seq<nat>>) {
    && g.Ok() && g.total <= |view| && |owned| <= g.inodeBitmapBlocks * 4096
    && SuperOk(view, g)
    && OwnedOk(g, owned)
    && InodesOk(view, g, owned)
    && InodeBits(view, g, |owned|)
    && DataBits(view, g, Used(owned))
    && FreeZero(view, g, Used(owned))
  }

  /** The file system as a caller sees it: a byte string for every inode. */
  ghost function Files(view: seq<Block>, g: Geometry, owned: seq<seq<nat>>): (f: seq<seq<byte>>)
    ensures |f| == |owned|
    ensures forall i | 0 <= i < |owned| :: f[i] == Content(view, owned[i], Size(view, g.Pos(i)))
  {
    seq(|owned|, i requires 0 <= i < |owned| => Content(view, owned[i], Size(view, g.Pos(i))))
  }

  // ---------------------------------------------------------------- frames

  /** An inode whose words and blocks are untouched keeps its index and contents. */
  lemma InodeKept(view: seq<Block>, view': seq<Block>, at: InodePos, L: seq<nat>)
    requires InodeOk(view, at, L) && |view'| == |view|
    requires forall i: nat | at.base <= i < at.base + 31 :: Entry(view', at.block, i) == Entry(view, at.block, i)
    requires forall p | 0 <= p < |L| :: L[p] < |view| && view'[L[p]] == view[L[p]]
    ensures InodeOk(view', at, L) && Size(view', at) == Size(view, at)
    ensures Content(view', L, Size(view', at)) == Content(view, L, Size(view, at))
  {
    hide Word, DataPos;
    var n := DataBlocks(Size(view, at));
    SameBlockIds(view, view', at, L, n);
    SameUnfilled(view, view', at, L, n);
    assert forall i: nat :: ByteAt(view', L, i) == ByteAt(view, L, i);
    assert Content(view', L, Size(view, at)) == Content(view, L, Size(view, at));
  }

  lemma SameBlockIds(view: seq<Block>, view': seq<Block>, at: InodePos, L: seq<nat>, n: nat)
    requires Indexed(view, at, L, n) && |view'| == |view|
    requires forall i: nat | at.base <= i < at.base + 31 :: Entry(view', at.block, i) == Entry(view, at.block, i)
    requires forall p | 0 <= p < |L| :: L[p] < |view| && view'[L[p]] == view[L[p]]
    ensures Indexed(view', at, L, n)
  {
    hide Word, DataPos;
    assert Indirect1(view', at) == Indirect1(view, at) && Indirect2(view', at) == Indirect2(view, at);
    forall k | 0 <= k < n ensures BlockId(view', at, k) == BlockId(view, at, k) {
      if 28 <= k < 156 {
        assert Indirect1(view, at) == L[28];
      } else if k >= 156 {
        assert (k - 156) / 128 < SubCount(n);
        SubPosInRange((k - 156) / 128, n);
      }
    }
  }

  lemma SameEntry(view: seq<Block>, view': seq<Block>, b: nat, i: nat)
    requires |view'| == |view| && (b < |view| ==> view'[b] == view[b])
    ensures Entry(view', b, i) == Entry(view, b, i)
  {
    hide Word;
  }

  lemma SameUnfilled(view: seq<Block>, view': seq<Block>, at: InodePos, L: seq<nat>, n: nat)
    requires Unfilled(view, at, L, n) && |view'| == |view|
    requires forall i: nat | at.base <= i < at.base + 31 :: Entry(view', at.block, i) == Entry(view, at.block, i)
    requires forall p | 0 <= p < |L| && IsIndexPos(p) :: L[p] < |view| && view'[L[p]] == view[L[p]]
    ensures Unfilled(view', at, L, n)
  {
    hide Entry, IsIndexPos, SubPos, SubCount;
    IndexPositions(0);
    assert Indirect1(view', at) == Indirect1(view, at) && Indirect2(view', at) == Indirect2(view, at);
    forall k: nat | n <= k < 28 ensures Direct(view', at, k) == 0 { assert Direct(view, at, k) == 0; }
    if n > 28 {
      forall i: nat | n <= 28 + i < 156 ensures Entry(view', L[28], i) == 0 { SameEntry(view, view', L[28], i); }
    }
    if n > 156 {
      forall a: nat | SubCount(n) <= a < 128 ensures Entry(view', L[157], a) == 0 {
        SameEntry(view, view', L[157], a);
      }
    }
    forall a: nat, i: nat | a < SubCount(n) && i < 128 && n <= 156 + 128 * a + i
      ensures SubPos(a) < |L| && Entry(view', L[SubPos(a)], i) == 0
    {
      assert SubPos(a) < |L| && Entry(view, L[SubPos(a)], i) == 0;
      IndexPositions(a);
      SameEntry(view, view', L[SubPos(a)], i);
    }
  }

  // ---------------------------------------------------------------- one operation on one inode

  /** Between the two images only the data bitmap, the fields of inode `id` and the blocks of `s` differ. */
  ghost predicate Touches(view: seq<Block>, view': seq<Block>, g: Geometry, id: nat, s: set<nat>) {
    && |view'| == |view|
    && (forall b | 0 <= b < |view| && b !in s && b != g.Pos(id).block && !InDataBitmap(g, b) :: view'[b] == view[b])
    && OnlyInode(view, view', g.Pos(id))
  }

  ghost predicate InDataBitmap(g: Geometry, b: nat) {
    g.DataBitmap().start <= b < g.DataStart()
  }

  /** The blocks of `s` lie in the data area and no inode but `id` owns any. */
  ghost predicate Private(g: Geometry, owned: seq<seq<nat>>, id: nat, s: set<nat>) {
    && (forall b | b in s :: g.DataStart() <= b < g.total)
    && (forall j, p | 0 <= j < |owned| && j != id && 0 <= p < |owned[j]| :: owned[j][p] !in s)
  }

  ghost predicate Within(L: seq<nat>, s: set<nat>) {
    forall p | 0 <= p < |L| :: L[p] in s
  }

  lemma OthersKept(view: seq<Block>, view': seq<Block>, g: Geometry, owned: seq<seq<nat>>, id: nat, s: set<nat>, j: nat)
    requires FsOk(view, g, owned) && id < |owned| && j < |owned| && j != id
    requires Touches(view, view', g, id, s) && Private(g, owned, id, s)
    ensures InodeOk(view', g.Pos(j), owned[j])
    ensures Size(view', g.Pos(j)) == Size(view, g.Pos(j))
    ensures Content(view', owned[j], Size(view', g.Pos(j))) == Content(view, owned[j], Size(view, g.Pos(j)))
  {
    hide Word, InodeOk, Content, DataBits, FreeZero, InodeBits, SuperOk;
    g.PosInArea(id);
    g.PosInArea(j);
    if g.Pos(id).block == g.Pos(j).block { g.PosDisjoint(id, j); }
    assert InodeOk(view, g.Pos(j), owned[j]);
    InodeKept(view, view', g.Pos(j), owned[j]);
  }

  lemma MetadataKept(view: seq<Block>, view': seq<Block>, g: Geometry, owned: seq<seq<nat>>, id: nat, s: set<nat>)
    requires FsOk(view, g, owned) && id < |owned|
    requires Touches(view, view', g, id, s) && Private(g, owned, id, s)
    ensures SuperOk(view', g) && InodeBits(view', g, |owned|)
  {
    hide Word, BlockBit, InodesOk, DataBits, FreeZero, OwnedOk;
    g.PosInArea(id);
    assert view'[0] == view[0];
    forall i: nat | i < g.InodeBitmap().Maximum() ensures g.InodeBitmap().IsSet(view', i) == (i < |owned|) {
      assert view'[1 + i / 4096] == view[1 + i / 4096];
      assert g.InodeBitmap().IsSet(view, i) == (i < |owned|);
    }
  }

  lemma OwnershipKept(g: Geometry, owned: seq<seq<nat>>, id: nat, L: seq<nat>, s: set<nat>)
    requires OwnedOk(g, owned) && id < |owned| && Private(g, owned, id, s) && Within(L, s) && NoRepeats(L)
    ensures OwnedOk(g, owned[id := L])
  {
  }

  lemma FreeKept(view: seq<Block>, view': seq<Block>, g: Geometry, owned: seq<seq<nat>>, id: nat, L: seq<nat>,
                 s: set<nat>)
    requires FsOk(view, g, owned) && id < |owned|
    requires Touches(view, view', g, id, s) && Private(g, owned, id, s) && Within(owned[id], s)
    requires forall b | b in s && b !in L :: view'[b] == ZeroBlock()
    ensures FreeZero(view', g, Used(owned[id := L]))
  {
    hide InodesOk, DataBits, InodeBits, SuperOk, OwnedOk, OnlyInode, ZeroBlock;
    g.PosInArea(id);
    var owned' := owned[id := L];
    forall b | g.DataStart() <= b < g.total && b !in Used(owned') ensures view'[b] == ZeroBlock() {
      assert owned'[id] == L;
      if b !in s {
        if b in Used(owned) {
          var i, p :| 0 <= i < |owned| && 0 <= p < |owned[i]| && owned[i][p] == b;
          assert owned'[i][p] == b;
        }
      }
    }
  }

  /** An operation that gives inode `id` the list `L`, keeps its bitmap and leaves what it gives up zeroed,
      preserves the invariant and changes no other file. */
  lemma OneInode(view: seq<Block>, view': seq<Block>, g: Geometry, owned: seq<seq<nat>>, id: nat, L: seq<nat>,
                 s: set<nat>)
    requires FsOk(view, g, owned) && id < |owned|
    requires Touches(view, view', g, id, s) && Private(g, owned, id, s) && Within(owned[id], s) && Within(L, s)
             && NoRepeats(L)
    requires forall b | b in s && b !in L :: view'[b] == ZeroBlock()
    requires InodeOk(view', g.Pos(id), L) && DataBits(view', g, Used(owned[id := L]))
    ensures FsOk(view', g, owned[id := L])
    ensures Files(view', g, owned[id := L]) == Files(view, g, owned)[id := Content(view', L, Size(view', g.Pos(id)))]
    ensures SameKinds(view, view', g, |owned|)
  {
    hide InodeOk, DataBits, InodeBits, SuperOk, OwnedOk, Touches, Private, Content, Size, FreeZero, ZeroBlock, Within,
         NoRepeats, SameKinds;
    forall j | 0 <= j < |owned| && j != id
      ensures InodeOk(view', g.Pos(j), owned[j])
      ensures Content(view', owned[j], Size(view', g.Pos(j))) == Content(view, owned[j], Size(view, g.Pos(j)))
    {
      OthersKept(view, view', g, owned, id, s, j);
    }
    KindsKept(view, view', g, owned, id, s);
    MetadataKept(view, view', g, owned, id, s);
    OwnershipKept(g, owned, id, L, s);
    FreeKept(view, view', g, owned, id, L, s);
    assert |view'| == |view| by { SameLength(view, view', g, id, s); }
  }

  /** No inode turned from a file into a directory or back. */
  ghost predicate SameKinds(view: seq<Block>, view': seq<Block>, g: Geometry, n: nat) {
    forall j | 0 <= j < n :: Kind(view', g.Pos(j)) == Kind(view, g.Pos(j))
  }

  lemma KindsKept(view: seq<Block>, view': seq<Block>, g: Geometry, owned: seq<seq<nat>>, id: nat, s: set<nat>)
    requires FsOk(view, g, owned) && id < |owned|
    requires Touches(view, view', g, id, s) && Private(g, owned, id, s)
    ensures SameKinds(view, view', g, |owned|)
  {
    hide Word, InodesOk, DataBits, FreeZero, InodeBits, SuperOk, OwnedOk;
    g.PosInArea(id);
    forall j | 0 <= j < |owned| ensures Kind(view', g.Pos(j)) == Kind(view, g.Pos(j)) {
      g.PosInArea(j);
      if j != id && g.Pos(id).block == g.Pos(j).block { g.PosDisjoint(id, j); }
    }
  }

  lemma SameLength(view: seq<Block>, view': seq<Block>, g: Geometry, id: nat, s: set<nat>)
    requires Touches(view, view', g, id, s)
    ensures |view'| == |view|
  {
  }

  // ---------------------------------------------------------------- growth and writes

  lemma DataPosPastEnd(k: nat, n: nat)
    requires n <= k
    ensures Total(n) <= DataPos(k)
  {
    TotalMonotone(n, k);
    TotalSteps(k);
  }

  /** Growing with zeroed blocks extends the contents with zeros and keeps the tail zero. */
  lemma GrownContent(v0: seq<Block>, v1: seq<Block>, v2: seq<Block>, at: InodePos, L: seq<nat>, blocks: seq<nat>,
                     size: nat, newSize: nat)
    requires InodeOk(v0, at, L) && size == Size(v0, at) <= newSize && DataBlocks(newSize) <= MAX_BLOCKS
    requires |v1| == |v0| && forall p | 0 <= p < |L| :: L[p] < |v0| && v1[L[p]] == v0[L[p]]
    requires forall p | 0 <= p < |blocks| :: blocks[p] < |v1| && v1[blocks[p]] == ZeroBlock()
    requires Separate(v2, at, L + blocks) && OnlyIndex(v1, v2, at, L + blocks) && Size(v2, at) == newSize
    requires Indexed(v2, at, L + blocks, DataBlocks(newSize)) && |L + blocks| == TotalBlocks(newSize)
    requires Unfilled(v2, at, L + blocks, DataBlocks(newSize))
    ensures InodeOk(v2, at, L + blocks)
    ensures Content(v2, L + blocks, newSize) == Content(v0, L, size) + Zeros(newSize - size)
  {
    hide Entry, Indexed, Unfilled, ZeroBlock, DataPos, Total, IsIndexPos;
    forall i: nat | i < 512 * DataBlocks(newSize)
      ensures ByteAt(v2, L + blocks, i) == if i < size then ByteAt(v0, L, i) else 0
    {
      GrownByte(v0, v1, v2, at, L, blocks, size, newSize, i);
    }
  }

  /** What growth leaves unused of the index is zero: it was so before, or lies in new, zeroed blocks. */
  lemma GrownUnfilled(v1: seq<Block>, v2: seq<Block>, at: InodePos, L: seq<nat>, blocks: seq<nat>, n: nat, m: nat)
    requires Unfilled(v1, at, L, n) && n <= m <= MAX_BLOCKS && |L| == Total(n) && |L| + |blocks| == Total(m)
    requires forall p | 0 <= p < |blocks| :: blocks[p] < |v1| && v1[blocks[p]] == ZeroBlock()
    requires Later(v1, v2, at, L + blocks, m)
    requires m <= 28 ==> Indirect1(v2, at) == Indirect1(v1, at)
    requires m <= 156 ==> Indirect2(v2, at) == Indirect2(v1, at)
    ensures Unfilled(v2, at, L + blocks, m)
  {
    hide Entry, ZeroBlock;
    var all := L + blocks;
    forall k: nat | m <= k < 28 ensures Direct(v2, at, k) == 0 { assert Direct(v1, at, k) == 0; }
    if m > 28 {
      TotalMonotone(29, m);
      forall i: nat | m <= 28 + i < 156 ensures Entry(v2, all[28], i) == 0 {
        if n <= 28 { NewIndexZero(v1, L, blocks, 28, i); }
      }
    }
    if m > 156 {
      TotalMonotone(157, m);
      forall a: nat | SubCount(m) <= a < 128 ensures Entry(v2, all[157], a) == 0 {
        assert m <= 156 + 128 * a;
        if n <= 156 { NewIndexZero(v1, L, blocks, 157, a); }
      }
    }
    forall a: nat, i: nat | a < SubCount(m) && i < 128 && m <= 156 + 128 * a + i
      ensures SubPos(a) < |all| && Entry(v2, all[SubPos(a)], i) == 0
    {
      SubPosInRange(a, m);
      if a < SubCount(n) { SubPosInRange(a, n); } else { NewIndexZero(v1, L, blocks, SubPos(a), i); }
    }
  }

  lemma NewIndexZero(view: seq<Block>, L: seq<nat>, blocks: seq<nat>, p: nat, i: nat)
    requires |L| <= p < |L| + |blocks|
    requires forall p | 0 <= p < |blocks| :: blocks[p] < |view| && view[blocks[p]] == ZeroBlock()
    ensures Entry(view, (L + blocks)[p], i) == 0
  {
    hide ZeroBlock;
    assert (L + blocks)[p] == blocks[p - |L|];
    if i < 128 { ZeroBlockWords(i); }
  }

  lemma GrownByte(v0: seq<Block>, v1: seq<Block>, v2: seq<Block>, at: InodePos, L: seq<nat>, blocks: seq<nat>,
                  size: nat, newSize: nat, i: nat)
    requires InodeOk(v0, at, L) && size == Size(v0, at) <= newSize && i < 512 * DataBlocks(newSize)
    requires |v1| == |v0| && forall p | 0 <= p < |L| :: L[p] < |v0| && v1[L[p]] == v0[L[p]]
    requires forall p | 0 <= p < |blocks| :: blocks[p] < |v1| && v1[blocks[p]] == ZeroBlock()
    requires Separate(v2, at, L + blocks) && OnlyIndex(v1, v2, at, L + blocks)
    requires |L + blocks| == TotalBlocks(newSize)
    ensures ByteAt(v2, L + blocks, i) == if i < size then ByteAt(v0, L, i) else 0
  {
    hide Entry, Indexed, Unfilled, ZeroBlock, DataPos, Total, IsIndexPos;
    var k, all := i / 512, L + blocks;
    DataPosInRange(k, DataBlocks(newSize));
    var p := DataPos(k);
    assert v2[all[p]] == v1[all[p]];
    if k < DataBlocks(size) {
      DataPosInRange(k, DataBlocks(size));
      assert all[p] == L[p];
      assert ByteAt(v2, all, i) == ByteAt(v0, L, i);
    } else {
      DataPosPastEnd(k, DataBlocks(size));
      assert all[p] == blocks[p - |L|];
    }
  }

  function Zeros(n: nat): (s: seq<byte>)
    ensures |s| == n && forall i | 0 <= i < n :: s[i] == 0
  {
    seq(n, _ => 0)
  }

  /** What writing `buf` at `offset` makes of a byte string: zeros fill a gap before `offset`. */
  function Overwrite(s: seq<byte>, offset: nat, buf: seq<byte>): (r: seq<byte>)
    ensures |r| == if |s| < offset + |buf| then offset + |buf| else |s|
    ensures forall i | 0 <= i < |r| :: r[i] == if offset <= i < offset + |buf| then buf[i - offset]
                else if i < |s| then s[i] else 0
  {
    Splice(if |s| < offset + |buf| then s + Zeros(offset + |buf| - |s|) else s, offset, buf)
  }

  /** A write within the size keeps the tail zero, and shows as a splice of the contents. */
  lemma WrittenInode(v: seq<Block>, v': seq<Block>, at: InodePos, L: seq<nat>, offset: nat, buf: seq<byte>)
    requires InodeOk(v, at, L) && offset + |buf| <= Size(v, at) == Size(v', at)
    requires Indexed(v', at, L, DataBlocks(Size(v, at))) && Unfilled(v', at, L, DataBlocks(Size(v, at)))
    requires Content(v', L, 512 * DataBlocks(Size(v, at))) ==
             Splice(Content(v, L, 512 * DataBlocks(Size(v, at))), offset, buf)
    ensures InodeOk(v', at, L)
    ensures Content(v', L, Size(v', at)) == Splice(Content(v, L, Size(v, at)), offset, buf)
  {
    hide Entry, Indexed, Unfilled, ByteAt, Splice;
    var n := DataBlocks(Size(v, at));
    assert forall i: nat | i < 512 * n :: ByteAt(v', L, i) == Content(v', L, 512 * n)[i];
    assert forall i: nat | i < 512 * n :: ByteAt(v, L, i) == Content(v, L, 512 * n)[i];
  }
}
