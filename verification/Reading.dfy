/** A disk image has one reading: blocks, inodes and names follow from the bytes. */
module Reading {
  import opened Bits
  import opened Blocks
  import opened Bitmaps
  import opened Layouts
  import opened FileData
  import opened FsState
  import opened Directory
  import opened DiskFormat

  /** Every position of a list is that of a data block or of an index block in use. */
  lemma PositionKinds(p: nat, n: nat)
    requires p < Total(n)
    ensures (exists k :: 0 <= k < n && DataPos(k) == p) || (p == 28 && n > 28) || (p == 157 && n > 156)
            || (exists a :: 0 <= a < SubCount(n) && SubPos(a) == p)
  {
    if p < 28 {
      assert DataPos(p) == p;
    } else if 28 < p < 157 {
      assert DataPos(p - 1) == p;
    } else if p >= 158 {
      var a, i := (p - 158) / 129, (p - 158) % 129;
      if i == 0 {
        assert SubPos(a) == p;
      } else {
        var k := 156 + 128 * a + (i - 1);
        assert (k - 156) / 128 == a;
        assert DataPos(k) == p;
      }
    }
  }

  lemma ListDetermined(view: seq<Block>, at: InodePos, L1: seq<nat>, L2: seq<nat>)
    requires InodeOk(view, at, L1) && InodeOk(view, at, L2)
    ensures L1 == L2
  {
    hide Entry, DataPos, SubPos, Total, SubCount, TailZero;
    var n := DataBlocks(Size(view, at));
    forall p | 0 <= p < |L1| ensures L1[p] == L2[p] {
      PositionKinds(p, n);
      if k :| 0 <= k < n && DataPos(k) == p {
        assert BlockId(view, at, k) == L1[p];
      } else if a :| 0 <= a < SubCount(n) && SubPos(a) == p {
        assert Entry(view, Indirect2(view, at), a) == L1[p];
      }
    }
  }

  lemma {:induction false} NamesDetermined(n1: seq<Name>, n2: seq<Name>)
    requires NamesOk(n1) && NamesOk(n2)
    requires (forall j | 0 <= j < |n1| :: |n1[j]| <= 27) && (forall j | 0 <= j < |n2| :: |n2[j]| <= 27)
    requires DirBytes(n1) == DirBytes(n2)
    ensures n1 == n2
  {
    hide DirBytes, EncodeEntry, EntryName, EntryInode;
    forall j | 0 <= j < |n1| ensures n1[j] == n2[j] {
      EntryAt(n1, j);
      EntryAt(n2, j);
      EntryRoundTrip(n1[j], j + 1);
      EntryRoundTrip(n2[j], j + 1);
      assert GoodName(n1[j]) && GoodName(n2[j]);
    }
  }

  lemma InodeCountDetermined(view: seq<Block>, g: Geometry, o1: seq<seq<nat>>, o2: seq<seq<nat>>)
    requires FsOk(view, g, o1) && FsOk(view, g, o2)
    ensures |o1| == |o2|
  {
    hide FsOk;
    InodeBit(view, g, o1, |o1|);
    InodeBit(view, g, o2, |o1|);
    InodeBit(view, g, o1, |o2|);
    InodeBit(view, g, o2, |o2|);
  }

  lemma InodeBit(view: seq<Block>, g: Geometry, owned: seq<seq<nat>>, k: nat)
    requires FsOk(view, g, owned)
    ensures g.InodeBitmap().Fits(view) && |owned| <= g.InodeBitmap().Maximum()
    ensures k < g.InodeBitmap().Maximum() ==> g.InodeBitmap().IsSet(view, k) == (k < |owned|)
  {
    hide BlockBit, InodesOk, DataBits, SuperOk, FreeZero, OwnedOk;
  }

  /** Whatever two readings of the same blocks satisfy the invariant, they agree on everything. */
  lemma OneReading(view: seq<Block>, g1: Geometry, o1: seq<seq<nat>>, n1: seq<Name>, g2: Geometry, o2: seq<seq<nat>>,
                   n2: seq<Name>)
    requires FsOk(view, g1, o1) && DirOk(view, g1, o1, n1)
    requires FsOk(view, g2, o2) && DirOk(view, g2, o2, n2)
    ensures g1 == g2 && o1 == o2 && n1 == n2
  {
    assert g1 == g2 by { hide InodesOk, InodeBits, DataBits, FreeZero, OwnedOk, DirOk, Entry; }
    InodeCountDetermined(view, g1, o1, o2);
    assert o1 == o2 by {
      hide InodeOk, InodeBits, DataBits, FreeZero, OwnedOk, DirOk, SuperOk;
      forall i | 0 <= i < |o1| ensures o1[i] == o2[i] { ListDetermined(view, g1.Pos(i), o1[i], o2[i]); }
    }
    assert n1 == n2 by {
      hide FsOk, Files, Kind, DirBytes;
      NamesDetermined(n1, n2);
    }
  }

  // ---------------------------------------------------------------- from the bytes alone

  lemma ByteInBlock(view: seq<Block>, b: nat, i: nat)
    requires i < 512
    ensures At(view, 512 * b + i) == if b < |view| then view[b][i] else 0
  {
    ModUnique(512 * b + i, 512, b, i);
  }

  lemma WordInBlock(view: seq<Block>, b: nat, i: nat)
    requires i < 128
    ensures U32(view, 512 * b + 4 * i) == Entry(view, b, i)
  {
    hide At;
    ByteInBlock(view, b, 4 * i);
    ByteInBlock(view, b, 4 * i + 1);
    ByteInBlock(view, b, 4 * i + 2);
    ByteInBlock(view, b, 4 * i + 3);
  }

  lemma SuperWords(view: seq<Block>, g: Geometry)
    requires SuperOk(view, g)
    ensures U32(view, 0) == 0x3b800001 && U32(view, 4) == g.total && U32(view, 8) == g.inodeBitmapBlocks
            && U32(view, 12) == g.inodeAreaBlocks && U32(view, 16) == g.dataBitmapBlocks
            && U32(view, 20) == g.dataAreaBlocks
  {
    hide U32, Entry;
    WordInBlock(view, 0, 0);
    WordInBlock(view, 0, 1);
    WordInBlock(view, 0, 2);
    WordInBlock(view, 0, 3);
    WordInBlock(view, 0, 4);
    WordInBlock(view, 0, 5);
  }

  lemma InodeWord(view: seq<Block>, g: Geometry, i: nat, c: nat)
    requires g.Ok() && SuperOk(view, g) && i < g.inodeBitmapBlocks * 4096 && c < 32
    ensures U32(view, InodeAt(view, i) + 4 * c) == Entry(view, g.Pos(i).block, g.Pos(i).base + c)
  {
    hide U32, Entry;
    SuperWords(view, g);
    g.PosInArea(i);
    WordInBlock(view, g.Pos(i).block, g.Pos(i).base + c);
    assert InodeAt(view, i) + 4 * c == 512 * g.Pos(i).block + 4 * (g.Pos(i).base + c);
  }

  lemma BlockRead(view: seq<Block>, g: Geometry, i: nat, k: nat)
    requires g.Ok() && SuperOk(view, g) && i < g.inodeBitmapBlocks * 4096 && k < MAX_BLOCKS
    ensures DataBlockOf(view, i, k) == BlockId(view, g.Pos(i), k)
  {
    hide U32, Entry, SuperOk, InodeAt;
    if k < 28 {
      InodeWord(view, g, i, 1 + k);
    } else if k < 156 {
      InodeWord(view, g, i, 29);
      WordInBlock(view, Indirect1(view, g.Pos(i)), k - 28);
    } else {
      InodeWord(view, g, i, 30);
      WordInBlock(view, Indirect2(view, g.Pos(i)), (k - 156) / 128);
      WordInBlock(view, Entry(view, Indirect2(view, g.Pos(i)), (k - 156) / 128), (k - 156) % 128);
    }
  }

  lemma FileByte(view: seq<Block>, g: Geometry, i: nat, L: seq<nat>, p: nat)
    requires g.Ok() && SuperOk(view, g) && i < g.inodeBitmapBlocks * 4096 && InodeOk(view, g.Pos(i), L)
             && p < Size(view, g.Pos(i))
    ensures At(view, 512 * DataBlockOf(view, i, p / 512) + p % 512) == ByteAt(view, L, p)
  {
    hide Entry, SuperOk, TailZero, Unfilled, BlockId, DataBlockOf, At, DataPos, TotalBlocks;
    var k, n := p / 512, DataBlocks(Size(view, g.Pos(i)));
    assert k < n;
    BlockRead(view, g, i, k);
    assert BlockId(view, g.Pos(i), k) == L[DataPos(k)];
    ByteInBlock(view, L[DataPos(k)], p % 512);
  }

  /** Followed through the bytes of the device, an inode leads to the contents of its file. */
  lemma FileRead(view: seq<Block>, g: Geometry, owned: seq<seq<nat>>, i: nat)
    requires FsOk(view, g, owned) && i < |owned|
    ensures FileOf(view, i) == Files(view, g, owned)[i]
  {
    hide FsOk, U32, Entry, InodeAt, SuperOk, InodeOk, DataBlockOf, At, ByteAt, Geometry.Ok;
    var L := owned[i];
    SuperOf(view, g, owned, i);
    InodeWord(view, g, i, 0);
    forall p: nat | p < Size(view, g.Pos(i)) ensures FileOf(view, i)[p] == ByteAt(view, L, p) {
      FileByte(view, g, i, L, p);
    }
  }

  lemma SuperOf(view: seq<Block>, g: Geometry, owned: seq<seq<nat>>, i: nat)
    requires FsOk(view, g, owned)
    ensures g.Ok() && SuperOk(view, g) && |owned| <= g.inodeBitmapBlocks * 4096
    ensures i < |owned| ==> InodeOk(view, g.Pos(i), owned[i])
  {
    hide InodeOk, InodeBits, DataBits, FreeZero, OwnedOk;
  }

  // ---------------------------------------------------------------- bitmaps and names from the bytes

  lemma BitOfWord(b: Block, i: nat, m: nat)
    requires i < 128 && m < 32
    ensures Bit(Word(b, i), m) == Bit(b[4 * i + m / 8] as nat, m % 8)
  {
    hide Bit, Pow2;
    var b0, b1, b2, b3 := b[4 * i] as nat, b[4 * i + 1] as nat, b[4 * i + 2] as nat, b[4 * i + 3] as nat;
    BytePower();
    BitOfPack(b3 * 65536 + b2 * 256 + b1, b0, 8, m);
    if m >= 8 { BitOfPack(b3 * 256 + b2, b1, 8, m - 8); }
    if m >= 16 { BitOfPack(b3, b2, 8, m - 16); }
  }

  lemma BytePower()
    ensures Pow2(8) == 256 && Pow2(32) == WORD_LIMIT
  {
    assert Pow2(8) == 256;
    hide Pow2;
    Pow2Add(8, 8);
    Pow2Add(16, 16);
  }

  lemma BitOfBlock(b: Block, k: nat)
    requires k < 4096
    ensures BlockBit(b, k) == Bit(b[k / 8] as nat, k % 8)
  {
    hide Bit, Pow2, Word;
    var q, m := k / 64, k % 64;
    BytePower();
    BitOfPack(Word(b, 2 * q + 1), Word(b, 2 * q), 32, m);
    if m < 32 {
      BitOfWord(b, 2 * q, m);
      assert 4 * (2 * q) + m / 8 == k / 8 && m % 8 == k % 8;
    } else {
      BitOfWord(b, 2 * q + 1, m - 32);
      assert 4 * (2 * q + 1) + (m - 32) / 8 == k / 8 && (m - 32) % 8 == k % 8;
    }
  }

  lemma BitOfByte(w: nat, s: nat)
    requires s < 8
    ensures Bit(w, s) == (w / [1, 2, 4, 8, 16, 32, 64, 128][s] % 2 == 1)
  {
    BitIsDigit(w, s);
    assert Pow2(0) == 1 && Pow2(1) == 2 && Pow2(2) == 4 && Pow2(3) == 8 && Pow2(4) == 16 && Pow2(5) == 32
           && Pow2(6) == 64 && Pow2(7) == 128;
  }

  /** Bit `k` of a bitmap is bit `k % 8` of its byte `k / 8`. */
  lemma BitRead(view: seq<Block>, m: Bitmap, k: nat)
    requires m.Fits(view) && k < m.Maximum()
    ensures m.IsSet(view, k) == BitAt(view, m.start, k)
  {
    hide Bit, BlockBit, At;
    var block, j := m.start + k / 4096, k % 4096;
    BitOfBlock(view[block], j);
    BitOfByte(view[block][j / 8] as nat, j % 8);
    ByteInBlock(view, block, j / 8);
    assert 512 * block + j / 8 == 512 * m.start + k / 8 && j % 8 == k % 8;
  }

  lemma EntryBytes(names: seq<Name>, j: nat)
    requires NamesOk(names) && j < |names| && forall i | 0 <= i < |names| :: |names[i]| <= 27
    ensures EntryOf(DirBytes(names), j, names[j], j + 1)
  {
    hide DirBytes;
    var dir, e := DirBytes(names), EncodeEntry(names[j], j + 1);
    EntryAt(names, j);
    assert forall t | 0 <= t < 32 :: dir[32 * j + t] == dir[32 * j..32 * j + 32][t] == e[t];
    EntryRoundTrip(names[j], j + 1);
    assert dir[32 * j + 28] == e[28] && dir[32 * j + 29] == e[29] && dir[32 * j + 30] == e[30]
           && dir[32 * j + 31] == e[31];
  }

  /** The blocks that the bytes lead to are those of the inode's list. */
  lemma UsesRead(view: seq<Block>, g: Geometry, i: nat, L: seq<nat>, b: nat)
    requires g.Ok() && SuperOk(view, g) && i < g.inodeBitmapBlocks * 4096 && InodeOk(view, g.Pos(i), L)
    ensures UsedBy(view, i, b) <==> b in L
  {
    hide Entry, SuperOk, TailZero, Unfilled, BlockId, DataBlockOf, U32, InodeAt, DataPos, SubPos;
    var at, n := g.Pos(i), DataBlocks(Size(view, g.Pos(i)));
    InodeWord(view, g, i, 0);
    InodeWord(view, g, i, 29);
    InodeWord(view, g, i, 30);
    forall k | 0 <= k < n ensures DataBlockOf(view, i, k) == L[DataPos(k)] { BlockRead(view, g, i, k); }
    forall a: nat | 156 + 128 * a < n
      ensures a < SubCount(n) && SubPos(a) < |L| && U32(view, 512 * Indirect2(view, at) + 4 * a) == L[SubPos(a)]
    {
      WordInBlock(view, Indirect2(view, at), a);
    }
    if b in L {
      var p :| 0 <= p < |L| && L[p] == b;
      PositionKinds(p, n);
      if k :| 0 <= k < n && DataPos(k) == p {
        assert DataBlockOf(view, i, k) == b;
      } else if a: nat :| a < SubCount(n) && SubPos(a) == p {
        assert 156 + 128 * a < n;
      }
    }
  }

  lemma DataBit(view: seq<Block>, g: Geometry, owned: seq<seq<nat>>, k: nat)
    requires FsOk(view, g, owned) && k < g.DataBitmap().Maximum()
    ensures g.DataBitmap().Fits(view)
    ensures g.DataBitmap().IsSet(view, k) <==> exists i :: 0 <= i < |owned| && g.DataStart() + k in owned[i]
  {
    hide BlockBit, InodesOk, InodeBits, SuperOk, FreeZero, OwnedOk;
    var b := g.DataStart() + k;
    if b in Used(owned) {
      var i, p :| 0 <= i < |owned| && 0 <= p < |owned[i]| && owned[i][p] == b;
      assert b in owned[i];
    }
  }

  lemma DataBitRead(view: seq<Block>, g: Geometry, owned: seq<seq<nat>>, k: nat)
    requires FsOk(view, g, owned) && owned != [] && k < 4096 * U32(view, 16)
    ensures Marked(view, |owned| - 1, k)
  {
    hide FsOk, U32, InodeAt, UsedBy, BitAt, SuperOk, InodeOk, Geometry.Ok;
    SuperOf(view, g, owned, 0);
    SuperWords(view, g);
    DataBit(view, g, owned, k);
    BitRead(view, g.DataBitmap(), k);
    var b := g.DataStart() + k;
    forall i | 0 <= i < |owned| ensures UsedBy(view, i, b) <==> b in owned[i] {
      SuperOf(view, g, owned, i);
      UsesRead(view, g, i, owned[i], b);
    }
  }

  /** What the reader finds of the file created `j`-th: its entry, its kind and its contents. */
  lemma NamedRead(view: seq<Block>, g: Geometry, owned: seq<seq<nat>>, names: seq<Name>, j: nat)
    requires FsOk(view, g, owned) && DirOk(view, g, owned, names) && j < |names|
    ensures EntryOf(FileOf(view, 0), j, names[j], j + 1) && U32(view, InodeAt(view, j + 1) + 124) == 0
    ensures FileOf(view, j + 1) == Files(view, g, owned)[1..][j]
  {
    hide FsOk, U32, Entry, InodeAt, FileOf, EntryOf, SuperOk, InodeOk, Geometry.Ok, DirBytes, NamesOk;
    SuperOf(view, g, owned, 0);
    FileRead(view, g, owned, 0);
    EntryBytes(names, j);
    InodeWord(view, g, j + 1, 31);
    FileRead(view, g, owned, j + 1);
  }

  lemma RootRead(view: seq<Block>, g: Geometry, owned: seq<seq<nat>>, names: seq<Name>)
    requires FsOk(view, g, owned) && DirOk(view, g, owned, names)
    ensures U32(view, 0) == 0x3b800001 && U32(view, InodeAt(view, 0) + 124) == 1 && |FileOf(view, 0)| == 32 * |names|
    ensures |Files(view, g, owned)[1..]| == |names| == |owned| - 1
  {
    hide FsOk, U32, Entry, InodeAt, FileOf, SuperOk, InodeOk, Geometry.Ok, DirBytes, NamesOk;
    SuperOf(view, g, owned, 0);
    SuperWords(view, g);
    InodeWord(view, g, 0, 31);
    FileRead(view, g, owned, 0);
  }

  lemma InodeBitRead(view: seq<Block>, g: Geometry, owned: seq<seq<nat>>, k: nat)
    requires FsOk(view, g, owned) && k < 4096 * U32(view, 8)
    ensures BitAt(view, 1, k) <==> k < |owned|
  {
    hide FsOk, U32, BitAt, SuperOk, InodeOk, Geometry.Ok;
    SuperOf(view, g, owned, 0);
    SuperWords(view, g);
    InodeBit(view, g, owned, k);
    BitRead(view, g.InodeBitmap(), k);
  }

  /** A device whose file system is in order, read byte by byte, shows its files under their names. */
  lemma ImageRead(view: seq<Block>, g: Geometry, owned: seq<seq<nat>>, names: seq<Name>)
    requires FsOk(view, g, owned) && DirOk(view, g, owned, names)
    ensures Pictured(view, names, Files(view, g, owned)[1..])
  {
    hide FsOk, DirOk, Files, U32, InodeAt, FileOf, BitAt, EntryOf, Marked;
    RootRead(view, g, owned, names);
    var files := Files(view, g, owned)[1..];
    forall j | 0 <= j < |names| ensures EntryOf(FileOf(view, 0), j, names[j], j + 1) {
      NamedRead(view, g, owned, names, j);
    }
    forall j | 0 <= j < |names|
      ensures U32(view, InodeAt(view, j + 1) + 124) == 0 && FileOf(view, j + 1) == files[j]
    {
      NamedRead(view, g, owned, names, j);
    }
    forall k: nat | k < 4096 * U32(view, 8) ensures BitAt(view, 1, k) <==> k <= |names| {
      InodeBitRead(view, g, owned, k);
    }
    forall k: nat | k < 4096 * U32(view, 16) ensures Marked(view, |names|, k) { DataBitRead(view, g, owned, k); }
  }
}
