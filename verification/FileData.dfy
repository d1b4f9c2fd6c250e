/** Contents of files: `DiskInode::get_block_id`, `read_at` and `write_at` (easy-fs/src/layout.rs). */
module FileData {
  import opened Blocks
  import opened BlockCaches
  import opened Layouts
  import opened Growth
  import opened Options

  /** Byte `i` of the blocks listed in `L`, whether or not the file is that long. */
  ghost function ByteAt(view: seq<Block>, L: seq<nat>, i: nat): byte {
    if DataPos(i / 512) < |L| && L[DataPos(i / 512)] < |view| then view[L[DataPos(i / 512)]][i % 512] else 0
  }

  ghost function Content(view: seq<Block>, L: seq<nat>, size: nat): (s: seq<byte>)
    ensures |s| == size && forall i | 0 <= i < size :: s[i] == ByteAt(view, L, i)
  {
    seq(size, i requires 0 <= i < size => ByteAt(view, L, i))
  }

  /** Only data blocks of the list changed. */
  ghost predicate OnlyData(view: seq<Block>, view': seq<Block>, L: seq<nat>, n: nat) {
    && |view'| == |view|
    && forall b | 0 <= b < |view| && (forall k | 0 <= k < n :: DataPos(k) < |L| && L[DataPos(k)] != b) ::
       view'[b] == view[b]
  }

  lemma SameSize(dev: BlockCacheManager)
    requires dev.Valid()
    ensures |dev.disk| == |dev.view|
  {
  }

  /** A word of an index block, while the inode's block is locked; none where the source is led off the device, past
      the block, or would wait for its own lock. */
  method IndexWord(dev: BlockCacheManager, at: InodePos, index: nat, i: nat) returns (r: Option<nat>)
    requires dev.Valid() && dev.held == {at.block}
    modifies dev
    ensures dev.Valid() && dev.held == old(dev.held) && dev.view == old(dev.view)
            && (old(dev.Synced()) ==> dev.Synced())
    ensures r == if Lockable(dev.view, at, index) && i < 128 then Some(Entry(dev.view, index, i)) else None
  {
    hide Coherent, Entry;
    SameSize(dev);
    if index >= |dev.disk| || index == at.block || i >= 128 { return None; }
    dev.Acquire(index);
    var b := PeekWord(dev, index, i);
    dev.Release(index);
    return Some(b);
  }

  /** `get_block_id`. */
  method GetBlockId(dev: BlockCacheManager, at: InodePos, k: nat) returns (r: Option<nat>)
    requires dev.Valid() && dev.held == {at.block} && InBlock(dev.view, at)
    modifies dev
    ensures dev.Valid() && dev.held == old(dev.held) && dev.view == old(dev.view)
            && (old(dev.Synced()) ==> dev.Synced())
    ensures r == Lookup(dev.view, at, k)
  {
    hide Coherent, Entry, Lockable;
    if k < 28 {
      var b := PeekWord(dev, at.block, at.base + 1 + k);
      return Some(b);
    } else if k < 156 {
      var index := PeekWord(dev, at.block, at.base + 29);
      r := IndexWord(dev, at, index, k - 28);
    } else {
      var index := PeekWord(dev, at.block, at.base + 30);
      r := IndexWord(dev, at, index, (k - 156) / 128);
      if r.None? { return; }
      r := IndexWord(dev, at, r.value, (k - 156) % 128);
    }
  }

  /** Reads what a byte string of the file's size would hold from `offset`, up to `len` bytes of it. */
  method ReadAt(dev: BlockCacheManager, at: InodePos, offset: nat, len: nat, ghost L: seq<nat>)
    returns (data: seq<byte>)
    requires dev.Valid() && dev.held == {at.block} && Separate(dev.view, at, L)
    requires Indexed(dev.view, at, L, DataBlocks(Size(dev.view, at))) && DataBlocks(Size(dev.view, at)) <= MAX_BLOCKS
    modifies dev
    ensures dev.Valid() && dev.held == old(dev.held) && dev.view == old(dev.view)
            && (old(dev.Synced()) ==> dev.Synced())
    ensures data == Window(Content(dev.view, L, Size(dev.view, at)), offset, len)
  {
    hide Coherent, Entry, DataPos, Indexed, Content, Lookup;
    var size := PeekWord(dev, at.block, at.base);
    var start, end := offset, Min(offset + len, size);
    data := [];
    if start >= end { return; }
    ghost var n, content := DataBlocks(size), Content(dev.view, L, size);
    var startBlock := start / 512;
    while true
      invariant offset <= start < end && startBlock == start / 512
      invariant dev.Valid() && dev.held == old(dev.held) && dev.view == old(dev.view)
                && (old(dev.Synced()) ==> dev.Synced())
      invariant data == content[offset..start]
      decreases end - start
    {
      var endCurrent := Min((start / 512 + 1) * 512, end);
      var count := endCurrent - start;
      var r := GetBlockId(dev, at, startBlock);
      LookupInside(dev.view, at, L, n, startBlock);
      var id := r.value;
      dev.Acquire(id);
      var block := dev.Load(id);
      var piece := block[start % 512..start % 512 + count];
      dev.Release(id);
      PieceIsContent(dev.view, L, size, start, count);
      SlicesJoin(content, offset, start, endCurrent);
      data := data + piece;
      if endCurrent == end { break; }
      startBlock := startBlock + 1;
      start := endCurrent;
    }
  }

  lemma PieceIsContent(view: seq<Block>, L: seq<nat>, size: nat, start: nat, count: nat)
    requires start % 512 + count <= 512 && start + count <= size
    requires DataPos(start / 512) < |L| && L[DataPos(start / 512)] < |view|
    ensures view[L[DataPos(start / 512)]][start % 512..start % 512 + count] ==
            Content(view, L, size)[start..start + count]
  {
    hide DataPos;
    var piece := view[L[DataPos(start / 512)]][start % 512..start % 512 + count];
    forall j | 0 <= j < count ensures piece[j] == Content(view, L, size)[start..start + count][j] {
      assert (start + j) / 512 == start / 512 && (start + j) % 512 == start % 512 + j;
      assert Content(view, L, size)[start + j] == ByteAt(view, L, start + j);
    }
  }

  lemma SlicesJoin<T>(s: seq<T>, a: nat, b: nat, c: nat)
    requires a <= b <= c <= |s|
    ensures s[a..b] + s[b..c] == s[a..c]
  {
  }

  function Min(a: nat, b: nat): nat {
    if a < b then a else b
  }

  /** The part of `s` a read of `len` bytes at `offset` delivers. */
  function Window(s: seq<byte>, offset: nat, len: nat): seq<byte> {
    if offset >= |s| then [] else s[offset..Min(offset + len, |s|)]
  }

  /** `s` with `piece` copied over it from `offset`. */
  function Splice(s: seq<byte>, offset: nat, piece: seq<byte>): (r: seq<byte>)
    requires offset + |piece| <= |s|
    ensures |r| == |s| && forall i | 0 <= i < |s| :: r[i] == if offset <= i < offset + |piece| then piece[i - offset]
                else s[i]
  {
    s[..offset] + piece + s[offset + |piece|..]
  }

  lemma SpliceTwice(s: seq<byte>, offset: nat, p: seq<byte>, q: seq<byte>)
    requires offset + |p| + |q| <= |s|
    ensures Splice(Splice(s, offset, p), offset + |p|, q) == Splice(s, offset, p + q)
  {
  }

  /** Writing into one data block changes the contents there and nothing else. */
  lemma WritePiece(view: seq<Block>, at: InodePos, L: seq<nat>, n: nat, start: nat, piece: seq<byte>)
    requires Separate(view, at, L) && Indexed(view, at, L, n)
    requires start % 512 + |piece| <= 512 && start < 512 * n
    ensures DataPos(start / 512) < |L| && L[DataPos(start / 512)] < |view| && start + |piece| <= 512 * n
    ensures var id := L[DataPos(start / 512)];
            var view' := view[id := SetBytes(view[id], start % 512, piece)];
            && Separate(view', at, L) && Indexed(view', at, L, n) && OnlyData(view, view', L, n)
            && Content(view', L, 512 * n) == Splice(Content(view, L, 512 * n), start, piece)
  {
    hide Entry, DataPos, Content, SetBytes;
    var id := L[DataPos(start / 512)];
    var view' := view[id := SetBytes(view[id], start % 512, piece)];
    DataPosInRange(start / 512, n);
    WriteKeepsIndex(view, view', at, L, n, start / 512);
    WrittenContent(view, view', L, n, start, piece);
  }

  lemma WriteKeepsIndex(view: seq<Block>, view': seq<Block>, at: InodePos, L: seq<nat>, n: nat, k: nat)
    requires Separate(view, at, L) && Indexed(view, at, L, n) && k < n
    requires |view'| == |view| && forall b | 0 <= b < |view| && b != L[DataPos(k)] :: view'[b] == view[b]
    ensures Indexed(view', at, L, n)
  {
    hide DataPos, Word;
    DataPosInRange(k, n);
    IndexPositions(0);
    forall a, i: nat | 0 <= a < SubCount(n) && 156 + 128 * a + i < n
      ensures SubPos(a) < |L| && Entry(view', L[SubPos(a)], i) == Entry(view, L[SubPos(a)], i)
    {
      SubPosInRange(a, n);
    }
    SameLookup(view, view', at, L, n);
  }

  lemma WrittenContent(view: seq<Block>, view': seq<Block>, L: seq<nat>, n: nat, start: nat, piece: seq<byte>)
    requires Total(n) <= |L| && (forall p | 0 <= p < |L| :: L[p] < |view|)
             && (forall p, q | 0 <= p < q < |L| :: L[p] != L[q])
    requires start % 512 + |piece| <= 512 && start < 512 * n
    requires DataPos(start / 512) < |L| && start + |piece| <= 512 * n
    requires view' == view[L[DataPos(start / 512)] := SetBytes(view[L[DataPos(start / 512)]], start % 512, piece)]
    ensures Content(view', L, 512 * n) == Splice(Content(view, L, 512 * n), start, piece)
  {
    hide DataPos, SetBytes, Splice, Content;
    forall i | 0 <= i < 512 * n
      ensures ByteAt(view', L, i) == if start <= i < start + |piece| then piece[i - start] else ByteAt(view, L, i)
    {
      DataPosInRange(i / 512, n);
      DataPosInjective(i / 512, start / 512);
      if i / 512 == start / 512 {
        assert i - start == i % 512 - start % 512;
      }
    }
  }

  lemma OnlyDataTransitive(v0: seq<Block>, v1: seq<Block>, v2: seq<Block>, L: seq<nat>, n: nat)
    requires OnlyData(v0, v1, L, n) && OnlyData(v1, v2, L, n)
    ensures OnlyData(v0, v2, L, n)
  {
    hide DataPos;
  }

  /** Writes over the file's blocks from `offset`, up to the size. An empty write at the end of a file whose size is a
      multiple of 512 looks up a block the file does not have; `ok` says that the lookup leads to a block that can be
      fetched, which is then written back as it is. */
  method WriteAt(dev: BlockCacheManager, at: InodePos, offset: nat, buf: seq<byte>, ghost L: seq<nat>)
    returns (ok: bool, written: nat)
    requires dev.Valid() && dev.held == {at.block} && Separate(dev.view, at, L)
    requires Indexed(dev.view, at, L, DataBlocks(Size(dev.view, at))) && DataBlocks(Size(dev.view, at)) <= MAX_BLOCKS
    requires offset <= Size(dev.view, at)
    modifies dev
    ensures dev.Valid() && dev.held == old(dev.held)
    ensures var n := DataBlocks(Size(old(dev.view), at));
            && (ok <==> offset < 512 * n || Lands(old(dev.view), at, n))
            && Separate(dev.view, at, L) && Indexed(dev.view, at, L, n) && OnlyData(old(dev.view), dev.view, L, n)
            && written == (if ok then Min(offset + |buf|, Size(old(dev.view), at)) - offset else 0)
            && written <= |buf| && offset + written <= 512 * n
            && Content(dev.view, L, 512 * n) == Splice(Content(old(dev.view), L, 512 * n), offset, buf[..written])
  {
    hide Coherent, Entry, DataPos, Indexed, Content, SetBytes, Splice, Lookup, OnlyData, Separate;
    ghost var v0 := dev.view;
    InodeInBlock(v0, at, L);
    var size := PeekWord(dev, at.block, at.base);
    ghost var n, c0 := DataBlocks(size), Content(dev.view, L, 512 * DataBlocks(size));
    var start, end := offset, Min(offset + |buf|, size);
    var startBlock := start / 512;
    written := 0;
    NothingSpliced(c0, offset, buf);
    OnlyDataSame(v0, L, n);
    while true
      invariant offset <= start <= end && startBlock == start / 512 && written == start - offset
      invariant start > offset ==> start < end
      invariant dev.Valid() && dev.held == old(dev.held) && (start == offset ==> dev.view == v0)
      invariant Separate(dev.view, at, L) && Indexed(dev.view, at, L, n) && OnlyData(v0, dev.view, L, n)
      invariant Content(dev.view, L, 512 * n) == Splice(c0, offset, buf[..written])
      decreases end - start
    {
      var endCurrent := Min((start / 512 + 1) * 512, end);
      var count := endCurrent - start;
      ghost var v1 := dev.view;
      ok := WritePart(dev, at, start, buf[written..written + count], L, n);
      if !ok { return false, 0; }
      OnlyDataTransitive(v0, v1, dev.view, L, n);
      SpliceTwice(c0, offset, buf[..written], buf[written..written + count]);
      SlicesJoin(buf, 0, written, written + count);
      written := written + count;
      if endCurrent == end { break; }
      startBlock := startBlock + 1;
      start := endCurrent;
    }
  }

  /** One turn of the loop of `write_at`: part of one block, or nothing at the very end. */
  method WritePart(dev: BlockCacheManager, at: InodePos, start: nat, piece: seq<byte>, ghost L: seq<nat>, ghost n: nat)
    returns (ok: bool)
    requires dev.Valid() && dev.held == {at.block} && Separate(dev.view, at, L) && Indexed(dev.view, at, L, n)
             && n <= MAX_BLOCKS
    requires start % 512 + |piece| <= 512 && (start < 512 * n || (start == 512 * n && piece == []))
    modifies dev
    ensures dev.Valid() && dev.held == old(dev.held) && (ok <==> start < 512 * n || Lands(old(dev.view), at, n))
    ensures Separate(dev.view, at, L) && Indexed(dev.view, at, L, n) && OnlyData(old(dev.view), dev.view, L, n)
    ensures !ok ==> dev.view == old(dev.view)
    ensures ok ==> start + |piece| <= 512 * n
                   && Content(dev.view, L, 512 * n) == Splice(Content(old(dev.view), L, 512 * n), start, piece)
  {
    hide Coherent, Entry, DataPos, Indexed, Content, SetBytes, Splice, Lookup, Separate, OnlyData;
    ghost var v1 := dev.view;
    InodeInBlock(v1, at, L);
    OnlyDataSame(v1, L, n);
    var r := GetBlockId(dev, at, start / 512);
    SameSize(dev);
    if start < 512 * n {
      LookupInside(v1, at, L, n, start / 512);
      WritePiece(v1, at, L, n, start, piece);
    }
    if r.None? || r.value >= |dev.disk| || r.value == at.block { return false; }
    if start == 512 * n {
      NothingWritten(v1[r.value], start % 512, piece);
      NothingSpliced(Content(v1, L, 512 * n), start, piece);
      assert piece[..0] == piece && v1[r.value := v1[r.value]] == v1;
    }
    WriteBlock(dev, r.value, start % 512, piece);
    return true;
  }

  lemma InodeInBlock(view: seq<Block>, at: InodePos, L: seq<nat>)
    requires Separate(view, at, L)
    ensures InBlock(view, at)
  {
  }

  lemma OnlyDataSame(view: seq<Block>, L: seq<nat>, n: nat)
    ensures OnlyData(view, view, L, n)
  {
  }

  lemma NothingSpliced(s: seq<byte>, offset: nat, buf: seq<byte>)
    requires offset <= |s|
    ensures Splice(s, offset, buf[..0]) == s
  {
    hide Splice;
  }

  lemma NothingWritten(b: Block, off: nat, piece: seq<byte>)
    requires piece == [] && off <= 512
    ensures SetBytes(b, off, piece) == b
  {
  }

  method WriteBlock(dev: BlockCacheManager, id: nat, from: nat, piece: seq<byte>)
    requires dev.Valid() && id < |dev.view| && id !in dev.held && |dev.held| < BLOCK_CACHE_SIZE && from + |piece| <= 512
    modifies dev
    ensures dev.Valid() && dev.held == old(dev.held)
            && dev.view == old(dev.view)[id := SetBytes(old(dev.view)[id], from, piece)]
  {
    hide Coherent, SetBytes;
    dev.Acquire(id);
    var block := dev.Load(id);
    dev.Store(id, SetBytes(block, from, piece));
    dev.Release(id);
  }
}
