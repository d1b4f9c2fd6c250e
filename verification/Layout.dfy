/** On-disk inodes (easy-fs/src/layout.rs): direct, indirect and double-indirect indexing.

    The blocks an inode owns, data and index, form one list `L` in the order in which growth consumes
    them. `Indexed` says where the inode and its index blocks record that list. */
module Layouts {
  import opened Bits
  import opened Blocks
  import opened Options

  const MAX_BLOCKS: nat := 16540 // 28 direct, 128 indirect, 128 * 128 double indirect

  /** Where an inode lies: its block and the first of its 32 words there. */
  datatype InodePos = InodePos(block: nat, base: nat)

  function DataBlocks(size: nat): nat {
    (size + 511) / 512
  }

  /** `total_blocks`: data and index blocks of a file of `size` bytes. */
  function TotalBlocks(size: nat): nat {
    Total(DataBlocks(size))
  }

  function Total(n: nat): nat {
    n + (if n > 28 then 1 else 0) + (if n > 156 then 1 + (n - 156 + 127) / 128 else 0)
  }

  /** Position in the list of the `k`-th data block. */
  function DataPos(k: nat): nat {
    if k < 28 then k else if k < 156 then k + 1 else k + 3 + (k - 156) / 128
  }

  /** Position in the list of the `a`-th block of the second level. */
  function SubPos(a: nat): nat {
    158 + 129 * a
  }

  /** How many second-level blocks `n` data blocks need. */
  function SubCount(n: nat): nat {
    if n > 156 then (n - 156 + 127) / 128 else 0
  }

  predicate IsIndexPos(p: nat) {
    p == 28 || p == 157 || (p >= 158 && (p - 158) % 129 == 0)
  }

  lemma DataPosInRange(k: nat, n: nat)
    requires k < n
    ensures DataPos(k) < Total(n) && !IsIndexPos(DataPos(k))
  {
    if k >= 156 {
      var a, b := (k - 156) / 128, (k - 156) % 128;
      assert DataPos(k) == 158 + 129 * a + (1 + b);
      ModUnique(DataPos(k) - 158, 129, a, 1 + b);
    }
  }

  lemma SubPosInRange(a: nat, n: nat)
    requires a < SubCount(n)
    ensures SubPos(a) < Total(n) && IsIndexPos(SubPos(a))
  {
  }

  /** Data positions are distinct, so data blocks are. */
  lemma DataPosInjective(j: nat, k: nat)
    ensures DataPos(j) == DataPos(k) <==> j == k
  {
  }

  /** Growing by one data block consumes its index blocks first, then the block itself. */
  lemma TotalSteps(c: nat)
    ensures Total(c + 1) == DataPos(c) + 1
    ensures c == 28 ==> Total(c) == 28 && DataPos(c) == 29
    ensures c == 156 ==> Total(c) == 157 && DataPos(c) == 159
    ensures c >= 156 && (c - 156) % 128 == 0 ==> DataPos(c) == SubPos((c - 156) / 128) + 1
    ensures c > 156 && (c - 156) % 128 == 0 ==> Total(c) == SubPos((c - 156) / 128)
    ensures c != 28 && (c < 156 || (c - 156) % 128 != 0) ==> Total(c) == DataPos(c)
  {
  }

  lemma TotalMonotone(m: nat, n: nat)
    requires m <= n
    ensures Total(m) <= Total(n)
  {
  }

  // ---------------------------------------------------------------- words of the block array

  /** Word `i` of block `b`. */
  ghost function Entry(view: seq<Block>, b: nat, i: nat): nat {
    if b < |view| && i < 128 then Word(view[b], i) else 0
  }

  /** Replaces word `i` of block `b`. */
  ghost function Poke(view: seq<Block>, b: nat, i: nat, v: nat): (r: seq<Block>)
    requires b < |view| && i < 128 && v < WORD_LIMIT
    ensures |r| == |view| && (forall c | 0 <= c < |view| && c != b :: r[c] == view[c])
    ensures forall c: nat, j: nat :: Entry(r, c, j) == if c == b && j == i then v else Entry(view, c, j)
  {
    view[b := SetWord(view[b], i, v)]
  }

  // ---------------------------------------------------------------- inode fields

  ghost function Size(view: seq<Block>, at: InodePos): nat {
    Entry(view, at.block, at.base)
  }

  ghost function Direct(view: seq<Block>, at: InodePos, k: nat): nat {
    Entry(view, at.block, at.base + 1 + k)
  }

  ghost function Indirect1(view: seq<Block>, at: InodePos): nat {
    Entry(view, at.block, at.base + 29)
  }

  ghost function Indirect2(view: seq<Block>, at: InodePos): nat {
    Entry(view, at.block, at.base + 30)
  }

  /** 0 for a file, 1 for a directory. */
  ghost function Kind(view: seq<Block>, at: InodePos): nat {
    Entry(view, at.block, at.base + 31)
  }

  /** `get_block_id`: the block that holds the `k`-th block of the contents. */
  ghost function BlockId(view: seq<Block>, at: InodePos, k: nat): nat {
    if k < 28 then Direct(view, at, k)
    else if k < 156 then Entry(view, Indirect1(view, at), k - 28)
    else Entry(view, Entry(view, Indirect2(view, at), (k - 156) / 128), (k - 156) % 128)
  }

  /** The block can be fetched while the inode's own block is locked. */
  ghost predicate Lockable(view: seq<Block>, at: InodePos, b: nat) {
    b < |view| && b != at.block
  }

  /** `get_block_id` as the code finds it: none if it is led to a block off the device, to the locked block of the
      inode itself, or past the last entry of an index block. */
  ghost function Lookup(view: seq<Block>, at: InodePos, k: nat): Option<nat> {
    if k < 28 then Some(Direct(view, at, k))
    else if k < 156 then
      if Lockable(view, at, Indirect1(view, at)) then Some(Entry(view, Indirect1(view, at), k - 28)) else None
    else
      var last := k - 156;
      if !Lockable(view, at, Indirect2(view, at)) || last / 128 >= 128 then None else
        var sub := Entry(view, Indirect2(view, at), last / 128);
        if Lockable(view, at, sub) then Some(Entry(view, sub, last % 128)) else None
  }

  ghost predicate InBlock(view: seq<Block>, at: InodePos) {
    at.block < |view| && at.base + 32 <= 128
  }

  /** The first `n` data blocks of the inode, and the index blocks they need, are recorded as `L` lists them. */
  ghost predicate Indexed(view: seq<Block>, at: InodePos, L: seq<nat>, n: nat) {
    && Total(n) <= |L|
    && (forall k | 0 <= k < n :: DataPos(k) < |L| && BlockId(view, at, k) == L[DataPos(k)])
    && (n > 28 ==> Indirect1(view, at) == L[28])
    && (n > 156 ==> Indirect2(view, at) == L[157])
    && (forall a | 0 <= a < SubCount(n) :: SubPos(a) < |L| && Entry(view, Indirect2(view, at), a) == L[SubPos(a)])
  }

  /** Whatever of the index the first `n` data blocks do not use is zero. */
  ghost predicate Unfilled(view: seq<Block>, at: InodePos, L: seq<nat>, n: nat) {
    && (forall k: nat | n <= k < 28 :: Direct(view, at, k) == 0)
    && (n <= 28 ==> Indirect1(view, at) == 0)
    && (n <= 156 ==> Indirect2(view, at) == 0)
    && (n > 28 ==> 28 < |L| && forall i: nat | n <= 28 + i < 156 :: Entry(view, L[28], i) == 0)
    && (n > 156 ==> 157 < |L| && forall a: nat | SubCount(n) <= a < 128 :: Entry(view, L[157], a) == 0)
    && (forall a: nat, i: nat | a < SubCount(n) && i < 128 && n <= 156 + 128 * a + i ::
        SubPos(a) < |L| && Entry(view, L[SubPos(a)], i) == 0)
  }

  /** The listed blocks exist, are distinct, and none is the inode's own block. */
  ghost predicate Separate(view: seq<Block>, at: InodePos, L: seq<nat>) {
    && InBlock(view, at)
    && (forall p | 0 <= p < |L| :: L[p] < |view| && L[p] < WORD_LIMIT && L[p] != at.block)
    && (forall p, q | 0 <= p < q < |L| :: L[p] != L[q])
  }

  /** Only the inode's fields other than its kind, and its index blocks, changed. */
  ghost predicate OnlyIndex(view: seq<Block>, view': seq<Block>, at: InodePos, L: seq<nat>) {
    && |view'| == |view|
    && (forall b | 0 <= b < |view| && b != at.block && (forall p | 0 <= p < |L| && IsIndexPos(p) :: L[p] != b) ::
        view'[b] == view[b])
    && OnlyInode(view, view', at)
  }

  /** In the inode's block, only the words of this inode other than its kind changed. */
  ghost predicate OnlyInode(view: seq<Block>, view': seq<Block>, at: InodePos) {
    forall i: nat | i < at.base || at.base + 31 <= i :: Entry(view', at.block, i) == Entry(view, at.block, i)
  }

  lemma OnlyIndexTransitive(v0: seq<Block>, v1: seq<Block>, v2: seq<Block>, at: InodePos, L: seq<nat>)
    requires OnlyIndex(v0, v1, at, L) && OnlyIndex(v1, v2, at, L)
    ensures OnlyIndex(v0, v2, at, L)
  {
    hide Entry, IsIndexPos;
  }

  // ---------------------------------------------------------------- lookups

  /** Within the file, a lookup finds the block the list says. */
  lemma LookupInside(view: seq<Block>, at: InodePos, L: seq<nat>, n: nat, k: nat)
    requires Separate(view, at, L) && Indexed(view, at, L, n) && k < n <= MAX_BLOCKS
    ensures DataPos(k) < |L| && Lookup(view, at, k) == Some(L[DataPos(k)]) && Lockable(view, at, L[DataPos(k)])
  {
    hide Entry, DataPos;
    assert BlockId(view, at, k) == L[DataPos(k)];
    if k >= 156 {
      var a := (k - 156) / 128;
      assert a < SubCount(n) && a < 128;
      SubPosInRange(a, n);
    }
  }

  /** The numbers of data blocks at which the next block would need an index block of its own. */
  predicate NoBlock(n: nat) {
    n == 28 || (n >= 156 && (n - 156) % 128 == 0)
  }

  /** Just past the end of a file, a lookup finds 0, unless it goes through an index block that is not there: then
      block 0 stands in for it, and the first word of block 0 is taken for a block number. */
  lemma LookupPastEnd(view: seq<Block>, at: InodePos, L: seq<nat>, n: nat)
    requires Separate(view, at, L) && Unfilled(view, at, L, n) && Indexed(view, at, L, n) && n <= MAX_BLOCKS
             && 0 < |view| && at.block != 0
    ensures !NoBlock(n) ==> Lookup(view, at, n) == Some(0)
    ensures n == 28 || (156 < n < MAX_BLOCKS && NoBlock(n)) ==> Lookup(view, at, n) == Some(Entry(view, 0, 0))
    ensures n == 156 && !Lockable(view, at, Entry(view, 0, 0)) ==> Lookup(view, at, n) == None
    ensures n == MAX_BLOCKS ==> Lookup(view, at, n) == None
  {
    hide Entry, DataPos;
    if n > 156 {
      var a, i := (n - 156) / 128, (n - 156) % 128;
      if i > 0 {
        assert SubCount(n) == a + 1;
        SubPosInRange(a, n);
        assert Entry(view, L[157], a) == L[SubPos(a)] && Entry(view, L[SubPos(a)], i) == 0;
      } else {
        assert SubCount(n) == a;
        if a < 128 { assert Entry(view, L[157], a) == 0; }
      }
    } else if 28 < n < 156 {
      assert Entry(view, L[28], n - 28) == 0;
    }
  }

  /** The lookup for the `k`-th block ends at a block that can be fetched. */
  ghost predicate Lands(view: seq<Block>, at: InodePos, k: nat) {
    Lookup(view, at, k).Some? && Lockable(view, at, Lookup(view, at, k).value)
  }

  /** On a device too small to have a block numbered by the magic, which its first word is, the lookup past the end
      fails exactly where an index block is missing. */
  lemma LandsPastEnd(view: seq<Block>, at: InodePos, L: seq<nat>, n: nat)
    requires Separate(view, at, L) && Unfilled(view, at, L, n) && Indexed(view, at, L, n) && n <= MAX_BLOCKS
             && 0 < |view| && at.block != 0
    ensures !NoBlock(n) ==> Lands(view, at, n)
    ensures |view| <= Entry(view, 0, 0) ==> (Lands(view, at, n) <==> !NoBlock(n))
  {
    hide Entry, Indexed, Unfilled, Separate, Lookup;
    LookupPastEnd(view, at, L, n);
  }
}
