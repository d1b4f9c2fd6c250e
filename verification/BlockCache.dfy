/** The write-back block cache (easy-fs/src/block_cache.rs).

    `view` is the flat array of blocks that users of the cache see; `held` is the set of blocks whose
    cache is locked by a caller. `Valid` ties both to the device, the queue and the reference counts. */
module BlockCaches {
  import opened Blocks

  const BLOCK_CACHE_SIZE: nat := 16

  /** A `BlockCache` together with the strong count of the `Arc` that owns it. */
  datatype BlockCache = BlockCache(blockId: nat, cache: Block, modified: bool, strong: nat)

  predicate Cached(queue: seq<BlockCache>, blockId: nat) {
    exists i :: 0 <= i < |queue| && queue[i].blockId == blockId
  }

  function Ids(queue: seq<BlockCache>): (ids: set<nat>)
    ensures forall b :: b in ids <==> Cached(queue, b)
  {
    set i | 0 <= i < |queue| :: queue[i].blockId
  }

  ghost predicate Distinct(queue: seq<BlockCache>) {
    forall i, j | 0 <= i < j < |queue| :: queue[i].blockId != queue[j].blockId
  }

  lemma {:induction false} DistinctCount(queue: seq<BlockCache>)
    requires Distinct(queue)
    ensures |Ids(queue)| == |queue|
  {
    if queue != [] {
      var init, last := queue[..|queue| - 1], queue[|queue| - 1];
      DistinctCount(init);
      assert queue == init + [last];
      IdsAppend(init, last);
      assert last.blockId !in Ids(init);
    }
  }

  lemma IdsAppend(queue: seq<BlockCache>, c: BlockCache)
    ensures Ids(queue + [c]) == Ids(queue) + {c.blockId}
  {
    var q := queue + [c];
    forall b | Cached(q, b) && b != c.blockId ensures Cached(queue, b) {
      var i :| 0 <= i < |q| && q[i].blockId == b;
      assert queue[i].blockId == b;
    }
    forall b | Cached(queue, b) ensures Cached(q, b) {
      var i :| 0 <= i < |queue| && queue[i].blockId == b;
      assert q[i].blockId == b;
    }
    assert q[|queue|].blockId == c.blockId;
  }

  /** A slot is written back when it is synced, or dropped by eviction. */
  function WriteBack(disk: seq<Block>, c: BlockCache): seq<Block>
    requires c.blockId < |disk|
  {
    if c.modified then disk[c.blockId := c.cache] else disk
  }

  /** One slot of the queue agrees with the view, the device and the locks. */
  ghost predicate SlotOk(c: BlockCache, disk: seq<Block>, view: seq<Block>, held: set<nat>)
    requires |view| == |disk|
  {
    && c.blockId < |disk|
    && c.cache == view[c.blockId]
    && (!c.modified ==> c.cache == disk[c.blockId])
    && c.strong == (if c.blockId in held then 2 else 1)
  }

  ghost predicate Coherent(disk: seq<Block>, queue: seq<BlockCache>, view: seq<Block>, held: set<nat>) {
    && |view| == |disk|
    && |queue| <= BLOCK_CACHE_SIZE
    && Distinct(queue)
    && (forall i | 0 <= i < |queue| :: SlotOk(queue[i], disk, view, held))
    && (forall b | 0 <= b < |disk| :: Cached(queue, b) || view[b] == disk[b])
    && (forall b | b in held :: Cached(queue, b))
  }

  /** `get_block_cache` panics when the block is not cached, the queue is full and every slot is in use. */
  predicate Exhausted(queue: seq<BlockCache>, blockId: nat) {
    && !Cached(queue, blockId)
    && |queue| == BLOCK_CACHE_SIZE
    && forall i | 0 <= i < |queue| :: queue[i].strong != 1
  }

  /** Which blocks are cached, the longest cached first. */
  ghost function Order(queue: seq<BlockCache>): (s: seq<nat>)
    ensures |s| == |queue| && forall i | 0 <= i < |s| :: s[i] == queue[i].blockId
  {
    seq(|queue|, i requires 0 <= i < |queue| => queue[i].blockId)
  }

  /** A block that is not cached joins at the end. If sixteen are, the first that nobody holds makes room for it. */
  ghost predicate Replaced(q: seq<nat>, q': seq<nat>, held: set<nat>, b: nat) {
    if b in q then q' == q
    else if |q| < 16 then q' == q + [b]
    else exists v :: 0 <= v < |q| && q[v] !in held && (forall i | 0 <= i < v :: q[i] in held)
                     && q' == q[..v] + q[v + 1..] + [b]
  }

  lemma HeldCounts(disk: seq<Block>, queue: seq<BlockCache>, view: seq<Block>, held: set<nat>)
    requires Coherent(disk, queue, view, held)
    ensures forall i | 0 <= i < |queue| :: queue[i].strong == 1 <==> queue[i].blockId !in held
  {
    forall i | 0 <= i < |queue| ensures queue[i].strong == 1 <==> queue[i].blockId !in held {
      assert SlotOk(queue[i], disk, view, held);
    }
  }

  /** The cache runs out exactly when callers hold sixteen other blocks. */
  lemma ExhaustedIffAllHeld(disk: seq<Block>, queue: seq<BlockCache>, view: seq<Block>, held: set<nat>, blockId: nat)
    requires Coherent(disk, queue, view, held) && blockId !in held
    ensures |held| <= 16 && |queue| <= 16 && |view| == |disk|
    ensures Exhausted(queue, blockId) <==> |held| == 16
  {
    DistinctCount(queue);
    assert held <= Ids(queue);
    SubsetCount(held, Ids(queue));
    if |held| == BLOCK_CACHE_SIZE {
      assert held == Ids(queue);
      forall i | 0 <= i < |queue| ensures queue[i].strong != 1 { assert SlotOk(queue[i], disk, view, held); }
    }
    if Exhausted(queue, blockId) {
      forall b | b in Ids(queue) ensures b in held {
        var i :| 0 <= i < |queue| && queue[i].blockId == b;
        assert SlotOk(queue[i], disk, view, held);
      }
      assert held == Ids(queue);
    }
  }

  lemma {:induction false} SubsetCount(a: set<nat>, b: set<nat>)
    requires a <= b
    ensures |a| <= |b|
    ensures |a| == |b| ==> a == b
    decreases a
  {
    if a != {} {
      var x :| x in a;
      SubsetCount(a - {x}, b - {x});
      assert a == (a - {x}) + {x} && b == (b - {x}) + {x};
    }
  }

  class BlockCacheManager {
    var disk: seq<Block>
    var queue: seq<BlockCache>
    ghost var view: seq<Block>
    ghost var held: set<nat>

    ghost predicate Valid()
      reads this
    {
      Coherent(disk, queue, view, held)
    }

    /** The device itself holds what callers see. */
    ghost predicate Synced()
      reads this
    {
      disk == view
    }

    constructor (disk: seq<Block>)
      ensures Valid() && view == disk == this.disk && held == {}
    {
      this.disk, queue, view, held := disk, [], disk, {};
    }

    /** The queue position of a block's cache, or the queue length. */
    method FindSlot(blockId: nat) returns (i: nat)
      ensures i <= |queue|
      ensures i < |queue| ==> queue[i].blockId == blockId
      ensures i == |queue| ==> !Cached(queue, blockId)
    {
      i := 0;
      while i < |queue| && queue[i].blockId != blockId
        invariant i <= |queue|
        invariant forall j | 0 <= j < i :: queue[j].blockId != blockId
      {
        i := i + 1;
      }
    }

    /** The first slot nobody outside the manager refers to, or the queue length. */
    method FindVictim() returns (i: nat)
      ensures i <= |queue|
      ensures i < |queue| ==> queue[i].strong == 1
      ensures forall j | 0 <= j < i :: queue[j].strong != 1
    {
      i := 0;
      while i < |queue| && queue[i].strong != 1
        invariant i <= |queue|
        invariant forall j | 0 <= j < i :: queue[j].strong != 1
      {
        i := i + 1;
      }
    }

    /** Dropping an unreferenced slot writes it back, so what callers see does not change. */
    method Evict(i: nat)
      requires Valid() && i < |queue| && queue[i].strong == 1
      modifies this`disk, this`queue
      ensures Valid() && |queue| == |old(queue)| - 1 && |disk| == |old(disk)|
      ensures Order(queue) == old(Order(queue)[..i] + Order(queue)[i + 1..])
      ensures forall b | Cached(queue, b) :: Cached(old(queue), b)
      ensures old(Synced()) ==> Synced()
    {
      assert SlotOk(queue[i], disk, view, held);
      EvictKeeps(disk, queue, view, held, i);
      disk := WriteBack(disk, queue[i]);
      queue := queue[..i] + queue[i + 1..];
    }

    /** `get_block_cache`, and `lock` on what it returns: the cache of the block, which may push out another. */
    method Obtain(blockId: nat)
      requires Valid() && blockId < |view| && blockId !in held
      requires |held| < BLOCK_CACHE_SIZE
      modifies this
      ensures Valid() && view == old(view) && held == old(held) + {blockId}
      ensures Replaced(old(Order(queue)), Order(queue), old(held), blockId)
      ensures old(Synced()) ==> Synced()
    {
      hide Coherent;
      ghost var q := Order(queue);
      ExhaustedIffAllHeld(disk, queue, view, held, blockId);
      HeldCounts(disk, queue, view, held);
      var i := FindSlot(blockId);
      if i < |queue| {
        AcquireCached(disk, queue, view, held, i);
        queue := queue[i := queue[i].(strong := queue[i].strong + 1)];
        assert q[i] == blockId && Order(queue) == q;
      } else {
        if |queue| == BLOCK_CACHE_SIZE {
          var victim := FindVictim();
          assert forall j | 0 <= j < victim :: q[j] in held;
          Evict(victim);
        }
        AcquireFresh(disk, queue, view, held, blockId);
        ghost var rest := Order(queue);
        queue := queue + [BlockCache(blockId, disk[blockId], false, 2)];
        assert Order(queue) == rest + [blockId];
      }
      held := held + {blockId};
    }

    /** The same for callers to whom only the blocks matter. A second lock of a held block would never return. */
    method Acquire(blockId: nat)
      requires Valid() && blockId < |view| && blockId !in held
      requires |held| < BLOCK_CACHE_SIZE
      modifies this
      ensures Valid() && view == old(view) && held == old(held) + {blockId}
      ensures old(Synced()) ==> Synced()
    {
      Obtain(blockId);
    }

    /** Dropping the guard and the caller's reference. */
    method Release(blockId: nat)
      requires Valid() && blockId in held
      modifies this`queue, this`held
      ensures Valid() && view == old(view) && held == old(held) - {blockId}
    {
      var i := FindSlot(blockId);
      ReleaseKeeps(disk, queue, view, held, i);
      queue := queue[i := queue[i].(strong := queue[i].strong - 1)];
      held := held - {blockId};
    }

    /** What `read` hands to its closure. */
    method Load(blockId: nat) returns (b: Block)
      requires Valid() && blockId in held
      ensures blockId < |view| && b == view[blockId]
    {
      var i := FindSlot(blockId);
      assert SlotOk(queue[i], disk, view, held);
      b := queue[i].cache;
    }

    /** One update made by the closure of `modify`. */
    method Store(blockId: nat, b: Block)
      requires Valid() && blockId in held
      modifies this
      ensures Valid() && blockId < |old(view)| && view == old(view)[blockId := b] && held == old(held)
    {
      var i := FindSlot(blockId);
      StoreKeeps(disk, queue, view, held, i, b);
      queue := queue[i := queue[i].(cache := b, modified := true)];
      view := view[blockId := b];
    }

    /** `block_cache_sync_all`: it locks every slot, so no block may be held; afterwards the device itself
        holds what callers see. */
    method SyncAll()
      requires Valid() && held == {}
      modifies this
      ensures Valid() && view == old(view) && held == {} && Synced()
    {
      var i := 0;
      while i < |queue|
        invariant i <= |queue| && Valid() && view == old(view) && held == {}
        invariant forall j | 0 <= j < i :: !queue[j].modified
      {
        SyncKeeps(disk, queue, view, held, i);
        disk, queue := WriteBack(disk, queue[i]), queue[i := queue[i].(modified := false)];
        i := i + 1;
      }
      SyncedIsView(disk, queue, view, held);
    }
  }

  lemma EvictKeeps(disk: seq<Block>, queue: seq<BlockCache>, view: seq<Block>, held: set<nat>, i: nat)
    requires Coherent(disk, queue, view, held) && i < |queue| && queue[i].strong == 1
    ensures Coherent(WriteBack(disk, queue[i]), queue[..i] + queue[i + 1..], view, held)
    ensures forall b | Cached(queue[..i] + queue[i + 1..], b) :: Cached(queue, b)
  {
    var q := queue[..i] + queue[i + 1..];
    var d := WriteBack(disk, queue[i]);
    RestCached(queue, i);
    hide Cached;
    assert SlotOk(queue[i], disk, view, held);
    forall j | 0 <= j < |q| ensures SlotOk(q[j], d, view, held) {
      var k := if j < i then j else j + 1;
      assert q[j] == queue[k] && SlotOk(queue[k], disk, view, held);
    }
  }

  lemma RestCached(queue: seq<BlockCache>, i: nat)
    requires i < |queue|
    ensures var q := queue[..i] + queue[i + 1..];
            && (forall b | Cached(queue, b) && b != queue[i].blockId :: Cached(q, b))
            && (forall b | Cached(q, b) :: Cached(queue, b))
  {
    var q := queue[..i] + queue[i + 1..];
    forall b | Cached(queue, b) && b != queue[i].blockId ensures Cached(q, b) {
      var k :| 0 <= k < |queue| && queue[k].blockId == b;
      assert q[if k < i then k else k - 1] == queue[k];
    }
    forall b | Cached(q, b) ensures Cached(queue, b) {
      var j :| 0 <= j < |q| && q[j].blockId == b;
      assert q[j] == queue[if j < i then j else j + 1];
    }
  }

  lemma AcquireCached(disk: seq<Block>, queue: seq<BlockCache>, view: seq<Block>, held: set<nat>, i: nat)
    requires Coherent(disk, queue, view, held) && i < |queue| && queue[i].blockId !in held
    ensures Coherent(disk, queue[i := queue[i].(strong := queue[i].strong + 1)], view, held + {queue[i].blockId})
  {
    ReplaceSlot(disk, queue, view, held, disk, view, held + {queue[i].blockId}, i,
                queue[i].(strong := queue[i].strong + 1));
  }

  lemma ReleaseKeeps(disk: seq<Block>, queue: seq<BlockCache>, view: seq<Block>, held: set<nat>, i: nat)
    requires Coherent(disk, queue, view, held) && i < |queue| && queue[i].blockId in held
    ensures queue[i].strong > 0
    ensures Coherent(disk, queue[i := queue[i].(strong := queue[i].strong - 1)], view, held - {queue[i].blockId})
  {
    assert SlotOk(queue[i], disk, view, held);
    ReplaceSlot(disk, queue, view, held, disk, view, held - {queue[i].blockId}, i,
                queue[i].(strong := queue[i].strong - 1));
  }

  lemma StoreKeeps(disk: seq<Block>, queue: seq<BlockCache>, view: seq<Block>, held: set<nat>, i: nat, b: Block)
    requires Coherent(disk, queue, view, held) && i < |queue|
    ensures queue[i].blockId < |view|
    ensures Coherent(disk, queue[i := queue[i].(cache := b, modified := true)], view[queue[i].blockId := b], held)
  {
    assert SlotOk(queue[i], disk, view, held);
    ReplaceSlot(disk, queue, view, held, disk, view[queue[i].blockId := b], held, i,
                queue[i].(cache := b, modified := true));
  }

  lemma SyncKeeps(disk: seq<Block>, queue: seq<BlockCache>, view: seq<Block>, held: set<nat>, i: nat)
    requires Coherent(disk, queue, view, held) && i < |queue|
    ensures queue[i].blockId < |disk|
    ensures Coherent(WriteBack(disk, queue[i]), queue[i := queue[i].(modified := false)], view, held)
  {
    assert SlotOk(queue[i], disk, view, held);
    ReplaceSlot(disk, queue, view, held, WriteBack(disk, queue[i]), view, held, i, queue[i].(modified := false));
  }

  /** Replacing one slot, with effects on the device, the view and the locks at that block only. */
  lemma ReplaceSlot(disk: seq<Block>, queue: seq<BlockCache>, view: seq<Block>, held: set<nat>,
                    disk': seq<Block>, view': seq<Block>, held': set<nat>, i: nat, c: BlockCache)
    requires Coherent(disk, queue, view, held) && i < |queue|
    requires |view'| == |disk'| == |disk| && c.blockId == queue[i].blockId
    requires forall b | 0 <= b < |disk| && b != c.blockId :: disk'[b] == disk[b] && view'[b] == view[b]
                                                             && (b in held' <==> b in held)
    requires forall b | b in held' :: b in held || b == c.blockId
    requires SlotOk(c, disk', view', held')
    ensures Coherent(disk', queue[i := c], view', held')
  {
    var q := queue[i := c];
    forall j | 0 <= j < |q| ensures SlotOk(q[j], disk', view', held') {
      if j != i { assert SlotOk(queue[j], disk, view, held) && queue[j].blockId != c.blockId; }
    }
    forall b | Cached(queue, b) ensures Cached(q, b) {
      var j :| 0 <= j < |queue| && queue[j].blockId == b;
      assert q[j].blockId == b;
    }
  }

  lemma AcquireFresh(disk: seq<Block>, queue: seq<BlockCache>, view: seq<Block>, held: set<nat>, blockId: nat)
    requires Coherent(disk, queue, view, held) && |queue| < BLOCK_CACHE_SIZE
    requires blockId < |disk| && !Cached(queue, blockId)
    ensures Coherent(disk, queue + [BlockCache(blockId, disk[blockId], false, 2)], view, held + {blockId})
  {
    var c := BlockCache(blockId, disk[blockId], false, 2);
    var q := queue + [c];
    var h := held + {blockId};
    forall j | 0 <= j < |q| ensures SlotOk(q[j], disk, view, h) {
      if j < |queue| { assert SlotOk(queue[j], disk, view, held) && queue[j].blockId != blockId; }
    }
    IdsAppend(queue, c);
    assert forall b :: Cached(q, b) <==> b in Ids(q);
  }

  lemma SyncedIsView(disk: seq<Block>, queue: seq<BlockCache>, view: seq<Block>, held: set<nat>)
    requires Coherent(disk, queue, view, held)
    requires forall j | 0 <= j < |queue| :: !queue[j].modified
    ensures disk == view
  {
    forall b | 0 <= b < |disk| ensures disk[b] == view[b] {
      if Cached(queue, b) {
        var i :| 0 <= i < |queue| && queue[i].blockId == b;
        assert SlotOk(queue[i], disk, view, held);
      }
    }
  }
}
