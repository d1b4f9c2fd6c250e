/** Block and inode allocation over the two bitmaps (easy-fs/src/efs.rs). */
module Efs {
  import opened Sequences
  import opened Blocks
  import opened BlockCaches
  import opened Bitmaps
  import opened FsState

  ghost function Elements(s: seq<nat>): (r: set<nat>)
    ensures forall b :: b in r <==> b in s
  {
    set b | b in s
  }

  /** Every block of the data area. */
  ghost function DataArea(g: Geometry): (s: set<nat>)
    ensures forall b :: b in s <==> g.DataStart() <= b < g.DataStart() + g.dataAreaBlocks
    ensures |s| == g.dataAreaBlocks
  {
    Interval(g.DataStart(), g.dataAreaBlocks)
  }

  ghost function Interval(lo: nat, n: nat): (s: set<nat>)
    ensures forall b :: b in s <==> lo <= b < lo + n
    ensures |s| == n
  {
    if n == 0 then {} else Interval(lo, n - 1) + {lo + n - 1}
  }

  /** Data blocks in use can be counted: with fewer than the area holds, some block of the area is free. */
  ghost predicate RoomFor(g: Geometry, used: set<nat>, more: nat) {
    used <= DataArea(g) && |used| + more <= g.dataAreaBlocks
  }

  /** Only blocks of the data bitmap differ. */
  ghost predicate OnlyDataBitmap(view: seq<Block>, view': seq<Block>, g: Geometry) {
    |view'| == |view| && forall b | 0 <= b < |view| && !InDataBitmap(g, b) :: view'[b] == view[b]
  }

  /** First fit stays inside the data area while the area is not full. */
  lemma FirstFitInArea(view: seq<Block>, g: Geometry, used: set<nat>, r: nat)
    requires g.Ok() && g.total <= |view| && DataBits(view, g, used) && RoomFor(g, used, 1)
    requires r <= g.DataBitmap().Maximum()
    requires forall j | 0 <= j < r :: g.DataBitmap().IsSet(view, j)
    ensures r < g.dataAreaBlocks
  {
    hide BlockBit;
    if r >= g.dataAreaBlocks {
      forall b | b in DataArea(g) ensures b in used {
        var k: nat := b - g.DataStart();
        assert g.DataBitmap().IsSet(view, k);
      }
      SubsetCount(DataArea(g), used);
      assert false;
    }
  }

  /** `alloc_data`: a block of the data area that was not in use; its bit, and no other, is now set. */
  method AllocData(dev: BlockCacheManager, g: Geometry, ghost used: set<nat>) returns (b: nat)
    requires dev.Valid() && g.Ok() && g.total <= |dev.view| && g.DataBitmap().Free(dev.held)
    requires DataBits(dev.view, g, used) && RoomFor(g, used, 1)
    modifies dev
    ensures dev.Valid() && dev.held == old(dev.held) && OnlyDataBitmap(old(dev.view), dev.view, g)
    ensures g.DataStart() <= b < g.total && b !in used && DataBits(dev.view, g, used + {b})
  {
    hide BlockBit, Coherent;
    ghost var v0 := dev.view;
    var r := g.DataBitmap().Alloc(dev);
    FirstFitInArea(v0, g, used, if r.Some? then r.value else g.DataBitmap().Maximum());
    b := r.value + g.DataStart();
    AllocatedBits(v0, dev.view, g, used, r.value, true);
  }

  /** `dealloc_data`: the block is zeroed and its bit cleared. */
  method DeallocData(dev: BlockCacheManager, g: Geometry, b: nat, ghost used: set<nat>)
    requires dev.Valid() && g.Ok() && g.total <= |dev.view| && g.DataBitmap().Free(dev.held)
    requires DataBits(dev.view, g, used) && g.DataStart() <= b < g.total && b in used && b !in dev.held
    modifies dev
    ensures dev.Valid() && dev.held == old(dev.held)
    ensures OnlyDataBitmap(old(dev.view)[b := ZeroBlock()], dev.view, g) && DataBits(dev.view, g, used - {b})
  {
    hide BlockBit, Coherent, ZeroBlock;
    ghost var v0 := dev.view;
    dev.Acquire(b);
    dev.Store(b, ZeroBlock());
    dev.Release(b);
    ghost var v1 := dev.view;
    DataBitsFrame(v0, v1, g, used);
    assert g.DataBitmap().IsSet(v1, b - g.DataStart());
    g.DataBitmap().Dealloc(dev, b - g.DataStart());
    AllocatedBits(v1, dev.view, g, used, b - g.DataStart(), false);
  }

  /** Allocates the blocks one growth needs. */
  method AllocBlocks(dev: BlockCacheManager, g: Geometry, count: nat, ghost used: set<nat>) returns (v: seq<nat>)
    requires dev.Valid() && g.Ok() && g.total <= |dev.view| && g.DataBitmap().Free(dev.held)
    requires DataBits(dev.view, g, used) && RoomFor(g, used, count)
    modifies dev
    ensures dev.Valid() && dev.held == old(dev.held) && OnlyDataBitmap(old(dev.view), dev.view, g)
    ensures |v| == count && NoRepeats(v) && DataBits(dev.view, g, used + Elements(v))
    ensures forall p | 0 <= p < |v| :: g.DataStart() <= v[p] < g.total && v[p] !in used
  {
    hide BlockBit, Coherent, DataBits, Elements, OnlyDataBitmap, InDataBitmap, DataArea;
    v := [];
    assert used + Elements(v) == used;
    NothingChanged(dev.view, g);
    while |v| < count
      invariant |v| <= count && NoRepeats(v)
      invariant dev.Valid() && dev.held == old(dev.held) && g.total <= |dev.view|
                && OnlyDataBitmap(old(dev.view), dev.view, g)
      invariant DataBits(dev.view, g, used + Elements(v)) && RoomFor(g, used + Elements(v), count - |v|)
      invariant forall p | 0 <= p < |v| :: g.DataStart() <= v[p] < g.total && v[p] !in used
    {
      ghost var v1 := dev.view;
      var b := AllocData(dev, g, used + Elements(v));
      OnlyDataBitmapTransitive(old(dev.view), v1, dev.view, g);
      OneMore(g, used, v, b, count - |v|);
      v := v + [b];
    }
  }

  lemma NothingChanged(view: seq<Block>, g: Geometry)
    ensures OnlyDataBitmap(view, view, g)
  {
  }

  lemma OnlyDataBitmapTransitive(v0: seq<Block>, v1: seq<Block>, v2: seq<Block>, g: Geometry)
    requires OnlyDataBitmap(v0, v1, g) && OnlyDataBitmap(v1, v2, g)
    ensures OnlyDataBitmap(v0, v2, g) && |v2| == |v1|
  {
  }

  lemma OneMore(g: Geometry, used: set<nat>, v: seq<nat>, b: nat, more: nat)
    requires g.Ok() && more > 0 && RoomFor(g, used + Elements(v), more)
    requires g.DataStart() <= b < g.total && b !in used + Elements(v)
    ensures used + Elements(v + [b]) == used + Elements(v) + {b}
    ensures RoomFor(g, used + Elements(v + [b]), more - 1)
    ensures forall p | 0 <= p < |v| :: v[p] != b
  {
    hide DataArea;
    assert used + Elements(v + [b]) == used + Elements(v) + {b};
  }

  lemma AllocatedBits(view: seq<Block>, view': seq<Block>, g: Geometry, used: set<nat>, k: nat, to: bool)
    requires g.Ok() && g.total <= |view| && DataBits(view, g, used) && k < g.DataBitmap().Maximum()
    requires g.DataBitmap().Changed(view, view', k, to)
    ensures |view'| == |view| && OnlyDataBitmap(view, view', g)
    ensures DataBits(view', g, if to then used + {g.DataStart() + k} else used - {g.DataStart() + k})
  {
    hide BlockBit;
    var used' := if to then used + {g.DataStart() + k} else used - {g.DataStart() + k};
    forall j: nat | j < g.DataBitmap().Maximum()
      ensures g.DataBitmap().IsSet(view', j) == (g.DataStart() + j in used') {
      assert g.DataBitmap().IsSet(view, j) == (g.DataStart() + j in used);
    }
  }

  lemma DataBitsFrame(view: seq<Block>, view': seq<Block>, g: Geometry, used: set<nat>)
    requires g.Ok() && g.total <= |view| == |view'| && DataBits(view, g, used)
    requires forall b | 0 <= b < |view| && InDataBitmap(g, b) :: view'[b] == view[b]
    ensures DataBits(view', g, used)
  {
    hide BlockBit;
    forall k: nat | k < g.DataBitmap().Maximum() ensures g.DataBitmap().IsSet(view', k) == (g.DataStart() + k in used) {
      assert InDataBitmap(g, g.DataBitmap().start + k / 4096);
      assert g.DataBitmap().IsSet(view, k) == (g.DataStart() + k in used);
    }
  }
}
