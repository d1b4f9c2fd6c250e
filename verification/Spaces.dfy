/** All address spaces of the kernel at once: frames are conserved (os/src/memory/memory_set.rs,
    os/src/memory/frame_allocator.rs). */
module Spaces {
  import opened Sequences
  import opened Bits
  import opened Options
  import opened Frames
  import opened PageTables
  import opened MemorySets
  import opened Fork
  import opened Loader

  /** Every live frame is the block device's, among those in `queue`, or belongs to exactly one space, as a table node
      or as a page's data. */
  ghost predicate Conserved(mem: Memory, live: set<nat>, snaps: seq<Space>, queue: set<nat>) {
    && queue <= live && (forall i | 0 <= i < |snaps| :: SpaceOk(mem, snaps[i]) && Owned(snaps[i]) !! queue)
    && (forall i, j | 0 <= i < j < |snaps| :: Owned(snaps[i]) !! Owned(snaps[j]))
    && (forall i, p | 0 <= i < |snaps| && p in Owned(snaps[i]) :: p in live)
    && (forall p | p in live && p !in queue :: exists i :: 0 <= i < |snaps| && p in Owned(snaps[i]))
  }

  /** Frames of other spaces keep their contents. */
  ghost predicate Spared(mem: Memory, mem': Memory, others: set<nat>) {
    mem'.Keys == mem.Keys && forall p | p in others && p in mem :: mem'[p] == mem[p]
  }

  lemma OtherKept(mem: Memory, mem': Memory, live: set<nat>, snaps: seq<Space>, queue: set<nat>, k: int,
                  mine: set<nat>, i: nat)
    requires Conserved(mem, live, snaps, queue) && i < |snaps| && i != k && Owned(snaps[i]) !! mine
             && Spared(mem, mem', live - mine)
    ensures SpaceOk(mem', snaps[i])
  {
    hide SpaceOk;
    var sp := snaps[i];
    SpaceNodes(mem, sp);
    forall p | p in sp.frames ensures mem'[p] == mem[p] { assert p in Owned(sp); }
    SpaceFrame(mem, mem', sp);
  }

  /** One space took and returned frames of its own; nothing else changed hands. */
  lemma ConservedUpdate(mem: Memory, mem': Memory, live: set<nat>, live': set<nat>, snaps: seq<Space>, queue: set<nat>,
                        k: nat, sp: Space)
    requires Conserved(mem, live, snaps, queue) && k < |snaps| && SpaceOk(mem', sp)
    requires live' == (live - Owned(snaps[k])) + Owned(sp) && Owned(sp) !! (live - Owned(snaps[k]))
    requires Spared(mem, mem', live - Owned(snaps[k]))
    ensures Conserved(mem', live', snaps[k := sp], queue)
  {
    hide SpaceOk, Owned;
    var snaps' := snaps[k := sp];
    forall i | 0 <= i < |snaps'| ensures SpaceOk(mem', snaps'[i]) {
      if i != k { OtherKept(mem, mem', live, snaps, queue, k, Owned(snaps[k]), i); }
    }
    forall p | p in live' && p !in queue ensures exists i :: 0 <= i < |snaps'| && p in Owned(snaps'[i]) {
      if p in Owned(sp) {
        assert p in Owned(snaps'[k]);
      } else {
        var i :| 0 <= i < |snaps| && p in Owned(snaps[i]);
        assert p in Owned(snaps'[i]);
      }
    }
  }

  lemma ConservedAppend(mem: Memory, mem': Memory, live: set<nat>, live': set<nat>, snaps: seq<Space>, queue: set<nat>,
                        sp: Space)
    requires Conserved(mem, live, snaps, queue) && SpaceOk(mem', sp)
    requires live <= live' && Owned(sp) == live' - live && Spared(mem, mem', live)
    ensures Conserved(mem', live', snaps + [sp], queue)
  {
    hide SpaceOk, Owned;
    var snaps' := snaps + [sp];
    forall i | 0 <= i < |snaps'| ensures SpaceOk(mem', snaps'[i]) {
      if i < |snaps| { OtherKept(mem, mem', live, snaps, queue, -1, {}, i); }
    }
    forall p | p in live' && p !in queue ensures exists i :: 0 <= i < |snaps'| && p in Owned(snaps'[i]) {
      if p in live {
        var i :| 0 <= i < |snaps| && p in Owned(snaps[i]);
        assert p in Owned(snaps'[i]);
      } else {
        assert p in Owned(snaps'[|snaps|]);
      }
    }
  }

  lemma ConservedDrop(mem: Memory, live: set<nat>, snaps: seq<Space>, queue: set<nat>, k: nat)
    requires Conserved(mem, live, snaps, queue) && k < |snaps|
    ensures Conserved(mem, live - Owned(snaps[k]), snaps[..k] + snaps[k + 1..], queue)
  {
    hide SpaceOk, Owned;
    var rest := snaps[..k] + snaps[k + 1..];
    assert forall i | 0 <= i < |rest| :: rest[i] == snaps[if i < k then i else i + 1];
    forall p | p in live - Owned(snaps[k]) && p !in queue ensures exists i :: 0 <= i < |rest| && p in Owned(rest[i]) {
      var i :| 0 <= i < |snaps| && p in Owned(snaps[i]);
      assert rest[if i < k then i else i - 1] == snaps[i];
    }
  }

  class AddressSpaces {
    const fm: FrameMemory
    var spaces: seq<MemorySet>
    var queueFrames: seq<nat> // the trackers of QUEUE_FRAMES, which the block device's driver keeps

    ghost function Queue(): set<nat>
      reads this
    {
      set p | p in queueFrames
    }

    ghost function Snaps(): (s: seq<Space>)
      reads this, spaces, set s | s in spaces :: s.table
      ensures |s| == |spaces| && forall i | 0 <= i < |s| :: s[i] == spaces[i].Snap()
    {
      seq(|spaces|, i requires 0 <= i < |spaces| reads this, spaces, set s | s in spaces :: s.table => spaces[i].Snap())
    }

    ghost predicate Separate()
      reads this, spaces
    {
      && (forall i, j | 0 <= i < j < |spaces| :: spaces[i] != spaces[j] && spaces[i].table != spaces[j].table)
    }

    ghost predicate Rooted()
      reads this, spaces, set s | s in spaces :: s.table
    {
      forall i | 0 <= i < |spaces| :: Root in spaces[i].table.nodes
                                      && spaces[i].table.nodes[Root] == spaces[i].table.root
    }

    ghost predicate Valid()
      reads this, fm, spaces, set s | s in spaces :: s.table
    {
      fm.Valid() && Separate() && Rooted() && Conserved(fm.mem, fm.Live(), Snaps(), Queue())
    }

    constructor (fm: FrameMemory)
      requires fm.Valid() && fm.Live() == {}
      ensures Valid() && this.fm == fm && spaces == [] && queueFrames == []
    {
      this.fm, spaces, queueFrames := fm, [], [];
    }

    /** Each space on its own satisfies what its operations require. */
    lemma SpaceValid(k: nat)
      requires Valid() && k < |spaces|
      ensures spaces[k].Valid(fm) && SpaceOk(fm.mem, spaces[k].Snap())
    {
      hide TableOk, FramesMatch, LiveFrames, AllocatorOk;
      assert Snaps()[k] == spaces[k].Snap();
      assert SpaceOk(fm.mem, Snaps()[k]);
    }

    lemma Sound()
      requires Valid()
      ensures fm.Valid()
    {
    }

    lemma OwnedLive(k: nat)
      requires Valid() && k < |spaces|
      ensures forall p | p in Owned(spaces[k].Snap()) :: p in fm.Live()
    {
      hide SpaceOk, Owned, LiveFrames, AllocatorOk;
      assert Snaps()[k] == spaces[k].Snap();
    }

    /** The space that a live frame belongs to, unless the block device holds it. */
    lemma OwnerOf(p: nat) returns (i: nat)
      requires Valid() && p in fm.Live() && p !in queueFrames
      ensures i < |spaces| && p in Owned(spaces[i].Snap())
    {
      hide SpaceOk, Owned, LiveFrames, AllocatorOk;
      i :| 0 <= i < |Snaps()| && p in Owned(Snaps()[i]);
    }

    lemma QueueApart(k: nat)
      requires Valid() && k < |spaces|
      ensures Queue() <= fm.Live() && Owned(spaces[k].Snap()) !! Queue()
    {
      hide SpaceOk, Owned, LiveFrames, AllocatorOk;
      assert Snaps()[k] == spaces[k].Snap();
    }

    lemma OwnedApart(i: nat, j: nat)
      requires Valid() && i < j < |spaces|
      ensures Owned(spaces[i].Snap()) !! Owned(spaces[j].Snap())
    {
      hide SpaceOk, Owned, LiveFrames, AllocatorOk;
      assert Snaps()[i] == spaces[i].Snap() && Snaps()[j] == spaces[j].Snap();
    }

    lemma Apart()
      requires Valid()
      ensures forall i, j | 0 <= i < j < |spaces| :: spaces[i] != spaces[j] && spaces[i].table != spaces[j].table
    {
      hide Conserved;
    }

    /** `insert_framed_area` on one space. */
    method Insert(k: nat, start: nat, end: nat, framed: bool, perm: nat) returns (ok: bool)
      requires k < |spaces| && start <= end <= VPN_LIMIT && perm < 256
      requires forall v: nat | start <= v < end :: Flat(fm.mem, spaces[k].table.nodes, v).None?
      requires Valid()
      modifies fm, spaces[k], spaces[k].table
      ensures ok ==> exists a :: spaces[k].areas == old(spaces[k].areas) + [a] && a.start == start && a.end == end
                                 && a.framed == framed && a.perm == perm
                                 && PartMapped(old(fm.mem), old(spaces[k].table.nodes), fm.mem,
                                               spaces[k].table.nodes, a, end)
      ensures ok ==> Valid() && fm.Live() >= old(fm.Live())
    {
      hide SpaceOk, TableOk, FramesMatch, Flat, LiveFrames, AllocatorOk, OthersUntouched, PartMapped, Conserved, Owned;
      ghost var mem0, live0, snaps := fm.mem, fm.Live(), Snaps();
      SpaceValid(k);
      ok := spaces[k].Push(fm, start, end, framed, perm);
      if !ok { return; }
      ghost var sp := spaces[k].Snap();
      assert Snaps() == snaps[k := sp];
      HasRoot(fm.mem, spaces[k].table.nodes);
      Inserted(mem0, fm.mem, live0, fm.Live(), snaps, Queue(), k, sp);
      ConservedUpdate(mem0, fm.mem, live0, fm.Live(), snaps, Queue(), k, sp);
    }

    /** `new_bare` and the trampoline. */
    method NewSpace(trampoline: nat) returns (ok: bool)
      requires Valid() && trampoline < PPN_LIMIT
      modifies this, fm
      ensures ok ==> Valid() && |spaces| == |old(spaces)| + 1 && spaces[..|old(spaces)|] == old(spaces)
                     && queueFrames == old(queueFrames) && fm.Live() >= old(fm.Live())
      ensures ok ==> var sp := spaces[|old(spaces)|].Snap();
                     && sp.areas == [] && MapsOnly(fm.mem, sp.nodes, [])
                     && Flat(fm.mem, sp.nodes, TRAMPOLINE_VPN) == Some(MakePte(trampoline, Or(R_X, V)))
    {
      hide SpaceOk, TableOk, FramesMatch, Flat, LiveFrames, AllocatorOk, Conserved, Owned, MapsOnly, MakePte, Or;
      ghost var mem0, live0, snaps := fm.mem, fm.Live(), Snaps();
      var r := NewWithTrampoline(fm, trampoline);
      if r.None? { return false; }
      assert Snaps() == snaps;
      HasRoot(fm.mem, r.value.table.nodes);
      ghost var sp := r.value.Snap();
      AppendSpared(mem0, fm.mem, live0);
      ConservedAppend(mem0, fm.mem, live0, fm.Live(), snaps, Queue(), sp);
      spaces := spaces + [r.value];
      assert Snaps() == snaps + [sp];
      return true;
    }

    /** `from_existed_user` on one space. */
    method ForkSpace(k: nat, trampoline: nat) returns (ok: bool)
      requires Valid() && k < |spaces| && trampoline < PPN_LIMIT
      requires forall i | 0 <= i < |spaces[k].areas| :: spaces[k].areas[i].framed
                                                        && !spaces[k].areas[i].Contains(TRAMPOLINE_VPN)
      modifies this, fm
      ensures ok ==> |spaces| == |old(spaces)| + 1 && spaces[..|old(spaces)|] == old(spaces)
                     && queueFrames == old(queueFrames)
      ensures ok ==> CopiedUpTo(old(fm.mem), fm.mem, old(fm.Live()), fm.Live(), spaces[k].Snap(),
                                spaces[|old(spaces)|].Snap(), |spaces[k].areas|)
      ensures ok ==> fresh(spaces[|old(spaces)|]) && fresh(spaces[|old(spaces)|].table)
                     && Spared(old(fm.mem), fm.mem, old(fm.Live()))
      ensures old(fm.Available()) >= 3 + 3 * TotalPages(old(spaces[k].areas)) ==>
                ok && fm.Available() >= old(fm.Available()) - 3 - 3 * TotalPages(old(spaces[k].areas))
      ensures ok ==> Valid()
    {
      hide SpaceOk, TableOk, FramesMatch, Flat, LiveFrames, AllocatorOk, Conserved, Owned, CopiedUpTo, Preserved,
           TotalPages;
      hide FrameMemory.Available, Spared;
      ghost var mem0, live0, snaps := fm.mem, fm.Live(), Snaps();
      SpaceValid(k);
      var r := FromExistedUser(fm, spaces[k], trampoline);
      if r.None? { return false; }
      assert Snaps() == snaps;
      HasRoot(fm.mem, r.value.table.nodes);
      ghost var sp := r.value.Snap();
      AppendSpared(mem0, fm.mem, live0);
      ForkedOwns(mem0, fm.mem, live0, fm.Live(), spaces[k].Snap(), sp);
      ConservedAppend(mem0, fm.mem, live0, fm.Live(), snaps, Queue(), sp);
      spaces := spaces + [r.value];
      assert Snaps() == snaps + [sp];
      return true;
    }

    /** `from_elf`. */
    method LoadSpace(loads: seq<Segment>, trampoline: nat) returns (ok: bool)
      requires Valid() && trampoline < PPN_LIMIT && Loadable(Image(loads))
      modifies this, fm
      ensures ok ==> |spaces| == |old(spaces)| + 1 && spaces[..|old(spaces)|] == old(spaces)
                     && queueFrames == old(queueFrames)
      ensures ok ==> LoadedUpTo(old(fm.mem), fm.mem, old(fm.Live()), fm.Live(), Image(loads),
                                spaces[|old(spaces)|].Snap(), |loads| + 2)
      ensures ok ==> fresh(spaces[|old(spaces)|]) && fresh(spaces[|old(spaces)|].table)
                     && Spared(old(fm.mem), fm.mem, old(fm.Live()))
      ensures old(fm.Available()) >= 3 + 3 * PagesOf(Image(loads)) ==>
                ok && fm.Available() >= old(fm.Available()) - 3 - 3 * PagesOf(Image(loads))
      ensures ok ==> Valid()
    {
      hide SpaceOk, TableOk, FramesMatch, Flat, LiveFrames, AllocatorOk, Conserved, Owned, Preserved, Loadable, Holds;
      hide Image, PagesOf, MapsOnly, FrameMemory.Available;
      ghost var mem0, live0, snaps := fm.mem, fm.Live(), Snaps();
      var r := FromElf(fm, loads, trampoline);
      if r.None? { return false; }
      assert Snaps() == snaps;
      HasRoot(fm.mem, r.value.table.nodes);
      ghost var sp := r.value.Snap();
      AppendSpared(mem0, fm.mem, live0);
      ConservedAppend(mem0, fm.mem, live0, fm.Live(), snaps, Queue(), sp);
      spaces := spaces + [r.value];
      assert Snaps() == snaps + [sp];
      return true;
    }

    /** A store of the kernel into a page of one space, found through its page table. */
    method Store(k: nat, vpn: nat, at: nat, words: seq<nat>) returns (ghost f: nat)
      requires k < |spaces| && at + |words| <= 512 && HasPage(spaces[k].areas, vpn)
      requires Valid()
      modifies fm`mem
      ensures PageAt(spaces[k].areas, vpn, f) && f in Owned(spaces[k].Snap()) && f in old(fm.mem)
      ensures fm.mem == old(fm.mem)[f := Patched(old(fm.mem)[f], at, words)] && fm.Live() == old(fm.Live())
      ensures Valid()
    {
      hide SpaceOk, TableOk, FramesMatch, Flat, LiveFrames, AllocatorOk, Conserved, Owned;
      ghost var mem, live, snaps := fm.mem, fm.Live(), Snaps();
      SpaceValid(k);
      ghost var i :| 0 <= i < |spaces[k].areas| && spaces[k].areas[i].framed && spaces[k].areas[i].Contains(vpn);
      ghost var a := spaces[k].areas[i];
      AreaFacts(mem, snaps[k], a, fm);
      var ppn := FrameOf(fm, spaces[k].table, a, vpn);
      f := ppn;
      WriteWords(fm, ppn, at, words);
      assert Snaps() == snaps;
      ConservedStore(mem, live, snaps, Queue(), k, ppn, fm.mem[ppn]);
    }

    /** Where a space is held. */
    method IndexOf(space: MemorySet) returns (k: nat)
      requires space in spaces
      ensures k < |spaces| && spaces[k] == space
    {
      k := 0;
      while spaces[k] != space
        invariant k < |spaces| && space in spaces[k..]
        decreases |spaces| - k
      {
        k := k + 1;
      }
    }

    /** After one space has taken or returned frames on its own, all of them together are accounted for again. */
    lemma Rejoined(mem: Memory, live: set<nat>, snaps: seq<Space>, k: nat)
      requires fm.Valid() && Separate() && Rooted() && k < |spaces| == |snaps|
               && Conserved(mem, live, snaps, Queue())
      requires Snaps() == snaps[k := spaces[k].Snap()] && SpaceOk(fm.mem, spaces[k].Snap())
      requires || Extended(mem, fm.mem, live, fm.Live(), snaps[k], spaces[k].Snap())
               || Shrunk(mem, fm.mem, live, fm.Live(), snaps[k], spaces[k].Snap())
      ensures Valid() && Spared(mem, fm.mem, live - Owned(snaps[k]))
    {
      hide SpaceOk, LiveFrames, AllocatorOk, Conserved, Owned, OthersUntouched, Rooted, Separate;
      ghost var sp := spaces[k].Snap();
      if Extended(mem, fm.mem, live, fm.Live(), snaps[k], sp) {
        Inserted(mem, fm.mem, live, fm.Live(), snaps, Queue(), k, sp);
      } else {
        Returned(mem, fm.mem, live, fm.Live(), snaps, Queue(), k, sp, Owned(snaps[k]) - Owned(sp));
      }
      ConservedUpdate(mem, fm.mem, live, fm.Live(), snaps, Queue(), k, sp);
    }

    /** `remove_area_with_start_vpn` on one space. */
    method Remove(k: nat, startVpn: nat) returns (ghost removed: Option<MapArea>)
      requires Valid() && k < |spaces|
      modifies fm, spaces[k]
      ensures Valid() && (removed.None? <==>
                          forall i | 0 <= i < |old(spaces[k].areas)| :: old(spaces[k].areas)[i].start != startVpn)
      ensures removed.None? ==> spaces[k].areas == old(spaces[k].areas) && fm.mem == old(fm.mem)
                                && fm.Live() == old(fm.Live())
      ensures removed.Some? ==> removed.value in old(spaces[k].areas) && removed.value.start == startVpn
                                && PartUnmapped(old(fm.mem), fm.mem, spaces[k].table.nodes, removed.value,
                                                removed.value.end)
                                && fm.Live() == old(fm.Live()) - FramesBelow(removed.value, removed.value.end)
    {
      hide SpaceOk, TableOk, FramesMatch, Flat, LiveFrames, AllocatorOk, Conserved, Owned, PartUnmapped, FramesBelow;
      ghost var mem0, live0, snaps := fm.mem, fm.Live(), Snaps();
      SpaceValid(k);
      removed := spaces[k].RemoveAreaWithStartVpn(fm, startVpn);
      ghost var sp := spaces[k].Snap();
      assert Snaps() == snaps[k := sp];
      ghost var gone := if removed.Some? then FramesBelow(removed.value, removed.value.end) else {};
      Returned(mem0, fm.mem, live0, fm.Live(), snaps, Queue(), k, sp, gone);
      ConservedUpdate(mem0, fm.mem, live0, fm.Live(), snaps, Queue(), k, sp);
    }

    /** `recycle_data_pages` on one space. */
    method Recycle(k: nat)
      requires Valid() && k < |spaces|
      modifies fm, spaces[k]
      ensures Valid() && fm.mem == old(fm.mem) && fm.Live() == old(fm.Live()) - DataFrames(old(spaces[k].areas))
      ensures spaces[k].areas == []
    {
      hide SpaceOk, TableOk, FramesMatch, Flat, LiveFrames, AllocatorOk, Conserved;
      ghost var mem0, live0, snaps := fm.mem, fm.Live(), Snaps();
      SpaceValid(k);
      spaces[k].RecycleDataPages(fm);
      ghost var sp := spaces[k].Snap();
      assert Snaps() == snaps[k := sp];
      RecycledOwns(mem0, snaps[k]);
      Returned(mem0, fm.mem, live0, fm.Live(), snaps, Queue(), k, sp, DataFrames(snaps[k].areas));
      ConservedUpdate(mem0, fm.mem, live0, fm.Live(), snaps, Queue(), k, sp);
    }

    /** Dropping a space returns every frame it owns: first the table's, then the areas'. */
    method Drop(k: nat)
      requires Valid() && k < |spaces|
      modifies this, fm
      ensures Valid() && spaces == old(spaces)[..k] + old(spaces)[k + 1..] && queueFrames == old(queueFrames)
      ensures fm.mem == old(fm.mem) && fm.Live() == old(fm.Live()) - old(Owned(spaces[k].Snap()))
    {
      hide SpaceOk, TableOk, FramesMatch, Flat, LiveFrames, AllocatorOk, Conserved, Owned, DataFrames, NoRepeats,
           AllLive;
      ghost var mem, live, snaps := fm.mem, fm.Live(), Snaps();
      SpaceValid(k);
      TableOwns(mem, snaps[k], live);
      RecycledOwns(mem, snaps[k]);
      DropTable(fm, spaces[k].table.frames);
      DropAreas(fm, spaces[k].areas, mem, snaps[k]);
      assert Snaps() == snaps;
      ConservedDrop(mem, live, snaps, Queue(), k);
      Without(k, snaps);
      spaces := spaces[..k] + spaces[k + 1..];
      assert Snaps() == snaps[..k] + snaps[k + 1..];
      assert Separate() && Rooted();
      assert fm.Live() == live - Owned(snaps[k]);
    }

    /** What holds of all spaces holds of all but one. */
    lemma Without(k: nat, snaps: seq<Space>)
      requires k < |spaces| && Separate() && Rooted() && snaps == Snaps()
      ensures var rest := spaces[..k] + spaces[k + 1..];
              && (forall i, j | 0 <= i < j < |rest| :: rest[i] != rest[j] && rest[i].table != rest[j].table)
              && (forall i | 0 <= i < |rest| :: Root in rest[i].table.nodes
                                                && rest[i].table.nodes[Root] == rest[i].table.root)
              && (forall i | 0 <= i < |rest| :: rest[i].Snap() == (snaps[..k] + snaps[k + 1..])[i])
    {
      var rest := spaces[..k] + spaces[k + 1..];
      assert forall i | 0 <= i < |rest| :: rest[i] == spaces[if i < k then i else i + 1];
    }

    /** `virtio_dma_alloc`: frames for the block device's queue, which must come one after the other. It panics when the
        frames run out, and otherwise exactly when those that come next are not consecutive. */
    method DmaAlloc(pages: nat) returns (ok: bool, base: nat)
      requires Valid()
      modifies this`queueFrames, fm
      ensures ok <==> pages <= old(fm.Available())
                      && forall i | 0 <= i < pages :: old(fm.Order())[i] == old(fm.Order())[0] + i
      ensures ok ==> Valid() && queueFrames == old(queueFrames) + Consecutive(base, pages)
      ensures ok ==> Fresh(old(fm.Live()), fm.Live(), fm.mem, Consecutive(base, pages))
                     && fm.Available() == old(fm.Available()) - pages
      ensures ok ==> Spared(old(fm.mem), fm.mem, old(fm.Live()))
    {
      hide SpaceOk, LiveFrames, AllocatorOk, Conserved, Owned, FrameMemory.Available, FrameMemory.Order;
      ghost var mem0, live0, snaps, queue := fm.mem, fm.Live(), Snaps(), Queue();
      var frames;
      ok, base, frames := TakeConsecutive(fm, pages);
      if !ok { return; }
      queueFrames := queueFrames + frames;
      assert Snaps() == snaps;
      assert Queue() == queue + set p | p in frames;
      ConservedQueue(mem0, fm.mem, live0, fm.Live(), snaps, queue, set p | p in frames);
    }
  }

  lemma SparedSame(mem: Memory, others: set<nat>)
    ensures Spared(mem, mem, others)
  {
  }

  /** The loop of `virtio_dma_alloc`. */
  method TakeConsecutive(fm: FrameMemory, pages: nat) returns (ok: bool, base: nat, frames: seq<nat>)
    requires fm.Valid()
    modifies fm
    ensures ok <==> pages <= old(fm.Available())
                    && forall i | 0 <= i < pages :: old(fm.Order())[i] == old(fm.Order())[0] + i
    ensures ok ==> fm.Valid() && frames == Consecutive(base, pages) && Fresh(old(fm.Live()), fm.Live(), fm.mem, frames)
                   && fm.Available() == old(fm.Available()) - pages
    ensures ok ==> Spared(old(fm.mem), fm.mem, old(fm.Live()))
  {
    hide LiveFrames, AllocatorOk, FrameMemory.Order, FrameMemory.Available, ZeroFrame, Spared, Fresh;
    ghost var mem0, live0, order := fm.mem, fm.Live(), fm.Order();
    SparedSame(mem0, live0);
    NothingFresh(live0, mem0);
    base, frames := 0, [];
    while |frames| < pages
      invariant |frames| <= pages && fm.Valid() && order == frames + fm.Order()
      invariant forall j | 0 <= j < |frames| :: frames[j] == base + j
      invariant Fresh(live0, fm.Live(), fm.mem, frames) && Spared(mem0, fm.mem, live0)
    {
      ghost var mem, live := fm.mem, fm.Live();
      var frame := fm.Alloc();
      if frame.None? { return false, base, frames; }
      assert order == (frames + [frame.value]) + fm.Order();
      assert frame.value == order[|frames|];
      if |frames| == 0 { base := frame.value; }
      if frame.value != base + |frames| { return false, base, frames; }
      FreshMore(mem0, live0, live, mem, frames, frame.value);
      frames := frames + [frame.value];
    }
    return true, base, frames;
  }

  /** The listed frames, all zero, are what one set of live frames has and the other has not. */
  ghost predicate Fresh(live: set<nat>, live': set<nat>, mem: Memory, frames: seq<nat>) {
    && live' == live + (set p | p in frames)
    && forall p | p in frames :: p !in live && p in mem && mem[p] == ZeroFrame()
  }

  lemma NothingFresh(live: set<nat>, mem: Memory)
    ensures Fresh(live, live, mem, [])
  {
  }

  lemma FreshMore(mem0: Memory, live: set<nat>, live': set<nat>, mem: Memory, frames: seq<nat>, f: nat)
    requires Fresh(live, live', mem, frames) && Spared(mem0, mem, live) && f !in live' && f in mem
    ensures Fresh(live, live' + {f}, mem[f := ZeroFrame()], frames + [f]) && Spared(mem0, mem[f := ZeroFrame()], live)
  {
    hide ZeroFrame;
  }

  ghost function Consecutive(base: nat, n: nat): seq<nat> {
    seq(n, i requires 0 <= i < n => base + i)
  }

  /** Frames the block device has taken are its own. */
  lemma ConservedQueue(mem: Memory, mem': Memory, live: set<nat>, live': set<nat>, snaps: seq<Space>, queue: set<nat>,
                       more: set<nat>)
    requires Conserved(mem, live, snaps, queue) && Spared(mem, mem', live) && live' == live + more && more !! live
    ensures Conserved(mem', live', snaps, queue + more)
  {
    hide SpaceOk, Owned;
    forall i | 0 <= i < |snaps| ensures SpaceOk(mem', snaps[i]) {
      OtherKept(mem, mem', live, snaps, queue, -1, {}, i);
    }
  }

  /** A page after words have been stored in it. */
  ghost function Patched(f: Frame, at: nat, words: seq<nat>): Frame
    requires at + |words| <= 512
  {
    f[..at] + words + f[at + |words|..]
  }

  method WriteWords(fm: FrameMemory, ppn: nat, at: nat, words: seq<nat>)
    requires fm.Valid() && ppn in fm.mem && at + |words| <= 512
    modifies fm`mem
    ensures fm.Valid() && fm.mem == old(fm.mem)[ppn := Patched(old(fm.mem)[ppn], at, words)]
  {
    hide AllocatorOk;
    var j := 0;
    assert Patched(fm.mem[ppn], at, []) == fm.mem[ppn];
    while j < |words|
      invariant j <= |words| && fm.Valid() && fm.mem == old(fm.mem)[ppn := Patched(old(fm.mem)[ppn], at, words[..j])]
    {
      PatchedNext(old(fm.mem)[ppn], at, words, j);
      fm.Write(ppn, at + j, words[j]);
      j := j + 1;
    }
    assert words[..|words|] == words;
  }

  lemma PatchedNext(f: Frame, at: nat, words: seq<nat>, j: nat)
    requires at + |words| <= 512 && j < |words|
    ensures Patched(f, at, words[..j])[at + j := words[j]] == Patched(f, at, words[..j + 1])
  {
  }

  ghost predicate HasPage(areas: seq<MapArea>, vpn: nat) {
    exists i :: 0 <= i < |areas| && areas[i].framed && areas[i].Contains(vpn)
  }

  /** The frame behind a page. */
  ghost predicate PageAt(areas: seq<MapArea>, vpn: nat, f: nat) {
    exists i :: 0 <= i < |areas| && vpn in areas[i].dataFrames && areas[i].dataFrames[vpn] == f
  }

  /** Contents of data pages do not matter to the accounting. */
  lemma ConservedStore(mem: Memory, live: set<nat>, snaps: seq<Space>, queue: set<nat>, k: nat, f: nat, frame: Frame)
    requires Conserved(mem, live, snaps, queue) && k < |snaps| && f in mem && f in Owned(snaps[k])
             && f !in snaps[k].frames
    ensures Conserved(mem[f := frame], live, snaps, queue)
  {
    hide SpaceOk;
    var mem' := mem[f := frame];
    forall i | 0 <= i < |snaps| ensures SpaceOk(mem', snaps[i]) {
      var sp := snaps[i];
      SpaceNodes(mem, sp);
      forall p | p in sp.frames ensures mem'[p] == mem[p] { assert p in Owned(sp); }
      SpaceFrame(mem, mem', sp);
    }
  }

  lemma AppendSpared(mem: Memory, mem': Memory, live: set<nat>)
    requires Preserved(mem, mem', live) && mem'.Keys == mem.Keys
    ensures Spared(mem, mem', live)
  {
  }

  lemma ForkedOwns(mem0: Memory, mem: Memory, live0: set<nat>, live: set<nat>, parent: Space, child: Space)
    requires CopiedUpTo(mem0, mem, live0, live, parent, child, |parent.areas|)
    ensures live0 <= live && Owned(child) == live - live0
  {
  }

  /** A space gave back some frames; the others' are untouched. */
  lemma Returned(mem: Memory, mem': Memory, live: set<nat>, live': set<nat>, snaps: seq<Space>, queue: set<nat>, k: nat,
                 sp: Space, gone: set<nat>)
    requires Conserved(mem, live, snaps, queue) && k < |snaps| && mem'.Keys == mem.Keys
    requires forall p | p in mem' && p !in snaps[k].frames :: mem'[p] == mem[p]
    requires live' == live - gone && Owned(sp) == Owned(snaps[k]) - gone && gone <= Owned(snaps[k])
    ensures live' == (live - Owned(snaps[k])) + Owned(sp) && Owned(sp) !! (live - Owned(snaps[k]))
    ensures Spared(mem, mem', live - Owned(snaps[k]))
  {
    hide SpaceOk;
    forall p | p in snaps[k].frames ensures p in Owned(snaps[k]) { }
  }

  lemma RecycledOwns(mem: Memory, sp: Space)
    requires SpaceOk(mem, sp)
    ensures Owned(Space(sp.frames, sp.nodes, [])) == Owned(sp) - DataFrames(sp.areas)
            && DataFrames(sp.areas) <= Owned(sp)
  {
    hide TableOk, FramesMatch, AreaMapped, Disjoint;
    assert DataFrames([]) == {};
    forall p | p in DataFrames(sp.areas) ensures p !in sp.frames {
      var i, v :| 0 <= i < |sp.areas| && v in sp.areas[i].dataFrames && sp.areas[i].dataFrames[v] == p;
    }
  }

  lemma TableOwns(mem: Memory, sp: Space, live: set<nat>)
    requires SpaceOk(mem, sp) && forall p | p in Owned(sp) :: p in live
    ensures NoRepeats(sp.frames) && AllLive(sp.frames, live)
            && Owned(sp) - DataFrames(sp.areas) == set p | p in sp.frames
  {
    hide TableOk;
    RecycledOwns(mem, sp);
    assert DataFrames([]) == {};
    forall i | 0 <= i < |sp.frames| ensures sp.frames[i] in live { assert sp.frames[i] in Owned(sp); }
  }

  /** Dropping the table's trackers: each frame is live when its turn comes. */
  method DropTable(fm: FrameMemory, frames: seq<nat>)
    requires fm.Valid() && NoRepeats(frames) && AllLive(frames, fm.Live())
    modifies fm`recycled
    ensures fm.Valid() && fm.Live() == old(fm.Live()) - set p | p in frames
  {
    hide LiveFrames, AllocatorOk;
    ghost var live0 := fm.Live();
    var i := 0;
    while i < |frames|
      invariant i <= |frames| && fm.Valid() && fm.Live() == live0 - set p | p in frames[..i]
    {
      assert frames[..i + 1] == frames[..i] + [frames[i]];
      fm.Dealloc(frames[i]);
      i := i + 1;
    }
    assert frames[..|frames|] == frames;
  }

  lemma HasRoot(mem: Memory, nodes: Nodes)
    requires TableOk(mem, nodes)
    ensures Root in nodes
  {
  }

  lemma Inserted(mem: Memory, mem': Memory, live: set<nat>, live': set<nat>, snaps: seq<Space>, queue: set<nat>, k: nat,
                 sp: Space)
    requires Conserved(mem, live, snaps, queue) && k < |snaps| && mem'.Keys == mem.Keys && live <= live'
    requires OthersUntouched(mem, mem', live, snaps[k].frames) && Owned(sp) == Owned(snaps[k]) + (live' - live)
    ensures live' == (live - Owned(snaps[k])) + Owned(sp) && Owned(sp) !! (live - Owned(snaps[k]))
    ensures Spared(mem, mem', live - Owned(snaps[k]))
  {
    hide SpaceOk;
    forall p | p in snaps[k].frames ensures p in Owned(snaps[k]) { }
  }
}
