/** Copying an address space for `fork` (`MemorySet::from_existed_user`, os/src/memory/memory_set.rs). */
module Fork {
  import opened Bits
  import opened Options
  import opened Frames
  import opened Hardware
  import opened PageTables
  import opened MemorySets

  const R_X: nat := 10 // PTEFlags::R | PTEFlags::X

  /** The last page as the hardware sees it, if it sets A and D itself: the supervisor reads and executes the trampoline
      there, and user mode cannot access it. */
  ghost predicate TrampolineSeen(mem: Memory, root: nat, trampoline: nat) {
    forall access, mode: Mode ::
      HardwareAccess(mem, root, 0x7FF_FFFF, access, mode, true) ==
      if !mode.user && access != Store then Some(trampoline) else None
  }

  lemma TrampolineAccess(mem: Memory, nodes: Nodes, trampoline: nat)
    requires TableOk(mem, nodes) && trampoline < PPN_LIMIT
    requires Flat(mem, nodes, TRAMPOLINE_VPN) == Some(MakePte(trampoline, Or(R_X, V)))
    ensures TrampolineSeen(mem, nodes[Root], trampoline)
  {
    assert Root in nodes;
    hide TableOk, Flat, MakePte, Or, HardwareAccess;
    forall access, mode: Mode
      ensures HardwareAccess(mem, nodes[Root], 0x7FF_FFFF, access, mode, true) ==
              if !mode.user && access != Store then Some(trampoline) else None
    {
      KernelPages(mem, nodes, TRAMPOLINE_VPN, trampoline, R_X, access, mode, true);
    }
  }

  /** The child's area covers the same pages with the same permission, in frames of its own that hold the
      bytes the parent's held. */
  ghost predicate Copied(mem0: Memory, mem: Memory, parent: MapArea, child: MapArea, next: nat) {
    && child.start == parent.start && child.end == parent.end && child.framed == parent.framed
       && child.perm == parent.perm
    && forall v | parent.start <= v < next ::
         && v in parent.dataFrames && v in child.dataFrames
         && parent.dataFrames[v] in mem0 && child.dataFrames[v] in mem
         && mem[child.dataFrames[v]] == mem0[parent.dataFrames[v]]
  }

  /** Frames that were live before the copy began are as they were. */
  ghost predicate Preserved(mem0: Memory, mem: Memory, live0: set<nat>) {
    forall p | p in live0 && p in mem0 :: p in mem && mem[p] == mem0[p]
  }

  /** A child's page table holds the pages of the areas copied so far, and the trampoline. */
  ghost predicate MapsOnly(mem: Memory, nodes: Nodes, areas: seq<MapArea>) {
    forall v: nat | v < VPN_LIMIT && Flat(mem, nodes, v).Some? ::
      v == TRAMPOLINE_VPN || exists i :: 0 <= i < |areas| && areas[i].Contains(v)
  }

  /** A mapped page's entry names its frame. */
  lemma EntryNamesFrame(mem: Memory, nodes: Nodes, a: MapArea, v: nat)
    requires RangeOk(a) && a.framed && AreaMapped(mem, nodes, a) && a.Contains(v) && a.dataFrames[v] < PPN_LIMIT
    ensures Flat(mem, nodes, v).Some? && PtePpn(Flat(mem, nodes, v).value) == a.dataFrames[v]
  {
    hide MakePte, PtePpn, Or, Flat;
    ValidFlags(a.perm);
    PteRoundTrip(a.dataFrames[v], Or(a.perm, V));
  }

  /** Reading a mapped page's frame number off the table. */
  method FrameOf(fm: FrameMemory, table: PageTable, ghost a: MapArea, v: nat) returns (ppn: nat)
    requires table.Valid(fm.mem) && RangeOk(a) && a.framed && AreaMapped(fm.mem, table.nodes, a) && a.Contains(v)
             && a.dataFrames[v] < PPN_LIMIT
    ensures ppn == a.dataFrames[v]
  {
    hide TableOk, FramesMatch, Flat, PtePpn, PteValid, AreaMapped;
    EntryNamesFrame(fm.mem, table.nodes, a, v);
    var pte := table.Translate(fm, v);
    ppn := PtePpn(pte.value);
  }

  lemma AreaFacts(mem: Memory, sp: Space, a: MapArea, fm: FrameMemory)
    requires fm.Valid() && SpaceOk(mem, sp) && a in sp.areas && forall f | f in Owned(sp) :: f in fm.Live()
    ensures RangeOk(a) && AreaMapped(mem, sp.nodes, a)
    ensures forall v | v in a.dataFrames :: a.dataFrames[v] in mem && a.dataFrames[v] in Owned(sp)
                                            && a.dataFrames[v] !in sp.frames && a.dataFrames[v] < PPN_LIMIT
  {
    hide TableOk, FramesMatch, AreaMapped, Disjoint;
    var i :| 0 <= i < |sp.areas| && sp.areas[i] == a;
    forall v | v in a.dataFrames ensures a.dataFrames[v] in Owned(sp) {
      assert sp.areas[i].dataFrames[v] in DataFrames(sp.areas);
    }
  }

  /** What the copy loop needs to know of an area: where its frames are. */
  ghost predicate Copyable(mem: Memory, frames: seq<nat>, nodes: Nodes, a: MapArea) {
    && RangeOk(a) && a.framed && AreaMapped(mem, nodes, a)
    && forall v | v in a.dataFrames :: a.dataFrames[v] in mem && a.dataFrames[v] < PPN_LIMIT
  }

  ghost predicate Apart(c: MapArea, frames: seq<nat>) {
    forall v | v in c.dataFrames :: c.dataFrames[v] !in frames
  }

  ghost predicate OnlyCopies(mem0: Memory, mem: Memory, c: MapArea) {
    mem.Keys == mem0.Keys && forall f | f in mem && f !in FramesBelow(c, c.end) :: mem[f] == mem0[f]
  }

  lemma TableAfterCopy(mem0: Memory, mem: Memory, frames: seq<nat>, nodes: Nodes, a: MapArea, c: MapArea)
    requires TableOk(mem0, nodes) && FramesMatch(frames, nodes) && Copyable(mem0, frames, nodes, a)
    requires OnlyCopies(mem0, mem, c) && Apart(c, frames)
    ensures TableOk(mem, nodes) && Copyable(mem, frames, nodes, a)
    ensures forall vpn: nat :: Flat(mem, nodes, vpn) == Flat(mem0, nodes, vpn)
  {
    hide TableOk, Flat, RangeOk, MakePte, Or;
    NodesOwned(mem0, Space(frames, nodes, []));
    TableFrame(mem0, mem, nodes);
  }

  lemma CopiedNext(mem0: Memory, mem: Memory, p: MapArea, c: MapArea, vpn: nat)
    requires RangeOk(p) && RangeOk(c) && p.framed && c.framed && p.Contains(vpn) && c.Contains(vpn)
    requires Copied(mem0, mem, p, c, vpn) && OnlyCopies(mem0, mem, c)
    requires p.dataFrames[vpn] in mem0 && c.dataFrames[vpn] in mem && p.dataFrames[vpn] !in FramesBelow(c, c.end)
    ensures p.dataFrames[vpn] in mem
    ensures var mem' := mem[c.dataFrames[vpn] := mem[p.dataFrames[vpn]]];
            Copied(mem0, mem', p, c, vpn + 1) && OnlyCopies(mem0, mem', c)
  {
  }

  ghost predicate CopyReady(mem: Memory, parent: Space, child: Space, p: MapArea, c: MapArea) {
    && TableOk(mem, parent.nodes) && FramesMatch(parent.frames, parent.nodes)
       && Copyable(mem, parent.frames, parent.nodes, p)
    && TableOk(mem, child.nodes) && FramesMatch(child.frames, child.nodes)
       && Copyable(mem, child.frames, child.nodes, c)
    && c.start == p.start && c.end == p.end && c.perm == p.perm
    && Apart(c, parent.frames) && Apart(c, child.frames)
    && forall v | v in p.dataFrames :: p.dataFrames[v] !in FramesBelow(c, c.end)
  }

  lemma StillReady(mem0: Memory, mem: Memory, parent: Space, child: Space, p: MapArea, c: MapArea)
    requires CopyReady(mem0, parent, child, p, c) && OnlyCopies(mem0, mem, c)
    ensures CopyReady(mem, parent, child, p, c)
  {
    hide TableOk, FramesMatch, Copyable, Apart, OnlyCopies;
    TableAfterCopy(mem0, mem, parent.frames, parent.nodes, p, c);
    TableAfterCopy(mem0, mem, child.frames, child.nodes, c, c);
  }

  ghost function TableOf(t: PageTable): Space
    reads t
  {
    Space(t.frames, t.nodes, [])
  }

  /** One page: look up both frames, copy the bytes. */
  method CopyPage(fm: FrameMemory, parent: PageTable, child: PageTable, p: MapArea, c: MapArea, vpn: nat,
                  ghost mem0: Memory)
    requires fm.Valid() && parent.Valid(fm.mem) && child.Valid(fm.mem) && p.Contains(vpn)
    requires CopyReady(mem0, TableOf(parent), TableOf(child), p, c)
             && CopyReady(fm.mem, TableOf(parent), TableOf(child), p, c)
    requires OnlyCopies(mem0, fm.mem, c) && Copied(mem0, fm.mem, p, c, vpn)
    modifies fm`mem
    ensures fm.Valid() && OnlyCopies(mem0, fm.mem, c) && Copied(mem0, fm.mem, p, c, vpn + 1)
  {
    hide TableOk, FramesMatch, Flat, AllocatorOk, AreaMapped, Copied, OnlyCopies, Apart;
    var src := FrameOf(fm, parent, p, vpn);
    var dst := FrameOf(fm, child, c, vpn);
    CopiedNext(mem0, fm.mem, p, c, vpn);
    fm.mem := fm.mem[dst := fm.mem[src]];
  }

  /** The copy loop over one area's pages: it writes the child's frames and no others. */
  method CopyPages(fm: FrameMemory, parent: PageTable, child: PageTable, p: MapArea, c: MapArea)
    requires fm.Valid() && parent.Valid(fm.mem) && child.Valid(fm.mem)
    requires CopyReady(fm.mem, TableOf(parent), TableOf(child), p, c)
    modifies fm`mem
    ensures fm.Valid() && OnlyCopies(old(fm.mem), fm.mem, c) && Copied(old(fm.mem), fm.mem, p, c, p.end)
  {
    hide TableOk, FramesMatch, AllocatorOk, Copyable, Copied, OnlyCopies, Apart;
    ghost var mem0 := fm.mem;
    var vpn := p.start;
    NothingCopied(mem0, p, c);
    RangeFacts(mem0, TableOf(parent), TableOf(child), p, c);
    while vpn < p.end
      invariant p.start <= vpn <= p.end && fm.Valid() && OnlyCopies(mem0, fm.mem, c) && Copied(mem0, fm.mem, p, c, vpn)
    {
      StillReady(mem0, fm.mem, TableOf(parent), TableOf(child), p, c);
      CopyPage(fm, parent, child, p, c, vpn, mem0);
      vpn := vpn + 1;
    }
  }

  lemma RangeFacts(mem: Memory, parent: Space, child: Space, p: MapArea, c: MapArea)
    requires CopyReady(mem, parent, child, p, c)
    ensures p.start <= p.end && p.framed && c.framed
  {
  }

  lemma NothingCopied(mem: Memory, p: MapArea, c: MapArea)
    ensures c.start == p.start && c.end == p.end && c.perm == p.perm && c.framed == p.framed ==>
            Copied(mem, mem, p, c, p.start)
    ensures OnlyCopies(mem, mem, c)
  {
  }

  // ---------------------------------------------------------------- the whole space

  /** A new space under construction: it owns all frames taken since it was begun, and maps its areas' pages and the
      trampoline. */
  ghost predicate Built(mem0: Memory, mem: Memory, live0: set<nat>, live: set<nat>, child: Space) {
    && SpaceOk(mem, child) && Preserved(mem0, mem, live0) && mem.Keys == mem0.Keys
    && MapsOnly(mem, child.nodes, child.areas)
    && live0 <= live && Owned(child) == live - live0
  }

  /** The child's own frames. */
  lemma ChildFramesNew(mem0: Memory, mem: Memory, live0: set<nat>, live: set<nat>, child: Space)
    requires Built(mem0, mem, live0, live, child)
    ensures forall f | f in child.frames :: f !in live0 && f in live
    ensures forall i, v | 0 <= i < |child.areas| && v in child.areas[i].dataFrames ::
              child.areas[i].dataFrames[v] !in live0 && child.areas[i].dataFrames[v] in live
                  && child.areas[i].dataFrames[v] !in child.frames && child.areas[i].dataFrames[v] in mem
  {
    hide TableOk, FramesMatch, MapsOnly, Preserved, AreaMapped, Disjoint;
    forall f | f in child.frames ensures f in Owned(child) { }
    forall i, v | 0 <= i < |child.areas| && v in child.areas[i].dataFrames
      ensures child.areas[i].dataFrames[v] in Owned(child) {
      assert child.areas[i].dataFrames[v] in DataFrames(child.areas);
    }
  }

  /** Pages of the first `n` areas hold in the second memory what they hold in the first. */
  ghost predicate AreasKept(mem: Memory, mem': Memory, areas: seq<MapArea>, n: nat)
    requires n <= |areas|
  {
    forall i, v | 0 <= i < n && v in areas[i].dataFrames ::
      areas[i].dataFrames[v] in mem && areas[i].dataFrames[v] in mem'
          && mem'[areas[i].dataFrames[v]] == mem[areas[i].dataFrames[v]]
  }

  /** After an area has been pushed, what was built before still stands. */
  lemma BuiltPush(mem0: Memory, mem1: Memory, mem2: Memory, live0: set<nat>, live1: set<nat>, live2: set<nat>,
                  c1: Space, c2: Space, n: nat)
    requires Built(mem0, mem1, live0, live1, c1) && |c1.areas| == n
    requires SpaceOk(mem2, c2) && |c2.areas| == n + 1 && c2.areas[..n] == c1.areas && mem2.Keys == mem1.Keys
    requires OthersUntouched(mem1, mem2, live1, c1.frames) && live1 <= live2 && Owned(c2) == Owned(c1) + (live2 - live1)
    requires PartMapped(mem1, c1.nodes, mem2, c2.nodes, c2.areas[n], c2.areas[n].end)
    ensures Built(mem0, mem2, live0, live2, c2) && AreasKept(mem1, mem2, c2.areas, n)
    ensures !c2.areas[n].Contains(TRAMPOLINE_VPN) ==>
            Flat(mem2, c2.nodes, TRAMPOLINE_VPN) == Flat(mem1, c1.nodes, TRAMPOLINE_VPN)
  {
    hide TableOk, FramesMatch, Flat, AreaMapped, DataOk, SpaceOk;
    ChildFramesNew(mem0, mem1, live0, live1, c1);
    assert forall i | 0 <= i < n :: c2.areas[i] == c1.areas[i];
    forall v: nat | v < VPN_LIMIT && Flat(mem2, c2.nodes, v).Some? && v != TRAMPOLINE_VPN
      ensures exists i :: 0 <= i < |c2.areas| && c2.areas[i].Contains(v)
    {
      if c2.areas[n].Contains(v) {
      } else {
        assert Flat(mem1, c1.nodes, v).Some?;
        var i :| 0 <= i < |c1.areas| && c1.areas[i].Contains(v);
        assert c2.areas[i].Contains(v);
      }
    }
  }

  /** After the pages of the last area have been written, everything but their contents stands. */
  lemma BuiltFill(mem0: Memory, mem2: Memory, mem3: Memory, live0: set<nat>, live: set<nat>, c: Space, n: nat)
    requires Built(mem0, mem2, live0, live, c) && n < |c.areas| && OnlyCopies(mem2, mem3, c.areas[n])
    ensures Built(mem0, mem3, live0, live, c) && AreasKept(mem2, mem3, c.areas, n)
    ensures Flat(mem3, c.nodes, TRAMPOLINE_VPN) == Flat(mem2, c.nodes, TRAMPOLINE_VPN)
  {
    hide SpaceOk, MapsOnly, Owned, FramesBelow, Flat;
    ChildFramesNew(mem0, mem2, live0, live, c);
    FilledApart(mem2, c, n, live0, live);
    FilledSpace(mem2, mem3, c, n, live0, live);
  }

  /** The parent's first `n` areas have been copied into the child. */
  ghost predicate CopiedUpTo(mem0: Memory, mem: Memory, live0: set<nat>, live: set<nat>, parent: Space, child: Space,
                             n: nat)
    requires n <= |parent.areas|
  {
    && Built(mem0, mem, live0, live, child) && |child.areas| == n
    && (forall i | 0 <= i < n :: Copied(mem0, mem, parent.areas[i], child.areas[i], parent.areas[i].end))
  }

  lemma CopiesKept(mem0: Memory, mem: Memory, mem': Memory, parent: Space, areas: seq<MapArea>, areas': seq<MapArea>,
                   n: nat)
    requires n <= |parent.areas| && n <= |areas| && n <= |areas'| && areas'[..n] == areas[..n]
    requires AreasKept(mem, mem', areas', n)
    requires forall i | 0 <= i < n :: Copied(mem0, mem, parent.areas[i], areas[i], parent.areas[i].end)
    ensures forall i | 0 <= i < n :: Copied(mem0, mem', parent.areas[i], areas'[i], parent.areas[i].end)
  {
    forall i | 0 <= i < n ensures Copied(mem0, mem', parent.areas[i], areas'[i], parent.areas[i].end) {
      assert areas'[i] == areas'[..n][i] == areas[..n][i] == areas[i];
      assert Copied(mem0, mem, parent.areas[i], areas[i], parent.areas[i].end);
    }
  }

  /** The next area's pages are not mapped in the child yet. */
  lemma NextUnmapped(mem0: Memory, mem: Memory, live0: set<nat>, live: set<nat>, parent: Space, child: Space, n: nat)
    requires n < |parent.areas| && CopiedUpTo(mem0, mem, live0, live, parent, child, n)
    requires SpaceOk(mem0, parent) && !parent.areas[n].Contains(TRAMPOLINE_VPN)
    ensures RangeOk(parent.areas[n]) && forall v: nat | parent.areas[n].Contains(v) :: Flat(mem, child.nodes, v).None?
  {
    hide TableOk, FramesMatch, Flat, AreaMapped, DataOk, Preserved;
    assert forall i | 0 <= i < n :: Copied(mem0, mem, parent.areas[i], child.areas[i], parent.areas[i].end);
  }

  lemma CopiedSince(mem0: Memory, mem2: Memory, mem3: Memory, p: MapArea, c: MapArea, live0: set<nat>)
    requires Copied(mem2, mem3, p, c, p.end) && Preserved(mem0, mem2, live0) && mem2.Keys == mem0.Keys
    requires forall v | v in p.dataFrames :: p.dataFrames[v] in live0
    ensures Copied(mem0, mem3, p, c, p.end)
  {
  }

  lemma FilledApart(mem: Memory, c: Space, n: nat, live0: set<nat>, live: set<nat>)
    requires SpaceOk(mem, c) && n < |c.areas| && Owned(c) == live - live0
    ensures forall p | p in FramesBelow(c.areas[n], c.areas[n].end) :: p !in live0 && p !in c.frames
    ensures forall i, v | 0 <= i < n && v in c.areas[i].dataFrames ::
            c.areas[i].dataFrames[v] !in FramesBelow(c.areas[n], c.areas[n].end)
  {
    hide TableOk, FramesMatch, AreaMapped, Disjoint;
    forall p | p in FramesBelow(c.areas[n], c.areas[n].end) ensures p !in live0 && p !in c.frames {
      var v :| v in c.areas[n].dataFrames && v < c.areas[n].end && c.areas[n].dataFrames[v] == p;
      assert p in DataFrames(c.areas);
      assert p in Owned(c);
    }
  }

  lemma FilledSpace(mem2: Memory, mem3: Memory, c: Space, n: nat, live0: set<nat>, live: set<nat>)
    requires SpaceOk(mem2, c) && n < |c.areas| && Owned(c) == live - live0 && MapsOnly(mem2, c.nodes, c.areas)
    requires OnlyCopies(mem2, mem3, c.areas[n])
    ensures SpaceOk(mem3, c) && MapsOnly(mem3, c.nodes, c.areas)
    ensures forall vpn: nat :: Flat(mem3, c.nodes, vpn) == Flat(mem2, c.nodes, vpn)
  {
    hide Flat, SpaceOk;
    FilledApart(mem2, c, n, live0, live);
    assert forall p | p in c.frames :: p in mem2 by { SpaceNodes(mem2, c); }
    SpaceFrame(mem2, mem3, c);
  }

  lemma SpaceNodes(mem: Memory, sp: Space)
    requires SpaceOk(mem, sp)
    ensures TableOk(mem, sp.nodes) && FramesMatch(sp.frames, sp.nodes) && forall p | p in sp.frames :: p in mem
  {
    NodesOwned(mem, sp);
  }

  function TotalPages(areas: seq<MapArea>): int {
    if areas == [] then 0 else TotalPages(areas[..|areas| - 1]) + (areas[|areas| - 1].end - areas[|areas| - 1].start)
  }

  lemma PagesStep(areas: seq<MapArea>, i: nat)
    requires i < |areas|
    ensures TotalPages(areas[..i + 1]) == TotalPages(areas[..i]) + (areas[i].end - areas[i].start)
  {
    assert areas[..i + 1][..i] == areas[..i];
  }

  lemma {:induction false} PagesMonotone(areas: seq<MapArea>, i: nat)
    requires i <= |areas| && forall j | 0 <= j < |areas| :: areas[j].start <= areas[j].end
    ensures TotalPages(areas[..i]) <= TotalPages(areas) && TotalPages(areas[..0]) == 0
    decreases |areas|
  {
    if i < |areas| {
      var k := |areas| - 1;
      PagesMonotone(areas[..k], i);
      assert areas[..k][..i] == areas[..i];
    } else {
      assert areas[..i] == areas;
    }
  }

  /** A new space with nothing but the trampoline mapped. */
  method NewWithTrampoline(fm: FrameMemory, trampoline: nat) returns (r: Option<MemorySet>)
    requires fm.Valid() && trampoline < PPN_LIMIT
    modifies fm
    ensures fm.Valid() && fm.mem.Keys == old(fm.mem.Keys) && Preserved(old(fm.mem), fm.mem, old(fm.Live()))
            && old(fm.Live()) <= fm.Live()
    ensures r.Some? ==> fresh(r.value) && fresh(r.value.table) && r.value.Valid(fm) && r.value.areas == []
    ensures r.Some? ==> Owned(r.value.Snap()) == fm.Live() - old(fm.Live()) && MapsOnly(fm.mem, r.value.table.nodes, [])
    ensures r.Some? ==> Flat(fm.mem, r.value.table.nodes, TRAMPOLINE_VPN) == Some(MakePte(trampoline, Or(R_X, V)))
    ensures old(fm.Available()) >= 3 ==> r.Some? && fm.Available() >= old(fm.Available()) - 3
  {
    hide TableOk, FramesMatch, Flat, LiveFrames, AllocatorOk, MakePte, Or, ZeroFrame;
    ghost var mem0, live0 := fm.mem, fm.Live();
    var frame := fm.Alloc();
    if frame.None? { return None; }
    InRange(fm.start, fm.end, fm.current, fm.recycled);
    var ms := new MemorySet(fm, frame.value);
    ghost var mem1, live1, frames1, nodes1 := fm.mem, fm.Live(), ms.table.frames, ms.table.nodes;
    OnlyRoot(frames1, ms.Snap(), frame.value);
    var ok := ms.table.Map(fm, TRAMPOLINE_VPN, trampoline, R_X);
    BareStands(mem0, mem1, fm.mem, live0, live1, fm.Live(), frames1, ms.table.frames, frame.value);
    if !ok { return None; }
    BareSpace(fm.mem, ms.Snap(), live0, fm.Live(), frame.value, frames1);
    return Some(ms);
  }

  lemma OnlyRoot(frames: seq<nat>, sp: Space, root: nat)
    requires Owned(sp) == {root} && sp.frames == frames
    ensures forall f | f in frames :: f == root
  {
    forall f | f in frames ensures f == root { assert f in Owned(sp); }
  }

  lemma BareStands(m0: Memory, m1: Memory, m2: Memory, live0: set<nat>, live1: set<nat>, live2: set<nat>, f1: seq<nat>,
                   f2: seq<nat>, root: nat)
    requires m1 == m0[root := ZeroFrame()] && root !in live0 && live1 == live0 + {root}
             && (forall f | f in f1 :: f == root)
    requires OthersUntouched(m1, m2, live1, f1) && Grown(f1, f2, live1, live2)
    ensures Preserved(m0, m2, live0) && live0 <= live2
  {
  }

  lemma BareSpace(mem: Memory, sp: Space, live0: set<nat>, live2: set<nat>, root: nat, f1: seq<nat>)
    requires TableOk(mem, sp.nodes) && FramesMatch(sp.frames, sp.nodes) && sp.areas == []
    requires root in f1 && (forall f | f in f1 :: f == root) && root !in live0
             && Grown(f1, sp.frames, live0 + {root}, live2)
    ensures SpaceOk(mem, sp) && Owned(sp) == live2 - live0
  {
    hide TableOk, FramesMatch;
    assert DataFrames([]) == {};
    assert sp.frames == f1 + sp.frames[|f1|..];
    forall p | p in sp.frames ensures p in live2 && p !in live0 {
      var i :| 0 <= i < |sp.frames| && sp.frames[i] == p;
      if i < |f1| { assert f1[i] == p; } else { assert sp.frames[|f1|..][i - |f1|] == p; }
    }
  }

  /** The parent as it was when the copy began, and all it owns. */
  ghost predicate ParentOk(mem0: Memory, live0: set<nat>, parent: Space) {
    && SpaceOk(mem0, parent) && (forall p | p in Owned(parent) :: p in live0)
    && forall i | 0 <= i < |parent.areas| :: parent.areas[i].framed && !parent.areas[i].Contains(TRAMPOLINE_VPN)
  }

  lemma ParentStands(mem0: Memory, mem: Memory, live0: set<nat>, parent: Space)
    requires ParentOk(mem0, live0, parent) && Preserved(mem0, mem, live0) && mem.Keys == mem0.Keys
    ensures SpaceOk(mem, parent) && TableOk(mem, parent.nodes) && FramesMatch(parent.frames, parent.nodes)
  {
    hide TableOk, FramesMatch, Flat;
    NodesOwned(mem0, parent);
    forall p | p in parent.frames ensures p in live0 { assert p in Owned(parent); }
    SpaceFrame(mem0, mem, parent);
  }

  lemma ReadyToCopy(mem0: Memory, mem: Memory, live0: set<nat>, parent: Space, child: Space, n: nat, fm: FrameMemory)
    requires fm.Valid() && ParentOk(mem0, live0, parent) && SpaceOk(mem, parent) && SpaceOk(mem, child)
             && n < |parent.areas| && n < |child.areas|
    requires (forall p | p in live0 :: p in fm.Live())
             && (forall p | p in Owned(child) :: p in fm.Live() && p !in live0)
    requires child.areas[n].start == parent.areas[n].start && child.areas[n].end == parent.areas[n].end
    requires child.areas[n].framed && child.areas[n].perm == parent.areas[n].perm
    ensures CopyReady(mem, Space(parent.frames, parent.nodes, []), Space(child.frames, child.nodes, []),
                      parent.areas[n], child.areas[n])
    ensures forall v | v in parent.areas[n].dataFrames :: parent.areas[n].dataFrames[v] in live0
  {
    hide TableOk, FramesMatch, AreaMapped, Flat, DataOk, Disjoint;
    var p, c := parent.areas[n], child.areas[n];
    AreaFacts(mem, parent, p, fm);
    AreaFacts(mem, child, c, fm);
    forall f | f in parent.frames ensures f in live0 { assert f in Owned(parent); }
    assert Apart(c, parent.frames) && Apart(c, child.frames);
    forall v | v in p.dataFrames ensures p.dataFrames[v] !in FramesBelow(c, c.end) { assert p.dataFrames[v] in live0; }
  }

  /** One area of the loop in `from_existed_user`. */
  method ForkArea(fm: FrameMemory, user: MemorySet, ms: MemorySet, i: nat, ghost mem0: Memory, ghost live0: set<nat>)
    returns (ok: bool)
    requires user != ms && user.table != ms.table && ms.Valid(fm) && user.table.Valid(fm.mem) && i < |user.areas|
    requires ParentOk(mem0, live0, user.Snap()) && CopiedUpTo(mem0, fm.mem, live0, fm.Live(), user.Snap(), ms.Snap(), i)
    modifies ms, ms.table, fm
    ensures fm.Valid() && fm.mem.Keys == old(fm.mem.Keys) && (!ok ==> Preserved(mem0, fm.mem, live0))
    ensures ok ==> ms.Valid(fm) && user.table.Valid(fm.mem)
                   && CopiedUpTo(mem0, fm.mem, live0, fm.Live(), user.Snap(), ms.Snap(), i + 1)
    ensures ok ==> Flat(fm.mem, ms.table.nodes, TRAMPOLINE_VPN) ==
                   Flat(old(fm.mem), old(ms.table.nodes), TRAMPOLINE_VPN)
    ensures old(fm.Available()) >= 3 * (user.areas[i].end - user.areas[i].start) ==> ok
    ensures ok ==> fm.Available() >= old(fm.Available()) - 3 * (user.areas[i].end - user.areas[i].start)
  {
    hide TableOk, FramesMatch, Flat, LiveFrames, AllocatorOk, SpaceOk, MapsOnly, OthersUntouched, PartMapped, Copied,
         Owned, Preserved, OnlyCopies, CopyReady, AreasKept;
    var area := user.areas[i];
    ghost var mem1, live1, c1 := fm.mem, fm.Live(), ms.Snap();
    NextUnmapped(mem0, mem1, live0, live1, user.Snap(), c1, i);
    ok := ms.Push(fm, area.start, area.end, area.framed, area.perm);
    ghost var mem2, live2, c2 := fm.mem, fm.Live(), ms.Snap();
    PreservedByPush(mem0, mem1, mem2, live0, live1, user.Snap(), c1, i);
    if !ok { return; }
    BuiltPush(mem0, mem1, mem2, live0, live1, live2, c1, c2, i);
    CopiesKept(mem0, mem1, mem2, user.Snap(), c1.areas, c2.areas, i);
    ParentStands(mem0, mem2, live0, user.Snap());
    ReadyToCopy(mem0, mem2, live0, user.Snap(), c2, i, fm);
    CopyPages(fm, user.table, ms.table, area, ms.areas[i]);
    BuiltFill(mem0, mem2, fm.mem, live0, live2, c2, i);
    CopiesKept(mem0, mem2, fm.mem, user.Snap(), c2.areas, c2.areas, i);
    CopiedSince(mem0, mem2, fm.mem, area, c2.areas[i], live0);
    ParentStands(mem0, fm.mem, live0, user.Snap());
    SpaceNodes(fm.mem, c2);
  }

  lemma PreservedByPush(mem0: Memory, mem1: Memory, mem2: Memory, live0: set<nat>, live1: set<nat>, parent: Space,
                        c1: Space, n: nat)
    requires n <= |parent.areas| && CopiedUpTo(mem0, mem1, live0, live1, parent, c1, n)
             && OthersUntouched(mem1, mem2, live1, c1.frames)
    ensures Preserved(mem0, mem2, live0)
  {
    hide SpaceOk, Copied, MapsOnly;
    ChildFramesNew(mem0, mem1, live0, live1, c1);
  }

  /** `from_existed_user`: the same areas with the same permissions, every page with the parent's bytes but in a
      frame of the child's own; the parent, and every other live frame, is untouched. Only running out of frames
      stops it. */
  method FromExistedUser(fm: FrameMemory, user: MemorySet, trampoline: nat) returns (r: Option<MemorySet>)
    requires user.Valid(fm) && trampoline < PPN_LIMIT
    requires forall i | 0 <= i < |user.areas| :: user.areas[i].framed && !user.areas[i].Contains(TRAMPOLINE_VPN)
    modifies fm
    ensures fm.Valid() && fm.mem.Keys == old(fm.mem.Keys) && Preserved(old(fm.mem), fm.mem, old(fm.Live()))
    ensures r.Some? ==> fresh(r.value) && fresh(r.value.table) && r.value.Valid(fm) && user.Valid(fm)
    ensures r.Some? ==> CopiedUpTo(old(fm.mem), fm.mem, old(fm.Live()), fm.Live(), user.Snap(), r.value.Snap(),
                                   |user.areas|)
    ensures r.Some? ==> Flat(fm.mem, r.value.table.nodes, TRAMPOLINE_VPN) == Some(MakePte(trampoline, Or(R_X, V)))
                        && TrampolineSeen(fm.mem, r.value.table.root, trampoline)
    ensures old(fm.Available()) >= 3 + 3 * TotalPages(user.areas) ==>
              r.Some? && fm.Available() >= old(fm.Available()) - 3 - 3 * TotalPages(user.areas)
  {
    hide TableOk, FramesMatch, Flat, LiveFrames, AllocatorOk, SpaceOk, MapsOnly, Owned, Preserved, MakePte, Or,
         TotalPages, CopiedUpTo, TrampolineSeen;
    ghost var mem0, live0, parent := fm.mem, fm.Live(), user.Snap();
    RangesForward(mem0, parent);
    r := NewWithTrampoline(fm, trampoline);
    PagesMonotone(user.areas, 0);
    if r.None? { return; }
    var ms := r.value;
    StartCopy(mem0, fm.mem, live0, fm.Live(), parent, ms.Snap());
    var i := 0;
    while i < |user.areas|
      invariant i <= |user.areas| && ms.Valid(fm) && fm.mem.Keys == mem0.Keys && user.table.Valid(fm.mem)
      invariant CopiedUpTo(mem0, fm.mem, live0, fm.Live(), parent, ms.Snap(), i)
      invariant Flat(fm.mem, ms.table.nodes, TRAMPOLINE_VPN) == Some(MakePte(trampoline, Or(R_X, V)))
      invariant old(fm.Available()) >= 3 + 3 * TotalPages(user.areas) ==>
                fm.Available() >= old(fm.Available()) - 3 - 3 * TotalPages(user.areas[..i])
    {
      PagesStep(user.areas, i);
      PagesMonotone(user.areas, i + 1);
      var ok := ForkArea(fm, user, ms, i, mem0, live0);
      if !ok { return None; }
      i := i + 1;
    }
    assert user.areas[..|user.areas|] == user.areas;
    FinishCopy(mem0, fm.mem, live0, fm.Live(), parent, ms.Snap());
    TrampolineAccess(fm.mem, ms.table.nodes, trampoline);
  }

  lemma RangesForward(mem: Memory, sp: Space)
    requires SpaceOk(mem, sp)
    ensures forall j | 0 <= j < |sp.areas| :: sp.areas[j].start <= sp.areas[j].end
  {
    forall j | 0 <= j < |sp.areas| ensures sp.areas[j].start <= sp.areas[j].end { assert RangeOk(sp.areas[j]); }
  }

  lemma StartCopy(mem0: Memory, mem: Memory, live0: set<nat>, live: set<nat>, parent: Space, child: Space)
    requires ParentOk(mem0, live0, parent) && Preserved(mem0, mem, live0) && mem.Keys == mem0.Keys && live0 <= live
    requires SpaceOk(mem, child) && child.areas == [] && Owned(child) == live - live0 && MapsOnly(mem, child.nodes, [])
    ensures CopiedUpTo(mem0, mem, live0, live, parent, child, 0)
    ensures TableOk(mem, parent.nodes) && FramesMatch(parent.frames, parent.nodes)
  {
    hide SpaceOk, MapsOnly, Preserved;
    ParentStands(mem0, mem, live0, parent);
  }

  lemma FinishCopy(mem0: Memory, mem: Memory, live0: set<nat>, live: set<nat>, parent: Space, child: Space)
    requires ParentOk(mem0, live0, parent) && CopiedUpTo(mem0, mem, live0, live, parent, child, |parent.areas|)
    ensures SpaceOk(mem, parent) && Preserved(mem0, mem, live0) && forall p | p in Owned(parent) :: p in live
  {
    hide SpaceOk, MapsOnly, Copied, Preserved;
    ParentStands(mem0, mem, live0, parent);
  }

  /** Two spaces that own no frame in common: a write to a data frame of one changes neither what the other maps
      nor what any of its pages holds. */
  lemma WritesInvisible(mem: Memory, one: Space, other: Space, i: nat, v: nat, contents: Frame)
    requires SpaceOk(mem, one) && SpaceOk(mem, other) && Owned(one) !! Owned(other)
    requires i < |one.areas| && v in one.areas[i].dataFrames
    ensures var mem' := mem[one.areas[i].dataFrames[v] := contents];
            && SpaceOk(mem', one) && SpaceOk(mem', other)
            && (forall vpn: nat :: Flat(mem', other.nodes, vpn) == Flat(mem, other.nodes, vpn))
            && (forall p | p in Owned(other) && p in mem :: mem'[p] == mem[p])
  {
    hide TableOk, FramesMatch, Flat, AreaMapped, Disjoint;
    var f := one.areas[i].dataFrames[v];
    var mem' := mem[f := contents];
    assert f in DataFrames(one.areas);
    assert f in Owned(one);
    NodesOwned(mem, one);
    NodesOwned(mem, other);
    forall p | p in other.frames ensures p in Owned(other) { }
    SpaceFrame(mem, mem', one);
    SpaceFrame(mem, mem', other);
  }

  /** After a fork the two spaces own no frame in common. */
  lemma ForkedApart(mem0: Memory, mem: Memory, live0: set<nat>, live: set<nat>, parent: Space, child: Space)
    requires CopiedUpTo(mem0, mem, live0, live, parent, child, |parent.areas|)
             && forall p | p in Owned(parent) :: p in live0
    ensures Owned(parent) !! Owned(child)
  {
    hide SpaceOk, MapsOnly, Copied, Preserved;
  }
}
