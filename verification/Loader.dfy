/** The address space of a new program (`MemorySet::from_elf` once the file has been parsed,
    os/src/memory/memory_set.rs). */
module Loader {
  import opened Options
  import opened Bits
  import opened Frames
  import opened Hardware
  import opened PageTables
  import opened MemorySets
  import opened Fork

  /** The page below the trampoline, which holds the trap context. */
  const CONTEXT_VPN: nat := 0x7FF_FFFE

  /** A range of pages and what its first ones are to hold. The pages of `data` are the file's bytes, the last one
      filled up with zeros; the others are left zero. */
  datatype Segment = Segment(start: nat, end: nat, perm: nat, data: seq<Frame>) {

    ghost predicate Contains(vpn: nat) {
      start <= vpn < end
    }

    ghost function Page(vpn: nat): Frame {
      if start <= vpn < start + |data| then data[vpn - start] else ZeroFrame()
    }
  }

  /** All that `from_elf` maps: the loadable segments, above the last of them a page left free and two pages of stack,
      and the page for the trap context. */
  function Image(loads: seq<Segment>): (segments: seq<Segment>)
    ensures |segments| == |loads| + 2
  {
    var top := if loads == [] then 0 else loads[|loads| - 1].end;
    loads + [Segment(top + 1, top + 3, 22, []), Segment(CONTEXT_VPN, TRAMPOLINE_VPN, 6, [])]
  }

  /** What the source asserts while it maps: pages that exist and that nothing else is mapped to; and room for the
      data. */
  ghost predicate Loadable(segments: seq<Segment>) {
    && (forall i | 0 <= i < |segments| ::
          && segments[i].start <= segments[i].end <= TRAMPOLINE_VPN && segments[i].perm < 256
          && segments[i].start + |segments[i].data| <= segments[i].end)
    && (forall i, j, v: nat | 0 <= i < |segments| && 0 <= j < |segments| && segments[i].Contains(v)
                              && segments[j].Contains(v) :: i == j)
  }

  /** The area has the segment's pages, with its permission and its contents below `next`, zeros from there on. */
  ghost predicate Holds(mem: Memory, s: Segment, a: MapArea, next: nat) {
    && a.start == s.start && a.end == s.end && a.framed && a.perm == s.perm
    && forall v | s.start <= v < s.end ::
         && v in a.dataFrames && a.dataFrames[v] in mem
         && mem[a.dataFrames[v]] == if v < next then s.Page(v) else ZeroFrame()
  }

  /** The first `n` segments are in place. */
  ghost predicate LoadedUpTo(mem0: Memory, mem: Memory, live0: set<nat>, live: set<nat>, segments: seq<Segment>,
                             child: Space, n: nat)
    requires n <= |segments|
  {
    && Built(mem0, mem, live0, live, child) && |child.areas| == n
    && (forall i | 0 <= i < n :: Holds(mem, segments[i], child.areas[i], segments[i].end))
  }

  /** A page of a segment as the hardware sees it: accessed as the segment's permission says, with its contents. */
  ghost predicate SegmentSeen(mem: Memory, root: nat, s: Segment, v: nat) {
    forall access, mode: Mode :: var r := HardwareAccess(mem, root, v, access, mode, true);
      && (r.Some? <==> (IsW(s.perm) ==> IsR(s.perm)) && Permitted(s.perm, access, mode))
      && (r.Some? ==> r.value in mem && mem[r.value] == s.Page(v))
  }

  /** The space of a new program as the hardware sees it, if it sets A and D itself: the program's segments; two pages
      of stack above the last of them, which user mode loads and stores but does not execute; a page between that
      faults, unless another segment covers it; the trap context, for the supervisor only; and the trampoline. */
  ghost predicate UserView(mem: Memory, root: nat, loads: seq<Segment>, trampoline: nat) {
    var top := if loads == [] then 0 else loads[|loads| - 1].end;
    && (forall i, v: nat | 0 <= i < |loads| && loads[i].Contains(v) && loads[i].perm < 32 && loads[i].perm % 2 == 0 ::
          SegmentSeen(mem, root, loads[i], v))
    && (forall v: nat, access, mode: Mode | top + 1 <= v < top + 3 && mode.user ::
          HardwareAccess(mem, root, v, access, mode, true).Some? <==> access != Execute)
    && ((forall i | 0 <= i < |loads| :: !loads[i].Contains(top)) ==> HardwareWalk(mem, root, top, 2).None?)
    && (forall access, mode: Mode ::
          HardwareAccess(mem, root, 0x7FF_FFFE, access, mode, true).Some? <==> !mode.user && access != Execute)
    && TrampolineSeen(mem, root, trampoline)
  }

  lemma SegmentAccess(mem: Memory, segments: seq<Segment>, sp: Space, i: nat, v: nat)
    requires SpaceOk(mem, sp) && i < |segments| == |sp.areas| && Holds(mem, segments[i], sp.areas[i], segments[i].end)
    requires segments[i].Contains(v) && segments[i].perm < 32 && segments[i].perm % 2 == 0
    requires forall p | p in Owned(sp) :: p < PPN_LIMIT
    ensures SegmentSeen(mem, sp.nodes[Root], segments[i], v)
  {
    var f := sp.areas[i].dataFrames[v];
    assert f in DataFrames(sp.areas) && f in Owned(sp) && sp.areas[i].PpnOf(v) == f;
    assert Root in sp.nodes;
    hide SpaceOk, HardwareAccess, Permitted, IsW, IsR, ZeroFrame;
    forall access, mode: Mode
      ensures var r := HardwareAccess(mem, sp.nodes[Root], v, access, mode, true);
              && (r.Some? <==> (IsW(segments[i].perm) ==> IsR(segments[i].perm))
                               && Permitted(segments[i].perm, access, mode))
              && (r.Some? ==> r.value in mem && mem[r.value] == segments[i].Page(v))
    {
      AreaAccess(mem, sp, i, v, access, mode);
    }
  }

  /** The page below the stack is nobody's. */
  lemma GuardFaults(mem: Memory, loads: seq<Segment>, sp: Space)
    requires SpaceOk(mem, sp) && MapsOnly(mem, sp.nodes, sp.areas) && |sp.areas| == |loads| + 2
             && Loadable(Image(loads))
    requires forall i | 0 <= i < |loads| + 2 ::
             sp.areas[i].start == Image(loads)[i].start && sp.areas[i].end == Image(loads)[i].end
    ensures var top := if loads == [] then 0 else loads[|loads| - 1].end;
            (forall i | 0 <= i < |loads| :: !loads[i].Contains(top)) ==>
              HardwareWalk(mem, sp.nodes[Root], top, 2).None?
  {
    hide FramesMatch, AreaMapped, RangeOk, Disjoint, DataOk, Flat, TableOk, HardwareWalk;
    var top := if loads == [] then 0 else loads[|loads| - 1].end;
    assert Image(loads)[|loads|].end == top + 3 <= TRAMPOLINE_VPN;
    assert Image(loads)[|loads|].start == top + 1 && Image(loads)[|loads| + 1].start == CONTEXT_VPN;
    assert forall i | 0 <= i < |loads| :: Image(loads)[i] == loads[i];
    HardwareAgrees(mem, sp.nodes, top);
  }

  /** What permissions 22 and 6 allow: loads and stores, in user mode or only outside it. */
  lemma StackSeen(mem: Memory, root: nat, s: Segment, v: nat, access: Access, mode: Mode)
    requires SegmentSeen(mem, root, s, v)
    ensures s.perm == 22 && mode.user ==>
              (HardwareAccess(mem, root, v, access, mode, true).Some? <==> access != Execute)
    ensures s.perm == 6 ==>
              (HardwareAccess(mem, root, v, access, mode, true).Some? <==> !mode.user && access != Execute)
  {
    hide HardwareAccess;
  }

  lemma ViewOfImage(mem0: Memory, mem: Memory, live0: set<nat>, live: set<nat>, loads: seq<Segment>, child: Space,
                    trampoline: nat)
    requires Loadable(Image(loads)) && LoadedUpTo(mem0, mem, live0, live, Image(loads), child, |loads| + 2)
    requires TrampolineSeen(mem, child.nodes[Root], trampoline) && forall p | p in live :: p < PPN_LIMIT
    ensures UserView(mem, child.nodes[Root], loads, trampoline)
  {
    var segments, n := Image(loads), |loads|;
    assert Root in child.nodes;
    var root := child.nodes[Root];
    hide SpaceOk, MapsOnly, Preserved, Owned, HardwareAccess, HardwareWalk, TrampolineSeen, ZeroFrame, Loadable,
         SegmentSeen, Permitted;
    assert forall i | 0 <= i < n + 2 :: Holds(mem, segments[i], child.areas[i], segments[i].end);
    GuardFaults(mem, loads, child);
    forall i, v: nat | 0 <= i < n + 2 && segments[i].Contains(v) && segments[i].perm < 32 && segments[i].perm % 2 == 0
      ensures SegmentSeen(mem, root, segments[i], v)
    {
      SegmentAccess(mem, segments, child, i, v);
    }
    forall v: nat, access, mode: Mode | segments[n].Contains(v) && mode.user
      ensures HardwareAccess(mem, root, v, access, mode, true).Some? <==> access != Execute
    {
      StackSeen(mem, root, segments[n], v, access, mode);
    }
    forall access, mode: Mode
      ensures HardwareAccess(mem, root, 0x7FF_FFFE, access, mode, true).Some? <==> !mode.user && access != Execute
    {
      StackSeen(mem, root, segments[n + 1], 0x7FF_FFFE, access, mode);
    }
    assert forall i | 0 <= i < n :: segments[i] == loads[i];
  }

  lemma LoadsKept(mem: Memory, mem': Memory, segments: seq<Segment>, areas: seq<MapArea>, areas': seq<MapArea>, n: nat)
    requires n <= |segments| && n <= |areas| && n <= |areas'| && areas'[..n] == areas[..n]
    requires AreasKept(mem, mem', areas', n)
    requires forall i | 0 <= i < n :: Holds(mem, segments[i], areas[i], segments[i].end)
    ensures forall i | 0 <= i < n :: Holds(mem', segments[i], areas'[i], segments[i].end)
  {
    hide ZeroFrame;
    forall i | 0 <= i < n ensures Holds(mem', segments[i], areas'[i], segments[i].end) {
      assert areas'[i] == areas'[..n][i] == areas[..n][i] == areas[i];
      assert Holds(mem, segments[i], areas[i], segments[i].end);
    }
  }

  /** The next segment's pages are not mapped yet. */
  lemma NextFree(mem0: Memory, mem: Memory, live0: set<nat>, live: set<nat>, segments: seq<Segment>, child: Space,
                 n: nat)
    requires n < |segments| && LoadedUpTo(mem0, mem, live0, live, segments, child, n) && Loadable(segments)
    ensures forall v: nat | segments[n].Contains(v) :: Flat(mem, child.nodes, v).None?
  {
    hide SpaceOk, Flat, Preserved, Owned, ZeroFrame;
    assert forall i | 0 <= i < n :: Holds(mem, segments[i], child.areas[i], segments[i].end);
  }

  /** A freshly mapped area holds zeros. */
  lemma MappedHolds(mem0: Memory, nodes0: Nodes, mem: Memory, nodes: Nodes, s: Segment, a: MapArea)
    requires PartMapped(mem0, nodes0, mem, nodes, a, a.end)
    requires a.start == s.start && a.end == s.end && a.framed && a.perm == s.perm
    ensures Holds(mem, s, a, s.start)
  {
    hide Flat, MakePte, ZeroFrame;
  }

  lemma HoldsNext(mem: Memory, s: Segment, a: MapArea, v: nat)
    requires RangeOk(a) && Holds(mem, s, a, v) && s.Contains(v)
    ensures v in a.dataFrames && a.dataFrames[v] in mem && Holds(mem[a.dataFrames[v] := s.Page(v)], s, a, v + 1)
  {
    hide ZeroFrame;
  }

  lemma HoldsAll(mem: Memory, s: Segment, a: MapArea)
    requires Holds(mem, s, a, s.start + |s.data|)
    ensures Holds(mem, s, a, s.end)
  {
    hide ZeroFrame;
  }

  /** `MapArea::copy_data`, page by page. */
  method CopyData(fm: FrameMemory, table: PageTable, s: Segment, ghost a: MapArea)
    requires fm.Valid() && table.Valid(fm.mem) && Copyable(fm.mem, table.frames, table.nodes, a)
             && Apart(a, table.frames)
    requires Holds(fm.mem, s, a, s.start) && s.start + |s.data| <= s.end
    modifies fm`mem
    ensures fm.Valid() && OnlyCopies(old(fm.mem), fm.mem, a) && Holds(fm.mem, s, a, s.end)
  {
    hide TableOk, FramesMatch, Flat, AllocatorOk, AreaMapped, Holds, OnlyCopies, Apart, ZeroFrame, RangeOk;
    ghost var mem0 := fm.mem;
    NothingCopied(mem0, a, a);
    var i := 0;
    while i < |s.data|
      invariant i <= |s.data| && fm.Valid() && OnlyCopies(mem0, fm.mem, a) && Holds(fm.mem, s, a, s.start + i)
    {
      TableAfterCopy(mem0, fm.mem, table.frames, table.nodes, a, a);
      WithinArea(fm.mem, s, a, s.start + i);
      HoldsNext(fm.mem, s, a, s.start + i);
      var ppn := FrameOf(fm, table, a, s.start + i);
      WritesArea(mem0, fm.mem, a, s.start + i, s.data[i]);
      fm.mem := fm.mem[ppn := s.data[i]];
      i := i + 1;
    }
    HoldsAll(fm.mem, s, a);
  }

  lemma WithinArea(mem: Memory, s: Segment, a: MapArea, v: nat)
    requires Holds(mem, s, a, v) && s.Contains(v)
    ensures a.Contains(v)
  {
  }

  lemma WritesArea(mem0: Memory, mem: Memory, a: MapArea, v: nat, f: Frame)
    requires RangeOk(a) && OnlyCopies(mem0, mem, a) && v in a.dataFrames && a.Contains(v) && a.dataFrames[v] in mem
    ensures OnlyCopies(mem0, mem[a.dataFrames[v] := f], a)
  {
  }

  /** What `push` with data does. */
  method LoadSegment(fm: FrameMemory, ms: MemorySet, segments: seq<Segment>, i: nat, ghost mem0: Memory,
                     ghost live0: set<nat>) returns (ok: bool)
    requires ms.Valid(fm) && i < |segments| && Loadable(segments)
    requires LoadedUpTo(mem0, fm.mem, live0, fm.Live(), segments, ms.Snap(), i)
    modifies ms, ms.table, fm
    ensures ok ==> ms.Valid(fm) && LoadedUpTo(mem0, fm.mem, live0, fm.Live(), segments, ms.Snap(), i + 1)
    ensures ok ==> Flat(fm.mem, ms.table.nodes, TRAMPOLINE_VPN) ==
                   Flat(old(fm.mem), old(ms.table.nodes), TRAMPOLINE_VPN)
    ensures old(fm.Available()) >= 3 * (segments[i].end - segments[i].start) ==> ok
    ensures ok ==> fm.Available() >= old(fm.Available()) - 3 * (segments[i].end - segments[i].start)
  {
    hide TableOk, FramesMatch, Flat, LiveFrames, AllocatorOk, SpaceOk, MapsOnly, OthersUntouched, PartMapped, Holds,
         Owned, Preserved, OnlyCopies, AreasKept, ZeroFrame, Copyable, Apart;
    var s := segments[i];
    ghost var mem1, live1, c1 := fm.mem, fm.Live(), ms.Snap();
    NextFree(mem0, mem1, live0, live1, segments, c1, i);
    ok := ms.Push(fm, s.start, s.end, true, s.perm);
    if !ok { return; }
    ghost var mem2, live2, c2 := fm.mem, fm.Live(), ms.Snap();
    BuiltPush(mem0, mem1, mem2, live0, live1, live2, c1, c2, i);
    LoadsKept(mem1, mem2, segments, c1.areas, c2.areas, i);
    MappedHolds(mem1, c1.nodes, mem2, c2.nodes, s, c2.areas[i]);
    AreaReady(mem2, c2, c2.areas[i], fm);
    CopyData(fm, ms.table, s, c2.areas[i]);
    BuiltFill(mem0, mem2, fm.mem, live0, live2, c2, i);
    LoadsKept(mem2, fm.mem, segments, c2.areas, c2.areas, i);
    SpaceNodes(fm.mem, c2);
  }

  lemma AreaReady(mem: Memory, sp: Space, a: MapArea, fm: FrameMemory)
    requires fm.Valid() && SpaceOk(mem, sp) && a in sp.areas && a.framed && forall f | f in Owned(sp) :: f in fm.Live()
    ensures Copyable(mem, sp.frames, sp.nodes, a) && Apart(a, sp.frames)
  {
    hide TableOk, FramesMatch, AreaMapped, RangeOk, SpaceOk;
    AreaFacts(mem, sp, a, fm);
  }

  /** How many pages the segments have. */
  function PagesOf(segments: seq<Segment>): int {
    if segments == [] then 0
    else PagesOf(segments[..|segments| - 1]) + (segments[|segments| - 1].end - segments[|segments| - 1].start)
  }

  lemma PagesOfStep(segments: seq<Segment>, i: nat)
    requires i < |segments|
    ensures PagesOf(segments[..i + 1]) == PagesOf(segments[..i]) + (segments[i].end - segments[i].start)
  {
    assert segments[..i + 1][..i] == segments[..i];
  }

  lemma {:induction false} PagesOfMonotone(segments: seq<Segment>, i: nat)
    requires i <= |segments| && forall j | 0 <= j < |segments| :: segments[j].start <= segments[j].end
    ensures PagesOf(segments[..i]) <= PagesOf(segments) && PagesOf(segments[..0]) == 0
    decreases |segments|
  {
    if i < |segments| {
      var k := |segments| - 1;
      PagesOfMonotone(segments[..k], i);
      assert segments[..k][..i] == segments[..i];
    } else {
      assert segments[..i] == segments;
    }
  }

  lemma PagesNotNegative(segments: seq<Segment>)
    requires Loadable(segments)
    ensures PagesOf(segments) >= 0
  {
    PagesOfMonotone(segments, 0);
  }

  /** `from_elf` after the parser: every segment in place, in frames of the new space's own, the stack and the trap
      context zero, and nothing else but the trampoline mapped. Only running out of frames stops it. */
  method FromElf(fm: FrameMemory, loads: seq<Segment>, trampoline: nat) returns (r: Option<MemorySet>)
    requires fm.Valid() && trampoline < PPN_LIMIT && Loadable(Image(loads))
    modifies fm
    ensures r.Some? ==> fresh(r.value) && fresh(r.value.table) && r.value.Valid(fm)
    ensures r.Some? ==> LoadedUpTo(old(fm.mem), fm.mem, old(fm.Live()), fm.Live(), Image(loads), r.value.Snap(),
                                   |loads| + 2)
    ensures r.Some? ==> Flat(fm.mem, r.value.table.nodes, TRAMPOLINE_VPN) == Some(MakePte(trampoline, Or(R_X, V)))
    ensures r.Some? ==> UserView(fm.mem, r.value.table.root, loads, trampoline)
    ensures old(fm.Available()) >= 3 + 3 * PagesOf(Image(loads)) ==>
              r.Some? && fm.Available() >= old(fm.Available()) - 3 - 3 * PagesOf(Image(loads))
  {
    hide TableOk, FramesMatch, Flat, LiveFrames, AllocatorOk, SpaceOk, MapsOnly, Owned, Preserved, MakePte, Or,
         PagesOf, Image, Holds, UserView, TrampolineSeen;
    var segments := Image(loads);
    ghost var mem0, live0 := fm.mem, fm.Live();
    r := NewWithTrampoline(fm, trampoline);
    PagesOfMonotone(segments, 0);
    if r.None? { return; }
    var ms := r.value;
    var i := 0;
    while i < |segments|
      invariant i <= |segments| && ms.Valid(fm)
      invariant LoadedUpTo(mem0, fm.mem, live0, fm.Live(), segments, ms.Snap(), i)
      invariant Flat(fm.mem, ms.table.nodes, TRAMPOLINE_VPN) == Some(MakePte(trampoline, Or(R_X, V)))
      invariant old(fm.Available()) >= 3 + 3 * PagesOf(segments) ==>
                fm.Available() >= old(fm.Available()) - 3 - 3 * PagesOf(segments[..i])
    {
      PagesOfStep(segments, i);
      PagesOfMonotone(segments, i + 1);
      var ok := LoadSegment(fm, ms, segments, i, mem0, live0);
      if !ok { return None; }
      i := i + 1;
    }
    assert segments[..|segments|] == segments;
    TrampolineAccess(fm.mem, ms.table.nodes, trampoline);
    InRange(fm.start, fm.end, fm.current, fm.recycled);
    ViewOfImage(mem0, fm.mem, live0, fm.Live(), loads, ms.Snap(), trampoline);
  }
}
