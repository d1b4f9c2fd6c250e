/** Address spaces: a page table and the areas mapped in it (os/src/memory/memory_set.rs). */
module MemorySets {
  import opened Bits
  import opened Options
  import opened Frames
  import opened Hardware
  import opened PageTables

  /** The last page of the address space, where every space maps the trampoline. */
  const TRAMPOLINE_VPN: nat := 0x7FF_FFFF

  /** A range of pages; a framed one owns a frame for each, an identical one maps each page to itself. */
  datatype MapArea = MapArea(start: nat, end: nat, dataFrames: map<nat, nat>, framed: bool, perm: nat) {

    ghost predicate Contains(vpn: nat) {
      start <= vpn < end
    }

    ghost function PpnOf(vpn: nat): nat {
      if framed && vpn in dataFrames then dataFrames[vpn] else vpn
    }
  }

  ghost predicate RangeOk(a: MapArea) {
    && a.start <= a.end <= VPN_LIMIT && a.perm < 256
    && (a.framed ==> forall v :: v in a.dataFrames <==> a.Contains(v))
    && (!a.framed ==> a.dataFrames == map[])
    && (forall v, w | v in a.dataFrames && w in a.dataFrames && a.dataFrames[v] == a.dataFrames[w] :: v == w)
  }

  /** Every page of the area is mapped to its frame with the area's permission. */
  ghost predicate AreaMapped(mem: Memory, nodes: Nodes, a: MapArea) {
    forall v: nat | a.Contains(v) :: Flat(mem, nodes, v) == Some(MakePte(a.PpnOf(v), Or(a.perm, V)))
  }

  /** The table's frames grew from `frames0` and the data frames of `data` were taken; the live frames grew by
      just those. */
  ghost predicate Taken(frames0: seq<nat>, frames: seq<nat>, data: map<nat, nat>, live0: set<nat>, live: set<nat>) {
    && frames0 <= frames
    && (forall i | |frames0| <= i < |frames| :: frames[i] !in live0)
    && (forall v | v in data :: data[v] !in live0 && data[v] !in frames)
    && (forall v, w | v in data && w in data && data[v] == data[w] :: v == w)
    && (forall p :: p in live <==> p in live0 || p in frames[|frames0|..] || p in data.Values)
  }

  /** Part of the way through mapping an area: the pages below `next` are mapped, to zeroed frames. */
  ghost predicate PartMapped(mem0: Memory, nodes0: Nodes, mem: Memory, nodes: Nodes, a: MapArea, next: nat) {
    && (a.framed ==> forall v :: v in a.dataFrames <==> a.start <= v < next)
    && (!a.framed ==> a.dataFrames == map[])
    && (forall v: nat | a.start <= v < next :: Flat(mem, nodes, v) == Some(MakePte(a.PpnOf(v), Or(a.perm, V))))
    && (forall v: nat | v < VPN_LIMIT && !(a.start <= v < next) :: Flat(mem, nodes, v) == Flat(mem0, nodes0, v))
    && (forall v | v in a.dataFrames :: a.dataFrames[v] in mem && mem[a.dataFrames[v]] == ZeroFrame())
  }

  lemma TakenMore(frames0: seq<nat>, frames: seq<nat>, frames': seq<nat>, data: map<nat, nat>, v: nat, f: nat,
                  live0: set<nat>, live: set<nat>, live': set<nat>)
    requires Taken(frames0, frames, data, live0, live) && v !in data && f !in live && f !in frames
    requires Grown(frames, frames', live + {f}, live') && forall i | 0 <= i < |frames| :: frames[i] in live
    ensures Taken(frames0, frames', data[v := f], live0, live')
  {
    assert frames'[|frames0|..] == frames[|frames0|..] + frames'[|frames|..];
    forall w | w in data ensures data[w] !in frames' {
      assert data[w] in data.Values;
      assert data[w] in live;
    }
    assert f !in frames';
    assert data[v := f].Values == data.Values + {f} by {
      forall p | p in data.Values ensures p in data[v := f].Values {
        var w :| w in data && data[w] == p;
        assert data[v := f][w] == p;
      }
      assert data[v := f][v] == f;
    }
  }

  lemma TakenNodes(frames0: seq<nat>, frames: seq<nat>, frames': seq<nat>, data: map<nat, nat>, live0: set<nat>,
                   live: set<nat>, live': set<nat>)
    requires Taken(frames0, frames, data, live0, live)
    requires Grown(frames, frames', live, live') && forall i | 0 <= i < |frames| :: frames[i] in live
    ensures Taken(frames0, frames', data, live0, live')
  {
    assert frames'[|frames0|..] == frames[|frames0|..] + frames'[|frames|..];
    forall w | w in data ensures data[w] !in frames' {
      assert data[w] in data.Values;
      assert data[w] in live;
    }
  }

  ghost predicate AllLive(frames: seq<nat>, live: set<nat>) {
    forall i | 0 <= i < |frames| :: frames[i] in live
  }

  /** `map_one`: a zeroed frame of its own for a framed page, the page itself for an identical one. */
  method MapOne(fm: FrameMemory, table: PageTable, framed: bool, perm: nat, vpn: nat) returns (ok: bool, ppn: nat)
    requires fm.Valid() && table.Valid(fm.mem) && AllLive(table.frames, fm.Live())
    requires vpn < VPN_LIMIT && perm < 256 && Flat(fm.mem, table.nodes, vpn).None?
    modifies table`frames, table`nodes, fm
    ensures fm.Valid() && table.Valid(fm.mem) && fm.mem.Keys == old(fm.mem.Keys)
    ensures forall v: nat | v < VPN_LIMIT && v != vpn ::
            Flat(fm.mem, table.nodes, v) == Flat(old(fm.mem), old(table.nodes), v)
    ensures OthersUntouched(old(fm.mem), fm.mem, old(fm.Live()), old(table.frames))
    ensures ok ==> Flat(fm.mem, table.nodes, vpn) == Some(MakePte(ppn, Or(perm, V)))
    ensures ok && framed ==> ppn !in old(fm.Live()) && ppn !in old(table.frames) && ppn in fm.mem
                             && fm.mem[ppn] == ZeroFrame()
    ensures ok && framed ==> Grown(old(table.frames), table.frames, old(fm.Live()) + {ppn}, fm.Live())
    ensures ok && !framed ==> ppn == vpn && Grown(old(table.frames), table.frames, old(fm.Live()), fm.Live())
    ensures old(fm.Available()) >= 3 ==> ok
    ensures ok ==> fm.Available() >= old(fm.Available()) - 3
  {
    hide TableOk, FramesMatch, LiveFrames, AllocatorOk, Flat, MakePte, Or, ZeroFrame;
    ghost var mem0, live0, frames0 := fm.mem, fm.Live(), table.frames;
    if framed {
      var frame := fm.Alloc();
      if frame.None? { return false, 0; }
      ppn := frame.value;
      ghost var mem1 := fm.mem;
      InRange(fm.start, fm.end, fm.current, fm.recycled);
      NodesLive(mem0, table.frames, table.nodes, live0);
      TableFrame(mem0, mem1, table.nodes);
      ok := table.Map(fm, vpn, ppn, perm);
      UntouchedAfterAlloc(mem0, mem1, fm.mem, live0, frames0, ppn);
    } else {
      ppn := vpn;
      ok := table.Map(fm, vpn, ppn, perm);
    }
  }

  lemma UntouchedAfterAlloc(m0: Memory, m1: Memory, m2: Memory, live: set<nat>, frames: seq<nat>, f: nat)
    requires m1 == m0[f := ZeroFrame()] && f !in live && AllLive(frames, live)
             && OthersUntouched(m1, m2, live + {f}, frames)
    ensures OthersUntouched(m0, m2, live, frames) && f in m2 && m2[f] == ZeroFrame()
  {
  }

  /** `MapArea::map`: the whole range, page by page. */
  method MapPages(fm: FrameMemory, table: PageTable, start: nat, end: nat, framed: bool, perm: nat)
    returns (ok: bool, a: MapArea)
    requires fm.Valid() && table.Valid(fm.mem) && AllLive(table.frames, fm.Live())
    requires start <= end <= VPN_LIMIT && perm < 256
    requires forall v: nat | start <= v < end :: Flat(fm.mem, table.nodes, v).None?
    modifies table`frames, table`nodes, fm
    ensures fm.Valid() && table.Valid(fm.mem) && fm.mem.Keys == old(fm.mem.Keys)
    ensures OthersUntouched(old(fm.mem), fm.mem, old(fm.Live()), old(table.frames))
    ensures ok ==> a.start == start && a.end == end && a.framed == framed && a.perm == perm
    ensures ok ==> PartMapped(old(fm.mem), old(table.nodes), fm.mem, table.nodes, a, end)
    ensures ok ==> Taken(old(table.frames), table.frames, a.dataFrames, old(fm.Live()), fm.Live())
                   && AllLive(table.frames, fm.Live())
    ensures old(fm.Available()) >= 3 * (end - start) ==> ok
    ensures ok ==> fm.Available() >= old(fm.Available()) - 3 * (end - start)
  {
    hide TableOk, FramesMatch, LiveFrames, AllocatorOk, Flat, MakePte, Or, ZeroFrame, Taken, PartMapped,
         OthersUntouched, Grown;
    ghost var mem0, live0, frames0, nodes0 := fm.mem, fm.Live(), table.frames, table.nodes;
    a := MapArea(start, end, map[], framed, perm);
    StartMapping(mem0, nodes0, frames0, live0, a);
    var vpn := start;
    while vpn < end
      invariant start <= vpn <= end && a.start == start && a.end == end && a.framed == framed && a.perm == perm
      invariant fm.Valid() && table.Valid(fm.mem) && fm.mem.Keys == mem0.Keys
      invariant PartMapped(mem0, nodes0, fm.mem, table.nodes, a, vpn)
      invariant Taken(frames0, table.frames, a.dataFrames, live0, fm.Live()) && AllLive(table.frames, fm.Live())
      invariant OthersUntouched(mem0, fm.mem, live0, frames0)
      invariant fm.Available() >= old(fm.Available()) - 3 * (vpn - start)
    {
      ghost var mem1, live1, frames1, nodes1 := fm.mem, fm.Live(), table.frames, table.nodes;
      StillUnmapped(mem0, nodes0, mem1, nodes1, a, vpn);
      var ppn;
      ok, ppn := MapOne(fm, table, framed, perm, vpn);
      UntouchedFurther(mem0, mem1, fm.mem, live0, live1, frames0, frames1, a.dataFrames);
      if !ok { return false, a; }
      ghost var a0 := a;
      if framed {
        TakenMore(frames0, frames1, table.frames, a.dataFrames, vpn, ppn, live0, live1, fm.Live());
        a := a.(dataFrames := a.dataFrames[vpn := ppn]);
      } else {
        TakenNodes(frames0, frames1, table.frames, a.dataFrames, live0, live1, fm.Live());
      }
      OneMoreMapped(mem0, nodes0, mem1, nodes1, fm.mem, table.nodes, a0, a, vpn, ppn, live0, live1, frames0, frames1);
      LiveAfter(frames0, table.frames, a.dataFrames, live0, fm.Live());
      vpn := vpn + 1;
    }
    return true, a;
  }

  lemma StartMapping(mem: Memory, nodes: Nodes, frames: seq<nat>, live: set<nat>, a: MapArea)
    requires a.dataFrames == map[]
    ensures PartMapped(mem, nodes, mem, nodes, a, a.start) && Taken(frames, frames, map[], live, live)
    ensures OthersUntouched(mem, mem, live, frames)
  {
    hide Flat;
  }

  lemma StillUnmapped(mem0: Memory, nodes0: Nodes, mem: Memory, nodes: Nodes, a: MapArea, vpn: nat)
    requires PartMapped(mem0, nodes0, mem, nodes, a, vpn) && vpn < VPN_LIMIT && Flat(mem0, nodes0, vpn).None?
    ensures Flat(mem, nodes, vpn).None? && vpn !in a.dataFrames
  {
    hide Flat, ZeroFrame;
  }

  lemma UntouchedFurther(m0: Memory, m1: Memory, m2: Memory, live0: set<nat>, live1: set<nat>, frames0: seq<nat>,
                         frames1: seq<nat>, data: map<nat, nat>)
    requires OthersUntouched(m0, m1, live0, frames0) && OthersUntouched(m1, m2, live1, frames1)
    requires Taken(frames0, frames1, data, live0, live1)
    ensures OthersUntouched(m0, m2, live0, frames0)
  {
  }

  lemma OneMoreMapped(mem0: Memory, nodes0: Nodes, mem1: Memory, nodes1: Nodes, mem2: Memory, nodes2: Nodes,
                      a: MapArea, a': MapArea,
                      vpn: nat, ppn: nat, live0: set<nat>, live1: set<nat>, frames0: seq<nat>, frames1: seq<nat>)
    requires PartMapped(mem0, nodes0, mem1, nodes1, a, vpn) && a.start <= vpn < VPN_LIMIT && vpn !in a.dataFrames
    requires Taken(frames0, frames1, a.dataFrames, live0, live1) && OthersUntouched(mem1, mem2, live1, frames1)
    requires forall v: nat | v < VPN_LIMIT && v != vpn :: Flat(mem2, nodes2, v) == Flat(mem1, nodes1, v)
    requires Flat(mem2, nodes2, vpn) == Some(MakePte(ppn, Or(a.perm, V)))
    requires a.framed ==> a' == a.(dataFrames := a.dataFrames[vpn := ppn]) && ppn in mem2 && mem2[ppn] == ZeroFrame()
    requires !a.framed ==> a' == a && ppn == vpn
    ensures PartMapped(mem0, nodes0, mem2, nodes2, a', vpn + 1)
  {
    hide Flat, ZeroFrame, MakePte, Or;
    forall v | v in a.dataFrames ensures a.dataFrames[v] in mem2 && mem2[a.dataFrames[v]] == ZeroFrame() {
      assert a.dataFrames[v] in a.dataFrames.Values;
      assert a.dataFrames[v] in live1;
    }
  }

  lemma LiveAfter(frames0: seq<nat>, frames: seq<nat>, data: map<nat, nat>, live0: set<nat>, live: set<nat>)
    requires Taken(frames0, frames, data, live0, live) && AllLive(frames0, live0)
    ensures AllLive(frames, live)
  {
    forall i | 0 <= i < |frames| ensures frames[i] in live {
      if i >= |frames0| { assert frames[|frames0|..][i - |frames0|] == frames[i]; }
    }
  }

  // ---------------------------------------------------------------- whole spaces

  /** What an address space consists of: its table's frames and nodes, and its areas. */
  datatype Space = Space(frames: seq<nat>, nodes: Nodes, areas: seq<MapArea>)

  ghost predicate Disjoint(areas: seq<MapArea>) {
    forall i, j, v: nat | 0 <= i < |areas| && 0 <= j < |areas| && areas[i].Contains(v) && areas[j].Contains(v) :: i == j
  }

  /** No frame is owned twice: data frames are distinct and none holds a table node. */
  ghost predicate DataOk(mem: Memory, frames: seq<nat>, areas: seq<MapArea>) {
    && (forall i, v | 0 <= i < |areas| && v in areas[i].dataFrames ::
        areas[i].dataFrames[v] in mem && areas[i].dataFrames[v] !in frames)
    && (forall i, v, j, w | 0 <= i < |areas| && v in areas[i].dataFrames && 0 <= j < |areas| && w in areas[j].dataFrames
                            && areas[i].dataFrames[v] == areas[j].dataFrames[w] :: i == j && v == w)
  }

  ghost predicate SpaceOk(mem: Memory, sp: Space) {
    && TableOk(mem, sp.nodes) && FramesMatch(sp.frames, sp.nodes)
    && (forall i | 0 <= i < |sp.areas| :: RangeOk(sp.areas[i]) && AreaMapped(mem, sp.nodes, sp.areas[i]))
    && Disjoint(sp.areas)
    && DataOk(mem, sp.frames, sp.areas)
  }

  /** On hardware that sets A and D itself, a page of an area is accessed as the area's permission says. */
  lemma AreaAccess(mem: Memory, sp: Space, i: nat, v: nat, access: Access, mode: Mode)
    requires SpaceOk(mem, sp) && i < |sp.areas| && sp.areas[i].Contains(v) && sp.areas[i].PpnOf(v) < PPN_LIMIT
    requires sp.areas[i].perm < 32 && sp.areas[i].perm % 2 == 0
    ensures var perm := sp.areas[i].perm;
            HardwareAccess(mem, sp.nodes[Root], v, access, mode, true) ==
            if (IsW(perm) ==> IsR(perm)) && Permitted(perm, access, mode) then Some(sp.areas[i].PpnOf(v)) else None
  {
    hide TableOk, FramesMatch, Disjoint, DataOk, Flat, HardwareAccess, Permitted, IsW, IsR, MakePte, Or;
    assert AreaMapped(mem, sp.nodes, sp.areas[i]);
    assert Flat(mem, sp.nodes, v) == Some(MakePte(sp.areas[i].PpnOf(v), Or(sp.areas[i].perm, V)));
    KernelPages(mem, sp.nodes, v, sp.areas[i].PpnOf(v), sp.areas[i].perm, access, mode, true);
  }

  ghost function DataFrames(areas: seq<MapArea>): (s: set<nat>)
    ensures forall p :: p in s <==> exists i, v :: 0 <= i < |areas| && v in areas[i].dataFrames
                                                   && areas[i].dataFrames[v] == p
  {
    set i, v | 0 <= i < |areas| && v in areas[i].dataFrames :: areas[i].dataFrames[v]
  }

  /** Every frame a space owns. */
  ghost function Owned(sp: Space): (s: set<nat>)
    ensures forall p :: p in s <==> p in sp.frames || p in DataFrames(sp.areas)
  {
    (set p | p in sp.frames) + DataFrames(sp.areas)
  }

  /** A space depends on the contents of its table frames, and on nothing else of its frames but that they exist. */
  lemma SpaceFrame(mem: Memory, mem': Memory, sp: Space)
    requires SpaceOk(mem, sp) && (forall p | p in sp.frames :: p in mem' && p in mem && mem'[p] == mem[p])
             && mem.Keys <= mem'.Keys
    ensures SpaceOk(mem', sp) && forall vpn: nat :: Flat(mem', sp.nodes, vpn) == Flat(mem, sp.nodes, vpn)
  {
    hide TableOk, Flat, MakePte, Or;
    NodesOwned(mem, sp);
    TableFrame(mem, mem', sp.nodes);
  }

  lemma NodesOwned(mem: Memory, sp: Space)
    requires TableOk(mem, sp.nodes) && FramesMatch(sp.frames, sp.nodes)
    ensures forall p | p in sp.nodes :: sp.nodes[p] in sp.frames && sp.nodes[p] in mem
    ensures forall f | f in sp.frames :: f in mem
  {
    forall f | f in sp.frames ensures f in mem {
      var i :| 0 <= i < |sp.frames| && sp.frames[i] == f;
      var p := NodeOf(sp.frames, sp.nodes, i);
    }
  }

  /** One more area, freshly mapped. */
  lemma PushKeeps(mem0: Memory, mem: Memory, sp: Space, frames: seq<nat>, nodes: Nodes, a: MapArea, live0: set<nat>,
                  live: set<nat>)
    requires SpaceOk(mem0, sp) && (forall p | p in Owned(sp) :: p in live0) && mem.Keys == mem0.Keys
    requires TableOk(mem, nodes) && FramesMatch(frames, nodes)
    requires a.start <= a.end <= VPN_LIMIT && a.perm < 256
             && (forall v: nat | a.Contains(v) :: Flat(mem0, sp.nodes, v).None?)
    requires PartMapped(mem0, sp.nodes, mem, nodes, a, a.end) && Taken(sp.frames, frames, a.dataFrames, live0, live)
    ensures SpaceOk(mem, Space(frames, nodes, sp.areas + [a]))
    ensures Owned(Space(frames, nodes, sp.areas + [a])) == Owned(sp) + (live - live0)
  {
    hide TableOk, FramesMatch, Flat, MakePte, Or, ZeroFrame;
    var areas := sp.areas + [a];
    PushKeepsAreas(mem0, mem, sp, nodes, a);
    PushKeepsData(mem0, mem, sp, frames, a, live0, live);
    PushOwns(sp, frames, nodes, a, live0, live);
  }

  lemma PushKeepsAreas(mem0: Memory, mem: Memory, sp: Space, nodes: Nodes, a: MapArea)
    requires SpaceOk(mem0, sp)
    requires a.start <= a.end <= VPN_LIMIT && a.perm < 256
             && (forall v: nat | a.Contains(v) :: Flat(mem0, sp.nodes, v).None?)
    requires PartMapped(mem0, sp.nodes, mem, nodes, a, a.end)
    requires forall v, w | v in a.dataFrames && w in a.dataFrames && a.dataFrames[v] == a.dataFrames[w] :: v == w
    ensures Disjoint(sp.areas + [a])
    ensures forall i | 0 <= i < |sp.areas| + 1 :: RangeOk((sp.areas + [a])[i])
                                                  && AreaMapped(mem, nodes, (sp.areas + [a])[i])
  {
    hide TableOk, FramesMatch, Flat, MakePte, Or, ZeroFrame, DataOk;
    var areas := sp.areas + [a];
    forall i, v: nat | 0 <= i < |sp.areas| && sp.areas[i].Contains(v) ensures !a.Contains(v) {
      assert RangeOk(sp.areas[i]) && AreaMapped(mem0, sp.nodes, sp.areas[i]);
    }
    forall i | 0 <= i < |areas| ensures RangeOk(areas[i]) && AreaMapped(mem, nodes, areas[i]) {
      if i < |sp.areas| { assert RangeOk(sp.areas[i]) && AreaMapped(mem0, sp.nodes, sp.areas[i]); }
    }
  }

  lemma PushKeepsData(mem0: Memory, mem: Memory, sp: Space, frames: seq<nat>, a: MapArea, live0: set<nat>,
                      live: set<nat>)
    requires DataOk(mem0, sp.frames, sp.areas) && (forall p | p in Owned(sp) :: p in live0) && mem.Keys == mem0.Keys
    requires Taken(sp.frames, frames, a.dataFrames, live0, live)
             && forall v | v in a.dataFrames :: a.dataFrames[v] in mem
    ensures DataOk(mem, frames, sp.areas + [a])
  {
    var areas := sp.areas + [a];
    forall i, v | 0 <= i < |sp.areas| && v in sp.areas[i].dataFrames
      ensures sp.areas[i].dataFrames[v] in live0 && sp.areas[i].dataFrames[v] !in frames
    {
      assert sp.areas[i].dataFrames[v] in DataFrames(sp.areas);
      assert sp.areas[i].dataFrames[v] in Owned(sp);
    }
  }

  lemma PushOwns(sp: Space, frames: seq<nat>, nodes: Nodes, a: MapArea, live0: set<nat>, live: set<nat>)
    requires Taken(sp.frames, frames, a.dataFrames, live0, live) && forall p | p in Owned(sp) :: p in live0
    ensures Owned(Space(frames, nodes, sp.areas + [a])) == Owned(sp) + (live - live0)
  {
    var areas := sp.areas + [a];
    assert frames == sp.frames + frames[|sp.frames|..];
    forall p | p in DataFrames(areas) ensures p in DataFrames(sp.areas) || p in a.dataFrames.Values {
      var i, v :| 0 <= i < |areas| && v in areas[i].dataFrames && areas[i].dataFrames[v] == p;
      if i < |sp.areas| { assert sp.areas[i].dataFrames[v] == p; }
    }
    forall p | p in DataFrames(sp.areas) ensures p in DataFrames(areas) {
      var i, v :| 0 <= i < |sp.areas| && v in sp.areas[i].dataFrames && sp.areas[i].dataFrames[v] == p;
      assert areas[i].dataFrames[v] == p;
    }
    forall p | p in a.dataFrames.Values ensures p in DataFrames(areas) && p !in live0 {
      var v :| v in a.dataFrames && a.dataFrames[v] == p;
      assert areas[|sp.areas|].dataFrames[v] == p;
    }
  }

  // ---------------------------------------------------------------- removal

  ghost function FramesBelow(a: MapArea, next: nat): (s: set<nat>)
    ensures forall p :: p in s <==> exists v :: v in a.dataFrames && v < next && a.dataFrames[v] == p
  {
    set v | v in a.dataFrames && v < next :: a.dataFrames[v]
  }

  /** Part of the way through unmapping an area: its pages below `next` are gone and their frames returned. */
  ghost predicate PartUnmapped(mem0: Memory, mem: Memory, nodes: Nodes, a: MapArea, next: nat) {
    forall v: nat | v < VPN_LIMIT :: Flat(mem, nodes, v) == if a.start <= v < next then None else Flat(mem0, nodes, v)
  }

  lemma FreeNext(a: MapArea, next: nat, live0: set<nat>, live: set<nat>, live': set<nat>)
    requires RangeOk(a) && a.framed && a.Contains(next) && live == live0 - FramesBelow(a, next)
    requires live' == live - {a.dataFrames[next]}
    ensures live' == live0 - FramesBelow(a, next + 1)
  {
    assert FramesBelow(a, next + 1) == FramesBelow(a, next) + {a.dataFrames[next]};
  }

  lemma NotYetFreed(a: MapArea, next: nat)
    requires RangeOk(a) && a.framed && a.Contains(next)
    ensures next in a.dataFrames && a.dataFrames[next] !in FramesBelow(a, next)
  {
  }

  /** `MapArea::unmap`: each page's frame is returned, then its entry cleared. */
  method UnmapPages(fm: FrameMemory, table: PageTable, a: MapArea)
    requires fm.Valid() && table.Valid(fm.mem) && RangeOk(a) && AreaMapped(fm.mem, table.nodes, a)
    requires forall v | v in a.dataFrames :: a.dataFrames[v] in fm.Live()
    modifies fm
    ensures fm.Valid() && table.Valid(fm.mem) && fm.mem.Keys == old(fm.mem.Keys)
    ensures forall p | p in fm.mem && p !in table.frames :: fm.mem[p] == old(fm.mem)[p]
    ensures PartUnmapped(old(fm.mem), fm.mem, table.nodes, a, a.end)
    ensures fm.Live() == old(fm.Live()) - FramesBelow(a, a.end)
  {
    hide TableOk, FramesMatch, LiveFrames, AllocatorOk, Flat, MakePte, Or;
    ghost var mem0, live0 := fm.mem, fm.Live();
    NothingFreed(a);
    var vpn := a.start;
    while vpn < a.end
      invariant a.start <= vpn <= a.end && fm.Valid() && table.Valid(fm.mem) && fm.mem.Keys == mem0.Keys
      invariant forall p | p in fm.mem && p !in table.frames :: fm.mem[p] == mem0[p]
      invariant PartUnmapped(mem0, fm.mem, table.nodes, a, vpn)
      invariant fm.Live() == live0 - FramesBelow(a, vpn)
    {
      if a.framed {
        NotYetFreed(a, vpn);
        ghost var live1 := fm.Live();
        fm.Dealloc(a.dataFrames[vpn]);
        FreeNext(a, vpn, live0, live1, fm.Live());
      } else {
        NothingOwned(a, vpn + 1);
        NothingOwned(a, vpn);
      }
      table.Unmap(fm, vpn);
      vpn := vpn + 1;
    }
  }

  lemma NothingFreed(a: MapArea)
    requires RangeOk(a)
    ensures FramesBelow(a, a.start) == {}
  {
  }

  lemma NothingOwned(a: MapArea, next: nat)
    requires RangeOk(a) && !a.framed
    ensures FramesBelow(a, next) == {}
  {
  }

  lemma RemoveKeeps(mem0: Memory, mem: Memory, sp: Space, k: nat)
    requires SpaceOk(mem0, sp) && k < |sp.areas| && mem.Keys == mem0.Keys && TableOk(mem, sp.nodes)
    requires PartUnmapped(mem0, mem, sp.nodes, sp.areas[k], sp.areas[k].end)
    ensures SpaceOk(mem, Space(sp.frames, sp.nodes, sp.areas[..k] + sp.areas[k + 1..]))
    ensures Owned(Space(sp.frames, sp.nodes, sp.areas[..k] + sp.areas[k + 1..])) ==
            Owned(sp) - FramesBelow(sp.areas[k], sp.areas[k].end)
  {
    hide TableOk, FramesMatch, Flat, MakePte, Or;
    RemoveKeepsAreas(mem0, mem, sp, k);
    RemoveOwns(mem0, sp, k);
  }

  lemma RemoveKeepsAreas(mem0: Memory, mem: Memory, sp: Space, k: nat)
    requires SpaceOk(mem0, sp) && k < |sp.areas| && mem.Keys == mem0.Keys
    requires PartUnmapped(mem0, mem, sp.nodes, sp.areas[k], sp.areas[k].end)
    ensures var rest := sp.areas[..k] + sp.areas[k + 1..];
            && (forall i | 0 <= i < |rest| :: RangeOk(rest[i]) && AreaMapped(mem, sp.nodes, rest[i]))
            && Disjoint(rest) && DataOk(mem, sp.frames, rest)
  {
    hide TableOk, FramesMatch, Flat, MakePte, Or;
    var rest := sp.areas[..k] + sp.areas[k + 1..];
    assert forall i | 0 <= i < |rest| :: rest[i] == sp.areas[if i < k then i else i + 1];
    forall i | 0 <= i < |rest| ensures RangeOk(rest[i]) && AreaMapped(mem, sp.nodes, rest[i]) {
      var j := if i < k then i else i + 1;
      assert RangeOk(sp.areas[j]) && AreaMapped(mem0, sp.nodes, sp.areas[j]);
      forall v: nat | rest[i].Contains(v) ensures !sp.areas[k].Contains(v) { assert sp.areas[j].Contains(v); }
    }
  }

  lemma RemoveOwns(mem: Memory, sp: Space, k: nat)
    requires SpaceOk(mem, sp) && k < |sp.areas|
    ensures Owned(Space(sp.frames, sp.nodes, sp.areas[..k] + sp.areas[k + 1..])) ==
            Owned(sp) - FramesBelow(sp.areas[k], sp.areas[k].end)
  {
    hide SpaceOk, DataFrames, FramesBelow;
    var rest, a := sp.areas[..k] + sp.areas[k + 1..], sp.areas[k];
    RestKept(mem, sp, k);
    RestComplete(mem, sp, k);
    RemovedApart(mem, sp, k);
  }

  lemma RestKept(mem: Memory, sp: Space, k: nat)
    requires SpaceOk(mem, sp) && k < |sp.areas|
    ensures var rest := sp.areas[..k] + sp.areas[k + 1..];
            forall p | p in DataFrames(rest) :: p in DataFrames(sp.areas)
                                                && p !in FramesBelow(sp.areas[k], sp.areas[k].end)
  {
    hide SpaceOk, DataFrames, FramesBelow;
    var rest, a := sp.areas[..k] + sp.areas[k + 1..], sp.areas[k];
    forall p | p in DataFrames(rest) ensures p in DataFrames(sp.areas) && p !in FramesBelow(a, a.end) {
      var i, v :| 0 <= i < |rest| && v in rest[i].dataFrames && rest[i].dataFrames[v] == p;
      var j := if i < k then i else i + 1;
      assert sp.areas[j].dataFrames[v] == p;
      OwnFrame(mem, sp, j, v, k);
    }
  }

  /** A frame of one area is no frame of another. */
  lemma OwnFrame(mem: Memory, sp: Space, i: nat, v: nat, j: nat)
    requires SpaceOk(mem, sp) && i < |sp.areas| && j < |sp.areas| && i != j && v in sp.areas[i].dataFrames
    ensures forall w | w in sp.areas[j].dataFrames :: sp.areas[j].dataFrames[w] != sp.areas[i].dataFrames[v]
  {
    hide TableOk, FramesMatch, AreaMapped, Disjoint, RangeOk;
  }

  lemma RestComplete(mem: Memory, sp: Space, k: nat)
    requires SpaceOk(mem, sp) && k < |sp.areas|
    ensures var rest := sp.areas[..k] + sp.areas[k + 1..];
            forall p | p in DataFrames(sp.areas) && p !in FramesBelow(sp.areas[k], sp.areas[k].end) ::
                p in DataFrames(rest)
  {
    hide TableOk, FramesMatch, AreaMapped, Disjoint, DataOk;
    var rest, a := sp.areas[..k] + sp.areas[k + 1..], sp.areas[k];
    assert RangeOk(a);
    forall p | p in DataFrames(sp.areas) && p !in FramesBelow(a, a.end) ensures p in DataFrames(rest) {
      var i, v :| 0 <= i < |sp.areas| && v in sp.areas[i].dataFrames && sp.areas[i].dataFrames[v] == p;
      assert rest[if i < k then i else i - 1] == sp.areas[i];
    }
  }

  lemma RemovedApart(mem: Memory, sp: Space, k: nat)
    requires SpaceOk(mem, sp) && k < |sp.areas|
    ensures forall p | p in FramesBelow(sp.areas[k], sp.areas[k].end) :: p !in sp.frames
  {
    hide TableOk, FramesMatch, AreaMapped, Disjoint;
    var a := sp.areas[k];
    forall p | p in FramesBelow(a, a.end) ensures p !in sp.frames {
      var v :| v in a.dataFrames && v < a.end && a.dataFrames[v] == p;
    }
  }

  /** One space took frames, all of them free before; no other live frame was written. */
  ghost predicate Extended(mem: Memory, mem': Memory, live: set<nat>, live': set<nat>, sp: Space, sp': Space) {
    && mem'.Keys == mem.Keys && live <= live' && OthersUntouched(mem, mem', live, sp.frames)
    && Owned(sp') == Owned(sp) + (live' - live)
  }

  /** One space gave frames back; nothing but its table was written. */
  ghost predicate Shrunk(mem: Memory, mem': Memory, live: set<nat>, live': set<nat>, sp: Space, sp': Space) {
    && mem'.Keys == mem.Keys && (forall p | p in mem' && p !in sp.frames :: mem'[p] == mem[p])
    && Owned(sp') <= Owned(sp) && live' == live - (Owned(sp) - Owned(sp')) && sp'.nodes == sp.nodes
  }

  // ---------------------------------------------------------------- the address space as an object

  class MemorySet {
    const table: PageTable
    var areas: seq<MapArea>

    ghost function Snap(): Space
      reads this, table
    {
      Space(table.frames, table.nodes, areas)
    }

    /** The space is well formed and every frame it owns is live. */
    ghost predicate Valid(fm: FrameMemory)
      reads this, table, fm
    {
      && fm.Valid() && table.Valid(fm.mem) && SpaceOk(fm.mem, Snap())
      && forall p | p in Owned(Snap()) :: p in fm.Live()
    }

    /** `new_bare`, around a root frame just allocated. */
    constructor (fm: FrameMemory, root: nat)
      requires fm.Valid() && root in fm.Live() && root < PPN_LIMIT && root in fm.mem && fm.mem[root] == ZeroFrame()
      ensures Valid(fm) && fresh(table) && areas == [] && Owned(Snap()) == {root}
      ensures forall vpn: nat :: Flat(fm.mem, table.nodes, vpn).None?
    {
      table := new PageTable(root, fm.mem);
      areas := [];
      new;
      hide TableOk, FramesMatch, Flat, LiveFrames, AllocatorOk;
      assert DataFrames([]) == {};
    }

    /** `insert_framed_area` and every other `push` without data: the source asserts that no page of the range is
        mapped. */
    method Push(fm: FrameMemory, start: nat, end: nat, framed: bool, perm: nat) returns (ok: bool)
      requires Valid(fm) && start <= end <= VPN_LIMIT && perm < 256
      requires forall v: nat | start <= v < end :: Flat(fm.mem, table.nodes, v).None?
      modifies this, table, fm
      ensures fm.Valid() && fm.mem.Keys == old(fm.mem.Keys)
      ensures OthersUntouched(old(fm.mem), fm.mem, old(fm.Live()), old(table.frames))
      ensures ok ==> Valid(fm) && Owned(Snap()) == old(Owned(Snap())) + (fm.Live() - old(fm.Live()))
                     && old(fm.Live()) <= fm.Live()
      ensures ok ==> |areas| == |old(areas)| + 1 && areas[..|old(areas)|] == old(areas)
      ensures ok ==> var a := areas[|old(areas)|];
                     && a.start == start && a.end == end && a.framed == framed && a.perm == perm
                     && PartMapped(old(fm.mem), old(table.nodes), fm.mem, table.nodes, a, end)
                     && forall v | v in a.dataFrames :: a.dataFrames[v] !in old(fm.Live())
      ensures old(fm.Available()) >= 3 * (end - start) ==> ok
      ensures ok ==> fm.Available() >= old(fm.Available()) - 3 * (end - start)
    {
      hide TableOk, FramesMatch, Flat, LiveFrames, AllocatorOk, OthersUntouched, PartMapped, SpaceOk;
      ghost var mem0, live0, sp := fm.mem, fm.Live(), Snap();
      var a;
      ok, a := MapPages(fm, table, start, end, framed, perm);
      if !ok { return; }
      PushKeeps(mem0, fm.mem, sp, table.frames, table.nodes, a, live0, fm.Live());
      areas := areas + [a];
      assert Snap() == Space(table.frames, table.nodes, sp.areas + [a]);
    }

    /** `remove_area_with_start_vpn`: exactly the pages of the first such area are unmapped, and exactly its frames
        returned; without one, nothing happens. */
    method RemoveAreaWithStartVpn(fm: FrameMemory, startVpn: nat) returns (ghost removed: Option<MapArea>)
      requires Valid(fm)
      modifies this`areas, fm
      ensures Valid(fm) && fm.mem.Keys == old(fm.mem.Keys)
              && forall p | p in fm.mem && p !in table.frames :: fm.mem[p] == old(fm.mem)[p]
      ensures removed.None? <==> forall i | 0 <= i < |old(areas)| :: old(areas)[i].start != startVpn
      ensures removed.None? ==> areas == old(areas) && fm.mem == old(fm.mem) && fm.Live() == old(fm.Live())
      ensures removed.Some? ==> removed.value in old(areas) && removed.value.start == startVpn
                                && PartUnmapped(old(fm.mem), fm.mem, table.nodes, removed.value, removed.value.end)
                                && fm.Live() == old(fm.Live()) - FramesBelow(removed.value, removed.value.end)
                                && Owned(Snap()) == old(Owned(Snap())) - FramesBelow(removed.value, removed.value.end)
      ensures removed.Some? ==> exists k :: 0 <= k < |old(areas)| && old(areas)[k] == removed.value
                                            && areas == old(areas)[..k] + old(areas)[k + 1..]
    {
      hide TableOk, FramesMatch, Flat, LiveFrames, AllocatorOk, PartUnmapped;
      ghost var mem0, live0, sp := fm.mem, fm.Live(), Snap();
      var idx := 0;
      while idx < |areas| && areas[idx].start != startVpn
        invariant idx <= |areas| && forall i | 0 <= i < idx :: areas[i].start != startVpn
      {
        idx := idx + 1;
      }
      if idx == |areas| { return None; }
      var a := areas[idx];
      assert RangeOk(a) && AreaMapped(mem0, table.nodes, a);
      assert forall v | v in a.dataFrames :: a.dataFrames[v] in DataFrames(areas) && a.dataFrames[v] in Owned(sp);
      UnmapPages(fm, table, a);
      RemoveKeeps(mem0, fm.mem, sp, idx);
      areas := areas[..idx] + areas[idx + 1..];
      return Some(a);
    }

    /** `recycle_data_pages`: all areas are dropped and their frames returned; the table stays, with its entries. */
    method RecycleDataPages(fm: FrameMemory)
      requires Valid(fm)
      modifies this`areas, fm`recycled
      ensures Valid(fm) && areas == [] && fm.Live() == old(fm.Live()) - DataFrames(old(areas))
              && table.frames == old(table.frames)
    {
      hide TableOk, FramesMatch, Flat, LiveFrames, AllocatorOk, AreaMapped;
      ghost var live0, sp := fm.Live(), Snap();
      AllDataLive(fm.mem, sp, live0);
      DropAreas(fm, areas, fm.mem, sp);
      areas := [];
      EmptySpaceOk(fm.mem, sp);
      assert DataFrames([]) == {};
    }
  }

  /** Dropping a list of areas returns the frames of each, in order. */
  method DropAreas(fm: FrameMemory, areas: seq<MapArea>, ghost mem: Memory, ghost sp: Space)
    requires fm.Valid() && SpaceOk(mem, sp) && areas == sp.areas
    requires forall i, v | 0 <= i < |areas| && v in areas[i].dataFrames :: areas[i].dataFrames[v] in fm.Live()
    modifies fm`recycled
    ensures fm.Valid() && fm.Live() == old(fm.Live()) - DataFrames(areas)
  {
    hide TableOk, FramesMatch, Flat, LiveFrames, AllocatorOk, AreaMapped;
    ghost var live0 := fm.Live();
    var i := 0;
    while i < |areas|
      invariant i <= |areas| && fm.Valid() && fm.Live() == live0 - DataFrames(areas[..i])
    {
      DataSplit(mem, sp, i);
      DropArea(fm, areas[i]);
      assert DataFrames(areas[..i + 1]) == DataFrames(areas[..i]) + FramesBelow(areas[i], areas[i].end);
      i := i + 1;
    }
    assert areas[..|areas|] == areas;
  }

  lemma AllDataLive(mem: Memory, sp: Space, live: set<nat>)
    requires forall p | p in Owned(sp) :: p in live
    ensures forall i, v | 0 <= i < |sp.areas| && v in sp.areas[i].dataFrames :: sp.areas[i].dataFrames[v] in live
  {
    forall i, v | 0 <= i < |sp.areas| && v in sp.areas[i].dataFrames ensures sp.areas[i].dataFrames[v] in live {
      assert sp.areas[i].dataFrames[v] in DataFrames(sp.areas);
      assert sp.areas[i].dataFrames[v] in Owned(sp);
    }
  }

  lemma DataSplit(mem: Memory, sp: Space, i: nat)
    requires SpaceOk(mem, sp) && i < |sp.areas|
    ensures RangeOk(sp.areas[i])
    ensures DataFrames(sp.areas[..i + 1]) == DataFrames(sp.areas[..i]) + FramesBelow(sp.areas[i], sp.areas[i].end)
    ensures forall v | v in sp.areas[i].dataFrames :: sp.areas[i].dataFrames[v] !in DataFrames(sp.areas[..i])
  {
    hide TableOk, FramesMatch, AreaMapped;
    var a, init, upto := sp.areas[i], sp.areas[..i], sp.areas[..i + 1];
    forall p | p in DataFrames(upto) ensures p in DataFrames(init) || p in FramesBelow(a, a.end) {
      var j, v :| 0 <= j < |upto| && v in upto[j].dataFrames && upto[j].dataFrames[v] == p;
      if j < i { assert init[j].dataFrames[v] == p; }
    }
    forall p | p in DataFrames(init) ensures p in DataFrames(upto) {
      var j, v :| 0 <= j < |init| && v in init[j].dataFrames && init[j].dataFrames[v] == p;
      assert upto[j].dataFrames[v] == p;
    }
    forall p | p in FramesBelow(a, a.end) ensures p in DataFrames(upto) {
      var v :| v in a.dataFrames && v < a.end && a.dataFrames[v] == p;
      assert upto[i].dataFrames[v] == p;
    }
  }

  lemma EmptySpaceOk(mem: Memory, sp: Space)
    requires SpaceOk(mem, sp)
    ensures SpaceOk(mem, Space(sp.frames, sp.nodes, []))
  {
  }

  /** Dropping an area returns its frames in page order. */
  method DropArea(fm: FrameMemory, a: MapArea)
    requires fm.Valid() && RangeOk(a) && forall v | v in a.dataFrames :: a.dataFrames[v] in fm.Live()
    modifies fm`recycled
    ensures fm.Valid() && fm.Live() == old(fm.Live()) - FramesBelow(a, a.end)
  {
    hide LiveFrames, AllocatorOk;
    ghost var live0 := fm.Live();
    NothingFreed(a);
    var vpn := a.start;
    while vpn < a.end
      invariant a.start <= vpn <= a.end && fm.Valid() && fm.Live() == live0 - FramesBelow(a, vpn)
    {
      if a.framed {
        NotYetFreed(a, vpn);
        ghost var live1 := fm.Live();
        fm.Dealloc(a.dataFrames[vpn]);
        FreeNext(a, vpn, live0, live1, fm.Live());
      } else {
        NothingOwned(a, vpn + 1);
        NothingOwned(a, vpn);
      }
      vpn := vpn + 1;
    }
  }
}
