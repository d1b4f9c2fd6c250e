/** Process identifiers and kernel stacks (os/src/task/pid.rs). */
module KernelStacks {
  import opened Sequences
  import opened Bits
  import opened Addresses
  import opened Options
  import opened Frames
  import opened Hardware
  import opened PageTables
  import opened MemorySets

  const TRAMPOLINE: nat := 0xFFFF_FFFF_FFFF_F000
  const KERNEL_STACK_SIZE: nat := 8192
  const PAGE_SIZE: nat := 4096

  /** The first page past the identity map: MEMORY_END, in pages. */
  const IDENTITY_END: nat := 0x8_0800

  // ---------------------------------------------------------------- pids

  /** A pid is handed out at most once until it is returned. */
  class PidAllocator {
    var current: nat
    var recycled: seq<nat>

    ghost predicate Valid()
      reads this
    {
      NoRepeats(recycled) && forall i | 0 <= i < |recycled| :: recycled[i] < current
    }

    /** Pids handed out and not returned. */
    ghost function Live(): (s: set<nat>)
      reads this
      ensures forall p: nat :: p in s <==> p < current && p !in recycled
    {
      set p: nat | p < current && p !in recycled
    }

    constructor ()
      ensures Valid() && Live() == {} && current == 0
    {
      current, recycled := 0, [];
    }

    /** A pid nobody holds: the one returned last, or else the number of pids in use. */
    method Alloc() returns (pid: nat)
      requires Valid()
      modifies this
      ensures Valid() && pid !in old(Live()) && Live() == old(Live()) + {pid}
      ensures old(recycled) == [] ==> pid == old(current) && current == pid + 1
                                      && forall p: nat :: p in old(Live()) <==> p < pid
      ensures old(recycled) != [] ==> pid == old(recycled)[|old(recycled)| - 1] && pid < old(current)
                                      && current == old(current)
    {
      if recycled != [] {
        pid := recycled[|recycled| - 1];
        assert recycled == recycled[..|recycled| - 1] + [pid];
        recycled := recycled[..|recycled| - 1];
      } else {
        current := current + 1;
        pid := current - 1;
      }
    }

    /** The source panics unless the pid is live. */
    method Dealloc(pid: nat)
      requires Valid() && pid in Live()
      modifies this`recycled
      ensures Valid() && Live() == old(Live()) - {pid}
    {
      assert pid < current && pid !in recycled;
      recycled := recycled + [pid];
    }
  }

  // ---------------------------------------------------------------- stack positions

  /** `kernel_stack_position`, while it does not wrap. */
  function KernelStackPosition(pid: nat): (r: (nat, nat))
    requires pid * 12288 + 8192 <= TRAMPOLINE
  {
    var top := TRAMPOLINE - pid * (KERNEL_STACK_SIZE + PAGE_SIZE);
    (top - KERNEL_STACK_SIZE, top)
  }

  /** Pages of a pid's stack: `Bottom(pid)` and the one above; `Bottom(pid) - 1` is its guard page. */
  function Bottom(pid: nat): int {
    0x7FF_FFFD - 3 * pid
  }

  ghost predicate OnStack(pid: nat, vpn: nat) {
    Bottom(pid) <= vpn < Bottom(pid) + 2
  }

  /** The byte addresses, cut to 39 bits and rounded to pages, are the two pages of the stack. */
  lemma StackPages(pid: nat)
    requires pid <= IDENTITY_END
    ensures pid * 12288 + 8192 <= TRAMPOLINE
    ensures var (bottom, top) := KernelStackPosition(pid);
            && PageOffset(VirtAddr(bottom)) == 0 && Floor(VirtAddr(bottom)) == Bottom(pid)
            && VirtAddr(top) > 0 && Ceil(VirtAddr(top)) == Bottom(pid) + 2
  {
    hide And;
    var (bottom, top) := KernelStackPosition(pid);
    AddressSplits(bottom);
    AddressSplits(top);
    AddressSplits(VirtAddr(bottom));
    ModUnique(top, 0x80_0000_0000, 0x1FF_FFFF, 0x7F_FFFF_F000 - 12288 * pid);
    ModUnique(bottom, 0x80_0000_0000, 0x1FF_FFFF, 0x7F_FFFF_D000 - 12288 * pid);
  }

  // ---------------------------------------------------------------- stacks in the kernel's space

  ghost predicate StackArea(a: MapArea, pid: nat) {
    a.start == Bottom(pid) && a.end == Bottom(pid) + 2 && a.framed && a.perm == 6
  }

  /** The only pid whose stack can hold the page. */
  ghost function PidOf(vpn: nat): nat {
    if vpn <= 0x7FF_FFFE then (0x7FF_FFFE - vpn) / 3 else 0
  }

  ghost predicate HasArea(areas: seq<MapArea>, pid: nat) {
    exists i :: 0 <= i < |areas| && StackArea(areas[i], pid)
  }

  ghost predicate AreaKnown(a: MapArea, live: set<nat>) {
    a.end <= IDENTITY_END || (PidOf(a.start) in live && StackArea(a, PidOf(a.start)))
  }

  ghost predicate PageKnown(v: nat, live: set<nat>) {
    PidOf(v) in live && OnStack(PidOf(v), v)
  }

  /** Above the identity map, exactly the stacks of the live pids are mapped, each by one area. */
  ghost predicate Laid(mem: Memory, sp: Space, live: set<nat>) {
    && (forall i | 0 <= i < |sp.areas| :: AreaKnown(sp.areas[i], live))
    && (forall pid | pid in live :: HasArea(sp.areas, pid))
    && (forall v: nat | IDENTITY_END <= v < TRAMPOLINE_VPN && Flat(mem, sp.nodes, v).Some? :: PageKnown(v, live))
    && (forall pid | pid in live :: pid <= IDENTITY_END)
  }

  lemma OnlyPid(pid: nat, v: nat)
    requires OnStack(pid, v)
    ensures PidOf(v) == pid
  {
    assert 0x7FF_FFFE - v == 3 * pid || 0x7FF_FFFE - v == 3 * pid + 1;
  }

  /** The pages of a pid not in use are free, so the already-mapped assertion cannot fail. */
  lemma StackFree(mem: Memory, sp: Space, live: set<nat>, pid: nat)
    requires Laid(mem, sp, live) && pid !in live && pid <= IDENTITY_END
    ensures forall v: nat | OnStack(pid, v) :: Flat(mem, sp.nodes, v).None?
  {
    hide Flat, HasArea, AreaKnown, PidOf;
    forall v: nat | OnStack(pid, v) ensures Flat(mem, sp.nodes, v).None? { OnlyPid(pid, v); }
  }

  /** The page below every stack is unmapped, whatever pids are live, and no other stack shares a page with it. */
  lemma GuardPages(mem: Memory, sp: Space, live: set<nat>, pid: nat)
    requires Laid(mem, sp, live) && pid in live
    ensures Bottom(pid) > IDENTITY_END && Flat(mem, sp.nodes, Bottom(pid) - 1).None?
    ensures forall q, v: nat | q in live && q != pid && OnStack(pid, v) :: !OnStack(q, v)
  {
    hide Flat, HasArea, AreaKnown, PidOf;
    var guard := Bottom(pid) - 1;
    if Flat(mem, sp.nodes, guard).Some? { NoPid(pid, PidOf(guard)); }
    forall q, v: nat | q in live && q != pid && OnStack(pid, v) ensures !OnStack(q, v) {
      OnlyPid(pid, v);
      if OnStack(q, v) { OnlyPid(q, v); }
    }
  }

  lemma NoPid(pid: nat, q: nat)
    requires pid <= IDENTITY_END
    ensures !OnStack(q, Bottom(pid) - 1)
  {
    if q <= pid { } else { assert q >= pid + 1; }
  }

  lemma StackMapped(mem: Memory, sp: Space, live: set<nat>, pid: nat)
    requires SpaceOk(mem, sp) && Laid(mem, sp, live) && pid in live
    ensures forall v: nat | OnStack(pid, v) :: Flat(mem, sp.nodes, v).Some?
  {
    hide Flat, TableOk, FramesMatch, Or, MakePte, DataOk, HasArea, AreaKnown, PageKnown, Disjoint, RangeOk;
    var i := AreaOf(sp.areas, pid);
    assert AreaMapped(mem, sp.nodes, sp.areas[i]);
    forall v: nat | OnStack(pid, v) ensures Flat(mem, sp.nodes, v).Some? { assert sp.areas[i].Contains(v); }
  }

  /** The supervisor loads and stores on both pages of a stack and nothing else is possible there, on hardware that sets
      A and D itself; the page below faults. */
  ghost predicate StackUsable(mem: Memory, root: nat, pid: nat) {
    && (forall v: nat, access, mode: Mode | 0x7FF_FFFD - 3 * pid <= v <= 0x7FF_FFFE - 3 * pid ::
          HardwareAccess(mem, root, v, access, mode, true).Some? <==> !mode.user && access != Execute)
    && pid < 0x2AA_AAAA && HardwareWalk(mem, root, 0x7FF_FFFC - 3 * pid, 2).None?
  }

  lemma StackPage(mem: Memory, sp: Space, i: nat, pid: nat, v: nat, access: Access, mode: Mode)
    requires SpaceOk(mem, sp) && i < |sp.areas| && StackArea(sp.areas[i], pid) && OnStack(pid, v)
    requires forall p | p in Owned(sp) :: p < PPN_LIMIT
    ensures HardwareAccess(mem, sp.nodes[Root], v, access, mode, true).Some? <==> !mode.user && access != Execute
  {
    hide TableOk, FramesMatch, DataOk, Disjoint, AreaMapped, HardwareAccess;
    assert RangeOk(sp.areas[i]) && v in sp.areas[i].dataFrames;
    var f := sp.areas[i].dataFrames[v];
    assert f in DataFrames(sp.areas) && f in Owned(sp) && sp.areas[i].PpnOf(v) == f;
    AreaAccess(mem, sp, i, v, access, mode);
  }

  lemma StackAccess(mem: Memory, sp: Space, live: set<nat>, pid: nat)
    requires SpaceOk(mem, sp) && Laid(mem, sp, live) && pid in live && forall p | p in Owned(sp) :: p < PPN_LIMIT
    ensures StackUsable(mem, sp.nodes[Root], pid)
  {
    assert Root in sp.nodes && HasArea(sp.areas, pid) && TableOk(mem, sp.nodes);
    hide SpaceOk, Owned, Flat, HasArea, AreaKnown, PageKnown, HardwareAccess, HardwareWalk, TableOk, StackArea;
    var i := AreaOf(sp.areas, pid);
    forall v: nat, access, mode: Mode | 0x7FF_FFFD - 3 * pid <= v <= 0x7FF_FFFE - 3 * pid
      ensures HardwareAccess(mem, sp.nodes[Root], v, access, mode, true).Some? <==> !mode.user && access != Execute
    {
      StackPage(mem, sp, i, pid, v, access, mode);
    }
    GuardPages(mem, sp, live, pid);
    HardwareAgrees(mem, sp.nodes, 0x7FF_FFFC - 3 * pid);
  }

  lemma AreaOf(areas: seq<MapArea>, pid: nat) returns (i: nat)
    requires HasArea(areas, pid)
    ensures i < |areas| && StackArea(areas[i], pid)
  {
    i :| 0 <= i < |areas| && StackArea(areas[i], pid);
  }

  lemma StackKnown(a: MapArea, pid: nat, live: set<nat>)
    requires StackArea(a, pid) && pid in live
    ensures AreaKnown(a, live)
  {
    OnlyPid(pid, a.start);
  }

  lemma CreateKeeps(mem0: Memory, sp0: Space, mem: Memory, sp: Space, live: set<nat>, pid: nat, a: MapArea)
    requires Laid(mem0, sp0, live) && pid <= IDENTITY_END && StackArea(a, pid) && sp.areas == sp0.areas + [a]
    requires PartMapped(mem0, sp0.nodes, mem, sp.nodes, a, a.end)
    ensures Laid(mem, sp, live + {pid})
  {
    hide Flat, MakePte, Or, ZeroFrame, HasArea, PidOf;
    var live' := live + {pid};
    forall q | q in live' ensures HasArea(sp.areas, q) {
      AreaMore(sp0.areas, a, q, pid);
    }
    forall v: nat | IDENTITY_END <= v < TRAMPOLINE_VPN && Flat(mem, sp.nodes, v).Some? ensures PageKnown(v, live') {
      if OnStack(pid, v) { OnlyPid(pid, v); } else { assert PageKnown(v, live); }
    }
    StackKnown(a, pid, live');
  }

  lemma AreaMore(areas: seq<MapArea>, a: MapArea, q: nat, pid: nat)
    requires StackArea(a, pid) && (q == pid || HasArea(areas, q))
    ensures HasArea(areas + [a], q)
  {
    if q == pid {
      assert StackArea((areas + [a])[|areas|], q);
    } else {
      var i := AreaOf(areas, q);
      assert StackArea((areas + [a])[i], q);
    }
  }

  lemma ReleaseKeeps(mem0: Memory, sp0: Space, mem: Memory, sp: Space, live: set<nat>, pid: nat, k: nat)
    requires SpaceOk(mem0, sp0) && Laid(mem0, sp0, live) && pid in live
    requires k < |sp0.areas| && sp0.areas[k].start == Bottom(pid) && sp.areas == sp0.areas[..k] + sp0.areas[k + 1..]
    requires PartUnmapped(mem0, mem, sp0.nodes, sp0.areas[k], sp0.areas[k].end) && sp.nodes == sp0.nodes
    ensures StackArea(sp0.areas[k], pid) && Laid(mem, sp, live - {pid})
  {
    hide Flat, TableOk, FramesMatch, AreaMapped, DataOk, HasArea, PidOf;
    var areas, rest, live' := sp0.areas, sp.areas, live - {pid};
    assert RangeOk(areas[k]) && AreaKnown(areas[k], live);
    OnlyPid(pid, Bottom(pid));
    assert forall i | 0 <= i < |rest| :: rest[i] == areas[if i < k then i else i + 1];
    forall q | q in live' ensures HasArea(rest, q) { AreaLess(areas, k, q, pid); }
    forall i | 0 <= i < |rest| ensures AreaKnown(rest[i], live') {
      var j := if i < k then i else i + 1;
      assert AreaKnown(areas[j], live);
      assert !areas[j].Contains(Bottom(pid)) by { assert areas[k].Contains(Bottom(pid)); }
    }
    forall v: nat | IDENTITY_END <= v < TRAMPOLINE_VPN && Flat(mem, sp.nodes, v).Some? ensures PageKnown(v, live') {
      assert PageKnown(v, live);
    }
  }

  lemma AreaLess(areas: seq<MapArea>, k: nat, q: nat, pid: nat)
    requires k < |areas| && StackArea(areas[k], pid) && q != pid && HasArea(areas, q)
    ensures HasArea(areas[..k] + areas[k + 1..], q)
  {
    var i := AreaOf(areas, q);
    assert StackArea((areas[..k] + areas[k + 1..])[if i < k then i else i - 1], q);
  }

  // ---------------------------------------------------------------- the number of pids

  ghost predicate HasFrame(areas: seq<MapArea>, pid: nat, f: nat) {
    exists i :: 0 <= i < |areas| && StackArea(areas[i], pid) && Bottom(pid) in areas[i].dataFrames
                && areas[i].dataFrames[Bottom(pid)] == f
  }

  lemma OneOwner(mem: Memory, sp: Space, p: nat, q: nat, f: nat)
    requires SpaceOk(mem, sp) && HasFrame(sp.areas, p, f) && HasFrame(sp.areas, q, f)
    ensures p == q
  {
    hide TableOk, FramesMatch, AreaMapped, Disjoint, RangeOk;
    var i :| 0 <= i < |sp.areas| && StackArea(sp.areas[i], p) && Bottom(p) in sp.areas[i].dataFrames
        && sp.areas[i].dataFrames[Bottom(p)] == f;
    var j :| 0 <= j < |sp.areas| && StackArea(sp.areas[j], q) && Bottom(q) in sp.areas[j].dataFrames
        && sp.areas[j].dataFrames[Bottom(q)] == f;
  }

  lemma StackFrame(mem: Memory, sp: Space, pid: nat) returns (f: nat)
    requires SpaceOk(mem, sp) && HasArea(sp.areas, pid)
    ensures HasFrame(sp.areas, pid, f) && f in Owned(sp)
  {
    hide TableOk, FramesMatch, AreaMapped, Disjoint, DataOk, HasArea;
    var i := AreaOf(sp.areas, pid);
    assert RangeOk(sp.areas[i]) && sp.areas[i].Contains(Bottom(pid));
    f := sp.areas[i].dataFrames[Bottom(pid)];
    assert f in DataFrames(sp.areas);
  }

  /** If all pids below `n` are live, their stacks hold `n` different frames. */
  lemma {:induction false} FramesOfStacks(mem: Memory, sp: Space, n: nat) returns (s: set<nat>)
    requires SpaceOk(mem, sp) && forall pid | 0 <= pid < n :: HasArea(sp.areas, pid)
    ensures |s| == n && s <= Owned(sp)
    ensures forall p | p in s :: exists pid :: 0 <= pid < n && HasFrame(sp.areas, pid, p)
  {
    hide SpaceOk, HasArea, HasFrame, Owned;
    if n == 0 {
      s := {};
    } else {
      var rest := FramesOfStacks(mem, sp, n - 1);
      var f := StackFrame(mem, sp, n - 1);
      if f in rest {
        var pid :| 0 <= pid < n - 1 && HasFrame(sp.areas, pid, f);
        OneOwner(mem, sp, pid, n - 1, f);
        assert false;
      }
      s := rest + {f};
    }
  }

  lemma {:induction false} SubrangeSize(s: set<nat>, lo: nat, hi: nat)
    requires lo <= hi && forall p | p in s :: lo <= p < hi
    ensures |s| <= hi - lo
    decreases hi - lo
  {
    if s != {} {
      var p :| p in s;
      SubrangeSize(s - {hi - 1}, lo, hi - 1);
    }
  }

  /** The pids in use never outnumber the frames, so no stack reaches down to the identity map. */
  lemma PidsFit(mem: Memory, sp: Space, live: set<nat>, n: nat, lo: nat, hi: nat)
    requires SpaceOk(mem, sp) && Laid(mem, sp, live) && lo <= hi && forall p | p in Owned(sp) :: lo <= p < hi
    requires forall pid: nat | pid < n :: pid in live
    ensures n <= hi - lo
  {
    hide Flat, SpaceOk, AreaKnown, PageKnown, HasArea, Owned;
    var s := FramesOfStacks(mem, sp, n);
    SubrangeSize(s, lo, hi);
  }

  // ---------------------------------------------------------------- stacks come and go

  /** The stacks stay where they are when no frame of the kernel's table is written. */
  lemma LaidKept(mem: Memory, mem': Memory, sp: Space, live: set<nat>)
    requires SpaceOk(mem, sp) && Laid(mem, sp, live) && mem'.Keys == mem.Keys
    requires forall p | p in sp.frames && p in mem :: mem'[p] == mem[p]
    ensures Laid(mem', sp, live)
  {
    hide SpaceOk, Flat, HasArea, AreaKnown, PageKnown;
    FramesPresent(mem, sp);
    SpaceFrame(mem, mem', sp);
  }

  lemma FramesPresent(mem: Memory, sp: Space)
    requires SpaceOk(mem, sp)
    ensures forall f | f in sp.frames :: f in mem
  {
    hide TableOk, FramesMatch, AreaMapped, RangeOk, Disjoint, DataOk;
    NodesOwned(mem, sp);
  }

  class KernelStacks {
    const pids: PidAllocator
    const fm: FrameMemory
    const space: MemorySet

    ghost predicate Valid()
      reads this, pids, fm, space, space.table
    {
      && pids.Valid() && space.Valid(fm) && Laid(fm.mem, space.Snap(), pids.Live())
      && pids.current <= IDENTITY_END + 1 && fm.end <= IDENTITY_END
    }

    /** The stacks are intact after any change that spares the frames of the kernel's table. */
    lemma Survive(mem: Memory)
      requires pids.Valid() && pids.current <= IDENTITY_END + 1 && fm.end <= IDENTITY_END && space.Valid(fm)
      requires SpaceOk(mem, space.Snap()) && Laid(mem, space.Snap(), pids.Live())
      requires fm.mem.Keys == mem.Keys && forall p | p in space.table.frames && p in mem :: fm.mem[p] == mem[p]
      ensures Valid()
    {
      hide Flat, SpaceOk, Laid, Owned, MemorySet.Valid, PidAllocator.Valid;
      LaidKept(mem, fm.mem, space.Snap(), pids.Live());
    }

    lemma Parts()
      requires Valid()
      ensures pids.Valid() && pids.current <= IDENTITY_END + 1 && fm.end <= IDENTITY_END && space.Valid(fm)
      ensures SpaceOk(fm.mem, space.Snap()) && Laid(fm.mem, space.Snap(), pids.Live())
    {
      hide SpaceOk, Laid, Owned;
    }

    /** The stack of every live pid. */
    lemma EveryStack(pid: nat)
      requires Valid() && pid in pids.Live()
      ensures StackUsable(fm.mem, space.table.root, pid)
    {
      hide SpaceOk, Laid, Owned, AllocatorOk, TableOk, FramesMatch, StackUsable;
      InRange(fm.start, fm.end, fm.current, fm.recycled);
      StackAccess(fm.mem, space.Snap(), pids.Live(), pid);
    }

    /** The kernel's space as boot leaves it: nothing mapped between the identity map and the trampoline. */
    constructor (fm: FrameMemory, space: MemorySet)
      requires space.Valid(fm) && fm.end <= IDENTITY_END
      requires forall i | 0 <= i < |space.areas| :: space.areas[i].end <= IDENTITY_END
      requires forall v: nat | IDENTITY_END <= v < TRAMPOLINE_VPN :: Flat(fm.mem, space.table.nodes, v).None?
      ensures Valid() && this.fm == fm && this.space == space && pids.Live() == {} && fresh(pids)
    {
      pids := new PidAllocator();
      this.fm, this.space := fm, space;
    }

    /** `pid_alloc`: while every stack has its frames, no pid is out of range. */
    method TakePid() returns (pid: nat)
      requires Valid()
      modifies pids
      ensures pids.Valid() && pid !in old(pids.Live()) && pids.Live() == old(pids.Live()) + {pid}
      ensures pid <= IDENTITY_END && pids.current <= IDENTITY_END + 1
    {
      hide SpaceOk, Laid, AllocatorOk, Owned;
      InRange(fm.start, fm.end, fm.current, fm.recycled);
      ghost var live := pids.Live();
      pid := pids.Alloc();
      if old(pids.recycled) == [] { PidsFit(fm.mem, space.Snap(), live, pid, fm.start, fm.end); }
    }

    /** `pid_alloc` and `KernelStack::new`: a fresh pid and two fresh pages; no other page changes. */
    method Create() returns (ok: bool, pid: nat)
      requires Valid()
      modifies pids, fm, space, space.table
      ensures ok ==> Valid() && pid !in old(pids.Live()) && pids.Live() == old(pids.Live()) + {pid}
                     && pid <= IDENTITY_END
      ensures ok ==> OnlyMapped(old(fm.mem), old(space.Snap()), fm.mem, space.Snap(), pid)
      ensures ok ==> StackUsable(fm.mem, space.table.root, pid)
      ensures ok ==> Extended(old(fm.mem), fm.mem, old(fm.Live()), fm.Live(), old(space.Snap()), space.Snap())
      ensures old(fm.Available()) >= 6 ==> ok
    {
      hide Flat, SpaceOk, Laid, PartMapped, OthersUntouched, OnlyMapped, AllocatorOk, Owned, And, VirtAddr, Floor, Ceil,
           StackUsable;
      ghost var mem0, sp0, live0 := fm.mem, space.Snap(), pids.Live();
      pid := TakePid();
      StackPages(pid);
      StackFree(mem0, sp0, live0, pid);
      var (bottom, top) := KernelStackPosition(pid);
      ok := space.Push(fm, Floor(VirtAddr(bottom)), Ceil(VirtAddr(top)), true, 6);
      if ok {
        ghost var a := space.areas[|sp0.areas|];
        CreateKeeps(mem0, sp0, fm.mem, space.Snap(), live0, pid, a);
        CreateMaps(mem0, sp0, fm.mem, space.Snap(), a, pid);
        EveryStack(pid);
      }
    }

    /** Dropping the `PidHandle` and the `KernelStack`: exactly the stack's own pages are unmapped. */
    method Release(pid: nat)
      requires Valid() && pid in pids.Live()
      modifies pids, fm, space
      ensures Valid() && pids.Live() == old(pids.Live()) - {pid}
      ensures OnlyMapped(fm.mem, space.Snap(), old(fm.mem), old(space.Snap()), pid)
      ensures Shrunk(old(fm.mem), fm.mem, old(fm.Live()), fm.Live(), old(space.Snap()), space.Snap())
    {
      hide Flat, SpaceOk, Laid, PartUnmapped, OnlyMapped, Owned, And, VirtAddr, Floor, LiveFrames, FramesBelow, Shrunk;
      ghost var mem0, sp0, live0 := fm.mem, space.Snap(), pids.Live();
      KnownPid(mem0, sp0, live0, pid);
      pids.Dealloc(pid);
      StackPages(pid);
      ghost var i := AreaOf(sp0.areas, pid);
      var (bottom, _) := KernelStackPosition(pid);
      ghost var removed := space.RemoveAreaWithStartVpn(fm, Floor(VirtAddr(bottom)));
      ghost var k :| 0 <= k < |sp0.areas| && sp0.areas[k] == removed.value
                && space.areas == sp0.areas[..k] + sp0.areas[k + 1..];
      ReleaseKeeps(mem0, sp0, fm.mem, space.Snap(), live0, pid, k);
      ReleaseUnmaps(mem0, sp0, fm.mem, space.Snap(), live0, k, pid);
      FramesReturned(mem0, fm.mem, old(fm.Live()), fm.Live(), sp0, space.Snap(), k);
    }
  }

  lemma FramesReturned(mem: Memory, mem': Memory, live: set<nat>, live': set<nat>, sp: Space, sp': Space, k: nat)
    requires k < |sp.areas| && mem'.Keys == mem.Keys && (forall p | p in mem' && p !in sp.frames :: mem'[p] == mem[p])
    requires live' == live - FramesBelow(sp.areas[k], sp.areas[k].end) && sp'.nodes == sp.nodes
    requires Owned(sp') == Owned(sp) - FramesBelow(sp.areas[k], sp.areas[k].end)
    ensures Shrunk(mem, mem', live, live', sp, sp')
  {
    forall p | p in FramesBelow(sp.areas[k], sp.areas[k].end) ensures p in Owned(sp) {
      var v :| v in sp.areas[k].dataFrames && v < sp.areas[k].end && sp.areas[k].dataFrames[v] == p;
      assert p in DataFrames(sp.areas);
    }
  }

  /** The second table maps the two pages of the stack and the first does not; otherwise they are the same. */
  ghost predicate OnlyMapped(mem0: Memory, sp0: Space, mem: Memory, sp: Space, pid: nat) {
    && (forall v: nat | OnStack(pid, v) :: Flat(mem0, sp0.nodes, v).None? && Flat(mem, sp.nodes, v).Some?)
    && (forall v: nat | v < VPN_LIMIT && !OnStack(pid, v) :: Flat(mem, sp.nodes, v) == Flat(mem0, sp0.nodes, v))
  }

  lemma CreateMaps(mem0: Memory, sp0: Space, mem: Memory, sp: Space, a: MapArea, pid: nat)
    requires StackArea(a, pid) && PartMapped(mem0, sp0.nodes, mem, sp.nodes, a, a.end)
    requires forall v: nat | OnStack(pid, v) :: Flat(mem0, sp0.nodes, v).None?
    ensures OnlyMapped(mem0, sp0, mem, sp, pid)
  {
    hide Flat, MakePte, Or, ZeroFrame;
  }

  lemma ReleaseUnmaps(mem0: Memory, sp0: Space, mem: Memory, sp: Space, live: set<nat>, k: nat, pid: nat)
    requires SpaceOk(mem0, sp0) && Laid(mem0, sp0, live) && pid in live && pid <= IDENTITY_END
    requires k < |sp0.areas| && StackArea(sp0.areas[k], pid) && sp.nodes == sp0.nodes
    requires PartUnmapped(mem0, mem, sp0.nodes, sp0.areas[k], sp0.areas[k].end)
    ensures OnlyMapped(mem, sp, mem0, sp0, pid)
  {
    hide Flat, SpaceOk, Laid;
    StackMapped(mem0, sp0, live, pid);
  }

  lemma KnownPid(mem: Memory, sp: Space, live: set<nat>, pid: nat)
    requires Laid(mem, sp, live) && pid in live
    ensures pid <= IDENTITY_END && HasArea(sp.areas, pid)
  {
    hide Flat, HasArea, AreaKnown;
  }
}
