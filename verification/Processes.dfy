/** Processes and their memory together: one frame allocator under the block device, the kernel's space and every task's
    (os/src/task/task.rs, os/src/task/mod.rs, os/src/syscall/process.rs, os/src/memory/frame_allocator.rs). */
module Processes {
  import opened Options
  import opened Frames
  import opened PageTables
  import opened MemorySets
  import opened Fork
  import opened Loader
  import opened Spaces
  import opened KernelStacks
  import opened Tasks
  import opened Kernels

  ghost function ChildAt(s: State, i: nat): Ref
    requires Enabled(s, Step.Reap(i))
  {
    s.heap[s.current.value].children[i]
  }

  /** Each control block has a task's space of its own, and every task's space is some block's. */
  ghost predicate Housed(home: map<Ref, MemorySet>, blocks: set<Ref>, tasks: seq<MemorySet>) {
    && home.Keys == blocks && (forall r | r in home :: home[r] in tasks)
    && (forall r, q | r in home && q in home && home[r] == home[q] :: r == q)
    && (forall s | s in tasks :: exists r :: r in home && home[r] == s)
  }

  /** What `fork` relies on: user areas have frames of their own and leave the trampoline alone. */
  ghost predicate UserAreas(areas: seq<MapArea>) {
    forall i | 0 <= i < |areas| :: areas[i].framed && !areas[i].Contains(TRAMPOLINE_VPN)
  }

  /** A task's space has a page for the trap context, until the task exits; then it holds no data at all. */
  ghost predicate Furnished(tcb: Tcb, areas: seq<MapArea>) {
    if tcb.status == Zombie then areas == [] else HasPage(areas, CONTEXT_VPN)
  }

  /** Every block has its space. */
  ghost predicate Settled(home: map<Ref, MemorySet>, heap: Heap, tasks: seq<MemorySet>)
    reads tasks
  {
    && Housed(home, heap.Keys, tasks) && (forall s | s in tasks :: UserAreas(s.areas))
    && (forall r | r in heap :: Furnished(heap[r], home[r].areas))
  }

  lemma SettledAt(home: map<Ref, MemorySet>, heap: Heap, tasks: seq<MemorySet>, r: Ref)
    requires Settled(home, heap, tasks) && r in heap
    ensures r in home && home[r] in tasks && UserAreas(home[r].areas) && Furnished(heap[r], home[r].areas)
  {
    hide UserAreas, HasPage;
  }

  lemma SettledHomes(home: map<Ref, MemorySet>, heap: Heap, tasks: seq<MemorySet>)
    requires Settled(home, heap, tasks)
    ensures home.Keys == heap.Keys && forall s | s in home.Values :: s in tasks
  {
    hide UserAreas, HasPage;
  }

  /** Different blocks have different spaces. */
  lemma SettledApart(home: map<Ref, MemorySet>, heap: Heap, tasks: seq<MemorySet>, r: Ref)
    requires Settled(home, heap, tasks) && r in heap
    ensures r in home && home[r] !in (home - {r}).Values && forall s | s in (home - {r}).Values :: s in tasks
  {
    hide UserAreas, HasPage;
  }

  /** The blocks are the same, and so are those that have exited. */
  lemma SettledStill(home: map<Ref, MemorySet>, heap: Heap, heap': Heap, tasks: seq<MemorySet>)
    requires Settled(home, heap, tasks) && heap'.Keys == heap.Keys
    requires forall r | r in heap :: heap'[r].status == Zombie <==> heap[r].status == Zombie
    ensures Settled(home, heap', tasks)
  {
    hide UserAreas, HasPage;
    assert forall r | r in heap' :: Furnished(heap[r], home[r].areas);
  }

  lemma SettledMore(home: map<Ref, MemorySet>, heap: Heap, heap': Heap, tasks: seq<MemorySet>, r: Ref, child: MemorySet)
    requires Settled(home, heap, tasks) && r !in heap && child !in tasks && UserAreas(child.areas)
    requires heap'.Keys == heap.Keys + {r} && Furnished(heap'[r], child.areas)
    requires forall q | q in heap :: heap'[q].status == Zombie <==> heap[q].status == Zombie
    ensures Settled(home[r := child], heap', tasks + [child])
  {
    hide UserAreas, HasPage;
    assert forall q | q in heap :: Furnished(heap[q], home[q].areas);
    var home', tasks' := home[r := child], tasks + [child];
    forall s | s in tasks' ensures exists q :: q in home' && home'[q] == s {
      if s in tasks {
        var q :| q in home && home[q] == s;
        assert home'[q] == s;
      } else {
        assert home'[r] == s;
      }
    }
  }

  lemma HousedLess(home: map<Ref, MemorySet>, tasks: seq<MemorySet>, z: Ref, k: nat)
    requires Housed(home, home.Keys, tasks) && z in home && k < |tasks| && home[z] == tasks[k]
    requires forall i, j | 0 <= i < j < |tasks| :: tasks[i] != tasks[j]
    ensures Housed(home - {z}, home.Keys - {z}, tasks[..k] + tasks[k + 1..])
  {
    var home', tasks' := home - {z}, tasks[..k] + tasks[k + 1..];
    forall s ensures s in tasks' <==> s in tasks && s != tasks[k] { Without(tasks, k, s); }
    forall s | s in tasks' ensures exists q :: q in home' && home'[q] == s {
      var q :| q in home && home[q] == s;
      assert home'[q] == s;
    }
  }

  lemma SettledLess(home: map<Ref, MemorySet>, heap: Heap, heap': Heap, tasks: seq<MemorySet>, z: Ref, k: nat)
    requires Settled(home, heap, tasks) && z in heap && k < |tasks| && home[z] == tasks[k]
    requires forall i, j | 0 <= i < j < |tasks| :: tasks[i] != tasks[j]
    requires heap'.Keys == heap.Keys - {z} && forall r | r in heap' :: heap'[r].status == heap[r].status
    ensures Settled(home - {z}, heap', tasks[..k] + tasks[k + 1..]) && tasks[k] !in tasks[..k] + tasks[k + 1..]
  {
    hide UserAreas, HasPage, Housed;
    SettledHomes(home, heap, tasks);
    HousedLess(home, tasks, z, k);
    assert forall r | r in heap' :: Furnished(heap[r], home[r].areas) && (home - {z})[r] == home[r];
    forall s ensures s in tasks[..k] + tasks[k + 1..] <==> s in tasks && s != tasks[k] { Without(tasks, k, s); }
  }

  /** A task moves to another space. */
  lemma SettledSwap(home: map<Ref, MemorySet>, heap: Heap, tasks: seq<MemorySet>, r: Ref, k: nat, child: MemorySet)
    requires Settled(home, heap, tasks) && r in heap && k < |tasks| && home[r] == tasks[k] && child !in tasks
    requires forall i, j | 0 <= i < j < |tasks| :: tasks[i] != tasks[j]
    requires UserAreas(child.areas) && HasPage(child.areas, CONTEXT_VPN) && heap[r].status != Zombie
    ensures Settled(home[r := child], heap, tasks[..k] + tasks[k + 1..] + [child])
    ensures AreasOf(home[r := child]) - {r} == AreasOf(home) - {r}
  {
    hide UserAreas, HasPage, Settled, AreasOf;
    var home0, heap0, rest := home - {r}, heap - {r}, tasks[..k] + tasks[k + 1..];
    SettledLess(home, heap, heap0, tasks, r, k);
    assert child !in rest && heap.Keys == heap0.Keys + {r};
    SettledMore(home0, heap0, heap, rest, r, child);
    AreasLess(home, r);
    AreasMore(home0, r, child);
    assert home[r := child] == home0[r := child];
  }

  lemma Without(tasks: seq<MemorySet>, k: nat, s: MemorySet)
    requires k < |tasks| && forall i, j | 0 <= i < j < |tasks| :: tasks[i] != tasks[j]
    ensures s in tasks[..k] + tasks[k + 1..] <==> s in tasks && s != tasks[k]
  {
    assert tasks == tasks[..k] + [tasks[k]] + tasks[k + 1..];
  }

  lemma HousedBack(home: map<Ref, MemorySet>, tasks: seq<MemorySet>, z: Ref, k: nat)
    requires k < |tasks| && forall i, j | 0 <= i < j < |tasks| :: tasks[i] != tasks[j]
    requires z in home && home[z] == tasks[k] && Housed(home - {z}, home.Keys - {z}, tasks[..k] + tasks[k + 1..])
    ensures Housed(home, home.Keys, tasks)
  {
    var home0, tasks0 := home - {z}, tasks[..k] + tasks[k + 1..];
    forall s ensures s in tasks0 <==> s in tasks && s != tasks[k] { Without(tasks, k, s); }
    assert forall r | r in home && r != z :: r in home0 && home0[r] == home[r];
    forall s | s in tasks ensures exists q :: q in home && home[q] == s {
      if s in tasks0 {
        var q :| q in home0 && home0[q] == s;
        assert home[q] == s;
      } else {
        assert home[z] == s;
      }
    }
  }

  /** A task has exited and its areas are gone. */
  lemma SettledEmpty(home: map<Ref, MemorySet>, heap: Heap, heap': Heap, tasks: seq<MemorySet>, z: Ref, k: nat)
    requires k < |tasks| && forall i, j | 0 <= i < j < |tasks| :: tasks[i] != tasks[j]
    requires Settled(home - {z}, heap - {z}, tasks[..k] + tasks[k + 1..]) && z in heap && z in home
             && home[z] == tasks[k]
    requires tasks[k].areas == [] && heap'.Keys == heap.Keys && heap'[z].status == Zombie
    requires forall r | r in heap && r != z :: heap'[r].status == Zombie <==> heap[r].status == Zombie
    ensures Settled(home, heap', tasks)
  {
    var home0, heap0, tasks0 := home - {z}, heap - {z}, tasks[..k] + tasks[k + 1..];
    assert home0.Keys == home.Keys - {z} && heap0.Keys == heap.Keys - {z};
    assert home.Keys == home0.Keys + {z} && heap.Keys == heap0.Keys + {z};
    HousedBack(home, tasks, z, k);
    forall s | s in tasks ensures UserAreas(s.areas) { Without(tasks, k, s); }
    forall r | r in heap' ensures Furnished(heap'[r], home[r].areas) {
      if r != z { assert heap0[r] == heap[r] && home0[r] == home[r] && Furnished(heap0[r], home0[r].areas); }
    }
  }

  lemma CurrentKnown(s: State)
    requires Inv(s) && InUser(s)
    ensures s.current.value in s.heap && s.heap[s.current.value].status != Zombie
  {
    hide TreeOk, PidsOk, CountsOk;
  }

  lemma QuietBlocks(s: State, step: Step)
    requires Inv(s) && Enabled(s, step) && (step.Fetch? || step.Suspend? || step.StartRead? || step.EndRead?)
    ensures var s' := After(s, step);
            s'.heap.Keys == s.heap.Keys
                && forall r | r in s.heap :: s'.heap[r].status == Zombie <==> s.heap[r].status == Zombie
  {
    hide TreeOk, PidsOk, CountsOk;
  }

  lemma ExitedBlocks(s: State, code: int)
    requires Inv(s) && Enabled(s, Step.Exit(code))
    ensures var s' := After(s, Step.Exit(code));
            s'.heap.Keys == s.heap.Keys
                && s'.heap[s.current.value].status == Zombie
                && forall r | r in s.heap && r != s.current.value ::
                   s'.heap[r].status == Zombie <==> s.heap[r].status == Zombie
  {
    hide Inv;
  }

  lemma ForkedBlocks(s: State, addr: Ref, pid: nat)
    requires Inv(s) && Enabled(s, Step.Fork(addr, pid))
    ensures var s' := After(s, Step.Fork(addr, pid));
            s'.heap.Keys == s.heap.Keys + {addr} && s'.heap[addr].status != Zombie
                && forall r | r in s.heap :: s'.heap[r].status == Zombie <==> s.heap[r].status == Zombie
  {
    hide Inv;
  }

  lemma ReapedBlocks(s: State, i: nat)
    requires Inv(s) && Enabled(s, Step.Reap(i))
    ensures var s', z := After(s, Step.Reap(i)), s.heap[s.current.value].children[i];
            z in s.heap && s'.heap.Keys == s.heap.Keys - {z}
                && forall r | r in s'.heap :: s'.heap[r].status == s.heap[r].status
  {
    hide TreeOk, PidsOk, CountsOk;
  }

  lemma Collected(s: State, s': State, pid: int, r: int, code: int, i: nat)
    requires Inv(s) && InUser(s) && Answer(s, s', pid, r, code, i) && r >= 0
    ensures Enabled(s, Step.Reap(i)) && i < |s.heap[s.current.value].children|
    ensures var z := s.heap[s.current.value].children[i];
            z == ChildAt(s, i) && z in s.heap && s'.heap.Keys == s.heap.Keys - {z}
                && forall r | r in s'.heap :: s'.heap[r].status == s.heap[r].status
  {
    hide Inv, After;
    ReapedBlocks(s, i);
  }

  /** The child of a fork satisfies what another fork relies on. */
  lemma CopyUserAreas(mem0: Memory, mem: Memory, live0: set<nat>, live: set<nat>, parent: Space, child: Space)
    requires CopiedUpTo(mem0, mem, live0, live, parent, child, |parent.areas|) && UserAreas(parent.areas)
    ensures UserAreas(child.areas) && (HasPage(parent.areas, CONTEXT_VPN) ==> HasPage(child.areas, CONTEXT_VPN))
  {
    hide Built;
    forall i | 0 <= i < |parent.areas|
      ensures child.areas[i].framed && child.areas[i].start == parent.areas[i].start
              && child.areas[i].end == parent.areas[i].end {
      assert Copied(mem0, mem, parent.areas[i], child.areas[i], parent.areas[i].end);
    }
    if HasPage(parent.areas, CONTEXT_VPN) {
      var i :| 0 <= i < |parent.areas| && parent.areas[i].framed && parent.areas[i].Contains(CONTEXT_VPN);
      assert child.areas[i].framed && child.areas[i].Contains(CONTEXT_VPN);
    }
  }

  /** So does a program just loaded. */
  lemma LoadUserAreas(mem0: Memory, mem: Memory, live0: set<nat>, live: set<nat>, loads: seq<Segment>, child: Space)
    requires Loadable(Image(loads)) && LoadedUpTo(mem0, mem, live0, live, Image(loads), child, |loads| + 2)
    ensures UserAreas(child.areas) && HasPage(child.areas, CONTEXT_VPN)
  {
    hide Built;
    var segments := Image(loads);
    forall i | 0 <= i < |segments|
      ensures child.areas[i].framed && child.areas[i].start == segments[i].start
              && child.areas[i].end == segments[i].end {
      assert Holds(mem, segments[i], child.areas[i], segments[i].end);
    }
    assert child.areas[|loads| + 1].framed && child.areas[|loads| + 1].Contains(CONTEXT_VPN);
  }

  /** The child holds the parent's bytes after a change that spares its frames. */
  lemma ChildCopied(mem0: Memory, mem1: Memory, mem2: Memory, live0: set<nat>, live1: set<nat>,
                    parent: Space, child: Space, kernel: set<nat>)
    requires CopiedUpTo(mem0, mem1, live0, live1, parent, child, |parent.areas|)
    requires Spared(mem1, mem2, live1 - kernel) && Owned(child) !! kernel && forall p | p in Owned(child) :: p in live1
    ensures SameBytes(mem0, mem2, parent.areas, child.areas)
  {
    hide Built, Owned, DataFrames;
    forall i | 0 <= i < |parent.areas|
      ensures Copied(mem0, mem2, parent.areas[i], child.areas[i], parent.areas[i].end) {
      var p, c := parent.areas[i], child.areas[i];
      assert Copied(mem0, mem1, p, c, p.end);
      forall v | v in c.dataFrames ensures c.dataFrames[v] in Owned(child) { DataOwned(child, i, v); }
    }
  }

  lemma DataOwned(sp: Space, i: nat, v: nat)
    requires i < |sp.areas| && v in sp.areas[i].dataFrames
    ensures sp.areas[i].dataFrames[v] in Owned(sp)
  {
    assert sp.areas[i].dataFrames[v] in DataFrames(sp.areas);
  }

  /** Area for area, the second list has the pages and permissions of the first, with the same contents. */
  ghost predicate SameBytes(mem0: Memory, mem: Memory, parent: seq<MapArea>, child: seq<MapArea>) {
    |child| == |parent| && forall i | 0 <= i < |parent| :: Copied(mem0, mem, parent[i], child[i], parent[i].end)
  }

  ghost predicate StackFits(pid: nat) {
    pid * 12288 + 8192 <= TRAMPOLINE
  }

  /** What every task has mapped, and where. */
  ghost function AreasOf(home: map<Ref, MemorySet>): map<Ref, seq<MapArea>>
    reads home.Values
  {
    map r | r in home :: home[r].areas
  }

  lemma AreasMore(home: map<Ref, MemorySet>, r: Ref, child: MemorySet)
    requires r !in home
    ensures AreasOf(home[r := child]) - {r} == AreasOf(home)
  {
    assert forall q | q in home :: home[r := child][q] == home[q];
  }

  lemma AreasLess(home: map<Ref, MemorySet>, r: Ref)
    ensures AreasOf(home - {r}) == AreasOf(home) - {r}
  {
    assert forall q | q in home && q != r :: (home - {r})[q] == home[q];
  }

  lemma AreasAgain(home: map<Ref, MemorySet>, r: Ref)
    requires r in home
    ensures AreasOf(home) == AreasOf(home - {r})[r := home[r].areas]
  {
    AreasLess(home, r);
  }

  /** Where the trap context keeps the stack pointer of the kernel and a0. */
  const KERNEL_SP: nat := 35
  const A0: nat := 10

  /** A page of the child: the parent's, but for the two words of the trap context that `fork` sets. */
  ghost function ForkedPage(v: nat, f: Frame, top: nat): Frame {
    if v == CONTEXT_VPN then Patched(Patched(f, KERNEL_SP, [top]), A0, [0]) else f
  }

  /** Area for area, the child has the parent's pages and permissions, with contents from the parent's. */
  ghost predicate ForkedBytes(mem0: Memory, mem: Memory, parent: seq<MapArea>, child: seq<MapArea>, top: nat) {
    && |child| == |parent|
    && forall i | 0 <= i < |parent| ::
         && child[i].start == parent[i].start && child[i].end == parent[i].end && child[i].perm == parent[i].perm
         && forall v | parent[i].Contains(v) ::
              && v in parent[i].dataFrames && v in child[i].dataFrames
              && parent[i].dataFrames[v] in mem0 && child[i].dataFrames[v] in mem
              && mem[child[i].dataFrames[v]] == ForkedPage(v, mem0[parent[i].dataFrames[v]], top)
  }

  /** Of a space's pages, only the one of the trap context has the frame that holds it. */
  lemma ContextFrame(mem: Memory, sp: Space, f: nat, i: nat, v: nat)
    requires SpaceOk(mem, sp) && PageAt(sp.areas, CONTEXT_VPN, f) && i < |sp.areas| && v in sp.areas[i].dataFrames
    ensures sp.areas[i].dataFrames[v] == f <==> v == CONTEXT_VPN
  {
    hide TableOk, FramesMatch, AreaMapped;
    var j :| 0 <= j < |sp.areas| && CONTEXT_VPN in sp.areas[j].dataFrames && sp.areas[j].dataFrames[CONTEXT_VPN] == f;
    assert RangeOk(sp.areas[i]) && RangeOk(sp.areas[j]);
  }

  lemma ContextForked(mem0: Memory, mem: Memory, mem': Memory, parent: seq<MapArea>, child: Space, f: nat, top: nat)
    requires SpaceOk(mem, child) && SameBytes(mem0, mem, parent, child.areas) && PageAt(child.areas, CONTEXT_VPN, f)
    requires f in mem && mem' == mem[f := Patched(Patched(mem[f], KERNEL_SP, [top]), A0, [0])]
    ensures ForkedBytes(mem0, mem', parent, child.areas, top)
  {
    hide SpaceOk, PageAt, Patched;
    forall i, v | 0 <= i < |parent| && parent[i].Contains(v)
      ensures v in parent[i].dataFrames && v in child.areas[i].dataFrames && parent[i].dataFrames[v] in mem0
      ensures child.areas[i].dataFrames[v] in mem'
      ensures mem'[child.areas[i].dataFrames[v]] == ForkedPage(v, mem0[parent[i].dataFrames[v]], top)
    {
      assert Copied(mem0, mem, parent[i], child.areas[i], parent[i].end);
      ContextFrame(mem, child, f, i, v);
    }
    assert forall i | 0 <= i < |parent| :: Copied(mem0, mem, parent[i], child.areas[i], parent[i].end);
  }

  /** The child's trap context, word by word: a0 is 0, the kernel's stack pointer is at the top of the child's own
      kernel stack, and the rest is the parent's. */
  ghost predicate ForkedContext(mem0: Memory, mem: Memory, parent: seq<MapArea>, child: seq<MapArea>, pid: nat) {
    exists f0, f :: PageAt(parent, 0x7FF_FFFE, f0) && PageAt(child, 0x7FF_FFFE, f) && f0 in mem0 && f in mem
                    && mem[f][10] == 0 && mem[f][35] == 0xFFFF_FFFF_FFFF_F000 - 12288 * pid
                    && forall i | 0 <= i < 512 && i != 10 && i != 35 :: mem[f][i] == mem0[f0][i]
  }

  lemma ForkedWords(mem0: Memory, mem: Memory, parent: seq<MapArea>, child: seq<MapArea>, pid: nat)
    requires HasPage(parent, CONTEXT_VPN) && StackFits(pid)
             && ForkedBytes(mem0, mem, parent, child, KernelStackPosition(pid).1)
    ensures ForkedContext(mem0, mem, parent, child, pid)
  {
    var i :| 0 <= i < |parent| && parent[i].framed && parent[i].Contains(CONTEXT_VPN);
    var f0, f := parent[i].dataFrames[CONTEXT_VPN], child[i].dataFrames[CONTEXT_VPN];
    assert PageAt(parent, 0x7FF_FFFE, f0) && PageAt(child, 0x7FF_FFFE, f);
  }

  /** `sstatus` with SPP set to the user mode. */
  function UserStatus(sstatus: nat): nat {
    sstatus - 256 * (sstatus / 256 % 2)
  }

  /** `TrapContext::app_init_context`. */
  function InitContext(entry: nat, sp: nat, satp: nat, kernelSp: nat, handler: nat, sstatus: nat): (words: seq<nat>)
    ensures |words| == 37
  {
    seq(32, i => if i == 2 then sp else 0) + [UserStatus(sstatus), entry, satp, kernelSp, handler]
  }

  /** A program's first trap context, word by word: x2 is where the stack's area ends and the other registers are 0;
      then sstatus with bit 8 clear, the entry point, Sv39 with the root of the kernel's table, the top of the task's
      own kernel stack, and the trap handler. */
  ghost predicate StartContext(mem: Memory, areas: seq<MapArea>, stack: nat, root: nat, pid: nat, entry: nat,
                               handler: nat, sstatus: nat) {
    stack < |areas| && exists f :: PageAt(areas, 0x7FF_FFFE, f) && f in mem
                                   && StartWords(mem[f], 4096 * areas[stack].end, 0x8000_0000_0000_0000 + root,
                                                 0xFFFF_FFFF_FFFF_F000 - 12288 * pid, entry, handler, sstatus)
  }

  ghost predicate StartWords(f: Frame, sp: nat, satp: nat, kernelSp: int, entry: nat, handler: nat, sstatus: nat) {
    && f[2] == sp && (forall i | 0 <= i < 32 && i != 2 :: f[i] == 0)
    && f[32] / 256 % 2 == 0 && f[32] + (if sstatus / 256 % 2 == 1 then 256 else 0) == sstatus
    && f[33] == entry && f[34] == satp && f[35] == kernelSp && f[36] == handler
    && (forall i | 37 <= i < 512 :: f[i] == 0)
  }

  lemma StatusCleared(s: nat)
    ensures UserStatus(s) / 256 % 2 == 0 && UserStatus(s) + (if s / 256 % 2 == 1 then 256 else 0) == s
  {
  }

  lemma FirstWords(entry: nat, sp: nat, satp: nat, kernelSp: nat, handler: nat, sstatus: nat)
    ensures StartWords(Patched(ZeroFrame(), 0, InitContext(entry, sp, satp, kernelSp, handler, sstatus)), sp, satp,
                       kernelSp, entry, handler, sstatus)
  {
    hide UserStatus;
    StatusCleared(sstatus);
  }

  /** Where a new program's stack begins: the address behind its two pages. */
  function StackTop(loads: seq<Segment>): nat {
    4096 * Image(loads)[|loads|].end
  }

  /** Area for area, the program's pages are in place. */
  ghost predicate Loaded(mem: Memory, segments: seq<Segment>, areas: seq<MapArea>) {
    |areas| == |segments| && forall i | 0 <= i < |segments| :: Holds(mem, segments[i], areas[i], segments[i].end)
  }

  /** It stays so while its frames are spared. */
  lemma LoadedStill(mem: Memory, mem': Memory, segments: seq<Segment>, child: Space, others: set<nat>)
    requires Loaded(mem, segments, child.areas) && Spared(mem, mem', others)
    requires forall p | p in Owned(child) :: p in others
    ensures Loaded(mem', segments, child.areas)
  {
    hide Owned, DataFrames, ZeroFrame;
    forall i | 0 <= i < |segments| ensures Holds(mem', segments[i], child.areas[i], segments[i].end) {
      assert Holds(mem, segments[i], child.areas[i], segments[i].end);
      forall v | v in child.areas[i].dataFrames ensures child.areas[i].dataFrames[v] in Owned(child) {
        DataOwned(child, i, v);
      }
    }
  }

  lemma LoadedFacts(mem0: Memory, mem: Memory, live0: set<nat>, live: set<nat>, segments: seq<Segment>, child: Space)
    requires LoadedUpTo(mem0, mem, live0, live, segments, child, |segments|)
    ensures SpaceOk(mem, child) && Loaded(mem, segments, child.areas) && Owned(child) == live - live0 && live0 <= live
  {
    hide SpaceOk, Holds, Owned;
  }

  /** Segment for segment, the space has the program's pages and permissions with the program's contents, and the given
      trap context. */
  ghost predicate Started(mem: Memory, segments: seq<Segment>, areas: seq<MapArea>, context: seq<nat>)
    requires |context| <= 512
  {
    && |areas| == |segments|
    && forall i | 0 <= i < |segments| ::
         && areas[i].start == segments[i].start && areas[i].end == segments[i].end && areas[i].perm == segments[i].perm
         && forall v: nat | segments[i].Contains(v) ::
              && v in areas[i].dataFrames && areas[i].dataFrames[v] in mem
              && mem[areas[i].dataFrames[v]] ==
                 if v == CONTEXT_VPN then Patched(segments[i].Page(v), 0, context) else segments[i].Page(v)
  }

  lemma ContextLoaded(mem: Memory, mem': Memory, segments: seq<Segment>, child: Space, f: nat, context: seq<nat>)
    requires SpaceOk(mem, child) && Loaded(mem, segments, child.areas) && |context| <= 512
    requires PageAt(child.areas, CONTEXT_VPN, f) && f in mem && mem' == mem[f := Patched(mem[f], 0, context)]
    ensures Started(mem', segments, child.areas, context)
  {
    hide SpaceOk, PageAt, Patched, ZeroFrame;
    forall i, v: nat | 0 <= i < |segments| && segments[i].Contains(v)
      ensures v in child.areas[i].dataFrames && child.areas[i].dataFrames[v] in mem'
      ensures mem'[child.areas[i].dataFrames[v]] ==
              if v == CONTEXT_VPN then Patched(segments[i].Page(v), 0, context) else segments[i].Page(v)
    {
      assert Holds(mem, segments[i], child.areas[i], segments[i].end);
      ContextFrame(mem, child, f, i, v);
    }
    assert forall i | 0 <= i < |segments| :: Holds(mem, segments[i], child.areas[i], segments[i].end);
  }

  lemma StartedFrame(mem: Memory, loads: seq<Segment>, areas: seq<MapArea>, context: seq<nat>) returns (f: nat)
    requires |context| <= 512 && Started(mem, Image(loads), areas, context)
    ensures |areas| == |loads| + 2 && 4096 * areas[|loads|].end == StackTop(loads)
    ensures PageAt(areas, CONTEXT_VPN, f) && f in mem && mem[f] == Patched(ZeroFrame(), 0, context)
  {
    hide Patched, ZeroFrame;
    var s := Image(loads)[|loads| + 1];
    assert s.Contains(CONTEXT_VPN) && s.Page(CONTEXT_VPN) == ZeroFrame();
    f := areas[|loads| + 1].dataFrames[CONTEXT_VPN];
  }

  lemma StartedWords(mem: Memory, loads: seq<Segment>, areas: seq<MapArea>, root: nat, pid: nat, entry: nat,
                     handler: nat, sstatus: nat)
    requires StackFits(pid) && root < PPN_LIMIT
    requires Started(mem, Image(loads), areas, InitContext(entry, StackTop(loads), Token(root),
                                                           KernelStackPosition(pid).1, handler, sstatus))
    ensures StartContext(mem, areas, |loads|, root, pid, entry, handler, sstatus)
  {
    hide InitContext, StartWords, Patched, ZeroFrame, Token, Started, Image, PageAt;
    var top := KernelStackPosition(pid).1;
    TokenFormat(root);
    var f := StartedFrame(mem, loads, areas, InitContext(entry, StackTop(loads), Token(root), top, handler, sstatus));
    FirstWords(entry, StackTop(loads), Token(root), top, handler, sstatus);
  }

  class Machine {
    const kernel: Kernel
    const memory: AddressSpaces
    var home: map<Ref, MemorySet>

    /** The kernel's space is the first; the others belong to tasks. */
    ghost predicate Wired()
      reads memory
    {
      kernel.stacks.fm == memory.fm && |memory.spaces| > 0 && memory.spaces[0] == kernel.stacks.space
    }

    ghost predicate Valid()
      reads this, kernel, kernel.stacks, kernel.stacks.pids, kernel.stacks.fm, kernel.stacks.space,
            kernel.stacks.space.table
      reads memory, memory.fm, memory.spaces, set s | s in memory.spaces :: s.table
    {
      kernel.Valid() && memory.Valid() && Wired() && Settled(home, kernel.heap, memory.spaces[1..])
    }

    /** The frames a task's space owns: its table's nodes and its pages. */
    ghost function TaskFrames(r: Ref): set<nat>
      reads this, home.Values, set s | s in home.Values :: s.table
    {
      if r in home then Owned(home[r].Snap()) else {}
    }

    ghost function KernelFrames(): set<nat>
      reads kernel.stacks.space, kernel.stacks.space.table
    {
      Owned(kernel.stacks.space.Snap())
    }

    ghost function CurrentAreas(): seq<MapArea>
      reads this, kernel, home.Values
    {
      if kernel.current.Some? && kernel.current.value in home then home[kernel.current.value].areas else []
    }

    lemma CurrentFurnished()
      requires Valid() && InUser(kernel.Now())
      ensures HasPage(CurrentAreas(), CONTEXT_VPN)
    {
      hide Inv, HasPage, Settled, SpaceOk, Laid, LiveFrames;
      hide AddressSpaces.Valid, KernelStacks.Valid;
      kernel.Parts();
      CurrentKnown(kernel.Now());
      SettledAt(home, kernel.heap, memory.spaces[1..], kernel.current.value);
    }

    /** The kernel's space is no task's. */
    lemma KernelApart()
      requires memory.Valid() && Wired()
      ensures kernel.stacks.space !in memory.spaces[1..]
              && forall s | s in memory.spaces[1..] :: s.table != kernel.stacks.space.table
      ensures forall i, j | 0 <= i < j < |memory.spaces[1..]| :: memory.spaces[1..][i] != memory.spaces[1..][j]
    {
      hide AddressSpaces.Valid;
      memory.Apart();
    }

    /** After boot: the kernel's space, initproc's, and whatever the block device has taken. */
    constructor (kernel: Kernel, memory: AddressSpaces, ghost pid: nat)
      requires kernel.Valid() && memory.Valid() && kernel.stacks.fm == memory.fm
               && kernel.Now() == Boot(kernel.initproc, pid)
      requires |memory.spaces| == 2 && memory.spaces[0] == kernel.stacks.space && UserAreas(memory.spaces[1].areas)
      requires HasPage(memory.spaces[1].areas, CONTEXT_VPN)
      ensures Valid() && this.kernel == kernel && this.memory == memory
              && home == map[kernel.initproc := memory.spaces[1]]
    {
      hide Inv, UserAreas, HasPage, Kernel.Valid, AddressSpaces.Valid;
      this.kernel, this.memory := kernel, memory;
      home := map[kernel.initproc := memory.spaces[1]];
      new;
      assert kernel.heap == Boot(kernel.initproc, pid).heap && home[kernel.initproc] == memory.spaces[1];
      assert memory.spaces[1..] == [memory.spaces[1]];
    }

    /** A turn of the scheduler, a yield, and the two ends of a read touch no memory. */
    method Quiet(step: Step)
      requires Valid() && Enabled(kernel.Now(), step)
               && (step.Fetch? || step.Suspend? || step.StartRead? || step.EndRead?)
      modifies kernel
      ensures kernel.Now() == After(old(kernel.Now()), step) && Valid()
    {
      hide Inv, Settled, Fetched, Suspended, ReadStarted, ReadEnded, Kernel.Valid, AddressSpaces.Valid;
      ghost var s := kernel.Now();
      kernel.Parts();
      QuietBlocks(s, step);
      match step {
        case Fetch => var _ := kernel.Dispatch();
        case Suspend => kernel.SuspendCurrent();
        case StartRead => kernel.BeginRead();
        case EndRead => kernel.FinishRead();
      }
      SettledStill(home, s.heap, kernel.heap, memory.spaces[1..]);
    }

    /** `exit_current_and_run_next`: the task's data frames return at once, its page table stays. */
    method Exit(code: int) returns (ok: bool)
      requires Valid() && InUser(kernel.Now())
      modifies kernel, memory.fm, memory.spaces
      ensures ok == (old(kernel.current).value != kernel.initproc)
      ensures ok ==> home == old(home) && memory.spaces == old(memory.spaces)
      ensures ok ==> Enabled(old(kernel.Now()), Step.Exit(code))
                     && kernel.Now() == After(old(kernel.Now()), Step.Exit(code))
      ensures ok ==> memory.fm.Live() == old(memory.fm.Live()) - DataFrames(old(CurrentAreas()))
      ensures ok ==> memory.fm.mem == old(memory.fm.mem)
                     && AreasOf(home) == old(AreasOf(home))[old(kernel.current.value) := []]
      ensures ok ==> Valid()
    {
      hide Inv, SpaceOk, Laid, LiveFrames, AllocatorOk, DataFrames, After, Enabled, Settled, AreasOf;
      hide Kernel.Valid, AddressSpaces.Valid, KernelStacks.Valid, MemorySet.Valid, FrameMemory.Valid;
      var task := kernel.current.value;
      ghost var s, tasks := kernel.Now(), memory.spaces[1..];
      kernel.Parts();
      CurrentKnown(s);
      KernelApart();
      SettledAt(home, s.heap, tasks, task);
      SettledApart(home, s.heap, tasks, task);
      AreasLess(home, task);
      var k := memory.IndexOf(home[task]);
      assert home[task] == tasks[k - 1];
      SettledLess(home, s.heap, s.heap - {task}, tasks, task, k - 1);
      ok := kernel.ExitCurrent(code);
      if !ok { return; }
      ExitedBlocks(s, code);
      kernel.Parts();
      kernel.stacks.Parts();
      ghost var mem := memory.fm.mem;
      memory.Recycle(k);
      SettledEmpty(home, s.heap, kernel.heap, tasks, task, k - 1);
      AreasAgain(home, task);
      memory.SpaceValid(0);
      kernel.stacks.Survive(mem);
      kernel.Whole();
    }

    /** Half way through a fork: the last space has no block yet. */
    ghost predicate Pending(child: MemorySet)
      reads this, kernel, memory, memory.spaces
    {
      var n := |memory.spaces| - 1;
      && n > 0 && memory.spaces[n] == child && child !in memory.spaces[..n] && UserAreas(child.areas)
      && HasPage(child.areas, CONTEXT_VPN)
      && Settled(home, kernel.heap, memory.spaces[1..n])
    }

    /** The first half of `fork`: the copy of the current task's address space. */
    method CopySpace(parent: MemorySet, trampoline: nat) returns (ok: bool, child: MemorySet)
      requires Valid() && parent in memory.spaces[1..] && UserAreas(parent.areas) && trampoline < PPN_LIMIT
      requires HasPage(parent.areas, CONTEXT_VPN)
      modifies memory, memory.fm
      ensures ok ==> memory.spaces == old(memory.spaces) + [child] && fresh(child) && fresh(child.table)
                     && memory.queueFrames == old(memory.queueFrames)
      ensures ok ==> Spared(old(memory.fm.mem), memory.fm.mem, old(memory.fm.Live()))
      ensures ok ==> Owned(child.Snap()) == memory.fm.Live() - old(memory.fm.Live())
                     && old(memory.fm.Live()) <= memory.fm.Live() && Owned(child.Snap()) !! KernelFrames()
      ensures ok ==> CopiedUpTo(old(memory.fm.mem), memory.fm.mem, old(memory.fm.Live()), memory.fm.Live(),
                                parent.Snap(), child.Snap(), |parent.areas|)
      ensures old(memory.fm.Available()) >= 3 + 3 * TotalPages(parent.areas) ==>
                ok && memory.fm.Available() >= old(memory.fm.Available()) - 3 - 3 * TotalPages(parent.areas)
      ensures ok ==> kernel.Valid() && memory.Valid() && Wired() && Pending(child)
    {
      hide Inv, SpaceOk, Laid, LiveFrames, AllocatorOk, CopiedUpTo, Spared, TotalPages, Owned, Settled, HasPage;
      hide Kernel.Valid, AddressSpaces.Valid, KernelStacks.Valid, MemorySet.Valid, FrameMemory.Available;
      kernel.Parts();
      kernel.stacks.Parts();
      ghost var mem, live, spaces := memory.fm.mem, memory.fm.Live(), memory.spaces;
      child := parent;
      var k := memory.IndexOf(parent);
      memory.OwnedLive(0);
      ok := memory.ForkSpace(k, trampoline);
      if !ok { return; }
      child := memory.spaces[|memory.spaces| - 1];
      memory.SpaceValid(0);
      SparedFrames(mem, memory.fm.mem, live, kernel.stacks.space.Snap());
      kernel.stacks.Survive(mem);
      kernel.Whole();
      CopyUserAreas(mem, memory.fm.mem, live, memory.fm.Live(), parent.Snap(), child.Snap());
      ForkedOwns(mem, memory.fm.mem, live, memory.fm.Live(), parent.Snap(), child.Snap());
      memory.OwnedApart(0, |spaces|);
      assert memory.spaces[..|spaces|] == spaces && memory.spaces[1..|spaces|] == spaces[1..];
    }

    /** The second half: the child's pid, kernel stack and control block. */
    method Enlist(addr: Ref) returns (ok: bool, pid: nat)
      requires kernel.Valid() && memory.Valid() && Wired() && InUser(kernel.Now()) && addr !in kernel.heap
      modifies kernel, kernel.stacks.pids, memory.fm, kernel.stacks.space, kernel.stacks.space.table
      ensures ok ==> kernel.Valid() && memory.Valid() && Enabled(old(kernel.Now()), Step.Fork(addr, pid))
      ensures ok ==> kernel.Now() == After(old(kernel.Now()), Step.Fork(addr, pid))
      ensures ok ==> kernel.heap.Keys == old(kernel.heap.Keys) + {addr} && kernel.heap[addr].status != Zombie
      ensures ok ==> forall r | r in old(kernel.heap) ::
                     kernel.heap[r].status == Zombie <==> old(kernel.heap)[r].status == Zombie
      ensures ok ==> Spared(old(memory.fm.mem), memory.fm.mem, old(memory.fm.Live()) - old(KernelFrames()))
                     && StackFits(pid)
      ensures old(memory.fm.Available()) >= 6 ==> ok
    {
      hide Inv, SpaceOk, Laid, LiveFrames, AllocatorOk, Owned, After, Enabled, Conserved, Extended, Spared;
      hide Kernel.Valid, KernelStacks.Valid, FrameMemory.Available;
      ghost var s, mem, live, snaps := kernel.Now(), memory.fm.mem, memory.fm.Live(), memory.Snaps();
      kernel.Parts();
      ok, pid := kernel.ForkCurrent(addr);
      if !ok { return; }
      ForkedBlocks(s, addr, pid);
      kernel.Parts();
      kernel.stacks.Parts();
      HasRoot(memory.fm.mem, kernel.stacks.space.table.nodes);
      assert memory.Snaps() == snaps[0 := memory.spaces[0].Snap()];
      memory.Rejoined(mem, live, snaps, 0);
    }

    /** The child's block gets the child's space. */
    method Admit(addr: Ref, child: MemorySet) returns (ok: bool, pid: nat)
      requires kernel.Valid() && memory.Valid() && Wired() && Pending(child) && InUser(kernel.Now())
               && addr !in kernel.heap
      modifies this, kernel, kernel.stacks.pids, memory.fm, kernel.stacks.space, kernel.stacks.space.table
      ensures ok ==> home == old(home)[addr := child] && child.areas == old(child.areas)
      ensures ok ==> Enabled(old(kernel.Now()), Step.Fork(addr, pid))
                     && kernel.Now() == After(old(kernel.Now()), Step.Fork(addr, pid))
      ensures ok ==> Spared(old(memory.fm.mem), memory.fm.mem, old(memory.fm.Live()) - old(KernelFrames()))
                     && StackFits(pid)
      ensures ok ==> AreasOf(home) - {addr} == old(AreasOf(home))
      ensures old(memory.fm.Available()) >= 6 ==> ok
      ensures ok ==> Valid()
    {
      hide Inv, After, Enabled, Spared, Settled, Owned, LiveFrames, HasPage, AreasOf, UserAreas, StackFits;
      hide Kernel.Valid, AddressSpaces.Valid, FrameMemory.Available, Machine.KernelFrames;
      ghost var s, n := kernel.Now(), |memory.spaces| - 1;
      ghost var tasks := memory.spaces[1..n];
      KernelApart();
      assert memory.spaces[1..] == tasks + [child] && child in memory.spaces[1..];
      SettledHomes(home, s.heap, tasks);
      assert kernel.stacks.space !in tasks && kernel.stacks.space !in home.Values;
      ok, pid := Enlist(addr);
      if !ok { return; }
      assert Settled(home, s.heap, tasks) && AreasOf(home) == old(AreasOf(home));
      SettledMore(home, s.heap, kernel.heap, tasks, addr, child);
      AreasMore(home, addr, child);
      home := home[addr := child];
    }

    /** The trap context of a task is written; no other page changes. */
    method SetContext(k: nat, at: nat, words: seq<nat>) returns (ghost f: nat)
      requires 1 <= k < |memory.spaces| && at + |words| <= 512 && HasPage(memory.spaces[k].areas, CONTEXT_VPN)
      requires Valid()
      modifies memory.fm`mem
      ensures PageAt(memory.spaces[k].areas, CONTEXT_VPN, f) && f in Owned(memory.spaces[k].Snap())
      ensures f in old(memory.fm.mem) && memory.fm.Live() == old(memory.fm.Live())
      ensures memory.fm.mem == old(memory.fm.mem)[f := Patched(old(memory.fm.mem)[f], at, words)]
      ensures Valid()
    {
      hide Inv, SpaceOk, Laid, LiveFrames, AllocatorOk, Owned, Settled, Patched, PageAt, HasPage;
      hide Kernel.Valid, AddressSpaces.Valid, KernelStacks.Valid, MemorySet.Valid;
      kernel.Parts();
      kernel.stacks.Parts();
      ghost var mem := memory.fm.mem;
      memory.OwnedApart(0, k);
      f := memory.Store(k, CONTEXT_VPN, at, words);
      memory.SpaceValid(0);
      kernel.stacks.Survive(mem);
      kernel.Whole();
    }

    /** The fork up to the child's trap context, which is still the parent's. */
    method Duplicate(addr: Ref, trampoline: nat) returns (ok: bool, pid: nat, child: MemorySet)
      requires Valid() && InUser(kernel.Now()) && addr !in kernel.heap && trampoline < PPN_LIMIT
      modifies this, kernel, kernel.stacks.pids, memory, memory.fm, kernel.stacks.space, kernel.stacks.space.table
      ensures ok ==> home == old(home)[addr := child] && fresh(child) && memory.queueFrames == old(memory.queueFrames)
                     && |memory.spaces| > 1 && memory.spaces[|memory.spaces| - 1] == child
                     && HasPage(child.areas, CONTEXT_VPN)
      ensures ok ==> Enabled(old(kernel.Now()), Step.Fork(addr, pid))
                     && kernel.Now() == After(old(kernel.Now()), Step.Fork(addr, pid))
      ensures ok ==> SameBytes(old(memory.fm.mem), memory.fm.mem, old(CurrentAreas()), child.areas)
      ensures ok ==> Spared(old(memory.fm.mem), memory.fm.mem, old(memory.fm.Live()) - old(KernelFrames()))
      ensures ok ==> Owned(child.Snap()) !! old(memory.fm.Live()) && StackFits(pid)
      ensures ok ==> AreasOf(home) - {addr} == old(AreasOf(home))
      ensures old(memory.fm.Available()) >= 9 + 3 * TotalPages(old(CurrentAreas())) ==> ok
      ensures ok ==> Valid()
    {
      hide Inv, LiveFrames, Owned, After, Enabled, CopiedUpTo, TotalPages, Spared, SameBytes, UserAreas, Settled,
           HasPage,
           AreasOf;
      hide SpaceOk, StackFits, Laid, Kernel.Valid, AddressSpaces.Valid, KernelStacks.Valid, FrameMemory.Valid,
           FrameMemory.Available, Machine.KernelFrames;
      kernel.Parts();
      CurrentKnown(kernel.Now());
      KernelApart();
      SettledAt(home, kernel.heap, memory.spaces[1..], kernel.current.value);
      SettledHomes(home, kernel.heap, memory.spaces[1..]);
      var parent := home[kernel.current.value];
      ghost var sp, mem0, live0 := parent.Snap(), memory.fm.mem, memory.fm.Live();
      pid := 0;
      ok, child := CopySpace(parent, trampoline);
      if !ok { return; }
      ghost var mem1, live1, copy, own := memory.fm.mem, memory.fm.Live(), child.Snap(), KernelFrames();
      ok, pid := Admit(addr, child);
      if !ok { return; }
      ChildCopied(mem0, mem1, memory.fm.mem, live0, live1, sp, copy, own);
      SparedTwice(mem0, mem1, memory.fm.mem, live0, live1, own);
    }

    /** `sys_fork`: the child runs in a copy of the parent's space, with a kernel stack of its own and 0 as the result
        of the call; no frame is shared, and no frame of another task is written. */
    method Fork(addr: Ref, trampoline: nat) returns (ok: bool, pid: nat)
      requires Valid() && InUser(kernel.Now()) && addr !in kernel.heap && trampoline < PPN_LIMIT
      modifies this, kernel, kernel.stacks.pids, memory, memory.fm, kernel.stacks.space, kernel.stacks.space.table
      ensures ok ==> addr in home && home == old(home)[addr := home[addr]] && fresh(home[addr])
                     && memory.queueFrames == old(memory.queueFrames)
      ensures ok ==> Enabled(old(kernel.Now()), Step.Fork(addr, pid))
                     && kernel.Now() == After(old(kernel.Now()), Step.Fork(addr, pid))
      ensures ok ==> StackFits(pid) && ForkedBytes(old(memory.fm.mem), memory.fm.mem, old(CurrentAreas()),
                                                   home[addr].areas, KernelStackPosition(pid).1)
      ensures ok ==> ForkedContext(old(memory.fm.mem), memory.fm.mem, old(CurrentAreas()), home[addr].areas, pid)
      ensures ok ==> Spared(old(memory.fm.mem), memory.fm.mem, old(memory.fm.Live()) - old(KernelFrames()))
      ensures ok ==> AreasOf(home) - {addr} == old(AreasOf(home))
      ensures old(memory.fm.Available()) >= 9 + 3 * TotalPages(old(CurrentAreas())) ==> ok
      ensures ok ==> Valid()
    {
      hide Inv, LiveFrames, Owned, After, Enabled, CopiedUpTo, TotalPages, Spared, SameBytes, UserAreas, Settled,
           HasPage,
           AreasOf;
      hide ForkedBytes, ForkedContext, PageAt, Patched, SpaceOk, KernelStackPosition;
      hide Kernel.Valid, AddressSpaces.Valid, FrameMemory.Available;
      ghost var mem0, kernelFrames, live0 := memory.fm.mem, KernelFrames(), memory.fm.Live();
      CurrentFurnished();
      var child;
      ok, pid, child := Duplicate(addr, trampoline);
      if !ok { return; }
      ghost var mem := memory.fm.mem;
      var k := |memory.spaces| - 1;
      memory.SpaceValid(k);
      var (_, top) := KernelStackPosition(pid);
      ghost var f := SetContext(k, KERNEL_SP, [top]);
      ghost var f' := SetContext(k, A0, [0]);
      SameContextFrame(mem, child.Snap(), f, f');
      ContextForked(mem0, mem, memory.fm.mem, old(CurrentAreas()), child.Snap(), f, top);
      ForkedWords(mem0, memory.fm.mem, old(CurrentAreas()), child.areas, pid);
      SparedBut(mem0, mem, memory.fm.mem, live0 - kernelFrames, f);
    }

    /** The first half of `exec`: the new program's address space, while the old one is still there. */
    method Prepare(loads: seq<Segment>, trampoline: nat) returns (ok: bool, child: MemorySet)
      requires Valid() && trampoline < PPN_LIMIT && Loadable(Image(loads))
      modifies memory, memory.fm
      ensures ok ==> memory.spaces == old(memory.spaces) + [child] && fresh(child) && fresh(child.table)
                     && memory.queueFrames == old(memory.queueFrames)
      ensures ok ==> LoadedUpTo(old(memory.fm.mem), memory.fm.mem, old(memory.fm.Live()), memory.fm.Live(),
                                Image(loads), child.Snap(), |loads| + 2)
      ensures ok ==> Spared(old(memory.fm.mem), memory.fm.mem, old(memory.fm.Live()))
      ensures old(memory.fm.Available()) >= 3 + 3 * PagesOf(Image(loads)) ==> ok
      ensures ok ==> kernel.Valid() && memory.Valid() && Wired() && Pending(child)
    {
      hide Inv, SpaceOk, Laid, LiveFrames, AllocatorOk, LoadedUpTo, Spared, PagesOf, Owned, Settled, HasPage, Image,
           Loadable;
      hide Kernel.Valid, AddressSpaces.Valid, KernelStacks.Valid, MemorySet.Valid, FrameMemory.Available;
      kernel.Parts();
      kernel.stacks.Parts();
      ghost var mem, live, spaces := memory.fm.mem, memory.fm.Live(), memory.spaces;
      child := memory.spaces[0];
      memory.OwnedLive(0);
      ok := memory.LoadSpace(loads, trampoline);
      if !ok { return; }
      child := memory.spaces[|memory.spaces| - 1];
      memory.SpaceValid(0);
      SparedFrames(mem, memory.fm.mem, live, kernel.stacks.space.Snap());
      kernel.stacks.Survive(mem);
      kernel.Whole();
      LoadUserAreas(mem, memory.fm.mem, live, memory.fm.Live(), loads, child.Snap());
      assert memory.spaces[..|spaces|] == spaces && memory.spaces[1..|spaces|] == spaces[1..];
    }

    /** The current task moves to the new space, and the old one is dropped. */
    method Replace(child: MemorySet)
      requires kernel.Valid() && memory.Valid() && Wired() && Pending(child) && InUser(kernel.Now())
      modifies this, memory, memory.fm
      ensures home == old(home)[kernel.current.value := child] && memory.queueFrames == old(memory.queueFrames)
      ensures |memory.spaces| > 1 && memory.spaces[|memory.spaces| - 1] == child
      ensures memory.fm.mem == old(memory.fm.mem)
              && memory.fm.Live() == old(memory.fm.Live()) - old(TaskFrames(kernel.current.value))
      ensures AreasOf(home) - {kernel.current.value} == old(AreasOf(home)) - {kernel.current.value}
      ensures Valid()
    {
      hide Inv, SpaceOk, Laid, LiveFrames, AllocatorOk, Owned, Settled, HasPage, UserAreas, AreasOf;
      hide Kernel.Valid, KernelStacks.Valid, AddressSpaces.Valid, MemorySet.Valid;
      kernel.Parts();
      kernel.stacks.Parts();
      KernelApart();
      CurrentKnown(kernel.Now());
      var task := kernel.current.value;
      ghost var mem, heap, n := memory.fm.mem, kernel.heap, |memory.spaces| - 1;
      ghost var tasks := memory.spaces[1..n];
      SettledAt(home, heap, tasks, task);
      var k := memory.IndexOf(home[task]);
      assert home[task] == tasks[k - 1] && child !in tasks;
      SettledSwap(home, heap, tasks, task, k - 1, child);
      memory.Drop(k);
      assert memory.spaces[1..] == tasks[..k - 1] + tasks[k..] + [child];
      home := home[task := child];
      memory.SpaceValid(0);
      kernel.stacks.Survive(mem);
      kernel.Whole();
    }

    /** The exec up to the trap context, which is still zero. */
    method Reload(loads: seq<Segment>, trampoline: nat) returns (ok: bool, child: MemorySet)
      requires Valid() && InUser(kernel.Now()) && trampoline < PPN_LIMIT && Loadable(Image(loads))
      modifies this, memory, memory.fm
      ensures ok ==> home == old(home)[kernel.current.value := child] && fresh(child)
                     && memory.queueFrames == old(memory.queueFrames)
      ensures ok ==> |memory.spaces| > 1 && memory.spaces[|memory.spaces| - 1] == child
                     && HasPage(child.areas, CONTEXT_VPN)
      ensures ok ==> SpaceOk(memory.fm.mem, child.Snap()) && Loaded(memory.fm.mem, Image(loads), child.areas)
      ensures ok ==> Spared(old(memory.fm.mem), memory.fm.mem, old(memory.fm.Live()))
      ensures ok ==> Owned(child.Snap()) !! old(memory.fm.Live())
                     && memory.fm.Live() == old(memory.fm.Live()) - old(TaskFrames(kernel.current.value))
                                            + Owned(child.Snap())
      ensures ok ==> AreasOf(home) - {kernel.current.value} == old(AreasOf(home)) - {kernel.current.value}
      ensures old(memory.fm.Available()) >= 3 + 3 * PagesOf(Image(loads)) ==> ok
      ensures ok ==> Valid()
    {
      hide Inv, LiveFrames, LoadedUpTo, Spared, PagesOf, Owned, Settled, HasPage, Image, Loadable, AreasOf, SpaceOk,
           Loaded;
      hide Kernel.Valid, AddressSpaces.Valid, FrameMemory.Available, Machine.TaskFrames, Furnished, KernelStacks.Valid,
           FrameMemory.Valid, Inv, Laid;
      ghost var mem0, live0 := memory.fm.mem, memory.fm.Live();
      kernel.Parts();
      CurrentKnown(kernel.Now());
      SettledAt(home, kernel.heap, memory.spaces[1..], kernel.current.value);
      FramesOfTask(kernel.current.value);
      ok, child := Prepare(loads, trampoline);
      if !ok { return; }
      LoadedFacts(mem0, memory.fm.mem, live0, memory.fm.Live(), Image(loads), child.Snap());
      Replace(child);
    }

    /** `exec`, once the file has been parsed: the current task gets a fresh space with the program in it and a trap
        context to start it, and every frame of its old space returns. No frame that was in use is written. */
    method Exec(loads: seq<Segment>, trampoline: nat, entry: nat, handler: nat, sstatus: nat)
      returns (ok: bool, ghost context: seq<nat>)
      requires Valid() && InUser(kernel.Now()) && trampoline < PPN_LIMIT && Loadable(Image(loads))
      modifies this, memory, memory.fm
      ensures ok ==> var task := kernel.current.value;
                     && task in home && fresh(home[task]) && home == old(home)[task := home[task]]
                     && AreasOf(home) - {task} == old(AreasOf(home)) - {task}
      ensures ok ==> var pid := kernel.heap[kernel.current.value].pid;
                     StartContext(memory.fm.mem, home[kernel.current.value].areas, |loads|,
                                  kernel.stacks.space.table.root, pid, entry, handler, sstatus)
      ensures ok ==> var pid := kernel.heap[kernel.current.value].pid;
                     StackFits(pid)
                     && context == InitContext(entry, StackTop(loads), Token(kernel.stacks.space.table.root),
                                               KernelStackPosition(pid).1, handler, sstatus)
      ensures ok ==> Started(memory.fm.mem, Image(loads), home[kernel.current.value].areas, context)
      ensures ok ==> Spared(old(memory.fm.mem), memory.fm.mem, old(memory.fm.Live()))
                     && memory.queueFrames == old(memory.queueFrames)
      ensures ok ==> memory.fm.Live() == old(memory.fm.Live()) - old(TaskFrames(kernel.current.value))
                                         + TaskFrames(kernel.current.value)
      ensures old(memory.fm.Available()) >= 3 + 3 * PagesOf(Image(loads)) ==> ok
      ensures ok ==> Valid()
    {
      hide Inv, LiveFrames, Spared, PagesOf, Owned, Settled, HasPage, Image, Loadable, Started, Loaded;
      hide AreasOf, PageAt, Patched, SpaceOk, KernelStackPosition, InitContext, Token, StartContext;
      hide Kernel.Valid, AddressSpaces.Valid, FrameMemory.Available;
      context := [];
      ghost var mem0, live0 := memory.fm.mem, memory.fm.Live();
      StackOfCurrent();
      var child;
      ok, child := Reload(loads, trampoline);
      if !ok { return; }
      ghost var mem := memory.fm.mem;
      var (_, top) := KernelStackPosition(kernel.heap[kernel.current.value].pid);
      KernelRoot();
      var satp := Token(kernel.stacks.space.table.root);
      var words := InitContext(entry, StackTop(loads), satp, top, handler, sstatus);
      context := words;
      ghost var f := SetContext(|memory.spaces| - 1, 0, words);
      ContextLoaded(mem, memory.fm.mem, Image(loads), child.Snap(), f, words);
      StartedWords(memory.fm.mem, loads, child.areas, kernel.stacks.space.table.root,
                   kernel.heap[kernel.current.value].pid, entry, handler, sstatus);
      SparedBut(mem0, mem, memory.fm.mem, live0, f);
    }

    lemma KernelRoot()
      requires kernel.Valid()
      ensures kernel.stacks.space.table.root < PPN_LIMIT
    {
      hide Inv, SpaceOk, Laid, FramesMatch, LiveFrames, AllocatorOk, Owned;
      kernel.Parts();
      kernel.stacks.Parts();
    }

    lemma StackOfCurrent()
      requires kernel.Valid() && InUser(kernel.Now())
      ensures kernel.current.value in kernel.heap && StackFits(kernel.heap[kernel.current.value].pid)
    {
      hide Laid, SpaceOk, TreeOk, SchedOk, CountsOk;
      KnownPid(kernel.stacks.fm.mem, kernel.stacks.space.Snap(), kernel.stacks.pids.Live(),
               kernel.heap[kernel.current.value].pid);
    }

    /** The kernel's part of `waitpid`; a collected task's stack frames return to the allocator. */
    method AskKernel(pid: Isize) returns (r: int, code: int, index: nat)
      requires kernel.Valid() && memory.Valid() && Wired() && InUser(kernel.Now())
      modifies kernel, kernel.stacks.pids, memory.fm, kernel.stacks.space
      ensures Answer(old(kernel.Now()), kernel.Now(), pid, r, code, index)
      ensures Replies(old(kernel.heap), old(kernel.heap[kernel.current.value].children), pid, r, code, index)
      ensures memory.fm.Live() == old(memory.fm.Live()) - (old(KernelFrames()) - KernelFrames())
      ensures Spared(old(memory.fm.mem), memory.fm.mem, old(memory.fm.Live()) - old(KernelFrames()))
      ensures r < 0 ==> unchanged(kernel, kernel.stacks.pids, memory.fm, kernel.stacks.space)
      ensures kernel.Valid() && memory.Valid()
    {
      hide Inv, SpaceOk, Laid, LiveFrames, AllocatorOk, Owned, Answer, Replies, Conserved, Shrunk, Spared;
      hide Kernel.Valid, KernelStacks.Valid;
      ghost var mem, live, snaps := memory.fm.mem, memory.fm.Live(), memory.Snaps();
      r, code, index := kernel.Waitpid(pid);
      ShrunkLive(mem, memory.fm.mem, live, memory.fm.Live(), snaps[0], kernel.stacks.space.Snap());
      kernel.Parts();
      kernel.stacks.Parts();
      assert memory.Snaps() == snaps[0 := memory.spaces[0].Snap()];
      memory.Rejoined(mem, live, snaps, 0);
    }

    /** A block is gone; its space goes with it. */
    method Dismiss(z: Ref, ghost heap: Heap)
      requires z in heap && z in home && |memory.spaces| > 0 && home[z] in memory.spaces[1..]
      requires kernel.heap.Keys == heap.Keys - {z}
               && forall r | r in kernel.heap :: kernel.heap[r].status == heap[r].status
      requires kernel.Valid() && memory.Valid() && Wired() && Settled(home, heap, memory.spaces[1..])
      modifies this, memory, memory.fm
      ensures memory.fm.Live() == old(memory.fm.Live()) - old(TaskFrames(z)) && KernelFrames() == old(KernelFrames())
      ensures memory.fm.mem == old(memory.fm.mem) && memory.queueFrames == old(memory.queueFrames)
      ensures home == old(home) - {z} && Valid()
    {
      hide Inv, SpaceOk, Laid, LiveFrames, AllocatorOk, Owned, Settled;
      hide Kernel.Valid, KernelStacks.Valid, AddressSpaces.Valid, MemorySet.Valid;
      kernel.Parts();
      kernel.stacks.Parts();
      KernelApart();
      ghost var mem, tasks := memory.fm.mem, memory.spaces[1..];
      var k := memory.IndexOf(home[z]);
      assert home[z] == tasks[k - 1];
      SettledLess(home, heap, kernel.heap, tasks, z, k - 1);
      memory.Drop(k);
      assert memory.spaces[1..] == tasks[..k - 1] + tasks[k..];
      home := home - {z};
      memory.SpaceValid(0);
      kernel.stacks.Survive(mem);
      kernel.Whole();
    }

    /** `sys_waitpid`: with the collected block go its stack, its page table and its pid. */
    method Waitpid(pid: Isize) returns (r: int, code: int, ghost index: nat, ghost z: Ref)
      requires Valid() && InUser(kernel.Now())
      modifies this, kernel, kernel.stacks.pids, memory, memory.fm, kernel.stacks.space
      ensures Answer(old(kernel.Now()), kernel.Now(), pid, r, code, index)
      ensures Replies(old(kernel.heap), old(kernel.heap[kernel.current.value].children), pid, r, code, index)
      ensures r < 0 ==> unchanged(this, kernel, kernel.stacks.pids, memory, memory.fm)
                        && AreasOf(home) == old(AreasOf(home))
      ensures r >= 0 ==> z == ChildAt(old(kernel.Now()), index) && z in old(home) && home == old(home) - {z}
      ensures r >= 0 ==> AreasOf(home) == old(AreasOf(home)) - {z} && memory.queueFrames == old(memory.queueFrames)
      ensures Spared(old(memory.fm.mem), memory.fm.mem, old(memory.fm.Live()) - old(KernelFrames()))
      ensures r >= 0 ==> memory.fm.Live() ==
                         old(memory.fm.Live()) - old(TaskFrames(z)) - (old(KernelFrames()) - KernelFrames())
      ensures Valid()
    {
      hide Inv, LiveFrames, Owned, Settled, AreasOf, Spared, Answer, Replies, After, Enabled;
      hide Kernel.Valid, AddressSpaces.Valid;
      ghost var s := kernel.Now();
      kernel.Parts();
      CurrentKnown(s);
      KernelApart();
      SettledHomes(home, s.heap, memory.spaces[1..]);
      assert kernel.stacks.space !in home.Values;
      var cs := kernel.heap[kernel.current.value].children;
      var i;
      r, code, i := AskKernel(pid);
      index, z := i, 0;
      assert AreasOf(home) == old(AreasOf(home));
      if r < 0 { return; }
      Collected(s, kernel.Now(), pid, r, code, i);
      z := cs[i];
      SettledAt(home, s.heap, memory.spaces[1..], z);
      AreasLess(home, z);
      Dismiss(cs[i], s.heap);
    }

    lemma Place(r: Ref) returns (k: nat)
      requires Valid() && r in home
      ensures 1 <= k < |memory.spaces| && memory.spaces[k] == home[r]
    {
      hide UserAreas;
      hide Kernel.Valid, AddressSpaces.Valid;
      var i :| 0 <= i < |memory.spaces[1..]| && memory.spaces[1..][i] == home[r];
      k := i + 1;
    }

    /** A frame is in use if and only if the block device holds it, or the kernel's space or some task's owns it. */
    lemma FrameOwned(p: nat)
      requires Valid()
      ensures p in memory.fm.Live() <==>
              p in memory.queueFrames || p in KernelFrames() || exists r :: r in home && p in TaskFrames(r)
    {
      hide UserAreas, HasPage, Owned, LiveFrames;
      hide Kernel.Valid, AddressSpaces.Valid;
      memory.OwnedLive(0);
      memory.QueueApart(0);
      if p in memory.queueFrames {
        assert p in memory.Queue();
      } else if p in memory.fm.Live() {
        var i := memory.OwnerOf(p);
        var owner := memory.spaces[i];
        if i > 0 {
          assert owner == memory.spaces[1..][i - 1];
          var r :| r in home && home[r] == owner;
          assert p in TaskFrames(r);
        }
      } else if r :| r in home && p in TaskFrames(r) {
        var k := Place(r);
        memory.OwnedLive(k);
      }
    }

    /** The block device holds none of the kernel's frames. */
    lemma QueueNotKernels()
      requires Valid()
      ensures memory.Queue() <= memory.fm.Live() && KernelFrames() !! memory.Queue()
    {
      hide Settled, Owned, LiveFrames;
      hide Kernel.Valid, AddressSpaces.Valid;
      memory.QueueApart(0);
    }

    /** A task shares no frame with the kernel or the block device, and a zombie holds its page table and no more. */
    lemma FramesOfTask(r: Ref)
      requires Valid() && r in home && r in kernel.heap
      ensures TaskFrames(r) <= memory.fm.Live() && TaskFrames(r) !! KernelFrames() && TaskFrames(r) !! memory.Queue()
      ensures kernel.heap[r].status == Zombie ==> TaskFrames(r) == set p | p in home[r].table.frames
    {
      hide UserAreas, HasPage, Owned, LiveFrames;
      hide Kernel.Valid, AddressSpaces.Valid;
      var i := Place(r);
      memory.OwnedApart(0, i);
      memory.OwnedLive(i);
      memory.QueueApart(i);
      assert Furnished(kernel.heap[r], home[r].areas);
    }

    /** No two tasks share a frame. */
    lemma FramesApart(r: Ref, q: Ref)
      requires Valid() && r in home && q in home && r != q
      ensures TaskFrames(r) !! TaskFrames(q)
    {
      hide UserAreas, Owned, LiveFrames;
      hide Kernel.Valid, AddressSpaces.Valid;
      var i := Place(r);
      var j := Place(q);
      memory.OwnedApart(if i < j then i else j, if i < j then j else i);
    }
  }

  // ---------------------------------------------------------------- boot

  /** The kernel's space and its stacks, over the allocator of all spaces. */
  ghost predicate Founded(stacks: KernelStacks, memory: AddressSpaces)
    reads stacks, stacks.pids, stacks.fm, stacks.space, stacks.space.table
    reads memory, memory.fm, memory.spaces, set s | s in memory.spaces :: s.table
  {
    && stacks.Valid() && memory.Valid() && stacks.fm == memory.fm && |memory.spaces| > 0
    && memory.spaces[0] == stacks.space
  }

  /** The block device takes the frames of its queue. */
  method TakeQueue(stacks: KernelStacks, memory: AddressSpaces, pages: nat) returns (ok: bool)
    requires Founded(stacks, memory)
    modifies memory, memory.fm
    ensures ok <==> pages <= old(memory.fm.Available()) && forall i | 0 <= i < pages ::
                    old(memory.fm.Order())[i] == old(memory.fm.Order())[0] + i
    ensures ok ==> memory.spaces == old(memory.spaces) && |memory.queueFrames| == |old(memory.queueFrames)| + pages
                   && memory.fm.Available() == old(memory.fm.Available()) - pages
    ensures ok ==> Founded(stacks, memory)
  {
    hide SpaceOk, Laid, LiveFrames, AllocatorOk, Owned, Spared, Fresh;
    hide AddressSpaces.Valid, KernelStacks.Valid, MemorySet.Valid, FrameMemory.Available, FrameMemory.Order;
    stacks.Parts();
    ghost var mem, live := memory.fm.mem, memory.fm.Live();
    memory.OwnedLive(0);
    memory.Sound();
    var base;
    ok, base := memory.DmaAlloc(pages);
    if !ok { return; }
    SparedFrames(mem, memory.fm.mem, live, stacks.space.Snap());
    memory.SpaceValid(0);
    stacks.Survive(mem);
  }

  /** The first program's address space. */
  method FirstSpace(stacks: KernelStacks, memory: AddressSpaces, loads: seq<Segment>, trampoline: nat)
    returns (ok: bool)
    requires Founded(stacks, memory) && trampoline < PPN_LIMIT && Loadable(Image(loads))
    modifies memory, memory.fm
    ensures ok ==> |memory.spaces| == |old(memory.spaces)| + 1
                   && memory.spaces[..|old(memory.spaces)|] == old(memory.spaces)
                   && memory.queueFrames == old(memory.queueFrames)
    ensures ok ==> fresh(memory.spaces[|old(memory.spaces)|]) && fresh(memory.spaces[|old(memory.spaces)|].table)
    ensures ok ==> var areas := memory.spaces[|old(memory.spaces)|].areas;
                   UserAreas(areas) && HasPage(areas, CONTEXT_VPN) && Loaded(memory.fm.mem, Image(loads), areas)
    ensures old(memory.fm.Available()) >= 3 + 3 * PagesOf(Image(loads)) ==>
              ok && memory.fm.Available() >= old(memory.fm.Available()) - 3 - 3 * PagesOf(Image(loads))
    ensures ok ==> Founded(stacks, memory)
  {
    hide SpaceOk, Laid, LiveFrames, AllocatorOk, LoadedUpTo, Spared, PagesOf, Owned, Image, Loadable, UserAreas,
         HasPage,
         Loaded;
    hide AddressSpaces.Valid, KernelStacks.Valid, MemorySet.Valid, FrameMemory.Available;
    stacks.Parts();
    ghost var mem, live := memory.fm.mem, memory.fm.Live();
    memory.OwnedLive(0);
    ok := memory.LoadSpace(loads, trampoline);
    if !ok { return; }
    LoadUserAreas(mem, memory.fm.mem, live, memory.fm.Live(), loads, memory.spaces[|memory.spaces| - 1].Snap());
    LoadedFacts(mem, memory.fm.mem, live, memory.fm.Live(), Image(loads), memory.spaces[|memory.spaces| - 1].Snap());
    SparedFrames(mem, memory.fm.mem, live, stacks.space.Snap());
    memory.SpaceValid(0);
    stacks.Survive(mem);
  }

  /** The first pid and its kernel stack. */
  method FirstStack(stacks: KernelStacks, memory: AddressSpaces) returns (ok: bool, pid: nat)
    requires Founded(stacks, memory) && stacks.pids.Live() == {}
    modifies stacks.pids, memory.fm, stacks.space, stacks.space.table
    ensures ok ==> stacks.pids.Live() == {pid} && StackFits(pid)
    ensures ok ==> Spared(old(memory.fm.mem), memory.fm.mem, old(memory.fm.Live()) - old(Owned(stacks.space.Snap())))
    ensures old(memory.fm.Available()) >= 6 ==> ok
    ensures ok ==> Founded(stacks, memory)
  {
    hide SpaceOk, Laid, LiveFrames, AllocatorOk, Owned, Conserved, Extended, OnlyMapped, Spared, StackUsable;
    hide KernelStacks.Valid, FrameMemory.Available;
    ghost var mem, live, snaps := memory.fm.mem, memory.fm.Live(), memory.Snaps();
    ok, pid := stacks.Create();
    if !ok { return; }
    stacks.Parts();
    HasRoot(memory.fm.mem, stacks.space.table.nodes);
    assert memory.Snaps() == snaps[0 := memory.spaces[0].Snap()];
    memory.Rejoined(mem, live, snaps, 0);
  }

  /** From the kernel's own space to the first task, in the order of `rust_main` and `TaskControlBlock::new`. */
  method Start(stacks: KernelStacks, memory: AddressSpaces, pages: nat, loads: seq<Segment>, trampoline: nat, init: Ref)
    returns (machine: Option<Machine>, pid: nat)
    requires Founded(stacks, memory) && |memory.spaces| == 1 && stacks.pids.Live() == {}
    requires trampoline < PPN_LIMIT && Loadable(Image(loads))
    modifies memory, memory.fm, stacks.pids, stacks.space, stacks.space.table
    ensures machine.Some? ==> fresh(machine.value) && machine.value.memory == memory
                              && machine.value.kernel.stacks == stacks && machine.value.kernel.Now() == Boot(init, pid)
                              && |memory.queueFrames| == |old(memory.queueFrames)| + pages && StackFits(pid)
    ensures machine.Some? ==> |memory.spaces| == 2 && machine.value.home == map[init := memory.spaces[1]]
                              && Loaded(memory.fm.mem, Image(loads), memory.spaces[1].areas)
                              && HasPage(memory.spaces[1].areas, CONTEXT_VPN)
    ensures old(memory.fm.recycled) == [] && old(memory.fm.Available()) >= pages + 9 + 3 * PagesOf(Image(loads)) ==>
              machine.Some?
    ensures machine.Some? ==> machine.value.Valid()
  {
    hide Inv, Loadable, Loaded, Image, PagesOf, UserAreas, HasPage, LiveFrames, AllocatorOk, Settled, Owned, Spared,
         SpaceOk;
    hide AddressSpaces.Valid, KernelStacks.Valid, Kernel.Valid, FrameMemory.Available, FrameMemory.Order, StackFits;
    machine, pid := None, 0;
    memory.Sound();
    PagesNotNegative(Image(loads));
    InOrder(memory.fm, pages);
    var ok := TakeQueue(stacks, memory, pages);
    if !ok { return; }
    ok := FirstSpace(stacks, memory, loads, trampoline);
    if !ok { return; }
    memory.Apart();
    memory.OwnedLive(1);
    memory.OwnedApart(0, 1);
    ghost var mem, others := memory.fm.mem, memory.fm.Live() - Owned(stacks.space.Snap());
    ok, pid := FirstStack(stacks, memory);
    if !ok { return; }
    LoadedStill(mem, memory.fm.mem, Image(loads), memory.spaces[1].Snap(), others);
    var kernel := new Kernel(stacks, init, pid);
    var m := new Machine(kernel, memory, pid);
    machine := Some(m);
  }

  lemma InOrder(fm: FrameMemory, pages: nat)
    requires fm.Valid()
    ensures fm.recycled == [] && pages <= fm.Available() ==>
            forall i | 0 <= i < pages :: fm.Order()[i] == fm.Order()[0] + i
  {
    hide AllocatorOk, FrameMemory.Order;
    if fm.recycled == [] && pages <= fm.Available() {
      forall i | 0 <= i < pages ensures fm.Order()[i] == fm.Order()[0] + i {
        fm.NothingRecycled(0);
        fm.NothingRecycled(i);
      }
    }
  }

  /** Boot: the first task is ready to start its program. */
  method BootMachine(stacks: KernelStacks, memory: AddressSpaces, pages: nat, loads: seq<Segment>, trampoline: nat,
                     init: Ref, entry: nat, handler: nat, sstatus: nat)
    returns (machine: Option<Machine>, pid: nat, ghost context: seq<nat>)
    requires Founded(stacks, memory) && |memory.spaces| == 1 && stacks.pids.Live() == {}
    requires trampoline < PPN_LIMIT && Loadable(Image(loads))
    modifies memory, memory.fm, stacks.pids, stacks.space, stacks.space.table
    ensures machine.Some? ==> fresh(machine.value) && machine.value.memory == memory
                              && machine.value.kernel.Now() == Boot(init, pid)
                              && |memory.queueFrames| == |old(memory.queueFrames)| + pages
    ensures machine.Some? ==> |memory.spaces| == 2 && machine.value.home == map[init := memory.spaces[1]]
    ensures machine.Some? ==> StartContext(memory.fm.mem, memory.spaces[1].areas, |loads|, stacks.space.table.root, pid,
                                           entry, handler, sstatus)
    ensures machine.Some? ==> StackFits(pid)
                              && context == InitContext(entry, StackTop(loads), Token(stacks.space.table.root),
                                                        KernelStackPosition(pid).1, handler, sstatus)
    ensures machine.Some? ==> Started(memory.fm.mem, Image(loads), memory.spaces[1].areas, context)
    ensures old(memory.fm.recycled) == [] && old(memory.fm.Available()) >= pages + 9 + 3 * PagesOf(Image(loads)) ==>
              machine.Some?
    ensures machine.Some? ==> machine.value.Valid()
  {
    hide Inv, Loadable, Loaded, Image, PagesOf, HasPage, LiveFrames, Settled, Owned, SpaceOk, Started, PageAt, Patched;
    hide AddressSpaces.Valid, KernelStacks.Valid, Kernel.Valid, FrameMemory.Available, InitContext, KernelStackPosition;
    hide Token, StartContext;
    context := [];
    machine, pid := Start(stacks, memory, pages, loads, trampoline, init);
    if machine.None? { return; }
    memory.SpaceValid(1);
    ghost var mem := memory.fm.mem;
    var (_, top) := KernelStackPosition(pid);
    machine.value.KernelRoot();
    var satp := Token(stacks.space.table.root);
    var words := InitContext(entry, StackTop(loads), satp, top, handler, sstatus);
    context := words;
    ghost var f := machine.value.SetContext(1, 0, words);
    ContextLoaded(mem, memory.fm.mem, Image(loads), memory.spaces[1].Snap(), f, words);
    StartedWords(memory.fm.mem, loads, memory.spaces[1].areas, stacks.space.table.root, pid, entry, handler, sstatus);
  }

  lemma SparedTwice(mem0: Memory, mem1: Memory, mem2: Memory, live0: set<nat>, live1: set<nat>, kernel: set<nat>)
    requires Spared(mem0, mem1, live0) && Spared(mem1, mem2, live1 - kernel) && live0 <= live1
    ensures Spared(mem0, mem2, live0 - kernel)
  {
  }

  lemma SparedBut(mem0: Memory, mem: Memory, mem': Memory, others: set<nat>, f: nat)
    requires Spared(mem0, mem, others) && f !in others && f in mem && f in mem' && mem' == mem[f := mem'[f]]
    ensures Spared(mem0, mem', others)
  {
  }

  lemma SameContextFrame(mem: Memory, sp: Space, f: nat, f': nat)
    requires SpaceOk(mem, sp) && PageAt(sp.areas, CONTEXT_VPN, f) && PageAt(sp.areas, CONTEXT_VPN, f')
    ensures f' == f
  {
    hide SpaceOk;
    var i :| 0 <= i < |sp.areas| && CONTEXT_VPN in sp.areas[i].dataFrames && sp.areas[i].dataFrames[CONTEXT_VPN] == f';
    ContextFrame(mem, sp, f, i, CONTEXT_VPN);
  }

  lemma ShrunkLive(mem: Memory, mem': Memory, live: set<nat>, live': set<nat>, sp: Space, sp': Space)
    requires Shrunk(mem, mem', live, live', sp, sp')
    ensures live' == live - (Owned(sp) - Owned(sp'))
  {
  }

  lemma SparedFrames(mem: Memory, mem': Memory, live: set<nat>, sp: Space)
    requires Spared(mem, mem', live) && forall p | p in Owned(sp) :: p in live
    ensures mem'.Keys == mem.Keys && forall p | p in sp.frames && p in mem :: mem'[p] == mem[p]
  {
    hide DataFrames;
    forall p | p in sp.frames ensures p in Owned(sp) { }
  }
}
