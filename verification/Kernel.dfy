/** The kernel's task operations, on control blocks shared through counted references (os/src/task/mod.rs,
    os/src/task/task.rs, os/src/task/processor.rs, os/src/task/manager.rs, os/src/syscall/process.rs). */
module Kernels {
  import opened Sequences
  import opened Options
  import opened Frames
  import opened PageTables
  import opened MemorySets
  import opened KernelStacks
  import opened Tasks

  /** A signed 64-bit argument. */
  type Isize = x: int | -0x8000_0000_0000_0000 <= x < 0x8000_0000_0000_0000

  /** It reinterpreted as `usize`. */
  function AsUsize(pid: int): int {
    if pid < 0 then pid + 0x1_0000_0000_0000_0000 else pid
  }

  /** The children `sys_waitpid(pid)` is willing to collect. */
  predicate Wanted(heap: Heap, pid: int, c: Ref)
    requires c in heap
  {
    pid == -1 || AsUsize(pid) == heap[c].pid
  }

  predicate Collectable(heap: Heap, pid: int, c: Ref)
    requires c in heap
  {
    heap[c].status == Zombie && Wanted(heap, pid, c)
  }

  /** Does any child match the pid asked for? */
  method AnyWanted(heap: Heap, cs: seq<Ref>, pid: int) returns (any: bool)
    requires forall c | c in cs :: c in heap
    ensures any <==> exists i :: 0 <= i < |cs| && Wanted(heap, pid, cs[i])
  {
    var i := 0;
    while i < |cs|
      invariant i <= |cs| && forall j | 0 <= j < i :: !Wanted(heap, pid, cs[j])
    {
      if Wanted(heap, pid, cs[i]) { return true; }
      i := i + 1;
    }
    return false;
  }

  /** The first zombie that matches, in the order of the list. */
  method FirstZombie(heap: Heap, cs: seq<Ref>, pid: int) returns (index: Option<nat>)
    requires forall c | c in cs :: c in heap
    ensures index.None? <==> forall i | 0 <= i < |cs| :: !Collectable(heap, pid, cs[i])
    ensures index.Some? ==> index.value < |cs| && Collectable(heap, pid, cs[index.value])
                            && forall i | 0 <= i < index.value :: !Collectable(heap, pid, cs[i])
  {
    var i := 0;
    while i < |cs|
      invariant i <= |cs| && forall j | 0 <= j < i :: !Collectable(heap, pid, cs[j])
    {
      if Collectable(heap, pid, cs[i]) { return Some(i); }
      i := i + 1;
    }
    return None;
  }

  /** What `sys_waitpid(pid)` answers in state `s`, and the state it leaves. */
  ghost predicate Answer(s: State, s': State, pid: int, r: int, code: int, index: nat)
    requires InUser(s)
  {
    var h, cs := s.heap, s.heap[s.current.value].children;
    && (forall c | c in cs :: c in h)
    && (r == -1 <==> forall i | 0 <= i < |cs| :: !Wanted(h, pid, cs[i]))
    && (r == -2 <==> (exists i :: 0 <= i < |cs| && Wanted(h, pid, cs[i]))
                     && forall i | 0 <= i < |cs| :: !Collectable(h, pid, cs[i]))
    && r >= -2 && (r < 0 ==> s' == s)
    && (r >= 0 ==> Enabled(s, Reap(index)) && s' == After(s, Reap(index))
                   && Collectable(h, pid, cs[index]) && (forall i | 0 <= i < index :: !Collectable(h, pid, cs[i]))
                   && r == h[cs[index]].pid && code == h[cs[index]].exitCode)
  }

  /** The same in plain pids, for the children `cs` of the caller: a pid stands for itself, -1 for any child, and no
      other negative number for anything. */
  ghost predicate Replies(heap: Heap, cs: seq<Ref>, pid: int, r: int, code: int, index: nat) {
    && (forall c | c in cs :: c in heap)
    && (pid >= 0 ==> (r == -1 <==> forall c | c in cs :: heap[c].pid != pid))
    && (pid == -1 ==> (r == -1 <==> cs == []))
    && (pid < -1 ==> r == -1)
    && (pid >= 0 ==> r == -1 || r == -2 || r == pid)
    && (pid >= 0 ==> (r == pid <==> exists c | c in cs :: heap[c].pid == pid && heap[c].status == Zombie))
    && (pid == -1 ==> (r >= 0 <==> exists c | c in cs :: heap[c].status == Zombie))
    && (r >= 0 ==> index < |cs| && heap[cs[index]].status == Zombie && r == heap[cs[index]].pid
                   && code == heap[cs[index]].exitCode)
    && (r >= 0 && pid == -1 ==> forall i | 0 <= i < index :: heap[cs[i]].status != Zombie)
  }

  /** No pid is so large that a negative argument, read as unsigned, could name it. */
  lemma AnswerReplies(s: State, s': State, pid: Isize, r: int, code: int, index: nat)
    requires InUser(s) && Answer(s, s', pid, r, code, index)
    requires forall c | c in s.heap :: s.heap[c].pid <= IDENTITY_END
    ensures Replies(s.heap, s.heap[s.current.value].children, pid, r, code, index)
  {
    hide After, Enabled;
    var h, cs := s.heap, s.heap[s.current.value].children;
    assert forall i | 0 <= i < |cs| :: cs[i] in cs;
    if r >= 0 { ReapInRange(s, index); }
    if pid >= 0 {
      assert forall c | c in cs :: Wanted(h, pid, c) <==> h[c].pid == pid;
    } else if pid < -1 {
      assert forall c | c in cs :: !Wanted(h, pid, c);
    } else {
      assert forall c | c in cs :: Wanted(h, pid, c);
      if cs != [] { assert Wanted(h, pid, cs[0]); }
    }
    if c :| c in cs && Collectable(h, pid, c) {
      var i :| 0 <= i < |cs| && cs[i] == c;
      assert Collectable(h, pid, cs[i]) && Wanted(h, pid, cs[i]);
    }
  }

  lemma ReapInRange(s: State, index: nat)
    requires Enabled(s, Reap(index))
    ensures index < |s.heap[s.current.value].children|
  {
  }

  /** A list of distinct blocks, none of them `a` or `b`. */
  ghost predicate Apart(heap: Heap, cs: seq<Ref>, a: Ref, b: Ref) {
    NoRepeats(cs) && forall c | c in cs :: c in heap && c != a && c != b
  }

  /** The children in `cs` re-parented, each with a second reference in the list of `to`. */
  ghost predicate Adopted(heap0: Heap, heap: Heap, to: Ref, cs: seq<Ref>) {
    && heap.Keys == heap0.Keys
    && forall r | r in heap :: heap[r] ==
        if r == to then heap0[r].(children := heap0[r].children + cs)
        else if r in cs then heap0[r].(parent := Some(to), strong := heap0[r].strong + 1)
        else heap0[r]
  }

  lemma NoneAdopted(heap: Heap, to: Ref)
    ensures Adopted(heap, heap, to, [])
  {
  }

  /** One more child adopted. */
  lemma AdoptedMore(heap0: Heap, heap: Heap, to: Ref, cs: seq<Ref>, child: Ref)
    requires Adopted(heap0, heap, to, cs) && to in heap && child in heap && child != to && child !in cs
    ensures var moved := heap[child].(parent := Some(to), strong := heap[child].strong + 1);
            Adopted(heap0, heap[child := moved][to := heap[to].(children := heap[to].children + [child])], to,
                    cs + [child])
  {
  }

  /** The references in `cs` dropped. */
  ghost predicate Dropped(heap0: Heap, heap: Heap, cs: seq<Ref>) {
    && heap.Keys == heap0.Keys
    && forall r | r in heap :: heap[r] == if r in cs then heap0[r].(strong := heap0[r].strong - 1) else heap0[r]
  }

  lemma DroppedMore(heap0: Heap, heap: Heap, cs: seq<Ref>, c: Ref)
    requires Dropped(heap0, heap, cs) && c in heap && c !in cs
    ensures Dropped(heap0, heap[c := heap[c].(strong := heap[c].strong - 1)], cs + [c])
  {
  }

  class Kernel {
    const stacks: KernelStacks
    const initproc: Ref
    var heap: Heap
    var queue: seq<Ref>
    var current: Option<Ref>

    ghost function Now(): State
      reads this, stacks.pids
    {
      State(heap, queue, current, initproc, stacks.pids.Live())
    }

    ghost predicate Valid()
      reads this, stacks, stacks.pids, stacks.fm, stacks.space, stacks.space.table
    {
      stacks.Valid() && Inv(Now())
    }

    /** Booted: initproc's pid and stack are taken and it waits in the queue. */
    constructor (stacks: KernelStacks, initproc: Ref, pid: nat)
      requires stacks.Valid() && stacks.pids.Live() == {pid}
      ensures Valid() && Now() == Boot(initproc, pid) && this.stacks == stacks
    {
      this.stacks, this.initproc := stacks, initproc;
      heap := map[initproc := Tcb(pid, Ready, None, [], 0, 2, false)];
      queue, current := [initproc], None;
      BootOk(initproc, pid);
    }

    lemma Parts()
      requires Valid()
      ensures stacks.Valid() && Inv(Now())
    {
      hide Inv, KernelStacks.Valid;
    }

    lemma Whole()
      requires stacks.Valid() && Inv(Now())
      ensures Valid()
    {
      hide Inv, KernelStacks.Valid;
    }

    // -------------------------------------------------------------- references

    /** `Arc::clone`. */
    method CloneRef(r: Ref)
      requires r in heap
      modifies this`heap
      ensures heap == old(heap)[r := old(heap)[r].(strong := old(heap)[r].strong + 1)]
    {
      heap := heap[r := heap[r].(strong := heap[r].strong + 1)];
    }

    /** Dropping an `Arc` that is not the last. */
    method DropRef(r: Ref)
      requires r in heap && heap[r].strong > 1
      modifies this`heap
      ensures heap == old(heap)[r := old(heap)[r].(strong := old(heap)[r].strong - 1)]
    {
      heap := heap[r := heap[r].(strong := heap[r].strong - 1)];
    }

    /** Dropping the last `Arc` of a block without children: pid, stack and block go. */
    method DropLast(r: Ref)
      requires stacks.Valid() && r in heap && heap[r].strong == 1 && heap[r].children == []
               && heap[r].pid in stacks.pids.Live()
      modifies this`heap, stacks.pids, stacks.fm, stacks.space
      ensures stacks.Valid() && heap == old(heap) - {r}
              && stacks.pids.Live() == old(stacks.pids.Live()) - {old(heap)[r].pid}
      ensures Shrunk(old(stacks.fm.mem), stacks.fm.mem, old(stacks.fm.Live()), stacks.fm.Live(),
                     old(stacks.space.Snap()), stacks.space.Snap())
    {
      stacks.Release(heap[r].pid);
      heap := heap - {r};
    }

    // -------------------------------------------------------------- scheduling

    /** One turn of `run_tasks`. */
    method Dispatch() returns (found: bool)
      requires Valid() && current.None?
      modifies this
      ensures Valid() && found == (old(queue) != [])
      ensures found ==> Enabled(old(Now()), Fetch) && Now() == After(old(Now()), Fetch)
      ensures !found ==> Now() == old(Now())
    {
      hide TreeOk, PidsOk, CountsOk, Laid;
      if queue == [] { return false; }
      FetchKeeps(Now());
      var task := queue[0];
      queue := queue[1..];
      heap := heap[task := heap[task].(status := Running)];
      current := Some(task);
      return true;
    }

    /** `suspend_current_and_run_next`: a timer tick, `sys_yield`, or no input yet. */
    method SuspendCurrent()
      requires Valid() && current.Some?
      modifies this
      ensures Valid() && Enabled(old(Now()), Suspend) && Now() == After(old(Now()), Suspend)
    {
      hide TreeOk, PidsOk, CountsOk, Laid;
      SuspendKeeps(Now());
      var task := current.value;
      current := None;
      heap := heap[task := heap[task].(status := Ready)];
      queue := queue + [task];
    }

    /** `sys_read` on stdin: entered with a reference to the task itself, left by dropping it. */
    method BeginRead()
      requires Valid() && InUser(Now())
      modifies this
      ensures Valid() && Now() == After(old(Now()), StartRead)
    {
      hide Inv;
      ghost var s := Now();
      ReadKeeps(s);
      CloneRef(current.value);
      heap := heap[current.value := heap[current.value].(reading := true)];
      assert Now() == ReadStarted(s);
    }

    method FinishRead()
      requires Valid() && Enabled(Now(), EndRead)
      modifies this
      ensures Valid() && Now() == After(old(Now()), EndRead)
    {
      hide TreeOk, PidsOk, SchedOk, Laid;
      ghost var s := Now();
      ReadEndKeeps(s);
      DropRef(current.value);
      heap := heap[current.value := heap[current.value].(reading := false)];
      assert Now() == ReadEnded(s);
    }

    // -------------------------------------------------------------- fork

    /** The child's block, held by the parent's list and the queue; the caller's own reference is dropped. */
    method Enroll(parent: Ref, addr: Ref, pid: nat)
      requires parent in heap && heap[parent].strong > 1 && addr !in heap
      modifies this
      ensures queue == old(queue) + [addr] && current == old(current)
      ensures heap == old(heap)[parent := old(heap)[parent].(children := old(heap)[parent].children + [addr],
                                                             strong := old(heap)[parent].strong - 1)]
                        [addr := Tcb(pid, Ready, Some(parent), [], 0, 2, false)]
    {
      heap := heap[addr := Tcb(pid, Ready, Some(parent), [], 0, 1, false)];
      CloneRef(addr);
      heap := heap[parent := heap[parent].(children := heap[parent].children + [addr])];
      queue := queue + [addr];
      DropRef(parent);
    }

    /** `sys_fork` as far as the task is concerned: pid, kernel stack and control block, at the address the heap gives
        it. This part takes six frames at most; the copy of the address space comes before it (Processes.Machine). */
    method ForkCurrent(addr: Ref) returns (ok: bool, pid: nat)
      requires Valid() && InUser(Now()) && addr !in heap
      modifies this, stacks.pids, stacks.fm, stacks.space, stacks.space.table
      ensures ok ==> Valid() && Enabled(old(Now()), Fork(addr, pid)) && Now() == After(old(Now()), Fork(addr, pid))
      ensures ok ==> Extended(old(stacks.fm.mem), stacks.fm.mem, old(stacks.fm.Live()), stacks.fm.Live(),
                              old(stacks.space.Snap()), stacks.space.Snap())
      ensures ok ==> pid <= IDENTITY_END
      ensures old(stacks.fm.Available()) >= 6 ==> ok
    {
      hide Inv, Laid, SpaceOk, OnlyMapped, OthersUntouched, LiveFrames, AllocatorOk, Owned, Extended, StackUsable;
      ghost var s := Now();
      CurrentHeld(s);
      ok, pid := stacks.Create();
      if !ok { return; }
      ForkKeeps(s, addr, pid);
      var parent := current.value;
      CloneRef(parent);
      Enroll(parent, addr, pid);
      assert Now() == Forked(s, addr, pid);
    }

    // -------------------------------------------------------------- exit

    /** Each child of the exiting task gets initproc as its parent and joins initproc's list. While both blocks are
        borrowed, no child is either of them. */
    method Reparent(task: Ref)
      requires task in heap && initproc in heap && task != initproc && Apart(heap, heap[task].children, task, initproc)
      modifies this`heap
      ensures Adopted(old(heap), heap, initproc, old(heap)[task].children)
    {
      hide Adopted;
      ghost var heap0 := heap;
      var cs := heap[task].children;
      var k := 0;
      assert cs[..0] == [];
      NoneAdopted(heap, initproc);
      while k < |cs|
        invariant k <= |cs| && Adopted(heap0, heap, initproc, cs[..k]) && heap.Keys == heap0.Keys
      {
        var child := cs[k];
        assert cs[..k + 1] == cs[..k] + [child];
        assert child != task && child != initproc && child !in cs[..k];
        AdoptedMore(heap0, heap, initproc, cs[..k], child);
        ghost var h := heap;
        heap := heap[child := heap[child].(parent := Some(initproc))];
        CloneRef(child);
        heap := heap[initproc := heap[initproc].(children := heap[initproc].children + [child])];
        assert heap == h[child := h[child].(parent := Some(initproc), strong := h[child].strong + 1)]
                        [initproc := h[initproc].(children := h[initproc].children + [child])];
        k := k + 1;
      }
      assert cs[..|cs|] == cs;
    }

    /** `children.clear()`. */
    method ClearChildren(task: Ref)
      requires task in heap && Apart(heap, heap[task].children, task, task)
      requires forall c | c in heap[task].children :: heap[c].strong > 1
      modifies this`heap
      ensures heap.Keys == old(heap).Keys && heap[task] == old(heap)[task].(children := [])
      ensures Dropped(old(heap), heap[task := old(heap)[task]], old(heap)[task].children)
    {
      ghost var heap0 := heap;
      var cs := heap[task].children;
      var k := 0;
      while k < |cs|
        invariant k <= |cs| && Dropped(heap0, heap, cs[..k])
      {
        assert cs[..k + 1] == cs[..k] + [cs[k]] && cs[k] !in cs[..k];
        DroppedMore(heap0, heap, cs[..k], cs[k]);
        DropRef(cs[k]);
        k := k + 1;
      }
      assert cs[..|cs|] == cs;
      heap := heap[task := heap[task].(children := [])];
    }

    /** The exiting task becomes a zombie, its children go to initproc, and the processor's reference is dropped. */
    method Bury(task: Ref, code: int)
      requires CanExit(Now()) && current == Some(task)
      modifies this
      ensures heap == Exited(old(Now()), code).heap && queue == old(queue) && current == None
    {
      hide Inv, Adopted, Dropped, Exited;
      ghost var s := Now();
      OrphansApart(s);
      current := None;
      heap := heap[task := heap[task].(status := Zombie, exitCode := code)];
      ghost var heap1 := heap;
      Reparent(task);
      ghost var heap2 := heap;
      AdoptedHeld(s, code, heap1, heap2);
      ClearChildren(task);
      ghost var heap3 := heap;
      DropRef(task);
      Buried(s, code, heap1, heap2, heap3);
    }

    /** `exit_current_and_run_next`. For initproc the source borrows the same cell twice and panics. */
    method ExitCurrent(code: int) returns (ok: bool)
      requires Valid() && InUser(Now())
      modifies this
      ensures ok == (old(current).value != initproc)
      ensures ok ==> Valid() && Enabled(old(Now()), Exit(code)) && Now() == After(old(Now()), Exit(code))
    {
      hide Inv, Laid, SpaceOk;
      ghost var s := Now();
      if current.value == initproc { return false; }
      ExitKeeps(s, code);
      Bury(current.value, code);
      assert Now() == Exited(s, code);
      return true;
    }

    // -------------------------------------------------------------- waitpid

    /** Taking the zombie off the list leaves one reference, the one in hand; dropping it frees the block. */
    method Collect(task: Ref, index: nat)
      requires Valid() && Enabled(Now(), Reap(index)) && current == Some(task)
      modifies this, stacks.pids, stacks.fm, stacks.space
      ensures Valid() && Now() == After(old(Now()), Reap(index))
      ensures Shrunk(old(stacks.fm.mem), stacks.fm.mem, old(stacks.fm.Live()), stacks.fm.Live(),
                     old(stacks.space.Snap()), stacks.space.Snap())
    {
      hide Inv, Laid, SpaceOk, Owned, OnlyMapped, LiveFrames, AllocatorOk, Shrunk;
      ghost var s := Now();
      CurrentHeld(s);
      ZombieFacts(s, index);
      ReapKeeps(s, index);
      var child := heap[task].children[index];
      heap := heap[task := heap[task].(children := Without(heap[task].children, index))];
      assert heap[child].strong == 1;
      DropLast(child);
      assert Now() == Reaped(s, index);
    }

    /** `sys_waitpid`: -1 without a matching child, -2 while none of them has exited; otherwise the first that has is
        collected, and its pid and exit code returned. */
    method Waitpid(pid: Isize) returns (r: int, code: int, index: nat)
      requires Valid() && InUser(Now())
      modifies this, stacks.pids, stacks.fm, stacks.space
      ensures Valid() && Answer(old(Now()), Now(), pid, r, code, index)
      ensures Replies(old(heap), old(heap[current.value].children), pid, r, code, index)
      ensures Shrunk(old(stacks.fm.mem), stacks.fm.mem, old(stacks.fm.Live()), stacks.fm.Live(),
                     old(stacks.space.Snap()), stacks.space.Snap())
      ensures r < 0 ==> unchanged(this, stacks.pids, stacks.fm, stacks.space)
    {
      hide Inv, Laid, SpaceOk, Owned, LiveFrames, AllocatorOk, After, Shrunk, Answer, Replies, Kernel.Valid;
      ghost var s := Now();
      PidsBounded();
      r, code, index := Serve(pid);
      AnswerReplies(s, Now(), pid, r, code, index);
    }

    lemma PidsBounded()
      requires Valid()
      ensures forall r | r in heap :: heap[r].pid <= IDENTITY_END
    {
      hide SpaceOk, TreeOk, SchedOk, CountsOk, Flat, HasArea, AreaKnown;
    }

    method Serve(pid: Isize) returns (r: int, code: int, index: nat)
      requires Valid() && InUser(Now())
      modifies this, stacks.pids, stacks.fm, stacks.space
      ensures Valid() && Answer(old(Now()), Now(), pid, r, code, index)
      ensures Shrunk(old(stacks.fm.mem), stacks.fm.mem, old(stacks.fm.Live()), stacks.fm.Live(),
                     old(stacks.space.Snap()), stacks.space.Snap())
      ensures r < 0 ==> unchanged(this, stacks.pids, stacks.fm, stacks.space)
    {
      hide Inv, Laid, SpaceOk, Owned, LiveFrames, AllocatorOk, After, Shrunk;
      NothingReturned(stacks.fm.mem, stacks.fm.Live(), stacks.space.Snap());
      var task := current.value;
      ChildrenPresent(Now());
      r, code, index := -1, 0, 0;
      var any := AnyWanted(heap, heap[task].children, pid);
      if !any { return; }
      var found := FirstZombie(heap, heap[task].children, pid);
      if found.None? { r := -2; return; }
      index := found.value;
      var child := heap[task].children[found.value];
      r, code := heap[child].pid, heap[child].exitCode;
      Collect(task, found.value);
    }
  }

  lemma NothingReturned(mem: Memory, live: set<nat>, sp: Space)
    ensures Shrunk(mem, mem, live, live, sp, sp)
  {
    hide Owned;
  }

  lemma ZombieFacts(s: State, i: nat)
    requires Inv(s) && Enabled(s, Reap(i))
    ensures var z := s.heap[s.current.value].children[i];
            s.heap[z].strong == 1 && s.heap[z].children == [] && z != s.current.value && s.heap[z].pid in s.live
  {
    hide TreeOk;
  }

  lemma ChildrenPresent(s: State)
    requires Inv(s) && InUser(s)
    ensures forall c | c in s.heap[s.current.value].children :: c in s.heap
  {
    hide Rooted, PidsOk;
    assert Down(s.heap, s.current.value);
  }

  lemma CurrentHeld(s: State)
    requires Inv(s) && s.current.Some?
    ensures s.current.value in s.heap && s.heap[s.current.value].strong > 1
  {
    hide TreeOk, PidsOk;
  }

  lemma OrphansApart(s: State)
    requires CanExit(s)
    ensures s.init in s.heap && s.current.value in s.heap && s.heap[s.current.value].strong > 1
    ensures Apart(s.heap, s.heap[s.current.value].children, s.current.value, s.init)
    ensures forall c | c in s.heap[s.current.value].children :: s.heap[c].strong > 0
  {
    hide Rooted, PidsOk;
    assert Down(s.heap, s.current.value);
    NoLoop(s.heap, s.init, s.current.value);
  }

  lemma AdoptedHeld(s: State, code: int, heap1: Heap, heap2: Heap)
    requires CanExit(s)
    requires s.current.value in s.heap
    requires heap1 == s.heap[s.current.value := s.heap[s.current.value].(status := Zombie, exitCode := code)]
    requires Adopted(heap1, heap2, s.init, s.heap[s.current.value].children)
    ensures s.current.value in heap2 && heap2[s.current.value] == heap1[s.current.value]
    ensures Apart(heap2, heap2[s.current.value].children, s.current.value, s.current.value)
    ensures forall c | c in heap2[s.current.value].children :: heap2[c].strong > 1
  {
    hide Inv;
    OrphansApart(s);
  }

  /** The three passes over the blocks add up to the step. */
  lemma Buried(s: State, code: int, heap1: Heap, heap2: Heap, heap3: Heap)
    requires CanExit(s)
    requires s.current.value in s.heap
    requires heap1 == s.heap[s.current.value := s.heap[s.current.value].(status := Zombie, exitCode := code)]
    requires Adopted(heap1, heap2, s.init, s.heap[s.current.value].children)
    requires s.current.value in heap2 && heap2[s.current.value] == heap1[s.current.value]
    requires s.current.value in heap3 && heap3[s.current.value] == heap2[s.current.value].(children := [])
    requires Dropped(heap2, heap3[s.current.value := heap2[s.current.value]], heap2[s.current.value].children)
    ensures heap3[s.current.value := heap3[s.current.value].(strong := heap3[s.current.value].strong - 1)] ==
            Exited(s, code).heap
  {
    hide Inv;
    OrphansApart(s);
    var c := s.current.value;
    var heap4 := heap3[c := heap3[c].(strong := heap3[c].strong - 1)];
    var dropped := heap3[c := heap2[c]];
    assert heap4.Keys == Exited(s, code).heap.Keys by { assert dropped.Keys == heap3.Keys; }
    forall r | r in heap4 ensures heap4[r] == Exited(s, code).heap[r] {
      if r != c { assert heap4[r] == dropped[r]; }
    }
  }
}
