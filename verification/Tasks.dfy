/** The process tree, its reference counts and its ready queue, as a transition system (os/src/task/task.rs,
    os/src/task/mod.rs, os/src/task/processor.rs, os/src/task/manager.rs, os/src/syscall/process.rs). */
module Tasks {
  import opened Sequences
  import opened Options

  /** The address of a task control block, as an `Arc` or a `Weak` holds it. */
  type Ref = nat

  datatype Status = Ready | Running | Zombie

  /** A control block; `strong` is its count of `Arc`s. `reading`: the task is inside `sys_read` on stdin, whose frame
      on the kernel stack holds an `Arc` of the task itself. */
  datatype Tcb = Tcb(pid: nat, status: Status, parent: Option<Ref>, children: seq<Ref>, exitCode: int, strong: int,
                     reading: bool)

  type Heap = map<Ref, Tcb>

  /** `live`: the pids handed out, each with its kernel stack. */
  datatype State = State(heap: Heap, queue: seq<Ref>, current: Option<Ref>, init: Ref, live: set<nat>)

  // ---------------------------------------------------------------- the invariant

  /** `n` parent links lead from `r` to initproc. */
  ghost predicate Reaches(heap: Heap, init: Ref, r: Ref, n: nat)
    decreases n
  {
    r in heap && if n == 0 then r == init else
      r != init && heap[r].parent.Some? && Reaches(heap, init, heap[r].parent.value, n - 1)
  }

  ghost predicate Rooted(heap: Heap, init: Ref, r: Ref) {
    exists n: nat :: Reaches(heap, init, r, n)
  }

  /** The task is in the children list of the task its parent link names. */
  ghost predicate Up(heap: Heap, r: Ref) {
    r in heap && heap[r].parent.Some? && heap[r].parent.value in heap && r in heap[heap[r].parent.value].children
  }

  /** The task's children are distinct, and each names it as its parent. */
  ghost predicate Down(heap: Heap, p: Ref) {
    p in heap && NoRepeats(heap[p].children)
        && forall c | c in heap[p].children :: c in heap && heap[c].parent == Some(p)
  }

  /** Children lists and parent links agree. */
  ghost predicate LinksOk(heap: Heap, init: Ref) {
    && init in heap && heap[init].parent == None
    && (forall r {:trigger Up(heap, r)} | r in heap && r != init :: Up(heap, r))
    && (forall p {:trigger Down(heap, p)} | p in heap :: Down(heap, p))
  }

  ghost predicate TreeOk(heap: Heap, init: Ref) {
    LinksOk(heap, init) && forall r | r in heap :: Rooted(heap, init, r)
  }

  /** Every task is current, or queued exactly once, or a zombie, as its status says. */
  ghost predicate SchedOk(heap: Heap, queue: seq<Ref>, current: Option<Ref>, init: Ref) {
    && NoRepeats(queue)
    && (forall r | r in queue :: r in heap && heap[r].status == Ready)
    && (current.Some? ==> current.value in heap && heap[current.value].status == Running)
    && (forall r | r in heap && heap[r].status == Ready :: r in queue)
    && (forall r | r in heap && heap[r].status == Running :: current == Some(r))
    && (forall r | r in heap && heap[r].status == Zombie :: r != init && heap[r].children == [] && !heap[r].reading)
  }

  function One(b: bool): nat {
    if b then 1 else 0
  }

  /** One reference from the parent's list, or from the static INITPROC; the rest while scheduled or reading. */
  ghost predicate CountsOk(heap: Heap, queue: seq<Ref>, current: Option<Ref>) {
    forall r | r in heap :: heap[r].strong == 1 + One(r in queue) + One(current == Some(r)) + One(heap[r].reading)
  }

  ghost predicate PidsOk(heap: Heap, live: set<nat>) {
    && (forall r | r in heap :: heap[r].pid in live)
    && (forall r, q | r in heap && q in heap && heap[r].pid == heap[q].pid :: r == q)
    && (forall pid | pid in live :: exists r :: r in heap && heap[r].pid == pid)
  }

  ghost predicate Inv(s: State) {
    && TreeOk(s.heap, s.init)
    && SchedOk(s.heap, s.queue, s.current, s.init)
    && CountsOk(s.heap, s.queue, s.current)
    && PidsOk(s.heap, s.live)
  }

  // ---------------------------------------------------------------- what the invariant means

  /** The references to each task held in the children lists of the blocks below address `n`. */
  ghost function ChildRefs(heap: Heap, n: nat): multiset<Ref> {
    if n == 0 then multiset{} else ChildRefs(heap, n - 1) + if n - 1 in heap then multiset(heap[n - 1].children)
            else multiset{}
  }

  lemma {:induction false} OnceCounted(s: seq<Ref>, r: Ref)
    requires NoRepeats(s)
    ensures multiset(s)[r] == One(r in s)
  {
    if s != [] {
      var init, last := s[..|s| - 1], s[|s| - 1];
      assert s == init + [last];
      OnceCounted(init, r);
    }
  }

  lemma {:induction false} OneChildRef(heap: Heap, init: Ref, r: Ref, n: nat)
    requires LinksOk(heap, init) && r in heap
    ensures ChildRefs(heap, n)[r] == One(heap[r].parent.Some? && heap[r].parent.value < n)
  {
    if r != init { assert Up(heap, r); }
    if n > 0 {
      OneChildRef(heap, init, r, n - 1);
      if n - 1 in heap {
        assert Down(heap, n - 1);
        OnceCounted(heap[n - 1].children, r);
      }
    }
  }

  /** `strong` is the number of references there are: in all children lists, the queue, the current slot, the stack
      of a task waiting for input, and the static INITPROC. */
  lemma StrongIsExact(s: State, r: Ref, n: nat)
    requires Inv(s) && r in s.heap && forall q | q in s.heap :: q < n
    ensures s.heap[r].strong == ChildRefs(s.heap, n)[r] + multiset(s.queue)[r] + One(s.current == Some(r))
                                + One(s.heap[r].reading) + One(r == s.init)
  {
    hide Rooted, PidsOk, ChildRefs;
    if r != s.init { assert Up(s.heap, r); }
    OneChildRef(s.heap, s.init, r, n);
    OnceCounted(s.queue, r);
  }

  // ---------------------------------------------------------------- steps

  /** `run_tasks`, one turn with a task to fetch. */
  ghost function Fetched(s: State): State
    requires s.queue != [] && s.queue[0] in s.heap
  {
    var r := s.queue[0];
    s.(heap := s.heap[r := s.heap[r].(status := Running)], queue := s.queue[1..], current := Some(r))
  }

  /** `suspend_current_and_run_next`, up to the switch. */
  ghost function Suspended(s: State): State
    requires s.current.Some? && s.current.value in s.heap
  {
    var c := s.current.value;
    s.(heap := s.heap[c := s.heap[c].(status := Ready)], queue := s.queue + [c], current := None)
  }

  /** `sys_read` on stdin starts or ends: its frame takes or gives back a reference to the current task. */
  ghost function ReadStarted(s: State): State
    requires s.current.Some? && s.current.value in s.heap
  {
    var c := s.current.value;
    s.(heap := s.heap[c := s.heap[c].(reading := true, strong := s.heap[c].strong + 1)])
  }

  ghost function ReadEnded(s: State): State
    requires s.current.Some? && s.current.value in s.heap
  {
    var c := s.current.value;
    s.(heap := s.heap[c := s.heap[c].(reading := false, strong := s.heap[c].strong - 1)])
  }

  /** `sys_fork`: a child at address `r` with pid `pid`. */
  ghost function Forked(s: State, r: Ref, pid: nat): State
    requires s.current.Some? && s.current.value in s.heap
  {
    var c := s.current.value;
    s.(heap := s.heap[c := s.heap[c].(children := s.heap[c].children + [r])][r := Tcb(pid, Ready, Some(c), [], 0, 2,
        false)],
       queue := s.queue + [r], live := s.live + {pid})
  }

  /** `exit_current_and_run_next`: the children go to the end of initproc's list. */
  ghost function Exited(s: State, code: int): State
    requires s.current.Some? && s.current.value in s.heap
  {
    var c := s.current.value;
    var orphans := s.heap[c].children;
    s.(heap := map r | r in s.heap ::
         if r == c then s.heap[c].(status := Zombie, exitCode := code, children := [], strong := s.heap[c].strong - 1)
         else if r == s.init then s.heap[r].(children := s.heap[r].children + orphans)
         else if r in orphans then s.heap[r].(parent := Some(s.init))
         else s.heap[r],
       current := None)
  }

  /** `sys_waitpid` finds a zombie at index `i` of the caller's list: its block is dropped, its pid returned. */
  ghost function Reaped(s: State, i: nat): State
    requires s.current.Some? && s.current.value in s.heap && i < |s.heap[s.current.value].children|
    requires s.heap[s.current.value].children[i] in s.heap
  {
    var c := s.current.value;
    var z := s.heap[c].children[i];
    s.(heap := s.heap[c := s.heap[c].(children := Without(s.heap[c].children, i))] - {z},
       live := s.live - {s.heap[z].pid})
  }

  function Without(s: seq<Ref>, i: nat): seq<Ref>
    requires i < |s|
  {
    s[..i] + s[i + 1..]
  }

  // ---------------------------------------------------------------- steps that leave the tree alone

  ghost predicate SameLinks(heap: Heap, heap': Heap) {
    heap'.Keys == heap.Keys && forall r | r in heap :: heap'[r].parent == heap[r].parent
                                                       && heap'[r].children == heap[r].children
                                                       && heap'[r].pid == heap[r].pid
  }

  lemma {:induction false} SameReaches(heap: Heap, heap': Heap, init: Ref, r: Ref, n: nat)
    requires SameLinks(heap, heap') && Reaches(heap, init, r, n)
    ensures Reaches(heap', init, r, n)
    decreases n
  {
    if n > 0 { SameReaches(heap, heap', init, heap[r].parent.value, n - 1); }
  }

  lemma SameTree(heap: Heap, heap': Heap, init: Ref, live: set<nat>)
    requires SameLinks(heap, heap') && TreeOk(heap, init) && PidsOk(heap, live)
    ensures TreeOk(heap', init) && PidsOk(heap', live)
  {
    hide Reaches, Rooted, LinksOk, PidsOk;
    SameUpDown(heap, heap', init);
    SamePids(heap, heap', live);
    forall r | r in heap' ensures Rooted(heap', init, r) { SameRooted(heap, heap', init, r); }
  }

  lemma SameRooted(heap: Heap, heap': Heap, init: Ref, r: Ref)
    requires SameLinks(heap, heap') && Rooted(heap, init, r)
    ensures Rooted(heap', init, r)
  {
    hide Reaches, SameLinks;
    var n: nat :| Reaches(heap, init, r, n);
    SameReaches(heap, heap', init, r, n);
  }

  lemma SameUpDown(heap: Heap, heap': Heap, init: Ref)
    requires SameLinks(heap, heap') && LinksOk(heap, init)
    ensures LinksOk(heap', init)
  {
    hide NoRepeats;
    forall r | r in heap' && r != init ensures Up(heap', r) { assert Up(heap, r); }
    forall p | p in heap' ensures Down(heap', p) { assert Down(heap, p); }
  }

  lemma SamePids(heap: Heap, heap': Heap, live: set<nat>)
    requires heap'.Keys == heap.Keys && (forall r | r in heap :: heap'[r].pid == heap[r].pid) && PidsOk(heap, live)
    ensures PidsOk(heap', live)
  {
    forall pid | pid in live ensures exists r :: r in heap' && heap'[r].pid == pid {
      var r :| r in heap && heap[r].pid == pid;
      assert r in heap' && heap'[r].pid == pid;
    }
  }

  lemma FetchKeeps(s: State)
    requires Inv(s) && s.current.None? && s.queue != []
    ensures Inv(Fetched(s))
  {
    hide TreeOk, PidsOk;
    SameTree(s.heap, Fetched(s).heap, s.init, s.live);
  }

  lemma SuspendKeeps(s: State)
    requires Inv(s) && s.current.Some?
    ensures Inv(Suspended(s))
  {
    hide TreeOk, PidsOk;
    SameTree(s.heap, Suspended(s).heap, s.init, s.live);
  }

  lemma ReadKeeps(s: State)
    requires Inv(s) && s.current.Some? && !s.heap[s.current.value].reading
    ensures Inv(ReadStarted(s))
  {
    hide TreeOk, PidsOk;
    SameTree(s.heap, ReadStarted(s).heap, s.init, s.live);
  }

  lemma ReadEndKeeps(s: State)
    requires Inv(s) && s.current.Some? && s.heap[s.current.value].reading
    ensures Inv(ReadEnded(s))
  {
    hide TreeOk, PidsOk;
    SameTree(s.heap, ReadEnded(s).heap, s.init, s.live);
  }

  // ---------------------------------------------------------------- fork

  lemma {:induction false} ForkReaches(s: State, r: Ref, pid: nat, q: Ref, n: nat)
    requires s.current.Some? && s.current.value in s.heap && r !in s.heap && Reaches(s.heap, s.init, q, n)
    ensures Reaches(Forked(s, r, pid).heap, s.init, q, n)
    decreases n
  {
    if n > 0 { ForkReaches(s, r, pid, s.heap[q].parent.value, n - 1); }
  }

  lemma ForkRooted(s: State, r: Ref, pid: nat, q: Ref)
    requires s.current.Some? && s.current.value in s.heap && s.init in s.heap && r !in s.heap
             && (q == r || Rooted(s.heap, s.init, q))
    requires Rooted(s.heap, s.init, s.current.value)
    ensures Rooted(Forked(s, r, pid).heap, s.init, q)
  {
    var known := if q == r then s.current.value else q;
    var n: nat :| Reaches(s.heap, s.init, known, n);
    ForkReaches(s, r, pid, known, n);
    if q == r { assert Reaches(Forked(s, r, pid).heap, s.init, r, n + 1); }
  }

  lemma ForkLinks(s: State, r: Ref, pid: nat)
    requires LinksOk(s.heap, s.init) && s.current.Some? && s.current.value in s.heap && r !in s.heap
    ensures LinksOk(Forked(s, r, pid).heap, s.init)
  {
    var c, heap' := s.current.value, Forked(s, r, pid).heap;
    forall q | q in heap' && q != s.init ensures Up(heap', q) {
      if q != r { assert Up(s.heap, q); }
    }
    forall p | p in heap' ensures Down(heap', p) {
      if p != r {
        assert Down(s.heap, p);
        assert r !in s.heap[p].children;
      }
    }
  }

  lemma ForkPids(s: State, r: Ref, pid: nat)
    requires PidsOk(s.heap, s.live) && s.current.Some? && s.current.value in s.heap && r !in s.heap && pid !in s.live
    ensures PidsOk(Forked(s, r, pid).heap, Forked(s, r, pid).live)
  {
    var s' := Forked(s, r, pid);
    forall p | p in s'.live ensures exists q :: q in s'.heap && s'.heap[q].pid == p {
      if p == pid {
        assert s'.heap[r].pid == p;
      } else {
        var q :| q in s.heap && s.heap[q].pid == p;
        assert q in s'.heap && s'.heap[q].pid == p;
      }
    }
  }

  lemma ForkKeeps(s: State, r: Ref, pid: nat)
    requires Inv(s) && s.current.Some? && r !in s.heap && pid !in s.live
    ensures Inv(Forked(s, r, pid))
  {
    hide LinksOk, PidsOk, Rooted;
    ForkLinks(s, r, pid);
    ForkPids(s, r, pid);
    forall q | q in Forked(s, r, pid).heap
      ensures Rooted(Forked(s, r, pid).heap, s.init, q) { ForkRooted(s, r, pid, q); }
    ForkSched(s, r, pid);
  }

  lemma ForkSched(s: State, r: Ref, pid: nat)
    requires SchedOk(s.heap, s.queue, s.current, s.init) && CountsOk(s.heap, s.queue, s.current) && s.current.Some?
             && r !in s.heap && s.init in s.heap
    ensures var s' := Forked(s, r, pid); SchedOk(s'.heap, s'.queue, s'.current, s'.init)
                                         && CountsOk(s'.heap, s'.queue, s'.current)
  {
  }

  // ---------------------------------------------------------------- exit

  /** A task is not its own parent. */
  lemma NoLoop(heap: Heap, init: Ref, r: Ref)
    requires Rooted(heap, init, r)
    ensures heap[r].parent != Some(r) || r == init
  {
    var n: nat :| Reaches(heap, init, r, n);
    LoopReaches(heap, init, r, n);
  }

  lemma {:induction false} LoopReaches(heap: Heap, init: Ref, r: Ref, n: nat)
    requires Reaches(heap, init, r, n)
    ensures heap[r].parent != Some(r) || r == init
    decreases n
  {
    if n > 0 && heap[r].parent == Some(r) { LoopReaches(heap, init, r, n - 1); }
  }

  lemma {:induction false} ExitReaches(s: State, code: int, q: Ref, n: nat)
    requires s.current.Some? && s.current.value in s.heap && s.init in s.heap
    requires Reaches(s.heap, s.init, q, n)
    ensures Rooted(Exited(s, code).heap, s.init, q)
    decreases n
  {
    hide Rooted;
    var heap' := Exited(s, code).heap;
    StepUp(heap', s.init, s.init, 0);
    if n > 0 {
      if heap'[q].parent != Some(s.init) { ExitReaches(s, code, s.heap[q].parent.value, n - 1); }
      StepOn(heap', s.init, q);
    }
  }

  lemma StepUp(heap: Heap, init: Ref, q: Ref, n: nat)
    requires Reaches(heap, init, q, n)
    ensures Rooted(heap, init, q)
  {
  }

  lemma StepOn(heap: Heap, init: Ref, q: Ref)
    requires q in heap && q != init && heap[q].parent.Some? && Rooted(heap, init, heap[q].parent.value)
    ensures Rooted(heap, init, q)
  {
    var n: nat :| Reaches(heap, init, heap[q].parent.value, n);
    assert Reaches(heap, init, q, n + 1);
  }

  /** The current task may exit: it is in user mode, and it is not initproc. */
  ghost predicate CanExit(s: State) {
    Inv(s) && s.current.Some? && s.current.value != s.init && !s.heap[s.current.value].reading
  }

  lemma ExitRooted(s: State, code: int, q: Ref)
    requires CanExit(s) && q in s.heap
    ensures Rooted(Exited(s, code).heap, s.init, q)
  {
    hide Up, Down, PidsOk, Reaches;
    var n: nat :| Reaches(s.heap, s.init, q, n);
    ExitReaches(s, code, q, n);
  }

  lemma ExitUp(s: State, code: int, q: Ref)
    requires CanExit(s) && q in s.heap && q != s.init
    ensures Up(Exited(s, code).heap, q)
  {
    hide PidsOk, Rooted;
    var c := s.current.value;
    assert Up(s.heap, q);
    NoLoop(s.heap, s.init, c);
    assert Down(s.heap, c);
  }

  lemma ExitDown(s: State, code: int, p: Ref)
    requires CanExit(s) && p in s.heap
    ensures Down(Exited(s, code).heap, p)
  {
    hide PidsOk, Rooted;
    var c, heap' := s.current.value, Exited(s, code).heap;
    var orphans := s.heap[c].children;
    assert Down(s.heap, p) && Down(s.heap, c);
    NoLoop(s.heap, s.init, c);
    forall q | q in heap'[p].children ensures q in heap' && heap'[q].parent == Some(p) {
      if q in orphans { assert s.heap[q].parent == Some(c); }
    }
    if p == s.init {
      OnceJoined(s.heap[p].children, orphans);
    }
  }

  lemma OnceJoined(a: seq<Ref>, b: seq<Ref>)
    requires NoRepeats(a) && NoRepeats(b) && forall q | q in b :: q !in a
    ensures NoRepeats(a + b)
  {
    forall i, j | 0 <= i < j < |a + b| ensures (a + b)[i] != (a + b)[j] {
      if i < |a| <= j { assert b[j - |a|] in b; }
    }
  }

  lemma ExitSched(s: State, code: int)
    requires CanExit(s)
    ensures var s' := Exited(s, code); SchedOk(s'.heap, s'.queue, s'.current, s'.init)
  {
    hide Rooted, Up, Down, PidsOk;
  }

  lemma ExitCounts(s: State, code: int)
    requires CanExit(s)
    ensures var s' := Exited(s, code); CountsOk(s'.heap, s'.queue, s'.current)
    ensures Exited(s, code).heap[s.current.value].strong == 1
  {
    hide Rooted, Up, Down, PidsOk;
  }

  lemma ExitPids(s: State, code: int)
    requires CanExit(s)
    ensures PidsOk(Exited(s, code).heap, s.live)
  {
    hide Rooted, Up, Down, PidsOk;
    SamePids(s.heap, Exited(s, code).heap, s.live);
  }

  lemma ExitKeeps(s: State, code: int)
    requires CanExit(s)
    ensures Inv(Exited(s, code))
    ensures Exited(s, code).heap[s.current.value].strong == 1
  {
    hide Up, Down, Rooted, PidsOk;
    var heap' := Exited(s, code).heap;
    ExitSched(s, code);
    ExitCounts(s, code);
    ExitPids(s, code);
    forall q | q in heap' ensures Rooted(heap', s.init, q) { ExitRooted(s, code, q); }
    forall q | q in heap' && q != s.init ensures Up(heap', q) { ExitUp(s, code, q); }
    forall q | q in heap' ensures Down(heap', q) { ExitDown(s, code, q); }
  }

  // ---------------------------------------------------------------- waitpid

  ghost predicate CanReap(s: State, i: nat) {
    && Inv(s) && s.current.Some?
    && i < |s.heap[s.current.value].children| && s.heap[s.current.value].children[i] in s.heap
    && s.heap[s.heap[s.current.value].children[i]].status == Zombie
  }

  /** What the assertion in `sys_waitpid` relies on: the list entry is the only reference to a zombie. */
  lemma ZombieOnce(s: State, i: nat, n: nat)
    requires CanReap(s, i) && forall q | q in s.heap :: q < n
    ensures var z := s.heap[s.current.value].children[i];
            && s.heap[z].strong == 1 && ChildRefs(s.heap, n)[z] == 1 && multiset(s.queue)[z] == 0
            && s.heap[z].children == [] && z != s.current.value && z != s.init
  {
    hide Rooted, PidsOk, ChildRefs;
    StrongIsExact(s, s.heap[s.current.value].children[i], n);
  }

  lemma {:induction false} ReapReaches(s: State, i: nat, q: Ref, n: nat)
    requires CanReap(s, i) && Reaches(s.heap, s.init, q, n) && q != s.heap[s.current.value].children[i]
    ensures Reaches(Reaped(s, i).heap, s.init, q, n)
    decreases n
  {
    hide Rooted, PidsOk;
    if n > 0 {
      assert Up(s.heap, q);
      ReapReaches(s, i, s.heap[q].parent.value, n - 1);
    }
  }

  lemma ReapRooted(s: State, i: nat, q: Ref)
    requires CanReap(s, i) && q in Reaped(s, i).heap
    ensures Rooted(Reaped(s, i).heap, s.init, q)
  {
    hide Reaches, LinksOk, PidsOk;
    var n: nat :| Reaches(s.heap, s.init, q, n);
    ReapReaches(s, i, q, n);
  }

  lemma OnceWithout(cs: seq<Ref>, i: nat)
    requires NoRepeats(cs) && i < |cs|
    ensures NoRepeats(Without(cs, i)) && forall q :: q in Without(cs, i) <==> q in cs && q != cs[i]
  {
  }

  lemma ReapUp(s: State, i: nat, q: Ref)
    requires CanReap(s, i) && q in Reaped(s, i).heap && q != s.init
    ensures Up(Reaped(s, i).heap, q)
  {
    hide Rooted, PidsOk, Without;
    assert Up(s.heap, q);
    assert Down(s.heap, s.current.value);
    OnceWithout(s.heap[s.current.value].children, i);
  }

  lemma ReapDown(s: State, i: nat, p: Ref)
    requires CanReap(s, i) && p in Reaped(s, i).heap
    ensures Down(Reaped(s, i).heap, p)
  {
    hide Rooted, PidsOk, Without;
    assert Down(s.heap, p);
    assert Down(s.heap, s.current.value);
    OnceWithout(s.heap[s.current.value].children, i);
  }

  lemma ReapSched(s: State, i: nat)
    requires CanReap(s, i)
    ensures var s' := Reaped(s, i); SchedOk(s'.heap, s'.queue, s'.current, s'.init)
                                    && CountsOk(s'.heap, s'.queue, s'.current)
  {
    hide Rooted, PidsOk, LinksOk;
  }

  lemma ReapPids(s: State, i: nat)
    requires CanReap(s, i)
    ensures PidsOk(Reaped(s, i).heap, Reaped(s, i).live)
  {
    hide Rooted, LinksOk, CountsOk;
    var s' := Reaped(s, i);
    forall pid | pid in s'.live ensures exists r :: r in s'.heap && s'.heap[r].pid == pid {
      var r :| r in s.heap && s.heap[r].pid == pid;
      assert r in s'.heap && s'.heap[r].pid == pid;
    }
  }

  lemma ReapKeeps(s: State, i: nat)
    requires CanReap(s, i)
    ensures Inv(Reaped(s, i))
  {
    hide Up, Down, Rooted, PidsOk, CountsOk;
    ReapSched(s, i);
    ReapPids(s, i);
    forall q | q in Reaped(s, i).heap && q != s.init ensures Up(Reaped(s, i).heap, q) { ReapUp(s, i, q); }
    forall q | q in Reaped(s, i).heap ensures Down(Reaped(s, i).heap, q) { ReapDown(s, i, q); }
    forall q | q in Reaped(s, i).heap ensures Rooted(Reaped(s, i).heap, s.init, q) { ReapRooted(s, i, q); }
  }

  // ---------------------------------------------------------------- runs

  /** `add_initproc`: initproc alone, held by INITPROC and the queue. */
  ghost function Boot(init: Ref, pid: nat): State {
    State(map[init := Tcb(pid, Ready, None, [], 0, 2, false)], [init], None, init, {pid})
  }

  lemma BootOk(init: Ref, pid: nat)
    ensures Inv(Boot(init, pid))
  {
    var s := Boot(init, pid);
    assert Reaches(s.heap, init, init, 0);
    assert Down(s.heap, init);
  }

  datatype Step =
    | Fetch
    | Suspend
    | StartRead
    | EndRead
    | Fork(addr: Ref, pid: nat)
    | Exit(code: int)
    | Reap(index: nat)

  /** The current task is in user mode, free to make a system call. */
  ghost predicate InUser(s: State) {
    s.current.Some? && s.current.value in s.heap && !s.heap[s.current.value].reading
  }

  ghost predicate Enabled(s: State, step: Step) {
    match step
    case Fetch => s.current.None? && s.queue != [] && s.queue[0] in s.heap
    case Suspend => s.current.Some? && s.current.value in s.heap
    case StartRead => InUser(s)
    case EndRead => s.current.Some? && s.current.value in s.heap && s.heap[s.current.value].reading
    case Fork(addr, pid) => InUser(s) && addr !in s.heap && pid !in s.live
    case Exit(code) => InUser(s) && s.current.value != s.init
    case Reap(i) => InUser(s) && i < |s.heap[s.current.value].children| && s.heap[s.current.value].children[i] in s.heap
                    && s.heap[s.heap[s.current.value].children[i]].status == Zombie
  }

  ghost function After(s: State, step: Step): State
    requires Enabled(s, step)
  {
    match step
    case Fetch => Fetched(s)
    case Suspend => Suspended(s)
    case StartRead => ReadStarted(s)
    case EndRead => ReadEnded(s)
    case Fork(addr, pid) => Forked(s, addr, pid)
    case Exit(code) => Exited(s, code)
    case Reap(i) => Reaped(s, i)
  }

  /** Where a run ends, if each of its steps is enabled in turn. */
  ghost function Final(s: State, steps: seq<Step>): Option<State> {
    if steps == [] then Some(s) else
      var before := Final(s, steps[..|steps| - 1]);
      var last := steps[|steps| - 1];
      if before.Some? && Enabled(before.value, last) then Some(After(before.value, last)) else None
  }

  lemma StepKeeps(s: State, step: Step)
    requires Inv(s) && Enabled(s, step)
    ensures Inv(After(s, step))
  {
    hide Inv, Fetched, Suspended, ReadStarted, ReadEnded, Forked, Exited, Reaped;
    match step
    case Fetch => FetchKeeps(s);
    case Suspend => SuspendKeeps(s);
    case StartRead => ReadKeeps(s);
    case EndRead => ReadEndKeeps(s);
    case Fork(addr, pid) => ForkKeeps(s, addr, pid);
    case Exit(code) => ExitKeeps(s, code);
    case Reap(i) => ReapKeeps(s, i);
  }

  /** Every state of every run: one parent each, all rooted in initproc, counts exact, pids distinct, one place each. */
  lemma {:induction false} RunKeeps(s: State, steps: seq<Step>)
    requires Inv(s) && Final(s, steps).Some?
    ensures Inv(Final(s, steps).value)
  {
    hide Inv, Enabled, After;
    if steps != [] {
      RunKeeps(s, steps[..|steps| - 1]);
      StepKeeps(Final(s, steps[..|steps| - 1]).value, steps[|steps| - 1]);
    }
  }

  /** The strong-count assertion of `sys_waitpid` holds whenever a run reaches it. */
  lemma WaitpidNeverFails(s: State, steps: seq<Step>, i: nat)
    requires Inv(s) && Final(s, steps).Some? && Enabled(Final(s, steps).value, Reap(i))
    ensures var s' := Final(s, steps).value; s'.heap[s'.heap[s'.current.value].children[i]].strong == 1
  {
    hide TreeOk, PidsOk;
    RunKeeps(s, steps);
  }

  function Fetches(steps: seq<Step>): nat {
    if steps == [] then 0 else Fetches(steps[..|steps| - 1]) + One(steps[|steps| - 1] == Fetch)
  }

  /** The task at position `k` moves up by one with every fetch, whatever else happens. */
  lemma {:induction false} Fifo(s: State, steps: seq<Step>, k: nat)
    requires Final(s, steps).Some? && k < |s.queue| && Fetches(steps) <= k
    ensures var left := k - Fetches(steps); left < |Final(s, steps).value.queue|
                                            && Final(s, steps).value.queue[left] == s.queue[k]
  {
    hide InUser;
    if steps != [] { Fifo(s, steps[..|steps| - 1], k); }
  }

  /** It is dispatched on exactly the (k+1)-th fetch. */
  lemma DispatchedInTurn(s: State, steps: seq<Step>, k: nat)
    requires Final(s, steps).Some? && k < |s.queue| && steps != [] && steps[|steps| - 1] == Fetch
             && Fetches(steps) == k + 1
    ensures Final(s, steps).value.current == Some(s.queue[k])
  {
    Fifo(s, steps[..|steps| - 1], k);
  }

  // ---------------------------------------------------------------- the order of children, and exit codes

  /** `x` comes before `y` in the list. */
  ghost predicate Before(s: seq<Ref>, x: Ref, y: Ref) {
    exists i, j :: 0 <= i < j < |s| && s[i] == x && s[j] == y
  }

  lemma BeforeAt(s: seq<Ref>, i: nat, j: nat)
    requires i < j < |s|
    ensures Before(s, s[i], s[j])
  {
  }

  /** Taking one element out moves those behind it up by one and no other. */
  lemma WithoutAt(s: seq<Ref>, i: nat, j: nat)
    requires i < |s| && j < |s| - 1
    ensures |Without(s, i)| == |s| - 1 && Without(s, i)[j] == s[if j < i then j else j + 1]
  {
  }

  lemma WithoutOrder(s: seq<Ref>, k: nat, x: Ref, y: Ref)
    requires k < |s| && Before(s, x, y) && x != s[k] && y != s[k]
    ensures Before(Without(s, k), x, y)
  {
    hide Before, Without;
    var i, j := Places(s, x, y);
    var i', j' := if i < k then i else i - 1, if j < k then j else j - 1;
    WithoutAt(s, k, i');
    WithoutAt(s, k, j');
    BeforeAt(Without(s, k), i', j');
  }

  lemma Places(s: seq<Ref>, x: Ref, y: Ref) returns (i: nat, j: nat)
    requires Before(s, x, y)
    ensures i < j < |s| && s[i] == x && s[j] == y
  {
    i, j :| 0 <= i < j < |s| && s[i] == x && s[j] == y;
  }

  lemma AppendOrder(s: seq<Ref>, t: seq<Ref>, x: Ref, y: Ref)
    requires Before(s, x, y) || (x in s && y in t)
    ensures Before(s + t, x, y)
  {
    if Before(s, x, y) {
      var i, j := Places(s, x, y);
      BeforeAt(s + t, i, j);
    } else {
      var i :| 0 <= i < |s| && s[i] == x;
      var j :| 0 <= j < |t| && t[j] == y;
      BeforeAt(s + t, i, |s| + j);
    }
  }

  ghost predicate Siblings(s: State, p: Ref, x: Ref, y: Ref) {
    p in s.heap && x in s.heap[p].children && y in s.heap[p].children
  }

  lemma OrderStep(s: State, step: Step, p: Ref, x: Ref, y: Ref)
    requires Inv(s) && Enabled(s, step) && Siblings(s, p, x, y) && Before(s.heap[p].children, x, y)
    requires Siblings(After(s, step), p, x, y)
    ensures Before(After(s, step).heap[p].children, x, y)
  {
    hide Before, Rooted, PidsOk, SchedOk, CountsOk, Without;
    var cs := s.heap[p].children;
    match step
    case Fork(addr, pid) => AppendOrder(cs, [addr], x, y);
    case Exit(code) => AppendOrder(cs, s.heap[s.current.value].children, x, y);
    case Reap(i) =>
      if p == s.current.value {
        assert Down(s.heap, p);
        OnceWithout(cs, i);
        WithoutOrder(cs, i, x, y);
      }
    case _ =>
  }

  /** As long as two tasks stay children of the same one, they stay in the order in which they became so. */
  lemma {:induction false} SiblingsInOrder(s: State, steps: seq<Step>, p: Ref, x: Ref, y: Ref)
    requires Inv(s) && Siblings(s, p, x, y) && Before(s.heap[p].children, x, y)
    requires forall k | 0 <= k <= |steps| ::
             Final(s, steps[..k]).Some? && Siblings(Final(s, steps[..k]).value, p, x, y)
    ensures Final(s, steps).Some? && Siblings(Final(s, steps).value, p, x, y)
    ensures Before(Final(s, steps).value.heap[p].children, x, y)
  {
    hide Inv, Enabled, After, Before, Siblings;
    assert steps[..|steps|] == steps;
    if steps != [] {
      var init := steps[..|steps| - 1];
      assert forall k | 0 <= k <= |init| :: init[..k] == steps[..k];
      SiblingsInOrder(s, init, p, x, y);
      RunKeeps(s, init);
      OrderStep(Final(s, init).value, steps[|steps| - 1], p, x, y);
    }
  }

  /** A task joins the list of its parent behind all that are there, whether it is forked or inherited. */
  lemma NewChildrenLast(s: State, step: Step, x: Ref, y: Ref)
    requires Inv(s) && Enabled(s, step)
    ensures step.Fork? && x in s.heap[s.current.value].children ==>
              Before(After(s, step).heap[s.current.value].children, x, step.addr)
    ensures step.Exit? && x in s.heap[s.init].children && y in s.heap[s.current.value].children ==>
              Before(After(s, step).heap[s.init].children, x, y)
  {
    hide Before, Rooted, PidsOk, SchedOk, CountsOk;
    if step.Fork? && x in s.heap[s.current.value].children {
      AppendOrder(s.heap[s.current.value].children, [step.addr], x, step.addr);
    }
    if step.Exit? && x in s.heap[s.init].children && y in s.heap[s.current.value].children {
      AppendOrder(s.heap[s.init].children, s.heap[s.current.value].children, x, y);
    }
  }

  lemma CodeStep(s: State, step: Step, r: Ref)
    requires Inv(s) && Enabled(s, step) && r in s.heap && s.heap[r].status == Zombie && r in After(s, step).heap
    ensures var z := After(s, step).heap[r];
            z.status == Zombie && z.exitCode == s.heap[r].exitCode && z.pid == s.heap[r].pid
  {
    hide TreeOk, PidsOk, CountsOk;
  }

  lemma {:induction false} CodeKept(s: State, steps: seq<Step>, r: Ref)
    requires Inv(s) && r in s.heap && s.heap[r].status == Zombie
    requires forall k | 0 <= k <= |steps| :: Final(s, steps[..k]).Some? && r in Final(s, steps[..k]).value.heap
    ensures Final(s, steps).Some? && r in Final(s, steps).value.heap
    ensures var z := Final(s, steps).value.heap[r];
            z.status == Zombie && z.exitCode == s.heap[r].exitCode && z.pid == s.heap[r].pid
  {
    hide Inv, Enabled, After;
    assert steps[..|steps|] == steps;
    if steps != [] {
      var init := steps[..|steps| - 1];
      assert forall k | 0 <= k <= |init| :: init[..k] == steps[..k];
      CodeKept(s, init, r);
      RunKeeps(s, init);
      CodeStep(Final(s, init).value, steps[|steps| - 1], r);
    }
  }

  /** Whoever collects the task, and however much later, finds the code it exited with under the pid it had. */
  lemma ExitDelivered(s: State, code: int, steps: seq<Step>)
    requires Inv(s) && Enabled(s, Exit(code))
    requires forall k | 0 <= k <= |steps| ::
             Final(After(s, Exit(code)), steps[..k]).Some?
                 && s.current.value in Final(After(s, Exit(code)), steps[..k]).value.heap
    ensures Final(After(s, Exit(code)), steps).Some?
            && s.current.value in Final(After(s, Exit(code)), steps).value.heap
    ensures var z := Final(After(s, Exit(code)), steps).value.heap[s.current.value];
            z.status == Zombie && z.exitCode == code && z.pid == s.heap[s.current.value].pid
  {
    hide Inv, Final;
    StepKeeps(s, Exit(code));
    CodeKept(After(s, Exit(code)), steps, s.current.value);
  }
}
