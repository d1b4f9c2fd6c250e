/** Three-level Sv39 page tables stored in frames (os/src/memory/page_table.rs, os/src/memory/address.rs). */
module PageTables {
  import opened Sequences
  import opened Bits
  import opened Options
  import opened Frames
  import opened Hardware

  const VPN_LIMIT: nat := 0x800_0000 // 2^27

  // ---------------------------------------------------------------- entries

  const V: nat := 1

  /** `PageTableEntry::new`. */
  function MakePte(ppn: nat, flags: nat): nat {
    Or(Shl(ppn, 10), flags)
  }

  /** `token`: the value of satp that selects the table. */
  function Token(root: nat): nat {
    Or(Shl(8, 60), root)
  }

  /** `PageTableEntry::ppn`. */
  function PtePpn(bits: nat): nat {
    And(Shr(bits, 10), Pow2(44) - 1)
  }

  /** `PageTableEntry::flags`: the low byte. */
  function PteFlags(bits: nat): nat {
    bits % 256
  }

  predicate PteValid(bits: nat) {
    Bit(PteFlags(bits), 0)
  }

  predicate PteReadable(bits: nat) {
    Bit(PteFlags(bits), 1)
  }

  predicate PteWritable(bits: nat) {
    Bit(PteFlags(bits), 2)
  }

  predicate PteExecutable(bits: nat) {
    Bit(PteFlags(bits), 3)
  }

  /** An entry gives back the frame and the flags it was made from. */
  lemma PteRoundTrip(ppn: nat, flags: nat)
    requires ppn < PPN_LIMIT && flags < 256
    ensures PtePpn(MakePte(ppn, flags)) == ppn && PteFlags(MakePte(ppn, flags)) == flags
  {
    hide And, Or;
    assert Pow2(10) == 1024 by { assert Pow2(5) == 32; Pow2Add(5, 5); }
    UnpackFields(ppn, flags, 10);
    OrPack(ppn, flags, 10);
    AndMask(ppn, 44);
    Pow44();
    assert (ppn * 1024 + flags) % 256 == flags by { ModUnique(ppn * 1024 + flags, 256, 4 * ppn, flags); }
  }

  lemma Pow44()
    ensures Pow2(44) == PPN_LIMIT
  {
    assert Pow2(11) == 2048 by { assert Pow2(5) == 32 && Pow2(6) == 64; Pow2Add(5, 6); }
    Pow2Add(11, 11);
    Pow2Add(22, 22);
  }

  lemma Pow60()
    ensures Pow2(60) == 0x1000_0000_0000_0000
  {
    assert Pow2(8) == 256;
    hide Pow2;
    Pow44();
    Pow2Add(8, 8);
    Pow2Add(44, 16);
  }

  /** `flags | V` is valid and keeps every other flag. */
  lemma ValidFlags(flags: nat)
    requires flags < 256
    ensures Or(flags, V) < 256 && Bit(Or(flags, V), 0)
    ensures forall i: nat | i > 0 :: Bit(Or(flags, V), i) == Bit(flags, i)
  {
    hide Or, Bit;
    assert Pow2(0) == V && Pow2(8) == 256;
    OrBound(flags, V, 8);
    forall i: nat ensures Bit(Or(flags, V), i) == (Bit(flags, i) || i == 0) {
      OrIsBitwise(flags, V, i);
      BitOfPow2(0, i);
    }
  }

  lemma ZeroInvalid()
    ensures !PteValid(0)
  {
  }

  lemma NodeEntryValid(ppn: nat)
    requires ppn < PPN_LIMIT
    ensures PteValid(MakePte(ppn, V)) && PtePpn(MakePte(ppn, V)) == ppn && PteFlags(MakePte(ppn, V)) == 1
  {
    hide MakePte, PtePpn;
    PteRoundTrip(ppn, V);
  }

  // ---------------------------------------------------------------- indexes

  function Index0(vpn: nat): (i: nat)
    ensures i < 512
  {
    vpn / 0x4_0000 % 512
  }

  function Index1(vpn: nat): (i: nat)
    ensures i < 512
  {
    vpn / 512 % 512
  }

  function Index2(vpn: nat): (i: nat)
    ensures i < 512
  {
    vpn % 512
  }

  /** `VirtPageNum::indexes`, which peels nine bits at a time off the low end. */
  method Indexes(vpn: nat) returns (idx: (nat, nat, nat))
    ensures idx == (Index0(vpn), Index1(vpn), Index2(vpn))
  {
    assert Pow2(9) == 512 by { assert Pow2(4) == 16 && Pow2(5) == 32; Pow2Add(4, 5); }
    hide And;
    var v := vpn;
    AndMask(v, 9);
    var i2 := And(v, 511);
    v := Shr(v, 9);
    AndMask(v, 9);
    var i1 := And(v, 511);
    v := Shr(v, 9);
    AndMask(v, 9);
    var i0 := And(v, 511);
    assert vpn / 512 / 512 == vpn / 0x4_0000;
    idx := (i0, i1, i2);
  }

  /** The three indexes identify the page. */
  lemma IndexesInjective(a: nat, b: nat)
    requires a < VPN_LIMIT && b < VPN_LIMIT
    requires Index0(a) == Index0(b) && Index1(a) == Index1(b) && Index2(a) == Index2(b)
    ensures a == b
  {
    assert a / 512 / 512 == a / 0x4_0000 && b / 512 / 512 == b / 0x4_0000;
  }

  // ---------------------------------------------------------------- tables

  /** A node of the tree: the root, a second-level table or a third-level table. */
  datatype Path = Root | Mid(i: nat) | Low(i: nat, j: nat)

  type Nodes = map<Path, nat>

  function Child(p: Path, k: nat): Path
    requires !p.Low?
  {
    if p.Root? then Mid(k) else Low(p.i, k)
  }

  /** An entry that leads to `child`, or to nothing. */
  ghost predicate EntryOk(bits: nat, nodes: Nodes, child: Path) {
    if child in nodes then bits == MakePte(nodes[child], V) else !PteValid(bits)
  }

  ghost predicate ShapeOk(nodes: Nodes) {
    && Root in nodes
    && (forall p | p in nodes && p.Mid? :: p.i < 512)
    && (forall p | p in nodes && p.Low? :: p.i < 512 && p.j < 512 && Mid(p.i) in nodes)
    && (forall p, q | p in nodes && q in nodes && nodes[p] == nodes[q] :: p == q)
    && (forall p | p in nodes :: nodes[p] < PPN_LIMIT)
  }

  /** The frames of `nodes` hold a tree without sharing: the first two levels hold pointers to the nodes below
      and nothing else. */
  ghost predicate TableOk(mem: Memory, nodes: Nodes) {
    && ShapeOk(nodes)
    && (forall p | p in nodes :: nodes[p] in mem)
    && (forall p, k: nat | p in nodes && !p.Low? && k < 512 :: EntryOk(mem[nodes[p]][k], nodes, Child(p, k)))
  }

  function LowOf(vpn: nat): Path {
    Low(Index0(vpn), Index1(vpn))
  }

  /** The flat map the table stands for: the entry of each mapped page. */
  ghost function Flat(mem: Memory, nodes: Nodes, vpn: nat): Option<nat> {
    if LowOf(vpn) in nodes && nodes[LowOf(vpn)] in mem && PteValid(mem[nodes[LowOf(vpn)]][Index2(vpn)])
    then Some(mem[nodes[LowOf(vpn)]][Index2(vpn)]) else None
  }

  /** The table depends on the contents of its own frames only. */
  lemma TableFrame(mem: Memory, mem': Memory, nodes: Nodes)
    requires TableOk(mem, nodes) && forall p | p in nodes :: nodes[p] in mem' && mem'[nodes[p]] == mem[nodes[p]]
    ensures TableOk(mem', nodes) && forall vpn: nat :: Flat(mem', nodes, vpn) == Flat(mem, nodes, vpn)
  {
    hide EntryOk, PteValid, Index0, Index1, Index2;
  }

  /** A new, zeroed node below an entry that led nowhere: the tree stays a tree, and no page is mapped by it. */
  lemma AddNode(mem: Memory, nodes: Nodes, parent: Path, k: nat, ppn: nat)
    requires TableOk(mem, nodes) && parent in nodes && !parent.Low? && k < 512 && Child(parent, k) !in nodes
    requires ppn < PPN_LIMIT && forall p | p in nodes :: nodes[p] != ppn
    ensures var mem1 := mem[ppn := ZeroFrame()];
            var mem2 := mem1[nodes[parent] := mem1[nodes[parent]][k := MakePte(ppn, V)]];
            && TableOk(mem2, nodes[Child(parent, k) := ppn])
            && forall vpn: nat :: Flat(mem2, nodes[Child(parent, k) := ppn], vpn) == Flat(mem, nodes, vpn)
  {
    hide MakePte, PteValid, Index0, Index1, Index2, ZeroFrame;
    var child := Child(parent, k);
    var nodes' := nodes[child := ppn];
    var mem1 := mem[ppn := ZeroFrame()];
    var mem2 := mem1[nodes[parent] := mem1[nodes[parent]][k := MakePte(ppn, V)]];
    ZeroInvalid();
    assert ShapeOk(nodes');
    forall p, j: nat | p in nodes' && !p.Low? && j < 512 ensures EntryOk(mem2[nodes'[p]][j], nodes', Child(p, j)) {
      ChildInjective(parent, k, p, j);
      if p in nodes && p != child { assert EntryOk(mem[nodes[p]][j], nodes, Child(p, j)); }
    }
  }

  lemma ChildInjective(p: Path, k: nat, q: Path, j: nat)
    requires !p.Low? && !q.Low?
    ensures Child(p, k) == Child(q, j) <==> p == q && k == j
    ensures Child(p, k) != p && (p.Root? || q.Root? ==> Child(p, k) != Root)
  {
  }

  /** Writing one leaf entry changes that page and no other. */
  lemma SetLeaf(mem: Memory, nodes: Nodes, vpn: nat, bits: nat)
    requires TableOk(mem, nodes) && vpn < VPN_LIMIT && LowOf(vpn) in nodes
    ensures var n := nodes[LowOf(vpn)];
            var mem' := mem[n := mem[n][Index2(vpn) := bits]];
            && TableOk(mem', nodes)
            && Flat(mem', nodes, vpn) == (if PteValid(bits) then Some(bits) else None)
            && forall v: nat | v < VPN_LIMIT && v != vpn :: Flat(mem', nodes, v) == Flat(mem, nodes, v)
  {
    hide MakePte, PteValid, Index0, Index1, Index2;
    var n := nodes[LowOf(vpn)];
    var mem' := mem[n := mem[n][Index2(vpn) := bits]];
    forall p, j: nat | p in nodes && !p.Low? && j < 512 ensures EntryOk(mem'[nodes[p]][j], nodes, Child(p, j)) {
      assert EntryOk(mem[nodes[p]][j], nodes, Child(p, j));
    }
    forall v: nat | v < VPN_LIMIT && v != vpn ensures Flat(mem', nodes, v) == Flat(mem, nodes, v) {
      if LowOf(v) == LowOf(vpn) && Index2(v) == Index2(vpn) { IndexesInjective(v, vpn); }
    }
  }

  // ---------------------------------------------------------------- walking, mapping, unmapping

  /** The frames a table owns are those of its nodes. */
  ghost predicate FramesMatch(frames: seq<nat>, nodes: Nodes) {
    && NoRepeats(frames)
    && (forall p | p in nodes :: nodes[p] in frames)
    && (forall i | 0 <= i < |frames| :: exists p :: p in nodes && nodes[p] == frames[i])
  }

  /** Live frames outside `mine` keep their contents. */
  ghost predicate OthersUntouched(mem: Memory, mem': Memory, live: set<nat>, mine: seq<nat>) {
    forall p | p in mem && p in live && p !in mine :: p in mem' && mem'[p] == mem[p]
  }

  ghost predicate SameFlat(mem: Memory, nodes: Nodes, mem': Memory, nodes': Nodes) {
    forall vpn: nat :: Flat(mem', nodes', vpn) == Flat(mem, nodes, vpn)
  }

  /** The node at which a walk stands after `level` steps. */
  function PathAt(vpn: nat, level: nat): Path {
    if level == 0 then Root else if level == 1 then Mid(Index0(vpn)) else LowOf(vpn)
  }

  function IndexAt(vpn: nat, level: nat): (i: nat)
    ensures i < 512
  {
    if level == 0 then Index0(vpn) else if level == 1 then Index1(vpn) else Index2(vpn)
  }

  lemma PathSteps(vpn: nat, level: nat)
    requires level < 2
    ensures !PathAt(vpn, level).Low? && Child(PathAt(vpn, level), IndexAt(vpn, level)) == PathAt(vpn, level + 1)
  {
  }

  class PageTable {
    var root: nat
    var frames: seq<nat>
    ghost var nodes: Nodes

    ghost predicate Valid(mem: Memory)
      reads this
    {
      TableOk(mem, nodes) && nodes[Root] == root && FramesMatch(frames, nodes)
    }

    /** The root frame is empty: nothing is mapped. */
    constructor (root: nat, ghost mem: Memory)
      requires root < PPN_LIMIT && root in mem && mem[root] == ZeroFrame()
      ensures Valid(mem) && this.root == root && frames == [root] && forall vpn: nat :: Flat(mem, nodes, vpn).None?
    {
      this.root, frames, nodes := root, [root], map[Root := root];
      new;
      ZeroInvalid();
      hide PteValid;
      assert forall k | 0 <= k < 512 :: mem[root][k] == 0;
    }

    /** `find_pte`: the node that holds the leaf entry, if the walk reaches it. */
    method FindPte(fm: FrameMemory, vpn: nat) returns (r: Option<nat>)
      requires Valid(fm.mem)
      ensures r.Some? <==> LowOf(vpn) in nodes
      ensures r.Some? ==> r.value == nodes[LowOf(vpn)] && r.value in fm.mem
    {
      hide MakePte, PteValid, PtePpn, Index0, Index1, Index2, FramesMatch;
      var ppn, i := root, 0;
      while i < 2
        invariant i <= 2 && PathAt(vpn, i) in nodes && ppn == nodes[PathAt(vpn, i)]
      {
        PathSteps(vpn, i);
        var pte := fm.mem[ppn][IndexAt(vpn, i)];
        ghost var child := Child(PathAt(vpn, i), IndexAt(vpn, i));
        assert EntryOk(pte, nodes, child);
        if child in nodes { NodeEntryValid(nodes[child]); }
        if !PteValid(pte) {
          assert LowOf(vpn) !in nodes by { NoLowWithoutMid(nodes, vpn, i); }
          return None;
        }
        ppn := PtePpn(pte);
        i := i + 1;
      }
      return Some(ppn);
    }

    /** One step of `find_pte_create`: make the child exist. */
    method Descend(fm: FrameMemory, parent: Path, ppn: nat, k: nat) returns (r: Option<nat>)
      requires fm.Valid() && Valid(fm.mem) && parent in nodes && !parent.Low? && ppn == nodes[parent] && k < 512
      requires forall i | 0 <= i < |frames| :: frames[i] in fm.Live()
      modifies this`frames, this`nodes, fm
      ensures fm.Valid() && Valid(fm.mem) && fm.mem.Keys == old(fm.mem.Keys)
      ensures r.Some? ==> Child(parent, k) in nodes && r.value == nodes[Child(parent, k)]
      ensures forall p | p in old(nodes) :: p in nodes && nodes[p] == old(nodes)[p]
      ensures Grown(old(frames), frames, old(fm.Live()), fm.Live()) && SameFlat(old(fm.mem), old(nodes), fm.mem, nodes)
      ensures OthersUntouched(old(fm.mem), fm.mem, old(fm.Live()), old(frames))
      ensures fm.Available() >= old(fm.Available()) - 1 && (r.None? ==> old(fm.Available()) == 0)
    {
      hide MakePte, PteValid, PtePpn, LiveFrames, Flat, FramesMatch, AllocatorOk;
      ghost var child := Child(parent, k);
      var pte := fm.mem[ppn][k];
      assert EntryOk(pte, nodes, child);
      if child in nodes { NodeEntryValid(nodes[child]); }
      if !PteValid(pte) {
        r := AddChild(fm, parent, ppn, k);
        return;
      }
      return Some(PtePpn(pte));
    }

    /** A node for an entry that led nowhere: allocated, linked, and owned from now on. */
    method AddChild(fm: FrameMemory, ghost parent: Path, ppn: nat, k: nat) returns (r: Option<nat>)
      requires fm.Valid() && Valid(fm.mem) && parent in nodes && !parent.Low? && ppn == nodes[parent] && k < 512
      requires Child(parent, k) !in nodes && forall i | 0 <= i < |frames| :: frames[i] in fm.Live()
      modifies this`frames, this`nodes, fm
      ensures fm.Valid() && Valid(fm.mem) && fm.mem.Keys == old(fm.mem.Keys)
      ensures nodes == if r.Some? then old(nodes)[Child(parent, k) := r.value] else old(nodes)
      ensures Grown(old(frames), frames, old(fm.Live()), fm.Live()) && SameFlat(old(fm.mem), old(nodes), fm.mem, nodes)
      ensures OthersUntouched(old(fm.mem), fm.mem, old(fm.Live()), old(frames))
      ensures fm.Available() >= old(fm.Available()) - 1 && (r.None? ==> old(fm.Available()) == 0)
    {
      hide MakePte, TableOk, FramesMatch, LiveFrames, Flat, ZeroFrame, AllocatorOk;
      ghost var mem0, live0 := fm.mem, fm.Live();
      ghost var child := Child(parent, k);
      NodesLive(mem0, frames, nodes, live0);
      r := fm.Alloc();
      if r.None? { return; }
      InRange(fm.start, fm.end, fm.current, fm.recycled);
      AddNode(mem0, nodes, parent, k, r.value);
      FramesGrow(frames, nodes, child, r.value);
      fm.Write(ppn, k, MakePte(r.value, V));
      frames, nodes := frames + [r.value], nodes[child := r.value];
    }

    /** `find_pte_create`: the node for the leaf entry, created with its parent if need be. Only the frame
        allocator can stop it. */
    method FindPteCreate(fm: FrameMemory, vpn: nat) returns (r: Option<nat>)
      requires fm.Valid() && Valid(fm.mem) && forall i | 0 <= i < |frames| :: frames[i] in fm.Live()
      modifies this`frames, this`nodes, fm
      ensures fm.Valid() && Valid(fm.mem) && fm.mem.Keys == old(fm.mem.Keys)
      ensures r.Some? ==> LowOf(vpn) in nodes && r.value == nodes[LowOf(vpn)]
      ensures Grown(old(frames), frames, old(fm.Live()), fm.Live()) && SameFlat(old(fm.mem), old(nodes), fm.mem, nodes)
      ensures OthersUntouched(old(fm.mem), fm.mem, old(fm.Live()), old(frames))
      ensures old(fm.Available()) >= 2 ==> r.Some?
      ensures fm.Available() >= old(fm.Available()) - 2
    {
      hide TableOk, FramesMatch, LiveFrames, AllocatorOk, Grown, SameFlat, OthersUntouched, Index0, Index1, Index2;
      ghost var mem0, live0, frames0, nodes0 := fm.mem, fm.Live(), frames, nodes;
      NodesLive(mem0, frames, nodes, live0);
      NothingGrown(mem0, nodes, frames, live0);
      var ppn, i := root, 0;
      while i < 2
        invariant i <= 2 && fm.Valid() && Valid(fm.mem) && fm.mem.Keys == mem0.Keys
        invariant PathAt(vpn, i) in nodes && ppn == nodes[PathAt(vpn, i)]
        invariant forall j | 0 <= j < |frames| :: frames[j] in fm.Live()
        invariant Grown(frames0, frames, live0, fm.Live()) && SameFlat(mem0, nodes0, fm.mem, nodes)
        invariant OthersUntouched(mem0, fm.mem, live0, frames0)
        invariant fm.Available() >= old(fm.Available()) - i
      {
        ghost var mem1, live1, frames1, nodes1 := fm.mem, fm.Live(), frames, nodes;
        PathSteps(vpn, i);
        var child := Descend(fm, PathAt(vpn, i), ppn, IndexAt(vpn, i));
        GrowAgain(mem0, mem1, fm.mem, frames0, frames1, frames, live0, live1, fm.Live());
        FlatAgain(mem0, nodes0, mem1, nodes1, fm.mem, nodes);
        if child.None? { return None; }
        ppn := child.value;
        i := i + 1;
      }
      return Some(ppn);
    }

    /** `map`: adds exactly one key to the flat map; the source asserts that it was absent. */
    method Map(fm: FrameMemory, vpn: nat, ppn: nat, flags: nat) returns (ok: bool)
      requires fm.Valid() && Valid(fm.mem) && forall i | 0 <= i < |frames| :: frames[i] in fm.Live()
      requires vpn < VPN_LIMIT && ppn < PPN_LIMIT && flags < 256 && Flat(fm.mem, nodes, vpn).None?
      modifies this`frames, this`nodes, fm
      ensures fm.Valid() && Valid(fm.mem) && fm.mem.Keys == old(fm.mem.Keys)
      ensures Grown(old(frames), frames, old(fm.Live()), fm.Live())
      ensures OthersUntouched(old(fm.mem), fm.mem, old(fm.Live()), old(frames))
      ensures forall v: nat | v < VPN_LIMIT && v != vpn :: Flat(fm.mem, nodes, v) == Flat(old(fm.mem), old(nodes), v)
      ensures ok ==> Flat(fm.mem, nodes, vpn) == Some(MakePte(ppn, Or(flags, V)))
      ensures old(fm.Available()) >= 2 ==> ok
      ensures fm.Available() >= old(fm.Available()) - 2
    {
      hide TableOk, FramesMatch, LiveFrames, AllocatorOk, Flat, MakePte, Or, Index0, Index1, Index2, Grown,
           OthersUntouched;
      ghost var mem0, live0, frames0 := fm.mem, fm.Live(), frames;
      var node := FindPteCreate(fm, vpn);
      if node.None? { return false; }
      NodeFacts(fm.mem, frames, nodes, LowOf(vpn));
      ghost var mem1 := fm.mem;
      assert !PteValid(mem1[node.value][Index2(vpn)]) by { InvalidLeaf(mem1, nodes, vpn); }
      SetLeaf(mem1, nodes, vpn, MakePte(ppn, Or(flags, V)));
      MappedValid(ppn, flags);
      fm.Write(node.value, Index2(vpn), MakePte(ppn, Or(flags, V)));
      LeafUntouched(mem0, mem1, fm.mem, live0, fm.Live(), frames0, frames, node.value);
      return true;
    }

    /** `unmap`: removes exactly one key; the source panics unless it was present. */
    method Unmap(fm: FrameMemory, vpn: nat)
      requires fm.Valid() && Valid(fm.mem) && vpn < VPN_LIMIT && Flat(fm.mem, nodes, vpn).Some?
      modifies fm`mem
      ensures fm.Valid() && Valid(fm.mem) && fm.mem.Keys == old(fm.mem.Keys)
      ensures forall p | p in fm.mem && p !in frames :: fm.mem[p] == old(fm.mem)[p]
      ensures forall v: nat | v < VPN_LIMIT && v != vpn :: Flat(fm.mem, nodes, v) == Flat(old(fm.mem), nodes, v)
      ensures Flat(fm.mem, nodes, vpn).None?
    {
      hide TableOk, FramesMatch, AllocatorOk, PteValid, Index0, Index1, Index2;
      var node := FindPte(fm, vpn);
      NodeFacts(fm.mem, frames, nodes, LowOf(vpn));
      assert PteValid(fm.mem[node.value][Index2(vpn)]);
      SetLeaf(fm.mem, nodes, vpn, 0);
      ZeroInvalid();
      fm.Write(node.value, Index2(vpn), 0);
    }

    /** `translate`: the leaf entry if its node exists, valid or not; a valid one is the flat map's. */
    method Translate(fm: FrameMemory, vpn: nat) returns (r: Option<nat>)
      requires Valid(fm.mem)
      ensures r.Some? <==> LowOf(vpn) in nodes
      ensures r.None? ==> Flat(fm.mem, nodes, vpn).None?
      ensures r.Some? ==> Flat(fm.mem, nodes, vpn) == if PteValid(r.value) then r else None
    {
      hide TableOk, FramesMatch, PteValid, Index0, Index1, Index2;
      var node := FindPte(fm, vpn);
      if node.None? { return None; }
      return Some(fm.mem[node.value][Index2(vpn)]);
    }
  }

  lemma NothingGrown(mem: Memory, nodes: Nodes, frames: seq<nat>, live: set<nat>)
    ensures Grown(frames, frames, live, live) && SameFlat(mem, nodes, mem, nodes)
            && OthersUntouched(mem, mem, live, frames)
  {
  }

  lemma GrowAgain(m0: Memory, m1: Memory, m2: Memory, f0: seq<nat>, f1: seq<nat>, f2: seq<nat>, l0: set<nat>,
                  l1: set<nat>, l2: set<nat>)
    requires Grown(f0, f1, l0, l1) && Grown(f1, f2, l1, l2)
    requires OthersUntouched(m0, m1, l0, f0) && OthersUntouched(m1, m2, l1, f1)
    requires forall i | 0 <= i < |f1| :: f1[i] in l1
    ensures Grown(f0, f2, l0, l2) && OthersUntouched(m0, m2, l0, f0)
    ensures forall i | 0 <= i < |f2| :: f2[i] in l2
  {
    assert f2[|f0|..] == f1[|f0|..] + f2[|f1|..];
    assert forall p | p in l0 && p !in f0 :: p !in f1;
    forall i | 0 <= i < |f2| ensures f2[i] in l2 {
      if i >= |f1| { assert f2[|f1|..][i - |f1|] == f2[i]; }
    }
  }

  lemma FlatAgain(m0: Memory, n0: Nodes, m1: Memory, n1: Nodes, m2: Memory, n2: Nodes)
    requires SameFlat(m0, n0, m1, n1) && SameFlat(m1, n1, m2, n2)
    ensures SameFlat(m0, n0, m2, n2)
  {
    hide Flat;
  }

  lemma NodeFacts(mem: Memory, frames: seq<nat>, nodes: Nodes, p: Path)
    requires TableOk(mem, nodes) && FramesMatch(frames, nodes)
    ensures p in nodes ==> nodes[p] in mem && nodes[p] in frames
  {
  }

  lemma InvalidLeaf(mem: Memory, nodes: Nodes, vpn: nat)
    requires Flat(mem, nodes, vpn).None? && LowOf(vpn) in nodes && nodes[LowOf(vpn)] in mem
    ensures !PteValid(mem[nodes[LowOf(vpn)]][Index2(vpn)])
  {
  }

  lemma MappedValid(ppn: nat, flags: nat)
    requires ppn < PPN_LIMIT && flags < 256
    ensures PteValid(MakePte(ppn, Or(flags, V)))
  {
    hide MakePte, PtePpn, Or;
    ValidFlags(flags);
    PteRoundTrip(ppn, Or(flags, V));
  }

  lemma LeafUntouched(m0: Memory, m1: Memory, m2: Memory, l0: set<nat>, l1: set<nat>, f0: seq<nat>, f1: seq<nat>,
                      node: nat)
    requires OthersUntouched(m0, m1, l0, f0) && Grown(f0, f1, l0, l1) && node in f1
    requires forall p | p in m1 && p != node :: p in m2 && m2[p] == m1[p]
    ensures OthersUntouched(m0, m2, l0, f0)
  {
    var i :| 0 <= i < |f1| && f1[i] == node;
  }

  lemma InRange(start: nat, end: nat, current: nat, recycled: seq<nat>)
    requires AllocatorOk(start, current, end, recycled)
    ensures start <= current <= end <= PPN_LIMIT
  {
  }

  lemma NodesLive(mem: Memory, frames: seq<nat>, nodes: Nodes, live: set<nat>)
    requires TableOk(mem, nodes) && FramesMatch(frames, nodes) && forall i | 0 <= i < |frames| :: frames[i] in live
    ensures forall p | p in nodes :: nodes[p] in mem && nodes[p] in live && nodes[p] in frames
    ensures Root in nodes
  {
  }

  /** The owned frames grew by frames that were not live before, and the live ones by just those. */
  ghost predicate Grown(frames: seq<nat>, frames': seq<nat>, live: set<nat>, live': set<nat>) {
    && frames <= frames'
    && (forall i | |frames| <= i < |frames'| :: frames'[i] !in live)
    && (forall p :: p in live' <==> p in live || p in frames'[|frames|..])
  }

  lemma NoLowWithoutMid(nodes: Nodes, vpn: nat, level: nat)
    requires ShapeOk(nodes) && level < 2 && PathAt(vpn, level + 1) !in nodes
    ensures LowOf(vpn) !in nodes
  {
  }

  lemma NodeOf(frames: seq<nat>, nodes: Nodes, i: nat) returns (p: Path)
    requires FramesMatch(frames, nodes) && i < |frames|
    ensures p in nodes && nodes[p] == frames[i]
  {
    var f := frames[i];
    p :| p in nodes && nodes[p] == f;
  }

  lemma FramesGrow(frames: seq<nat>, nodes: Nodes, child: Path, ppn: nat)
    requires FramesMatch(frames, nodes) && child !in nodes && ppn !in frames
    ensures FramesMatch(frames + [ppn], nodes[child := ppn])
  {
    var frames', nodes' := frames + [ppn], nodes[child := ppn];
    assert NoRepeats(frames');
    forall p | p in nodes' ensures nodes'[p] in frames' {
      if p == child { assert frames'[|frames|] == ppn; } else { assert nodes[p] in frames; }
    }
    forall i | 0 <= i < |frames'| ensures exists p :: p in nodes' && nodes'[p] == frames'[i] {
      if i < |frames| {
        var p := NodeOf(frames, nodes, i);
        assert nodes'[p] == frames'[i];
      } else {
        assert nodes'[child] == frames'[i];
      }
    }
  }

  // ---------------------------------------------------------------- the hardware's walk

  /** An entry in plain numbers: the frame from bit 10 on, the flags below. */
  lemma PteFormat(ppn: nat, flags: nat)
    requires ppn < PPN_LIMIT && flags < 256
    ensures MakePte(ppn, flags) == 1024 * ppn + flags
  {
    hide Or;
    assert Pow2(10) == 1024 by { assert Pow2(5) == 32; Pow2Add(5, 5); }
    OrPack(ppn, flags, 10);
  }

  /** Mode 8, which is Sv39, above the root's frame number; `from_token` finds the root again. */
  lemma TokenFormat(root: nat)
    requires root < PPN_LIMIT
    ensures Token(root) == 0x8000_0000_0000_0000 + root && And(Token(root), Pow2(44) - 1) == root
  {
    hide And, Or, Pow2;
    Pow44();
    Pow60();
    OrPack(8, root, 60);
    AndMask(Token(root), 44);
    ModUnique(Token(root), PPN_LIMIT, 0x8_0000, root);
  }

  /** The kernel takes an entry apart where the hardware does. */
  lemma SameFields(pte: nat)
    ensures PtePpn(pte) == EntryPpn(pte) && PteFlags(pte) == pte % 256
    ensures PteValid(pte) == IsV(pte) && PteReadable(pte) == IsR(pte) && PteWritable(pte) == IsW(pte)
    ensures PteExecutable(pte) == IsX(pte)
  {
    hide And;
    assert Pow2(10) == 1024 by { assert Pow2(5) == 32; Pow2Add(5, 5); }
    Pow44();
    AndMask(pte / 1024, 44);
    LowBits(pte);
    BitByDivision(pte % 256);
  }

  lemma LowBits(pte: nat)
    ensures var f := pte % 256; f % 2 == pte % 2 && f / 2 % 2 == pte / 2 % 2 && f / 4 % 2 == pte / 4 % 2
                                && f / 8 % 2 == pte / 8 % 2
  {
    var q, f := pte / 256, pte % 256;
    Digit(128 * q, f, 1, 256 * q + f);
    Digit(64 * q, f, 2, 256 * q + f);
    Digit(32 * q, f, 4, 256 * q + f);
    Digit(16 * q, f, 8, 256 * q + f);
  }

  /** Adding a multiple of `2 * d` does not change the binary digit at `d`. */
  lemma Digit(k: nat, low: nat, d: nat, w: nat)
    requires d > 0 && w == k * (2 * d) + low
    ensures w / d % 2 == low / d % 2
  {
    assert w == (2 * k + low / d) * d + low % d by {
      assert low == low / d * d + low % d;
      assert k * (2 * d) == (2 * k) * d;
      assert (2 * k + low / d) * d == (2 * k) * d + low / d * d;
    }
    ModUnique(w, d, 2 * k + low / d, low % d);
  }

  lemma BitByDivision(w: nat)
    ensures Bit(w, 0) == (w % 2 == 1) && Bit(w, 1) == (w / 2 % 2 == 1) && Bit(w, 2) == (w / 4 % 2 == 1)
    ensures Bit(w, 3) == (w / 8 % 2 == 1)
  {
    assert w / 2 / 2 == w / 4 && w / 4 / 2 == w / 8;
    assert Bit(w, 1) == Bit(w / 2, 0);
    assert Bit(w, 2) == Bit(w / 2, 1) == Bit(w / 2 / 2, 0);
    assert Bit(w, 3) == Bit(w / 2, 2) == Bit(w / 2 / 2, 1) == Bit(w / 2 / 2 / 2, 0);
  }

  /** So the kernel indexes tables by the same fields of the page number. */
  lemma SameIndexes(vpn: nat)
    ensures VpnField(vpn, 2) == Index0(vpn) && VpnField(vpn, 1) == Index1(vpn) && VpnField(vpn, 0) == Index2(vpn)
  {
  }

  /** Pointers to tables carry no permission, so the hardware follows them. */
  lemma PointerFollowed(ppn: nat)
    requires ppn < PPN_LIMIT
    ensures var b := MakePte(ppn, V); IsV(b) && EntryPpn(b) == ppn && !IsR(b) && !IsW(b) && !IsX(b)
  {
    hide MakePte, EntryPpn;
    NodeEntryValid(ppn);
    PteFormat(ppn, V);
    SameFields(MakePte(ppn, V));
  }

  /** The hardware translates a page exactly when the flat map holds it with a leaf the hardware accepts, and
      then to the frame the kernel reads off that leaf. */
  lemma HardwareAgrees(mem: Memory, nodes: Nodes, vpn: nat)
    requires TableOk(mem, nodes)
    ensures HardwareWalk(mem, nodes[Root], vpn, 2) ==
            (var leaf := Flat(mem, nodes, vpn);
             if leaf.Some? && HardwareLeaf(leaf.value) then Some((PtePpn(leaf.value), leaf.value)) else None)
  {
    hide MakePte, PtePpn, PteValid, IsV, IsR, IsW, IsX, EntryPpn, Index0, Index1, Index2, VpnField;
    SameIndexes(vpn);
    var mid, low := Mid(Index0(vpn)), LowOf(vpn);
    assert EntryOk(mem[nodes[Root]][Index0(vpn)], nodes, Child(Root, Index0(vpn)));
    SameFields(mem[nodes[Root]][Index0(vpn)]);
    if mid in nodes {
      PointerFollowed(nodes[mid]);
      assert EntryOk(mem[nodes[mid]][Index1(vpn)], nodes, Child(mid, Index1(vpn)));
      SameFields(mem[nodes[mid]][Index1(vpn)]);
      assert HardwareWalk(mem, nodes[Root], vpn, 2) == HardwareWalk(mem, nodes[mid], vpn, 1);
      if low in nodes {
        PointerFollowed(nodes[low]);
        SameFields(mem[nodes[low]][Index2(vpn)]);
        assert HardwareWalk(mem, nodes[mid], vpn, 1) == HardwareWalk(mem, nodes[low], vpn, 0);
      }
    }
  }

  /** A permission, which is even and below 32, with V added. */
  lemma PermissionFlags(perm: nat)
    requires perm < 32 && perm % 2 == 0
    ensures Or(perm, V) == perm + 1
  {
    assert perm == 2 * (perm / 2);
    OrEven(perm / 2, 1);
  }

  /** The flags of an entry do not depend on its frame. */
  lemma FlagsBelow(ppn: nat, low: nat)
    requires ppn < PPN_LIMIT && low < 1024
    ensures var w := 1024 * ppn + low;
            && EntryPpn(w) == ppn && IsV(w) == IsV(low) && IsR(w) == IsR(low) && IsW(w) == IsW(low)
               && IsX(w) == IsX(low)
            && IsU(w) == IsU(low) && IsA(w) == IsA(low) && IsD(w) == IsD(low)
  {
    var w := 1024 * ppn + low;
    ModUnique(w, 1024, ppn, low);
    Digit(512 * ppn, low, 1, w);
    Digit(256 * ppn, low, 2, w);
    Digit(128 * ppn, low, 4, w);
    Digit(64 * ppn, low, 8, w);
    Digit(32 * ppn, low, 16, w);
    Digit(8 * ppn, low, 64, w);
    Digit(4 * ppn, low, 128, w);
  }

  /** V changes no other flag, and a permission has neither A nor D. */
  lemma FlagsWithV(perm: nat)
    requires perm < 32 && perm % 2 == 0
    ensures var low := perm + 1;
            && IsV(low) && !IsA(low) && !IsD(low)
            && IsR(low) == IsR(perm) && IsW(low) == IsW(perm) && IsX(low) == IsX(perm) && IsU(low) == IsU(perm)
  {
  }

  /** What the hardware makes of the kernel's leaf: the permission's own flags, and neither A nor D. */
  lemma LeafFlags(ppn: nat, perm: nat)
    requires ppn < PPN_LIMIT && perm < 32 && perm % 2 == 0
    ensures var leaf := MakePte(ppn, Or(perm, V));
            && leaf == 1024 * ppn + perm + 1 && EntryPpn(leaf) == ppn && IsV(leaf) && !IsA(leaf) && !IsD(leaf)
            && IsR(leaf) == IsR(perm) && IsW(leaf) == IsW(perm) && IsX(leaf) == IsX(perm) && IsU(leaf) == IsU(perm)
  {
    hide MakePte, Or, IsV, IsR, IsW, IsX, IsU, IsA, IsD, EntryPpn;
    PermissionFlags(perm);
    PteFormat(ppn, perm + 1);
    FlagsBelow(ppn, perm + 1);
    FlagsWithV(perm);
  }

  /** A page the kernel has mapped with a `MapPermission` can be accessed exactly as that permission says, on hardware
      that sets A and D itself. The kernel sets neither, so on hardware that does not, every access faults. */
  lemma KernelPages(mem: Memory, nodes: Nodes, vpn: nat, ppn: nat, perm: nat, access: Access, mode: Mode, updates: bool)
    requires TableOk(mem, nodes) && ppn < PPN_LIMIT && perm < 32 && perm % 2 == 0
             && Flat(mem, nodes, vpn) == Some(MakePte(ppn, Or(perm, V)))
    ensures HardwareAccess(mem, nodes[Root], vpn, access, mode, updates) ==
            if updates && (IsW(perm) ==> IsR(perm)) && Permitted(perm, access, mode) then Some(ppn) else None
  {
    hide HardwareWalk, MakePte, PtePpn, Or, TableOk, Flat, IsR, IsW, IsX, IsU, IsA, IsD, EntryPpn;
    HardwareAgrees(mem, nodes, vpn);
    LeafFlags(ppn, perm);
    SameFields(MakePte(ppn, Or(perm, V)));
  }
}
