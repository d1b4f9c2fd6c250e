/** User memory seen from the kernel: page-sized slices of frames (os/src/memory/page_table.rs). */
module UserBuffers {
  import opened Sequences
  import opened Bits
  import opened Options
  import opened Addresses
  import opened Frames
  import opened PageTables
  import opened MemorySets

  /** Bytes `from` to `to` of a frame. */
  datatype Slice = Slice(ppn: nat, from: nat, to: nat)

  ghost predicate Proper(v: seq<Slice>) {
    forall i | 0 <= i < |v| :: v[i].from < v[i].to <= 4096
  }

  ghost function SlicePointers(s: Slice): (r: seq<nat>)
    requires s.from <= s.to
    ensures |r| == s.to - s.from && forall i | 0 <= i < |r| :: r[i] == 4096 * s.ppn + s.from + i
  {
    seq(s.to - s.from, i => 4096 * s.ppn + s.from + i)
  }

  /** The physical addresses of the bytes of all slices, in order. */
  ghost function Pointers(v: seq<Slice>): seq<nat>
    requires Proper(v)
  {
    if v == [] then [] else Pointers(v[..|v| - 1]) + SlicePointers(v[|v| - 1])
  }

  /** The physical address behind a mapped virtual one. */
  ghost function Phys(mem: Memory, nodes: Nodes, va: nat): nat
    requires Flat(mem, nodes, va / 4096).Some?
  {
    4096 * PtePpn(Flat(mem, nodes, va / 4096).value) + va % 4096
  }

  ghost predicate RangeMapped(mem: Memory, nodes: Nodes, start: nat, end: nat) {
    forall va: nat | start <= va < end :: Flat(mem, nodes, va / 4096).Some?
  }

  /** `p` is where `va` is mapped to. */
  ghost predicate Translates(mem: Memory, nodes: Nodes, va: nat, p: nat) {
    Flat(mem, nodes, va / 4096).Some? && p == Phys(mem, nodes, va)
  }

  /** The slices hold exactly the bytes of the virtual range, in order. */
  ghost predicate Covers(mem: Memory, nodes: Nodes, v: seq<Slice>, start: nat, end: nat) {
    && start <= end && Proper(v) && |Pointers(v)| == end - start
    && forall i | 0 <= i < end - start :: Translates(mem, nodes, start + i, Pointers(v)[i])
  }

  lemma CoversMore(mem: Memory, nodes: Nodes, v: seq<Slice>, ptr: nat, start: nat, next: nat, s: Slice)
    requires Covers(mem, nodes, v, ptr, start) && start < next && start / 4096 == (next - 1) / 4096
    requires Flat(mem, nodes, start / 4096).Some? && s.ppn == PtePpn(Flat(mem, nodes, start / 4096).value)
    requires s.from == start % 4096 && s.to == s.from + (next - start) && s.to <= 4096
    ensures Covers(mem, nodes, v + [s], ptr, next)
  {
    hide Flat, PtePpn;
    assert (v + [s])[..|v|] == v;
    var ps := Pointers(v);
    assert Pointers(v + [s]) == ps + SlicePointers(s);
    forall i | 0 <= i < next - ptr ensures Translates(mem, nodes, ptr + i, Pointers(v + [s])[i]) {
      if i < start - ptr {
        assert Pointers(v + [s])[i] == ps[i];
      } else {
        SamePage(start, next, ptr + i);
      }
    }
  }

  lemma SamePage(start: nat, next: nat, va: nat)
    requires start <= va < next && start / 4096 == (next - 1) / 4096
    ensures va / 4096 == start / 4096 && va % 4096 == start % 4096 + (va - start)
  {
  }

  /** The next page boundary or the end, whichever comes first. */
  lemma PageStep(start: nat, end: nat)
    requires start < end < 0x80_0000_0000
    ensures VirtAddr(start) == start && VirtAddr(end) == end && PageOffset(start) == start % 4096
    ensures var next := if 4096 * (start / 4096 + 1) <= end then 4096 * (start / 4096 + 1) else end;
            && start < next <= end && start / 4096 == (next - 1) / 4096 && start / 4096 < VPN_LIMIT
            && start % 4096 + (next - start) == if PageOffset(next) == 0 then 4096 else PageOffset(next)
  {
    hide VirtAddr, PageOffset;
    var next := if 4096 * (start / 4096 + 1) <= end then 4096 * (start / 4096 + 1) else end;
    AddressSplits(start);
    AddressSplits(end);
    AddressSplits(next);
  }

  /** Every page of the range has an entry to look at, be it valid or not. */
  ghost predicate RangeHasEntries(nodes: Nodes, start: nat, end: nat) {
    forall va: nat | start <= va < end :: LowOf(va / 4096) in nodes
  }

  lemma EntriesMore(nodes: Nodes, ptr: nat, start: nat, next: nat)
    requires ptr <= start < next && start / 4096 == (next - 1) / 4096 && RangeHasEntries(nodes, ptr, start)
    ensures LowOf(start / 4096) in nodes ==> RangeHasEntries(nodes, ptr, next)
  {
    hide LowOf;
    forall va: nat | start <= va < next ensures va / 4096 == start / 4096 { SamePage(start, next, va); }
  }

  /** `translated_byte_buffer`. The source unwraps, and `ok` is false, just where there is no entry at all; an entry
      that is not valid passes unnoticed. */
  method TranslatedByteBuffer(fm: FrameMemory, table: PageTable, ptr: nat, len: nat) returns (ok: bool, v: seq<Slice>)
    requires table.Valid(fm.mem) && ptr + len < 0x80_0000_0000
    ensures ok <==> RangeHasEntries(table.nodes, ptr, ptr + len)
    ensures RangeMapped(fm.mem, table.nodes, ptr, ptr + len) ==> ok && Covers(fm.mem, table.nodes, v, ptr, ptr + len)
  {
    hide TableOk, FramesMatch, Flat, PtePpn, And, PteValid, Covers, VirtAddr, PageOffset, LowOf;
    var start, end := ptr, ptr + len;
    v := [];
    Nothing(fm.mem, table.nodes, ptr);
    while start < end
      invariant ptr <= start <= end && RangeHasEntries(table.nodes, ptr, start)
      invariant RangeMapped(fm.mem, table.nodes, ptr, end) ==> Covers(fm.mem, table.nodes, v, ptr, start)
    {
      PageStep(start, end);
      var startVa := VirtAddr(start);
      var vpn := Floor(startVa);
      var pte := table.Translate(fm, vpn);
      if pte.None? { return false, v; }
      var ppn := PtePpn(pte.value);
      var endVa := 4096 * (vpn + 1);
      if VirtAddr(end) < endVa { endVa := VirtAddr(end); }
      var s := if PageOffset(endVa) == 0 then Slice(ppn, PageOffset(startVa), 4096)
              else Slice(ppn, PageOffset(startVa), PageOffset(endVa));
      if RangeMapped(fm.mem, table.nodes, ptr, end) {
        CoversMore(fm.mem, table.nodes, v, ptr, start, endVa, s);
      }
      EntriesMore(table.nodes, ptr, start, endVa);
      v := v + [s];
      start := endVa;
    }
    return true, v;
  }

  lemma Nothing(mem: Memory, nodes: Nodes, ptr: nat)
    ensures Covers(mem, nodes, [], ptr, ptr) && RangeHasEntries(nodes, ptr, ptr)
  {
  }

  /** `UserBuffer::len`. */
  method TotalLength(v: seq<Slice>) returns (total: nat)
    requires Proper(v)
    ensures total == |Pointers(v)|
  {
    total := 0;
    var i := 0;
    while i < |v|
      invariant i <= |v| && total == |Pointers(v[..i])|
    {
      assert v[..i + 1][..i] == v[..i];
      total := total + (v[i].to - v[i].from);
      i := i + 1;
    }
    assert v[..|v|] == v;
  }

  // ---------------------------------------------------------------- byte by byte

  /** The pointers from byte `idx` of slice `k` on. */
  ghost function PointersFrom(v: seq<Slice>, k: nat, idx: nat): seq<nat>
    requires Proper(v) && k <= |v| && (k < |v| ==> idx < v[k].to - v[k].from)
    decreases |v| - k
  {
    if k == |v| then [] else
      SlicePointers(v[k])[idx..] + if k + 1 < |v| then PointersFrom(v, k + 1, 0) else []
  }

  lemma {:induction false} AllPointers(v: seq<Slice>, k: nat)
    requires Proper(v) && k <= |v|
    ensures Pointers(v) == Pointers(v[..k]) + PointersFrom(v, k, 0)
    decreases |v| - k
  {
    if k == |v| {
      assert v[..k] == v;
    } else {
      AllPointers(v, k + 1);
      hide SlicePointers;
      var before, here, after := Pointers(v[..k]), SlicePointers(v[k]), PointersFrom(v, k + 1, 0);
      assert Pointers(v[..k + 1]) == before + here by { assert v[..k + 1][..k] == v[..k]; }
      assert PointersFrom(v, k, 0) == here + after by { assert here[0..] == here; }
      assert (before + here) + after == before + (here + after);
    }
  }

  class UserBufferIterator {
    const buffers: seq<Slice>
    var currentBuffer: nat
    var currentIdx: nat

    ghost predicate Valid()
      reads this
    {
      && Proper(buffers) && currentBuffer <= |buffers|
      && (currentBuffer < |buffers| ==> currentIdx < buffers[currentBuffer].to - buffers[currentBuffer].from)
    }

    ghost function Rest(): seq<nat>
      reads this
      requires Valid()
    {
      PointersFrom(buffers, currentBuffer, currentIdx)
    }

    /** `into_iter`: all pointers are still to come. */
    constructor (v: seq<Slice>)
      requires Proper(v)
      ensures Valid() && Rest() == Pointers(v)
    {
      buffers, currentBuffer, currentIdx := v, 0, 0;
      new;
      AllPointers(v, 0);
      assert v[..0] == [];
    }

    /** `next`: the pointers come one at a time, in order, and then none. */
    method Next() returns (r: Option<nat>)
      requires Valid()
      modifies this
      ensures Valid()
      ensures if old(Rest()) == [] then r == None && Rest() == []
              else r == Some(old(Rest())[0]) && Rest() == old(Rest())[1..]
    {
      if currentBuffer >= |buffers| { return None; }
      var s := buffers[currentBuffer];
      r := Some(4096 * s.ppn + s.from + currentIdx);
      if currentIdx + 1 == s.to - s.from {
        currentIdx := 0;
        currentBuffer := currentBuffer + 1;
      } else {
        currentIdx := currentIdx + 1;
      }
    }
  }

  /** All that an iterator has left, in order. */
  method Drain(it: UserBufferIterator) returns (ps: seq<nat>)
    requires it.Valid()
    modifies it
    ensures ps == old(it.Rest())
  {
    hide PointersFrom, SlicePointers, Proper;
    ps := [];
    var done := false;
    while !done
      invariant it.Valid() && old(it.Rest()) == ps + it.Rest()
      invariant done ==> it.Rest() == []
      decreases !done, |it.Rest()|
    {
      var r := it.Next();
      match r
      case None => done := true;
      case Some(p) => ps := ps + [p];
    }
  }

  /** The i-th pointer an iterator over a translated buffer yields is the translation of `ptr + i`. */
  method IteratesTranslation(fm: FrameMemory, table: PageTable, ptr: nat, len: nat) returns (ps: seq<nat>)
    requires table.Valid(fm.mem) && ptr + len < 0x80_0000_0000 && RangeMapped(fm.mem, table.nodes, ptr, ptr + len)
    ensures |ps| == len
    ensures forall i | 0 <= i < len :: Translates(fm.mem, table.nodes, ptr + i, ps[i])
  {
    hide TableOk, FramesMatch, Flat, PtePpn, Translates, PointersFrom, Pointers;
    var ok, v := TranslatedByteBuffer(fm, table, ptr, len);
    var it := new UserBufferIterator(v);
    ps := Drain(it);
  }

  // ---------------------------------------------------------------- distinct bytes

  /** The page belongs to a framed area of the space. */
  ghost predicate UserPage(sp: Space, vpn: nat) {
    exists i :: 0 <= i < |sp.areas| && sp.areas[i].framed && sp.areas[i].Contains(vpn)
  }

  lemma PageFrame(mem: Memory, sp: Space, vpn: nat) returns (i: nat)
    requires SpaceOk(mem, sp) && UserPage(sp, vpn) && forall p | p in Owned(sp) :: p < PPN_LIMIT
    ensures i < |sp.areas| && vpn in sp.areas[i].dataFrames && Flat(mem, sp.nodes, vpn).Some?
    ensures PtePpn(Flat(mem, sp.nodes, vpn).value) == sp.areas[i].dataFrames[vpn]
  {
    hide TableOk, FramesMatch, Flat, MakePte, PtePpn, Or, Disjoint, DataOk;
    i :| 0 <= i < |sp.areas| && sp.areas[i].framed && sp.areas[i].Contains(vpn);
    var a := sp.areas[i];
    assert RangeOk(a) && AreaMapped(mem, sp.nodes, a);
    var f := a.dataFrames[vpn];
    assert f in DataFrames(sp.areas) && f in Owned(sp);
    ValidFlags(a.perm);
    PteRoundTrip(f, Or(a.perm, V));
  }

  /** In one address space no two virtual bytes of framed areas are the same physical byte. */
  lemma BytesDistinct(mem: Memory, sp: Space, va: nat, vb: nat)
    requires SpaceOk(mem, sp) && UserPage(sp, va / 4096) && UserPage(sp, vb / 4096) && va != vb
    requires forall p | p in Owned(sp) :: p < PPN_LIMIT
    ensures Flat(mem, sp.nodes, va / 4096).Some? && Flat(mem, sp.nodes, vb / 4096).Some?
    ensures Phys(mem, sp.nodes, va) != Phys(mem, sp.nodes, vb)
  {
    hide TableOk, FramesMatch, Flat, PtePpn, Disjoint, AreaMapped, UserPage, RangeOk;
    var i := PageFrame(mem, sp, va / 4096);
    var j := PageFrame(mem, sp, vb / 4096);
  }

  /** So the slices of a user buffer never overlap. */
  lemma BufferDistinct(mem: Memory, sp: Space, v: seq<Slice>, start: nat, end: nat)
    requires SpaceOk(mem, sp) && (forall p | p in Owned(sp) :: p < PPN_LIMIT) && Covers(mem, sp.nodes, v, start, end)
    requires forall va: nat | start <= va < end :: UserPage(sp, va / 4096)
    ensures NoRepeats(Pointers(v))
  {
    hide SpaceOk, Pointers, UserPage, Flat, Phys, Owned;
    var ps := Pointers(v);
    forall i, j | 0 <= i < j < |ps| ensures ps[i] != ps[j] {
      assert Translates(mem, sp.nodes, start + i, ps[i]) && Translates(mem, sp.nodes, start + j, ps[j]);
      BytesDistinct(mem, sp, start + i, start + j);
    }
  }
}
