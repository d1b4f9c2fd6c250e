/** The physical frame allocator and the frames' contents (os/src/memory/frame_allocator.rs). */
module Frames {
  import opened Sequences
  import opened Options

  /** A frame read as 512 words of 64 bits. */
  type Frame = f: seq<nat> | |f| == 512 witness seq(512, _ => 0)

  type Memory = map<nat, Frame>

  const PPN_LIMIT: nat := 0x1000_0000_0000 // 2^44

  function ZeroFrame(): (f: Frame)
    ensures forall k | 0 <= k < 512 :: f[k] == 0
  {
    seq(512, _ => 0)
  }

  ghost predicate AllocatorOk(start: nat, current: nat, end: nat, recycled: seq<nat>) {
    && start <= current <= end <= PPN_LIMIT
    && NoRepeats(recycled)
    && forall i | 0 <= i < |recycled| :: start <= recycled[i] < current
  }

  /** Frames handed out and not returned. */
  ghost function LiveFrames(start: nat, current: nat, recycled: seq<nat>): (s: set<nat>)
    ensures forall p :: p in s <==> start <= p < current && p !in recycled
  {
    set p | start <= p < current && p !in recycled
  }

  /** The managed frames and their contents. */
  class FrameMemory {
    const start: nat
    const end: nat
    var current: nat
    var recycled: seq<nat>
    var mem: Memory

    ghost predicate Valid()
      reads this
    {
      && AllocatorOk(start, current, end, recycled)
      && forall p | start <= p < end :: p in mem
    }

    ghost function Live(): (s: set<nat>)
      reads this
      ensures forall p :: p in s <==> start <= p < current && p !in recycled
    {
      LiveFrames(start, current, recycled)
    }

    /** Frames that `alloc` can still hand out. */
    ghost function Available(): int
      reads this
    {
      |recycled| + (end - current)
    }

    /** The frames that `alloc` can still hand out, in the order in which it will. */
    ghost function Order(): (s: seq<nat>)
      requires Valid()
      reads this
      ensures |s| == Available()
    {
      var (r, c) := (recycled, current);
      seq(Available(), i requires 0 <= i => if i < |r| then r[|r| - 1 - i] else c + (i - |r|))
    }

    /** While nothing has been returned, frames come one after the other. */
    lemma NothingRecycled(i: nat)
      requires Valid() && recycled == [] && i < |Order()|
      ensures Order()[i] == current + i
    {
    }

    constructor (start: nat, end: nat, mem: Memory)
      requires start <= end <= PPN_LIMIT && forall p | start <= p < end :: p in mem
      ensures Valid() && Live() == {} && this.start == start && this.end == end && this.mem == mem
    {
      this.start, this.end, this.mem := start, end, mem;
      current, recycled := start, [];
    }

    /** `frame_alloc`: a frame nobody holds, zeroed; the last one returned is reused first. */
    method Alloc() returns (r: Option<nat>)
      requires Valid()
      modifies this
      ensures Valid() && mem.Keys == old(mem.Keys)
      ensures r.Some? ==> r.value !in old(Live()) && Live() == old(Live()) + {r.value} && start <= r.value < end
      ensures r.Some? ==> mem == old(mem)[r.value := ZeroFrame()] && Available() == old(Available()) - 1
      ensures r.Some? ==> old(Order()) == [r.value] + Order()
      ensures r.None? <==> old(Available()) == 0
      ensures r.None? ==> mem == old(mem) && Live() == old(Live()) && Available() == old(Available())
    {
      if recycled != [] {
        var ppn := recycled[|recycled| - 1];
        assert recycled == recycled[..|recycled| - 1] + [ppn];
        recycled := recycled[..|recycled| - 1];
        mem := mem[ppn := ZeroFrame()];
        return Some(ppn);
      } else if current == end {
        return None;
      } else {
        current := current + 1;
        mem := mem[current - 1 := ZeroFrame()];
        return Some(current - 1);
      }
    }

    /** `frame_dealloc`: the source panics unless the frame is live. */
    method Dealloc(ppn: nat)
      requires Valid() && ppn in Live()
      modifies this`recycled
      ensures Valid() && Live() == old(Live()) - {ppn} && Available() == old(Available()) + 1
      ensures Order() == [ppn] + old(Order())
    {
      assert !(ppn >= current || ppn in recycled);
      recycled := recycled + [ppn];
    }

    /** A write to a frame's contents. */
    method Write(ppn: nat, k: nat, bits: nat)
      requires Valid() && ppn in mem && k < 512
      modifies this`mem
      ensures Valid() && mem == old(mem)[ppn := old(mem)[ppn][k := bits]]
    {
      mem := mem[ppn := mem[ppn][k := bits]];
    }
  }
}
