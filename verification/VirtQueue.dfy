/** The split virtqueue of the VirtIO driver (dependency/virtio-drivers/src/queue.rs): driver steps, and the
    device steps section 2.6 of VirtIO 1.1 allows between them. */
module VirtQueues {
  import opened Sequences
  import opened Bits
  import opened Options
  import opened QueueTrace

  datatype Buf = Buf(addr: nat, len: nat)

  datatype DescFlags = DescFlags(next: bool, write: bool)

  datatype Descriptor = Descriptor(buf: Buf, flags: DescFlags, next: nat)

  datatype UsedElem = UsedElem(id: nat, len: nat)

  /** What one `add` asked for. */
  datatype Request = Request(inputs: seq<Buf>, outputs: seq<Buf>) {
    function Bufs(): seq<Buf> {
      inputs + outputs
    }
  }

  datatype Error = AlreadyUsed | InvalidParam | BufferTooSmall | NotReady

  datatype Result<T> = Ok(value: T) | Err(error: Error)

  // ---------------------------------------------------------------- descriptors

  /** The descriptors in `chain` hold the inputs, to be read by the device, and after them the outputs, for it to write;
      each but the last names the next. */
  ghost predicate Holds(desc: seq<Descriptor>, chain: seq<nat>, inputs: seq<Buf>, outputs: seq<Buf>) {
    && |chain| == |inputs| + |outputs| && Below(chain, |desc|)
    && (forall i | 0 <= i < |inputs| :: desc[chain[i]].buf == inputs[i] && !desc[chain[i]].flags.write)
    && (forall j | 0 <= j < |outputs| :: desc[chain[|inputs| + j]].buf == outputs[j]
                                         && desc[chain[|inputs| + j]].flags.write)
    && (forall i | 0 <= i < |chain| :: desc[chain[i]].flags.next <==> i + 1 < |chain|)
    && (forall i | 0 <= i < |chain| - 1 :: desc[chain[i]].next == chain[i + 1])
  }

  /** What a device collects that starts at a descriptor and goes on while NEXT is set, at most `limit` times: the
      buffers and whether it may write them. */
  function Follow(desc: seq<Descriptor>, head: nat, limit: nat): seq<(Buf, bool)>
    decreases limit
  {
    if limit == 0 || head >= |desc| then [] else
      var d := desc[head];
      [(d.buf, d.flags.write)] + if d.flags.next then Follow(desc, d.next, limit - 1) else []
  }

  /** The inputs, not to be written, and behind them the outputs, which may be. */
  function Shown(inputs: seq<Buf>, outputs: seq<Buf>): (s: seq<(Buf, bool)>)
    ensures |s| == |inputs| + |outputs|
    ensures forall i | 0 <= i < |inputs| :: s[i] == (inputs[i], false)
    ensures forall j | 0 <= j < |outputs| :: s[|inputs| + j] == (outputs[j], true)
  {
    seq(|inputs|, i requires 0 <= i < |inputs| => (inputs[i], false))
    + seq(|outputs|, j requires 0 <= j < |outputs| => (outputs[j], true))
  }

  lemma ShownAt(desc: seq<Descriptor>, chain: seq<nat>, inputs: seq<Buf>, outputs: seq<Buf>, k: nat)
    requires Holds(desc, chain, inputs, outputs) && k < |chain|
    ensures chain[k] < |desc| && (desc[chain[k]].buf, desc[chain[k]].flags.write) == Shown(inputs, outputs)[k]
  {
    hide Shown;
    if k >= |inputs| {
      var j := k - |inputs|;
      assert chain[|inputs| + j] == chain[k] && Shown(inputs, outputs)[|inputs| + j] == (outputs[j], true);
    }
  }

  lemma {:induction false} FollowReads(desc: seq<Descriptor>, chain: seq<nat>, inputs: seq<Buf>, outputs: seq<Buf>,
                                       k: nat, limit: nat)
    requires Holds(desc, chain, inputs, outputs) && k < |chain| && |chain| - k <= limit
    ensures Follow(desc, chain[k], limit) == Shown(inputs, outputs)[k..]
    decreases |chain| - k
  {
    hide Shown;
    ShownAt(desc, chain, inputs, outputs, k);
    if k + 1 < |chain| { FollowReads(desc, chain, inputs, outputs, k + 1, limit - 1); }
  }

  ghost predicate Below(s: seq<nat>, n: nat) {
    forall i | 0 <= i < |s| :: s[i] < n
  }

  lemma {:induction false} Pigeonhole(s: seq<nat>, n: nat)
    requires NoRepeats(s) && Below(s, n)
    ensures |s| <= n
    decreases n
  {
    if s != [] {
      assert s[0] < n;
      if k :| 0 <= k < |s| && s[k] == n - 1 {
        Pigeonhole(s[..k] + s[k + 1..], n - 1);
      } else {
        Pigeonhole(s, n - 1);
      }
    }
  }

  /** `list` is threaded through the `next` fields. */
  ghost predicate Linked(desc: seq<Descriptor>, list: seq<nat>) {
    Below(list, |desc|) && forall i | 0 <= i < |list| - 1 :: desc[list[i]].next == list[i + 1]
  }

  /** What the device finds when it follows the chain: the buffers of the request in order, the outputs
      marked writable, and NEXT set on all but the last. */
  ghost predicate Carries(desc: seq<Descriptor>, chain: seq<nat>, req: Request) {
    && Linked(desc, chain)
    && |chain| == |req.Bufs()| > 0
    && forall i | 0 <= i < |chain| ::
         && desc[chain[i]].buf == req.Bufs()[i]
         && desc[chain[i]].flags == DescFlags(i < |chain| - 1, i >= |req.inputs|)
  }

  // ---------------------------------------------------------------- rings

  function Slot(from: nat, i: nat, size: nat): (r: nat)
    requires size > 0
    ensures r < size
  {
    (from + i) % size
  }

  /** From index `from` on, the ring holds `list`. */
  ghost predicate RingHolds<T(!new)>(ring: seq<T>, from: nat, list: seq<T>, size: nat)
    requires 0 < size <= |ring|
  {
    forall i: nat | i < |list| :: ring[Slot(from, i, size)] == list[i]
  }

  predicate GoodSize(size: nat) {
    size == 1 || size == 2 || size == 4 || size == 8 || size == 16 || size == 32
  }

  /** Up to 32, the good sizes are the powers of two. */
  lemma GoodSizeIsPower(size: nat)
    requires size <= 32
    ensures GoodSize(size) <==> exists k: nat :: size == Pow2(k)
  {
    assert Pow2(0) == 1 && Pow2(1) == 2 && Pow2(2) == 4 && Pow2(3) == 8 && Pow2(4) == 16;
    assert Pow2(5) == 2 * Pow2(4);
    assert Pow2(6) == 2 * Pow2(5);
    forall k: nat | size == Pow2(k) ensures GoodSize(size) {
      if k > 5 { Pow2Monotone(6, k); }
      else if k == 0 { } else if k == 1 { } else if k == 2 { } else if k == 3 { } else if k == 4 { }
    }
  }

  /** The slot `idx & (size - 1)` of a queue whose size is a power of two. */
  lemma SlotIsRemainder(idx: nat, size: nat)
    requires GoodSize(size)
    ensures And(idx, size - 1) == idx % size
  {
    if size == 1 { AndMask(idx, 0); }
    else if size == 2 { AndMask(idx, 1); }
    else if size == 4 { AndMask(idx, 2); }
    else if size == 8 { AndMask(idx, 3); }
    else if size == 16 { AndMask(idx, 4); }
    else { assert Pow2(5) == 32; AndMask(idx, 5); }
  }

  /** 16-bit wrap-around is invisible in the slots. */
  lemma WrapSlot(idx: nat, k: nat, size: nat)
    requires GoodSize(size)
    ensures (idx % 65536 + k) % size == (idx + k) % size
  {
  }

  /** Writing past the held entries keeps them, as long as fewer than `size` are held. */
  lemma RingPush<T(!new)>(ring: seq<T>, from: nat, list: seq<T>, size: nat, x: T)
    requires GoodSize(size) && size <= |ring| && |list| < size && RingHolds(ring, from, list, size)
    ensures RingHolds(ring[Slot(from, |list|, size) := x], from, list + [x], size)
  {
    hide Slot;
    forall i: nat | i < |list|
      ensures Slot(from, i, size) != Slot(from, |list|, size) { SlotsDiffer(from, i, |list|, size); }
  }

  lemma SlotsDiffer(from: nat, i: nat, j: nat, size: nat)
    requires GoodSize(size) && i < j < i + size
    ensures Slot(from, i, size) != Slot(from, j, size)
  {
    Shifted(from + i, j - i, size);
  }

  lemma Shifted(a: nat, g: nat, size: nat)
    requires 0 < g < size
    ensures (a + g) % size != a % size
  {
    var q, r := a / size, a % size;
    DivMod(a, size);
    assert (q + 1) * size == q * size + size;
    if r + g < size { ModUnique(a + g, size, q, r + g); } else { ModUnique(a + g, size, q + 1, r + g - size); }
  }

  lemma DivMod(a: nat, size: nat)
    requires size > 0
    ensures a == a / size * size + a % size && 0 <= a % size < size && a / size >= 0
  {
  }

  lemma RingPop<T(!new)>(ring: seq<T>, from: nat, list: seq<T>, size: nat)
    requires GoodSize(size) && size <= |ring| && list != [] && RingHolds(ring, from, list, size)
    ensures ring[from % size] == list[0]
    ensures RingHolds(ring, (from + 1) % 65536, list[1..], size)
  {
    assert Slot(from, 0, size) == from % size;
    forall i: nat | i < |list| - 1 ensures ring[Slot((from + 1) % 65536, i, size)] == list[1..][i] {
      WrapSlot(from + 1, i, size);
      assert Slot((from + 1) % 65536, i, size) == Slot(from, i + 1, size);
    }
  }

  // ---------------------------------------------------------------- state

  /** The queue's memory, the driver's fields and the device's own index; then what they stand for: the free
      list, which chain each descriptor is in, the requests, and the three stages an outstanding head passes
      through (offered, taken by the device, returned). */
  datatype State = State(
    size: nat, desc: seq<Descriptor>, availRing: seq<nat>, availShared: nat, usedRing: seq<UsedElem>, usedShared: nat,
    numUsed: nat, freeHead: nat, availIdx: nat, lastUsedIdx: nat, deviceIdx: nat,
    free: seq<nat>, owner: seq<Option<nat>>, chains: map<nat, seq<nat>>, requests: map<nat, Request>,
    pending: seq<nat>, inflight: set<nat>, done: seq<UsedElem>)

  ghost predicate FreeOk(s: State) {
    && |s.owner| == |s.desc| == s.size
    && NoRepeats(s.free) && Linked(s.desc, s.free)
    && (s.free != [] ==> s.freeHead == s.free[0])
    && s.numUsed + |s.free| == s.size
    && forall d: nat | d < s.size :: d in s.free <==> s.owner[d].None?
  }

  ghost predicate ChainOk(s: State, h: nat)
    requires h in s.chains && h in s.requests
  {
    && Carries(s.desc, s.chains[h], s.requests[h]) && NoRepeats(s.chains[h]) && s.chains[h][0] == h
    && |s.owner| == |s.desc|
    && forall d: nat | d < |s.desc| :: d in s.chains[h] <==> s.owner[d] == Some(h)
  }

  ghost predicate ChainsOk(s: State) {
    && s.chains.Keys == s.requests.Keys
    && (forall h | h in s.chains :: ChainOk(s, h))
    && (forall d | 0 <= d < |s.owner| && s.owner[d].Some? :: s.owner[d].value in s.chains)
  }

  ghost function Ids(done: seq<UsedElem>): (s: seq<nat>)
    ensures |s| == |done| && forall i | 0 <= i < |s| :: s[i] == done[i].id
  {
    seq(|done|, i requires 0 <= i < |done| => done[i].id)
  }

  ghost predicate StagesOk(s: State) {
    && NoRepeats(s.pending) && NoRepeats(Ids(s.done))
    && (forall h :: h in s.chains <==> h in s.pending || h in s.inflight || h in Ids(s.done))
    && (forall h | h in s.pending :: h !in s.inflight && h !in Ids(s.done))
    && (forall h | h in s.inflight :: h !in Ids(s.done))
  }

  ghost predicate RingsOk(s: State) {
    && GoodSize(s.size) && 0 < s.size <= 32 && |s.availRing| == |s.usedRing| == 32
    && s.deviceIdx < 65536 && s.lastUsedIdx < 65536
    && s.availIdx == s.availShared == (s.deviceIdx + |s.pending|) % 65536
    && s.usedShared == (s.lastUsedIdx + |s.done|) % 65536
    && RingHolds(s.availRing, s.deviceIdx, s.pending, s.size)
    && RingHolds(s.usedRing, s.lastUsedIdx, s.done, s.size)
  }

  ghost predicate Inv(s: State) {
    RingsOk(s) && FreeOk(s) && ChainsOk(s) && StagesOk(s)
  }

  /** Heads of outstanding chains are descriptors that are not free. */
  lemma HeadsNotFree(s: State, heads: seq<nat>)
    requires FreeOk(s) && ChainsOk(s) && NoRepeats(heads) && forall i | 0 <= i < |heads| :: heads[i] in s.chains
    ensures |heads| + |s.free| <= s.size
  {
    forall i | 0 <= i < |heads| ensures heads[i] < s.size && heads[i] !in s.free {
      assert ChainOk(s, heads[i]);
    }
    Pigeonhole(heads + s.free, s.size);
  }

  /** The free list and the outstanding chains partition the descriptors. */
  lemma Partition(s: State, d: nat)
    requires Inv(s) && d < s.size
    ensures d in s.free <==> forall h | h in s.chains :: d !in s.chains[h]
    ensures forall g, h | g in s.chains && h in s.chains && d in s.chains[g] && d in s.chains[h] :: g == h
    ensures |s.free| == s.size - s.numUsed && NoRepeats(s.free)
    ensures forall h | h in s.chains :: NoRepeats(s.chains[h]) && Carries(s.desc, s.chains[h], s.requests[h])
  {
    hide RingsOk, StagesOk, Carries, Linked;
    forall h | h in s.chains ensures d in s.chains[h] <==> s.owner[d] == Some(h) { assert ChainOk(s, h); }
    forall h | h in s.chains
      ensures NoRepeats(s.chains[h]) && Carries(s.desc, s.chains[h], s.requests[h]) { assert ChainOk(s, h); }
  }

  // ---------------------------------------------------------------- add

  /** The first `m` free descriptors hold the request; the rest of the table is as before. */
  ghost predicate Filled(desc: seq<Descriptor>, desc': seq<Descriptor>, free: seq<nat>, m: nat, req: Request,
                         closed: bool)
    requires m <= |free| && m <= |req.Bufs()| && Below(free, |desc|)
  {
    && |desc'| == |desc|
    && (forall d | 0 <= d < |desc| :: desc'[d].next == desc[d].next)
    && (forall d: nat | d < |desc| && d !in free[..m] :: desc'[d] == desc[d])
    && (forall i | 0 <= i < m :: desc'[free[i]].buf == req.Bufs()[i]
                                 && desc'[free[i]].flags == DescFlags(!closed || i < m - 1, i >= |req.inputs|))
  }

  lemma FillOne(desc: seq<Descriptor>, desc': seq<Descriptor>, free: seq<nat>, m: nat, req: Request)
    requires m < |free| && m < |req.Bufs()| && NoRepeats(free) && Below(free, |desc|)
             && Filled(desc, desc', free, m, req, false)
    ensures var d := desc'[free[m]];
            Filled(desc, desc'[free[m] := Descriptor(req.Bufs()[m], DescFlags(true, m >= |req.inputs|), d.next)], free,
                   m + 1, req, false)
  {
    assert free[..m + 1] == free[..m] + [free[m]];
  }

  lemma CloseChain(desc: seq<Descriptor>, desc': seq<Descriptor>, free: seq<nat>, m: nat, req: Request)
    requires 0 < m <= |free| && m <= |req.Bufs()| && NoRepeats(free) && Below(free, |desc|)
             && Filled(desc, desc', free, m, req, false)
    ensures var last := free[m - 1];
            Filled(desc, desc'[last := desc'[last].(flags := desc'[last].flags.(next := false))], free, m, req, true)
  {
    assert free[m - 1] in free[..m];
  }

  ghost function Reown(owner: seq<Option<nat>>, list: seq<nat>, to: Option<nat>): (r: seq<Option<nat>>)
    ensures |r| == |owner| && forall d: nat | d < |owner| :: r[d] == if d in list then to else owner[d]
  {
    seq(|owner|, d requires 0 <= d < |owner| => if d in list then to else owner[d])
  }

  /** The state after a successful `add` that left the descriptor table as `desc`. */
  ghost function AfterAdd(s: State, req: Request, desc: seq<Descriptor>): State
    requires Inv(s) && 0 < |req.Bufs()| <= |s.free|
  {
    var m, h := |req.Bufs()|, s.free[0];
    s.(desc := desc, numUsed := s.numUsed + m, freeHead := s.desc[s.free[m - 1]].next,
       availRing := s.availRing[s.availIdx % s.size := h], availIdx := (s.availIdx + 1) % 65536,
           availShared := (s.availIdx + 1) % 65536,
       free := s.free[m..], owner := Reown(s.owner, s.free[..m], Some(h)),
       chains := s.chains[h := s.free[..m]], requests := s.requests[h := req], pending := s.pending + [h])
  }

  lemma FreeUnowned(s: State, d: nat)
    requires FreeOk(s) && ChainsOk(s) && d in s.free
    ensures d < s.size && s.owner[d].None? && d !in s.chains
    ensures forall h | h in s.chains :: d !in s.chains[h]
  {
    forall h | h in s.chains ensures d !in s.chains[h] && d != h { assert ChainOk(s, h); }
  }

  lemma CarriesHolds(desc: seq<Descriptor>, chain: seq<nat>, req: Request)
    requires Carries(desc, chain, req)
    ensures Holds(desc, chain, req.inputs, req.outputs) && |chain| > 0
  {
    forall j | 0 <= j < |req.outputs|
      ensures desc[chain[|req.inputs| + j]].buf == req.outputs[j] && desc[chain[|req.inputs| + j]].flags.write {
      assert req.Bufs()[|req.inputs| + j] == req.outputs[j];
    }
  }

  /** In every reachable state, a device that follows an outstanding chain from its head collects the inputs of that
      request, read-only, and then its outputs, writable. */
  lemma DeviceReads(s: State, h: nat)
    requires Inv(s) && h in s.chains
    ensures h in s.requests && Holds(s.desc, s.chains[h], s.requests[h].inputs, s.requests[h].outputs)
    ensures Follow(s.desc, h, s.size) == Shown(s.requests[h].inputs, s.requests[h].outputs)
  {
    hide RingsOk, StagesOk, Carries, Holds, Linked, Shown;
    assert ChainOk(s, h);
    var chain, req := s.chains[h], s.requests[h];
    CarriesHolds(s.desc, chain, req);
    HoldsShort(s.desc, chain, req);
    FollowReads(s.desc, chain, req.inputs, req.outputs, 0, s.size);
  }

  lemma ChainHead(s: State, h: nat)
    requires Inv(s) && h in s.chains
    ensures h in s.requests && Holds(s.desc, s.chains[h], s.requests[h].inputs, s.requests[h].outputs)
    ensures |s.chains[h]| > 0 && s.chains[h][0] == h
  {
    hide RingsOk, StagesOk, FreeOk, Carries, Holds, Linked;
    assert ChainOk(s, h);
    CarriesHolds(s.desc, s.chains[h], s.requests[h]);
  }

  lemma FilledHolds(desc: seq<Descriptor>, desc': seq<Descriptor>, free: seq<nat>, req: Request)
    requires |req.Bufs()| <= |free| && Linked(desc, free) && Filled(desc, desc', free, |req.Bufs()|, req, true)
    ensures Holds(desc', free[..|req.inputs| + |req.outputs|], req.inputs, req.outputs)
  {
    var chain := free[..|req.Bufs()|];
    assert forall i | 0 <= i < |chain| :: chain[i] == free[i];
    forall j | 0 <= j < |req.outputs|
      ensures desc'[chain[|req.inputs| + j]].buf == req.outputs[j] && desc'[chain[|req.inputs| + j]].flags.write {
      assert req.Bufs()[|req.inputs| + j] == req.outputs[j];
    }
  }

  lemma HoldsShort(desc: seq<Descriptor>, chain: seq<nat>, req: Request)
    requires Holds(desc, chain, req.inputs, req.outputs) && NoRepeats(chain)
    ensures |chain| == |req.inputs| + |req.outputs| <= |desc|
  {
    Pigeonhole(chain, |desc|);
  }

  lemma CarriesFrame(desc: seq<Descriptor>, desc': seq<Descriptor>, chain: seq<nat>, req: Request)
    requires Carries(desc, chain, req) && |desc'| == |desc|
             && forall i | 0 <= i < |chain| :: desc'[chain[i]] == desc[chain[i]]
    ensures Carries(desc', chain, req)
  {
  }

  lemma LinkedFrame(desc: seq<Descriptor>, desc': seq<Descriptor>, list: seq<nat>, m: nat)
    requires Linked(desc, list) && |desc'| == |desc| && m <= |list|
             && forall d | 0 <= d < |desc| :: desc'[d].next == desc[d].next
    ensures Linked(desc', list[m..])
  {
  }

  lemma TakeDrop(free: seq<nat>, m: nat, d: nat)
    requires NoRepeats(free) && m <= |free|
    ensures d in free <==> d in free[..m] || d in free[m..]
    ensures !(d in free[..m] && d in free[m..])
  {
    assert free == free[..m] + free[m..];
  }

  /** The fields of that state which the driver writes. */
  lemma AddedFields(s: State, req: Request, desc: seq<Descriptor>)
    requires Inv(s) && 0 < |req.Bufs()| <= |s.free|
    ensures var s', h := AfterAdd(s, req, desc), s.free[0];
            && s'.desc == desc && s'.numUsed == s.numUsed + |req.Bufs()|
               && s'.freeHead == s.desc[s.free[|req.Bufs()| - 1]].next
            && s'.availRing == s.availRing[s.availIdx % s.size := h]
               && s'.availIdx == s'.availShared == (s.availIdx + 1) % 65536
            && s'.size == s.size && s'.usedRing == s.usedRing && s'.usedShared == s.usedShared
            && s'.lastUsedIdx == s.lastUsedIdx && s'.deviceIdx == s.deviceIdx
            && s'.pending == s.pending + [h] && s'.inflight == s.inflight && s'.done == s.done
            && s'.requests == s.requests[h := req] && s'.chains.Keys == s.chains.Keys + {h}
  {
    hide RingsOk, ChainsOk, StagesOk;
  }

  lemma AddKeepsFree(s: State, req: Request, desc: seq<Descriptor>)
    requires Inv(s) && 0 < |req.Bufs()| <= |s.free| && Filled(s.desc, desc, s.free, |req.Bufs()|, req, true)
    ensures FreeOk(AfterAdd(s, req, desc))
  {
    hide ChainsOk, StagesOk, RingsOk, Linked;
    var m, s' := |req.Bufs()|, AfterAdd(s, req, desc);
    LinkedFrame(s.desc, desc, s.free, m);
    forall d: nat | d < s.size ensures d in s'.free <==> s'.owner[d].None? { TakeDrop(s.free, m, d); }
    if m < |s.free| { NextFree(s.desc, s.free, m); }
  }

  lemma NextFree(desc: seq<Descriptor>, free: seq<nat>, m: nat)
    requires Linked(desc, free) && 0 < m < |free|
    ensures desc[free[m - 1]].next == free[m..][0]
  {
  }

  lemma AddKeepsChain(s: State, req: Request, desc: seq<Descriptor>, h: nat)
    requires Inv(s) && 0 < |req.Bufs()| <= |s.free| && Filled(s.desc, desc, s.free, |req.Bufs()|, req, true)
    requires h in s.chains
    ensures h != s.free[0] && ChainOk(AfterAdd(s, req, desc), h)
  {
    hide StagesOk, RingsOk, Carries, Linked;
    assert ChainOk(s, h);
    var m, s' := |req.Bufs()|, AfterAdd(s, req, desc);
    forall i | 0 <= i < m ensures s.free[i] !in s.chains[h] && s.free[i] != h { FreeUnowned(s, s.free[i]); }
    assert forall d | d in s.chains[h] :: d !in s.free[..m];
    ChainBelow(s.desc, s.chains[h], s.requests[h]);
    CarriesFrame(s.desc, desc, s.chains[h], s.requests[h]);
  }

  lemma ChainBelow(desc: seq<Descriptor>, chain: seq<nat>, req: Request)
    requires Carries(desc, chain, req)
    ensures Below(chain, |desc|)
  {
  }

  lemma AddMakesChain(s: State, req: Request, desc: seq<Descriptor>)
    requires Inv(s) && 0 < |req.Bufs()| <= |s.free| && Filled(s.desc, desc, s.free, |req.Bufs()|, req, true)
    ensures ChainOk(AfterAdd(s, req, desc), s.free[0])
  {
    hide StagesOk, RingsOk, ChainsOk;
    FreeUnowned(s, s.free[0]);
    HeadOwnsNone(s, s.free[0]);
  }

  lemma HeadOwnsNone(s: State, h: nat)
    requires ChainsOk(s) && h !in s.chains
    ensures forall d: nat | d < |s.owner| :: s.owner[d] != Some(h)
  {
  }

  lemma AddKeepsStages(s: State, req: Request, desc: seq<Descriptor>)
    requires Inv(s) && 0 < |req.Bufs()| <= |s.free|
    ensures s.free[0] !in s.chains && StagesOk(AfterAdd(s, req, desc))
  {
    hide RingsOk, ChainsOk, FreeOk;
    FreeUnowned(s, s.free[0]);
  }

  lemma AddKeepsRings(s: State, req: Request, desc: seq<Descriptor>)
    requires Inv(s) && 0 < |req.Bufs()| <= |s.free|
    ensures |s.pending| < s.size && RingsOk(AfterAdd(s, req, desc))
  {
    hide RingHolds, ChainsOk, FreeOk, GoodSize;
    HeadsNotFree(s, s.pending);
    RingAppend(s.availRing, s.deviceIdx, s.pending, s.size, s.free[0]);
  }

  /** Appending at a 16-bit index that counts the held entries. */
  lemma RingAppend<T(!new)>(ring: seq<T>, from: nat, list: seq<T>, size: nat, x: T)
    requires GoodSize(size) && |ring| == 32 && |list| < size && 0 < size <= 32 && RingHolds(ring, from, list, size)
    ensures var idx := (from + |list|) % 65536;
            RingHolds(ring[idx % size := x], from, list + [x], size)
                && (idx + 1) % 65536 == (from + |list + [x]|) % 65536
  {
    hide RingHolds;
    RingPush(ring, from, list, size, x);
    WrapSlot(from + |list|, 0, size);
  }

  /** `add` preserves the invariant: it never overwrites an offer the device has not taken. */
  lemma AddKeeps(s: State, req: Request, desc: seq<Descriptor>)
    requires Inv(s) && 0 < |req.Bufs()| <= |s.free| && Filled(s.desc, desc, s.free, |req.Bufs()|, req, true)
    ensures Inv(AfterAdd(s, req, desc))
  {
    hide FreeOk, StagesOk, RingsOk, ChainOk, Filled;
    var s' := AfterAdd(s, req, desc);
    AddKeepsFree(s, req, desc);
    AddMakesChain(s, req, desc);
    forall h | h in s.chains ensures ChainOk(s', h) { AddKeepsChain(s, req, desc, h); }
    AddKeepsStages(s, req, desc);
    AddKeepsRings(s, req, desc);
  }

  // ---------------------------------------------------------------- device steps

  ghost function AfterFetch(s: State): State
    requires s.pending != []
  {
    s.(deviceIdx := (s.deviceIdx + 1) % 65536, pending := s.pending[1..], inflight := s.inflight + {s.pending[0]})
  }

  /** The descriptors' part of the invariant does not mention the rings or the stages. */
  lemma SameDescriptors(s: State, s': State)
    requires FreeOk(s) && ChainsOk(s)
    requires s'.size == s.size && s'.desc == s.desc && s'.numUsed == s.numUsed && s'.freeHead == s.freeHead
    requires s'.free == s.free && s'.owner == s.owner && s'.chains == s.chains && s'.requests == s.requests
    ensures FreeOk(s') && ChainsOk(s')
  {
    hide Linked, NoRepeats, Carries;
    forall h | h in s'.chains ensures ChainOk(s', h) { assert ChainOk(s, h); }
  }

  lemma FetchKeeps(s: State)
    requires Inv(s) && s.pending != []
    ensures Inv(AfterFetch(s)) && s.availRing[s.deviceIdx % s.size] == s.pending[0]
  {
    hide RingHolds, FreeOk, ChainsOk, StagesOk, GoodSize;
    RingPop(s.availRing, s.deviceIdx, s.pending, s.size);
    PopWrap(s.deviceIdx, |s.pending|);
    FetchKeepsStages(s);
    SameDescriptors(s, AfterFetch(s));
  }

  lemma FetchKeepsStages(s: State)
    requires StagesOk(s) && s.pending != []
    ensures StagesOk(AfterFetch(s))
  {
    hide NoRepeats, Ids;
    TailOnce(s.pending);
  }

  lemma TailOnce(s: seq<nat>)
    requires NoRepeats(s) && s != []
    ensures NoRepeats(s[1..]) && s[0] !in s[1..] && forall h :: h in s <==> h == s[0] || h in s[1..]
  {
    assert s == [s[0]] + s[1..];
  }

  ghost function AfterComplete(s: State, h: nat, len: nat): State
    requires Inv(s) && h in s.inflight
  {
    s.(usedRing := s.usedRing[s.usedShared % s.size := UsedElem(h, len)], usedShared := (s.usedShared + 1) % 65536,
       inflight := s.inflight - {h}, done := s.done + [UsedElem(h, len)])
  }

  lemma CompleteKeeps(s: State, h: nat, len: nat)
    requires Inv(s) && h in s.inflight
    ensures Inv(AfterComplete(s, h, len))
  {
    hide RingHolds, NoRepeats, FreeOk, ChainsOk, GoodSize, StagesOk;
    var s' := AfterComplete(s, h, len);
    CompleteKeepsStages(s, h, len);
    HeadsNotFree(s, Ids(s'.done));
    RingAppend(s.usedRing, s.lastUsedIdx, s.done, s.size, UsedElem(h, len));
    SameDescriptors(s, s');
  }

  lemma CompleteKeepsStages(s: State, h: nat, len: nat)
    requires Inv(s) && h in s.inflight
    ensures StagesOk(AfterComplete(s, h, len)) && NoRepeats(Ids(AfterComplete(s, h, len).done))
    ensures forall i | 0 <= i < |s.done| + 1 :: Ids(AfterComplete(s, h, len).done)[i] in s.chains
  {
    hide RingHolds, Linked, Carries, ChainOk, FreeOk;
    var s' := AfterComplete(s, h, len);
    assert Ids(s'.done) == Ids(s.done) + [h];
  }

  // ---------------------------------------------------------------- pop_used

  /** The chain goes back to the front of the free list; its last descriptor now leads on to the old front. */
  ghost function AfterPop(s: State): State
    requires Inv(s) && s.done != []
  {
    var h := s.done[0].id;
    ReturnedHead(s);
    var chain := s.chains[h];
    var last := chain[|chain| - 1];
    s.(desc := s.desc[last := s.desc[last].(next := s.freeHead)], numUsed := s.numUsed - |chain|, freeHead := h,
       lastUsedIdx := (s.lastUsedIdx + 1) % 65536, free := chain + s.free, owner := Reown(s.owner, chain, None),
       chains := s.chains - {h}, requests := s.requests - {h}, done := s.done[1..])
  }

  lemma ReturnedHead(s: State)
    requires Inv(s) && s.done != []
    ensures s.done[0].id in s.chains && s.done[0].id in s.requests && ChainOk(s, s.done[0].id)
    ensures var chain := s.chains[s.done[0].id];
            0 < |chain| <= s.numUsed && Below(chain, |s.desc|) && NoRepeats(chain + s.free) && |s.desc| == s.size
  {
    hide RingsOk;
    assert Ids(s.done)[0] == s.done[0].id;
    ChainFits(s, s.done[0].id);
  }

  lemma ChainFits(s: State, h: nat)
    requires FreeOk(s) && ChainsOk(s) && h in s.chains && h in s.requests
    ensures ChainOk(s, h)
    ensures 0 < |s.chains[h]| <= s.numUsed && Below(s.chains[h], |s.desc|) && NoRepeats(s.chains[h] + s.free)
  {
    var chain := s.chains[h];
    assert ChainOk(s, h);
    forall i | 0 <= i < |s.free| ensures s.free[i] !in chain { FreeUnowned(s, s.free[i]); }
    Pigeonhole(chain + s.free, s.size);
  }

  lemma PopKeepsFree(s: State)
    requires Inv(s) && s.done != []
    ensures FreeOk(AfterPop(s))
  {
    hide RingsOk, StagesOk, ChainsOk, Carries;
    ReturnedHead(s);
    var h, s' := s.done[0].id, AfterPop(s);
    var chain := s.chains[h];
    forall d: nat | d < s.size
      ensures d in s'.free <==> s'.owner[d].None? { assert d in s'.free <==> d in chain || d in s.free; }
    RelinkChain(s.desc, chain, s.requests[h], s.free, s.freeHead);
  }

  lemma RelinkChain(desc: seq<Descriptor>, chain: seq<nat>, req: Request, free: seq<nat>, freeHead: nat)
    requires Carries(desc, chain, req) && Linked(desc, free) && NoRepeats(chain + free)
             && (free != [] ==> freeHead == free[0])
    ensures var last := chain[|chain| - 1];
            Linked(desc[last := desc[last].(next := freeHead)], chain + free)
  {
    var last := chain[|chain| - 1];
    var desc' := desc[last := desc[last].(next := freeHead)];
    var all := chain + free;
    forall i | 0 <= i < |all| - 1 ensures desc'[all[i]].next == all[i + 1] {
      if i < |chain| - 1 {
        assert all[i] == chain[i] && all[|chain| - 1] == last;
      } else if i >= |chain| {
        assert all[i] == free[i - |chain|] && all[|chain| - 1] == last;
      }
    }
  }

  lemma PopKeepsChain(s: State, g: nat)
    requires Inv(s) && s.done != [] && g in s.chains && g != s.done[0].id
    ensures g in AfterPop(s).chains && g in AfterPop(s).requests && ChainOk(AfterPop(s), g)
  {
    hide RingsOk, StagesOk, Carries, Linked;
    ReturnedHead(s);
    var h, s' := s.done[0].id, AfterPop(s);
    var chain := s.chains[h];
    assert ChainOk(s, g) && ChainOk(s, h);
    ChainBelow(s.desc, s.chains[g], s.requests[g]);
    assert forall d: nat | d < |s.desc| && d in chain :: d !in s.chains[g];
    assert chain[|chain| - 1] in chain;
    assert forall i | 0 <= i < |s.chains[g]| :: s.chains[g][i] in s.chains[g];
    CarriesFrame(s.desc, s'.desc, s.chains[g], s.requests[g]);
  }

  lemma PopKeepsStages(s: State)
    requires Inv(s) && s.done != []
    ensures StagesOk(AfterPop(s))
  {
    hide RingsOk, ChainsOk, FreeOk, Ids, NoRepeats;
    ReturnedHead(s);
    TailIds(s.done);
  }

  lemma TailIds(done: seq<UsedElem>)
    requires NoRepeats(Ids(done)) && done != []
    ensures NoRepeats(Ids(done[1..])) && done[0].id !in Ids(done[1..])
    ensures forall h :: h in Ids(done) <==> h == done[0].id || h in Ids(done[1..])
  {
    assert Ids(done) == [done[0].id] + Ids(done[1..]);
  }

  lemma PopKeepsRings(s: State)
    requires Inv(s) && s.done != []
    ensures RingsOk(AfterPop(s)) && s.usedRing[s.lastUsedIdx % s.size] == s.done[0]
  {
    hide RingHolds, FreeOk, ChainsOk, StagesOk, GoodSize, Reown;
    RingPop(s.usedRing, s.lastUsedIdx, s.done, s.size);
    PopWrap(s.lastUsedIdx, |s.done|);
  }

  lemma PopWrap(idx: nat, n: nat)
    requires n > 0
    ensures ((idx + 1) % 65536 + (n - 1)) % 65536 == (idx + n) % 65536
  {
  }

  lemma PopKeeps(s: State)
    requires Inv(s) && s.done != []
    ensures Inv(AfterPop(s)) && s.usedRing[s.lastUsedIdx % s.size] == s.done[0]
  {
    hide RingsOk, FreeOk, ChainOk, StagesOk;
    ReturnedHead(s);
    PopKeepsFree(s);
    PopKeepsStages(s);
    PopKeepsRings(s);
    var s' := AfterPop(s);
    forall g | g in s'.chains ensures ChainOk(s', g) { PopKeepsChain(s, g); }
    PopKeepsOwners(s);
  }

  lemma PopKeepsOwners(s: State)
    requires Inv(s) && s.done != []
    ensures AfterPop(s).chains.Keys == AfterPop(s).requests.Keys
    ensures forall d | 0 <= d < |AfterPop(s).owner| && AfterPop(s).owner[d].Some? ::
            AfterPop(s).owner[d].value in AfterPop(s).chains
  {
    hide RingsOk, FreeOk, StagesOk, Carries;
    ReturnedHead(s);
  }

  /** `can_pop` compares two 16-bit counters; they differ exactly when a completion has not been popped. */
  lemma CanPopExact(s: State)
    requires Inv(s)
    ensures s.lastUsedIdx != s.usedShared <==> s.done != []
  {
    hide FreeOk, ChainsOk, RingHolds, GoodSize;
    HeadsNotFree(s, Ids(s.done));
  }

  /** What a device can see decides whether an offer is waiting: its own index and the shared one. */
  lemma CanFetchExact(s: State)
    requires Inv(s)
    ensures s.deviceIdx != s.availShared <==> s.pending != []
  {
    hide FreeOk, ChainsOk, RingHolds, GoodSize;
    HeadsNotFree(s, s.pending);
  }

  // ---------------------------------------------------------------- the queue itself

  ghost function StagesOf(s: State): Stages {
    Stages(s.pending, s.inflight, Ids(s.done))
  }

  lemma AddTraced(s: State, s': State, run: seq<Event>, h: nat)
    requires StagesOk(s) && h !in s.chains && Replay(run) == Some(StagesOf(s))
    requires s'.pending == s.pending + [h] && s'.inflight == s.inflight && s'.done == s.done
    ensures Replay(run + [Added(h)]) == Some(StagesOf(s'))
  {
    hide Replay;
    ReplayAppend(run, Added(h));
  }

  lemma FetchTraced(s: State, run: seq<Event>)
    requires s.pending != [] && Replay(run) == Some(StagesOf(s))
    ensures Replay(run + [Fetched(s.pending[0])]) == Some(StagesOf(AfterFetch(s)))
  {
    hide Replay;
    ReplayAppend(run, Fetched(s.pending[0]));
  }

  lemma CompleteTraced(s: State, run: seq<Event>, h: nat, len: nat)
    requires Inv(s) && h in s.inflight && Replay(run) == Some(StagesOf(s))
    ensures Replay(run + [Completed(h)]) == Some(StagesOf(AfterComplete(s, h, len)))
  {
    hide Replay, Inv;
    ReplayAppend(run, Completed(h));
    assert Ids(s.done + [UsedElem(h, len)]) == Ids(s.done) + [h];
  }

  lemma PopTraced(s: State, run: seq<Event>)
    requires Inv(s) && s.done != [] && Replay(run) == Some(StagesOf(s))
    ensures Replay(run + [Popped(s.done[0].id)]) == Some(StagesOf(AfterPop(s)))
  {
    hide Replay, RingsOk, FreeOk, ChainsOk, StagesOk;
    ReplayAppend(run, Popped(s.done[0].id));
    assert Ids(s.done[1..]) == Ids(s.done)[1..];
    ReturnedHead(s);
  }

  /** `new` links each descriptor to the one after it. */
  method LinkAll(size: nat) returns (desc: seq<Descriptor>)
    ensures |desc| == size && forall i: nat | i + 1 < size :: desc[i].next == i + 1
  {
    desc := seq(size, _ => Descriptor(Buf(0, 0), DescFlags(false, false), 0));
    var i := 0;
    while i + 1 < size
      invariant |desc| == size && i <= size
      invariant forall j: nat | j < i :: desc[j].next == j + 1
    {
      desc := desc[i := desc[i].(next := i + 1)];
      i := i + 1;
    }
  }

  ghost function Upto(n: nat): (s: seq<nat>)
    ensures |s| == n && forall i | 0 <= i < n :: s[i] == i
  {
    seq(n, i requires 0 <= i < n => i)
  }

  lemma InitialFree(s: State)
    requires |s.desc| == s.size > 0 && (forall i: nat | i + 1 < s.size :: s.desc[i].next == i + 1)
    requires s.free == Upto(s.size) && |s.owner| == s.size && (forall i | 0 <= i < s.size :: s.owner[i] == None)
             && s.numUsed == 0 && s.freeHead == 0
    ensures FreeOk(s)
  {
    forall d: nat | d < s.size ensures d in s.free { assert s.free[d] == d; }
  }

  lemma EmptyRings(s: State)
    requires GoodSize(s.size) && |s.availRing| == |s.usedRing| == 32 && s.pending == [] && s.done == []
    requires s.deviceIdx == s.lastUsedIdx == s.availIdx == s.availShared == s.usedShared == 0
    ensures RingsOk(s)
  {
  }

  lemma HeadFresh(s: State)
    requires Inv(s) && s.free != []
    ensures s.free[0] !in s.chains
  {
    FreeUnowned(s, s.free[0]);
  }

  lemma RingFacts(s: State)
    requires RingsOk(s)
    ensures GoodSize(s.size) && 0 < s.size <= 32 && |s.availRing| == |s.usedRing| == 32 && s.availIdx == s.availShared
  {
  }

  class VirtQueue {
    const queueSize: nat
    var desc: seq<Descriptor>
    var availRing: seq<nat>
    var availShared: nat
    var usedRing: seq<UsedElem>
    var usedShared: nat
    var numUsed: nat
    var freeHead: nat
    var availIdx: nat
    var lastUsedIdx: nat
    var deviceIdx: nat
    ghost var free: seq<nat>
    ghost var owner: seq<Option<nat>>
    ghost var chains: map<nat, seq<nat>>
    ghost var requests: map<nat, Request>
    ghost var pending: seq<nat>
    ghost var inflight: set<nat>
    ghost var done: seq<UsedElem>
    ghost var run: seq<Event>

    ghost function Now(): State
      reads this
    {
      State(queueSize, desc, availRing, availShared, usedRing, usedShared, numUsed, freeHead, availIdx, lastUsedIdx,
            deviceIdx,
            free, owner, chains, requests, pending, inflight, done)
    }

    /** The invariant holds, and the stages are what the run so far leads to. */
    ghost predicate Valid()
      reads this
    {
      Inv(Now()) && Replay(run) == Some(StagesOf(Now()))
    }

    /** Brings the bookkeeping up to date with a step. */
    ghost method Record(s: State, e: Event)
      modifies this`run, this`free, this`owner, this`chains, this`requests, this`pending, this`inflight, this`done
      ensures free == s.free && owner == s.owner && chains == s.chains && requests == s.requests
      ensures pending == s.pending && inflight == s.inflight && done == s.done && run == old(run) + [e]
    {
      run := run + [e];
      free, owner, chains, requests, pending, inflight, done := s.free, s.owner, s.chains, s.requests, s.pending,
          s.inflight, s.done;
    }

    /** `new`, on zeroed DMA memory: every descriptor is free. */
    constructor (size: nat)
      requires GoodSize(size)
      ensures Valid() && queueSize == size && |free| == size && chains == map[] && run == []
    {
      queueSize := size;
      var table := LinkAll(size);
      desc := table;
      availRing, availShared := seq(32, _ => 0), 0;
      usedRing, usedShared := seq(32, _ => UsedElem(0, 0)), 0;
      numUsed, freeHead, availIdx, lastUsedIdx, deviceIdx := 0, 0, 0, 0, 0;
      free := Upto(size);
      owner := seq(size, _ => None);
      chains, requests, pending, inflight, done, run := map[], map[], [], {}, [], [];
      new;
      hide GoodSize, RingHolds;
      InitialFree(Now());
      EmptyRings(Now());
    }

    /** `add`: the token is the head of a chain that carries exactly these buffers. */
    method Add(inputs: seq<Buf>, outputs: seq<Buf>) returns (r: Result<nat>)
      requires Valid()
      modifies this
      ensures Valid()
      ensures r.Err? ==> Now() == old(Now()) && run == old(run)
      ensures r.Ok? ==> run == old(run) + [Added(r.value)]
      ensures r == Err(InvalidParam) <==> inputs == [] && outputs == []
      ensures r == Err(BufferTooSmall) <==> |inputs| + |outputs| > 0 && |inputs| + |outputs| > |old(free)|
      ensures r.Ok? ==> r.value !in old(chains) && pending == old(pending) + [r.value] && inflight == old(inflight)
                        && done == old(done)
      ensures r.Ok? ==> chains.Keys == old(chains.Keys) + {r.value}
                        && requests == old(requests)[r.value := Request(inputs, outputs)]
      ensures r.Ok? ==> Holds(desc, chains[r.value], inputs, outputs) && chains[r.value][0] == r.value
    {
      hide FreeOk, ChainsOk, StagesOk, RingsOk;
      if inputs == [] && outputs == [] {
        return Err(InvalidParam);
      }
      FreeCount(Now());
      if |inputs| + |outputs| + numUsed > queueSize {
        return Err(BufferTooSmall);
      }
      var head := Submit(inputs, outputs);
      ChainHead(Now(), head);
      return Ok(head);
    }

    /** `add` once its arguments have been accepted. */
    method Submit(inputs: seq<Buf>, outputs: seq<Buf>) returns (head: nat)
      requires Valid() && 0 < |inputs| + |outputs| <= |free|
      modifies this
      ensures Valid() && run == old(run) + [Added(head)]
      ensures head !in old(chains) && pending == old(pending) + [head] && inflight == old(inflight) && done == old(done)
      ensures chains.Keys == old(chains.Keys) + {head} && requests == old(requests)[head := Request(inputs, outputs)]
    {
      hide FreeOk, ChainsOk, StagesOk, RingsOk, Filled, NoRepeats, AfterAdd, Replay;
      ghost var s, req := Now(), Request(inputs, outputs);
      HeadFresh(s);
      head := Offer(inputs, outputs);
      AddKeeps(s, req, desc);
      AddedFields(s, req, desc);
      AddTraced(s, AfterAdd(s, req, desc), run, head);
      Record(AfterAdd(s, req, desc), Added(head));
      assert Now() == AfterAdd(s, req, desc);
    }

    /** What `add` does to the queue's memory and the driver's fields. */
    method Offer(inputs: seq<Buf>, outputs: seq<Buf>) returns (head: nat)
      requires Valid() && 0 < |inputs| + |outputs| <= |free|
      modifies this`desc, this`freeHead, this`numUsed, this`availRing, this`availIdx, this`availShared
      ensures Below(free, |old(desc)|) && Filled(old(desc), desc, free, |inputs| + |outputs|, Request(inputs, outputs),
                                                 true)
      ensures head == free[0] && freeHead == old(desc)[free[|inputs| + |outputs| - 1]].next
              && numUsed == old(numUsed) + (|inputs| + |outputs|)
      ensures 0 < queueSize <= |old(availRing)| && availRing == old(availRing)[old(availIdx) % queueSize := head]
      ensures availIdx == availShared == (old(availIdx) + 1) % 65536
    {
      hide FreeOk, ChainsOk, StagesOk, RingsOk, GoodSize, Filled, NoRepeats, Replay;
      RingFacts(Now());
      FreeCount(Now());
      head := freeHead;
      var last := TakeDescriptors(inputs, outputs);
      numUsed := numUsed + (|inputs| + |outputs|);
      Publish(head);
    }

    /** The end of `add`: the head goes into the next slot of the available ring, and only then is it offered. */
    method Publish(head: nat)
      requires GoodSize(queueSize) && 0 < queueSize <= |availRing|
      modifies this`availRing, this`availIdx, this`availShared
      ensures availRing == old(availRing)[old(availIdx) % queueSize := head]
      ensures availIdx == availShared == (old(availIdx) + 1) % 65536
    {
      SlotIsRemainder(availIdx, queueSize);
      availRing := availRing[And(availIdx, queueSize - 1) := head];
      availIdx := (availIdx + 1) % 65536;
      availShared := availIdx;
    }

    /** The loops of `add` over inputs and outputs, and the clearing of NEXT on the last descriptor. */
    method TakeDescriptors(inputs: seq<Buf>, outputs: seq<Buf>) returns (last: nat)
      requires Valid() && 0 < |inputs| + |outputs| <= |free|
      modifies this`desc, this`freeHead
      ensures Below(old(free), |old(desc)|)
              && Filled(old(desc), desc, free, |inputs| + |outputs|, Request(inputs, outputs), true)
      ensures freeHead == old(desc)[free[|inputs| + |outputs| - 1]].next
      ensures Holds(desc, free[..|inputs| + |outputs|], inputs, outputs)
    {
      hide ChainsOk, StagesOk, RingsOk, Filled, Holds;
      ghost var d0, req := desc, Request(inputs, outputs);
      last := freeHead;
      NothingFilled(d0, free, req);
      var k := 0;
      while k < |inputs|
        invariant k <= |inputs| && |desc| == |d0| && Filled(d0, desc, free, k, req, false)
        invariant freeHead == Front(d0, free, k, old(freeHead)) && (k > 0 ==> last == free[k - 1])
      {
        last := TakeOne(inputs[k], false, k, d0, req, old(freeHead));
        k := k + 1;
      }
      k := 0;
      while k < |outputs|
        invariant k <= |outputs| && |desc| == |d0| && Filled(d0, desc, free, |inputs| + k, req, false)
        invariant freeHead == Front(d0, free, |inputs| + k, old(freeHead))
                  && (|inputs| + k > 0 ==> last == free[|inputs| + k - 1])
      {
        last := TakeOne(outputs[k], true, |inputs| + k, d0, req, old(freeHead));
        k := k + 1;
      }
      CloseChain(d0, desc, free, |inputs| + |outputs|, req);
      desc := desc[last := desc[last].(flags := desc[last].flags.(next := false))];
      FilledHolds(d0, desc, free, req);
    }

    /** One turn of either loop: fill the front free descriptor and step along the list. */
    method TakeOne(buf: Buf, write: bool, ghost m: nat, ghost d0: seq<Descriptor>, ghost req: Request,
                   ghost first: nat) returns (last: nat)
      requires NoRepeats(free) && Linked(d0, free) && m < |free| && m < |req.Bufs()| && first == free[0]
      requires |desc| == |d0| && Filled(d0, desc, free, m, req, false) && freeHead == Front(d0, free, m, first)
      requires buf == req.Bufs()[m] && write == (m >= |req.inputs|)
      modifies this`desc, this`freeHead
      ensures |desc| == |d0| && Filled(d0, desc, free, m + 1, req, false) && freeHead == Front(d0, free, m + 1, first)
              && last == free[m]
    {
      FillOne(d0, desc, free, m, req);
      last := freeHead;
      desc := desc[freeHead := Descriptor(buf, DescFlags(true, write), desc[freeHead].next)];
      freeHead := desc[freeHead].next;
    }

    /** `can_pop`. */
    method CanPop() returns (b: bool)
      requires Valid()
      ensures b <==> done != []
    {
      hide Inv;
      CanPopExact(Now());
      b := lastUsedIdx != usedShared;
    }

    /** `recycle_descriptors`: follows the chain to the end of it and no further. */
    method RecycleDescriptors(head: nat)
      requires Valid() && done != [] && head == done[0].id
      modifies this`desc, this`numUsed, this`freeHead
      ensures head in chains && 0 < |chains[head]| <= old(numUsed) && Below(chains[head], |old(desc)|)
      ensures var last := chains[head][|chains[head]| - 1];
              desc == old(desc)[last := old(desc)[last].(next := old(freeHead))]
      ensures numUsed == old(numUsed) - |chains[head]| && freeHead == head
    {
      hide FreeOk, ChainsOk, StagesOk, RingsOk;
      ReturnedHead(Now());
      ghost var chain := chains[head];
      var originFreeHead := freeHead;
      freeHead := head;
      var at := head;
      ghost var i := 0;
      while true
        invariant 0 <= i < |chain| && at == chain[i] && numUsed == old(numUsed) - i && desc == old(desc)
                  && freeHead == head
        decreases |chain| - i
      {
        numUsed := numUsed - 1;
        if desc[at].flags.next {
          at := desc[at].next;
          i := i + 1;
        } else {
          desc := desc[at := desc[at].(next := originFreeHead)];
          return;
        }
      }
    }

    method OldestUsed() returns (elem: UsedElem)
      requires GoodSize(queueSize) && 0 < queueSize <= |usedRing|
      ensures elem == usedRing[lastUsedIdx % queueSize]
    {
      SlotIsRemainder(lastUsedIdx, queueSize);
      elem := usedRing[And(lastUsedIdx, queueSize - 1)];
    }

    /** `pop_used`: the oldest completion, whose descriptors become free again. */
    method PopUsed() returns (r: Result<UsedElem>)
      requires Valid()
      modifies this
      ensures Valid()
      ensures r.Err? <==> old(done) == []
      ensures r.Err? ==> Now() == old(Now()) && run == old(run) && r.error == NotReady
      ensures r.Ok? ==> run == old(run) + [Popped(r.value.id)]
      ensures r.Ok? ==> r.value == old(done)[0] && done == old(done)[1..] && pending == old(pending)
                        && inflight == old(inflight)
      ensures r.Ok? ==> r.value.id in old(chains) && chains == old(chains) - {r.value.id}
                        && requests == old(requests) - {r.value.id}
      ensures r.Ok? ==> free == old(chains)[old(done)[0].id] + old(free)
    {
      hide FreeOk, ChainsOk, StagesOk, RingsOk, GoodSize, ChainOk, Replay;
      RingFacts(Now());
      var ready := CanPop();
      if !ready {
        return Err(NotReady);
      }
      ghost var s := Now();
      PopKeeps(s);
      ReturnedHead(s);
      var elem := OldestUsed();
      RecycleDescriptors(elem.id);
      lastUsedIdx := (lastUsedIdx + 1) % 65536;
      PopTraced(s, run);
      Record(AfterPop(s), Popped(elem.id));
      assert Now() == AfterPop(s);
      return Ok(elem);
    }

    /** The device takes the next offer. */
    method DeviceFetch() returns (head: nat)
      requires Valid() && deviceIdx != availShared
      modifies this
      ensures Valid() && old(pending) != [] && head == old(pending)[0] && run == old(run) + [Fetched(head)]
      ensures pending == old(pending)[1..] && inflight == old(inflight) + {head} && done == old(done)
      ensures chains == old(chains) && requests == old(requests) && desc == old(desc)
    {
      hide FreeOk, ChainsOk, StagesOk, RingHolds, GoodSize, Replay;
      ghost var s := Now();
      CanFetchExact(s);
      FetchKeeps(s);
      head := availRing[deviceIdx % queueSize];
      deviceIdx := (deviceIdx + 1) % 65536;
      FetchTraced(s, run);
      Record(AfterFetch(s), Fetched(head));
      assert Now() == AfterFetch(s);
    }

    /** The device returns any chain it holds. */
    method DeviceComplete(head: nat, len: nat)
      requires Valid() && head in inflight
      modifies this
      ensures Valid() && run == old(run) + [Completed(head)]
      ensures pending == old(pending) && inflight == old(inflight) - {head} && done == old(done) + [UsedElem(head, len)]
      ensures chains == old(chains) && requests == old(requests) && desc == old(desc)
    {
      hide FreeOk, ChainsOk, StagesOk, RingHolds, GoodSize, Replay;
      ghost var s := Now();
      CompleteKeeps(s, head, len);
      usedRing := usedRing[usedShared % queueSize := UsedElem(head, len)];
      usedShared := (usedShared + 1) % 65536;
      CompleteTraced(s, run, head, len);
      Record(AfterComplete(s, head, len), Completed(head));
      assert Now() == AfterComplete(s, head, len);
    }
  }

  /** Where the free list stands after `m` descriptors have been taken. */
  ghost function Front(desc: seq<Descriptor>, free: seq<nat>, m: nat, first: nat): nat
    requires m <= |free| && Below(free, |desc|)
  {
    if m == 0 then first else desc[free[m - 1]].next
  }

  lemma NothingFilled(desc: seq<Descriptor>, free: seq<nat>, req: Request)
    requires Below(free, |desc|)
    ensures Filled(desc, desc, free, 0, req, false)
  {
  }

  lemma FreeCount(s: State)
    requires FreeOk(s)
    ensures s.numUsed + |s.free| == s.size
    ensures s.free != [] ==> s.freeHead == s.free[0]
    ensures Below(s.free, |s.desc|)
  {
  }

  /** `new`: refused for a queue in use, a size that is no power of two or one the device does not support. */
  method NewQueue(used: bool, maxSize: nat, size: nat) returns (r: Result<VirtQueue>)
    requires size <= 32
    ensures r == Err(AlreadyUsed) <==> used
    ensures r == Err(InvalidParam) <==> !used && (maxSize < size || !exists k: nat :: size == Pow2(k))
    ensures r.Err? ==> r.error == AlreadyUsed || r.error == InvalidParam
    ensures r.Ok? ==> fresh(r.value) && r.value.Valid() && r.value.queueSize == size && |r.value.free| == size
                      && r.value.chains == map[] && r.value.run == []
  {
    hide Inv;
    GoodSizeIsPower(size);
    if used { return Err(AlreadyUsed); }
    if !GoodSize(size) || maxSize < size { return Err(InvalidParam); }
    var q := new VirtQueue(size);
    return Ok(q);
  }
}
