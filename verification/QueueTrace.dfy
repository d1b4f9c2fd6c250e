/** The life of virtqueue tokens over whole runs (dependency/virtio-drivers/src/queue.rs): a token is offered by
    `add`, taken by the device, returned by it, and popped, in that order and once each before it is reused. */
module QueueTrace {
  import opened Options

  datatype Event = Added(token: nat) | Fetched(token: nat) | Completed(token: nat) | Popped(token: nat)

  /** The tokens offered but not taken, taken but not returned, returned but not popped. */
  datatype Stages = Stages(pending: seq<nat>, inflight: set<nat>, done: seq<nat>)

  predicate Outstanding(s: Stages, token: nat) {
    token in s.pending || token in s.inflight || token in s.done
  }

  predicate Enabled(s: Stages, e: Event) {
    match e
    case Added(t) => !Outstanding(s, t)
    case Fetched(t) => s.pending != [] && s.pending[0] == t
    case Completed(t) => t in s.inflight
    case Popped(t) => s.done != [] && s.done[0] == t
  }

  function Next(s: Stages, e: Event): Stages
    requires Enabled(s, e)
  {
    match e
    case Added(t) => s.(pending := s.pending + [t])
    case Fetched(t) => s.(pending := s.pending[1..], inflight := s.inflight + {t})
    case Completed(t) => s.(inflight := s.inflight - {t}, done := s.done + [t])
    case Popped(t) => s.(done := s.done[1..])
  }

  /** Where a run leads from an empty queue, if every event of it was possible. */
  function Replay(run: seq<Event>): Option<Stages> {
    if run == [] then Some(Stages([], {}, [])) else
    var before := Replay(run[..|run| - 1]);
    var e := run[|run| - 1];
    if before.Some? && Enabled(before.value, e) then Some(Next(before.value, e)) else None
  }

  lemma ReplayAppend(run: seq<Event>, e: Event)
    requires Replay(run).Some? && Enabled(Replay(run).value, e)
    ensures Replay(run + [e]) == Some(Next(Replay(run).value, e))
  {
    assert (run + [e])[..|run|] == run;
  }

  function Count(run: seq<Event>, e: Event): nat {
    if run == [] then 0 else Count(run[..|run| - 1], e) + (if run[|run| - 1] == e then 1 else 0)
  }

  /** No token is in two stages at once, or twice in one. */
  ghost predicate Unique(s: Stages) {
    && (forall i, j | 0 <= i < j < |s.pending| :: s.pending[i] != s.pending[j])
    && (forall i, j | 0 <= i < j < |s.done| :: s.done[i] != s.done[j])
    && (forall t | t in s.pending :: t !in s.inflight && t !in s.done)
    && (forall t | t in s.inflight :: t !in s.done)
  }

  lemma NextUnique(s: Stages, e: Event)
    requires Unique(s) && Enabled(s, e)
    ensures Unique(Next(s, e))
    ensures forall t :: Outstanding(Next(s, e), t) <==> (Outstanding(s, t) && e != Popped(t)) || e == Added(t)
  {
    match e
    case Added(t) =>
    case Fetched(t) => assert s.pending == [t] + s.pending[1..];
    case Completed(t) =>
    case Popped(t) => assert s.done == [t] + s.done[1..];
  }

  /** Every token has been popped as often as it was added, but for the one time it is still outstanding: it
      is never popped twice for one `add`, and never handed out again before it was popped. */
  lemma {:induction false} TokenConservation(run: seq<Event>, token: nat)
    requires Replay(run).Some?
    ensures Unique(Replay(run).value)
    ensures Count(run, Added(token)) ==
            Count(run, Popped(token)) + (if Outstanding(Replay(run).value, token) then 1 else 0)
    decreases |run|
  {
    if run != [] {
      var init, e := run[..|run| - 1], run[|run| - 1];
      TokenConservation(init, token);
      NextUnique(Replay(init).value, e);
      if e == Added(token) { assert !Outstanding(Replay(init).value, token); }
      if e == Popped(token) { assert Outstanding(Replay(init).value, token); }
    }
  }

  function Adds(run: seq<Event>): seq<nat> {
    if run == [] then [] else
    Adds(run[..|run| - 1]) + (if run[|run| - 1].Added? then [run[|run| - 1].token] else [])
  }

  function Fetches(run: seq<Event>): seq<nat> {
    if run == [] then [] else
    Fetches(run[..|run| - 1]) + (if run[|run| - 1].Fetched? then [run[|run| - 1].token] else [])
  }

  function Completions(run: seq<Event>): seq<nat> {
    if run == [] then [] else
    Completions(run[..|run| - 1]) + (if run[|run| - 1].Completed? then [run[|run| - 1].token] else [])
  }

  function Pops(run: seq<Event>): seq<nat> {
    if run == [] then [] else
    Pops(run[..|run| - 1]) + (if run[|run| - 1].Popped? then [run[|run| - 1].token] else [])
  }

  /** The device takes offers in the order they were made; none is lost or duplicated on the way. */
  lemma {:induction false} OffersInOrder(run: seq<Event>)
    requires Replay(run).Some?
    ensures Adds(run) == Fetches(run) + Replay(run).value.pending
    decreases |run|
  {
    if run != [] {
      OffersInOrder(run[..|run| - 1]);
      var s, e := Replay(run[..|run| - 1]).value, run[|run| - 1];
      if e.Fetched? { assert s.pending == [e.token] + s.pending[1..]; }
    }
  }

  /** The driver pops completions in the order the device made them. */
  lemma {:induction false} CompletionsInOrder(run: seq<Event>)
    requires Replay(run).Some?
    ensures Completions(run) == Pops(run) + Replay(run).value.done
    decreases |run|
  {
    if run != [] {
      CompletionsInOrder(run[..|run| - 1]);
      var s, e := Replay(run[..|run| - 1]).value, run[|run| - 1];
      if e.Popped? { assert s.done == [e.token] + s.done[1..]; }
    }
  }
}
