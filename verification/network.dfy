/**
  A network of join queues as an arena: each queue is a record under its
  `NodeId`, and the `sibling` and `continuation` references are ids (`None`
  for `null`). A join is a pair of sibling queues, one per input leg; each
  queue keeps a window of the tuples asserted on its own leg.
 */
module Network {
  import opened Common
  import opened Join
  import opened SlidingWindow

  /** One input leg of a join node. */
  datatype Queue<V> = Queue(matchIndices: seq<int>, outputIndices: seq<int>, window: Window<Tuple<V>>,
                            sibling: Option<NodeId>, continuation: Option<NodeId>)

  /** The queues of a network; every id at or above `next` is still free. */
  datatype Heap<V> = Heap(nodes: map<NodeId, Queue<V>>, next: NodeId)

  /** A reference that is `null` or names a queue of the heap. */
  predicate RefOk<V>(h: Heap<V>, r: Option<NodeId>)
  {
    r.None? || r.value in h.nodes
  }

  /** Every id in use is below `next`, and every reference names a queue of the heap. */
  predicate Valid<V>(h: Heap<V>)
  {
    && (forall id :: id in h.nodes ==> id < h.next)
    && (forall id :: id in h.nodes ==> RefOk(h, h.nodes[id].sibling) && RefOk(h, h.nodes[id].continuation))
  }

  /** Replacing one queue by a record whose references exist keeps the heap valid. */
  lemma ReplaceKeepsValid<V>(h: Heap<V>, id: NodeId, q: Queue<V>)
    requires Valid(h) && id in h.nodes && RefOk(h, q.sibling) && RefOk(h, q.continuation)
    ensures Valid(h.(nodes := h.nodes[id := q]))
  {
    var h' := h.(nodes := h.nodes[id := q]);
    assert h'.nodes.Keys == h.nodes.Keys;
    forall x | x in h'.nodes
      ensures RefOk(h', h'.nodes[x].sibling) && RefOk(h', h'.nodes[x].continuation)
    {
      if x != id {
        assert RefOk(h, h.nodes[x].sibling) && RefOk(h, h.nodes[x].continuation);
      }
    }
  }

  /** The heap with queue `id` replaced by `q`; every other queue stays. */
  function Replace<V>(h: Heap<V>, id: NodeId, q: Queue<V>): (h': Heap<V>)
    requires Valid(h) && id in h.nodes && RefOk(h, q.sibling) && RefOk(h, q.continuation)
    ensures Valid(h') && h'.nodes.Keys == h.nodes.Keys && h'.next == h.next
    ensures h'.nodes[id] == q
    ensures forall x :: x in h.nodes && x != id ==> h'.nodes[x] == h.nodes[x]
  {
    ReplaceKeepsValid(h, id, q);
    h.(nodes := h.nodes[id := q])
  }

  /** `id` and its sibling point at each other. */
  predicate Paired<V>(h: Heap<V>, id: NodeId)
    requires id in h.nodes
  {
    && h.nodes[id].sibling.Some?
    && h.nodes[id].sibling.value in h.nodes
    && h.nodes[h.nodes[id].sibling.value].sibling == Some(id)
  }

  /** `id` and its sibling hand their results to the same continuation. */
  predicate SharesContinuation<V>(h: Heap<V>, id: NodeId)
    requires id in h.nodes
  {
    match h.nodes[id].sibling
    case None => true
    case Some(s) => s in h.nodes && h.nodes[s].continuation == h.nodes[id].continuation
  }

  // ---------------------------------------------------------------------
  // Construction and wiring
  // ---------------------------------------------------------------------

  /**
    The first constructor: a queue with the given index arrays and an empty
    window of the given capacity and delay, with neither sibling nor
    continuation yet.
   */
  function NewQueue<V>(h: Heap<V>, matchFields: seq<int>, outputFields: seq<int>, size: int, delay: int)
    : (r: (NodeId, Heap<V>))
    requires Valid(h)
    ensures r.0 !in h.nodes && Valid(r.1)
    ensures r.1.nodes.Keys == h.nodes.Keys + {r.0}
    ensures forall x :: x in h.nodes ==> r.1.nodes[x] == h.nodes[x]
    ensures var q := r.1.nodes[r.0];
            && q.matchIndices == matchFields && q.outputIndices == outputFields
            && q.window.capacity == size && q.window.delay == delay && q.window.entries == []
            && q.sibling.None? && q.continuation.None?
  {
    var id := h.next;
    (id, Heap(h.nodes[id := Queue(matchFields, outputFields, Empty(size, delay), None, None)], h.next + 1))
  }

  /** `setSibling`: only this queue's sibling reference changes. */
  function SetSibling<V>(h: Heap<V>, id: NodeId, sibling: Option<NodeId>): (h': Heap<V>)
    requires Valid(h) && id in h.nodes && RefOk(h, sibling)
    ensures Valid(h') && h'.nodes.Keys == h.nodes.Keys && h'.next == h.next
    ensures h'.nodes[id] == h.nodes[id].(sibling := sibling)
    ensures forall x :: x in h.nodes && x != id ==> h'.nodes[x] == h.nodes[x]
  {
    Replace(h, id, h.nodes[id].(sibling := sibling))
  }

  /**
    `setContinuation`: this queue and, when there is one, its sibling both
    hand their results to `continuation`; nothing else changes.
   */
  function SetContinuation<V>(h: Heap<V>, id: NodeId, continuation: Option<NodeId>): (h': Heap<V>)
    requires Valid(h) && id in h.nodes && RefOk(h, continuation)
    ensures Valid(h') && h'.nodes.Keys == h.nodes.Keys && h'.next == h.next
    ensures h'.nodes[id].continuation == continuation
    ensures h'.nodes[id] == h.nodes[id].(continuation := continuation)
    ensures h.nodes[id].sibling.Some? ==>
              var s := h.nodes[id].sibling.value;
              h'.nodes[s] == h.nodes[s].(continuation := continuation)
    ensures forall x :: x in h.nodes && x != id && Some(x) != h.nodes[id].sibling ==> h'.nodes[x] == h.nodes[x]
    ensures SharesContinuation(h', id)
  {
    var h1 := Replace(h, id, h.nodes[id].(continuation := continuation));
    match h.nodes[id].sibling
    case None => h1
    case Some(s) => Replace(h1, s, h1.nodes[s].(continuation := continuation))
  }

  /**
    The constructor that takes a sibling: the new queue and `sib` become
    each other's siblings. Any earlier sibling of `sib` keeps its own
    reference to `sib`. A `null` sibling raises when it is told about the
    new queue, and the half-built queue is lost.
   */
  function NewQueueWithSibling<V>(h: Heap<V>, matchFields: seq<int>, outputFields: seq<int>, size: int, delay: int,
                                  sib: Option<NodeId>): (r: Result<(NodeId, Heap<V>), Fault>)
    requires Valid(h) && RefOk(h, sib)
    ensures r.Failure? <==> sib.None?
    ensures r.Failure? ==> r.error == NullReference
    ensures r.Success? ==>
              var (id, h') := r.value;
              && id !in h.nodes && Valid(h')
              && h'.nodes.Keys == h.nodes.Keys + {id}
              && Paired(h', id) && h'.nodes[id].sibling == sib
              && h'.nodes[sib.value] == h.nodes[sib.value].(sibling := Some(id))
              && (forall x :: x in h.nodes && x != sib.value ==> h'.nodes[x] == h.nodes[x])
              && var q := h'.nodes[id];
                 && q.matchIndices == matchFields && q.outputIndices == outputFields
                 && q.window == Empty(size, delay) && q.continuation.None?
  {
    match sib
    case None => Failure(NullReference)
    case Some(sb) =>
      var (id, h1) := NewQueue(h, matchFields, outputFields, size, delay);
      var h2 := SetSibling(h1, id, Some(sb));
      Success((id, SetSibling(h2, sb, Some(id))))
  }

  /**
    The constructor that takes a sibling and a sink: as with a sibling, and
    then both queues of the pair hand their results to `sink`.
   */
  function NewQueueWithSink<V>(h: Heap<V>, matchFields: seq<int>, outputFields: seq<int>, size: int, delay: int,
                               sib: Option<NodeId>, sink: Option<NodeId>): (r: Result<(NodeId, Heap<V>), Fault>)
    requires Valid(h) && RefOk(h, sib) && RefOk(h, sink)
    ensures r.Failure? <==> sib.None?
    ensures r.Failure? ==> r.error == NullReference
    ensures r.Success? ==>
              var (id, h') := r.value;
              && id !in h.nodes && Valid(h')
              && h'.nodes.Keys == h.nodes.Keys + {id}
              && Paired(h', id) && h'.nodes[id].sibling == sib
              && SharesContinuation(h', id) && SharesContinuation(h', sib.value)
              && h'.nodes[id].continuation == sink
              && h'.nodes[sib.value] == h.nodes[sib.value].(sibling := Some(id), continuation := sink)
              && (forall x :: x in h.nodes && x != sib.value ==> h'.nodes[x] == h.nodes[x])
              && var q := h'.nodes[id];
                 q.matchIndices == matchFields && q.outputIndices == outputFields && q.window == Empty(size, delay)
  {
    match NewQueueWithSibling(h, matchFields, outputFields, size, delay, sib)
    case Failure(e) => Failure(e)
    case Success((id, h1)) => Success((id, SetContinuation(h1, id, sink)))
  }

  // ---------------------------------------------------------------------
  // Firing a tuple into a queue
  // ---------------------------------------------------------------------

  /**
    The emissions of one `fire` call and how it ended: with the updated
    heap, or with an exception after the emissions made so far.
   */
  datatype FireResult<V> = FireResult(emitted: seq<Emission<V>>, outcome: Result<Heap<V>, Fault>)

  /** What queue `id` brings to a scan of its sibling `s`'s window. */
  function LegOf<V>(h: Heap<V>, id: NodeId, s: NodeId): Leg
    requires id in h.nodes && s in h.nodes
  {
    Leg(h.nodes[id].matchIndices, h.nodes[id].outputIndices, h.nodes[s].outputIndices, h.nodes[id].continuation)
  }

  /** The window `env` leaves behind: offered when asserted, its first copy removed when retracted. */
  function Store<V(==)>(w: Window<Tuple<V>>, env: Tuple<V>, isAdd: bool): (w': Window<Tuple<V>>)
    ensures w'.capacity == w.capacity && w'.delay == w.delay
    ensures isAdd ==> w'.entries == w.entries + [env]
    ensures !isAdd ==> multiset(w'.entries) == multiset(w.entries) - multiset{env}
  {
    if isAdd then Offer(w, env) else Remove(w, env)
  }

  /** The heap after queue `id` stores `env`: only that queue's window changes. */
  function StoreAt<V(==)>(h: Heap<V>, id: NodeId, env: Tuple<V>, isAdd: bool): (h': Heap<V>)
    requires Valid(h) && id in h.nodes
    ensures Valid(h') && h'.nodes.Keys == h.nodes.Keys && h'.next == h.next
    ensures forall x :: x in h.nodes && x != id ==> h'.nodes[x] == h.nodes[x]
    ensures h'.nodes[id] == h.nodes[id].(window := Store(h.nodes[id].window, env, isAdd))
  {
    Replace(h, id, h.nodes[id].(window := Store(h.nodes[id].window, env, isAdd)))
  }

  /**
    Handing emission `e` to its target: the sink `fire` calls run down the
    continuations until a terminal queue surfaces the output. `None` when
    they return normally, otherwise the exception that comes back up.
   */
  function Handoff<V>(h: Heap<V>, e: Emission<V>): (r: Option<Fault>)
    requires Valid(h) && e.target in h.nodes
    ensures r.None? <==> Deliver(h, e.target, e.output, e.isAdd, {}).Printed?
    ensures r == Some(Overflow) <==> Deliver(h, e.target, e.output, e.isAdd, {}).StackOverflow?
    ensures r.Some? ==> r == Some(NullReference) || r == Some(Overflow)
  {
    match Deliver(h, e.target, e.output, e.isAdd, {})
    case Printed(_, _, _) => None
    case DeliveryFault(f) => Some(f)
    case StackOverflow(_) => Some(Overflow)
  }

  /** Every emission names a queue of the heap. */
  predicate Targets<V>(h: Heap<V>, es: seq<Emission<V>>)
  {
    forall k :: 0 <= k < |es| ==> es[k].target in h.nodes
  }

  /** Every emission of `es` from `from` on is handed on without an exception. */
  predicate HandedOff<V>(h: Heap<V>, es: seq<Emission<V>>, from: nat)
    requires Valid(h) && Targets(h, es)
  {
    forall k :: from <= k < |es| ==> Handoff(h, es[k]).None?
  }

  /** The position of the first emission from `from` on whose hand-off raises, if there is one. */
  function FirstRaising<V>(h: Heap<V>, es: seq<Emission<V>>, from: nat): (r: Option<nat>)
    requires Valid(h) && Targets(h, es) && from <= |es|
    ensures r.None? <==> HandedOff(h, es, from)
    ensures r.Some? ==>
              && from <= r.value < |es| && Handoff(h, es[r.value]).Some?
              && forall k :: from <= k < r.value ==> Handoff(h, es[k]).None?
    decreases |es| - from
  {
    if from == |es| then None
    else if Handoff(h, es[from]).Some? then Some(from)
    else FirstRaising(h, es, from + 1)
  }

  /**
    `fire(env, isAdd, timestamp)` on queue `id`: cross-match `env` against
    the sibling's window; every match builds one output, which is handed to
    the continuation at once, and only after the whole window is scanned is
    `env` stored in this queue's own window (or removed, for a retraction).
    A `null` sibling, a `null` continuation reached by a match, a field
    index out of range, or an exception raised further down the chain of
    sink calls that an output sets off ends the call at once: the remaining
    candidates are skipped and the window stays as it was.
   */
  function Fire<V(==)>(h: Heap<V>, id: NodeId, call: Call<V>, eq: (V, V) -> bool): (r: FireResult<V>)
    requires Valid(h) && id in h.nodes
    ensures h.nodes[id].sibling.None? ==> r == FireResult([], Failure(NullReference))
    ensures r.outcome.Success? ==> r.outcome.value == StoreAt(h, id, call.env, call.isAdd)
    ensures forall k :: 0 <= k < |r.emitted| ==>
              && h.nodes[id].continuation == Some(r.emitted[k].target)
              && r.emitted[k].target in h.nodes
              && r.emitted[k].isAdd == call.isAdd
              && r.emitted[k].output.isAdd == call.isAdd
              && r.emitted[k].output.timestamp == call.timestamp
    ensures forall k :: 0 <= k < |r.emitted| - 1 ==> Handoff(h, r.emitted[k]).None?
    ensures h.nodes[id].sibling.Some? ==>
              var s := h.nodes[id].sibling.value;
              var scan := Scan(LegOf(h, id, s), call, h.nodes[s].window.entries, eq);
              && r.emitted <= scan.emitted
              && (r.outcome.Success? <==>
                    CleanFrom(LegOf(h, id, s), call, h.nodes[s].window.entries, eq, 0) && HandedOff(h, scan.emitted, 0))
              && (r.outcome.Success? ==> r.emitted == scan.emitted)
  {
    match h.nodes[id].sibling
    case None => FireResult([], Failure(NullReference))
    case Some(s) =>
      var scan := Scan(LegOf(h, id, s), call, h.nodes[s].window.entries, eq);
      ScanFaultFree(LegOf(h, id, s), call, h.nodes[s].window.entries, eq, 0);
      match FirstRaising(h, scan.emitted, 0)
      case Some(k) => FireResult(scan.emitted[..k + 1], Failure(Handoff(h, scan.emitted[k]).value))
      case None =>
        match scan.fault
        case Some(e) => FireResult(scan.emitted, Failure(e))
        case None => FireResult(scan.emitted, Success(StoreAt(h, id, call.env, call.isAdd)))
  }

  /**
    Join soundness and completeness of one `fire`: when the call raises no
    exception, the continuation receives exactly one output per entry of the
    sibling's window that agrees with `env`, in window order; the `k`-th
    output's bindings are projected from `env` and the `k`-th agreeing entry,
    and its graph is the union of theirs.
   */
  lemma FireJoinsSiblingWindow<V>(h: Heap<V>, id: NodeId, call: Call<V>, eq: (V, V) -> bool)
    requires Valid(h) && id in h.nodes && Fire(h, id, call, eq).outcome.Success?
    ensures h.nodes[id].sibling.Some?
    ensures var s := h.nodes[id].sibling.value;
            var cands := h.nodes[s].window.entries;
            var r := Fire(h, id, call, eq);
            var ps := MatchPositions(h.nodes[id].matchIndices, call.env.values, cands, eq, 0);
            && |r.emitted| == |ps|
            && forall k :: 0 <= k < |ps| ==>
                 && r.emitted[k].output.graph == MultiUnion(call.env.graph, cands[ps[k]].graph)
                 && Project(h.nodes[id].outputIndices, h.nodes[s].outputIndices, call.env.values, cands[ps[k]].values, 0)
                    == Success(r.emitted[k].output.fields)
  {
    FireSuccessIsCleanScan(h, id, call, eq);
    var s := h.nodes[id].sibling.value;
    var leg := LegOf(h, id, s);
    var cands := h.nodes[s].window.entries;
    ScanEmitsOnePerMatch(leg, call, cands, eq, 0);
    AllBuiltSpelled(leg, call, cands, Fire(h, id, call, eq).emitted,
                    MatchPositions(leg.matchIndices, call.env.values, cands, eq, 0));
  }

  /** A `fire` that returns normally had a sibling, met no exception, and emitted the whole scan. */
  lemma FireSuccessIsCleanScan<V>(h: Heap<V>, id: NodeId, call: Call<V>, eq: (V, V) -> bool)
    requires Valid(h) && id in h.nodes && Fire(h, id, call, eq).outcome.Success?
    ensures h.nodes[id].sibling.Some?
    ensures var s := h.nodes[id].sibling.value;
            var leg := LegOf(h, id, s);
            var cands := h.nodes[s].window.entries;
            && CleanFrom(leg, call, cands, eq, 0)
            && Fire(h, id, call, eq).emitted == Scan(leg, call, cands, eq).emitted
  {
  }

  /** `AllBuilt` written out field by field, for callers that name the leg's parts. */
  lemma AllBuiltSpelled<V>(leg: Leg, call: Call<V>, cands: seq<Tuple<V>>, es: seq<Emission<V>>, ps: seq<nat>)
    requires AllBuilt(leg, call, cands, es, ps)
    ensures |es| == |ps|
    ensures forall k :: 0 <= k < |ps| ==>
              && ps[k] < |cands|
              && es[k].output.graph == MultiUnion(call.env.graph, cands[ps[k]].graph)
              && Project(leg.outputIndices, leg.siblingOutputIndices, call.env.values, cands[ps[k]].values, 0)
                 == Success(es[k].output.fields)
  {
  }

  /**
    A candidate that raises an exception ends the `fire` with it, after
    exactly the emissions of the candidates before it, provided those were
    all handed on without an exception.
   */
  lemma FireStopsAtFirstFault<V>(h: Heap<V>, id: NodeId, call: Call<V>, eq: (V, V) -> bool, f: nat)
    requires Valid(h) && id in h.nodes && h.nodes[id].sibling.Some?
    requires var s := h.nodes[id].sibling.value;
             var cands := h.nodes[s].window.entries;
             && f < |cands|
             && CleanFrom(LegOf(h, id, s), call, cands[..f], eq, 0)
             && JoinOne(LegOf(h, id, s), call, cands[f], eq).Failure?
    requires var s := h.nodes[id].sibling.value;
             var es := Scan(LegOf(h, id, s), call, h.nodes[s].window.entries[..f], eq).emitted;
             forall k :: 0 <= k < |es| ==> es[k].target in h.nodes && Handoff(h, es[k]).None?
    ensures var s := h.nodes[id].sibling.value;
            var cands := h.nodes[s].window.entries;
            var r := Fire(h, id, call, eq);
            && r.outcome == Failure(JoinOne(LegOf(h, id, s), call, cands[f], eq).error)
            && r.emitted == Scan(LegOf(h, id, s), call, cands[..f], eq).emitted
  {
    var s := h.nodes[id].sibling.value;
    ScanStopsAtFirstFault(LegOf(h, id, s), call, h.nodes[s].window.entries, eq, 0, f);
  }

  /**
    An output whose hand-off raises an exception ends the `fire` with it:
    the outputs up to and including that one were emitted, no later
    candidate is visited, and the window is not updated.
   */
  lemma FireStopsAtRaisingHandoff<V>(h: Heap<V>, id: NodeId, call: Call<V>, eq: (V, V) -> bool, k: nat)
    requires Valid(h) && id in h.nodes && h.nodes[id].sibling.Some?
    requires var s := h.nodes[id].sibling.value;
             var es := Scan(LegOf(h, id, s), call, h.nodes[s].window.entries, eq).emitted;
             && k < |es| && Targets(h, es)
             && (forall j :: 0 <= j < k ==> Handoff(h, es[j]).None?)
             && Handoff(h, es[k]).Some?
    ensures var s := h.nodes[id].sibling.value;
            var es := Scan(LegOf(h, id, s), call, h.nodes[s].window.entries, eq).emitted;
            var r := Fire(h, id, call, eq);
            && r.outcome == Failure(Handoff(h, es[k]).value)
            && r.emitted == es[..k + 1]
  {
    var s := h.nodes[id].sibling.value;
    var es := Scan(LegOf(h, id, s), call, h.nodes[s].window.entries, eq).emitted;
    var first := FirstRaising(h, es, 0);
    assert !HandedOff(h, es, 0);
    assert first.Some?;
  }

  /**
    A match whose output goes to a queue that is not terminal and has a
    `null` continuation ends the `fire` with a null reference right after
    that first output, and the window is not updated.
   */
  lemma NullDownstreamEndsFire<V>(h: Heap<V>, id: NodeId, call: Call<V>, eq: (V, V) -> bool)
    requires Valid(h) && id in h.nodes && h.nodes[id].sibling.Some? && h.nodes[id].continuation.Some?
    requires h.nodes[h.nodes[id].continuation.value].continuation.None?
    requires var s := h.nodes[id].sibling.value;
             |Scan(LegOf(h, id, s), call, h.nodes[s].window.entries, eq).emitted| > 0
    ensures var s := h.nodes[id].sibling.value;
            var es := Scan(LegOf(h, id, s), call, h.nodes[s].window.entries, eq).emitted;
            var r := Fire(h, id, call, eq);
            r.outcome == Failure(NullReference) && r.emitted == es[..1]
  {
    var s := h.nodes[id].sibling.value;
    var es := Scan(LegOf(h, id, s), call, h.nodes[s].window.entries, eq).emitted;
    var e := es[0];
    assert SinkFire(h, e.target, e.output, e.isAdd) == SinkFault(NullReference);
    assert Handoff(h, e) == Some(NullReference);
    FireStopsAtRaisingHandoff(h, id, call, eq, 0);
  }

  /**
    Order-independent joining across the two legs: once `a` has been
    asserted on queue `x`, a later assertion of `b` on a queue `y` whose
    sibling is `x` ends with the emission joining `b` with `a`, provided `b`
    agrees with `a` on `y`'s match positions and that last step raises
    nothing.
   */
  lemma AssertedTupleJoinsLaterArrival<V>(h: Heap<V>, x: NodeId, a: Call<V>, y: NodeId, b: Call<V>,
                                              eq: (V, V) -> bool)
    requires Valid(h) && x in h.nodes && y in h.nodes && x != y
    requires a.isAdd && Fire(h, x, a, eq).outcome.Success?
    requires var h1 := Fire(h, x, a, eq).outcome.value;
             && h1.nodes[y].sibling == Some(x)
             && Agree(h1.nodes[y].matchIndices, b.env.values, a.env.values, eq)
             && Fire(h1, y, b, eq).outcome.Success?
    ensures var h1 := Fire(h, x, a, eq).outcome.value;
            var r := Fire(h1, y, b, eq);
            && |r.emitted| > 0
            && r.emitted[|r.emitted| - 1].output.graph == MultiUnion(b.env.graph, a.env.graph)
            && Project(h.nodes[y].outputIndices, h.nodes[x].outputIndices, b.env.values, a.env.values, 0)
               == Success(r.emitted[|r.emitted| - 1].output.fields)
  {
    var h1 := Fire(h, x, a, eq).outcome.value;
    var leg := LegOf(h1, y, x);
    var old_entries := h.nodes[x].window.entries;
    assert h1.nodes[x].window.entries == old_entries + [a.env];
    ScanAppend(leg, b, old_entries, a.env, eq, 0);
    TestMatchAccepts(leg.matchIndices, b.env.values, a.env.values, eq);
    ScanFaultFree(leg, b, old_entries + [a.env], eq, 0);
    assert JoinOne(leg, b, a.env, eq).Success?;
  }

  // ---------------------------------------------------------------------
  // The sink side: forwarding a produced tuple
  // ---------------------------------------------------------------------

  /** What one sink `fire(output, isAdd)` call on a queue does. */
  datatype SinkStep<V> =
    | Print(output: Output<V>)                               // terminal queue: the output is surfaced
    | Forward(target: NodeId, output: Output<V>, isAdd: bool) // passed on to the continuation
    | SinkFault(fault: Fault)

  /**
    The sink `fire(output, isAdd)`: a queue that is its own continuation is
    terminal and surfaces the output; any other queue forwards `output` and
    `isAdd` unchanged to its continuation, and a `null` continuation raises.
   */
  function SinkFire<V>(h: Heap<V>, id: NodeId, output: Output<V>, isAdd: bool): (r: SinkStep<V>)
    requires id in h.nodes
    ensures r.Print? <==> h.nodes[id].continuation == Some(id)
    ensures r.Print? ==> r.output == output
    ensures r.Forward? ==> Some(r.target) == h.nodes[id].continuation && r.target != id
    ensures r.Forward? ==> r.output == output && r.isAdd == isAdd
    ensures r.SinkFault? <==> h.nodes[id].continuation.None?
  {
    match h.nodes[id].continuation
    case None => SinkFault(NullReference)
    case Some(c) => if c == id then Print(output) else Forward(c, output, isAdd)
  }

  /** Where a produced tuple ends up when handed to a queue. */
  datatype Delivery<V> =
    | Printed(at: NodeId, output: Output<V>, isAdd: bool)  // surfaced by the terminal queue `at`
    | DeliveryFault(fault: Fault)
    | StackOverflow(at: NodeId)                            // the forwarding came back to `at`

  /**
    Following sink calls from `id`: the output travels along continuations
    until a terminal queue surfaces it. `visited` holds the queues already
    passed; reaching one again means the Java calls recurse without end.
   */
  function Deliver<V>(h: Heap<V>, id: NodeId, output: Output<V>, isAdd: bool, visited: set<NodeId>): (r: Delivery<V>)
    requires Valid(h) && id in h.nodes
    ensures r.Printed? ==> r.at in h.nodes && h.nodes[r.at].continuation == Some(r.at)
    ensures r.Printed? ==> r.output == output && r.isAdd == isAdd && r.at !in visited
    ensures r.DeliveryFault? ==> r.fault == NullReference
    ensures id !in visited && h.nodes[id].continuation == Some(id) ==> r == Printed(id, output, isAdd)
    decreases h.nodes.Keys - visited
  {
    if id in visited then StackOverflow(id)
    else
      match SinkFire(h, id, output, isAdd)
      case Print(o) => Printed(id, o, isAdd)
      case SinkFault(e) => DeliveryFault(e)
      case Forward(next, o, a) => Deliver(h, next, o, a, visited + {id})
  }

  /**
    `path` is a chain of sink calls: distinct queues of the heap, each one's
    continuation the next, ending at a terminal queue.
   */
  predicate ChainToTerminal<V>(h: Heap<V>, path: seq<NodeId>)
  {
    && |path| > 0
    && (forall k :: 0 <= k < |path| ==> path[k] in h.nodes)
    && (forall i, j :: 0 <= i < j < |path| ==> path[i] != path[j])
    && (forall k :: 0 <= k < |path| - 1 ==> h.nodes[path[k]].continuation == Some(path[k + 1]))
    && h.nodes[path[|path| - 1]].continuation == Some(path[|path| - 1])
  }

  /**
    An output handed to the head of a chain of non-null continuations that
    repeats no queue and ends at a terminal queue is surfaced there,
    unchanged, provided no queue of the chain was already passed.
   */
  lemma {:induction false} DeliverAlongChain<V>(h: Heap<V>, path: seq<NodeId>, output: Output<V>, isAdd: bool,
                                                visited: set<NodeId>)
    requires Valid(h) && ChainToTerminal(h, path)
    requires forall k :: 0 <= k < |path| ==> path[k] !in visited
    ensures Deliver(h, path[0], output, isAdd, visited) == Printed(path[|path| - 1], output, isAdd)
    decreases |path|
  {
    if |path| > 1 {
      var tail := path[1..];
      assert SinkFire(h, path[0], output, isAdd) == Forward(path[1], output, isAdd);
      assert ChainToTerminal(h, tail) by {
        forall k | 0 <= k < |tail| - 1
          ensures h.nodes[tail[k]].continuation == Some(tail[k + 1])
        {
          assert tail[k] == path[k + 1] && tail[k + 1] == path[k + 2];
        }
      }
      forall k | 0 <= k < |tail|
        ensures tail[k] !in visited + {path[0]}
      {
        assert tail[k] == path[k + 1];
      }
      DeliverAlongChain(h, tail, output, isAdd, visited + {path[0]});
    }
  }

  /**
    Two queues that forward to each other, neither terminal, send a tuple
    round without end.
   */
  lemma ForwardingCycleOverflows<V>(h: Heap<V>, x: NodeId, y: NodeId, output: Output<V>, isAdd: bool)
    requires Valid(h) && x in h.nodes && y in h.nodes && x != y
    requires h.nodes[x].continuation == Some(y) && h.nodes[y].continuation == Some(x)
    ensures Deliver(h, x, output, isAdd, {}) == StackOverflow(x)
  {
    assert SinkFire(h, x, output, isAdd) == Forward(y, output, isAdd);
    assert SinkFire(h, y, output, isAdd) == Forward(x, output, isAdd);
    var none: set<NodeId> := {};
    assert x !in none && none + {x} == {x};
    assert Deliver(h, x, output, isAdd, none) == Deliver(h, y, output, isAdd, {x});
    assert Deliver(h, y, output, isAdd, {x}) == Deliver(h, x, output, isAdd, {x, y});
  }

  // ---------------------------------------------------------------------
  // isActive
  // ---------------------------------------------------------------------

  /** The answer of an `isActive` call, or how it fails to give one. */
  datatype Activity = Answer(active: bool) | ActivityFault(fault: Fault) | Unanswered(at: NodeId)

  /**
    `isActive` as written: a terminal queue calls `isActive` on itself
    again, and any other queue asks its continuation. `Unanswered(at)` is a
    call chain that comes back to queue `at` and so recurses without end.
   */
  function IsActiveAsWritten<V>(h: Heap<V>, id: NodeId, visited: set<NodeId>): (r: Activity)
    requires Valid(h) && id in h.nodes
    ensures id !in visited && h.nodes[id].continuation == Some(id) ==> r == Unanswered(id)
    ensures id !in visited && h.nodes[id].continuation.None? ==> r == ActivityFault(NullReference)
    ensures r.ActivityFault? ==> r.fault == NullReference
    ensures r.Unanswered? ==> r.at in h.nodes
    decreases h.nodes.Keys - visited
  {
    if id in visited then Unanswered(id)
    else
      match h.nodes[id].continuation
      case None => ActivityFault(NullReference)
      case Some(c) =>
        if c == id then Unanswered(id)
        else IsActiveAsWritten(h, c, visited + {id})
  }

  /**
    Within a network of queues, `isActive` as written never answers: every
    chain of continuations ends at a `null`, at a queue already on the
    chain, or at a terminal queue, which calls itself forever.
   */
  lemma {:induction false} IsActiveAsWrittenNeverAnswers<V>(h: Heap<V>, id: NodeId, visited: set<NodeId>)
    requires Valid(h) && id in h.nodes
    ensures !IsActiveAsWritten(h, id, visited).Answer?
    decreases h.nodes.Keys - visited
  {
    if id !in visited {
      match h.nodes[id].continuation
      case None =>
      case Some(c) =>
        if c != id {
          IsActiveAsWrittenNeverAnswers(h, c, visited + {id});
        }
    }
  }

  /**
    `isActive` with the terminal queue as the base case: a terminal queue
    is active, and any other queue is as active as its continuation.
   */
  function IsActive<V>(h: Heap<V>, id: NodeId, visited: set<NodeId>): (r: Activity)
    requires Valid(h) && id in h.nodes
    ensures h.nodes[id].continuation == Some(id) && id !in visited ==> r == Answer(true)
    decreases h.nodes.Keys - visited
  {
    if id in visited then Unanswered(id)
    else
      match h.nodes[id].continuation
      case None => ActivityFault(NullReference)
      case Some(c) =>
        if c == id then Answer(true)
        else IsActive(h, c, visited + {id})
  }

  /**
    The corrected `isActive` answers exactly when an output handed to the
    queue would reach a terminal queue, and the answer is then `true`.
   */
  lemma {:induction false} IsActiveMatchesDelivery<V>(h: Heap<V>, id: NodeId, output: Output<V>, isAdd: bool,
                                                     visited: set<NodeId>)
    requires Valid(h) && id in h.nodes
    ensures IsActive(h, id, visited).Answer? <==> Deliver(h, id, output, isAdd, visited).Printed?
    ensures IsActive(h, id, visited).Answer? ==> IsActive(h, id, visited).active
    decreases h.nodes.Keys - visited
  {
    if id !in visited {
      match h.nodes[id].continuation
      case None =>
      case Some(c) =>
        if c != id {
          IsActiveMatchesDelivery(h, c, output, isAdd, visited + {id});
        }
    }
  }

  /**
    The smallest network that shows the difference: a single queue that is
    its own continuation. `isActive` as written calls itself on it forever;
    the corrected version answers `true`.
   */
  lemma LoneTerminalQueue<V>(q: Queue<V>)
    requires q.continuation == Some(0) && q.sibling.None?
    ensures var h := Heap(map[0 := q], 1);
            && Valid(h)
            && IsActiveAsWritten(h, 0, {}) == Unanswered(0)
            && IsActive(h, 0, {}) == Answer(true)
  {
    var h := Heap(map[0 := q], 1);
    assert Valid(h);
  }
}
