/**
  Copying a join network into a fresh context. Cloning starts at one queue
  and follows siblings and continuations; a memo from original to clone
  makes every queue cloned once, so shared queues stay shared and cycles
  (a queue is its sibling's sibling) close up. The original network is only
  read; the clones live in their own heap.
 */
module Cloning {
  import opened Common
  import opened SlidingWindow
  import opened Join
  import opened Network

  /** The clones made so far and the memo from original queue to its clone. */
  datatype CloneState<V> = CloneState(out: Heap<V>, memo: map<NodeId, NodeId>)

  /** Every memo entry names a clone that exists. */
  predicate WellFormed<V>(st: CloneState<V>)
  {
    && Valid(st.out)
    && forall x :: x in st.memo ==> st.memo[x] in st.out.nodes
  }

  /**
    What cloning never changes in a clone that already exists: its index
    arrays, its window and its sibling. Only a continuation can be rebound.
   */
  ghost predicate Settled<V>(q: Queue<V>, q': Queue<V>)
  {
    && q'.matchIndices == q.matchIndices
    && q'.outputIndices == q.outputIndices
    && q'.window == q.window
    && q'.sibling == q.sibling
  }

  /** `st'` keeps every memo entry and every clone of `st`, each clone settled. */
  ghost predicate Extends<V>(st: CloneState<V>, st': CloneState<V>)
  {
    && (forall x :: x in st.memo ==> x in st'.memo && st'.memo[x] == st.memo[x])
    && (forall n :: n in st.out.nodes ==> n in st'.out.nodes && Settled(st.out.nodes[n], st'.out.nodes[n]))
  }

  lemma ExtendsTrans<V>(a: CloneState<V>, b: CloneState<V>, c: CloneState<V>)
    requires Extends(a, b) && Extends(b, c)
    ensures Extends(a, c)
  {
  }

  /** `st'` keeps every memo entry and every clone of `st` except `c`, each of those settled. */
  ghost predicate ExtendsBeside<V>(st: CloneState<V>, st': CloneState<V>, c: NodeId)
  {
    && (forall x :: x in st.memo ==> x in st'.memo && st'.memo[x] == st.memo[x])
    && st.out.nodes.Keys <= st'.out.nodes.Keys
    && (forall n :: n in st.out.nodes && n != c ==> Settled(st.out.nodes[n], st'.out.nodes[n]))
  }

  /** A step that only touches the clone `c`, which `st` does not hold, keeps `st` extended. */
  lemma ExtendsExcept<V>(st: CloneState<V>, mid: CloneState<V>, st': CloneState<V>, c: NodeId)
    requires Extends(st, mid) && c !in st.out.nodes && ExtendsBeside(mid, st', c)
    ensures Extends(st, st')
  {
  }

  /**
    Opening a frame: a new queue with the original's index arrays, capacity
    and delay and an empty window, entered in the memo at once.
   */
  function Open<V>(h: Heap<V>, id: NodeId, st: CloneState<V>): (r: (NodeId, CloneState<V>))
    requires Valid(h) && id in h.nodes && WellFormed(st) && id !in st.memo
    ensures WellFormed(r.1) && Extends(st, r.1)
    ensures r.0 !in st.out.nodes && r.1.memo == st.memo[id := r.0] && r.1.out.nodes.Keys == st.out.nodes.Keys + {r.0}
    ensures var q := h.nodes[id];
            r.1.out.nodes[r.0] == Queue(q.matchIndices, q.outputIndices, Empty(q.window.capacity, q.window.delay), None, None)
  {
    var q := h.nodes[id];
    var (c, out1) := NewQueue(st.out, q.matchIndices, q.outputIndices, q.window.capacity, q.window.delay);
    (c, CloneState(out1, st.memo[id := c]))
  }

  /** `clone.setSibling(...)`: only the fresh clone `c` changes. */
  function BindSibling<V>(st: CloneState<V>, c: NodeId, s': NodeId): (r: CloneState<V>)
    requires WellFormed(st) && c in st.out.nodes && s' in st.out.nodes
    ensures WellFormed(r) && r.memo == st.memo && r.out.nodes.Keys == st.out.nodes.Keys
    ensures forall n :: n in st.out.nodes && n != c ==> r.out.nodes[n] == st.out.nodes[n]
    ensures r.out.nodes[c] == st.out.nodes[c].(sibling := Some(s'))
  {
    st.(out := SetSibling(st.out, c, Some(s')))
  }

  /**
    Closing a frame: `clone.setContinuation(...)`, which also rebinds the
    continuation of the clone's sibling, then the original's window entries
    appended to the clone's window.
   */
  function Close<V>(st: CloneState<V>, c: NodeId, k': NodeId, entries: seq<Tuple<V>>): (r: CloneState<V>)
    requires WellFormed(st) && c in st.out.nodes && k' in st.out.nodes
    ensures WellFormed(r) && r.memo == st.memo && r.out.nodes.Keys == st.out.nodes.Keys
    ensures forall n :: n in st.out.nodes && n != c ==> Settled(st.out.nodes[n], r.out.nodes[n])
    ensures forall n :: n in st.out.nodes && n != c && Some(n) != st.out.nodes[c].sibling ==> r.out.nodes[n] == st.out.nodes[n]
    ensures st.out.nodes[c].sibling.Some? && st.out.nodes[c].sibling.value != c ==>
              var s := st.out.nodes[c].sibling.value;
              r.out.nodes[s] == st.out.nodes[s].(continuation := Some(k'))
    ensures r.out.nodes[c]
            == st.out.nodes[c].(continuation := Some(k'), window := AddAll(st.out.nodes[c].window, entries))
  {
    var out5 := SetContinuation(st.out, c, Some(k'));
    st.(out := Replace(out5, c, out5.nodes[c].(window := AddAll(out5.nodes[c].window, entries))))
  }

  /**
    `clone(netCopy, context)` on queue `id`. A queue already in the memo
    returns its clone and changes nothing. Otherwise a new queue with the
    same index arrays, capacity and delay and an empty window is made and
    entered in the memo before anything else; then the sibling is cloned
    and bound, and `FinishFrame` does the rest. A `null` sibling raises.
   */
  function Clone<V>(h: Heap<V>, id: NodeId, st: CloneState<V>): (r: Result<(NodeId, CloneState<V>), Fault>)
    requires Valid(h) && id in h.nodes && WellFormed(st)
    ensures id in st.memo ==> r == Success((st.memo[id], st))
    ensures id !in st.memo && h.nodes[id].sibling.None? ==> r == Failure(NullReference)
    ensures r.Failure? ==> r.error == NullReference
    ensures r.Success? ==>
              && WellFormed(r.value.1) && Extends(st, r.value.1)
              && id in r.value.1.memo && r.value.1.memo[id] == r.value.0
    ensures r.Success? && id !in st.memo ==>
              var n := r.value.1.out.nodes[r.value.0];
              var q := h.nodes[id];
              && r.value.0 !in st.out.nodes
              && n.matchIndices == q.matchIndices && n.outputIndices == q.outputIndices
              && n.window.capacity == q.window.capacity && n.window.delay == q.window.delay
              && n.window.entries == q.window.entries
    decreases h.nodes.Keys - st.memo.Keys, 0
  {
    if id in st.memo then Success((st.memo[id], st))
    else
      var q := h.nodes[id];
      var (c, st1) := Open(h, id, st);
      assert st1.memo.Keys == st.memo.Keys + {id};
      match q.sibling
      case None => Failure(NullReference)
      case Some(s) =>
        match Clone(h, s, st1)
        case Failure(e) => Failure(e)
        case Success((s', st2)) =>
          ExtendsTrans(st, st1, st2);
          match FinishFrame(h, id, c, s', st2)
          case Failure(e) => Failure(e)
          case Success(st6) =>
            ExtendsExcept(st, st2, st6, c);
            Success((c, st6))
  }

  /**
    The rest of the frame of `id`, whose clone is `c` and whose sibling's
    clone is `s'`: bind the sibling, clone the continuation and bind it
    (which rebinds the clone's sibling's continuation too), and last copy
    the original's window entries in. A `null` continuation raises.
   */
  function FinishFrame<V>(h: Heap<V>, id: NodeId, c: NodeId, s': NodeId, st2: CloneState<V>): (r: Result<CloneState<V>, Fault>)
    requires Valid(h) && id in h.nodes && WellFormed(st2)
    requires id in st2.memo && st2.memo[id] == c && s' in st2.out.nodes
    ensures h.nodes[id].continuation.None? ==> r == Failure(NullReference)
    ensures r.Failure? ==> r.error == NullReference
    ensures r.Success? ==> WellFormed(r.value) && ExtendsBeside(st2, r.value, c) && r.value.memo[id] == c
    ensures r.Success? ==>
              var n := r.value.out.nodes[c];
              var n2 := st2.out.nodes[c];
              && n.matchIndices == n2.matchIndices && n.outputIndices == n2.outputIndices
              && n.window == AddAll(n2.window, h.nodes[id].window.entries)
              && n.sibling == Some(s')
    decreases h.nodes.Keys - st2.memo.Keys, 1
  {
    var st3 := BindSibling(st2, c, s');
    match h.nodes[id].continuation
    case None => Failure(NullReference)
    case Some(k) =>
      match Clone(h, k, st3)
      case Failure(e) => Failure(e)
      case Success((k', st4)) =>
        var st5 := Close(st4, c, k', h.nodes[id].window.entries);
        assert ExtendsBeside(st2, st3, c);
        assert ExtendsBeside(st4, st5, c);
        assert Settled(st3.out.nodes[c], st4.out.nodes[c]);
        ExtendsBesideChain(st2, st3, st4, st5, c);
        Success(st5)
  }

  /** The three steps of a frame's tail add up to one step that touches only `c`. */
  lemma ExtendsBesideChain<V>(st2: CloneState<V>, st3: CloneState<V>, st4: CloneState<V>, st5: CloneState<V>, c: NodeId)
    requires ExtendsBeside(st2, st3, c) && Extends(st3, st4) && ExtendsBeside(st4, st5, c)
    ensures ExtendsBeside(st2, st5, c)
  {
  }

  // ---------------------------------------------------------------------
  // The clone is a copy of the network
  // ---------------------------------------------------------------------

  /** Every queue's sibling exists and hands its results to the same continuation. */
  predicate AllShareContinuations<V>(h: Heap<V>)
  {
    forall x :: x in h.nodes ==> SharesContinuation(h, x)
  }

  /** No two originals share a clone. */
  predicate Injective(memo: map<NodeId, NodeId>)
  {
    forall x, y :: x in memo && y in memo && x != y ==> memo[x] != memo[y]
  }

  /** Reference `r'` of a clone is the clone of the original's reference `r`. */
  predicate MapsTo(memo: map<NodeId, NodeId>, r: Option<NodeId>, r': Option<NodeId>)
  {
    r.Some? && r.value in memo && r' == Some(memo[r.value])
  }

  /**
    The clone of `x` copies `x`. While `x` is still being cloned (it is on
    the `stack`) its window is empty and its references are unset or
    already right; once finished, its window holds `x`'s entries and its
    sibling and continuation are the clones of `x`'s.
   */
  ghost predicate Copies<V>(h: Heap<V>, st: CloneState<V>, stack: set<NodeId>, x: NodeId)
    requires x in h.nodes && x in st.memo && st.memo[x] in st.out.nodes
  {
    var n := st.out.nodes[st.memo[x]];
    var q := h.nodes[x];
    && n.matchIndices == q.matchIndices && n.outputIndices == q.outputIndices
    && n.window.capacity == q.window.capacity && n.window.delay == q.window.delay
    && n.window.entries == (if x in stack then [] else q.window.entries)
    && (n.sibling.None? ==> x in stack)
    && (n.sibling.Some? ==> MapsTo(st.memo, q.sibling, n.sibling))
    && (n.continuation.None? ==> x in stack)
    && (n.continuation.Some? ==> MapsTo(st.memo, q.continuation, n.continuation))
  }

  /** The invariant of a cloning run whose unfinished frames are `stack`. */
  ghost predicate CloneInv<V>(h: Heap<V>, st: CloneState<V>, stack: set<NodeId>)
  {
    && WellFormed(st)
    && stack <= st.memo.Keys
    && st.memo.Keys <= h.nodes.Keys
    && Injective(st.memo)
    && forall x :: x in st.memo ==> Copies(h, st, stack, x)
  }

  /** Opening the frame of `id` puts it on the stack and keeps the invariant. */
  lemma OpenKeepsInv<V>(h: Heap<V>, id: NodeId, st: CloneState<V>, stack: set<NodeId>)
    requires Valid(h) && id in h.nodes && id !in st.memo && CloneInv(h, st, stack)
    ensures CloneInv(h, Open(h, id, st).1, stack + {id})
  {
    var (c, st1) := Open(h, id, st);
    forall x | x in st1.memo
      ensures Copies(h, st1, stack + {id}, x)
    {
      if x != id {
        assert Copies(h, st, stack, x);
        var n := st.out.nodes[st.memo[x]];
        if n.sibling.Some? {
          assert MapsTo(st.memo, h.nodes[x].sibling, n.sibling);
        }
        if n.continuation.Some? {
          assert MapsTo(st.memo, h.nodes[x].continuation, n.continuation);
        }
      }
    }
  }

  /** Binding the clone of `id` to the clone of its sibling keeps the invariant. */
  lemma BindSiblingKeepsInv<V>(h: Heap<V>, id: NodeId, st: CloneState<V>, stack: set<NodeId>)
    requires Valid(h) && id in h.nodes && CloneInv(h, st, stack) && id in stack
    requires h.nodes[id].sibling.Some? && h.nodes[id].sibling.value in st.memo
    ensures CloneInv(h, BindSibling(st, st.memo[id], st.memo[h.nodes[id].sibling.value]), stack)
  {
    var c := st.memo[id];
    var st3 := BindSibling(st, c, st.memo[h.nodes[id].sibling.value]);
    forall x | x in st3.memo
      ensures Copies(h, st3, stack, x)
    {
      assert Copies(h, st, stack, x);
      if x != id {
        assert st.memo[x] != c;
      }
    }
  }

  /**
    Closing the frame of `id` takes it off the stack and keeps the
    invariant. The continuation it binds also rebinds the continuation of
    its sibling's clone, which stays right because the sibling's original
    hands its results to the same continuation.
   */
  lemma CloseKeepsInv<V>(h: Heap<V>, id: NodeId, st: CloneState<V>, stack: set<NodeId>)
    requires Valid(h) && AllShareContinuations(h) && id in h.nodes && id !in stack
    requires CloneInv(h, st, stack + {id}) && id in st.memo
    requires h.nodes[id].continuation.Some? && h.nodes[id].continuation.value in st.memo
    requires st.out.nodes[st.memo[id]].sibling.Some?
    ensures CloneInv(h, Close(st, st.memo[id], st.memo[h.nodes[id].continuation.value], h.nodes[id].window.entries), stack)
  {
    var c := st.memo[id];
    var k' := st.memo[h.nodes[id].continuation.value];
    var st6 := Close(st, c, k', h.nodes[id].window.entries);
    assert Copies(h, st, stack + {id}, id);
    forall x | x in st6.memo
      ensures Copies(h, st6, stack, x)
    {
      assert Copies(h, st, stack + {id}, x);
      var m := st.memo[x];
      if x != id && Some(m) == st.out.nodes[c].sibling {
        assert MapsTo(st.memo, h.nodes[id].sibling, Some(m));
        assert h.nodes[id].sibling == Some(x);
        assert SharesContinuation(h, id);
      }
    }
  }

  /**
    One cloning call keeps the invariant: when it returns, its own frame is
    finished and every clone made so far still copies its original.
   */
  lemma {:induction false} CloneKeepsInv<V>(h: Heap<V>, id: NodeId, st: CloneState<V>, stack: set<NodeId>)
    requires Valid(h) && AllShareContinuations(h) && id in h.nodes && CloneInv(h, st, stack)
    ensures Clone(h, id, st).Success? ==> CloneInv(h, Clone(h, id, st).value.1, stack)
    decreases h.nodes.Keys - st.memo.Keys
  {
    if id !in st.memo && Clone(h, id, st).Success? {
      var q := h.nodes[id];
      var (c, st1) := Open(h, id, st);
      OpenKeepsInv(h, id, st, stack);
      assert q.sibling.Some? && Clone(h, q.sibling.value, st1).Success?;
      var s := q.sibling.value;
      var (s', st2) := Clone(h, s, st1).value;
      CloneKeepsInv(h, s, st1, stack + {id});
      BindSiblingKeepsInv(h, id, st2, stack + {id});
      var st3 := BindSibling(st2, c, s');
      assert FinishFrame(h, id, c, s', st2).Success?;
      assert q.continuation.Some? && Clone(h, q.continuation.value, st3).Success?;
      var k := q.continuation.value;
      var (k', st4) := Clone(h, k, st3).value;
      CloneKeepsInv(h, k, st3, stack + {id});
      assert st4.out.nodes[c].sibling == Some(s');
      CloseKeepsInv(h, id, st4, stack);
    }
  }

  /** Cloning a network from scratch: a fresh heap and an empty memo. */
  function CloneNetwork<V>(h: Heap<V>, id: NodeId): (r: Result<(NodeId, CloneState<V>), Fault>)
    requires Valid(h) && id in h.nodes
    ensures r.Success? ==> id in r.value.1.memo && r.value.1.memo[id] == r.value.0 && r.value.0 in r.value.1.out.nodes
  {
    Clone(h, id, CloneState(Heap(map[], 0), map[]))
  }

  /**
    Every original in the memo has a clone that is an exact copy: the same
    index arrays and window, and as sibling and continuation the clones of
    the original's sibling and continuation.
   */
  ghost predicate ExactCopy<V>(h: Heap<V>, st: CloneState<V>)
  {
    forall x :: x in st.memo ==>
      && x in h.nodes && st.memo[x] in st.out.nodes
      && var n := st.out.nodes[st.memo[x]];
         var q := h.nodes[x];
         && n.matchIndices == q.matchIndices && n.outputIndices == q.outputIndices
         && n.window == q.window
         && MapsTo(st.memo, q.sibling, n.sibling)
         && MapsTo(st.memo, q.continuation, n.continuation)
  }

  /**
    The clone of a network whose paired queues share their continuation is
    a copy of the part reachable from `id`: every cloned original has one
    clone of its own that copies it exactly, and the sibling and
    continuation of every clone are clones.
   */
  lemma CloneIsCopy<V>(h: Heap<V>, id: NodeId)
    requires Valid(h) && AllShareContinuations(h) && id in h.nodes
    requires CloneNetwork(h, id).Success?
    ensures var st := CloneNetwork(h, id).value.1;
            id in st.memo && Injective(st.memo) && ExactCopy(h, st)
  {
    var st0: CloneState<V> := CloneState(Heap(map[], 0), map[]);
    assert CloneInv(h, st0, {});
    CloneKeepsInv(h, id, st0, {});
    FinishedRunIsCopy(h, CloneNetwork(h, id).value.1);
  }

  /** With no frame left open, the invariant says each clone is an exact copy. */
  lemma FinishedRunIsCopy<V>(h: Heap<V>, st: CloneState<V>)
    requires CloneInv(h, st, {})
    ensures ExactCopy(h, st)
  {
    forall x | x in st.memo
      ensures x in h.nodes && st.memo[x] in st.out.nodes
      ensures var n := st.out.nodes[st.memo[x]];
              var q := h.nodes[x];
              && n.matchIndices == q.matchIndices && n.outputIndices == q.outputIndices
              && n.window == q.window
              && MapsTo(st.memo, q.sibling, n.sibling)
              && MapsTo(st.memo, q.continuation, n.continuation)
    {
      assert Copies(h, st, {}, x);
    }
  }
}
