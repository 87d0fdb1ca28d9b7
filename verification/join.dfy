/**
  The cross-matching step of one join queue. An incoming tuple is tested
  against each candidate of the sibling queue's window, in window order;
  every candidate that matches yields one output tuple, which is handed to
  the continuation at once.

  Field values are opaque: `sameValueAs` is the parameter `eq`, about which
  nothing is assumed. A provenance graph is either a base graph or the
  `MultiUnion` of two graphs, with no further structure.
 */
module Join {
  import opened Common

  /** Identity of a join queue in the network. */
  type NodeId = nat

  /** A provenance graph: a base graph or a union of two graphs, in the order they were added. */
  datatype Graph = Base(id: nat) | MultiUnion(first: Graph, second: Graph)

  /** An incoming tuple: its variable bindings and its `graph` field. */
  datatype Tuple<V> = Tuple(values: seq<V>, graph: Graph)

  /** An output tuple: the projected bindings, then the trailer isAdd, graph, timestamp. */
  datatype Output<V> = Output(fields: seq<V>, isAdd: bool, graph: Graph, timestamp: int)

  /** One call `continuation.fire(output, isAdd)`. */
  datatype Emission<V> = Emission(target: NodeId, output: Output<V>, isAdd: bool)

  /**
    What a firing queue brings to the scan: its own index arrays, the output
    indices of its sibling, and its continuation (`None` when `null`).
   */
  datatype Leg = Leg(matchIndices: seq<int>, outputIndices: seq<int>, siblingOutputIndices: seq<int>,
                     continuation: Option<NodeId>)

  /** The arguments of `fire(env, isAdd, timestamp)`. */
  datatype Call<V> = Call(env: Tuple<V>, isAdd: bool, timestamp: int)

  // ---------------------------------------------------------------------
  // Match test
  // ---------------------------------------------------------------------

  /**
    Position `j` of the match test passes: it is unconstrained (negative
    index), or incoming field `j` and candidate field `mi[j]` both exist and
    have the same value.
   */
  predicate PassesAt<V>(mi: seq<int>, env: seq<V>, cand: seq<V>, eq: (V, V) -> bool, j: nat)
    requires j < |mi|
  {
    mi[j] < 0 || (j < |env| && mi[j] < |cand| && eq(env[j], cand[mi[j]]))
  }

  /** Position `j` is constrained and both fields exist, but their values differ. */
  predicate FailsAt<V>(mi: seq<int>, env: seq<V>, cand: seq<V>, eq: (V, V) -> bool, j: nat)
    requires j < |mi|
  {
    mi[j] >= 0 && j < |env| && mi[j] < |cand| && !eq(env[j], cand[mi[j]])
  }

  /** Position `j` is constrained but one of the two fields does not exist. */
  predicate OutOfRangeAt<V>(mi: seq<int>, env: seq<V>, cand: seq<V>, j: nat)
    requires j < |mi|
  {
    mi[j] >= 0 && (j >= |env| || mi[j] >= |cand|)
  }

  /** Every position in `[from, to)` passes. */
  predicate PassesBetween<V>(mi: seq<int>, env: seq<V>, cand: seq<V>, eq: (V, V) -> bool, from: nat, to: nat)
    requires to <= |mi|
  {
    forall j :: from <= j < to ==> PassesAt(mi, env, cand, eq, j)
  }

  /**
    The candidate matches the incoming tuple: for every `j` with
    `mi[j] >= 0`, incoming field `j` has the same value as candidate field
    `mi[j]`.
   */
  predicate Agree<V>(mi: seq<int>, env: seq<V>, cand: seq<V>, eq: (V, V) -> bool)
  {
    forall j :: 0 <= j < |mi| && mi[j] >= 0 ==> j < |env| && mi[j] < |cand| && eq(env[j], cand[mi[j]])
  }

  /**
    The inner loop over the match indices from position `j` on, with its
    `break` at the first mismatch. Reading a field that does not exist
    raises an index exception.

    The result is `true` exactly when every position passes, `false` exactly
    when a mismatch comes before any missing field, and an exception exactly
    when a missing field comes before any mismatch.
   */
  function TestMatch<V>(mi: seq<int>, env: seq<V>, cand: seq<V>, eq: (V, V) -> bool, j: nat): (r: Result<bool, Fault>)
    requires j <= |mi|
    ensures r.Failure? ==> r.error == IndexOutOfBounds
    ensures r == Success(true) <==> PassesBetween(mi, env, cand, eq, j, |mi|)
    ensures r == Success(false) <==>
              exists k :: j <= k < |mi| && FailsAt(mi, env, cand, eq, k) && PassesBetween(mi, env, cand, eq, j, k)
    ensures r.Failure? <==>
              exists k :: j <= k < |mi| && OutOfRangeAt(mi, env, cand, k) && PassesBetween(mi, env, cand, eq, j, k)
    decreases |mi| - j
  {
    if j == |mi| then Success(true)
    else if mi[j] < 0 then
      var r := TestMatch(mi, env, cand, eq, j + 1);
      PassesShift(mi, env, cand, eq, j);
      r
    else if j >= |env| || mi[j] >= |cand| then
      assert OutOfRangeAt(mi, env, cand, j) && PassesBetween(mi, env, cand, eq, j, j);
      BlockedAt(mi, env, cand, eq, j);
      Failure(IndexOutOfBounds)
    else if !eq(env[j], cand[mi[j]]) then
      assert FailsAt(mi, env, cand, eq, j) && PassesBetween(mi, env, cand, eq, j, j);
      BlockedAt(mi, env, cand, eq, j);
      Success(false)
    else
      var r := TestMatch(mi, env, cand, eq, j + 1);
      PassesShift(mi, env, cand, eq, j);
      r
  }

  /** When position `j` passes, the prefixes starting at `j` and at `j + 1` pass alike. */
  lemma PassesShift<V>(mi: seq<int>, env: seq<V>, cand: seq<V>, eq: (V, V) -> bool, j: nat)
    requires j < |mi| && PassesAt(mi, env, cand, eq, j)
    ensures forall k :: j < k <= |mi| ==>
              (PassesBetween(mi, env, cand, eq, j, k) <==> PassesBetween(mi, env, cand, eq, j + 1, k))
    ensures !FailsAt(mi, env, cand, eq, j) && !OutOfRangeAt(mi, env, cand, j)
  {
  }

  /** A position that does not pass blocks every longer run of passing positions starting at or before it. */
  lemma BlockedAt<V>(mi: seq<int>, env: seq<V>, cand: seq<V>, eq: (V, V) -> bool, j: nat)
    requires j < |mi| && !PassesAt(mi, env, cand, eq, j)
    ensures forall k :: j < k <= |mi| ==> !PassesBetween(mi, env, cand, eq, j, k)
  {
  }

  /** The match test accepts a candidate exactly when it agrees with the incoming tuple. */
  lemma TestMatchAccepts<V>(mi: seq<int>, env: seq<V>, cand: seq<V>, eq: (V, V) -> bool)
    ensures TestMatch(mi, env, cand, eq, 0) == Success(true) <==> Agree(mi, env, cand, eq)
  {
    if Agree(mi, env, cand, eq) {
      forall j | 0 <= j < |mi|
        ensures PassesAt(mi, env, cand, eq, j)
      {
      }
    }
    if PassesBetween(mi, env, cand, eq, 0, |mi|) {
      forall j | 0 <= j < |mi| && mi[j] >= 0
        ensures j < |env| && mi[j] < |cand| && eq(env[j], cand[mi[j]])
      {
        assert PassesAt(mi, env, cand, eq, j);
      }
    }
  }

  // ---------------------------------------------------------------------
  // Output projection
  // ---------------------------------------------------------------------

  /**
    Output field `j` can be read: from the incoming tuple when
    `oi[j] >= 0`, otherwise from the candidate through the sibling's output
    index `sibOi[j]`.
   */
  predicate FieldReadable<V>(oi: seq<int>, sibOi: seq<int>, env: seq<V>, cand: seq<V>, j: nat)
    requires j < |oi|
  {
    if oi[j] >= 0 then oi[j] < |env| else j < |sibOi| && 0 <= sibOi[j] < |cand|
  }

  /** Every output field from `from` on can be read. */
  predicate Projectable<V>(oi: seq<int>, sibOi: seq<int>, env: seq<V>, cand: seq<V>, from: nat)
  {
    forall j :: from <= j < |oi| ==> FieldReadable(oi, sibOi, env, cand, j)
  }

  /**
    The loop that builds the output bindings from position `from` on: field
    `j` is `env[oi[j]]` when `oi[j] >= 0`, and `cand[sibOi[j]]` otherwise.
   */
  function Project<V>(oi: seq<int>, sibOi: seq<int>, env: seq<V>, cand: seq<V>, from: nat): (r: Result<seq<V>, Fault>)
    requires from <= |oi|
    ensures r.Failure? ==> r.error == IndexOutOfBounds
    ensures r.Success? <==> Projectable(oi, sibOi, env, cand, from)
    ensures r.Success? ==> |r.value| == |oi| - from
    ensures r.Success? ==>
              forall j :: from <= j < |oi| ==>
                && (oi[j] >= 0 ==> oi[j] < |env| && r.value[j - from] == env[oi[j]])
                && (oi[j] < 0 ==> j < |sibOi| && 0 <= sibOi[j] < |cand| && r.value[j - from] == cand[sibOi[j]])
    decreases |oi| - from
  {
    if from == |oi| then Success([])
    else if !FieldReadable(oi, sibOi, env, cand, from) then Failure(IndexOutOfBounds)
    else
      var v := if oi[from] >= 0 then env[oi[from]] else cand[sibOi[from]];
      match Project(oi, sibOi, env, cand, from + 1)
      case Failure(e) => Failure(e)
      case Success(rest) => Success([v] + rest)
  }

  // ---------------------------------------------------------------------
  // One candidate, and the scan of the sibling's window
  // ---------------------------------------------------------------------

  /**
    One iteration of the candidate loop. `Success(None)`: no match, nothing
    emitted. `Success(Some(e))`: the emission `e` was made. `Failure`: an
    exception ended the call.
   */
  function JoinOne<V>(leg: Leg, call: Call<V>, cand: Tuple<V>, eq: (V, V) -> bool): (r: Result<Option<Emission<V>>, Fault>)
    ensures r == Success(None) <==> TestMatch(leg.matchIndices, call.env.values, cand.values, eq, 0) == Success(false)
    ensures r.Success? && r.value.Some? ==>
              && Agree(leg.matchIndices, call.env.values, cand.values, eq)
              && Projectable(leg.outputIndices, leg.siblingOutputIndices, call.env.values, cand.values, 0)
              && leg.continuation == Some(r.value.value.target)
              && r.value.value.isAdd == call.isAdd
              && r.value.value.output.isAdd == call.isAdd
              && r.value.value.output.timestamp == call.timestamp
              && r.value.value.output.graph == MultiUnion(call.env.graph, cand.graph)
              && r.value.value.output.fields
                 == Project(leg.outputIndices, leg.siblingOutputIndices, call.env.values, cand.values, 0).value
  {
    TestMatchAccepts(leg.matchIndices, call.env.values, cand.values, eq);
    match TestMatch(leg.matchIndices, call.env.values, cand.values, eq, 0)
    case Failure(e) => Failure(e)
    case Success(ok) =>
      if !ok then Success(None)
      else
        match Project(leg.outputIndices, leg.siblingOutputIndices, call.env.values, cand.values, 0)
        case Failure(e) => Failure(e)
        case Success(fields) =>
          match leg.continuation
          case None => Failure(NullReference)
          case Some(target) =>
            var output := Output(fields, call.isAdd, MultiUnion(call.env.graph, cand.graph), call.timestamp);
            Success(Some(Emission(target, output, call.isAdd)))
  }

  /** The emissions of a scan, and the exception that cut it short, if any. */
  datatype ScanResult<V> = ScanResult(emitted: seq<Emission<V>>, fault: Option<Fault>)

  /**
    The candidate loop over `cands[from..]`: the candidates are visited in
    order, each contributes its emission if it has one, and the first
    exception ends the loop with the emissions made so far.
   */
  function ScanFrom<V>(leg: Leg, call: Call<V>, cands: seq<Tuple<V>>, eq: (V, V) -> bool, from: nat): (r: ScanResult<V>)
    requires from <= |cands|
    ensures |r.emitted| <= |cands| - from
    ensures forall k :: 0 <= k < |r.emitted| ==>
              && leg.continuation == Some(r.emitted[k].target)
              && r.emitted[k].isAdd == call.isAdd
              && r.emitted[k].output.isAdd == call.isAdd
              && r.emitted[k].output.timestamp == call.timestamp
    decreases |cands| - from
  {
    if from == |cands| then ScanResult([], None)
    else
      match JoinOne(leg, call, cands[from], eq)
      case Failure(e) => ScanResult([], Some(e))
      case Success(None) => ScanFrom(leg, call, cands, eq, from + 1)
      case Success(Some(em)) =>
        var rest := ScanFrom(leg, call, cands, eq, from + 1);
        ScanResult([em] + rest.emitted, rest.fault)
  }

  /** The whole candidate loop over the sibling's window. */
  function Scan<V>(leg: Leg, call: Call<V>, cands: seq<Tuple<V>>, eq: (V, V) -> bool): ScanResult<V>
  {
    ScanFrom(leg, call, cands, eq, 0)
  }

  /** No candidate from `from` on raises an exception. */
  predicate CleanFrom<V>(leg: Leg, call: Call<V>, cands: seq<Tuple<V>>, eq: (V, V) -> bool, from: nat)
  {
    forall i :: from <= i < |cands| ==> JoinOne(leg, call, cands[i], eq).Success?
  }

  /**
    Positions `from..` of `cands` whose candidate agrees with the incoming
    bindings, in ascending order.
   */
  function MatchPositions<V>(mi: seq<int>, env: seq<V>, cands: seq<Tuple<V>>, eq: (V, V) -> bool, from: nat): (ps: seq<nat>)
    requires from <= |cands|
    ensures forall k :: 0 <= k < |ps| ==> from <= ps[k] < |cands| && Agree(mi, env, cands[ps[k]].values, eq)
    ensures forall k, l :: 0 <= k < l < |ps| ==> ps[k] < ps[l]
    ensures forall i :: from <= i < |cands| && Agree(mi, env, cands[i].values, eq) ==> i in ps
    decreases |cands| - from
  {
    if from == |cands| then []
    else if Agree(mi, env, cands[from].values, eq) then [from] + MatchPositions(mi, env, cands, eq, from + 1)
    else MatchPositions(mi, env, cands, eq, from + 1)
  }

  /** `e` is the output built from the incoming tuple and candidate `c`. */
  ghost predicate BuiltFrom<V>(leg: Leg, call: Call<V>, c: Tuple<V>, e: Emission<V>)
  {
    && e.output.graph == MultiUnion(call.env.graph, c.graph)
    && Project(leg.outputIndices, leg.siblingOutputIndices, call.env.values, c.values, 0) == Success(e.output.fields)
  }

  /** An agreeing candidate without exception contributes its emission in front of the rest of the scan. */
  lemma ScanStepMatch<V>(leg: Leg, call: Call<V>, cands: seq<Tuple<V>>, eq: (V, V) -> bool, from: nat)
    requires from < |cands| && JoinOne(leg, call, cands[from], eq).Success?
    requires Agree(leg.matchIndices, call.env.values, cands[from].values, eq)
    ensures JoinOne(leg, call, cands[from], eq).value.Some?
    ensures var em := JoinOne(leg, call, cands[from], eq).value.value;
            && BuiltFrom(leg, call, cands[from], em)
            && ScanFrom(leg, call, cands, eq, from).emitted == [em] + ScanFrom(leg, call, cands, eq, from + 1).emitted
            && ScanFrom(leg, call, cands, eq, from).fault == ScanFrom(leg, call, cands, eq, from + 1).fault
    ensures MatchPositions(leg.matchIndices, call.env.values, cands, eq, from)
            == [from] + MatchPositions(leg.matchIndices, call.env.values, cands, eq, from + 1)
  {
    TestMatchAccepts(leg.matchIndices, call.env.values, cands[from].values, eq);
  }

  /** A disagreeing candidate contributes nothing to the scan. */
  lemma ScanStepSkip<V>(leg: Leg, call: Call<V>, cands: seq<Tuple<V>>, eq: (V, V) -> bool, from: nat)
    requires from < |cands| && JoinOne(leg, call, cands[from], eq).Success?
    requires !Agree(leg.matchIndices, call.env.values, cands[from].values, eq)
    ensures ScanFrom(leg, call, cands, eq, from) == ScanFrom(leg, call, cands, eq, from + 1)
    ensures MatchPositions(leg.matchIndices, call.env.values, cands, eq, from)
            == MatchPositions(leg.matchIndices, call.env.values, cands, eq, from + 1)
  {
    TestMatchAccepts(leg.matchIndices, call.env.values, cands[from].values, eq);
  }

  /** Emission `k` of `es` is built from the candidate at position `ps[k]`, for every `k`. */
  ghost predicate AllBuilt<V>(leg: Leg, call: Call<V>, cands: seq<Tuple<V>>, es: seq<Emission<V>>, ps: seq<nat>)
  {
    && |es| == |ps|
    && forall k :: 0 <= k < |ps| ==> ps[k] < |cands| && BuiltFrom(leg, call, cands[ps[k]], es[k])
  }

  /** Putting an emission built from candidate `p` in front keeps emissions and positions in step. */
  lemma ConsBuilt<V>(leg: Leg, call: Call<V>, cands: seq<Tuple<V>>, em: Emission<V>, es: seq<Emission<V>>,
                     p: nat, ps: seq<nat>)
    requires p < |cands| && BuiltFrom(leg, call, cands[p], em) && AllBuilt(leg, call, cands, es, ps)
    ensures AllBuilt(leg, call, cands, [em] + es, [p] + ps)
  {
    forall k | 0 <= k < |ps| + 1
      ensures ([p] + ps)[k] < |cands| && BuiltFrom(leg, call, cands[([p] + ps)[k]], ([em] + es)[k])
    {
      if k > 0 {
        assert ([p] + ps)[k] == ps[k - 1] && ([em] + es)[k] == es[k - 1];
      }
    }
  }

  /**
    Join completeness and soundness of a scan with no exception: exactly one
    emission per agreeing candidate, in window order. Emission `k` belongs to
    the `k`-th agreeing candidate: its bindings are that candidate's
    projection and its graph the union of the incoming and candidate graphs.
   */
  lemma {:induction false} ScanEmitsOnePerMatch<V>(leg: Leg, call: Call<V>, cands: seq<Tuple<V>>, eq: (V, V) -> bool, from: nat)
    requires from <= |cands|
    requires CleanFrom(leg, call, cands, eq, from)
    ensures ScanFrom(leg, call, cands, eq, from).fault.None?
    ensures AllBuilt(leg, call, cands, ScanFrom(leg, call, cands, eq, from).emitted,
                     MatchPositions(leg.matchIndices, call.env.values, cands, eq, from))
    decreases |cands| - from
  {
    if from < |cands| {
      assert JoinOne(leg, call, cands[from], eq).Success?;
      ScanEmitsOnePerMatch(leg, call, cands, eq, from + 1);
      if Agree(leg.matchIndices, call.env.values, cands[from].values, eq) {
        ScanStepMatch(leg, call, cands, eq, from);
        ConsBuilt(leg, call, cands, JoinOne(leg, call, cands[from], eq).value.value,
                  ScanFrom(leg, call, cands, eq, from + 1).emitted, from,
                  MatchPositions(leg.matchIndices, call.env.values, cands, eq, from + 1));
      } else {
        ScanStepSkip(leg, call, cands, eq, from);
      }
    }
  }

  /** A scan ends without an exception exactly when no candidate raises one. */
  lemma {:induction false} ScanFaultFree<V>(leg: Leg, call: Call<V>, cands: seq<Tuple<V>>, eq: (V, V) -> bool, from: nat)
    requires from <= |cands|
    ensures ScanFrom(leg, call, cands, eq, from).fault.None? <==> CleanFrom(leg, call, cands, eq, from)
    decreases |cands| - from
  {
    if from < |cands| {
      ScanFaultFree(leg, call, cands, eq, from + 1);
    }
  }

  /**
    The first candidate that raises an exception ends the scan: the
    exception is the scan's, and the emissions are exactly those the scan of
    the candidates before it makes.
   */
  lemma {:induction false} ScanStopsAtFirstFault<V>(leg: Leg, call: Call<V>, cands: seq<Tuple<V>>, eq: (V, V) -> bool,
                                                    from: nat, f: nat)
    requires from <= f < |cands|
    requires CleanFrom(leg, call, cands[..f], eq, from)
    requires JoinOne(leg, call, cands[f], eq).Failure?
    ensures ScanFrom(leg, call, cands, eq, from).fault == Some(JoinOne(leg, call, cands[f], eq).error)
    ensures ScanFrom(leg, call, cands, eq, from).emitted == ScanFrom(leg, call, cands[..f], eq, from).emitted
    decreases f - from
  {
    if from < f {
      assert cands[..f][from] == cands[from];
      assert JoinOne(leg, call, cands[from], eq).Success?;
      ScanStopsAtFirstFault(leg, call, cands, eq, from + 1, f);
    }
  }

  /**
    Scanning a window with one more entry at its end: the old scan, then the
    new entry's emission, unless the old scan already ended in an exception.
   */
  lemma {:induction false} ScanAppend<V>(leg: Leg, call: Call<V>, cands: seq<Tuple<V>>, c: Tuple<V>, eq: (V, V) -> bool,
                                         from: nat)
    requires from <= |cands|
    ensures var r := ScanFrom(leg, call, cands + [c], eq, from);
            var r0 := ScanFrom(leg, call, cands, eq, from);
            r0.fault.Some? ==> r == r0
    ensures var r := ScanFrom(leg, call, cands + [c], eq, from);
            var r0 := ScanFrom(leg, call, cands, eq, from);
            r0.fault.None? ==>
              match JoinOne(leg, call, c, eq)
              case Failure(e) => r == ScanResult(r0.emitted, Some(e))
              case Success(None) => r == r0
              case Success(Some(em)) => r == ScanResult(r0.emitted + [em], None)
    decreases |cands| - from
  {
    if from < |cands| {
      assert (cands + [c])[from] == cands[from];
      ScanAppend(leg, call, cands, c, eq, from + 1);
      match JoinOne(leg, call, c, eq)
      case Failure(e) =>
      case Success(None) =>
      case Success(Some(em)) =>
        var r0 := ScanFrom(leg, call, cands, eq, from + 1);
        if r0.fault.None? && JoinOne(leg, call, cands[from], eq).Success? {
          match JoinOne(leg, call, cands[from], eq)
          case Success(None) =>
          case Success(Some(e0)) =>
            assert [e0] + (r0.emitted + [em]) == ([e0] + r0.emitted) + [em];
        }
    } else {
      assert (cands + [c])[from] == c;
    }
  }
}
