# Two cores of OpenIMAJ, modelled in Dafny

This project models two independent, sequential pieces of OpenIMAJ and
proves properties of the models.

**The streaming RETE join queue** (`RETEStormQueue`). A join node is a pair of
sibling queues, one per input leg. Each queue keeps a window of the tuples
asserted on its leg. `fire(env, isAdd, timestamp)` scans the sibling's
window in order. Every candidate that passes the index-driven match test
produces one output tuple: the projected bindings plus a trailer of isAdd,
the union of both provenance graphs, and the timestamp. That output is
handed to the continuation at once, and the sink calls it sets off run down
the chain of continuations before the scan goes on. Afterwards the queue
stores `env` in its own window, or removes it for a retraction. An exception
anywhere in this, the sink calls included, ends `fire` before the store. The model also covers:

- the three constructors;
- the symmetric sibling binding;
- continuation propagation to the sibling;
- the memoised `clone` of a network into a fresh context;
- the sink convention: a queue that is its own continuation is terminal.

The Java object graph is an arena: `Heap` maps queue ids to `Queue` records,
and `null` references are `None`. `NullPointerException`,
`IndexOutOfBoundsException` and `StackOverflowError` are outcomes (`Fault`),
not preconditions, wherever the model represents the `null` that raises them;
the `null` arguments and fields it cannot represent are listed under
"## Left out".
`sameValueAs` is an arbitrary function parameter, and a graph union is the
constructor `MultiUnion`.

**The face-detection benchmark results** (`Results`). The model covers:

- the copy, copy-plus-N, pairwise-combine and from-matches constructors;
- the static `merge` of two per-threshold result lists. `merge` is a
  two-pointer walk that pairs entries, advances the side with the smaller
  threshold, and drains the leftovers with an N adjustment.

`N` is a Java `int` with explicit 32-bit wrap-around. The `double` fields
are `real`. `Double.MAX_VALUE` is written out exactly. A `null` list has
size zero in `merge`, so it is the empty sequence here. A `null` record
argument, and a `null` list handed to the from-matches constructor, is `None`.

Files:

- `common.dfy`: `Option`, `Result` and the `Fault` kinds.
- `results.dfy`: the benchmark results.
- `window.dfy`: the tuple window.
- `join.dfy`: the match test, projection and window scan.
- `network.dfy`: queues, wiring, `fire`, sink forwarding and `isActive`.
- `clone.dfy`: network cloning.

## Model

| member | source | states |
|---|---|---|
| Benchmark.Wrap | image/faces/src/main/java/org/openimaj/image/processing/face/detection/benchmarking/Results.java:11 | a Java `int` holds the exact value when it fits and otherwise the value reduced modulo 2^32 into the signed range |
| Benchmark.AddInt32 | image/faces/src/main/java/org/openimaj/image/processing/face/detection/benchmarking/Results.java:43 | `int` addition of annotation counts is exact without overflow and congruent to the true sum modulo 2^32 always |
| Benchmark.Copy | image/faces/src/main/java/org/openimaj/image/processing/face/detection/benchmarking/Results.java:31-39 | copying a result reproduces all five fields; a `null` argument leaves every field zero |
| Benchmark.CopyIsIdentity | image/faces/src/main/java/org/openimaj/image/processing/face/detection/benchmarking/Results.java:31-39 | copying a present result gives back a record equal to it |
| Benchmark.CopyWithN | image/faces/src/main/java/org/openimaj/image/processing/face/detection/benchmarking/Results.java:41-49 | copy-plus-N keeps threshold, TPCont, TPDisc and FP, and adds `N2` to N with `int` wrap-around; `null` gives all zeros |
| Benchmark.CopyWithNoN | image/faces/src/main/java/org/openimaj/image/processing/face/detection/benchmarking/Results.java:31-49 | copy-plus-N with `N2 = 0` is the plain copy, also for `null` |
| Benchmark.Absorb | image/faces/src/main/java/org/openimaj/image/processing/face/detection/benchmarking/Results.java:58-74 | one null-guarded block adds a present record's counts to the running sums, N with wrap-around, and lowers the threshold to the record's when smaller, so the result is the least of the two; `null` adds nothing |
| Benchmark.Combine | image/faces/src/main/java/org/openimaj/image/processing/face/detection/benchmarking/Results.java:51-75 | the pairwise constructor sums N, TPCont, TPDisc and FP over the non-null arguments; its threshold is at most each present threshold and equals one of them or `Double.MAX_VALUE`; two nulls give the start record |
| Benchmark.CombineCommutative | image/faces/src/main/java/org/openimaj/image/processing/face/detection/benchmarking/Results.java:51-75 | combining does not depend on the order of the two arguments |
| Benchmark.CombineAssociative | image/faces/src/main/java/org/openimaj/image/processing/face/detection/benchmarking/Results.java:51-75 | combining three results is associative, N wrap-around included |
| Benchmark.CombineWithNull | image/faces/src/main/java/org/openimaj/image/processing/face/detection/benchmarking/Results.java:51-75 | combining one result with `null`, on either side, copies it when its threshold is a finite double |
| Benchmark.CountAboveIsCardinality | image/faces/src/main/java/org/openimaj/image/processing/face/detection/benchmarking/Results.java:89-97 | the discrete true-positive count of the loop is the number of match positions scored above 0.5, and at most the number of matches |
| Benchmark.FromMatches | image/faces/src/main/java/org/openimaj/image/processing/face/detection/benchmarking/Results.java:77-99 | N is the number of annotations, TPCont the sum of match scores, TPDisc the number of matches scored above 0.5, FP the detections that are not such a match, so TPDisc + FP is the number of detections; a `null` match list counts as empty, while a `null` annotation or detection list raises a null reference |
| Benchmark.Advance | image/faces/src/main/java/org/openimaj/image/processing/face/detection/benchmarking/Results.java:132-139 | one paired step moves each index by at most one and at least one of them; a side advances exactly when its threshold is the least of the two, so both advance on a tie |
| Benchmark.Adjust | image/faces/src/main/java/org/openimaj/image/processing/face/detection/benchmarking/Results.java:145-155 | a leftover entry keeps its threshold, TPCont, TPDisc and FP, and gains the other list's first N with `int` wrap-around; the order and number of entries are kept |
| Benchmark.MergeFrom | image/faces/src/main/java/org/openimaj/image/processing/face/detection/benchmarking/Results.java:124-158 | the two-pointer walk, as a reference definition: each step emits one entry and consumes one or two, so its length lies between the larger remainder and the sum of both remainders |
| Benchmark.MergeModel | image/faces/src/main/java/org/openimaj/image/processing/face/detection/benchmarking/Results.java:101-166 | `merge` as a reference definition: the output is at least as long as each input and at most as long as both together |
| Benchmark.Merge | image/faces/src/main/java/org/openimaj/image/processing/face/detection/benchmarking/Results.java:101-166 | the loops of `merge` compute the two-pointer reference walk; with an empty first list the output equals the second list; the output length is between max(n1, n2) and n1 + n2 |
| Benchmark.MergeNonEmpty | image/faces/src/main/java/org/openimaj/image/processing/face/detection/benchmarking/Results.java:113-158 | with a non-empty first list, pairing plus both drain loops produce exactly the reference walk started with the first entries' N as adjustments |
| Benchmark.CopyEach | image/faces/src/main/java/org/openimaj/image/processing/face/detection/benchmarking/Results.java:159-164 | with an empty first list, the output is an element-wise copy of the second list |
| Benchmark.AppendLeftovers | image/faces/src/main/java/org/openimaj/image/processing/face/detection/benchmarking/Results.java:141-158 | a drain loop appends every remaining entry in order, each with the other list's first N added |
| Benchmark.MergeEmptyFirstIsCopy | image/faces/src/main/java/org/openimaj/image/processing/face/detection/benchmarking/Results.java:159-164 | with an empty first list, `merge` returns a list equal to the second |
| Benchmark.AdjustKeepsThresholds | image/faces/src/main/java/org/openimaj/image/processing/face/detection/benchmarking/Results.java:145-155 | the N adjustment of leftovers leaves every threshold as it was |
| Benchmark.MergeFromAtLeast | image/faces/src/main/java/org/openimaj/image/processing/face/detection/benchmarking/Results.java:124-158 | every threshold the walk emits is bounded below by any common lower bound of the remaining inputs |
| Benchmark.MergeFromAscending | image/faces/src/main/java/org/openimaj/image/processing/face/detection/benchmarking/Results.java:124-158 | on threshold-ascending inputs the walk emits thresholds in ascending order, because the side holding the smaller threshold advances |
| Benchmark.MergeKeepsThresholdOrder | image/faces/src/main/java/org/openimaj/image/processing/face/detection/benchmarking/Results.java:101-166 | `merge` of two threshold-ascending lists is threshold-ascending |
| Benchmark.MergeFromAllN | image/faces/src/main/java/org/openimaj/image/processing/face/detection/benchmarking/Results.java:111-158 | when each list has a uniform N, every entry of the walk, paired or leftover, counts both lists' N |
| Benchmark.MergeSumsAnnotations | image/faces/src/main/java/org/openimaj/image/processing/face/detection/benchmarking/Results.java:111-166 | merging the per-threshold results of two images gives entries that count the annotations of both images (or of the one non-empty list) |
| SlidingWindow.Empty | storm/ReteStorm/src/main/java/org/openimaj/rdf/storm/bolt/RETEStormQueue.java:97-105 | a new window has the configured capacity and delay and no entries |
| SlidingWindow.Offer | storm/ReteStorm/src/main/java/org/openimaj/rdf/storm/bolt/RETEStormQueue.java:248-250 | `offer` makes the tuple the newest entry and leaves the earlier entries in place |
| SlidingWindow.AddAll | storm/ReteStorm/src/main/java/org/openimaj/rdf/storm/bolt/RETEStormQueue.java:273 | `addAll` appends the given tuples, in order, after the existing entries |
| SlidingWindow.RemoveFirstAbsent | storm/ReteStorm/src/main/java/org/openimaj/rdf/storm/bolt/RETEStormQueue.java:251-253 | removing a tuple that is not stored changes nothing |
| SlidingWindow.RemoveFirstCutsFirst | storm/ReteStorm/src/main/java/org/openimaj/rdf/storm/bolt/RETEStormQueue.java:251-253 | removal cuts out exactly the first stored copy and keeps the other entries in order |
| SlidingWindow.RemoveFirstMultiset | storm/ReteStorm/src/main/java/org/openimaj/rdf/storm/bolt/RETEStormQueue.java:251-253 | removal takes one copy of the tuple out of the multiset of entries |
| SlidingWindow.Remove | storm/ReteStorm/src/main/java/org/openimaj/rdf/storm/bolt/RETEStormQueue.java:251-253 | `remove` keeps capacity and delay, is a no-op for an absent tuple, otherwise deletes its first occurrence, and loses one copy from the multiset of entries |
| Join.TestMatch | storm/ReteStorm/src/main/java/org/openimaj/rdf/storm/bolt/RETEStormQueue.java:197-207 | the match loop accepts exactly when every position passes (a negative index or equal values), rejects exactly at the first failing position, and raises index-out-of-bounds exactly at the first unreadable position |
| Join.TestMatchAccepts | storm/ReteStorm/src/main/java/org/openimaj/rdf/storm/bolt/RETEStormQueue.java:197-208 | a candidate is accepted iff, for every `j` with `matchIndices[j] >= 0`, incoming field `j` is `sameValueAs` candidate field `matchIndices[j]` |
| Join.Project | storm/ReteStorm/src/main/java/org/openimaj/rdf/storm/bolt/RETEStormQueue.java:211-219 | output field `j` is `env[outputIndices[j]]` when that index is non-negative and otherwise `candidate[sibling.outputIndices[j]]`; the projection succeeds iff every such field is readable |
| Join.JoinOne | storm/ReteStorm/src/main/java/org/openimaj/rdf/storm/bolt/RETEStormQueue.java:194-245 | one candidate emits nothing iff the test rejects it; an emission implies agreement and carries the projected fields, the call's isAdd and timestamp, and the union of the two graphs, and goes to the continuation |
| Join.ScanFrom | storm/ReteStorm/src/main/java/org/openimaj/rdf/storm/bolt/RETEStormQueue.java:194-246 | a scan emits at most one output per candidate, each to the continuation with the call's isAdd and timestamp |
| Join.MatchPositions | storm/ReteStorm/src/main/java/org/openimaj/rdf/storm/bolt/RETEStormQueue.java:194-208 | reference definition: exactly the ascending positions whose candidates agree with the incoming tuple |
| Join.ScanEmitsOnePerMatch | storm/ReteStorm/src/main/java/org/openimaj/rdf/storm/bolt/RETEStormQueue.java:194-246 | without exceptions, the scan emits exactly one output per agreeing candidate, in window order, each built from that candidate |
| Join.ScanFaultFree | storm/ReteStorm/src/main/java/org/openimaj/rdf/storm/bolt/RETEStormQueue.java:194-246 | a scan ends without an exception iff no candidate raises one |
| Join.ScanStopsAtFirstFault | storm/ReteStorm/src/main/java/org/openimaj/rdf/storm/bolt/RETEStormQueue.java:194-246 | the first raising candidate ends the scan with its exception, after exactly the emissions of the candidates before it |
| Join.ScanAppend | storm/ReteStorm/src/main/java/org/openimaj/rdf/storm/bolt/RETEStormQueue.java:194-246 | scanning a window with one more entry is the old scan followed by that entry's emission, if any |
| Network.NewQueue | storm/ReteStorm/src/main/java/org/openimaj/rdf/storm/bolt/RETEStormQueue.java:97-105 | the first constructor makes a fresh queue with the given indices and an empty window, no sibling and no continuation, changing no other queue |
| Network.SetSibling | storm/ReteStorm/src/main/java/org/openimaj/rdf/storm/bolt/RETEStormQueue.java:167-169 | `setSibling` rebinds only this queue's sibling |
| Network.SetContinuation | storm/ReteStorm/src/main/java/org/openimaj/rdf/storm/bolt/RETEStormQueue.java:175-179 | `setContinuation` sets this queue's continuation and its sibling's, if any, so the pair shares it; nothing else changes |
| Network.NewQueueWithSibling | storm/ReteStorm/src/main/java/org/openimaj/rdf/storm/bolt/RETEStormQueue.java:123-132 | the sibling-taking constructor binds both ways; the sibling otherwise keeps its state and no other queue changes; a `null` sibling raises a null reference |
| Network.NewQueueWithSink | storm/ReteStorm/src/main/java/org/openimaj/rdf/storm/bolt/RETEStormQueue.java:151-160 | the sink-taking constructor binds the siblings both ways and gives both the sink as continuation; a `null` sibling raises a null reference |
| Network.Store | storm/ReteStorm/src/main/java/org/openimaj/rdf/storm/bolt/RETEStormQueue.java:248-253 | an assertion appends `env` to the window; a retraction takes one copy of `env` out of it |
| Network.StoreAt | storm/ReteStorm/src/main/java/org/openimaj/rdf/storm/bolt/RETEStormQueue.java:248-253 | storing changes only the firing queue's window |
| Network.Handoff | storm/ReteStorm/src/main/java/org/openimaj/rdf/storm/bolt/RETEStormQueue.java:278-285 | handing an output to the continuation returns normally iff the chain of sink calls reaches a terminal queue; otherwise it raises a null reference or, on a forwarding cycle, a stack overflow |
| Network.FirstRaising | storm/ReteStorm/src/main/java/org/openimaj/rdf/storm/bolt/RETEStormQueue.java:194-246 | the first output, in emission order, whose hand-off raises; none exactly when every hand-off returns normally |
| Network.Fire | storm/ReteStorm/src/main/java/org/openimaj/rdf/storm/bolt/RETEStormQueue.java:189-255 | `fire` fails with a null reference for a null sibling; it succeeds iff no candidate raises and every output it hands on returns normally; its outputs are a prefix of the scan's, all of them on success, and every one before the last was handed on normally; on success only the firing queue's window is updated, after the scan; every output goes to the continuation with the call's isAdd and timestamp |
| Network.FireJoinsSiblingWindow | storm/ReteStorm/src/main/java/org/openimaj/rdf/storm/bolt/RETEStormQueue.java:194-246 | a `fire` with no exception emits exactly one output per agreeing entry of the sibling's window, in window order, with the union graph and projected fields |
| Network.FireStopsAtFirstFault | storm/ReteStorm/src/main/java/org/openimaj/rdf/storm/bolt/RETEStormQueue.java:194-246 | when a candidate raises and the outputs before it were handed on normally, `fire` ends with that exception after exactly those outputs |
| Network.FireStopsAtRaisingHandoff | storm/ReteStorm/src/main/java/org/openimaj/rdf/storm/bolt/RETEStormQueue.java:244-255 | an output whose hand-off raises ends `fire` with that exception: the outputs up to and including it were made, no later candidate is visited, and the window is not updated |
| Network.NullDownstreamEndsFire | storm/ReteStorm/src/main/java/org/openimaj/rdf/storm/bolt/RETEStormQueue.java:189-255 | when the continuation is not terminal and has a `null` continuation, the first match ends `fire` with a null reference right after its output, before any store |
| Network.AssertedTupleJoinsLaterArrival | storm/ReteStorm/src/main/java/org/openimaj/rdf/storm/bolt/RETEStormQueue.java:189-255 | a tuple asserted on one leg is joined with a later agreeing tuple that arrives on the sibling leg: the later fire ends with their combined output |
| Network.SinkFire | storm/ReteStorm/src/main/java/org/openimaj/rdf/storm/bolt/RETEStormQueue.java:278-285 | a queue that is its own continuation surfaces the output and forwards nothing; any other queue forwards output and isAdd unchanged; a null continuation raises |
| Network.Deliver | storm/ReteStorm/src/main/java/org/openimaj/rdf/storm/bolt/RETEStormQueue.java:278-285 | following sink calls, an output is surfaced only at a terminal queue, unchanged, and a terminal queue surfaces what it is handed |
| Network.DeliverAlongChain | storm/ReteStorm/src/main/java/org/openimaj/rdf/storm/bolt/RETEStormQueue.java:278-285 | an output handed to the head of a repetition-free chain of non-null continuations ending at a terminal queue is surfaced by that queue, unchanged |
| Network.ForwardingCycleOverflows | storm/ReteStorm/src/main/java/org/openimaj/rdf/storm/bolt/RETEStormQueue.java:278-285 | two non-terminal queues that forward to each other recurse without end |
| Network.IsActiveAsWritten | storm/ReteStorm/src/main/java/org/openimaj/rdf/storm/bolt/RETEStormQueue.java:287-293 | `isActive` as written: a terminal queue calls itself again, so the chain of calls comes back to it; a `null` continuation raises a null reference |
| Network.IsActiveAsWrittenNeverAnswers | storm/ReteStorm/src/main/java/org/openimaj/rdf/storm/bolt/RETEStormQueue.java:287-293 | `isActive` as written never returns an answer in a network of queues |
| Network.IsActive | storm/ReteStorm/src/main/java/org/openimaj/rdf/storm/bolt/RETEStormQueue.java:287-293 | corrected `isActive`: a terminal queue is active |
| Network.IsActiveMatchesDelivery | storm/ReteStorm/src/main/java/org/openimaj/rdf/storm/bolt/RETEStormQueue.java:278-293 | corrected `isActive` answers iff an output handed to the queue reaches a terminal queue, and the answer is then true |
| Cloning.Open | storm/ReteStorm/src/main/java/org/openimaj/rdf/storm/bolt/RETEStormQueue.java:268-270 | a fresh clone has the original's index arrays, capacity and delay, an empty window and no references, and is entered in the memo at once |
| Cloning.BindSibling | storm/ReteStorm/src/main/java/org/openimaj/rdf/storm/bolt/RETEStormQueue.java:271 | binding the clone's sibling changes only the clone |
| Cloning.Close | storm/ReteStorm/src/main/java/org/openimaj/rdf/storm/bolt/RETEStormQueue.java:272-273 | binding the clone's continuation also rebinds its sibling clone's continuation; then the original's entries are appended to the clone's window |
| Cloning.Clone | storm/ReteStorm/src/main/java/org/openimaj/rdf/storm/bolt/RETEStormQueue.java:265-276 | a memo hit returns the stored clone and changes nothing; otherwise the clone is new, copies indices, capacity, delay and window entries, is registered in the memo, and no earlier memo entry or clone content is lost; a null sibling raises |
| Cloning.FinishFrame | storm/ReteStorm/src/main/java/org/openimaj/rdf/storm/bolt/RETEStormQueue.java:271-276 | after the sibling is cloned, the frame binds it, clones and binds the continuation, and appends the window entries; a null continuation raises |
| Cloning.OpenKeepsInv | storm/ReteStorm/src/main/java/org/openimaj/rdf/storm/bolt/RETEStormQueue.java:268-270 | registering a clone before recursing keeps every clone a faithful partial copy |
| Cloning.BindSiblingKeepsInv | storm/ReteStorm/src/main/java/org/openimaj/rdf/storm/bolt/RETEStormQueue.java:271 | binding the sibling keeps every clone a faithful partial copy |
| Cloning.CloseKeepsInv | storm/ReteStorm/src/main/java/org/openimaj/rdf/storm/bolt/RETEStormQueue.java:272-273 | binding the continuation and copying the window finish the clone without spoiling the sibling clone, as paired originals share their continuation |
| Cloning.CloneKeepsInv | storm/ReteStorm/src/main/java/org/openimaj/rdf/storm/bolt/RETEStormQueue.java:265-276 | in a network where every queue and its sibling share one continuation, each successful cloning call, memo hits included, keeps every clone a faithful partial copy and finishes its own frame |
| Cloning.CloneNetwork | storm/ReteStorm/src/main/java/org/openimaj/rdf/storm/bolt/RETEStormQueue.java:265-276 | cloning from an empty memo registers the start queue under the returned clone |
| Cloning.CloneIsCopy | storm/ReteStorm/src/main/java/org/openimaj/rdf/storm/bolt/RETEStormQueue.java:265-276 | the cloned network is an exact, injective copy of the part reachable from the start queue: same indices and windows, with siblings and continuations mapped to clones |

## Left out

- Window eviction: capacity and age eviction depend on the wall clock and the window class is not part of this model; windows are unbounded sequences and no eviction bound is claimed. The time unit (`clone` always passes milliseconds) is not modelled.
- SlidingWindow.Remove: tuples are compared structurally; the Java window compares Storm tuples by their `equals`, which this model does not see. Only the first equal entry is removed, although the comment at RETEStormQueue.java:252 speaks of removing any existing instances; the window class is not part of this model, so a removal of every copy is not modelled.
- Logging, `System.out` printing (the terminal queue's output is the `Print` outcome), Storm concurrency and the topology.
- The `(Node)`, `(Graph)` and `(RETEStormQueue)` casts: values are opaque, so `ClassCastException` is not modelled, nor a `NullPointerException` from a `null` field value inside `sameValueAs`.
- Continuations that are not queues (other sink nodes): the network holds only queues, so every continuation and its `fire`, `clone` and `isActive` are the queue's own.
- A `clone` that raises leaves the partially updated memo to the caller in Java; the model returns only the exception.
- Cloning.CloneIsCopy: proved only for networks in which every queue's sibling has the same continuation, because `setContinuation` on a clone also overwrites its sibling clone's continuation; without that the clone can differ from the original.
- `null` arguments and fields the types here cannot hold: a `null` tuple handed to `fire` (RETEStormQueue.java:191); `null` match or output index arrays, which the first constructor stores unchecked (102-103) and every `fire` then dereferences (198, 212, 217); a `null` memo map handed to `clone` (267). Tuples and index arrays are values, so these `NullPointerException`s are not modelled.
- The `IllegalArgumentException` that `getValueByField("graph")` raises for a tuple without a graph field (229-230): every tuple here carries a graph.
- Results fields `imName` and `toString`, and IEEE `double` rounding, infinities and NaN (reals instead).
- Benchmark.FromMatches: the list of matches is modelled by its scores only, so a `null` element of it is not modelled, and the list sizes are bounded by the `int` range that `List.size()` returns.
- `null` elements inside the result lists of `merge`.

## Findings

| source | as written | input that shows it | evidently intended | confidence | as-written member | corrected member |
|---|---|---|---|---|---|---|
| storm/ReteStorm/src/main/java/org/openimaj/rdf/storm/bolt/RETEStormQueue.java:287-293 | a queue that is its own continuation answers `isActive` by calling `isActive` on itself again, with no base case | one queue whose continuation is itself (Network.LoneTerminalQueue) | a terminal queue is active and returns `true` | not executed | Network.IsActiveAsWrittenNeverAnswers | Network.IsActiveMatchesDelivery |
