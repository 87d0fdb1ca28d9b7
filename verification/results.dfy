/**
  Per-image detection statistics of the face-detection benchmark and their
  pairwise combination.

  A `Results` record counts, for one score threshold, the annotated regions
  (`n`), the continuous and discrete true positives and the discrete false
  positives.  The Java `int` field is an `Int32` with explicit wrap-around; the
  `double` fields are `real`, since only addition and comparison are applied
  to them.
 */
module Benchmark {
  import opened Common

  const MinInt: int := -0x8000_0000
  const MaxInt: int := 0x7FFF_FFFF
  const Modulus: int := 0x1_0000_0000

  /** A Java `int`. */
  type Int32 = x: int | -0x8000_0000 <= x <= 0x7FFF_FFFF

  /** Java's `Double.MAX_VALUE`, written out exactly. */
  const MaxDouble: real := 179769313486231570814527423731704356798070567525844996598917476803157260780028538760589558632766878171540458953514382464234321326889464182768467546703537516986049910576551282076245490090389328944075868508455133942304583236903222948165808559332123348274797826204144723168738177180919299881250404026184124858368.0

  /** A match whose score exceeds this counts as a discrete true positive. */
  const DiscreteScore: real := 0.5

  /** Two's-complement reduction of an unbounded integer into 32 bits. */
  function Wrap(x: int): (r: Int32)
    ensures MinInt <= x <= MaxInt ==> r == x
    ensures (x - r) % Modulus == 0
  {
    (x - MinInt) % Modulus + MinInt
  }

  /** Java `int` addition, which wraps around on overflow. */
  function AddInt32(a: Int32, b: Int32): (r: Int32)
    ensures MinInt <= a + b <= MaxInt ==> r == a + b
    ensures (a + b - r) % Modulus == 0
  {
    Wrap(a + b)
  }

  /** Two integers of the same residue are reduced to the same `Int32`. */
  lemma WrapCongruent(x: int, y: int)
    requires (x - y) % Modulus == 0
    ensures Wrap(x) == Wrap(y)
  {
    var k := (x - y) / Modulus;
    assert x == y + k * Modulus;
    assert (x - MinInt) % Modulus == (y - MinInt + k * Modulus) % Modulus;
    ModuloShift(y - MinInt, k);
  }

  lemma ModuloShift(a: int, k: int)
    ensures (a + k * Modulus) % Modulus == a % Modulus
  {
  }

  lemma AddInt32Commutative(a: Int32, b: Int32)
    ensures AddInt32(a, b) == AddInt32(b, a)
  {
  }

  lemma AddInt32Associative(a: Int32, b: Int32, c: Int32)
    ensures AddInt32(AddInt32(a, b), c) == AddInt32(a, AddInt32(b, c))
  {
    assert AddInt32(AddInt32(a, b), c) == Wrap(a + b + c) by {
      WrapAddLeft(a + b, c);
    }
    assert AddInt32(a, AddInt32(b, c)) == Wrap(a + b + c) by {
      WrapAddLeft(b + c, a);
      assert Wrap(b + c) + a == a + Wrap(b + c);
    }
  }

  /** Reducing a summand first does not change the reduced sum. */
  lemma WrapAddLeft(x: int, y: int)
    ensures Wrap(Wrap(x) + y) == Wrap(x + y)
  {
    NegatedMultiple(x - Wrap(x));
    WrapCongruent(Wrap(x) + y, x + y);
  }

  lemma NegatedMultiple(a: int)
    requires a % Modulus == 0
    ensures (-a) % Modulus == 0
  {
    var k := a / Modulus;
    assert a == k * Modulus;
    assert -a == (-k) * Modulus;
    ModuloShift(0, -k);
  }

  lemma AddInt32Zero(a: Int32)
    ensures AddInt32(a, 0) == a && AddInt32(0, a) == a
  {
  }

  /** One benchmark result; the image name is not modelled. */
  datatype Results = Results(n: Int32, scoreThreshold: real, tpCont: real, tpDisc: real, fp: real)

  /** The result of the no-argument constructor: every field at its Java default. */
  const Zero: Results := Results(0, 0.0, 0.0, 0.0, 0.0)

  /** The copy constructor; a `null` argument leaves every field at zero. */
  function Copy(r: Option<Results>): (c: Results)
    ensures r.None? ==> c == Zero
    ensures r.Some? ==> c.n == r.value.n && c.scoreThreshold == r.value.scoreThreshold
    ensures r.Some? ==> c.tpCont == r.value.tpCont && c.tpDisc == r.value.tpDisc && c.fp == r.value.fp
  {
    match r
    case None => Zero
    case Some(x) => Results(x.n, x.scoreThreshold, x.tpCont, x.tpDisc, x.fp)
  }

  /** The copy constructor that also adds `n2` annotated regions to `N`. */
  function CopyWithN(r: Option<Results>, n2: Int32): (c: Results)
    ensures r.None? ==> c == Zero
    ensures r.Some? ==> c.n == AddInt32(r.value.n, n2) && c.scoreThreshold == r.value.scoreThreshold
    ensures r.Some? ==> c.tpCont == r.value.tpCont && c.tpDisc == r.value.tpDisc && c.fp == r.value.fp
  {
    match r
    case None => Zero
    case Some(x) => Results(AddInt32(x.n, n2), x.scoreThreshold, x.tpCont, x.tpDisc, x.fp)
  }

  /** Adding no regions is the plain copy. */
  lemma CopyWithNoN(r: Option<Results>)
    ensures CopyWithN(r, 0) == Copy(r)
  {
    if r.Some? {
      AddInt32Zero(r.value.n);
    }
  }

  /** Copying a present result reproduces it, field for field. */
  lemma CopyIsIdentity(r: Results)
    ensures Copy(Some(r)) == r
  {
  }

  // Contributions of a possibly-null argument to the combined sums.
  function NOf(r: Option<Results>): Int32 { if r.Some? then r.value.n else 0 }
  function TpContOf(r: Option<Results>): real { if r.Some? then r.value.tpCont else 0.0 }
  function TpDiscOf(r: Option<Results>): real { if r.Some? then r.value.tpDisc else 0.0 }
  function FpOf(r: Option<Results>): real { if r.Some? then r.value.fp else 0.0 }

  /** The accumulator the pairwise constructor starts from. */
  const CombineStart: Results := Results(0, MaxDouble, 0.0, 0.0, 0.0)

  /**
    One null-guarded block of the pairwise constructor: a present record adds
    its counts to the running sums and lowers the threshold to its own when
    that is smaller; `null` adds nothing.
   */
  function Absorb(acc: Results, r: Option<Results>): (c: Results)
    ensures c.n == AddInt32(acc.n, NOf(r))
    ensures c.tpCont == acc.tpCont + TpContOf(r) && c.tpDisc == acc.tpDisc + TpDiscOf(r) && c.fp == acc.fp + FpOf(r)
    ensures c.scoreThreshold <= acc.scoreThreshold
    ensures r.Some? ==> c.scoreThreshold <= r.value.scoreThreshold
    ensures c.scoreThreshold == acc.scoreThreshold || (r.Some? && c.scoreThreshold == r.value.scoreThreshold)
  {
    match r
    case None =>
      AddInt32Zero(acc.n);
      acc
    case Some(x) =>
      Results(AddInt32(acc.n, x.n),
              if x.scoreThreshold < acc.scoreThreshold then x.scoreThreshold else acc.scoreThreshold,
              acc.tpCont + x.tpCont, acc.tpDisc + x.tpDisc, acc.fp + x.fp)
  }

  /**
    The pairwise constructor: the counts are the sums over the non-null
    arguments, and the threshold is the least of their thresholds, starting
    from `Double.MAX_VALUE`.
   */
  function Combine(r1: Option<Results>, r2: Option<Results>): (c: Results)
    ensures c.n == AddInt32(NOf(r1), NOf(r2))
    ensures c.tpCont == TpContOf(r1) + TpContOf(r2)
    ensures c.tpDisc == TpDiscOf(r1) + TpDiscOf(r2)
    ensures c.fp == FpOf(r1) + FpOf(r2)
    ensures c.scoreThreshold <= MaxDouble
    ensures r1.Some? ==> c.scoreThreshold <= r1.value.scoreThreshold
    ensures r2.Some? ==> c.scoreThreshold <= r2.value.scoreThreshold
    ensures || c.scoreThreshold == MaxDouble
            || (r1.Some? && c.scoreThreshold == r1.value.scoreThreshold)
            || (r2.Some? && c.scoreThreshold == r2.value.scoreThreshold)
    ensures r1.None? && r2.None? ==> c == CombineStart
  {
    Absorb(Absorb(CombineStart, r1), r2)
  }

  /** The pairwise constructor does not depend on argument order. */
  lemma CombineCommutative(r1: Option<Results>, r2: Option<Results>)
    ensures Combine(r1, r2) == Combine(r2, r1)
  {
    AddInt32Commutative(NOf(r1), NOf(r2));
  }

  /** Combining is associative, including the wrap-around of `N`. */
  lemma CombineAssociative(a: Results, b: Results, c: Results)
    ensures Combine(Some(Combine(Some(a), Some(b))), Some(c))
         == Combine(Some(a), Some(Combine(Some(b), Some(c))))
  {
    AddInt32Associative(a.n, b.n, c.n);
    var l := Combine(Some(Combine(Some(a), Some(b))), Some(c));
    var r := Combine(Some(a), Some(Combine(Some(b), Some(c))));
    assert l.tpCont == r.tpCont && l.tpDisc == r.tpDisc && l.fp == r.fp;
  }

  /**
    Combining a single result with `null` copies it, as long as its threshold
    is a finite double.
   */
  lemma CombineWithNull(r: Results)
    requires r.scoreThreshold <= MaxDouble
    ensures Combine(Some(r), None) == Copy(Some(r))
    ensures Combine(None, Some(r)) == Copy(Some(r))
  {
    AddInt32Zero(r.n);
  }

  /** One matched detection; the matcher supplies only its overlap score here. */
  datatype Match = Match(score: real)

  /** Sum of the scores of `ms`. */
  function TotalScore(ms: seq<Match>): real
  {
    if |ms| == 0 then 0.0 else TotalScore(ms[..|ms| - 1]) + ms[|ms| - 1].score
  }

  /** Number of matches in `ms` whose score exceeds `DiscreteScore`. */
  function CountAbove(ms: seq<Match>): nat
  {
    if |ms| == 0 then 0
    else CountAbove(ms[..|ms| - 1]) + (if ms[|ms| - 1].score > DiscreteScore then 1 else 0)
  }

  /** Positions in `ms` of the matches counted by `CountAbove`. */
  function AbovePositions(ms: seq<Match>): set<nat>
  {
    set i: nat | i < |ms| && ms[i].score > DiscreteScore
  }

  /** `CountAbove` is the number of positions holding a match scored above one half. */
  lemma {:induction false} CountAboveIsCardinality(ms: seq<Match>)
    ensures CountAbove(ms) == |AbovePositions(ms)|
    ensures CountAbove(ms) <= |ms|
  {
    if |ms| > 0 {
      var init := ms[..|ms| - 1];
      CountAboveIsCardinality(init);
      var last := |ms| - 1;
      if ms[last].score > DiscreteScore {
        assert AbovePositions(ms) == AbovePositions(init) + {last};
      } else {
        assert AbovePositions(ms) == AbovePositions(init);
      }
    }
  }

  function MatchesOf(mp: Option<seq<Match>>): seq<Match> { if mp.Some? then mp.value else [] }

  /**
    The from-matches constructor: `N` is the number of annotated regions, the
    continuous true positives add up the match scores, every match scored
    above one half is a discrete true positive, and every detection that is
    not one is a false positive.
   */
  method FromMatches<D>(scoreThresh: real, mp: Option<seq<Match>>, annot: Option<seq<D>>, det: Option<seq<D>>)
      returns (r: Result<Results, Fault>)
    requires annot.Some? ==> |annot.value| <= MaxInt
    ensures r.Failure? <==> annot.None? || det.None?
    ensures r.Failure? ==> r.error == NullReference
    ensures r.Success? ==>
              && r.value.n == |annot.value| && r.value.scoreThreshold == scoreThresh
              && r.value.tpCont == TotalScore(MatchesOf(mp))
              && r.value.tpDisc == |AbovePositions(MatchesOf(mp))| as real
              && r.value.fp == (|det.value| - |AbovePositions(MatchesOf(mp))|) as real
              && r.value.tpDisc + r.value.fp == |det.value| as real
              && 0.0 <= r.value.tpDisc <= |MatchesOf(mp)| as real
  {
    if annot.None? || det.None? {
      return Failure(NullReference);
    }
    var tpCont := 0.0;
    var tpDisc := 0.0;
    var fp := |det.value| as real;
    var ms := MatchesOf(mp);
    var i := 0;
    while i < |ms|
      invariant 0 <= i <= |ms|
      invariant tpCont == TotalScore(ms[..i])
      invariant tpDisc == CountAbove(ms[..i]) as real
      invariant tpDisc + fp == |det.value| as real
    {
      var score := ms[i].score;
      assert ms[..i + 1][..i] == ms[..i];
      tpCont := tpCont + score;
      if score > DiscreteScore {
        tpDisc := tpDisc + 1.0;
        fp := fp - 1.0;
      }
      i := i + 1;
    }
    assert ms[..|ms|] == ms;
    CountAboveIsCardinality(ms);
    r := Success(Results(|annot.value|, scoreThresh, tpCont, tpDisc, fp));
  }

  /** Every entry of `s`, copied with `n2` added to its `N`. */
  function Adjust(s: seq<Results>, n2: Int32): (r: seq<Results>)
    ensures |r| == |s|
    ensures forall k :: 0 <= k < |s| ==>
              && r[k].n == AddInt32(s[k].n, n2)
              && r[k].scoreThreshold == s[k].scoreThreshold
              && r[k].tpCont == s[k].tpCont && r[k].tpDisc == s[k].tpDisc && r[k].fp == s[k].fp
  {
    seq(|s|, k requires 0 <= k < |s| => CopyWithN(Some(s[k]), n2))
  }

  /**
    The indices after one paired step: the side with the strictly smaller
    threshold advances, or both sides on a tie.
   */
  function Advance(t1: real, t2: real, i1: nat, i2: nat): (next: (nat, nat))
    ensures i1 <= next.0 <= i1 + 1 && i2 <= next.1 <= i2 + 1
    ensures i1 + i2 < next.0 + next.1
    ensures next.0 == i1 + 1 <==> t1 <= t2
    ensures next.1 == i2 + 1 <==> t2 <= t1
  {
    if t1 < t2 then (i1 + 1, i2)
    else if t1 == t2 then (i1 + 1, i2 + 1)
    else (i1, i2 + 1)
  }

  /**
    The two-pointer walk of `merge` from positions `i1` and `i2`: while both
    lists have entries, emit the combination of the current pair and advance
    the index whose threshold is strictly smaller, or both on a tie; then the
    leftover entries of `rv1` get `nAnnot2` added to `N` and those of `rv2`
    get `nAnnot1`.
   */
  function MergeFrom(rv1: seq<Results>, rv2: seq<Results>, i1: nat, i2: nat, nAnnot1: Int32, nAnnot2: Int32)
    : (m: seq<Results>)
    requires i1 <= |rv1| && i2 <= |rv2|
    ensures |rv1| - i1 <= |m| && |rv2| - i2 <= |m| && |m| <= |rv1| - i1 + |rv2| - i2
    decreases |rv1| + |rv2| - i1 - i2
  {
    if i1 < |rv1| && i2 < |rv2| then
      var next := Advance(rv1[i1].scoreThreshold, rv2[i2].scoreThreshold, i1, i2);
      [Combine(Some(rv1[i1]), Some(rv2[i2]))] + MergeFrom(rv1, rv2, next.0, next.1, nAnnot1, nAnnot2)
    else if i1 < |rv1| then Adjust(rv1[i1..], nAnnot2)
    else Adjust(rv2[i2..], nAnnot1)
  }

  /**
    The result of `merge`. A `null` list has size zero and is otherwise never
    read, so it is the empty sequence here.
   */
  function MergeModel(rv1: seq<Results>, rv2: seq<Results>): (m: seq<Results>)
    ensures |rv1| <= |m| && |rv2| <= |m| <= |rv1| + |rv2|
  {
    if |rv1| == 0 then seq(|rv2|, k requires 0 <= k < |rv2| => Copy(Some(rv2[k])))
    else MergeFrom(rv1, rv2, 0, 0, rv1[0].n, if |rv2| > 0 then rv2[0].n else 0)
  }

  /**
    `merge`, with its loops. Every output entry pairs the current entries of
    both lists or is a leftover entry with its `N` adjusted.
   */
  method Merge(rv1: seq<Results>, rv2: seq<Results>) returns (mergeV: seq<Results>)
    ensures mergeV == MergeModel(rv1, rv2)
    ensures |rv1| == 0 ==> mergeV == rv2
    ensures |rv1| <= |mergeV| && |rv2| <= |mergeV| <= |rv1| + |rv2|
  {
    if |rv1| > 0 {
      mergeV := MergeNonEmpty(rv1, rv2);
    } else {
      mergeV := CopyEach(rv2);
    }
    MergeEmptyFirstIsCopy(rv1, rv2);
  }

  /** The branch of `merge` for a non-empty first list: the two-pointer walk and both drain loops. */
  method MergeNonEmpty(rv1: seq<Results>, rv2: seq<Results>) returns (mergeV: seq<Results>)
    requires |rv1| > 0
    ensures mergeV == MergeFrom(rv1, rv2, 0, 0, rv1[0].n, if |rv2| > 0 then rv2[0].n else 0)
  {
    mergeV := [];
    var n1 := |rv1|;
    var n2 := |rv2|;
    var nAnnot1: Int32 := rv1[0].n;
    var nAnnot2: Int32 := 0;
    if n2 > 0 {
      nAnnot2 := rv2[0].n;
    }
    ghost var total := MergeFrom(rv1, rv2, 0, 0, nAnnot1, nAnnot2);
    var i1 := 0;
    var i2 := 0;
    while i1 < n1
      invariant i1 <= n1 && i2 <= n2
      invariant mergeV + MergeFrom(rv1, rv2, i1, i2, nAnnot1, nAnnot2) == total
      decreases n1 + n2 - i1 - i2
    {
      var r1 := rv1[i1];
      var score1 := r1.scoreThreshold;
      if i2 < n2 {
        var r2 := rv2[i2];
        var score2 := r2.scoreThreshold;
        var newR := Combine(Some(r1), Some(r2));
        ghost var next := Advance(score1, score2, i1, i2);
        ghost var rest := MergeFrom(rv1, rv2, next.0, next.1, nAnnot1, nAnnot2);
        assert MergeFrom(rv1, rv2, i1, i2, nAnnot1, nAnnot2) == [newR] + rest;
        AppendOne(mergeV, newR, rest);
        mergeV := mergeV + [newR];
        if score1 < score2 {
          i1 := i1 + 1;
        } else if score1 == score2 {
          i1 := i1 + 1;
          i2 := i2 + 1;
        } else {
          i2 := i2 + 1;
        }
      } else {
        MergeFromDrained(rv1, rv2, i1, i2, nAnnot1, nAnnot2);
        mergeV := AppendLeftovers(mergeV, rv1, i1, nAnnot2);
        i1 := n1;
        MergeFromDrained(rv1, rv2, i1, i2, nAnnot1, nAnnot2);
      }
    }
    MergeFromDrained(rv1, rv2, i1, i2, nAnnot1, nAnnot2);
    mergeV := AppendLeftovers(mergeV, rv2, i2, nAnnot1);
  }

  /** The branch of `merge` for an empty first list: a copy of each entry of `rv2`. */
  method CopyEach(rv2: seq<Results>) returns (mergeV: seq<Results>)
    ensures mergeV == seq(|rv2|, k requires 0 <= k < |rv2| => Copy(Some(rv2[k])))
  {
    mergeV := [];
    var i := 0;
    while i < |rv2|
      invariant i <= |rv2|
      invariant mergeV == seq(i, k requires 0 <= k < i => Copy(Some(rv2[k])))
    {
      mergeV := mergeV + [Copy(Some(rv2[i]))];
      i := i + 1;
    }
  }

  /** A drain loop of `merge`: appends the entries of `s` from `i` on, each with `n2` added to `N`. */
  method AppendLeftovers(acc: seq<Results>, s: seq<Results>, i: nat, n2: Int32) returns (r: seq<Results>)
    requires i <= |s|
    ensures r == acc + Adjust(s[i..], n2)
  {
    r := acc;
    var j := i;
    while j < |s|
      invariant i <= j <= |s|
      invariant r + Adjust(s[j..], n2) == acc + Adjust(s[i..], n2)
    {
      var newR := CopyWithN(Some(s[j]), n2);
      assert (r + [newR]) + Adjust(s[j + 1..], n2) == r + Adjust(s[j..], n2) by {
        AdjustStep(s, j, n2);
        AppendOne(r, newR, Adjust(s[j + 1..], n2));
      }
      r := r + [newR];
      j := j + 1;
    }
    assert s[j..] == [];
  }

  lemma AdjustStep(s: seq<Results>, i: nat, n2: Int32)
    requires i < |s|
    ensures Adjust(s[i..], n2) == [CopyWithN(Some(s[i]), n2)] + Adjust(s[i + 1..], n2)
  {
    assert s[i..][1..] == s[i + 1..];
  }

  lemma AppendOne<T>(a: seq<T>, x: T, b: seq<T>)
    ensures (a + [x]) + b == a + ([x] + b)
  {
  }

  /** Once one list is exhausted, the walk yields the other list's leftovers, adjusted. */
  lemma MergeFromDrained(rv1: seq<Results>, rv2: seq<Results>, i1: nat, i2: nat, nAnnot1: Int32, nAnnot2: Int32)
    requires i1 <= |rv1| && i2 <= |rv2|
    requires i1 == |rv1| || i2 == |rv2|
    ensures i1 < |rv1| ==> MergeFrom(rv1, rv2, i1, i2, nAnnot1, nAnnot2) == Adjust(rv1[i1..], nAnnot2)
    ensures i1 == |rv1| ==> MergeFrom(rv1, rv2, i1, i2, nAnnot1, nAnnot2) == Adjust(rv2[i2..], nAnnot1)
  {
  }

  /** With an empty first list, `merge` returns a list equal to the second. */
  lemma MergeEmptyFirstIsCopy(rv1: seq<Results>, rv2: seq<Results>)
    ensures |rv1| == 0 ==> MergeModel(rv1, rv2) == rv2
  {
    if |rv1| == 0 {
      var m := MergeModel(rv1, rv2);
      forall k | 0 <= k < |rv2|
        ensures m[k] == rv2[k]
      {
        CopyIsIdentity(rv2[k]);
      }
    }
  }

  /** Thresholds that do not decrease along `s`. */
  predicate ThresholdsAscending(s: seq<Results>)
  {
    forall i, j :: 0 <= i < j < |s| ==> s[i].scoreThreshold <= s[j].scoreThreshold
  }

  /** Thresholds that a Java `double` other than infinity can hold. */
  predicate ThresholdsFinite(s: seq<Results>)
  {
    forall i :: 0 <= i < |s| ==> s[i].scoreThreshold <= MaxDouble
  }

  predicate ThresholdsAtLeast(s: seq<Results>, lo: real)
  {
    forall i :: 0 <= i < |s| ==> lo <= s[i].scoreThreshold
  }

  /** Adjusting `N` keeps every threshold. */
  lemma AdjustKeepsThresholds(s: seq<Results>, n2: Int32)
    ensures forall k :: 0 <= k < |s| ==> Adjust(s, n2)[k].scoreThreshold == s[k].scoreThreshold
  {
  }

  /** Every threshold the walk emits is at least `lo` when the remaining entries of both lists are. */
  lemma {:induction false} MergeFromAtLeast(rv1: seq<Results>, rv2: seq<Results>, i1: nat, i2: nat,
                                            nAnnot1: Int32, nAnnot2: Int32, lo: real)
    requires i1 <= |rv1| && i2 <= |rv2|
    requires ThresholdsFinite(rv1) && ThresholdsFinite(rv2)
    requires forall k :: i1 <= k < |rv1| ==> lo <= rv1[k].scoreThreshold
    requires forall k :: i2 <= k < |rv2| ==> lo <= rv2[k].scoreThreshold
    ensures ThresholdsAtLeast(MergeFrom(rv1, rv2, i1, i2, nAnnot1, nAnnot2), lo)
    decreases |rv1| + |rv2| - i1 - i2
  {
    if i1 < |rv1| && i2 < |rv2| {
      var next := Advance(rv1[i1].scoreThreshold, rv2[i2].scoreThreshold, i1, i2);
      MergeFromAtLeast(rv1, rv2, next.0, next.1, nAnnot1, nAnnot2, lo);
    } else if i1 < |rv1| {
      AdjustKeepsThresholds(rv1[i1..], nAnnot2);
    } else {
      AdjustKeepsThresholds(rv2[i2..], nAnnot1);
    }
  }

  /**
    On lists ordered by ascending threshold the walk emits its entries in
    ascending threshold order: each paired entry carries the smaller current
    threshold, and the side that holds it is the one that advances.
   */
  lemma {:induction false} MergeFromAscending(rv1: seq<Results>, rv2: seq<Results>, i1: nat, i2: nat,
                                              nAnnot1: Int32, nAnnot2: Int32)
    requires i1 <= |rv1| && i2 <= |rv2|
    requires ThresholdsFinite(rv1) && ThresholdsFinite(rv2)
    requires ThresholdsAscending(rv1) && ThresholdsAscending(rv2)
    ensures ThresholdsAscending(MergeFrom(rv1, rv2, i1, i2, nAnnot1, nAnnot2))
    decreases |rv1| + |rv2| - i1 - i2
  {
    var m := MergeFrom(rv1, rv2, i1, i2, nAnnot1, nAnnot2);
    if i1 < |rv1| && i2 < |rv2| {
      var t1 := rv1[i1].scoreThreshold;
      var t2 := rv2[i2].scoreThreshold;
      var h := if t1 < t2 then t1 else t2;
      var next := Advance(t1, t2, i1, i2);
      var rest := MergeFrom(rv1, rv2, next.0, next.1, nAnnot1, nAnnot2);
      assert m == [Combine(Some(rv1[i1]), Some(rv2[i2]))] + rest;
      assert m[0].scoreThreshold == h;
      MergeFromAscending(rv1, rv2, next.0, next.1, nAnnot1, nAnnot2);
      assert forall k :: next.0 <= k < |rv1| ==> h <= rv1[k].scoreThreshold by {
        assert forall k :: i1 <= k < |rv1| ==> t1 <= rv1[k].scoreThreshold;
      }
      assert forall k :: next.1 <= k < |rv2| ==> h <= rv2[k].scoreThreshold by {
        assert forall k :: i2 <= k < |rv2| ==> t2 <= rv2[k].scoreThreshold;
      }
      MergeFromAtLeast(rv1, rv2, next.0, next.1, nAnnot1, nAnnot2, h);
      ConsAscending(m[0], rest, h);
    } else if i1 < |rv1| {
      AdjustKeepsThresholds(rv1[i1..], nAnnot2);
    } else {
      AdjustKeepsThresholds(rv2[i2..], nAnnot1);
    }
  }

  /** An entry no higher than a lower bound of an ascending list can go in front of it. */
  lemma ConsAscending(x: Results, s: seq<Results>, lo: real)
    requires x.scoreThreshold <= lo && ThresholdsAtLeast(s, lo) && ThresholdsAscending(s)
    ensures ThresholdsAscending([x] + s)
  {
    forall i, j | 0 <= i < j < |s| + 1
      ensures ([x] + s)[i].scoreThreshold <= ([x] + s)[j].scoreThreshold
    {
      if i > 0 {
        assert ([x] + s)[i] == s[i - 1];
      }
      assert ([x] + s)[j] == s[j - 1];
    }
  }

  /** `merge` of two threshold-ascending lists is threshold-ascending. */
  lemma MergeKeepsThresholdOrder(rv1: seq<Results>, rv2: seq<Results>)
    requires ThresholdsFinite(rv1) && ThresholdsFinite(rv2)
    requires ThresholdsAscending(rv1) && ThresholdsAscending(rv2)
    ensures ThresholdsAscending(MergeModel(rv1, rv2))
  {
    MergeEmptyFirstIsCopy(rv1, rv2);
    if |rv1| > 0 {
      MergeFromAscending(rv1, rv2, 0, 0, rv1[0].n, if |rv2| > 0 then rv2[0].n else 0);
    }
  }

  /** Every entry of `s` counts `a` annotated regions. */
  predicate AllN(s: seq<Results>, a: Int32)
  {
    forall i :: 0 <= i < |s| ==> s[i].n == a
  }

  /** With both lists non-empty and uniform in `N`, every entry of the walk counts both images' regions. */
  lemma {:induction false} MergeFromAllN(rv1: seq<Results>, rv2: seq<Results>, i1: nat, i2: nat, a: Int32, b: Int32)
    requires i1 <= |rv1| && i2 <= |rv2|
    requires AllN(rv1, a) && AllN(rv2, b)
    ensures AllN(MergeFrom(rv1, rv2, i1, i2, a, b), AddInt32(a, b))
    decreases |rv1| + |rv2| - i1 - i2
  {
    if i1 < |rv1| && i2 < |rv2| {
      var next := Advance(rv1[i1].scoreThreshold, rv2[i2].scoreThreshold, i1, i2);
      MergeFromAllN(rv1, rv2, next.0, next.1, a, b);
    } else if i1 == |rv1| {
      AddInt32Commutative(a, b);
    }
  }

  /**
    When each list describes one image (all its entries count the same
    annotated regions), every merged entry counts the regions of both images.
   */
  lemma MergeSumsAnnotations(rv1: seq<Results>, rv2: seq<Results>, a: Int32, b: Int32)
    requires AllN(rv1, a) && AllN(rv2, b)
    ensures AllN(MergeModel(rv1, rv2), if |rv1| == 0 then b else if |rv2| == 0 then a else AddInt32(a, b))
  {
    if |rv1| > 0 {
      if |rv2| > 0 {
        MergeFromAllN(rv1, rv2, 0, 0, a, b);
      } else {
        AddInt32Zero(a);
        assert MergeModel(rv1, rv2) == Adjust(rv1, 0);
      }
    }
  }
}
