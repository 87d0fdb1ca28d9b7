/**
  The tuple window of one join leg, seen as the sequence of its live entries
  in storage order. Capacity and delay are kept as configured; the eviction
  they drive depends on the wall clock and is not part of this model.
 */
module SlidingWindow {

  datatype Window<T> = Window(capacity: int, delay: int, entries: seq<T>)

  /** A freshly constructed window holds nothing. */
  function Empty<T>(capacity: int, delay: int): (w: Window<T>)
    ensures w.capacity == capacity && w.delay == delay && |w.entries| == 0
  {
    Window(capacity, delay, [])
  }

  /** `offer`: the tuple becomes the newest entry; nothing else moves. */
  function Offer<T>(w: Window<T>, t: T): (w': Window<T>)
    ensures w'.capacity == w.capacity && w'.delay == w.delay
    ensures |w'.entries| == |w.entries| + 1 && w'.entries[|w.entries|] == t
    ensures w'.entries[..|w.entries|] == w.entries
  {
    w.(entries := w.entries + [t])
  }

  /** `addAll`: the tuples are appended in order, as when a clone's window is filled. */
  function AddAll<T>(w: Window<T>, ts: seq<T>): (w': Window<T>)
    ensures w'.capacity == w.capacity && w'.delay == w.delay
    ensures |w'.entries| == |w.entries| + |ts|
    ensures w'.entries[..|w.entries|] == w.entries && w'.entries[|w.entries|..] == ts
  {
    w.(entries := w.entries + ts)
  }

  /** Position of the first occurrence of `t` in `s`. */
  function IndexOf<T(==)>(s: seq<T>, t: T): (k: nat)
    requires t in s
    ensures k < |s| && s[k] == t && t !in s[..k]
  {
    if s[0] == t then 0
    else
      var k := 1 + IndexOf(s[1..], t);
      assert s[..k] == [s[0]] + s[1..][..k - 1];
      k
  }

  /** `s` without its first occurrence of `t`; unchanged when `t` does not occur. */
  function RemoveFirst<T(==)>(s: seq<T>, t: T): (r: seq<T>)
  {
    if |s| == 0 then []
    else if s[0] == t then s[1..]
    else [s[0]] + RemoveFirst(s[1..], t)
  }

  /** `RemoveFirst` leaves a sequence without `t` as it is. */
  lemma {:induction false} RemoveFirstAbsent<T>(s: seq<T>, t: T)
    requires t !in s
    ensures RemoveFirst(s, t) == s
  {
    if |s| > 0 {
      assert s[0] != t;
      RemoveFirstAbsent(s[1..], t);
    }
  }

  /** `RemoveFirst` cuts out exactly the first occurrence, keeping the other entries in order. */
  lemma {:induction false} RemoveFirstCutsFirst<T>(s: seq<T>, t: T)
    requires t in s
    ensures RemoveFirst(s, t) == s[..IndexOf(s, t)] + s[IndexOf(s, t) + 1..]
  {
    if s[0] != t {
      var k := IndexOf(s, t);
      assert t in s[1..] by {
        assert s == [s[0]] + s[1..];
      }
      RemoveFirstCutsFirst(s[1..], t);
      assert IndexOf(s[1..], t) == k - 1;
      assert s[1..][..k - 1] == s[1..k];
      assert s[..k] == [s[0]] + s[1..k];
      assert s[1..][k..] == s[k + 1..];
    }
  }

  /** `RemoveFirst` takes one copy of `t` out of the multiset of entries. */
  lemma {:induction false} RemoveFirstMultiset<T>(s: seq<T>, t: T)
    ensures multiset(RemoveFirst(s, t)) == multiset(s) - multiset{t}
  {
    if |s| > 0 {
      RemoveFirstMultiset(s[1..], t);
      assert s == [s[0]] + s[1..];
    }
  }

  /**
    `remove`: deletes the first entry equal to `t`; a tuple that is not
    stored is a no-op, not an error.
   */
  function Remove<T(==)>(w: Window<T>, t: T): (w': Window<T>)
    ensures w'.capacity == w.capacity && w'.delay == w.delay
    ensures t !in w.entries ==> w' == w
    ensures t in w.entries ==>
              var k := IndexOf(w.entries, t);
              w'.entries == w.entries[..k] + w.entries[k + 1..]
    ensures multiset(w'.entries) == multiset(w.entries) - multiset{t}
  {
    if t in w.entries then
      RemoveFirstCutsFirst(w.entries, t);
      RemoveFirstMultiset(w.entries, t);
      w.(entries := RemoveFirst(w.entries, t))
    else
      RemoveFirstAbsent(w.entries, t);
      RemoveFirstMultiset(w.entries, t);
      w.(entries := RemoveFirst(w.entries, t))
  }
}
