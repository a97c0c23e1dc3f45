/**
 Ring buffers: the elements from a tail index on, going round.
 */
module Rings {
  /** Index i places after t in a ring of n. */
  function RingSlot(t: nat, i: nat, n: nat): (r: nat)
    requires t < n && i <= n
    ensures r < n
  {
    if t + i < n then t + i else t + i - n
  }

  lemma Increment(x: nat, n: nat)
    requires x < n
    ensures (x + 1) % n == RingSlot(x, 1, n)
  {
    if x + 1 == n {
      assert n % n == 0;
    }
  }

  /** The c elements of a ring from t on. */
  function Window<T>(s: seq<T>, t: nat, c: nat): (w: seq<T>)
    requires c <= |s| && (s != [] ==> t < |s|)
    ensures |w| == c
  {
    seq(c, i requires 0 <= i < c => s[RingSlot(t, i, |s|)])
  }

  lemma WindowPush<T>(s: seq<T>, t: nat, c: nat, e: T)
    requires c < |s| && t < |s|
    ensures Window(s[RingSlot(t, c, |s|) := e], t, c + 1) == Window(s, t, c) + [e]
  {
  }

  lemma WindowPop<T>(s: seq<T>, t: nat, c: nat)
    requires 0 < c <= |s| && t < |s|
    ensures Window(s, t, c) == [s[t]] + Window(s, RingSlot(t, 1, |s|), c - 1)
  {
  }

  /** Elements between tail and head of a ring that always keeps one slot free. */
  function Filled(head: nat, tail: nat, n: nat): (c: nat)
    requires head < n && tail < n
    ensures c < n && RingSlot(tail, c, n) == head
  {
    if head >= tail then head - tail else head + n - tail
  }
}
