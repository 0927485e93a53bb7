/**
 * `collections.deque(maxlen=...)` as wifi.py uses it for the probe history:
 * appending to a full deque drops the oldest element.  `BoundedAppend` is
 * the specification; `BoundedDeque` is this model's representation of the
 * same bounded FIFO in place: a fixed array used as a ring buffer, so that
 * appending and evicting take constant time.
 */
module Deque {

  /** The last `n` elements of `s` (all of them when there are fewer). */
  function Newest<T>(s: seq<T>, n: nat): (r: seq<T>)
    ensures |r| == if |s| < n then |s| else n
  {
    if |s| <= n then s else s[|s| - n..]
  }

  /**
   * `deque.append(x)` on a deque holding `s` with `maxlen == cap`.  A deque
   * never holds more than `cap` elements, so at capacity this drops exactly
   * the oldest one; the definition keeps the newest `cap` of any `s`.
   */
  function BoundedAppend<T>(s: seq<T>, x: T, cap: nat): (r: seq<T>)
    requires 0 < cap
    ensures r == Newest(s + [x], cap)
  {
    if |s| < cap then s + [x] else s[|s| - cap + 1..] + [x]
  }

  /** Appending never exceeds the capacity, keeps the new element last and, when full, drops exactly the oldest one. */
  lemma BoundedAppendFacts<T>(s: seq<T>, x: T, cap: nat)
    requires 0 < cap && |s| <= cap
    ensures |BoundedAppend(s, x, cap)| == if |s| < cap then |s| + 1 else cap
    ensures BoundedAppend(s, x, cap)[|BoundedAppend(s, x, cap)| - 1] == x
    ensures |s| < cap ==> BoundedAppend(s, x, cap)[..|s|] == s
    ensures |s| == cap ==> BoundedAppend(s, x, cap)[..cap - 1] == s[1..]
  {
  }

  /** Appending every element of `xs` in turn. */
  function AppendAll<T>(s: seq<T>, xs: seq<T>, cap: nat): (r: seq<T>)
    requires 0 < cap && |s| <= cap
    ensures |r| <= cap
    decreases |xs|
  {
    if xs == [] then s else AppendAll(BoundedAppend(s, xs[0], cap), xs[1..], cap)
  }

  lemma NewestOfNewest<T>(t: seq<T>, u: seq<T>, n: nat)
    ensures Newest(Newest(t, n) + u, n) == Newest(t + u, n)
  {
    if |t| > n {
      var k := |t| - n;
      assert t + u == t[..k] + (t[k..] + u);
    }
  }

  /**
   * However many elements were appended, the deque holds exactly the newest
   * `cap` of everything ever appended, oldest first.
   */
  lemma {:induction false} AppendAllKeepsNewest<T>(s: seq<T>, xs: seq<T>, cap: nat)
    requires 0 < cap && |s| <= cap
    ensures AppendAll(s, xs, cap) == Newest(s + xs, cap)
    decreases |xs|
  {
    if xs == [] {
      assert s + xs == s;
    } else {
      var s' := BoundedAppend(s, xs[0], cap);
      AppendAllKeepsNewest(s', xs[1..], cap);
      NewestOfNewest(s + [xs[0]], xs[1..], cap);
      assert s + [xs[0]] + xs[1..] == s + xs;
    }
  }

  /** Appending one more element to a run of appends is one more bounded append. */
  lemma AppendAllSnoc<T>(s: seq<T>, xs: seq<T>, x: T, cap: nat)
    requires 0 < cap && |s| <= cap
    ensures AppendAll(s, xs + [x], cap) == BoundedAppend(AppendAll(s, xs, cap), x, cap)
  {
    AppendAllKeepsNewest(s, xs + [x], cap);
    AppendAllKeepsNewest(s, xs, cap);
    NewestOfNewest(s + xs, [x], cap);
    assert s + (xs + [x]) == (s + xs) + [x];
  }

  /** After `n` appends to an empty deque it holds `min(n, cap)` elements. */
  lemma LengthAfterAppends<T>(xs: seq<T>, cap: nat)
    requires 0 < cap
    ensures |AppendAll([], xs, cap)| == if |xs| < cap then |xs| else cap
  {
    AppendAllKeepsNewest([], xs, cap);
    assert [] + xs == xs;
  }

  /** Index in a ring of size `n` that is `k` places after `start`. */
  function Wrap(start: nat, k: nat, n: nat): nat
    requires start < n && k < n
  {
    if start + k < n then start + k else start + k - n
  }

  /** The `len` elements of ring buffer `a` that start at index `start`. */
  function Ring<T>(a: seq<T>, start: nat, len: nat): (r: seq<T>)
    requires start < |a| && len <= |a|
    ensures |r| == len
    ensures forall k :: 0 <= k < len ==> r[k] == a[Wrap(start, k, |a|)]
  {
    if start + len <= |a| then a[start..start + len] else a[start..] + a[..start + len - |a|]
  }

  /** Writing just past the end of a ring that is not full adds one element. */
  lemma RingPush<T>(a: seq<T>, start: nat, len: nat, x: T)
    requires start < |a| && len < |a|
    ensures Ring(a[Wrap(start, len, |a|) := x], start, len + 1) == Ring(a, start, len) + [x]
  {
    var a' := a[Wrap(start, len, |a|) := x];
    var r, r' := Ring(a, start, len), Ring(a', start, len + 1);
    forall k | 0 <= k < len + 1 ensures r'[k] == (r + [x])[k] {
      if k < len {
        assert Wrap(start, k, |a|) != Wrap(start, len, |a|);
      }
    }
  }

  /** The index after `start` in a ring of size `n`. */
  function Next(start: nat, n: nat): nat
    requires start < n
  {
    if start + 1 == n then 0 else start + 1
  }

  /** Overwriting the oldest element of a full ring and moving the start past it. */
  lemma RingOverwrite<T>(a: seq<T>, start: nat, x: T)
    requires start < |a|
    ensures Ring(a[start := x], Next(start, |a|), |a|) == Ring(a, start, |a|)[1..] + [x]
  {
    var n := |a|;
    var a' := a[start := x];
    var s' := Next(start, n);
    var r, r' := Ring(a, start, n), Ring(a', s', n);
    forall k | 0 <= k < n ensures r'[k] == (r[1..] + [x])[k] {
      var w := Wrap(s', k, n);
      if k < n - 1 {
        assert w == Wrap(start, k + 1, n) && w != start;
        assert r'[k] == a[w] == r[k + 1];
      } else {
        assert w == start;
      }
    }
  }

  class BoundedDeque<T(0)> {
    ghost var Contents: seq<T>
    ghost var Repr: set<object>

    const maxlen: nat
    var data: array<T>
    var start: nat
    var len: nat

    ghost predicate Valid()
      reads this, Repr
      ensures Valid() ==> this in Repr
    {
      this in Repr && data in Repr && data.Length == maxlen
      && 0 < maxlen && start < maxlen && len <= maxlen
      && Contents == Ring(data[..], start, len)
    }

    constructor (maxlen: nat)
      requires 0 < maxlen
      ensures Valid() && fresh(Repr)
      ensures Contents == [] && this.maxlen == maxlen
    {
      this.maxlen := maxlen;
      data := new T[maxlen];
      start, len := 0, 0;
      Contents := [];
      Repr := {this, data};
    }

    /** `append(x)`: when the deque is full, the oldest element is overwritten. */
    method Append(x: T)
      requires Valid()
      modifies Repr
      ensures Valid() && Repr == old(Repr)
      ensures Contents == BoundedAppend(old(Contents), x, maxlen)
    {
      if len < maxlen {
        RingPush(data[..], start, len, x);
        data[Wrap(start, len, maxlen)] := x;
        len := len + 1;
      } else {
        RingOverwrite(data[..], start, x);
        data[start] := x;
        start := Next(start, maxlen);
      }
      Contents := BoundedAppend(Contents, x, maxlen);
    }
  }
}
