/**
 The undo history: a double-ended queue with a maximum length. Appending to a full
 queue silently discards the oldest entry; popping takes the newest one.
 */
module History {

  /** The last `n` elements of `s` (all of `s` when it is shorter): what a queue of
      maximum length `n` keeps after the elements of `s` were appended in order. */
  function LastN<T>(s: seq<T>, n: nat): (r: seq<T>)
    ensures |r| == if |s| <= n then |s| else n
    ensures forall k :: 0 <= k < |r| ==> r[k] == s[|s| - |r| + k]
  {
    if |s| <= n then s else s[|s| - n..]
  }

  /** The newest element. */
  function Newest<T>(s: seq<T>): T
    requires s != []
  {
    s[|s| - 1]
  }

  /** Everything but the newest element. */
  function WithoutNewest<T>(s: seq<T>): seq<T>
    requires s != []
  {
    s[..|s| - 1]
  }

  /** The queue `h` after appending each element of `xs` in turn. */
  function AppendAll<T>(h: seq<T>, xs: seq<T>, n: nat): seq<T>
    decreases |xs|
  {
    if xs == [] then h else AppendAll(LastN(h + [xs[0]], n), xs[1..], n)
  }

  class BoundedDeque<T> {
    /** Oldest first, newest last. */
    var items: seq<T>
    const maxlen: nat

    ghost predicate Valid()
      reads this
    {
      |items| <= maxlen
    }

    constructor (maxlen: nat)
      ensures Valid() && this.maxlen == maxlen && items == []
    {
      this.maxlen := maxlen;
      items := [];
    }

    /** Adds `x` as the newest entry, first dropping the oldest when the queue is full. */
    method Append(x: T)
      requires Valid()
      modifies this
      ensures Valid()
      ensures items == LastN(old(items) + [x], maxlen)
    {
      if |items| < maxlen {
        items := items + [x];
      } else if maxlen > 0 {
        items := items[1..] + [x];
      }
    }

    /** Removes and returns the newest entry. */
    method Pop() returns (x: T)
      requires Valid() && items != []
      modifies this
      ensures Valid()
      ensures x == Newest(old(items)) && items == WithoutNewest(old(items))
    {
      x := items[|items| - 1];
      items := items[..|items| - 1];
    }
  }

  // ---------------------------------------------------------------------------
  // Properties of appending and popping
  // ---------------------------------------------------------------------------

  /** Appending never takes the queue past its maximum length, and the appended element
      is the newest one (unless the maximum length is 0, when nothing is kept). */
  lemma AppendBounded<T>(h: seq<T>, x: T, n: nat)
    ensures |LastN(h + [x], n)| <= n
    ensures n > 0 ==> LastN(h + [x], n) != [] && Newest(LastN(h + [x], n)) == x
  {
  }

  /** Below the maximum length, appending only adds `x` at the end. */
  lemma AppendBelowLimit<T>(h: seq<T>, x: T, n: nat)
    requires |h| < n
    ensures LastN(h + [x], n) == h + [x]
  {
  }

  /** At the maximum length, appending drops exactly the oldest entry, keeps the others
      in order, and puts `x` last. */
  lemma AppendAtLimit<T>(h: seq<T>, x: T, n: nat)
    requires |h| == n > 0
    ensures LastN(h + [x], n) == h[1..] + [x]
  {
  }

  /** A pop right after an append returns the appended element and leaves what the
      queue would hold had its maximum length been one less. */
  lemma PopUndoesAppend<T>(h: seq<T>, x: T, n: nat)
    requires n > 0
    ensures LastN(h + [x], n) != []
    ensures Newest(LastN(h + [x], n)) == x
    ensures WithoutNewest(LastN(h + [x], n)) == LastN(h, n - 1)
  {
  }

  /** Truncating before further appends loses nothing that the final truncation keeps. */
  lemma LastNAbsorbs<T>(s: seq<T>, t: seq<T>, n: nat)
    ensures LastN(LastN(s, n) + t, n) == LastN(s + t, n)
  {
  }

  /** Appending elements one at a time keeps exactly the newest `n` of all that was
      appended, in order. */
  lemma {:induction false} AppendAllKeepsNewest<T>(h: seq<T>, xs: seq<T>, n: nat)
    requires |h| <= n
    ensures AppendAll(h, xs, n) == LastN(h + xs, n)
    decreases |xs|
  {
    if xs != [] {
      var s := h + [xs[0]];
      calc {
        AppendAll(h, xs, n);
        AppendAll(LastN(s, n), xs[1..], n);
        { AppendAllKeepsNewest(LastN(s, n), xs[1..], n); }
        LastN(LastN(s, n) + xs[1..], n);
        { LastNAbsorbs(s, xs[1..], n); }
        LastN(s + xs[1..], n);
        { assert s + xs[1..] == h + xs; }
        LastN(h + xs, n);
      }
    }
  }

  /** Appending 101 entries to an empty queue of maximum length 100 leaves the last 100,
      the first one evicted. */
  lemma HundredAndOneAppends<T>(xs: seq<T>)
    requires |xs| == 101
    ensures AppendAll([], xs, 100) == xs[1..]
    ensures |AppendAll([], xs, 100)| == 100
  {
    AppendAllKeepsNewest([], xs, 100);
    assert [] + xs == xs;
  }

  /** After three appends to a roomy queue, a pop returns the third element. */
  lemma PopAfterThreeAppends<T>(a: T, b: T, c: T, n: nat)
    requires n >= 3
    ensures AppendAll([], [a, b, c], n) == [a, b, c]
    ensures Newest(AppendAll([], [a, b, c], n)) == c
  {
    AppendAllKeepsNewest([], [a, b, c], n);
    assert [] + [a, b, c] == [a, b, c];
  }
}
