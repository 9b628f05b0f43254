/** The abstract meaning of the sliding-window buffer: the sequence of values
    it holds, oldest first, and how one insertion changes it. The class in
    ring_buffer.dfy is proved to follow these functions. */
module Window {

  /** The last n elements of s (all of s when it is shorter), in order. */
  function LastN(s: seq<int>, n: nat): seq<int>
  {
    if |s| <= n then s else s[|s| - n..]
  }

  /** One insertion into a window of capacity cap: when full, the oldest
      element is dropped before the new one goes at the tail. */
  function Slide(w: seq<int>, e: int, cap: nat): (r: seq<int>)
    requires 1 <= cap && |w| <= cap
    ensures r == LastN(w + [e], cap)
    ensures |r| <= cap && r[|r| - 1] == e
  {
    if |w| == cap then w[1..] + [e] else w + [e]
  }

  /** Insert every element of xs, first to last. */
  function PushAll(w: seq<int>, xs: seq<int>, cap: nat): (r: seq<int>)
    requires 1 <= cap && |w| <= cap
    ensures |r| <= cap
    decreases |xs|
  {
    if xs == [] then w else PushAll(Slide(w, xs[0], cap), xs[1..], cap)
  }

  /** Keeping the last n elements early, then appending, then keeping the
      last n again, is the same as keeping the last n once at the end. */
  lemma LastNAppend(s: seq<int>, t: seq<int>, n: nat)
    ensures LastN(LastN(s, n) + t, n) == LastN(s + t, n)
  {
    var u := LastN(s, n);
    assert u + t == (s + t)[|s| - |u|..];
  }

  /** Sliding window: after any run of insertions, the buffer holds exactly
      the last cap values of what it held before followed by what was
      inserted, in arrival order. */
  lemma {:induction false} PushAllIsLastN(w: seq<int>, xs: seq<int>, cap: nat)
    requires 1 <= cap && |w| <= cap
    ensures PushAll(w, xs, cap) == LastN(w + xs, cap)
    decreases |xs|
  {
    if xs == [] {
      assert w + xs == w;
    } else {
      PushAllIsLastN(Slide(w, xs[0], cap), xs[1..], cap);
      PushAllStep(w, xs, cap);
    }
  }

  /** The induction step of PushAllIsLastN: sliding in the first value and
      keeping the last cap of the rest equals keeping the last cap of all. */
  lemma PushAllStep(w: seq<int>, xs: seq<int>, cap: nat)
    requires 1 <= cap && |w| <= cap && xs != []
    ensures LastN(Slide(w, xs[0], cap) + xs[1..], cap) == LastN(w + xs, cap)
  {
    LastNAppend(w + [xs[0]], xs[1..], cap);
    assert w + [xs[0]] + xs[1..] == w + xs;
  }

  /** The case that starts from an empty window. */
  lemma FromEmpty(xs: seq<int>, cap: nat)
    requires 1 <= cap
    ensures PushAll([], xs, cap) == LastN(xs, cap)
    ensures |xs| >= cap ==> |PushAll([], xs, cap)| == cap
  {
    PushAllIsLastN([], xs, cap);
    assert [] + xs == xs;
  }
}
