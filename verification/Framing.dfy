/**
 The framing policy, stated once: bytes are taken one at a time into an open frame, which
 closes the moment it reaches the maximum, and at the end of a group when it has reached
 the minimum. Both compression paths are proved to produce these frames.
 */
module Framing {
  import opened Basics

  /** `-s` and `-S` after `compressFile()` has clamped them. */
  datatype Limits = Limits(min: nat, max: nat) {
    predicate Valid() { min <= max && 1 <= max <= MAX_FRAME_SIZE }
  }

  /** Frames closed so far, and the bytes of the open one ([] if none is). */
  datatype Framer = Framer(closed: seq<Bytes>, open: Bytes)

  const EMPTY := Framer([], [])

  function Take(st: Framer, b: Byte, max: nat): Framer
  {
    var open := st.open + [b];
    if |open| >= max then Framer(st.closed + [open], []) else Framer(st.closed, open)
  }

  function Feed(st: Framer, bytes: Bytes, max: nat): Framer
    decreases |bytes|
  {
    if bytes == [] then st else Feed(Take(st, bytes[0], max), bytes[1..], max)
  }

  /** Closes the open frame if it holds anything and has reached the minimum. */
  function EndGroup(st: Framer, min: nat): Framer
  {
    if st.open != [] && |st.open| >= min then Framer(st.closed + [st.open], []) else st
  }

  /** The frames once the input has ended. */
  function Finish(st: Framer): seq<Bytes>
  {
    if st.open != [] then st.closed + [st.open] else st.closed
  }

  /** The fold: every group in turn, each followed by a chance to close. */
  function FoldGroups(st: Framer, groups: seq<Bytes>, lim: Limits): Framer
    decreases |groups|
  {
    if groups == [] then st
    else FoldGroups(EndGroup(Feed(st, groups[0], lim.max), lim.min), groups[1..], lim)
  }

  /** A piece of the input, and whether it belongs in the frame of the piece after it. */
  datatype Element = Element(bytes: Bytes, joins: bool)

  /** Each element that joins the next one is put together with it. */
  function Groups(es: seq<Element>): (groups: seq<Bytes>)
    ensures es == [] <==> groups == []
    decreases |es|
  {
    if es == [] then []
    else
      var rest := Groups(es[1..]);
      if es[0].joins && rest != [] then [es[0].bytes + rest[0]] + rest[1..]
      else [es[0].bytes] + rest
  }

  /** The frames of a list of elements. */
  function FramesOf(es: seq<Element>, lim: Limits): seq<Bytes>
  {
    Finish(FoldGroups(EMPTY, Groups(es), lim))
  }

  // --- Feeding ---

  lemma FeedNothing(st: Framer, max: nat)
    ensures Feed(st, [], max) == st
  {}

  lemma {:induction false} FeedConcat(st: Framer, a: Bytes, b: Bytes, max: nat)
    ensures Feed(st, a + b, max) == Feed(Feed(st, a, max), b, max)
    decreases |a|
  {
    if a == [] {
      assert a + b == b;
    } else {
      assert (a + b)[1..] == a[1..] + b;
      FeedConcat(Take(st, a[0], max), a[1..], b, max);
    }
  }

  /** Below the maximum a frame only grows; reaching it exactly closes it. */
  lemma {:induction false} FeedChunk(st: Framer, a: Bytes, max: nat)
    requires a != [] && |st.open| + |a| <= max
    ensures |st.open| + |a| < max ==> Feed(st, a, max) == Framer(st.closed, st.open + a)
    ensures |st.open| + |a| == max ==> Feed(st, a, max) == Framer(st.closed + [st.open + a], [])
    decreases |a|
  {
    var next := Take(st, a[0], max);
    if |a| == 1 {
      assert a == [a[0]] && a[1..] == [];
      assert Feed(next, a[1..], max) == next;
    } else {
      assert next.open + a[1..] == st.open + a;
      FeedChunk(next, a[1..], max);
    }
  }

  /** The first `max` bytes fed to no open frame are a frame. */
  lemma FeedFull(closed: seq<Bytes>, a: Bytes, max: nat)
    requires 1 <= max <= |a|
    ensures Feed(Framer(closed, []), a, max) == Feed(Framer(closed + [a[..max]], []), a[max..], max)
  {
    FeedChunk(Framer(closed, []), a[..max], max);
    assert a == a[..max] + a[max..];
    FeedConcat(Framer(closed, []), a[..max], a[max..], max);
    assert [] + a[..max] == a[..max];
  }

  lemma FeedShort(closed: seq<Bytes>, a: Bytes, max: nat)
    requires |a| < max
    ensures Feed(Framer(closed, []), a, max) == Framer(closed, a)
  {
    if a != [] {
      FeedChunk(Framer(closed, []), a, max);
      assert [] + a == a;
    }
  }

  /** Without a minimum, groups that do not exceed the maximum are the frames. */
  lemma {:induction false} GroupsAreFrames(closed: seq<Bytes>, groups: seq<Bytes>, lim: Limits)
    requires lim.min == 0 && forall g | g in groups :: 0 < |g| <= lim.max
    ensures Finish(FoldGroups(Framer(closed, []), groups, lim)) == closed + groups
    decreases |groups|
  {
    if groups != [] {
      var g := groups[0];
      assert g in groups;
      FeedChunk(Framer(closed, []), g, lim.max);
      assert [] + g == g;
      GroupsAreFrames(closed + [g], groups[1..], lim);
      assert closed + [g] + groups[1..] == closed + groups;
    }
  }

  // --- Elements against groups ---

  /** What the end of an element does: nothing if the element joins the next one. */
  function Settle(st: Framer, joins: bool, min: nat): Framer
  {
    if joins then st else EndGroup(st, min)
  }

  function FoldElements(st: Framer, es: seq<Element>, lim: Limits): Framer
    decreases |es|
  {
    if es == [] then st
    else FoldElements(Settle(Feed(st, es[0].bytes, lim.max), es[0].joins, lim.min), es[1..], lim)
  }

  /** Deciding at every element gives the frames of deciding at every group. */
  lemma {:induction false} ElementsAsGroups(st: Framer, es: seq<Element>, lim: Limits)
    ensures Finish(FoldElements(st, es, lim)) == Finish(FoldGroups(st, Groups(es), lim))
    decreases |es|
  {
    if es != [] {
      var e, rest := es[0], Groups(es[1..]);
      var fed := Feed(st, e.bytes, lim.max);
      ElementsAsGroups(Settle(fed, e.joins, lim.min), es[1..], lim);
      if e.joins && rest != [] {
        FeedConcat(st, e.bytes, rest[0], lim.max);
        assert Groups(es)[1..] == rest[1..];
      } else {
        assert Groups(es)[1..] == rest;
        if e.joins {
          assert es[1..] == [];
        }
      }
    }
  }
}
