/**
 What the frames look like, without saying how they are found: the frames of the fold
 are the only ones that satisfy `IsFraming`.
 */
module FrameShape {
  import opened Basics
  import opened Framing

  /** Where frame `k` starts in the input. */
  ghost function Start(fs: seq<Bytes>, k: nat): nat
    requires k <= |fs|
  {
    |Flatten(fs[..k])|
  }

  /** The positions of the input at which a group ends. */
  ghost function Ends(groups: seq<Bytes>): set<nat>
  {
    if groups == [] then {} else Ends(groups[..|groups| - 1]) + {|Flatten(groups)|}
  }

  /** A frame of `n` bytes at `s`: not empty, not over the maximum, and not passing over
      the end of a group at which it could have closed. */
  ghost predicate FrameFits(s: nat, n: nat, ends: set<nat>, lim: Limits)
  {
    && 0 < n <= lim.max
    && forall p | p in ends && s < p < s + n :: p - s < lim.min
  }

  /** Such a frame is closed for a reason: it is full, or ends a group at the minimum or above. */
  ghost predicate FrameDone(s: nat, n: nat, ends: set<nat>, lim: Limits)
  {
    n == lim.max || (n >= lim.min && s + n in ends)
  }

  /** The frames hold the input, and every one but the last is closed for a reason. */
  ghost predicate IsFraming(fs: seq<Bytes>, input: Bytes, ends: set<nat>, lim: Limits)
  {
    && Flatten(fs) == input
    && (forall k | 0 <= k < |fs| :: FrameFits(Start(fs, k), |fs[k]|, ends, lim))
    && (forall k | 0 <= k < |fs| - 1 :: FrameDone(Start(fs, k), |fs[k]|, ends, lim))
  }

  // --- The fold satisfies the description ---

  /** The closed frames of a fold: all of them fit, and are closed for a reason. */
  ghost predicate ClosedSound(closed: seq<Bytes>, ends: set<nat>, lim: Limits)
    decreases |closed|
  {
    closed == [] ||
    (var init, last := closed[..|closed| - 1], closed[|closed| - 1];
     && ClosedSound(init, ends, lim)
     && FrameFits(|Flatten(init)|, |last|, ends, lim)
     && FrameDone(|Flatten(init)|, |last|, ends, lim))
  }

  /** The description of a fold that has taken the bytes `fed`, with group ends at `ends`. */
  ghost predicate Sound(st: Framer, fed: Bytes, ends: set<nat>, lim: Limits)
  {
    && Flatten(st.closed) + st.open == fed
    && |st.open| < lim.max
    && (forall p | p in ends :: p <= |fed|)
    && ClosedSound(st.closed, ends, lim)
    && (forall p | p in ends && p > |Flatten(st.closed)| :: p - |Flatten(st.closed)| < lim.min)
  }

  lemma {:induction false} StartWithin(fs: seq<Bytes>, k: nat)
    requires k < |fs|
    ensures Start(fs, k) + |fs[k]| == Start(fs, k + 1) <= |Flatten(fs)|
    ensures Flatten(fs)[Start(fs, k)..Start(fs, k) + |fs[k]|] == fs[k]
  {
    assert fs[..k + 1] == fs[..k] + [fs[k]];
    FlattenSnoc(fs[..k], fs[k]);
    assert fs == fs[..k + 1] + fs[k + 1..];
    FlattenConcat(fs[..k + 1], fs[k + 1..]);
  }

  lemma ClosedSoundSnoc(closed: seq<Bytes>, open: Bytes, ends: set<nat>, lim: Limits)
    requires ClosedSound(closed, ends, lim)
    requires FrameFits(|Flatten(closed)|, |open|, ends, lim)
    requires FrameDone(|Flatten(closed)|, |open|, ends, lim)
    ensures ClosedSound(closed + [open], ends, lim)
  {
    assert (closed + [open])[..|closed|] == closed;
  }

  lemma {:induction false} ClosedSoundAt(closed: seq<Bytes>, ends: set<nat>, lim: Limits, k: nat)
    requires ClosedSound(closed, ends, lim) && k < |closed|
    ensures FrameFits(Start(closed, k), |closed[k]|, ends, lim)
    ensures FrameDone(Start(closed, k), |closed[k]|, ends, lim)
    decreases |closed|
  {
    var init := closed[..|closed| - 1];
    if k < |init| {
      ClosedSoundAt(init, ends, lim, k);
      assert init[..k] == closed[..k];
    }
  }

  lemma TakeSound(st: Framer, fed: Bytes, b: Byte, ends: set<nat>, lim: Limits)
    requires lim.Valid() && Sound(st, fed, ends, lim)
    ensures Sound(Take(st, b, lim.max), fed + [b], ends, lim)
  {
    var open := st.open + [b];
    assert Flatten(st.closed) + open == fed + [b];
    if |open| >= lim.max {
      ClosedSoundSnoc(st.closed, open, ends, lim);
      FlattenSnoc(st.closed, open);
    }
  }

  lemma {:induction false} FeedSound(st: Framer, fed: Bytes, bytes: Bytes, ends: set<nat>, lim: Limits)
    requires lim.Valid() && Sound(st, fed, ends, lim)
    ensures Sound(Feed(st, bytes, lim.max), fed + bytes, ends, lim)
    decreases |bytes|
  {
    if bytes == [] {
      assert fed + bytes == fed;
    } else {
      assert fed + bytes == fed + [bytes[0]] + bytes[1..];
      TakeSound(st, fed, bytes[0], ends, lim);
      FeedSound(Take(st, bytes[0], lim.max), fed + [bytes[0]], bytes[1..], ends, lim);
    }
  }

  /** Group ends past all closed frames do not change what is said of them. */
  lemma {:induction false} ClosedSoundEnd(closed: seq<Bytes>, ends: set<nat>, p: nat, lim: Limits)
    requires ClosedSound(closed, ends, lim) && p >= |Flatten(closed)|
    ensures ClosedSound(closed, ends + {p}, lim)
    decreases |closed|
  {
    if closed != [] {
      ClosedSoundEnd(closed[..|closed| - 1], ends, p, lim);
    }
  }

  lemma EndSound(st: Framer, fed: Bytes, ends: set<nat>, lim: Limits)
    requires lim.Valid() && Sound(st, fed, ends, lim)
    ensures Sound(EndGroup(st, lim.min), fed, ends + {|fed|}, lim)
  {
    ClosedSoundEnd(st.closed, ends, |fed|, lim);
    if st.open != [] && |st.open| >= lim.min {
      ClosedSoundSnoc(st.closed, st.open, ends + {|fed|}, lim);
      FlattenSnoc(st.closed, st.open);
    }
  }

  lemma {:induction false} FoldSnoc(st: Framer, groups: seq<Bytes>, last: Bytes, lim: Limits)
    ensures FoldGroups(st, groups + [last], lim)
            == EndGroup(Feed(FoldGroups(st, groups, lim), last, lim.max), lim.min)
    decreases |groups|
  {
    if groups == [] {
      assert groups + [last] == [last];
    } else {
      assert (groups + [last])[1..] == groups[1..] + [last];
      FoldSnoc(EndGroup(Feed(st, groups[0], lim.max), lim.min), groups[1..], last, lim);
    }
  }

  lemma {:induction false} FoldSound(groups: seq<Bytes>, lim: Limits)
    requires lim.Valid()
    ensures Sound(FoldGroups(EMPTY, groups, lim), Flatten(groups), Ends(groups), lim)
    decreases |groups|
  {
    if groups != [] {
      var init, last := groups[..|groups| - 1], groups[|groups| - 1];
      var st := FoldGroups(EMPTY, init, lim);
      FoldSound(init, lim);
      FeedSound(st, Flatten(init), last, Ends(init), lim);
      EndSound(Feed(st, last, lim.max), Flatten(groups), Ends(init), lim);
      assert groups == init + [last];
      FoldSnoc(EMPTY, init, last, lim);
    }
  }

  /** The frames of the fold satisfy the description. */
  lemma FoldIsFraming(groups: seq<Bytes>, lim: Limits)
    requires lim.Valid()
    ensures IsFraming(Finish(FoldGroups(EMPTY, groups, lim)), Flatten(groups), Ends(groups), lim)
  {
    var st := FoldGroups(EMPTY, groups, lim);
    FoldSound(groups, lim);
    FinishIsFraming(st, Flatten(groups), Ends(groups), lim);
  }

  lemma FinishIsFraming(st: Framer, fed: Bytes, ends: set<nat>, lim: Limits)
    requires Sound(st, fed, ends, lim)
    ensures IsFraming(Finish(st), fed, ends, lim)
  {
    var fs := Finish(st);
    FlattenSnoc(st.closed, st.open);
    forall k | 0 <= k < |fs|
      ensures FrameFits(Start(fs, k), |fs[k]|, ends, lim)
      ensures k < |fs| - 1 ==> FrameDone(Start(fs, k), |fs[k]|, ends, lim)
    {
      FinishedAt(st, fed, ends, lim, k);
    }
  }

  lemma FinishedAt(st: Framer, fed: Bytes, ends: set<nat>, lim: Limits, k: nat)
    requires Sound(st, fed, ends, lim) && k < |Finish(st)|
    ensures FrameFits(Start(Finish(st), k), |Finish(st)[k]|, ends, lim)
    ensures k < |Finish(st)| - 1 ==> FrameDone(Start(Finish(st), k), |Finish(st)[k]|, ends, lim)
  {
    assert Finish(st)[..k] == st.closed[..k];
    if k < |st.closed| {
      ClosedSoundAt(st.closed, ends, lim, k);
    } else {
      assert st.closed[..k] == st.closed;
    }
  }

  // --- Nothing else does ---

  /** Two descriptions of the same input agree on every frame they both have. */
  lemma {:induction false} SameFrames(fs: seq<Bytes>, gs: seq<Bytes>, input: Bytes, ends: set<nat>, lim: Limits, k: nat)
    requires IsFraming(fs, input, ends, lim) && IsFraming(gs, input, ends, lim)
    requires k <= |fs| && k <= |gs|
    ensures fs[..k] == gs[..k]
    decreases k
  {
    if k > 0 {
      SameFrames(fs, gs, input, ends, lim, k - 1);
      SameLength(fs, gs, input, ends, lim, k - 1);
      SameLength(gs, fs, input, ends, lim, k - 1);
      SameNext(fs, gs, k - 1);
    }
  }

  lemma SameNext(fs: seq<Bytes>, gs: seq<Bytes>, j: nat)
    requires j < |fs| && j < |gs| && fs[..j] == gs[..j] && |fs[j]| == |gs[j]|
    requires Flatten(fs) == Flatten(gs)
    ensures fs[..j + 1] == gs[..j + 1]
  {
    StartWithin(fs, j);
    StartWithin(gs, j);
    assert fs[..j + 1] == fs[..j] + [fs[j]] && gs[..j + 1] == gs[..j] + [gs[j]];
  }

  lemma SameLength(fs: seq<Bytes>, gs: seq<Bytes>, input: Bytes, ends: set<nat>, lim: Limits, j: nat)
    requires IsFraming(fs, input, ends, lim) && IsFraming(gs, input, ends, lim)
    requires j < |fs| && j < |gs| && fs[..j] == gs[..j]
    ensures |fs[j]| >= |gs[j]|
  {
    StartWithin(fs, j);
    StartWithin(gs, j);
    if j == |fs| - 1 {
      assert fs[..j + 1] == fs;
    }
  }

  /** The frames of the fold, described without the fold: `IsFraming` holds of them and of
      no other list of frames. */
  lemma FramingIsUnique(fs: seq<Bytes>, groups: seq<Bytes>, lim: Limits)
    requires lim.Valid()
    ensures IsFraming(fs, Flatten(groups), Ends(groups), lim)
            <==> fs == Finish(FoldGroups(EMPTY, groups, lim))
  {
    var gs := Finish(FoldGroups(EMPTY, groups, lim));
    var input, ends := Flatten(groups), Ends(groups);
    FoldIsFraming(groups, lim);
    if IsFraming(fs, input, ends, lim) {
      var n := Min(|fs|, |gs|);
      SameFrames(fs, gs, input, ends, lim, n);
      NoMoreFrames(fs, gs, input, ends, lim);
      NoMoreFrames(gs, fs, input, ends, lim);
      assert fs[..n] == fs && gs[..n] == gs;
    }
  }

  lemma NoMoreFrames(fs: seq<Bytes>, gs: seq<Bytes>, input: Bytes, ends: set<nat>, lim: Limits)
    requires IsFraming(fs, input, ends, lim) && IsFraming(gs, input, ends, lim)
    ensures |fs| >= |gs|
  {
    if |fs| < |gs| {
      SameFrames(fs, gs, input, ends, lim, |fs|);
      assert fs[..|fs|] == fs;
      StartWithin(gs, |fs|);
    }
  }

  // --- What a framing looks like ---

  /** The shape of one frame out of many. */
  ghost predicate ShapeAt(fs: seq<Bytes>, ends: set<nat>, lim: Limits, k: nat)
    requires k < |fs|
  {
    && 0 < |fs[k]| <= lim.max
    && (k < |fs| - 1 ==>
          && |fs[k]| >= lim.min
          && (|fs[k]| == lim.max || Start(fs, k) + |fs[k]| in ends)
          && (lim.min == lim.max ==> |fs[k]| == lim.max))
  }

  lemma FramingShape(fs: seq<Bytes>, input: Bytes, ends: set<nat>, lim: Limits)
    requires lim.Valid() && IsFraming(fs, input, ends, lim)
    ensures forall k | 0 <= k < |fs| :: ShapeAt(fs, ends, lim, k)
  {
    forall k | 0 <= k < |fs|
      ensures ShapeAt(fs, ends, lim, k)
    {
      assert FrameFits(Start(fs, k), |fs[k]|, ends, lim);
      if k < |fs| - 1 {
        assert FrameDone(Start(fs, k), |fs[k]|, ends, lim);
      }
    }
  }
}
