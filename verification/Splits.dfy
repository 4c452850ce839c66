/** When no group, and so no file, is split: exactly, and two archives in which one is split without `-S`. */
module Splits {
  import opened Basics
  import opened TarHeader
  import opened Framing
  import opened FrameShape
  import opened Elements
  import opened TarFrames
  import opened Samples

  /** What is left open after a group of `n` bytes that fits. */
  function OpenAfter(open: nat, n: nat, lim: Limits): nat
  {
    if open + n >= lim.min then 0 else open + n
  }

  /** Every group fits into what the groups before it have left open of a frame. */
  predicate Fits(open: nat, groups: seq<Bytes>, lim: Limits)
    decreases |groups|
  {
    groups == [] ||
    (&& open + |groups[0]| <= lim.max
     && Fits(OpenAfter(open, |groups[0]|, lim), groups[1..], lim))
  }

  /** How much is open after all of them. */
  function Open(open: nat, groups: seq<Bytes>, lim: Limits): nat
    decreases |groups|
  {
    if groups == [] then open else Open(OpenAfter(open, |groups[0]|, lim), groups[1..], lim)
  }

  lemma {:induction false} FitsSnoc(open: nat, groups: seq<Bytes>, last: Bytes, lim: Limits)
    ensures Fits(open, groups + [last], lim)
            <==> Fits(open, groups, lim) && Open(open, groups, lim) + |last| <= lim.max
    ensures Open(open, groups + [last], lim) == OpenAfter(Open(open, groups, lim), |last|, lim)
    decreases |groups|
  {
    if groups == [] {
      assert [] + [last] == [last] && [last][1..] == [];
    } else {
      assert (groups + [last])[1..] == groups[1..] + [last];
      FitsSnoc(OpenAfter(open, |groups[0]|, lim), groups[1..], last, lim);
    }
  }

  // --- Frames that end where a group ends ---

  ghost predicate EndAtGroups(fs: seq<Bytes>, ends: set<nat>)
    decreases |fs|
  {
    fs == [] || (EndAtGroups(fs[..|fs| - 1], ends) && |Flatten(fs)| in ends)
  }

  lemma EndSnoc(fs: seq<Bytes>, last: Bytes, ends: set<nat>)
    ensures EndAtGroups(fs + [last], ends) <==> EndAtGroups(fs, ends) && |Flatten(fs)| + |last| in ends
  {
    assert (fs + [last])[..|fs|] == fs;
    FlattenSnoc(fs, last);
  }

  lemma SameStart(fs: seq<Bytes>, n: nat, k: nat)
    requires k < n <= |fs|
    ensures Start(fs[..n], k) == Start(fs, k)
  {
    assert fs[..n][..k] == fs[..k];
  }

  lemma LastFrame(fs: seq<Bytes>)
    requires fs != []
    ensures Start(fs, |fs| - 1) + |fs[|fs| - 1]| == |Flatten(fs)|
  {}

  lemma {:induction false} EndsEach(fs: seq<Bytes>, ends: set<nat>)
    ensures EndAtGroups(fs, ends) <==> forall k | 0 <= k < |fs| :: Start(fs, k) + |fs[k]| in ends
    decreases |fs|
  {
    hide Start, Flatten;
    if fs != [] {
      var n := |fs| - 1;
      EndsEach(fs[..n], ends);
      LastFrame(fs);
      forall k | 0 <= k < n
        ensures Start(fs[..n], k) == Start(fs, k) && fs[..n][k] == fs[k]
      {
        SameStart(fs, n, k);
      }
    }
  }

  /** A later group end is not the end of an earlier frame, unless an earlier group ends there too. */
  lemma {:induction false} LaterEnd(fs: seq<Bytes>, ends: set<nat>, at: nat, p: nat)
    requires |Flatten(fs)| <= at <= p && at in ends
    ensures EndAtGroups(fs, ends + {p}) <==> EndAtGroups(fs, ends)
    decreases |fs|
  {
    if fs != [] {
      LaterEnd(fs[..|fs| - 1], ends, at, p);
    }
  }

  lemma {:induction false} EndsOfSome(fs: seq<Bytes>, more: seq<Bytes>, ends: set<nat>)
    requires EndAtGroups(fs + more, ends)
    ensures EndAtGroups(fs, ends)
    decreases |more|
  {
    if more == [] {
      assert fs + more == fs;
    } else {
      var init, last := more[..|more| - 1], more[|more| - 1];
      assert fs + more == (fs + init) + [last];
      EndSnoc(fs + init, last, ends);
      EndsOfSome(fs, init, ends);
    }
  }

  lemma {:induction false} FeedKeeps(st: Framer, bytes: Bytes, max: nat) returns (more: seq<Bytes>)
    ensures Feed(st, bytes, max).closed == st.closed + more
    decreases |bytes|
  {
    if bytes == [] {
      more := [];
    } else {
      more := FeedKeeps(Take(st, bytes[0], max), bytes[1..], max);
      if |st.open| + 1 >= max {
        more := [st.open + [bytes[0]]] + more;
      }
    }
  }

  /** The end of a group changes nothing in the frames that are closed; it may close one more. */
  lemma EndGroupKeeps(st: Framer, bytes: Bytes, lim: Limits) returns (more: seq<Bytes>)
    ensures EndGroup(Feed(st, bytes, lim.max), lim.min).closed == st.closed + more
  {
    more := FeedKeeps(st, bytes, lim.max);
    var fed := Feed(st, bytes, lim.max);
    if fed.open != [] && |fed.open| >= lim.min {
      assert fed.closed + [fed.open] == st.closed + (more + [fed.open]);
      more := more + [fed.open];
    }
  }

  // --- The fold splits exactly the groups that do not fit ---

  lemma GroupThatFits(st: Framer, g: Bytes, ends: set<nat>, lim: Limits)
    requires lim.Valid() && |st.open| < lim.max && |st.open| + |g| <= lim.max
    requires EndAtGroups(st.closed, ends) && |Flatten(st.closed)| + |st.open| + |g| in ends
    ensures var st' := EndGroup(Feed(st, g, lim.max), lim.min);
            EndAtGroups(st'.closed, ends) && |st'.open| == OpenAfter(|st.open|, |g|, lim)
  {
    hide EndAtGroups, Flatten, Feed;
    var open := st.open + g;
    EndSnoc(st.closed, open, ends);
    if g == [] {
      assert open == st.open;
      FeedNothing(st, lim.max);
    } else {
      FeedChunk(st, g, lim.max);
    }
  }

  /** A group that does not fit is cut where the frame is full, and no group ends there. */
  lemma GroupThatDoesNot(st: Framer, g: Bytes, fed: nat, ends: set<nat>, lim: Limits)
    requires lim.Valid() && |st.open| < lim.max < |st.open| + |g|
    requires fed == |Flatten(st.closed)| + |st.open|
    requires forall p | p in ends :: p <= fed
    ensures !EndAtGroups(EndGroup(Feed(st, g, lim.max), lim.min).closed, ends + {fed + |g|})
  {
    var room := lim.max - |st.open|;
    var full := st.open + g[..room];
    var st' := Framer(st.closed + [full], []);
    FeedChunk(st, g[..room], lim.max);
    assert g == g[..room] + g[room..];
    FeedConcat(st, g[..room], g[room..], lim.max);
    EndSnoc(st.closed, full, ends + {fed + |g|});
    assert !EndAtGroups(st'.closed, ends + {fed + |g|});
    var more := EndGroupKeeps(st', g[room..], lim);
    if EndAtGroups(st'.closed + more, ends + {fed + |g|}) {
      EndsOfSome(st'.closed, more, ends + {fed + |g|});
    }
  }

  lemma {:induction false} FoldFits(groups: seq<Bytes>, lim: Limits)
    requires lim.Valid()
    ensures var st := FoldGroups(EMPTY, groups, lim);
            if Fits(0, groups, lim)
            then EndAtGroups(st.closed, Ends(groups)) && |st.open| == Open(0, groups, lim)
            else !EndAtGroups(st.closed, Ends(groups))
    decreases |groups|
  {
    hide Feed, EndGroup, ClosedSound, FrameFits, FrameDone;
    if groups != [] {
      var init, last := groups[..|groups| - 1], groups[|groups| - 1];
      var st := FoldGroups(EMPTY, init, lim);
      assert groups == init + [last];
      FoldFits(init, lim);
      FoldSound(init, lim);
      FoldSnoc(EMPTY, init, last, lim);
      FitsSnoc(0, init, last, lim);
      FlattenSnoc(init, last);
      FoldStep(st, init, last, lim);
    }
  }

  lemma FoldStep(st: Framer, init: seq<Bytes>, last: Bytes, lim: Limits)
    requires lim.Valid() && Sound(st, Flatten(init), Ends(init), lim)
    requires if Fits(0, init, lim) then EndAtGroups(st.closed, Ends(init)) && |st.open| == Open(0, init, lim)
             else !EndAtGroups(st.closed, Ends(init))
    ensures var st', ends := EndGroup(Feed(st, last, lim.max), lim.min), Ends(init) + {|Flatten(init)| + |last|};
            if Fits(0, init, lim) && Open(0, init, lim) + |last| <= lim.max
            then EndAtGroups(st'.closed, ends) && |st'.open| == OpenAfter(Open(0, init, lim), |last|, lim)
            else !EndAtGroups(st'.closed, ends)
  {
    hide Feed, EndGroup, ClosedSound, FrameFits, FrameDone, Fits, Open;
    var at, ends := |Flatten(init)|, Ends(init);
    var p := at + |last|;
    if init == [] {
      NothingFed(st, lim);
    } else {
      LaterEnd(st.closed, ends, at, p);
    }
    if EndAtGroups(st.closed, ends) {
      if |st.open| + |last| <= lim.max {
        GroupThatFits(st, last, ends + {p}, lim);
      } else {
        GroupThatDoesNot(st, last, at, ends, lim);
      }
    } else {
      var more := EndGroupKeeps(st, last, lim);
      if EndAtGroups(st.closed + more, ends + {p}) {
        EndsOfSome(st.closed, more, ends + {p});
      }
    }
  }

  lemma NothingFed(st: Framer, lim: Limits)
    requires Sound(st, Flatten([]), Ends([]), lim)
    ensures forall ends :: EndAtGroups(st.closed, ends)
  {}

  /** Every frame ends where a group ends exactly when every group fits. */
  lemma SplitExactly(groups: seq<Bytes>, lim: Limits)
    requires lim.Valid()
    ensures var fs := Finish(FoldGroups(EMPTY, groups, lim));
            (forall k | 0 <= k < |fs| :: Start(fs, k) + |fs[k]| in Ends(groups)) <==> Fits(0, groups, lim)
  {
    hide Fits, FoldGroups, EndAtGroups, Flatten, Ends, Start, ClosedSound;
    var st, fs := FoldGroups(EMPTY, groups, lim), Finish(FoldGroups(EMPTY, groups, lim));
    FoldFits(groups, lim);
    FoldSound(groups, lim);
    EndsEach(fs, Ends(groups));
    EndSnoc(st.closed, st.open, Ends(groups));
    if st.open != [] {
      LastEnd(groups);
      assert |Flatten(st.closed)| + |st.open| == |Flatten(groups)|;
    }
  }

  lemma LastEnd(groups: seq<Bytes>)
    requires Flatten(groups) != []
    ensures |Flatten(groups)| in Ends(groups)
  {}

  /** In an archive that is accepted, no frame boundary is inside a group exactly when every group fits: when
      what is open before it and the group together do not exceed the maximum. */
  lemma GroupsAreWhole(mem: Memory, input: Bytes, lim: Limits)
    requires lim.Valid() && Frames(mem, input, lim).Ok?
    ensures var fs, groups := Frames(mem, input, lim).value, GroupsOf(mem, input);
            (forall k | 0 <= k < |fs| :: Start(fs, k) + |fs[k]| in Ends(groups)) <==> Fits(0, groups, lim)
  {
    hide Fits, Ends, Start, FoldGroups, ElementsOf;
    GroupsAreInput(mem, input, lim);
    SplitExactly(GroupsOf(mem, input), lim);
  }

  /** Without a minimum every group fits exactly when none is over the maximum. */
  lemma {:induction false} FitsWithoutMinimum(groups: seq<Bytes>, lim: Limits)
    requires lim.min == 0
    ensures Fits(0, groups, lim) <==> forall g | g in groups :: |g| <= lim.max
    decreases |groups|
  {
    if groups != [] {
      FitsWithoutMinimum(groups[1..], lim);
      assert groups == [groups[0]] + groups[1..];
    }
  }

  /** With one, it is enough that each would fit after the most that can be left open. */
  lemma {:induction false} FitsWithMinimum(open: nat, groups: seq<Bytes>, lim: Limits)
    requires open < lim.min && forall g | g in groups :: lim.min - 1 + |g| <= lim.max
    ensures Fits(open, groups, lim)
    decreases |groups|
  {
    if groups != [] {
      assert groups[0] in groups;
      FitsWithMinimum(OpenAfter(open, |groups[0]|, lim), groups[1..], lim);
    }
  }

  // --- Files that are split without `-S` ---

  /** The entry of a file, of `n` bytes in all. */
  ghost function File(n: nat): Bytes
    requires n >= 512
  {
    Header([], FLAG_FILE, n - 512) + Zeros(n - 512)
  }

  lemma FileTaken(n: nat, rest: Bytes, mem: Memory) returns (next: ParseState)
    requires 512 <= n < 0x2_0000_0000 && n % 512 == 0
    ensures |File(n)| == n && next.pax == U64_MAX
    ensures NextElement(File(n) + rest, Fresh(mem)) == Some(Step(Element(File(n), false), next))
  {
    hide NextElement, Header, TarSize, MemoryAfter, Zeros;
    FieldHolds(n - 512);
    HeaderIsValid([], FLAG_FILE, n - 512);
    EntryTaken([], FLAG_FILE, n - 512, Zeros(n - 512), rest, Fresh(mem));
    next := ParseState(U64_MAX, MemoryAfter(mem, File(n), 0));
    assert File(n)[..512] == Header([], FLAG_FILE, n - 512);
  }

  lemma TwoFiles(mem: Memory, m: nat, n: nat, lim: Limits)
    requires 512 <= m < 0x2_0000_0000 && m % 512 == 0
    requires 512 <= n < 0x2_0000_0000 && n % 512 == 0
    ensures Frames(mem, File(m) + File(n), lim).Ok? && GroupsOf(mem, File(m) + File(n)) == [File(m), File(n)]
    ensures |File(m)| == m && |File(n)| == n
  {
    hide NextElement, ElementsOf, FramesOf, File, Groups;
    var a, b := Element(File(m), false), Element(File(n), false);
    var s := FileTaken(m, File(n), mem);
    First(File(m), File(n), Fresh(mem), false, s);
    assert File(n) + [] == File(n);
    var t := FileTaken(n, [], s.mem);
    First(File(n), [], s, false, t);
    NoMore(t);
    assert [a] + ([b] + []) == [a, b];
    TwoGroups(File(m), File(n));
  }

  lemma TwoGroups(a: Bytes, b: Bytes)
    ensures Groups([Element(a, false), Element(b, false)]) == [a, b]
  {
    assert [Element(a, false), Element(b, false)][1..] == [Element(b, false)] && [Element(b, false)][1..] == [];
    assert Groups([Element(b, false)]) == [b];
  }

  /** With `-s 1536M` and without `-S`, a file of 1280 MiB that is left open makes the file after it, of
      1024 MiB, too large for the frame: it is split, although no file is over the maximum. */
  lemma SplitWithMinimum(mem: Memory)
    ensures var input, lim := File(0x5000_0000) + File(0x4000_0000), Limits(0x6000_0000, MAX_FRAME_SIZE);
            && Frames(mem, input, lim).Ok?
            && (forall g | g in GroupsOf(mem, input) :: |g| <= lim.max)
            && var fs := Frames(mem, input, lim).value;
               exists k :: 0 <= k < |fs| && Start(fs, k) + |fs[k]| !in Ends(GroupsOf(mem, input))
  {
    hide Frames, GroupsOf, File, Ends, Start;
    var lim := Limits(0x6000_0000, MAX_FRAME_SIZE);
    TwoFiles(mem, 0x5000_0000, 0x4000_0000, lim);
    GroupsAreWhole(mem, File(0x5000_0000) + File(0x4000_0000), lim);
    assert [File(0x5000_0000), File(0x4000_0000)][1..] == [File(0x4000_0000)];
  }

  /** Without `-s` and `-S`, so is a file of 2048 MiB after one of a single block. */
  lemma SplitWithoutMinimum(mem: Memory)
    ensures var input, lim := File(512) + File(0x8000_0000), Limits(0, MAX_FRAME_SIZE);
            && Frames(mem, input, lim).Ok?
            && var fs := Frames(mem, input, lim).value;
               exists k :: 0 <= k < |fs| && Start(fs, k) + |fs[k]| !in Ends(GroupsOf(mem, input))
  {
    hide Frames, GroupsOf, File, Ends, Start;
    var lim := Limits(0, MAX_FRAME_SIZE);
    TwoFiles(mem, 512, 0x8000_0000, lim);
    GroupsAreWhole(mem, File(512) + File(0x8000_0000), lim);
    FitsWithoutMinimum([File(512), File(0x8000_0000)], lim);
  }
}
