/** Compressing a mapped file: the loops of `compressFile()` over the input buffer. */
module Mapped {
  import opened Basics
  import opened TarHeader
  import opened Pax
  import opened Framing
  import opened Elements
  import opened Raw
  import opened Codec
  import opened SeekTable
  import opened Context

  // --- What the loops keep ---

  /** The frames `closed` have been emitted, which end at `from`; the input has been parsed up to
      `at`, where the parse state is `ps`. Then the run should end with `want`. */
  ghost predicate OnTrack(input: Bytes, closed: seq<Bytes>, from: nat, at: nat, ps: ParseState, joinNext: bool,
                          lim: Limits, want: Result<seq<Bytes>>)
  {
    && from <= at <= |input|
    && want == Continue(input[at..], ps,
                        Settle(Feed(Framer(closed, []), input[from..at], lim.max), joinNext, lim.min), lim)
  }

  /** While a block is being gathered, the specification has closed nothing in it either. */
  lemma NotSettled(closed: seq<Bytes>, block: Bytes, joinNext: bool, lim: Limits)
    requires lim.Valid() && |block| <= lim.max
    requires block == [] || |block| < lim.min || joinNext
    ensures Settle(Feed(Framer(closed, []), block, lim.max), joinNext, lim.min)
            == Feed(Framer(closed, []), block, lim.max)
  {
    if |block| < lim.max {
      FeedShort(closed, block, lim.max);
    }
  }

  lemma Gathered(input: Bytes, closed: seq<Bytes>, from: nat, at: nat, ps: ParseState, joinNext: bool,
                 lim: Limits, want: Result<seq<Bytes>>, step: Step)
    requires lim.Valid() && OnTrack(input, closed, from, at, ps, joinNext, lim, want)
    requires at - from <= lim.max && (at == from || at - from < lim.min || joinNext)
    requires at < |input| && NextElement(input[at..], ps) == Some(step)
    ensures OnTrack(input, closed, from, at + |step.element.bytes|, step.next, step.element.joins, lim, want)
  {
    hide Feed, Settle, NextElement;
    var block, e := input[from..at], step.element;
    var n := |e.bytes|;
    NotSettled(closed, block, joinNext, lim);
    FeedConcat(Framer(closed, []), block, e.bytes, lim.max);
    NextElementIsPrefix(input[at..], ps);
    assert e.bytes == input[at..][..n] == input[at..at + n];
    assert block + e.bytes == input[from..at + n];
    assert input[at..][n..] == input[at + n..];
  }

  lemma Refused(input: Bytes, closed: seq<Bytes>, from: nat, at: nat, ps: ParseState, joinNext: bool,
                lim: Limits, want: Result<seq<Bytes>>)
    requires OnTrack(input, closed, from, at, ps, joinNext, lim, want)
    requires at < |input| && NextElement(input[at..], ps) == None
    ensures want == Fail
  {}

  /** A full block is a frame. */
  lemma EmittedFull(input: Bytes, closed: seq<Bytes>, from: nat, at: nat, ps: ParseState, joinNext: bool,
                    lim: Limits, want: Result<seq<Bytes>>)
    requires lim.Valid() && OnTrack(input, closed, from, at, ps, joinNext, lim, want)
    requires at - from >= lim.max
    ensures OnTrack(input, closed + [input[from..from + lim.max]], from + lim.max, at, ps, joinNext, lim, want)
  {
    FeedFull(closed, input[from..at], lim.max);
    assert input[from..at][..lim.max] == input[from..from + lim.max];
    assert input[from..at][lim.max..] == input[from + lim.max..at];
  }

  /** So is a block that has reached the minimum at the end of a group. */
  lemma EmittedEnd(input: Bytes, closed: seq<Bytes>, from: nat, at: nat, ps: ParseState,
                   lim: Limits, want: Result<seq<Bytes>>)
    requires lim.Valid() && OnTrack(input, closed, from, at, ps, false, lim, want)
    requires from < at && lim.min <= at - from <= lim.max
    ensures OnTrack(input, closed + [input[from..at]], at, at, ps, false, lim, want)
  {
    var block := input[from..at];
    if |block| == lim.max {
      FeedFull(closed, block, lim.max);
      assert block[..lim.max] == block && block[lim.max..] == [];
    } else {
      FeedShort(closed, block, lim.max);
    }
    assert input[at..at] == [];
    FeedNothing(Framer(closed + [block], []), lim.max);
  }

  /** And so is what is left at the end of the input. */
  lemma EmittedLast(input: Bytes, closed: seq<Bytes>, from: nat, ps: ParseState, joinNext: bool,
                    lim: Limits, want: Result<seq<Bytes>>)
    requires lim.Valid() && OnTrack(input, closed, from, |input|, ps, joinNext, lim, want)
    requires 0 < |input| - from <= lim.max
    ensures want == Ok(closed + [input[from..]])
  {
    var block := input[from..|input|];
    assert input[|input|..] == [] && input[from..] == block;
    if |block| == lim.max {
      FeedFull(closed, block, lim.max);
      assert block[..lim.max] == block && block[lim.max..] == [];
      FeedNothing(Framer(closed + [block], []), lim.max);
    } else {
      FeedShort(closed, block, lim.max);
    }
  }

  // --- One entry ---

  /** The sparse map of the entry at `idx`; it runs past the input if it has no end in it. */
  method SparseMapLen(inBuff: Bytes, idx: nat) returns (sparseExt: nat)
    requires idx + 512 <= |inBuff|
    ensures MapLen(inBuff[idx..]).Some? ==> sparseExt == MapLen(inBuff[idx..]).value
    ensures MapLen(inBuff[idx..]).None? ==> idx + 512 + sparseExt > |inBuff|
  {
    sparseExt := 0;
    ghost var rest := inBuff[idx..];
    assert inBuff[idx..idx + 512] == rest[..512];
    if HasSparseExtension(inBuff[idx..idx + 512]) {
      sparseExt := 512;
      while idx + sparseExt + 512 <= |inBuff| && inBuff[idx + sparseExt + 504] != 0
        invariant 512 <= sparseExt && idx + sparseExt <= |inBuff|
        invariant ExtensionLen(rest, 512).Some? <==> ExtensionLen(rest, sparseExt).Some?
        invariant ExtensionLen(rest, 512).Some? ==>
                    ExtensionLen(rest, 512).value == sparseExt - 512 + ExtensionLen(rest, sparseExt).value
      {
        sparseExt := sparseExt + 512;
      }
    }
  }

  lemma Behind(rest: Bytes, n: nat)
    requires 512 <= n <= |rest|
    ensures rest[..n][..512] == rest[..512] && rest[..n][512..] + rest[n..] == rest[512..]
  {}

  /** The entry at `idx`: how far the next header is, what pax size it leaves, and whether it joins. */
  method TakeEntry(inBuff: Bytes, idx: nat, pax: nat) returns (r: Status, toNextHeader: nat, pax': nat, join: bool)
    requires idx + 512 <= |inBuff|
    ensures var rest := inBuff[idx..];
            match ParseEntry(rest, pax)
            case None => r.Failure?
            case Some(e) =>
              r.Success? && toNextHeader == e.Len() && join == Joins(rest[..512])
              && pax' == PaxAfter(ParseState(pax, TheMap), rest[..e.Len()], rest[e.Len()..])
  {
    hide Joins, ChecksumMatches, TarSize, SizeFrom, MapLen;
    toNextHeader, pax', join := 0, pax, false;
    var header: Block := inBuff[idx..idx + 512];
    ghost var rest := inBuff[idx..];
    assert header == rest[..512];
    var valid := IsTarHeader(header);
    if !valid {
      return Failure(InvalidHeader), toNextHeader, pax', join;
    }
    var entrySize;
    entrySize, pax' := TarEntrySize(header, pax);
    if entrySize > |inBuff| {
      return Failure(EntryTooLarge), toNextHeader, pax', join;
    }
    var size := entrySize;
    var mod := size % 512;
    if mod != 0 {
      size := size - mod + 512;
    }
    var sparseExt := SparseMapLen(inBuff, idx);
    toNextHeader := size + 512 + sparseExt;
    if toNextHeader > |inBuff| - idx {
      return Failure(TruncatedArchive), toNextHeader, pax', join;
    }
    Behind(rest, toNextHeader);
    if TypeFlag(header) == FLAG_PAX {
      pax' := PaxSize(inBuff[idx + 512..], entrySize);
    }
    join := JoinsNextEntry(header);
    r := Success;
  }

  // --- One element ---

  /** The element at `idx`, a null block or an entry. */
  method TakeElement(inBuff: Bytes, idx: nat, pax: nat)
    returns (r: Status, len: nat, pax': nat, join: bool, ghost step: Step)
    requires idx <= |inBuff|
    ensures r.Failure? <==> NextElement(inBuff[idx..], ParseState(pax, TheMap)).None?
    ensures r.Success? ==>
              && NextElement(inBuff[idx..], ParseState(pax, TheMap)) == Some(step)
              && len == |step.element.bytes| && join == step.element.joins && step.next == ParseState(pax', TheMap)
              && 512 <= len <= |inBuff| - idx
  {
    hide Joins, ChecksumMatches, TarSize, SizeFrom, MapLen, ParseEntry, PaxAfter, IsNull;
    len, pax', join := 0, pax, false;
    ghost var ps, rest := ParseState(pax, TheMap), inBuff[idx..];
    step := Step(Element([], false), ps);
    if idx + 512 > |inBuff| {
      return Failure(TruncatedArchive), len, pax', join, step;
    }
    assert inBuff[idx..idx + 512] == rest[..512];
    if !IsNull(inBuff[idx..idx + 512]) {
      r, len, pax', join := TakeEntry(inBuff, idx, pax);
    } else {
      len := 512;
      join := idx + 512 + 512 <= |inBuff| && IsNull(inBuff[idx + 512..idx + 1024]);
      assert rest[512..] == inBuff[idx + 512..];
      if idx + 1024 <= |inBuff| {
        assert rest[512..][..512] == inBuff[idx + 512..idx + 1024];
      }
      r := Success;
    }
    if r.Success? {
      step := NextElement(rest, ps).value;
      NextElementIsPrefix(rest, ps);
    }
  }

  // --- One block ---

  /** The inner loop: gathers elements from `idx` on, after what an earlier block has left over.
      `from` is where the block starts. */
  method GatherBlock(inBuff: Bytes, lim: Limits, idx: nat, residual: nat, joinNext: bool, pax: nat,
                     ghost closed: seq<Bytes>, ghost from: nat, ghost want: Result<seq<Bytes>>)
    returns (r: Status, idx': nat, blockSize: nat, residual': nat, joinNext': bool, pax': nat, lastChunk: bool)
    requires lim.Valid()
    requires OnTrack(inBuff, closed, from, idx, ParseState(pax, TheMap), joinNext, lim, want)
    requires idx - from == residual && (residual > 0 || idx < |inBuff| || inBuff == [])
    ensures r.Failure? ==> want == Fail || inBuff == []
    ensures r.Success? ==>
              && inBuff != []
              && OnTrack(inBuff, closed, from, idx', ParseState(pax', TheMap), joinNext', lim, want)
              && idx' - from == blockSize + residual' && 0 < blockSize <= lim.max
              && lastChunk == (idx' >= |inBuff|)
              && (residual' > 0 ==> blockSize == lim.max)
              && (lastChunk || residual' > 0 || (blockSize >= lim.min && !joinNext'))
  {
    hide Continue, Feed, Settle, NextElement, EndGroup;
    idx', blockSize, residual', joinNext', pax', lastChunk := idx, 0, residual, joinNext, pax, false;
    while true
      invariant OnTrack(inBuff, closed, from, idx', ParseState(pax', TheMap), joinNext', lim, want)
      invariant idx' - from == blockSize + residual' && blockSize <= lim.max
      invariant residual' > 0 ==> blockSize == 0
      invariant residual' > 0 || idx' < |inBuff| || inBuff == []
      invariant blockSize == 0 || blockSize < lim.min || joinNext'
      decreases residual' > 0, |inBuff| - idx'
    {
      if residual' > 0 {
        if residual' > lim.max {
          blockSize := lim.max;
          residual' := residual' - lim.max;
        } else {
          blockSize := residual';
          residual' := 0;
        }
      } else {
        var len;
        ghost var step;
        ghost var at, ps, join0 := idx', ParseState(pax', TheMap), joinNext';
        r, len, pax', joinNext', step := TakeElement(inBuff, idx', pax');
        if r.Failure? {
          if inBuff != [] {
            Refused(inBuff, closed, from, at, ps, join0, lim, want);
          }
          return;
        }
        Gathered(inBuff, closed, from, at, ps, join0, lim, want, step);
        idx', blockSize := idx' + len, blockSize + len;
      }
      if lim.max != 0 && blockSize > lim.max {
        residual' := blockSize - lim.max;
        blockSize := lim.max;
      }
      lastChunk := idx' >= |inBuff|;
      if !(!lastChunk && residual' == 0 && (blockSize < lim.min || joinNext')) {
        break;
      }
    }
    r := Success;
  }

  // --- The whole input ---

  lemma Begin(input: Bytes, lim: Limits)
    ensures OnTrack(input, [], 0, 0, Fresh(TheMap), false, lim, Continue(input, Fresh(TheMap), EMPTY, lim))
  {
    assert input[0..] == input && input[0..0] == [];
    FeedNothing(EMPTY, lim.max);
  }

  /** A gathered block is the next frame. */
  lemma Emitted(input: Bytes, closed: seq<Bytes>, from: nat, at: nat, ps: ParseState, joinNext: bool,
                lim: Limits, want: Result<seq<Bytes>>, blockSize: nat, residual: nat)
    requires lim.Valid() && OnTrack(input, closed, from, at, ps, joinNext, lim, want)
    requires at - from == blockSize + residual && 0 < blockSize <= lim.max
    requires residual > 0 ==> blockSize == lim.max
    requires at == |input| || residual > 0 || (blockSize >= lim.min && !joinNext)
    ensures var closed' := closed + [input[from..from + blockSize]];
            if at == |input| && residual == 0 then want == Ok(closed')
            else OnTrack(input, closed', from + blockSize, at, ps, joinNext, lim, want)
  {
    hide OnTrack;
    if residual > 0 {
      EmittedFull(input, closed, from, at, ps, joinNext, lim, want);
    } else if at == |input| {
      assert input[from..from + blockSize] == input[from..];
      EmittedLast(input, closed, from, ps, joinNext, lim, want);
    } else {
      EmittedEnd(input, closed, from, at, ps, lim, want);
    }
  }

  /** A mapped tar archive: the frames are those of the specification, or there are none. */
  method CompressTar(ctx: Context, inBuff: Bytes) returns (r: Status)
    requires ctx.Valid() && ctx.Idle() && ctx.contents == []
    modifies ctx
    ensures r.Success? <==> Frames(TheMap, inBuff, old(ctx.Lim())).Ok?
    ensures r.Success? ==> ctx.Valid() && ctx.Idle() && Ok(ctx.contents) == Frames(TheMap, inBuff, old(ctx.Lim()))
    ensures r.Success? ==> AllPledged(ctx.pledges)
  {
    hide Continue, Feed, Settle, NextElement, EndGroup, Recorded, Kept, Flatten, RawCodec.Valid,
         EntriesOf;
    ghost var lim := ctx.Lim();
    ghost var want := Continue(inBuff, Fresh(TheMap), EMPTY, lim);
    Begin(inBuff, lim);
    NoInputIsRefused(TheMap, lim);
    if inBuff != [] {
      FramesInOnePass(TheMap, inBuff, lim);
    }
    var tarHeaderIdx, readBuff, joinNext, paxNextSize, lastChunk, residual := 0, 0, false, U64_MAX, false, 0;
    while !lastChunk || residual != 0
      invariant ctx.Valid() && ctx.Idle() && ctx.Lim() == lim && AllPledged(ctx.pledges)
      invariant 0 <= readBuff <= tarHeaderIdx <= |inBuff| && residual >= 0
      invariant lastChunk ==> inBuff != [] && ctx.contents != []
      invariant lastChunk && residual == 0 ==> want == Ok(ctx.contents)
      invariant !(lastChunk && residual == 0) ==>
                  && OnTrack(inBuff, ctx.contents, readBuff, tarHeaderIdx, ParseState(paxNextSize, TheMap), joinNext,
                             lim, want)
                  && tarHeaderIdx - readBuff == residual
                  && (residual > 0 || tarHeaderIdx < |inBuff| || inBuff == [])
      decreases |inBuff| - readBuff
    {
      var blockSize;
      r, tarHeaderIdx, blockSize, residual, joinNext, paxNextSize, lastChunk :=
        GatherBlock(inBuff, Limits(ctx.minBlockSize, ctx.maxBlockSize), tarHeaderIdx, residual, joinNext, paxNextSize,
                    ctx.contents, readBuff, want);
      if r.Failure? {
        return;
      }
      Emitted(inBuff, ctx.contents, readBuff, tarHeaderIdx, ParseState(paxNextSize, TheMap), joinNext, lim, want,
              blockSize, residual);
      ctx.WriteFrame(inBuff[readBuff..readBuff + blockSize]);
      readBuff := readBuff + blockSize;
    }
    if ctx.frameCount == 0 {
      return Failure(NoEntries);
    }
    r := Success;
  }

  /** A mapped file in raw mode. */
  method CompressRaw(ctx: Context, inBuff: Bytes)
    requires ctx.Valid() && ctx.Idle() && ctx.contents == []
    modifies ctx
    ensures ctx.Valid() && ctx.Idle() && ctx.contents == Blocks(inBuff, BlockSize(old(ctx.Lim())))
    ensures AllPledged(ctx.pledges)
  {
    hide Recorded, Kept, Flatten, RawCodec.Valid, EntriesOf;
    ghost var lim, k := ctx.Lim(), BlockSize(ctx.Lim());
    var readBuff, lastChunk := 0, false;
    while !lastChunk
      invariant ctx.Valid() && ctx.Idle() && ctx.Lim() == lim && AllPledged(ctx.pledges)
      invariant 0 <= readBuff <= |inBuff| && (lastChunk ==> readBuff == |inBuff|)
      invariant ctx.contents + Blocks(inBuff[readBuff..], k) == Blocks(inBuff, k)
      decreases !lastChunk, |inBuff| - readBuff
    {
      var remaining := |inBuff| - readBuff;
      if remaining == 0 {
        break;
      }
      var blockSize := if ctx.minBlockSize != 0 then ctx.minBlockSize else ctx.maxBlockSize;
      if blockSize > remaining {
        blockSize := remaining;
        lastChunk := true;
      }
      RawStep(ctx.contents, inBuff, readBuff, k);
      ctx.WriteFrame(inBuff[readBuff..readBuff + blockSize]);
      readBuff := readBuff + blockSize;
    }
    assert inBuff[readBuff..] == [];
  }

  lemma RawStep(closed: seq<Bytes>, input: Bytes, from: nat, k: nat)
    requires from < |input| && k > 0
    ensures var to := from + Min(k, |input| - from);
            closed + Blocks(input[from..], k) == closed + [input[from..to]] + Blocks(input[to..], k)
  {
    var n := Min(k, |input| - from);
    assert input[from..][..n] == input[from..from + n];
    assert input[from..][n..] == input[from + n..];
  }
}
