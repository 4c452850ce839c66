/** Compressing standard input: `compressStdinRaw()` and `compressStdinTar()`. */
module Stdin {
  import opened Basics
  import opened Codec
  import opened SeekTable
  import opened TarHeader
  import opened Pax
  import opened Framing
  import opened Elements
  import opened Pledges
  import opened TarFrames
  import opened Raw
  import opened Context

  /** Standard input: what has not been read yet. */
  class Input {
    var rest: Bytes

    constructor (data: Bytes)
      ensures rest == data
    {
      rest := data;
    }

    /** A read that may come short before the end of the input, but not empty. */
    method ReadSome(dst: array<Byte>, off: nat, n: nat) returns (got: nat)
      requires off + n <= dst.Length
      modifies this, dst
      ensures got <= n && got <= |old(rest)| && (got == 0 ==> n == 0 || old(rest) == [])
      ensures rest == old(rest)[got..]
      ensures dst[..off] == old(dst[..off])
      ensures dst[off..off + got] == old(rest)[..got]
      ensures dst[..] == Overwrite(old(dst[..]), off, old(rest)[..got])
    {
      if n == 0 || |rest| == 0 {
        return 0;
      }
      got :| 1 <= got <= n && got <= |rest|;
      forall i | 0 <= i < got {
        dst[off + i] := rest[i];
      }
      assert dst[off..off + got] == rest[..got];
      rest := rest[got..];
    }

    /** `fread()` as ISO C defines it: short only at the end of the input. */
    method Fread(dst: array<Byte>, n: nat) returns (got: nat)
      requires n <= dst.Length
      modifies this, dst
      ensures got == Min(n, |old(rest)|)
      ensures rest == old(rest)[got..] && dst[..got] == old(rest)[..got]
    {
      hide Overwrite;
      got := 0;
      while got < n && |rest| > 0
        invariant got <= n && got <= |old(rest)|
        invariant rest == old(rest)[got..] && dst[..got] == old(rest)[..got]
        decreases n - got
      {
        ghost var before := dst[..got];
        var r := ReadSome(dst, got, n - got);
        ReadOn(before, dst[..], old(rest), got, r);
        got := got + r;
      }
    }
  }

  lemma ReadOn(before: Bytes, buf: Bytes, all: Bytes, got: nat, n: nat)
    requires got + n <= |buf| && got + n <= |all| && before == all[..got]
    requires buf[..got] == before && buf[got..got + n] == all[got..][..n]
    ensures buf[..got + n] == all[..got + n] && all[got..][n..] == all[got + n..]
  {
    assert buf[..got + n] == buf[..got] + buf[got..got + n];
    assert all[..got + n] == all[..got] + all[got..][..n];
  }

  lemma OverwriteTwice(buf: Bytes, at: nat, a: Bytes, b: Bytes)
    requires at + |a| + |b| <= |buf|
    ensures Overwrite(Overwrite(buf, at, a), at + |a|, b) == Overwrite(buf, at, a + b)
    ensures Overwrite(buf, at, a + b)[at + |a|..] == b + buf[at + |a| + |b|..]
    ensures Overwrite(buf, at, a + b)[..at + |a + b|] == buf[..at] + (a + b)
  {}

  lemma NothingRead(buf: Bytes, at: nat)
    requires at <= |buf|
    ensures Overwrite(buf, at, []) == buf
  {}

  /** Reads exactly `n` bytes, or fails at the end of the input. */
  method ReadExact(stdin: Input, dst: array<Byte>, off: nat, n: nat) returns (r: Status)
    requires off + n <= dst.Length
    modifies stdin, dst
    ensures r.Success? <==> n <= |old(stdin.rest)|
    ensures r.Success? ==> stdin.rest == old(stdin.rest)[n..]
                           && dst[..] == Overwrite(old(dst[..]), off, old(stdin.rest)[..n])
  {
    hide Overwrite;
    var got: nat := 0;
    ghost var all, buf := stdin.rest, dst[..];
    NothingRead(buf, off);
    while got < n
      invariant got <= n && got <= |all| && stdin.rest == all[got..]
      invariant dst[..] == Overwrite(buf, off, all[..got])
      decreases n - got
    {
      var k := stdin.ReadSome(dst, off + got, n - got);
      if k == 0 {
        return Failure(UnexpectedEof);
      }
      OverwriteTwice(buf, off, all[..got], all[got..][..k]);
      assert all[..got + k] == all[..got] + all[got..][..k];
      got := got + k;
    }
    r := Success;
  }

  // --- Raw mode ---

  /** The size of a read in raw mode; any size would do. */
  const STREAM_IN_SIZE: nat := 128 * 1024

  /** Raw standard input without `-s`: one stream, cut at the maximum. No size is pledged, since none is
      known, and so no call can be refused. */
  method CompressStream(ctx: Context, stdin: Input) returns (r: Status)
    requires ctx.Valid() && ctx.Idle() && ctx.contents == [] && ctx.minBlockSize == 0
    modifies ctx, stdin
    ensures r.Success? && ctx.Valid() && ctx.Idle()
    ensures ctx.contents == Blocks(old(stdin.rest), BlockSize(old(ctx.Lim())))
    ensures SomeAt(ctx.pledges) == {}
  {
    hide Recorded, Flatten, RawCodec.Valid, RawCodec.Conforms, EntriesOf, Session.Fed, Session.Emitted, Feed;
    var inBuf := new Byte[STREAM_IN_SIZE];
    var f := CLOSED;
    ghost var input, lim := stdin.rest, ctx.Lim();
    ghost var done: Bytes := [];
    FeedNothing(EMPTY, lim.max);
    while true
      invariant ctx.Ready(f) && ctx.Lim() == lim
      invariant input == done + stdin.rest && ctx.Pledged(f) == SomeAt(old(ctx.pledges))
      invariant ctx.Model(f) == Feed(EMPTY, done, lim.max)
      decreases |stdin.rest|
    {
      ghost var rest := stdin.rest;
      var n := stdin.ReadSome(inBuf, 0, STREAM_IN_SIZE);
      if n == 0 {
        break;
      }
      assert inBuf[..n] == inBuf[0..n] == rest[..n];
      FeedConcat(EMPTY, done, rest[..n], lim.max);
      r, f := ctx.PushBytesTar(inBuf[..n], f, n);
      assert input == (done + rest[..n]) + stdin.rest;
      done := done + rest[..n];
    }
    r, f := ctx.EndFrameAndRecord(f);
    assert done == input;
    IsOneGroup([], input, lim.max);
    assert [] + Blocks(input, lim.max) == Blocks(input, lim.max);
  }

  /** Raw standard input with `-s`: one buffer of that size at a time, whatever the reads return. */
  method CompressBlocks(ctx: Context, stdin: Input)
    requires ctx.Valid() && ctx.Idle() && ctx.contents == [] && ctx.minBlockSize != 0
    modifies ctx, stdin
    ensures ctx.Valid() && ctx.Idle()
    ensures ctx.contents == Blocks(old(stdin.rest), BlockSize(old(ctx.Lim())))
    ensures AllPledged(ctx.pledges)
  {
    hide Recorded, Kept, Flatten, RawCodec.Valid, RawCodec.Conforms, EntriesOf, Blocks;
    var frameSize := ctx.minBlockSize;
    var frameBuf := new Byte[frameSize];
    ghost var input := stdin.rest;
    assert [] + Blocks(input, frameSize) == Blocks(input, frameSize);
    while true
      invariant ctx.Valid() && ctx.Idle() && ctx.minBlockSize == frameSize
      invariant ctx.contents + Blocks(stdin.rest, frameSize) == Blocks(input, frameSize)
      invariant AllPledged(ctx.pledges)
      decreases |stdin.rest|
    {
      ghost var rest := stdin.rest;
      var got := FillBuffer(stdin, frameBuf);
      BlockStep(ctx.contents, rest, frameSize);
      if got == 0 {
        break;
      }
      ctx.WriteFrame(frameBuf[..got]);
      if got < frameSize {
        BlockStep(ctx.contents, stdin.rest, frameSize);
        break;
      }
    }
  }

  lemma BlockStep(closed: seq<Bytes>, rest: Bytes, k: nat)
    requires k > 0
    ensures rest == [] ==> closed + Blocks(rest, k) == closed
    ensures rest != [] ==>
              var n := Min(k, |rest|);
              closed + Blocks(rest, k) == closed + [rest[..n]] + Blocks(rest[n..], k)
  {}

  /** Fills the buffer, as far as there is input. */
  method FillBuffer(stdin: Input, buf: array<Byte>) returns (got: nat)
    modifies stdin, buf
    ensures got == Min(buf.Length, |old(stdin.rest)|)
    ensures stdin.rest == old(stdin.rest)[got..] && buf[..got] == old(stdin.rest)[..got]
  {
    hide Overwrite;
    got := 0;
    while got < buf.Length
      invariant got <= buf.Length && got <= |old(stdin.rest)|
      invariant stdin.rest == old(stdin.rest)[got..] && buf[..got] == old(stdin.rest)[..got]
      decreases buf.Length - got
    {
      ghost var before := buf[..got];
      var n := stdin.ReadSome(buf, got, buf.Length - got);
      if n == 0 {
        break;
      }
      ReadOn(before, buf[..], old(stdin.rest), got, n);
      got := got + n;
    }
  }

  // --- Tar mode: the pieces of an element ---

  /** Closes the frame in the making if it has reached the minimum. */
  method EndElement(ctx: Context, f: FrameState) returns (r: Status, f': FrameState)
    requires ctx.Holds(f) && (f.frameOpen ==> f.frameIn > 0)
    requires ctx.minBlockSize == 0 || ctx.Unpledged(f)
    modifies ctx
    ensures ctx.Lim() == old(ctx.Lim())
    ensures old(ctx.PledgeMet(f, 0)) ==> r.Success?
    ensures r.Success? ==>
              && ctx.Ready(f')
              && ctx.Model(f') == EndGroup(old(ctx.Model(f)), ctx.minBlockSize)
              && ctx.Pledged(f') == old(ctx.Pledged(f))
  {
    hide Recorded, Flatten, RawCodec.Valid, RawCodec.Conforms, EntriesOf, Session.Fed, Session.Emitted;
    f' := f;
    r := Success;
    if f.frameOpen && f.frameIn >= ctx.minBlockSize {
      r, f' := ctx.EndFrameAndRecord(f);
    }
  }

  /** Compresses `nullRun` zero bytes. */
  method PushNulls(ctx: Context, chunkBuf: array<Byte>, nullRun: nat, f: FrameState) returns (r: Status, f': FrameState)
    requires ctx.Holds(f) && ctx.PledgeMet(f, nullRun) && chunkBuf.Length == CHUNK_SIZE
    modifies ctx, chunkBuf
    ensures ctx.Lim() == old(ctx.Lim())
    ensures r.Success? && ctx.Holds(f') && ctx.PledgeMet(f', 0)
    ensures (nullRun > 0 || (f.frameOpen ==> f.frameIn > 0)) && f'.frameOpen ==> f'.frameIn > 0
    ensures old(ctx.Unpledged(f)) ==> ctx.Unpledged(f')
    ensures ctx.Model(f') == Feed(old(ctx.Model(f)), Zeros(nullRun), ctx.maxBlockSize)
    ensures ctx.Pledged(f') == old(ctx.Pledged(f))
    ensures chunkBuf[..] == Zeros(CHUNK_SIZE)
  {
    hide Recorded, Flatten, RawCodec.Valid, RawCodec.Conforms, EntriesOf, Session.Fed, Session.Emitted, Feed;
    ghost var start, lim := ctx.Model(f), ctx.Lim();
    f' := f;
    r := Success;
    var left: nat := nullRun;
    forall i | 0 <= i < CHUNK_SIZE {
      chunkBuf[i] := 0;
    }
    FeedNothing(start, lim.max);
    assert Zeros(0) == [];
    while left != 0
      invariant left <= nullRun && ctx.Holds(f') && ctx.Lim() == lim
      invariant (left < nullRun || (f.frameOpen ==> f.frameIn > 0)) && f'.frameOpen ==> f'.frameIn > 0
      invariant old(ctx.Unpledged(f)) ==> ctx.Unpledged(f')
      invariant forall i | 0 <= i < CHUNK_SIZE :: chunkBuf[i] == 0
      invariant ctx.PledgeMet(f', left) && r.Success?
      invariant ctx.Model(f') == Feed(start, Zeros(nullRun - left), lim.max)
      invariant ctx.Pledged(f') == old(ctx.Pledged(f))
    {
      var take: nat := if left > CHUNK_SIZE then CHUNK_SIZE else left;
      FeedConcat(start, Zeros(nullRun - left), Zeros(take), lim.max);
      assert Zeros(nullRun - left) + Zeros(take) == Zeros(nullRun - (left - take));
      assert chunkBuf[..take] == Zeros(take);
      r, f' := ctx.PushBytesTar(chunkBuf[..take], f', left);
      left := left - take;
    }
  }

  /** What opening the frame of an element does to the frames that are pledged. */
  lemma PledgedNext(ctx: Context, f: FrameState)
    requires ctx.Ready(f)
    ensures Also(ctx.Pledged(f), ctx.Model(f), ctx.Lim())
            == if ctx.minBlockSize == 0 && !f.frameOpen then ctx.Pledged(f) + {|ctx.contents|} else ctx.Pledged(f)
  {
    hide Context.Valid, Session.Fed, Session.Emitted, SomeAt, RawCodec.Conforms, Flatten;
  }

  /** Compresses the entries held for a run of null blocks, and the run: a frame that they begin gets
      their size pledged. */
  method FlushRun(ctx: Context, held: Bytes, chunkBuf: array<Byte>, nullRun: nat, f: FrameState)
    returns (r: Status, f': FrameState)
    requires ctx.Ready(f)
    requires 0 < |held| + nullRun < CONTENTSIZE_UNKNOWN && chunkBuf.Length == CHUNK_SIZE
    modifies ctx, chunkBuf
    ensures ctx.Lim() == old(ctx.Lim())
    ensures r.Success? && ctx.Ready(f')
    ensures ctx.Model(f')
            == EndGroup(Feed(old(ctx.Model(f)), held + Zeros(nullRun), ctx.maxBlockSize), ctx.minBlockSize)
    ensures ctx.Pledged(f') == Also(old(ctx.Pledged(f)), old(ctx.Model(f)), ctx.Lim())
    ensures chunkBuf[..] == Zeros(CHUNK_SIZE)
  {
    hide Recorded, Flatten, RawCodec.Valid, RawCodec.Conforms, EntriesOf, Session.Fed, Session.Emitted, Feed;
    f' := ctx.StartElementFrame(|held| + nullRun, f);
    r, f' := ctx.PushBytesTar(held, f', |held| + nullRun);
    FeedConcat(old(ctx.Model(f)), held, Zeros(nullRun), ctx.maxBlockSize);
    r, f' := PushNulls(ctx, chunkBuf, nullRun, f');
    r, f' := EndElement(ctx, f');
  }

  /** Compresses the blocks that continue a sparse map, up to one that says it is the last. */
  method PushMap(ctx: Context, stdin: Input, chunkBuf: array<Byte>, hdr: Block, f: FrameState)
    returns (r: Status, f': FrameState, ghost blocks: Bytes)
    requires HasSparseExtension(hdr)
    requires ctx.Ready(f) && chunkBuf.Length == CHUNK_SIZE
    modifies ctx, stdin, chunkBuf
    ensures ctx.Lim() == old(ctx.Lim())
    ensures r.Success? <==> MapLen(hdr + old(stdin.rest)).Some?
    ensures r.Success? ==>
              && ctx.Ready(f')
              && |blocks| == MapLen(hdr + old(stdin.rest)).value && old(stdin.rest) == blocks + stdin.rest
              && chunkBuf[..] == ThroughBlocks(old(chunkBuf[..]), blocks)
              && ctx.Pledged(f') == old(ctx.Pledged(f))
              && ctx.Model(f') == Feed(old(ctx.Model(f)), blocks, ctx.maxBlockSize)
  {
    hide Recorded, Flatten, RawCodec.Valid, RawCodec.Conforms, EntriesOf, Session.Fed, Session.Emitted, Feed,
         ExtensionLen, MapLen, ThroughBlocks, Overwrite, HasSparseExtension,
         Context.Tracks, Context.Model, Context.Pledged;
    ghost var start, lim, whole, buf := ctx.Model(f), ctx.Lim(), hdr + stdin.rest, chunkBuf[..];
    MapStarts(hdr, stdin.rest);
    NoBlocks(buf);
    f', blocks := f, [];
    var sparseExt := true;
    FeedNothing(start, lim.max);
    while sparseExt
      invariant ctx.Ready(f') && ctx.Lim() == lim
      invariant whole == hdr + blocks + stdin.rest
      invariant ctx.Model(f') == Feed(start, blocks, lim.max)
      invariant chunkBuf[..] == ThroughBlocks(buf, blocks) && ctx.Pledged(f') == old(ctx.Pledged(f))
      invariant !sparseExt ==> ExtensionLen(whole, 512) == Some(|blocks|)
      invariant sparseExt ==>
                  match ExtensionLen(whole, 512 + |blocks|)
                  case None => ExtensionLen(whole, 512) == None
                  case Some(n) => ExtensionLen(whole, 512) == Some(|blocks| + n)
      decreases |stdin.rest|, sparseExt
    {
      ghost var rest := stdin.rest;
      MapStep(whole, hdr + blocks, rest);
      r := ReadExact(stdin, chunkBuf, 0, 512);
      if r.Failure? {
        return;
      }
      ReadAtStart(ThroughBlocks(buf, blocks), chunkBuf[..], rest[..512]);
      BlockRead(buf, blocks, rest[..512]);
      assert chunkBuf[..][..512] == chunkBuf[..512];
      FeedConcat(start, blocks, rest[..512], lim.max);
      assert chunkBuf[504] == rest[..512][504];
      r, f' := ctx.PushBytesTar(chunkBuf[..512], f', 512);
      assert whole == hdr + (blocks + rest[..512]) + stdin.rest;
      blocks := blocks + rest[..512];
      sparseExt := chunkBuf[504] != 0;
    }
    assert whole[512..] == old(stdin.rest) && whole[512..] == blocks + stdin.rest;
    r := Success;
  }

  lemma ReadAtStart(buf: Bytes, after: Bytes, bytes: Bytes)
    requires |bytes| <= |buf| && after == Overwrite(buf, 0, bytes)
    ensures |after| == |buf| && after[..|bytes|] == bytes && after[|bytes|..] == buf[|bytes|..]
    ensures after == bytes + buf[|bytes|..]
  {
    assert buf[..0] == [];
  }

  lemma NoBlocks(buf: ChunkBuf)
    ensures ThroughBlocks(buf, []) == buf
  {}

  lemma BlockRead(buf: ChunkBuf, blocks: Bytes, block: Bytes)
    requires |block| == 512
    ensures Overwrite(ThroughBlocks(buf, blocks), 0, block) == ThroughBlocks(buf, blocks + block)
  {
    assert (blocks + block)[|blocks|..] == block;
  }

  lemma MapStarts(hdr: Block, tail: Bytes)
    requires HasSparseExtension(hdr)
    ensures MapLen(hdr + tail) == ExtensionLen(hdr + tail, 512)
  {
    assert (hdr + tail)[..512] == hdr;
  }

  /** A block of a sparse map is the last one, or another one follows. */
  lemma MapStep(whole: Bytes, before: Bytes, rest: Bytes)
    requires whole == before + rest
    ensures var at := |before|;
            if |rest| < 512 then ExtensionLen(whole, at) == None
            else if rest[504] == 0 then ExtensionLen(whole, at) == Some(512)
            else match ExtensionLen(whole, at + 512)
                 case None => ExtensionLen(whole, at) == None
                 case Some(n) => ExtensionLen(whole, at) == Some(512 + n)
  {}

  /** Compresses `padded` bytes of payload; those of a pax header are looked at if they come in one chunk. */
  method PushPayload(ctx: Context, stdin: Input, chunkBuf: array<Byte>, isPax: bool, fileSize: nat, padded: nat,
                     f: FrameState, pax: nat)
    returns (r: Status, f': FrameState, pax': nat)
    requires ctx.Holds(f) && (f.frameOpen ==> f.frameIn > 0) && chunkBuf.Length == CHUNK_SIZE && fileSize <= padded
    modifies ctx, stdin, chunkBuf
    ensures ctx.Lim() == old(ctx.Lim())
    ensures r.Success? ==>
              && padded <= |old(stdin.rest)| && stdin.rest == old(stdin.rest)[padded..]
              && ctx.Holds(f') && (f'.frameOpen ==> f'.frameIn > 0)
              && ctx.Model(f') == Feed(old(ctx.Model(f)), old(stdin.rest)[..padded], ctx.maxBlockSize)
              && pax' == (if isPax && 0 < padded <= CHUNK_SIZE
                          then SizeFrom(old(stdin.rest)[..padded] + old(chunkBuf[..])[padded..], fileSize, 0) else pax)
              && chunkBuf[..] == ThroughChunks(old(chunkBuf[..]), old(stdin.rest)[..padded])
              && ctx.Pledged(f') == old(ctx.Pledged(f))
              && (old(ctx.Unpledged(f)) ==> ctx.Unpledged(f'))
    ensures padded <= |old(stdin.rest)| && old(ctx.PledgeMet(f, padded)) ==> r.Success? && ctx.PledgeMet(f', 0)
  {
    hide Recorded, Flatten, RawCodec.Valid, RawCodec.Conforms, EntriesOf, Session.Fed, Session.Emitted, Feed,
         SizeFrom, ThroughChunks, Overwrite, Context.Tracks, Context.Model, Context.Pledged;
    ghost var start, lim, all, buf := ctx.Model(f), ctx.Lim(), stdin.rest, chunkBuf[..];
    ghost var met := padded <= |all| && ctx.PledgeMet(f, padded);
    f', pax' := f, pax;
    var remaining: nat := padded;
    FeedNothing(start, lim.max);
    if padded <= |all| {
      assert all[0..padded] == all[..padded];
    }
    while remaining > 0
      invariant remaining <= padded && padded - remaining <= |all| && stdin.rest == all[padded - remaining..]
      invariant ctx.Holds(f') && (f'.frameOpen ==> f'.frameIn > 0) && ctx.Lim() == lim
      invariant ctx.Model(f') == Feed(start, all[..padded - remaining], lim.max)
      invariant old(ctx.Unpledged(f)) ==> ctx.Unpledged(f')
      invariant met ==> ctx.PledgeMet(f', remaining)
      invariant pax' == (if isPax && remaining < padded <= CHUNK_SIZE && padded <= |all|
                         then SizeFrom(all[..padded] + buf[padded..], fileSize, 0) else pax)
      invariant remaining == padded ==> chunkBuf[..] == buf
      invariant ctx.Pledged(f') == old(ctx.Pledged(f))
      invariant padded <= |all| ==>
                  ThroughChunks(chunkBuf[..], all[padded - remaining..padded]) == ThroughChunks(buf, all[..padded])
    {
      var take: nat := if remaining > CHUNK_SIZE then CHUNK_SIZE else remaining;
      ghost var done, before := padded - remaining, chunkBuf[..];
      r := ReadExact(stdin, chunkBuf, 0, take);
      if r.Failure? {
        return;
      }
      PayloadPiece(start, all, done, take, lim.max);
      ReadAtStart(before, chunkBuf[..], all[done..done + take]);
      assert chunkBuf[..][..take] == chunkBuf[..take];
      if padded <= |all| {
        ChunkRead(before, all, done, padded, take);
      }
      if isPax && take == padded {
        assert all[0..padded] == all[..padded];
        pax' := PaxSize(chunkBuf[..], fileSize);
      }
      r, f' := ctx.PushBytesTar(chunkBuf[..take], f', remaining);
      if r.Failure? {
        return;
      }
      remaining := remaining - take;
    }
    r := Success;
    assert all[padded..padded] == [];
    NoChunks(chunkBuf[..]);
  }

  lemma NoChunks(buf: ChunkBuf)
    ensures ThroughChunks(buf, []) == buf
  {}

  lemma ChunkRead(buf: ChunkBuf, all: Bytes, from: nat, to: nat, take: nat)
    requires from < to <= |all| && take == Min(CHUNK_SIZE, to - from)
    ensures ThroughChunks(buf, all[from..to])
            == ThroughChunks(Overwrite(buf, 0, all[from..from + take]), all[from + take..to])
  {
    assert all[from..to][..take] == all[from..from + take];
    assert all[from..to][take..] == all[from + take..to];
  }

  lemma PayloadPiece(start: Framer, all: Bytes, done: nat, take: nat, max: nat)
    requires done + take <= |all|
    ensures all[done..][..take] == all[done..done + take] && all[done..][take..] == all[done + take..]
    ensures Feed(Feed(start, all[..done], max), all[done..done + take], max) == Feed(start, all[..done + take], max)
  {
    assert all[..done] + all[done..done + take] == all[..done + take];
    FeedConcat(start, all[..done], all[done..done + take], max);
  }

  // --- Tar mode: one entry ---

  lemma EntryPieces(start: Framer, hdr: Block, blocks: Bytes, payload: Bytes, padded: nat, max: nat)
    requires padded <= |payload|
    ensures var rest, n := hdr + blocks + payload, 512 + |blocks| + padded;
            && payload[padded..] == rest[n..]
            && rest[..n][512..512 + |blocks|] == blocks && rest[..n][512 + |blocks|..] == payload[..padded]
            && Feed(Feed(Feed(start, hdr, max), blocks, max), payload[..padded], max) == Feed(start, rest[..n], max)
            && Feed(Feed(start, hdr, max), [], max) == Feed(start, hdr, max)
  {
    var rest, n := hdr + blocks + payload, 512 + |blocks| + padded;
    FeedConcat(start, hdr, blocks, max);
    FeedConcat(start, hdr + blocks, payload[..padded], max);
    FeedNothing(Feed(start, hdr, max), max);
    assert rest[..n] == hdr + blocks + payload[..padded];
  }

  /** The header of an entry that is not held, after the entries held for it, and its sparse map. */
  method PushHead(ctx: Context, stdin: Input, chunkBuf: array<Byte>, hdr: Block, held: Bytes, padded: nat, join: bool,
                  f: FrameState)
    returns (r: Status, f': FrameState, ghost blocks: Bytes)
    requires ctx.Ready(f) && chunkBuf.Length == CHUNK_SIZE
    requires |held| <= HELD_SIZE && |stdin.rest| < INPUT_LIMIT
    modifies ctx, stdin, chunkBuf
    ensures ctx.Lim() == old(ctx.Lim())
    ensures r.Success? ==>
              && MapLen(hdr + old(stdin.rest)) == Some(|blocks|) && old(stdin.rest) == blocks + stdin.rest
              && (!HasSparseExtension(hdr) ==> blocks == [])
              && chunkBuf[..] == ThroughBlocks(old(chunkBuf[..]), blocks)
              && ctx.Holds(f') && (f'.frameOpen ==> f'.frameIn > 0)
              && ((ctx.minBlockSize == 0 && !join) || ctx.Unpledged(f'))
              && ctx.Pledged(f') == (if join || HasSparseExtension(hdr) then old(ctx.Pledged(f))
                                     else Also(old(ctx.Pledged(f)), old(ctx.Model(f)), ctx.Lim()))
              && ctx.Model(f') == Feed(Feed(Feed(old(ctx.Model(f)), held, ctx.maxBlockSize), hdr, ctx.maxBlockSize),
                                       blocks, ctx.maxBlockSize)
    ensures var map' := MapLen(hdr + old(stdin.rest));
            map'.Some? && map'.value + padded <= |old(stdin.rest)| ==> r.Success? && ctx.PledgeMet(f', padded)
  {
    hide Recorded, Flatten, RawCodec.Valid, RawCodec.Conforms, EntriesOf, Session.Fed, Session.Emitted, Feed,
         ExtensionLen, ThroughBlocks, Context.Tracks, Context.Model, Context.Pledged;
    var sparse := HasSparseExtension(hdr);
    f', blocks := f, [];
    NoBlocks(chunkBuf[..]);
    assert (hdr + stdin.rest)[..512] == hdr;
    PledgedNext(ctx, f);
    if !join && !sparse {
      f' := ctx.StartElementFrame((|held| + 512 + padded) % U64, f);
    }
    r, f' := ctx.PushBytesTar(held, f', |held| + 512 + padded);
    if r.Failure? { return; }
    r, f' := ctx.PushBytesTar(hdr, f', 512 + padded);
    if r.Failure? { return; }
    if sparse {
      r, f', blocks := PushMap(ctx, stdin, chunkBuf, hdr, f');
    } else {
      FeedNothing(Feed(Feed(old(ctx.Model(f)), held, ctx.maxBlockSize), hdr, ctx.maxBlockSize), ctx.maxBlockSize);
    }
  }

  /** An entry that is not held: it goes into frames at once, after the entries held for it. */
  method PushEntry(ctx: Context, stdin: Input, chunkBuf: array<Byte>, hdr: Block, held: Bytes, fileSize: nat,
                   join: bool, f: FrameState, pax: nat)
    returns (r: Status, f': FrameState, pax': nat)
    requires ctx.Ready(f) && chunkBuf.Length == CHUNK_SIZE
    requires |held| <= HELD_SIZE && |stdin.rest| < INPUT_LIMIT
    modifies ctx, stdin, chunkBuf
    ensures ctx.Lim() == old(ctx.Lim())
    ensures var rest := hdr + old(stdin.rest);
            var fits := MapLen(rest).Some? && 512 + MapLen(rest).value + Padded(fileSize) <= |rest|;
            (r.Success? <==> fits)
            && (fits ==>
                  var n := 512 + MapLen(rest).value + Padded(fileSize);
                  && stdin.rest == rest[n..]
                  && ctx.Ready(f')
                  && ctx.Model(f')
                     == Settle(Feed(Feed(old(ctx.Model(f)), held, ctx.maxBlockSize), rest[..n], ctx.maxBlockSize),
                               join, ctx.minBlockSize)
                  && ctx.Pledged(f') == (if join || HasSparseExtension(hdr) then old(ctx.Pledged(f))
                                         else Also(old(ctx.Pledged(f)), old(ctx.Model(f)), ctx.Lim()))
                  && pax' == (if TypeFlag(hdr) == FLAG_PAX && 0 < Padded(fileSize) <= CHUNK_SIZE
                              then SizeFrom(rest[..n][512..] + old(chunkBuf[..])[Padded(fileSize)..], fileSize, 0)
                              else pax)
                  && chunkBuf[..]
                     == ThroughChunks(ThroughBlocks(old(chunkBuf[..]), rest[..n][512..n - Padded(fileSize)]),
                                      rest[..n][n - Padded(fileSize)..]))
  {
    hide Recorded, Flatten, RawCodec.Valid, RawCodec.Conforms, EntriesOf, Session.Fed, Session.Emitted, Feed,
         SizeFrom, EndGroup, MapLen, Padded, ThroughBlocks, ThroughChunks,
         Context.Tracks, Context.Model, Context.Pledged;
    ghost var start, lim, tail := ctx.Model(f), ctx.Lim(), stdin.rest;
    NoBlocks(chunkBuf[..]);
    var padded := Padded(fileSize);
    pax' := pax;
    ghost var blocks;
    r, f', blocks := PushHead(ctx, stdin, chunkBuf, hdr, held, padded, join, f);
    if r.Failure? { return; }
    ghost var payload := stdin.rest;
    r, f', pax' := PushPayload(ctx, stdin, chunkBuf, TypeFlag(hdr) == FLAG_PAX, fileSize, padded, f', pax);
    if r.Failure? { return; }
    EntryPieces(Feed(start, held, lim.max), hdr, blocks, payload, padded, lim.max);
    assert hdr + tail == hdr + blocks + payload;
    if !join {
      r, f' := EndElement(ctx, f');
    }
  }

  /** `memcpy()` of a block. */
  method CopyBlock(dst: array<Byte>, off: nat, src: Block)
    requires off + 512 <= dst.Length
    modifies dst
    ensures dst[..] == Overwrite(old(dst[..]), off, src)
  {
    forall i | 0 <= i < 512 {
      dst[off + i] := src[i];
    }
  }

  lemma HeldPieces(hdr: Block, tail: Bytes, padded: nat)
    requires padded <= |tail|
    ensures (hdr + tail)[..512 + padded] == hdr + tail[..padded]
    ensures (hdr + tail)[..512 + padded][512..] == tail[..padded]
    ensures (hdr + tail)[512 + padded..] == tail[padded..]
  {}

  /** An entry that joins the next one and fits goes into the buffer, to wait for it. */
  method HoldEntry(stdin: Input, held: array<Byte>, heldLen: nat, hdr: Block, fileSize: nat, pax: nat)
    returns (r: Status, pax': nat)
    requires held.Length == HELD_SIZE && heldLen + 512 + Padded(fileSize) <= HELD_SIZE
    modifies stdin, held
    ensures r.Success? <==> Padded(fileSize) <= |old(stdin.rest)|
    ensures r.Success? ==>
              var rest, n := hdr + old(stdin.rest), 512 + Padded(fileSize);
              && stdin.rest == rest[n..]
              && held[..] == Overwrite(old(held[..]), heldLen, rest[..n])
              && held[..heldLen + n] == old(held[..heldLen]) + rest[..n]
              && pax' == (if TypeFlag(hdr) == FLAG_PAX
                          then SizeFrom(rest[..n][512..] + old(held[..])[heldLen + n..], fileSize, 0) else pax)
  {
    hide SizeFrom, Padded, Overwrite;
    ghost var buf := held[..];
    var padded := Padded(fileSize);
    var at := heldLen + 512;
    pax' := pax;
    CopyBlock(held, heldLen, hdr);
    r := ReadExact(stdin, held, at, padded);
    if r.Failure? { return; }
    HeldPieces(hdr, old(stdin.rest), padded);
    OverwriteTwice(buf, heldLen, hdr, old(stdin.rest)[..padded]);
    assert held[..][..at + padded] == held[..at + padded] && held[..][at..] == held[at..];
    if TypeFlag(hdr) == FLAG_PAX {
      pax' := PaxSize(held[at..], fileSize);
    }
  }

  lemma LeftBehind(rest: Bytes, ps: ParseState, n: nat, mapLen: nat)
    requires ps.mem.Buffers? && 512 + mapLen <= n <= |rest|
    requires TypeFlag(rest[..512]) == FLAG_PAX ==> TarSize(rest[..512]) <= n - 512
    ensures var h: Block, entry, m := rest[..512], rest[..n], ps.mem;
            var carried := if Overridden(h, ps.pax) then U64_MAX else ps.pax;
            if Held(m, h, n) then
              && n <= HELD_SIZE - m.held
              && MemoryAfter(m, entry, mapLen) == Buffers(m.held + n, Overwrite(m.heldBuf, m.held, entry), m.chunkBuf)
              && PaxAfter(ps, entry, rest[n..])
                 == if TypeFlag(h) == FLAG_PAX then SizeFrom(entry[512..] + m.heldBuf[m.held + n..], TarSize(h), 0)
                    else carried
            else
              && MemoryAfter(m, entry, mapLen)
                 == Buffers(0, m.heldBuf, ThroughChunks(ThroughBlocks(m.chunkBuf, entry[512..512 + mapLen]),
                                                        entry[512 + mapLen..]))
              && PaxAfter(ps, entry, rest[n..])
                 == if TypeFlag(h) == FLAG_PAX && 0 < n - 512 <= CHUNK_SIZE
                    then SizeFrom(entry[512..] + m.chunkBuf[n - 512..], TarSize(h), 0)
                    else carried
  {
    hide SizeFrom, TarSize, Joins, ThroughBlocks, ThroughChunks, Overwrite;
    assert rest[..n][..512] == rest[..512];
  }

  /** The next entry of a stream, and what it leaves behind when it is held and when it is not. */
  lemma NextOfStream(rest: Bytes, ps: ParseState)
    requires |rest| >= 512 && !IsNull(rest[..512]) && ps.mem.Buffers?
    ensures var h: Block := rest[..512];
            var size, m, isPax := EntrySize(h, ps.pax), ps.mem, TypeFlag(h) == FLAG_PAX;
            if !ChecksumMatches(h) || MapLen(rest).None? || 512 + MapLen(rest).value + Padded(size) > |rest|
            then NextElement(rest, ps) == None
            else
              var mapLen := MapLen(rest).value;
              var n := 512 + mapLen + Padded(size);
              var entry := rest[..n];
              var carried := if Overridden(h, ps.pax) then U64_MAX else ps.pax;
              512 + mapLen <= |entry| &&
              NextElement(rest, ps) == Some(Step(
                Element(entry, Joins(h)),
                if Held(m, h, n) then
                  ParseState(if isPax then SizeFrom(entry[512..] + m.heldBuf[m.held + n..], size, 0) else carried,
                             Buffers(m.held + n, Overwrite(m.heldBuf, m.held, entry), m.chunkBuf))
                else
                  ParseState(if isPax && 0 < Padded(size) <= CHUNK_SIZE
                             then SizeFrom(entry[512..] + m.chunkBuf[Padded(size)..], size, 0) else carried,
                             Buffers(0, m.heldBuf, ThroughChunks(ThroughBlocks(m.chunkBuf, entry[512..512 + mapLen]),
                                                                 entry[512 + mapLen..])))))
  {
    hide ChecksumMatches, SizeFrom, TarSize, Joins, IsNull, ThroughBlocks, ThroughChunks, Overwrite, NextElement,
         PaxAfter, MemoryAfter, Held;
    NextEntry(rest, ps);
    var h, padded := rest[..512], Padded(EntrySize(rest[..512], ps.pax));
    if MapLen(rest).Some? && 512 + MapLen(rest).value + padded <= |rest| {
      LeftBehind(rest, ps, 512 + MapLen(rest).value + padded, MapLen(rest).value);
    }
  }

  /** One entry, up to the next header: held, or pushed after what is held for it. */
  method StreamEntry(ctx: Context, stdin: Input, hdr: Block, held: array<Byte>, heldLen: nat, chunkBuf: array<Byte>,
                     f: FrameState, pax: nat)
    returns (r: Status, heldLen': nat, f': FrameState, pax': nat)
    requires ctx.Ready(f) && chunkBuf.Length == CHUNK_SIZE
    requires held.Length == HELD_SIZE && heldLen <= HELD_SIZE && held != chunkBuf
    requires |stdin.rest| < INPUT_LIMIT && !IsNull(hdr)
    modifies ctx, stdin, held, chunkBuf
    ensures ctx.Lim() == old(ctx.Lim())
    ensures r.Success?
            <==> NextElement(hdr + old(stdin.rest),
                             ParseState(pax, Buffers(heldLen, old(held[..]), old(chunkBuf[..])))).Some?
    ensures r.Success? ==>
              var rest := hdr + old(stdin.rest);
              var step := NextElement(rest, ParseState(pax, Buffers(heldLen, old(held[..]), old(chunkBuf[..])))).value;
              var n := |step.element.bytes|;
              && n <= |rest| && stdin.rest == rest[n..]
              && step.next == ParseState(pax', Buffers(heldLen', held[..], chunkBuf[..])) && heldLen' <= HELD_SIZE
              && ctx.Ready(f')
              && (if Held(Buffers(heldLen, old(held[..]), old(chunkBuf[..])), hdr, n)
                  then heldLen' == heldLen + n && f' == f && ctx.Model(f') == old(ctx.Model(f))
                       && ctx.Pledged(f') == old(ctx.Pledged(f))
                       && held[..heldLen'] == old(held[..heldLen]) + step.element.bytes
                  else heldLen' == 0
                       && ctx.Pledged(f')
                          == if Joins(hdr) || HasSparseExtension(hdr) then old(ctx.Pledged(f))
                             else Also(old(ctx.Pledged(f)), old(ctx.Model(f)), ctx.Lim()))
              && Feed(ctx.Model(f'), held[..heldLen'], ctx.maxBlockSize)
                 == Settle(Feed(Feed(old(ctx.Model(f)), old(held[..heldLen]), ctx.maxBlockSize),
                                step.element.bytes, ctx.maxBlockSize),
                           step.element.joins, ctx.minBlockSize)
  {
    hide Recorded, Flatten, RawCodec.Valid, RawCodec.Conforms, EntriesOf, Session.Fed, Session.Emitted, Feed,
         SizeFrom, EndGroup, MapLen,
         ChecksumMatches, TarSize, IsNull, NextElement, Joins, Padded, ThroughBlocks, ThroughChunks, Overwrite,
         Context.Tracks, Context.Model, Context.Pledged;
    ghost var rest, ps := hdr + stdin.rest, ParseState(pax, Buffers(heldLen, held[..], chunkBuf[..]));
    assert rest[..512] == hdr;
    NextOfStream(rest, ps);
    heldLen', f', pax' := heldLen, f, pax;
    var valid := IsTarHeader(hdr);
    if !valid {
      return Failure(InvalidHeader), heldLen', f', pax';
    }
    var fileSize;
    fileSize, pax' := TarEntrySize(hdr, pax);
    if fileSize > U64_MAX - 1024 {
      return Failure(EntryTooLarge), heldLen', f', pax';
    }
    var padded := Padded(fileSize);
    var join := JoinsNextEntry(hdr);
    ghost var before := held[..heldLen];
    if !HasSparseExtension(hdr) {
      NoMap(rest);
    }
    if join && !HasSparseExtension(hdr) && 512 + padded <= HELD_SIZE - heldLen {
      r, pax' := HoldEntry(stdin, held, heldLen, hdr, fileSize, pax');
      if r.Failure? { return; }
      heldLen' := heldLen + 512 + padded;
      FeedConcat(ctx.Model(f), before, rest[..512 + padded], ctx.maxBlockSize);
    } else {
      r, f', pax' := PushEntry(ctx, stdin, chunkBuf, hdr, held[..heldLen], fileSize, join, f, pax');
      if r.Failure? { return; }
      heldLen' := 0;
      assert held[..0] == [];
      FeedNothing(ctx.Model(f'), ctx.maxBlockSize);
    }
  }

  lemma NoMap(rest: Bytes)
    requires |rest| >= 512 && !HasSparseExtension(rest[..512])
    ensures MapLen(rest) == Some(0)
  {}

  // --- Tar mode: the whole stream ---

  /** What a run is to come to: its frames, and for which of them a size is to be pledged. */
  datatype Goal = Goal(lim: Limits, frames: Result<seq<Bytes>>, pledged: set<nat>)

  ghost function GoalOf(stack: Stack, input: Bytes, lim: Limits): Goal
  {
    Goal(lim, Continue(input, Fresh(stack), EMPTY, lim), PledgedFrames(stack, input, lim))
  }

  /** What the loop keeps at its head. `st` is what has gone into frames, `waiting` what is held and
      the null blocks counted after it; a run of null blocks is over if no null block follows.
      `pledged` are the frames for which a size has been pledged so far. */
  ghost predicate OnTrack(rest: Bytes, ps: ParseState, st: Framer, waiting: Bytes, inRun: bool, pledged: set<nat>,
                          goal: Goal)
  {
    var lim, over := goal.lim, inRun && !StartsNull(rest);
    var fed := Feed(st, waiting, lim.max);
    && (inRun ==> waiting != [])
    && goal.frames == Continue(rest, ps, Settle(fed, !over, lim.min), lim)
    && goal.pledged == if over then Announced(rest, ps, EndGroup(fed, lim.min), [], Also(pledged, st, lim), lim)
                       else Announced(rest, ps, st, waiting, pledged, lim)
  }

  lemma NullBlock(rest: Bytes, ps: ParseState, st: Framer, held: Bytes, nullRun: nat, pledged: set<nat>, goal: Goal)
    requires OnTrack(rest, ps, st, held + Zeros(nullRun), nullRun > 0, pledged, goal) && StartsNull(rest)
    ensures OnTrack(rest[512..], ParseState(ps.pax, MemoryAfterNull(ps.mem)), st, held + Zeros(nullRun + 512), true,
                    pledged, goal)
  {
    hide Feed, EndGroup;
    assert rest[..512] == Zeros(512);
    FeedConcat(st, held + Zeros(nullRun), Zeros(512), goal.lim.max);
    assert held + Zeros(nullRun) + Zeros(512) == held + Zeros(nullRun + 512);
  }

  lemma NotABlock(rest: Bytes, ps: ParseState, st: Framer, waiting: Bytes, inRun: bool, pledged: set<nat>, goal: Goal)
    requires OnTrack(rest, ps, st, waiting, inRun, pledged, goal) && 0 < |rest| < 512
    ensures goal.frames == Fail
  {
    hide Announced;
  }

  lemma RunIsOver(rest: Bytes, ps: ParseState, st: Framer, waiting: Bytes, pledged: set<nat>, goal: Goal)
    requires OnTrack(rest, ps, st, waiting, true, pledged, goal) && !StartsNull(rest)
    ensures OnTrack(rest, ps, EndGroup(Feed(st, waiting, goal.lim.max), goal.lim.min), [], false,
                    Also(pledged, st, goal.lim), goal)
  {
    hide Announced, Continue;
    FeedNothing(EndGroup(Feed(st, waiting, goal.lim.max), goal.lim.min), goal.lim.max);
  }

  lemma InputIsOver(ps: ParseState, st: Framer, waiting: Bytes, inRun: bool, pledged: set<nat>, goal: Goal)
    requires OnTrack([], ps, st, waiting, inRun, pledged, goal)
    ensures goal.frames == Ok(Finish(Feed(st, waiting, goal.lim.max)))
    ensures goal.frames == Ok(Finish(EndGroup(Feed(st, waiting, goal.lim.max), goal.lim.min)))
    ensures waiting == [] ==> goal.frames == Ok(Finish(st))
    ensures goal.pledged == if waiting == [] then pledged else Also(pledged, st, goal.lim)
  {
    FeedNothing(st, goal.lim.max);
  }

  lemma EntryTaken(rest: Bytes, ps: ParseState, st: Framer, waiting: Bytes, pledged: set<nat>,
                   st': Framer, waiting': Bytes, pledged': set<nat>, goal: Goal)
    requires OnTrack(rest, ps, st, waiting, false, pledged, goal) && |rest| >= 512 && !IsNull(rest[..512])
    ensures match NextElement(rest, ps)
            case None => goal.frames == Fail
            case Some(step) =>
              var h: Block, e, lim := rest[..512], step.element, goal.lim;
              var held := Held(ps.mem, h, |e.bytes|);
              && Feed(st', waiting', lim.max)
                 == Settle(Feed(Feed(st, waiting, lim.max), e.bytes, lim.max), e.joins, lim.min)
              && (held ==> st' == st && waiting' == waiting + e.bytes && pledged' == pledged)
              && (!held ==>
                    && waiting' == []
                    && pledged' == if Joins(h) || HasSparseExtension(h) then pledged else Also(pledged, st, lim))
              ==> OnTrack(rest[|e.bytes|..], step.next, st', waiting', false, pledged', goal)
  {
    hide Feed, EndGroup, Also, HasSparseExtension, Joins, IsNull;
    if NextElement(rest, ps).Some? {
      var e, lim := NextElement(rest, ps).value.element, goal.lim;
      EntryJoins(rest, ps);
      FeedConcat(st, waiting, e.bytes, lim.max);
      FeedNothing(st', lim.max);
    }
  }

  lemma EntryJoins(rest: Bytes, ps: ParseState)
    requires |rest| >= 512 && !IsNull(rest[..512]) && NextElement(rest, ps).Some?
    ensures NextElement(rest, ps).value.element.joins == Joins(rest[..512])
    ensures Held(ps.mem, rest[..512], |NextElement(rest, ps).value.element.bytes|) ==> Joins(rest[..512])
  {
    hide Joins, IsNull;
  }

  lemma Begin(input: Bytes, stack: Stack, lim: Limits)
    ensures OnTrack(input, Fresh(stack), EMPTY, [], false, {}, GoalOf(stack, input, lim))
  {
    hide Continue, Announced;
    FeedNothing(EMPTY, lim.max);
  }

  /** What the two buffers hold at the head of the loop. While null blocks are being counted, it is
      what they will hold when the run has been compressed. */
  function InMemory(heldLen: nat, nullRun: nat, held: HeldBuf, chunk: ChunkBuf): Memory
  {
    if nullRun > 0 then Buffers(0, held, Zeros(CHUNK_SIZE)) else Buffers(heldLen, held, chunk)
  }

  /** The counted null blocks, and the entries held before them, have nothing left to wait for. Entries
      that are held without null blocks go on waiting, unless the input has ended. */
  method EndRun(ctx: Context, held: array<Byte>, heldLen: nat, chunkBuf: array<Byte>, nullRun: nat,
                f: FrameState, ended: bool, ghost rest: Bytes, ghost pax: nat, ghost goal: Goal)
    returns (heldLen': nat, f': FrameState)
    requires ctx.Ready(f) && ctx.Lim() == goal.lim && chunkBuf.Length == CHUNK_SIZE
    requires heldLen <= HELD_SIZE == held.Length && nullRun < INPUT_LIMIT && held != chunkBuf
    requires OnTrack(rest, ParseState(pax, InMemory(heldLen, nullRun, held[..], chunkBuf[..])), ctx.Model(f),
                     held[..heldLen] + Zeros(nullRun), nullRun > 0, ctx.Pledged(f), goal)
    requires if ended then rest == [] else !StartsNull(rest)
    modifies ctx, chunkBuf
    ensures ctx.Lim() == goal.lim && ctx.Ready(f') && heldLen' <= heldLen
    ensures if ended then goal.frames == Ok(Finish(ctx.Model(f'))) && goal.pledged == ctx.Pledged(f')
            else OnTrack(rest, ParseState(pax, Buffers(heldLen', held[..], chunkBuf[..])), ctx.Model(f'),
                         held[..heldLen'], false, ctx.Pledged(f'), goal)
  {
    hide Recorded, Flatten, RawCodec.Valid, RawCodec.Conforms, EntriesOf, Session.Fed, Session.Emitted, Feed,
         EndGroup, Continue, IsNull, OnTrack, Also, Context.Tracks, Context.Model, Context.Pledged;
    heldLen', f' := heldLen, f;
    ghost var st, waiting, pledged := ctx.Model(f), held[..heldLen] + Zeros(nullRun), ctx.Pledged(f);
    ghost var ps := ParseState(pax, InMemory(heldLen, nullRun, held[..], chunkBuf[..]));
    if ended {
      InputIsOver(ps, st, waiting, nullRun > 0, pledged, goal);
    }
    if nullRun > 0 || (ended && heldLen > 0) {
      if !ended {
        RunIsOver(rest, ps, st, waiting, pledged, goal);
      }
      var r;
      r, f' := FlushRun(ctx, held[..heldLen], chunkBuf, nullRun, f);
      heldLen' := 0;
      assert held[..0] == [];
    } else {
      assert waiting == held[..heldLen];
    }
  }

  /** The entry whose header has been read. */
  method TakeEntry(ctx: Context, stdin: Input, hdr: Block, held: array<Byte>, heldLen: nat, chunkBuf: array<Byte>,
                   f: FrameState, pax: nat, ghost goal: Goal)
    returns (r: Status, heldLen': nat, f': FrameState, pax': nat)
    requires ctx.Ready(f) && ctx.Lim() == goal.lim && chunkBuf.Length == CHUNK_SIZE
    requires heldLen <= HELD_SIZE == held.Length && held != chunkBuf
    requires |stdin.rest| < INPUT_LIMIT && !IsNull(hdr)
    requires OnTrack(hdr + stdin.rest, ParseState(pax, Buffers(heldLen, held[..], chunkBuf[..])), ctx.Model(f),
                     held[..heldLen], false, ctx.Pledged(f), goal)
    modifies ctx, stdin, held, chunkBuf
    ensures r.Failure? ==> goal.frames == Fail
    ensures r.Success? ==>
              && ctx.Lim() == goal.lim && ctx.Ready(f')
              && heldLen' <= HELD_SIZE && |stdin.rest| <= |old(stdin.rest)|
              && OnTrack(stdin.rest, ParseState(pax', Buffers(heldLen', held[..], chunkBuf[..])), ctx.Model(f'),
                         held[..heldLen'] + Zeros(0), false, ctx.Pledged(f'), goal)
  {
    hide Recorded, Flatten, RawCodec.Valid, RawCodec.Conforms, EntriesOf, Session.Fed, Session.Emitted, Feed,
         EndGroup, Settle, Continue, NextElement, IsNull, Joins, HasSparseExtension, OnTrack, Also,
         Context.Tracks, Context.Model, Context.Pledged;
    ghost var st, waiting, rest := ctx.Model(f), held[..heldLen], hdr + stdin.rest;
    ghost var ps, pledged := ParseState(pax, Buffers(heldLen, held[..], chunkBuf[..])), ctx.Pledged(f);
    assert rest[..512] == hdr;
    r, heldLen', f', pax' := StreamEntry(ctx, stdin, hdr, held, heldLen, chunkBuf, f, pax);
    EntryTaken(rest, ps, st, waiting, pledged, ctx.Model(f'), held[..Min(heldLen', held.Length)], ctx.Pledged(f'),
               goal);
    assert r.Success? ==> held[..heldLen'] + Zeros(0) == held[..heldLen'];
    assert held[..0] == [];
  }

  /** Closes whatever is still open when the input has ended. */
  method CloseLast(ctx: Context, f: FrameState)
    requires ctx.Ready(f)
    modifies ctx
    ensures ctx.Lim() == old(ctx.Lim()) && ctx.Valid() && ctx.Idle()
    ensures ctx.contents == Finish(old(ctx.Model(f)))
    ensures SomeAt(ctx.pledges) == old(ctx.Pledged(f))
  {
    hide Recorded, Kept, SomeAt, Flatten, RawCodec.Valid, RawCodec.Conforms, EntriesOf, Session.Fed, Session.Emitted;
    if f.frameOpen {
      var r, f' := ctx.EndFrameAndRecord(f);
    }
  }

  /** The next block, as far as there is one. */
  method ReadHeader(stdin: Input, hdrBlock: array<Byte>) returns (got: nat, hdr: Block)
    requires hdrBlock.Length == 512
    modifies stdin, hdrBlock
    ensures got == Min(512, |old(stdin.rest)|) && stdin.rest == old(stdin.rest)[got..]
    ensures got == 512 ==> hdr + stdin.rest == old(stdin.rest) && (IsNull(hdr) <==> StartsNull(old(stdin.rest)))
    ensures got == 0 ==> old(stdin.rest) == []
  {
    got := stdin.Fread(hdrBlock, 512);
    hdr := hdrBlock[..];
    if got == 512 {
      assert hdr == hdrBlock[..512] == old(stdin.rest)[..512];
    }
  }

  /** A round of the loop that found a header, or the end of the input. */
  method Round(ctx: Context, stdin: Input, ended: bool, hdr: Block, held: array<Byte>, heldLen: nat,
               chunkBuf: array<Byte>, nullRun: nat, f: FrameState, pax: nat, ghost goal: Goal)
    returns (r: Status, heldLen': nat, f': FrameState, pax': nat)
    requires ctx.Ready(f) && ctx.Lim() == goal.lim && chunkBuf.Length == CHUNK_SIZE
    requires heldLen <= HELD_SIZE == held.Length && nullRun < INPUT_LIMIT && held != chunkBuf
    requires |stdin.rest| < INPUT_LIMIT
    requires if ended then stdin.rest == [] else !IsNull(hdr)
    requires OnTrack(if ended then [] else hdr + stdin.rest,
                     ParseState(pax, InMemory(heldLen, nullRun, held[..], chunkBuf[..])), ctx.Model(f),
                     held[..heldLen] + Zeros(nullRun), nullRun > 0, ctx.Pledged(f), goal)
    modifies ctx, stdin, held, chunkBuf
    ensures r.Failure? ==> goal.frames == Fail
    ensures r.Success? ==>
              && ctx.Lim() == goal.lim && ctx.Ready(f')
              && heldLen' <= HELD_SIZE && |stdin.rest| <= |old(stdin.rest)|
              && if ended then goal.frames == Ok(Finish(ctx.Model(f'))) && goal.pledged == ctx.Pledged(f')
                 else OnTrack(stdin.rest, ParseState(pax', Buffers(heldLen', held[..], chunkBuf[..])), ctx.Model(f'),
                              held[..heldLen'] + Zeros(0), false, ctx.Pledged(f'), goal)
  {
    hide Feed, EndGroup, Settle, Continue, NextElement, IsNull, OnTrack, Zeros, Context.Tracks, Context.Model,
         Context.Pledged, Context.Valid, Recorded, RawCodec.Valid;
    ghost var rest := if ended then [] else hdr + stdin.rest;
    assert !ended ==> rest[..512] == hdr;
    pax' := pax;
    heldLen', f' := EndRun(ctx, held, heldLen, chunkBuf, nullRun, f, ended, rest, pax, goal);
    r := Success;
    if !ended {
      r, heldLen', f', pax' := TakeEntry(ctx, stdin, hdr, held, heldLen', chunkBuf, f', pax, goal);
    }
  }

  /** The loop over headers: on success, only the last frame may be left open. */
  method TarLoop(ctx: Context, stdin: Input, hdrBlock: array<Byte>, held: array<Byte>, chunkBuf: array<Byte>,
                 ghost stack: Stack, ghost goal: Goal)
    returns (r: Status, f: FrameState)
    requires ctx.Valid() && ctx.Idle() && ctx.contents == [] && ctx.Lim() == goal.lim && |stdin.rest| < INPUT_LIMIT
    requires hdrBlock.Length == 512 && held.Length == HELD_SIZE && chunkBuf.Length == CHUNK_SIZE
    requires hdrBlock != held && hdrBlock != chunkBuf && held != chunkBuf
    requires stack == Buffers(0, held[..], chunkBuf[..]) && goal == GoalOf(stack, stdin.rest, goal.lim)
    modifies ctx, stdin, hdrBlock, held, chunkBuf
    ensures r.Failure? ==> goal.frames == Fail
    ensures r.Success? ==>
              && ctx.Lim() == goal.lim && ctx.Ready(f)
              && goal.frames == Ok(Finish(ctx.Model(f))) && goal.pledged == ctx.Pledged(f)
  {
    hide Feed, EndGroup, Settle, Continue, NextElement, IsNull, StartsNull, OnTrack, Zeros, GoalOf,
         Context.Ready, Context.Model, Context.Pledged, Context.Valid, Context.Idle;
    ctx.NothingOpen();
    Begin(stdin.rest, stack, goal.lim);
    NothingWaits(held[..0]);
    var heldLen: nat, nullRun: nat, paxNextSize := 0, 0, U64_MAX;
    f := CLOSED;
    while true
      invariant ctx.Ready(f) && ctx.Lim() == goal.lim
      invariant heldLen <= HELD_SIZE && nullRun + |stdin.rest| <= |old(stdin.rest)|
      invariant OnTrack(stdin.rest, ParseState(paxNextSize, InMemory(heldLen, nullRun, held[..], chunkBuf[..])),
                        ctx.Model(f), held[..heldLen] + Zeros(nullRun), nullRun > 0, ctx.Pledged(f), goal)
      decreases |stdin.rest|
    {
      ghost var rest := stdin.rest;
      ghost var ps := ParseState(paxNextSize, InMemory(heldLen, nullRun, held[..], chunkBuf[..]));
      var got, hdr := ReadHeader(stdin, hdrBlock);
      if got != 0 && got != 512 {
        NotABlock(rest, ps, ctx.Model(f), held[..heldLen] + Zeros(nullRun), nullRun > 0, ctx.Pledged(f), goal);
        return Failure(TruncatedArchive), f;
      }
      if got != 0 && IsNull(hdr) {
        NullBlock(rest, ps, ctx.Model(f), held[..heldLen], nullRun, ctx.Pledged(f), goal);
        nullRun := nullRun + 512;
        continue;
      }
      r, heldLen, f, paxNextSize :=
        Round(ctx, stdin, got == 0, hdr, held, heldLen, chunkBuf, nullRun, f, paxNextSize, goal);
      if got == 0 || r.Failure? {
        return;
      }
      nullRun := 0;
    }
  }

  lemma NothingWaits(held: Bytes)
    requires held == []
    ensures held + Zeros(0) == []
  {}

  /** A tar archive from standard input: the frames are those of the specification, or there are
      none. A size is pledged for exactly the frames that are begun with an element of known size, and
      no run fails because a frame did not get the size pledged for it.
      `stack` is what the two buffers, which are on the stack, happen to hold. */
  method CompressTar(ctx: Context, stdin: Input, stack: Stack) returns (r: Status)
    requires ctx.Valid() && ctx.Idle() && ctx.contents == [] && |stdin.rest| < INPUT_LIMIT
    modifies ctx, stdin
    ensures r.Success? <==> Frames(stack, old(stdin.rest), old(ctx.Lim())).Ok?
    ensures r.Success? ==>
              && ctx.Valid() && ctx.Idle()
              && Ok(ctx.contents) == Frames(stack, old(stdin.rest), old(ctx.Lim()))
    ensures r.Success? ==> SomeAt(ctx.pledges) == PledgedFrames(stack, old(stdin.rest), old(ctx.Lim()))
  {
    hide Recorded, Flatten, RawCodec.Valid, RawCodec.Conforms, EntriesOf, Session.Fed, Session.Emitted,
         Continue, Frames, Announced, SomeAt, Kept, Context.Model, Context.Pledged;
    ghost var input, lim := stdin.rest, ctx.Lim();
    ghost var goal := GoalOf(stack, input, lim);
    var chunkBuf := new Byte[CHUNK_SIZE](i requires 0 <= i < CHUNK_SIZE => stack.chunkBuf[i]);
    var hdrBlock := new Byte[512];
    var held := new Byte[HELD_SIZE](i requires 0 <= i < HELD_SIZE => stack.heldBuf[i]);
    assert chunkBuf[..] == stack.chunkBuf && held[..] == stack.heldBuf;
    var f;
    r, f := TarLoop(ctx, stdin, hdrBlock, held, chunkBuf, stack, goal);
    if r.Failure? {
      FailureIsRight(input, stack, lim);
      return;
    }
    CloseLast(ctx, f);
    FramesFound(input, stack, lim, ctx.contents);
    if ctx.frameCount == 0 {
      return Failure(NoEntries);
    }
  }

  lemma FailureIsRight(input: Bytes, stack: Stack, lim: Limits)
    requires GoalOf(stack, input, lim).frames == Fail
    ensures Frames(stack, input, lim) == Fail
  {
    if input != [] {
      FramesInOnePass(stack, input, lim);
    }
  }

  lemma FramesFound(input: Bytes, stack: Stack, lim: Limits, fs: seq<Bytes>)
    requires lim.Valid() && GoalOf(stack, input, lim).frames == Ok(fs)
    ensures Frames(stack, input, lim) == if fs == [] then Fail else Ok(fs)
  {
    NoInputIsRefused(stack, lim);
    if input != [] {
      FramesInOnePass(stack, input, lim);
      FramesOfArchive(stack, input, lim);
    }
  }
}
