/**
 The compression context: the output, the frame being compressed, and the seek table.
 `packed` and `contents` remember, for the proofs, what every frame ended so far is, and
 `pledges` the size the compressor was told when it was begun, if it was.
 */
module Context {
  import opened Basics
  import opened Numerals
  import opened Codec
  import opened Framing
  import opened SeekTable

  /** `ZSTD_CONTENTSIZE_UNKNOWN` */
  const CONTENTSIZE_UNKNOWN: nat := U64_MAX

  /** The counters of the frame in the making, which the source passes by address. */
  datatype FrameState = FrameState(frameIn: nat, frameOut: nat, frameOpen: bool)

  const CLOSED := FrameState(0, 0, false)

  /** What is known of the frames ended so far. */
  ghost predicate Recorded(codec: RawCodec, packed: seq<Bytes>, contents: seq<Bytes>)
  {
    && ArePacked(codec, packed, contents)
    && forall i | 0 <= i < |contents| :: 0 < |contents[i]| <= MAX_FRAME_SIZE && |packed[i]| < U32
  }

  lemma RecordedSnoc(codec: RawCodec, packed: seq<Bytes>, contents: seq<Bytes>, p: Bytes, x: Bytes)
    requires Recorded(codec, packed, contents)
    requires codec.IsFrame(p, x) && 0 < |x| <= MAX_FRAME_SIZE && |p| < U32
    ensures Recorded(codec, packed + [p], contents + [x])
  {}

  /** Every pledge that was made has been met. */
  ghost predicate Kept(pledges: seq<Option<nat>>, contents: seq<Bytes>)
  {
    && |pledges| == |contents|
    && forall k | 0 <= k < |pledges| && pledges[k].Some? :: pledges[k].value == |contents[k]|
  }

  lemma KeptSnoc(pledges: seq<Option<nat>>, contents: seq<Bytes>, pledge: Option<nat>, x: Bytes)
    requires Kept(pledges, contents) && (pledge.Some? ==> pledge.value == |x|)
    ensures Kept(pledges + [pledge], contents + [x])
  {}

  /** A size was pledged for every frame. */
  ghost predicate AllPledged(pledges: seq<Option<nat>>)
  {
    forall k | 0 <= k < |pledges| :: pledges[k].Some?
  }

  /** The frames for which a pledge was made. */
  ghost function SomeAt(pledges: seq<Option<nat>>): set<nat>
  {
    set k | 0 <= k < |pledges| && pledges[k].Some?
  }

  lemma SomeAtSnoc(pledges: seq<Option<nat>>, pledge: Option<nat>)
    ensures SomeAt(pledges + [pledge]) == if pledge.Some? then SomeAt(pledges) + {|pledges|} else SomeAt(pledges)
  {
    var all := pledges + [pledge];
    assert forall k | 0 <= k < |pledges| :: all[k] == pledges[k];
    assert all[|pledges|] == pledge;
  }

  lemma NewSession(codec: RawCodec, pledged: Option<nat>)
    ensures var s := Session(pledged, []);
            codec.Conforms(s) && s.Fed() == [] && s.Emitted() == [] && !s.Ending() && !s.Ended()
  {}

  class Context {
    const codec: Codec
    const outBuffSize: nat
    const noTable: bool
    var minBlockSize: nat
    var maxBlockSize: nat

    var outFile: Bytes
    var cctx: Session

    var seekTable: seq<Entry>
    var seekTableCap: nat
    var skipSeekTable: bool
    var frameCount: nat

    ghost var packed: seq<Bytes>
    ghost var contents: seq<Bytes>
    ghost var pledges: seq<Option<nat>>

    ghost function Lim(): Limits
      reads this
    {
      Limits(minBlockSize, maxBlockSize)
    }

    /** The table lists all frames, unless none was asked for (`-j`) or there are too many. */
    ghost predicate TableValid()
      reads this
    {
      && |packed| == |contents| == |pledges| == frameCount
      && |seekTable| <= seekTableCap
      && (skipSeekTable <==> noTable || frameCount >= MAX_ENTRIES)
      && (!skipSeekTable ==> seekTable == EntriesOf(packed, contents))
    }

    ghost predicate Valid()
      reads this
    {
      && outBuffSize >= 1
      && Lim().Valid()
      && Recorded(codec, packed, contents)
      && Kept(pledges, contents)
      && TableValid()
    }

    /** No frame is in the making: the output is the frames ended so far. */
    ghost predicate Idle()
      reads this
    {
      outFile == Flatten(packed)
    }

    constructor (codec: Codec, outBuffSize: nat, minBlockSize: nat, maxBlockSize: nat, noTable: bool)
      requires outBuffSize >= 1 && Limits(minBlockSize, maxBlockSize).Valid()
      ensures Valid() && Idle() && contents == [] && outFile == [] && pledges == []
      ensures this.codec == codec && Lim() == Limits(minBlockSize, maxBlockSize)
      ensures this.noTable == noTable
    {
      this.codec, this.outBuffSize, this.noTable := codec, outBuffSize, noTable;
      this.minBlockSize, this.maxBlockSize := minBlockSize, maxBlockSize;
      this.outFile, this.cctx := [], Session(None, []);
      this.seekTable, this.seekTableCap, this.skipSeekTable, this.frameCount := [], 0, noTable, 0;
      this.packed, this.contents, this.pledges := [], [], [];
    }

    // --- The seek table ---

    /** Capacity doubles from 1024 until the table fits. */
    method SeekTableEnsureCap(needed: nat)
      modifies `seekTableCap
      ensures seekTableCap >= needed && seekTableCap >= old(seekTableCap)
    {
      if seekTableCap >= needed {
        return;
      }
      var newCap := if seekTableCap != 0 then seekTableCap else 1024;
      while newCap < needed
        invariant newCap > 0 && newCap >= seekTableCap
      {
        newCap := newCap * 2;
      }
      seekTableCap := newCap;
    }

    /** A frame `p` of the bytes `x` has been written, with this pledge. The casts to 32 bits lose nothing. */
    method SeekTableAdd(compressedSize: nat, decompressedSize: nat, ghost p: Bytes, ghost x: Bytes,
                        ghost pledge: Option<nat>)
      requires Valid() && codec.IsFrame(p, x) && 0 < |x| <= MAX_FRAME_SIZE && |p| < U32
      requires compressedSize == |p| && decompressedSize == |x| && (pledge.Some? ==> pledge.value == |x|)
      modifies `frameCount, `skipSeekTable, `seekTable, `seekTableCap, `packed, `contents, `pledges
      ensures Valid() && packed == old(packed) + [p] && contents == old(contents) + [x]
      ensures pledges == old(pledges) + [pledge]
    {
      hide Recorded, Kept, RawCodec.Valid, RawCodec.IsFrame, EntriesOf;
      frameCount := frameCount + 1;
      RecordedSnoc(codec, packed, contents, p, x);
      EntriesSnoc(packed, contents, p, x);
      KeptSnoc(pledges, contents, pledge, x);
      packed, contents, pledges := packed + [p], contents + [x], pledges + [pledge];
      if skipSeekTable {
        return;
      }
      if |seekTable| + 1 >= MAX_ENTRIES {
        skipSeekTable := true;
        return;
      }
      SeekTableEnsureCap(|seekTable| + 1);
      seekTable := seekTable + [Entry(compressedSize % U32, decompressedSize % U32)];
    }

    // --- The compressor ---

    method ZstdResetFrame()
      modifies `cctx
      ensures cctx == Session(None, [])
    {
      cctx := Session(None, []);
    }

    method ZstdSetPledged(size: nat, known: bool)
      modifies `cctx
      ensures cctx == Session(if known then Some(size) else None, old(cctx).log)
    {
      cctx := Session(if known then Some(size) else None, cctx.log);
    }

    /** `ZSTD_compressStream2()`, which writes what it gives to the output file. */
    method CompressStream2(input: Bytes, end: bool) returns (reply: Reply)
      requires codec.Conforms(cctx) && outBuffSize >= 1 && cctx.Allows(Request(input, outBuffSize, end))
      modifies `cctx, `outFile
      ensures reply.Refused? ==>
                cctx.pledged.Some? && if end then |old(cctx).Fed()| != cctx.pledged.value
                                      else |old(cctx).Fed()| + |input| > cctx.pledged.value
      ensures cctx.pledged == old(cctx).pledged
      ensures reply.Refused? ==> cctx == old(cctx) && outFile == old(outFile)
      ensures reply.Reply? ==>
                && codec.Conforms(cctx)
                && cctx.Ending() == end && (cctx.Ended() <==> end && reply.remaining == 0)
                && reply.consumed <= |input|
                && cctx.Fed() == old(cctx).Fed() + input[..reply.consumed]
                && cctx.Emitted() == old(cctx).Emitted() + reply.output
                && outFile == old(outFile) + reply.output
      ensures reply.Reply? && !end && reply.consumed == 0 ==> codec.pending(cctx) < codec.pending(old(cctx))
      ensures reply.Reply? && end && cctx.pledged.Some? ==> |old(cctx).Fed()| == cctx.pledged.value
      ensures reply.Reply? && end && reply.remaining > 0 ==> codec.pending(cctx) < codec.pending(old(cctx))
      ensures reply.Reply? && end && reply.remaining == 0 && |cctx.Fed()| <= MAX_FRAME_SIZE ==>
                codec.IsFrame(cctx.Emitted(), cctx.Fed()) && |cctx.Emitted()| < U32
    {
      hide RawCodec.Valid, RawCodec.Conforms, RawCodec.IsFrame, Session.Fed, Session.Emitted, Session.Ending,
           Session.Ended;
      var req := Request(input, outBuffSize, end);
      reply := codec.step(cctx, req);
      CallIsGood(codec, cctx, req);
      if reply.Reply? {
        var x := Exchange(req, reply);
        AfterParts(cctx, x);
        cctx := cctx.After(x);
        assert end ==> cctx.Fed() == old(cctx).Fed();
        outFile := outFile + reply.output;
      }
    }
  
    /** Whatever the compressor takes and gives at each call, what is written is one frame of `src`,
        begun with its size pledged. */
    method CompressBufferToFrame(src: Bytes) returns (compressedSize: nat, ghost p: Bytes)
      requires outBuffSize >= 1 && 0 < |src| <= MAX_FRAME_SIZE
      modifies `cctx, `outFile
      ensures codec.IsFrame(p, src) && compressedSize == |p| < U32
      ensures cctx.pledged == Some(|src|)
      ensures outFile == old(outFile) + p
    {
      hide RawCodec.Valid, RawCodec.IsFrame, RawCodec.Conforms, Session.Fed, Session.Emitted, Session.Ending,
           Session.Ended;
      ZstdResetFrame();
      ZstdSetPledged(|src|, true);
      NewSession(codec, Some(|src|));
      var pos: nat := 0;
      compressedSize := 0;
      while true
        invariant pos <= |src| && codec.Conforms(cctx) && !cctx.Ended()
        invariant pos < |src| ==> !cctx.Ending()
        invariant cctx.pledged == Some(|src|) && cctx.Fed() == src[..pos]
        invariant compressedSize == |cctx.Emitted()|
        invariant outFile == old(outFile) + cctx.Emitted()
        decreases |src| - pos, codec.pending(cctx)
      {
        var end := pos >= |src|;
        var reply := CompressStream2(src[pos..], end);
        if reply.Refused? {
          assert false;
        }
        assert src[..pos] + src[pos..][..reply.consumed] == src[..pos + reply.consumed];
        compressedSize := compressedSize + |reply.output|;
        pos := pos + reply.consumed;
        if end && reply.remaining == 0 {
          break;
        }
      }
      assert src[..pos] == src;
      p := cctx.Emitted();
    }

    /** Ends the frame in the making; the compressor refuses if the pledge was not met. */
    method EndFrame() returns (r: Status, compressedSize: nat, ghost rest: Bytes)
      requires outBuffSize >= 1 && codec.Conforms(cctx) && !cctx.Ended() && |cctx.Fed()| <= MAX_FRAME_SIZE
      modifies `cctx, `outFile
      ensures r.Success? <==> (old(cctx).pledged.Some? ==> old(cctx).pledged.value == |old(cctx).Fed()|)
      ensures compressedSize == |rest| && outFile == old(outFile) + rest
      ensures r.Success? ==> var p := old(cctx).Emitted() + rest; codec.IsFrame(p, old(cctx).Fed()) && |p| < U32
    {
      hide RawCodec.Valid, RawCodec.IsFrame, RawCodec.Conforms, Session.Fed, Session.Emitted, Session.Ending,
           Session.Ended;
      compressedSize, rest := 0, [];
      while true
        invariant codec.Conforms(cctx) && !cctx.Ended()
        invariant cctx.pledged == old(cctx).pledged && cctx.Fed() == old(cctx).Fed()
        invariant cctx.Emitted() == old(cctx).Emitted() + rest
        invariant compressedSize == |rest| && outFile == old(outFile) + rest
        decreases codec.pending(cctx)
      {
        var reply := CompressStream2([], true);
        if reply.Refused? {
          return Failure(CodecRefused), compressedSize, rest;
        }
        assert cctx.Fed() == old(cctx).Fed();
        compressedSize, rest := compressedSize + |reply.output|, rest + reply.output;
        assert cctx.Emitted() == old(cctx).Emitted() + rest;
        if reply.remaining == 0 {
          break;
        }
      }
      r := Success;
    }
  
    /** One frame of exactly these bytes, written and counted. */
    method WriteFrame(src: Bytes)
      requires Valid() && Idle() && 0 < |src| <= MAX_FRAME_SIZE
      modifies `cctx, `outFile, `frameCount, `skipSeekTable, `seekTable, `seekTableCap, `packed, `contents, `pledges
      ensures Valid() && Idle() && contents == old(contents) + [src]
      ensures pledges == old(pledges) + [Some(|src|)]
    {
      hide RawCodec.Valid, RawCodec.IsFrame, Recorded, Kept, EntriesOf, Flatten;
      var compressedSize;
      ghost var p;
      compressedSize, p := CompressBufferToFrame(src);
      FlattenSnoc(packed, p);
      SeekTableAdd(compressedSize, |src|, p, src, cctx.pledged);
    }

    // --- Frames built up piece by piece ---

    /** The counters `f` and the output tell the truth about the frame in the making. */
    ghost predicate Tracks(f: FrameState)
      reads this
    {
      && Valid()
      && if f.frameOpen then
           && codec.Conforms(cctx) && !cctx.Ending() && !cctx.Ended()
           && f.frameIn == |cctx.Fed()| <= maxBlockSize
           && f.frameOut == |cctx.Emitted()|
           && outFile == Flatten(packed) + cctx.Emitted()
         else Idle()
    }

    /** So they do, and an open frame has room: it closes the moment it is full. */
    ghost predicate Holds(f: FrameState)
      reads this
    {
      Tracks(f) && (f.frameOpen ==> f.frameIn < maxBlockSize)
    }

    /** The frames so far, as the specification sees them. */
    ghost function Model(f: FrameState): Framer
      reads this
    {
      Framer(contents, if f.frameOpen then cctx.Fed() else [])
    }

    /** The frames whose size was pledged, the one in the making included. */
    ghost function Pledged(f: FrameState): set<nat>
      reads this
    {
      if f.frameOpen && cctx.pledged.Some? then SomeAt(pledges) + {|contents|} else SomeAt(pledges)
    }

    /** If the size of the frame in the making was pledged, it is what the frame will hold when
        `rem` more bytes have come and nothing else closes it before. */
    ghost predicate PledgeMet(f: FrameState, rem: int)
      reads this
    {
      f.frameOpen && cctx.pledged.Some? ==> cctx.pledged.value == Min(maxBlockSize, |cctx.Fed()| + rem)
    }

    /** The frame in the making, if there is one, has no pledged size. */
    ghost predicate Unpledged(f: FrameState)
      reads this
    {
      f.frameOpen ==> cctx.pledged.None?
    }

    /** So it is between elements: an open frame also holds something. */
    ghost predicate Ready(f: FrameState)
      reads this
    {
      Holds(f) && Unpledged(f) && (f.frameOpen ==> f.frameIn > 0)
    }

    lemma NothingOpen()
      requires Valid() && Idle()
      ensures Ready(CLOSED) && Model(CLOSED) == Framer(contents, []) && Pledged(CLOSED) == SomeAt(pledges)
      ensures contents == [] ==> SomeAt(pledges) == {}
    {}

    method StartFrame(size: nat) returns (f: FrameState)
      requires Valid() && Idle()
      modifies `cctx
      ensures Holds(f) && f.frameOpen && cctx.Fed() == []
      ensures cctx.pledged == if size == CONTENTSIZE_UNKNOWN then None else Some(size)
    {
      hide RawCodec.Valid, RawCodec.Conforms, Recorded, Kept, Session.Fed, Session.Emitted;
      ZstdResetFrame();
      ZstdSetPledged(size, size != CONTENTSIZE_UNKNOWN);
      NewSession(codec, cctx.pledged);
      f := FrameState(0, 0, true);
      assert Flatten(packed) + [] == Flatten(packed);
    }

    /** Opens the frame of an element of `size` bytes, if it is to have its own. */
    method StartElementFrame(size: nat, f: FrameState) returns (f': FrameState)
      requires Holds(f)
      modifies `cctx
      ensures Holds(f') && Model(f') == old(Model(f))
      ensures f.frameOpen || minBlockSize != 0 ==> cctx == old(cctx) && f' == f
      ensures !f.frameOpen && minBlockSize == 0 ==>
                f'.frameOpen && cctx.pledged == Some(Min(size, maxBlockSize)) && cctx.Fed() == []
      ensures Pledged(f')
              == if minBlockSize == 0 && !f.frameOpen then old(Pledged(f)) + {|contents|} else old(Pledged(f))
      ensures !f.frameOpen ==> PledgeMet(f', size)
    {
      hide RawCodec.Valid, RawCodec.Conforms, Recorded, Kept, SomeAt, Flatten, EntriesOf, Session.Fed, Session.Emitted;
      if minBlockSize != 0 || f.frameOpen {
        return f;
      }
      f' := StartFrame(if maxBlockSize != 0 && size > maxBlockSize then maxBlockSize else size);
    }

    method EndFrameAndRecord(f: FrameState) returns (r: Status, f': FrameState)
      requires Tracks(f) && (f.frameOpen ==> f.frameIn > 0)
      modifies `cctx, `outFile, `frameCount, `skipSeekTable, `seekTable, `seekTableCap, `packed, `contents, `pledges
      ensures r.Success? ==> Holds(f') && !f'.frameOpen && contents == Finish(old(Model(f)))
      ensures r.Success? ==> Pledged(f') == old(Pledged(f)) == SomeAt(pledges)
      ensures old(PledgeMet(f, 0)) ==> r.Success?
    {
      hide RawCodec.Valid, RawCodec.Conforms, RawCodec.IsFrame, Recorded, Kept, SomeAt, Session.Fed, Session.Emitted;
      f' := f;
      if !f.frameOpen {
        return Success, f;
      }
      ghost var given := cctx.Emitted();
      var size;
      ghost var rest;
      r, size, rest := EndFrame();
      if r.Success? {
        FlattenSnoc(packed, given + rest);
        assert Flatten(packed) + given + rest == Flatten(packed) + (given + rest);
        SomeAtSnoc(pledges, old(cctx.pledged));
        SeekTableAdd(f.frameOut + size, f.frameIn, given + rest, old(cctx.Fed()), old(cctx.pledged));
        f' := f.(frameOpen := false);
      }
    }

    /** Compresses a piece of the frame in the making. */
    method CompressChunk(chunk: Bytes, frameOut: nat) returns (r: Status, frameOut': nat, ghost output: Bytes)
      requires outBuffSize >= 1 && codec.Conforms(cctx) && !cctx.Ending() && !cctx.Ended()
      modifies `cctx, `outFile
      ensures r.Success? ==>
                && codec.Conforms(cctx) && !cctx.Ending() && !cctx.Ended()
                && cctx.pledged == old(cctx).pledged
                && cctx.Fed() == old(cctx).Fed() + chunk
                && cctx.Emitted() == old(cctx).Emitted() + output
                && outFile == old(outFile) + output
                && frameOut' == frameOut + |output|
      ensures (cctx.pledged.Some? ==> |old(cctx).Fed()| + |chunk| <= cctx.pledged.value) ==> r.Success?
      ensures cctx.pledged == old(cctx).pledged
    {
      hide RawCodec.Valid, RawCodec.Conforms, Session.Fed, Session.Emitted, Session.Ending,
           Session.Ended;
      frameOut', output := frameOut, [];
      var pos: nat := 0;
      while pos < |chunk|
        invariant pos <= |chunk| && codec.Conforms(cctx) && !cctx.Ending() && !cctx.Ended()
        invariant cctx.pledged == old(cctx).pledged
        invariant cctx.Fed() == old(cctx).Fed() + chunk[..pos]
        invariant cctx.Emitted() == old(cctx).Emitted() + output
        invariant outFile == old(outFile) + output && frameOut' == frameOut + |output|
        decreases |chunk| - pos, codec.pending(cctx)
      {
        var reply := CompressStream2(chunk[pos..], false);
        if reply.Refused? {
          return Failure(CodecRefused), frameOut', output;
        }
        assert chunk[..pos] + chunk[pos..][..reply.consumed] == chunk[..pos + reply.consumed];
        output := output + reply.output;
        frameOut' := frameOut' + |reply.output|;
        pos := pos + reply.consumed;
      }
      assert chunk[..pos] == chunk;
      r := Success;
    }

    /** Takes `src` into frames. However the input is cut into pieces, the frames are the same. */
    method PushBytesTar(src: Bytes, f: FrameState, ghost rem: nat) returns (r: Status, f': FrameState)
      requires Holds(f)
      modifies `cctx, `outFile, `frameCount, `skipSeekTable, `seekTable, `seekTableCap, `packed, `contents, `pledges
      ensures r.Success? ==> Holds(f') && Model(f') == Feed(old(Model(f)), src, maxBlockSize)
      ensures r.Success? ==> Pledged(f') == old(Pledged(f))
      ensures r.Success? && (src != [] || (f.frameOpen ==> f.frameIn > 0)) && f'.frameOpen ==> f'.frameIn > 0
      ensures |src| <= rem && old(PledgeMet(f, rem)) ==> r.Success? && PledgeMet(f', rem - |src|)
      ensures r.Success? && old(Unpledged(f)) ==> Unpledged(f')
    {
      hide RawCodec.Valid, RawCodec.Conforms, Recorded, Kept, SomeAt, Pledged, Session.Fed, Session.Emitted,
           Session.Ending, Session.Ended, Feed, Flatten, EntriesOf;
      f' := f;
      var off: nat := 0;
      ghost var start, met := Model(f), |src| <= rem && PledgeMet(f, rem);
      FeedNothing(start, maxBlockSize);
      while off < |src|
        invariant off <= |src| && Holds(f')
        invariant Model(f') == Feed(start, src[..off], maxBlockSize) && Pledged(f') == old(Pledged(f))
        invariant (off > 0 || (f.frameOpen ==> f.frameIn > 0)) && f'.frameOpen ==> f'.frameIn > 0
        invariant met ==> PledgeMet(f', rem - off)
        invariant old(Unpledged(f)) ==> Unpledged(f')
      {
        var canWrite := Min(|src| - off, maxBlockSize - (if f'.frameOpen then f'.frameIn else 0));
        FeedConcat(start, src[..off], src[off..off + canWrite], maxBlockSize);
        assert src[..off] + src[off..off + canWrite] == src[..off + canWrite];
        r, f' := PushPiece(src[off..off + canWrite], f', rem - off);
        if r.Failure? {
          return;
        }
        off := off + canWrite;
      }
      assert src[..off] == src;
      r := Success;
    }

    /** One round of the loop of `pushBytesTar()`: a piece that does not go past the maximum. */
    method PushPiece(piece: Bytes, f: FrameState, ghost rem: int) returns (r: Status, f': FrameState)
      requires Holds(f) && piece != []
      requires |piece| + (if f.frameOpen then f.frameIn else 0) <= maxBlockSize
      modifies `cctx, `outFile, `frameCount, `skipSeekTable, `seekTable, `seekTableCap, `packed, `contents, `pledges
      ensures r.Success? ==> Holds(f') && Model(f') == Feed(old(Model(f)), piece, maxBlockSize)
      ensures r.Success? ==> Pledged(f') == old(Pledged(f))
      ensures r.Success? && f'.frameOpen ==> f'.frameIn > 0
      ensures |piece| <= rem && old(PledgeMet(f, rem)) ==> r.Success? && PledgeMet(f', rem - |piece|)
      ensures r.Success? && old(Unpledged(f)) ==> Unpledged(f')
    {
      hide RawCodec.Valid, RawCodec.Conforms, RawCodec.IsFrame, Recorded, Kept, SomeAt, Session.Fed, Session.Emitted,
           Feed;
      f' := f;
      if !f.frameOpen {
        f' := StartFrame(CONTENTSIZE_UNKNOWN);
      }
      FeedChunk(Model(f'), piece, maxBlockSize);
      var frameOut;
      ghost var given, output := cctx.Emitted(), [];
      r, frameOut, output := CompressChunk(piece, f'.frameOut);
      if r.Failure? {
        return;
      }
      assert Flatten(packed) + given + output == Flatten(packed) + (given + output);
      f' := FrameState(f'.frameIn + |piece|, frameOut, true);
      if maxBlockSize != 0 && f'.frameIn >= maxBlockSize {
        r, f' := EndFrameAndRecord(f');
      }
    }
  
    // --- The end of the file ---

    method WriteSeekTable()
      requires |seekTable| < MAX_ENTRIES && forall e | e in seekTable :: e.Fits()
      modifies `outFile
      ensures outFile == old(outFile) + TableBytes(seekTable)
    {
      hide LittleEndian32;
      outFile := outFile + LittleEndian32(SKIPPABLE_MAGIC);
      outFile := outFile + LittleEndian32((|seekTable| * 8 + 9) % U32);
      ghost var head := outFile;
      for i := 0 to |seekTable|
        invariant outFile == head + EntriesBytes(seekTable[..i])
      {
        var e := seekTable[i];
        assert e in seekTable;
        assert seekTable[..i + 1][..i] == seekTable[..i];
        outFile := outFile + LittleEndian32(e.compressedSize % U32);
        outFile := outFile + LittleEndian32(e.decompressedSize % U32);
        assert outFile == head + (EntriesBytes(seekTable[..i]) + EntryBytes(e));
      }
      assert seekTable[..|seekTable|] == seekTable;
      outFile := outFile + LittleEndian32(|seekTable| % U32);
      outFile := outFile + [0];
      outFile := outFile + LittleEndian32(SEEKABLE_MAGIC);
    }
  }
}
