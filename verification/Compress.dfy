/** `compressFile()`: the four ways to compress, and what they have in common. */
module Compress {
  import opened Basics
  import opened Codec
  import opened SeekTable
  import opened Framing
  import opened FrameShape
  import opened Elements
  import opened Pledges
  import opened TarFrames
  import opened Raw
  import opened Context
  import opened Archive
  import opened Agreement
  import Mapped
  import Stdin

  /** `-s` and `-S` as given, 0 if not; an input whose blocks fit the seek table whatever they say. */
  function Clamped(rawMode: bool, minBlockSize: nat, maxBlockSize: nat): (lim: Limits)
    requires maxBlockSize == 0 || maxBlockSize >= minBlockSize
    ensures lim.Valid()
  {
    Limits(
      if minBlockSize > MAX_FRAME_SIZE then MAX_FRAME_SIZE else minBlockSize,
      if rawMode || maxBlockSize == 0 || maxBlockSize > MAX_FRAME_SIZE then MAX_FRAME_SIZE else maxBlockSize)
  }

  /** The frames that the input should be cut into. `stack` is what the buffers for standard input hold
      when they come into being; it does not matter for a file, or in raw mode. */
  ghost function Wanted(stdinMode: bool, rawMode: bool, input: Bytes, stack: Stack, lim: Limits): Result<seq<Bytes>>
    requires lim.Valid()
  {
    if rawMode then Ok(Blocks(input, BlockSize(lim)))
    else Frames(if stdinMode then stack else TheMap, input, lim)
  }

  /** For which frames the compressor is told the size: all that are in memory before they are compressed,
      none of a stream that is cut anywhere, and of an archive in a stream those that are known in time. */
  ghost predicate PledgesMade(stdinMode: bool, rawMode: bool, minBlockSize: nat, input: Bytes, stack: Stack,
                              lim: Limits, pledges: seq<Option<nat>>)
  {
    if !stdinMode || (rawMode && minBlockSize > 0) then AllPledged(pledges)
    else if rawMode then SomeAt(pledges) == {}
    else SomeAt(pledges) == PledgedFrames(stack, input, lim)
  }

  /** The whole run. `pledges` tells for each frame what size was pledged for it, if one was. */
  method CompressFile(codec: Codec, outBuffSize: nat, stdinMode: bool, rawMode: bool,
                      minBlockSize: nat, maxBlockSize: nat, noTable: bool, input: Bytes, stack: Stack)
    returns (r: Status, outFile: Bytes, ghost pledges: seq<Option<nat>>)
    requires outBuffSize >= 1 && |input| < INPUT_LIMIT
    requires maxBlockSize == 0 || maxBlockSize >= minBlockSize
    ensures var wanted := Wanted(stdinMode, rawMode, input, stack, Clamped(rawMode, minBlockSize, maxBlockSize));
            && (r.Success? <==> wanted.Ok?)
            && (r.Success? ==> IsFileOf(codec, outFile, wanted.value, noTable))
    ensures r.Success? ==> DecompressAll(codec, outFile) == Some(input)
    ensures var wanted := Wanted(stdinMode, rawMode, input, stack, Clamped(rawMode, minBlockSize, maxBlockSize));
            && (r.Success? && !noTable && |wanted.value| < 0x800_0000 ==>
                  && ReadTable(outFile).Some? && |ReadTable(outFile).value| == |wanted.value|
                  && forall lo, hi | 0 <= lo <= hi <= |input| ::
                       ReadRange(codec, outFile, ReadTable(outFile).value, 0, 0, lo, hi) == Some(input[lo..hi]))
            && (r.Success? && (noTable || |wanted.value| >= 0x800_0000) ==>
                  exists packed :: ArePacked(codec, packed, wanted.value) && outFile == Flatten(packed))
    ensures var lim := Clamped(rawMode, minBlockSize, maxBlockSize);
            r.Success? ==>
              && Kept(pledges, Wanted(stdinMode, rawMode, input, stack, lim).value)
              && PledgesMade(stdinMode, rawMode, minBlockSize, input, stack, lim, pledges)
  {
    hide Frames, Blocks, RawCodec.Valid, RawCodec.Conforms, Recorded, Kept, SomeAt, AllPledged, PledgedFrames,
         EntriesOf, Flatten, TableBytes, ReadTable, ReadRange, DecompressAll, IsFileOf;
    outFile, pledges := [], [];
    var lim := Clamped(rawMode, minBlockSize, maxBlockSize);
    var ctx := new Context(codec, outBuffSize, lim.min, lim.max, noTable);
    r := Success;
    if stdinMode {
      var stdin := new Stdin.Input(input);
      if rawMode {
        if ctx.minBlockSize == 0 {
          r := Stdin.CompressStream(ctx, stdin);
        } else {
          Stdin.CompressBlocks(ctx, stdin);
        }
      } else {
        r := Stdin.CompressTar(ctx, stdin, stack);
      }
    } else {
      if rawMode {
        Mapped.CompressRaw(ctx, input);
      } else {
        r := Mapped.CompressTar(ctx, input);
      }
    }
    if r.Success? {
      pledges := ctx.pledges;
      CleanupCompression(ctx);
      outFile := ctx.outFile;
      Lossless(codec, stdinMode, rawMode, input, stack, lim, noTable, outFile);
      TableIfAsked(codec, outFile, Wanted(stdinMode, rawMode, input, stack, lim).value, noTable);
    }
  }

  method CleanupCompression(ctx: Context)
    requires ctx.Valid() && ctx.Idle()
    modifies ctx
    ensures IsFileOf(ctx.codec, ctx.outFile, old(ctx.contents), ctx.noTable)
  {
    hide RawCodec.Valid, RawCodec.Conforms, Flatten, TableBytes, EntriesOf;
    if !ctx.skipSeekTable {
      EntriesFit(ctx.codec, ctx.packed, ctx.contents);
      ctx.WriteSeekTable();
    }
    assert IsArchive(ctx.codec, ctx.outFile, ctx.packed, ctx.contents, ctx.noTable);
  }

  /** Whatever the mode and the limits, the wanted frames hold the input, none is empty, and none
      is larger than the seek table can describe. */
  lemma WantedIsInput(stdinMode: bool, rawMode: bool, input: Bytes, stack: Stack, lim: Limits)
    requires lim.Valid() && Wanted(stdinMode, rawMode, input, stack, lim).Ok?
    ensures Flatten(Wanted(stdinMode, rawMode, input, stack, lim).value) == input
  {
    if rawMode {
      Shape(input, BlockSize(lim));
    } else {
      FramesOfArchive(if stdinMode then stack else TheMap, input, lim);
    }
  }

  /** A run that succeeds loses nothing: the file decompresses to the input, and any range of the
      input can be read through the seek table if there is one. */
  lemma Lossless(codec: Codec, stdinMode: bool, rawMode: bool, input: Bytes, stack: Stack, lim: Limits, noTable: bool,
                 file: Bytes)
    requires lim.Valid() && Wanted(stdinMode, rawMode, input, stack, lim).Ok?
    requires IsFileOf(codec, file, Wanted(stdinMode, rawMode, input, stack, lim).value, noTable)
    ensures DecompressAll(codec, file) == Some(input)
    ensures !noTable && |Wanted(stdinMode, rawMode, input, stack, lim).value| < 0x800_0000 ==>
              && ReadTable(file).Some?
              && forall lo, hi | 0 <= lo <= hi <= |input| ::
                   ReadRange(codec, file, ReadTable(file).value, 0, 0, lo, hi) == Some(input[lo..hi])
  {
    hide Frames, Blocks, RawCodec.Valid, IsArchive, DecompressAll, ReadRange, ReadTable, Wanted;
    var fs := Wanted(stdinMode, rawMode, input, stack, lim).value;
    var packed :| IsArchive(codec, file, packed, fs, noTable);
    WantedIsInput(stdinMode, rawMode, input, stack, lim);
    WholeDecompresses(codec, file, packed, fs, noTable);
    TableIfAsked(codec, file, fs, noTable);
  }

  /** The frames are as `-s` and `-S` ask, as far as 2^31 - 1 bytes allow. `-S` is a maximum in tar mode, and `-s` is
      reached by every frame but the last, in raw mode exactly. A frame goes past the end of a group only
      below `-s`, and ends inside a group only when it is full. */
  lemma FramesAsAsked(stdinMode: bool, rawMode: bool, minBlockSize: nat, maxBlockSize: nat, input: Bytes,
                      stack: Stack, k: nat)
    requires maxBlockSize == 0 || maxBlockSize >= minBlockSize
    requires var wanted := Wanted(stdinMode, rawMode, input, stack, Clamped(rawMode, minBlockSize, maxBlockSize));
             wanted.Ok? && k < |wanted.value|
    ensures var fs := Wanted(stdinMode, rawMode, input, stack, Clamped(rawMode, minBlockSize, maxBlockSize)).value;
            var from, n := Start(fs, k), |fs[k]|;
            var full := if maxBlockSize == 0 then 0x7FFF_FFFF else Min(maxBlockSize, 0x7FFF_FFFF);
            && 0 < n <= 0x7FFF_FFFF
            && (k < |fs| - 1 ==> n >= Min(minBlockSize, 0x7FFF_FFFF))
            && (rawMode && k < |fs| - 1 ==>
                  n == if minBlockSize > 0 then Min(minBlockSize, 0x7FFF_FFFF) else 0x7FFF_FFFF)
            && (!rawMode ==>
                  var ends := Ends(GroupsOf(if stdinMode then stack else TheMap, input));
                  && (maxBlockSize > 0 ==> n <= maxBlockSize)
                  && (forall p | p in ends && from < p < from + n :: p - from < minBlockSize)
                  && (k < |fs| - 1 && from + n !in ends ==> n == full))
  {
    hide Frames, Blocks, Ends, Start, Flatten, GroupsOf;
    var lim := Clamped(rawMode, minBlockSize, maxBlockSize);
    var fs := Wanted(stdinMode, rawMode, input, stack, lim).value;
    if rawMode {
      Shape(input, BlockSize(lim));
    } else {
      var mem := if stdinMode then stack else TheMap;
      FramesOfArchive(mem, input, lim);
      FramesCharacterised(mem, input, lim, fs);
      assert ShapeAt(fs, Ends(GroupsOf(mem, input)), lim, k);
      assert FrameFits(Start(fs, k), |fs[k]|, Ends(GroupsOf(mem, input)), lim);
    }
  }

  /** A file and a pipe of the same bytes are cut into the same frames, or both refused: always in
      raw mode, and in tar mode if no entry is disputed. */
  lemma FileAndPipeAgree(rawMode: bool, input: Bytes, stack: Stack, lim: Limits)
    requires lim.Valid() && (rawMode || Undisputed(input, Fresh(TheMap), Fresh(stack)))
    ensures Wanted(true, rawMode, input, stack, lim) == Wanted(false, rawMode, input, stack, lim)
  {
    if !rawMode {
      PathsAgree(input, stack, lim);
    }
  }
}
