/** What a reader gets from a finished file. */
module Archive {
  import opened Basics
  import opened Codec
  import opened SeekTable
  import opened Context

  /** A finished file: the frames `packed` of the contents `fs`, and the seek table, unless none
      was asked for or there are too many frames for one. */
  ghost predicate IsArchive(codec: RawCodec, file: Bytes, packed: seq<Bytes>, fs: seq<Bytes>, noTable: bool)
  {
    && Recorded(codec, packed, fs)
    && file == Flatten(packed) + (if HasTable(fs, noTable) then TableBytes(EntriesOf(packed, fs)) else [])
  }

  /** A finished file with these frames in it. */
  ghost predicate IsFileOf(codec: RawCodec, file: Bytes, fs: seq<Bytes>, noTable: bool)
  {
    exists packed :: IsArchive(codec, file, packed, fs, noTable)
  }

  predicate HasTable(fs: seq<Bytes>, noTable: bool)
  {
    !noTable && |fs| < MAX_ENTRIES
  }

  lemma EntriesFit(codec: RawCodec, packed: seq<Bytes>, fs: seq<Bytes>)
    requires Recorded(codec, packed, fs)
    ensures forall e | e in EntriesOf(packed, fs) :: e.Fits()
  {
    forall e | e in EntriesOf(packed, fs)
      ensures e.Fits()
    {
      var i :| 0 <= i < |packed| && e == EntriesOf(packed, fs)[i];
      assert 0 < |fs[i]| <= MAX_FRAME_SIZE && |packed[i]| < U32;
    }
  }

  /** Decompressing all of the file gives the contents of all frames, with a table or without. */
  lemma WholeDecompresses(codec: Codec, file: Bytes, packed: seq<Bytes>, fs: seq<Bytes>, noTable: bool)
    requires IsArchive(codec, file, packed, fs, noTable)
    ensures DecompressAll(codec, file) == Some(Flatten(fs))
  {
    hide RawCodec.Valid, TableBytes;
    var rest := if HasTable(fs, noTable) then TableBytes(EntriesOf(packed, fs)) else [];
    JoinIsFlatten(packed);
    JoinIsFlatten(fs);
    if HasTable(fs, noTable) {
      TableIsSkipped(codec, EntriesOf(packed, fs));
    }
    FramesDecompress(codec, packed, fs, rest);
  }

  /** The table found at the end of the file lists exactly the frames that were written. */
  lemma TableIsFound(codec: RawCodec, file: Bytes, packed: seq<Bytes>, fs: seq<Bytes>, noTable: bool)
    requires IsArchive(codec, file, packed, fs, noTable) && HasTable(fs, noTable)
    ensures ReadTable(file) == Some(EntriesOf(packed, fs))
  {
    hide TableBytes;
    EntriesFit(codec, packed, fs);
    TableRoundTrip(Flatten(packed), EntriesOf(packed, fs));
  }

  function PackedTotal(es: seq<Entry>): nat
  {
    if es == [] then 0 else PackedTotal(es[..|es| - 1]) + es[|es| - 1].compressedSize
  }

  /** The compressed sizes in the table add up to where the table starts. */
  lemma {:induction false} PackedTotalIsOffset(packed: seq<Bytes>, fs: seq<Bytes>)
    requires |packed| == |fs|
    ensures PackedTotal(EntriesOf(packed, fs)) == |Flatten(packed)|
    decreases |packed|
  {
    if packed != [] {
      var n := |packed| - 1;
      PackedTotalIsOffset(packed[..n], fs[..n]);
      EntriesSnoc(packed[..n], fs[..n], packed[n], fs[n]);
      assert packed == packed[..n] + [packed[n]] && fs == fs[..n] + [fs[n]];
    }
  }

  /** For every range of the original, the table tells which frames to decompress: what they give
      is what decompressing everything and taking the range would. */
  lemma AnyRange(codec: RawCodec, file: Bytes, packed: seq<Bytes>, fs: seq<Bytes>, noTable: bool, lo: nat, hi: nat)
    requires IsArchive(codec, file, packed, fs, noTable) && HasTable(fs, noTable)
    requires lo <= hi <= |Flatten(fs)|
    ensures ReadTable(file).Some?
    ensures ReadRange(codec, file, ReadTable(file).value, 0, 0, lo, hi) == Some(Flatten(fs)[lo..hi])
  {
    hide TableBytes, ReadTable, ReadRange, EntriesOf, Join, Flatten, RawCodec.IsFrame, Clip;
    TableIsFound(codec, file, packed, fs, noTable);
    JoinIsFlatten(packed);
    JoinIsFlatten(fs);
    Slices(Join(packed), TableBytes(EntriesOf(packed, fs)), []);
    assert file[0..|Join(packed)|] == file[..|Join(packed)|];
    RangeIsRead(codec, file, packed, fs, 0, 0, lo, hi);
    WholeClip(Flatten(fs), lo, hi);
  }

  /** Unless `-j` is given, a file of fewer than 2^27 frames has a table, which lists every frame with its
      size, and any range can be read through it. Otherwise the file is the frames and nothing else. */
  lemma TableIfAsked(codec: RawCodec, file: Bytes, fs: seq<Bytes>, noTable: bool)
    requires IsFileOf(codec, file, fs, noTable)
    ensures !noTable && |fs| < 0x800_0000 ==>
              && ReadTable(file).Some? && |ReadTable(file).value| == |fs|
              && (forall k | 0 <= k < |fs| :: ReadTable(file).value[k].decompressedSize == |fs[k]|)
              && (forall lo, hi | 0 <= lo <= hi <= |Flatten(fs)| ::
                    ReadRange(codec, file, ReadTable(file).value, 0, 0, lo, hi) == Some(Flatten(fs)[lo..hi]))
    ensures noTable || |fs| >= 0x800_0000 ==>
              exists packed :: ArePacked(codec, packed, fs) && file == Flatten(packed)
  {
    hide ReadTable, ReadRange, TableBytes, Flatten;
    var packed :| IsArchive(codec, file, packed, fs, noTable);
    if !noTable && |fs| < 0x800_0000 {
      TableIsFound(codec, file, packed, fs, noTable);
      forall lo, hi | 0 <= lo <= hi <= |Flatten(fs)|
        ensures ReadRange(codec, file, ReadTable(file).value, 0, 0, lo, hi) == Some(Flatten(fs)[lo..hi])
      {
        AnyRange(codec, file, packed, fs, noTable, lo, hi);
      }
    } else {
      assert Flatten(packed) + [] == Flatten(packed);
    }
  }

  lemma WholeClip(s: Bytes, lo: nat, hi: nat)
    requires lo <= hi <= |s|
    ensures Clip(s, lo - 0, hi - 0) == s[lo..hi]
  {}
}
