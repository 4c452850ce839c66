/**
 The seek table, and what a reader does with the file: decompress all of it, or find the
 table at its end and decompress only the frames that a range needs.
 */
module SeekTable {
  import opened Basics
  import opened Numerals
  import opened Codec

  datatype Entry = Entry(compressedSize: nat, decompressedSize: nat) {
    predicate Fits() { compressedSize < U32 && decompressedSize < U32 }
  }

  /** `ZSTD_MAGIC_SKIPPABLE_START | 0xE` */
  const SKIPPABLE_MAGIC: nat := 0x184D2A5E
  const SEEKABLE_MAGIC: nat := 0x8F92EAB1

  /** `seekTableAdd()` gives the table up before it has this many entries. */
  const MAX_ENTRIES: nat := 0x800_0000

  // --- The table as written ---

  function EntryBytes(e: Entry): (s: Bytes)
    ensures |s| == 8
  {
    LittleEndian32(e.compressedSize) + LittleEndian32(e.decompressedSize)
  }

  function EntriesBytes(es: seq<Entry>): (s: Bytes)
    ensures |s| == 8 * |es|
  {
    if es == [] then [] else EntriesBytes(es[..|es| - 1]) + EntryBytes(es[|es| - 1])
  }

  /** A skippable frame: the entries, and a footer to find them from the end of the file. */
  function TableBytes(es: seq<Entry>): Bytes
  {
    LittleEndian32(SKIPPABLE_MAGIC) + LittleEndian32((|es| * 8 + 9) % U32)
    + EntriesBytes(es)
    + (LittleEndian32(|es| % U32) + [0] + LittleEndian32(SEEKABLE_MAGIC))
  }

  // --- The table as read: the Seek_Table_Format of the Zstandard Seekable Format ---

  /** Bit 7 of the descriptor tells of a checksum in each entry; bits 2 to 6 are reserved. */
  function Stride(descriptor: Byte): Option<nat>
  {
    if descriptor % 0x80 >= 4 then None
    else if descriptor >= 0x80 then Some(12)
    else Some(8)
  }

  function EntryAt(table: Bytes, at: nat): Entry
    requires at + 8 <= |table|
  {
    Entry(ReadLittleEndian32(table[at..at + 4]), ReadLittleEndian32(table[at + 4..at + 8]))
  }

  function ReadEntries(table: Bytes, stride: nat, n: nat): (es: seq<Entry>)
    requires stride >= 8 && 8 + n * stride <= |table|
    ensures |es| == n
  {
    if n == 0 then []
    else
      assert n * stride == (n - 1) * stride + stride;
      ReadEntries(table, stride, n - 1) + [EntryAt(table, 8 + (n - 1) * stride)]
  }

  /** The entries that the end of a file gives. */
  function ReadTable(file: Bytes): Option<seq<Entry>>
  {
    if |file| < 17 then None
    else
      var footer := file[|file| - 9..];
      var n := ReadLittleEndian32(footer[..4]);
      if footer[5..] != LittleEndian32(SEEKABLE_MAGIC) || Stride(footer[4]).None? then None
      else
        var stride := Stride(footer[4]).value;
        var size := n * stride;
        if size + 17 > |file| then None
        else
          var table := file[|file| - (size + 17)..];
          if table[..4] != LittleEndian32(SKIPPABLE_MAGIC) || ReadLittleEndian32(table[4..8]) != size + 9 then None
          else Some(ReadEntries(table, stride, n))
  }

  lemma EntryRoundTrip(e: Entry, table: Bytes, at: nat)
    requires e.Fits() && at + 8 <= |table| && table[at..at + 8] == EntryBytes(e)
    ensures EntryAt(table, at) == e
  {
    assert table[at..at + 4] == table[at..at + 8][..4];
    assert table[at + 4..at + 8] == table[at..at + 8][4..];
    LittleEndianRoundTrip(e.compressedSize);
    LittleEndianRoundTrip(e.decompressedSize);
  }

  lemma {:induction false} EntriesRead(es: seq<Entry>, table: Bytes)
    requires forall e | e in es :: e.Fits()
    requires |table| >= 8 + 8 * |es| && table[8..8 + 8 * |es|] == EntriesBytes(es)
    ensures ReadEntries(table, 8, |es|) == es
    decreases |es|
  {
    hide EntryAt, EntryBytes;
    if es != [] {
      var n := |es| - 1;
      var init, last := es[..n], es[n];
      SliceSplit(table, 8, EntriesBytes(init), EntryBytes(last));
      EntriesRead(init, table);
      EntryRoundTrip(last, table, 8 + 8 * n);
    }
  }

  /** Where a reader looks for the parts of a table at the end of a file. */
  lemma TableParts(before: Bytes, magic: Bytes, size: Bytes, entries: Bytes, count: Bytes, descriptor: Byte,
                   tail: Bytes)
    requires |magic| == 4 && |size| == 4 && |count| == 4 && |tail| == 4
    ensures var table := magic + size + entries + (count + [descriptor] + tail);
            var file := before + table;
            && table[..4] == magic && table[4..8] == size && table[8..8 + |entries|] == entries
            && file[|file| - 9..] == count + [descriptor] + tail
            && file[|file| - (|entries| + 17)..] == table
  {}

  lemma FooterParts(count: Bytes, descriptor: Byte, tail: Bytes)
    requires |count| == 4 && |tail| == 4
    ensures var footer := count + [descriptor] + tail;
            footer[..4] == count && footer[4] == descriptor && footer[5..] == tail
  {}

  lemma TableParted(es: seq<Entry>)
    requires |es| < 0x800_0000
    ensures TableBytes(es)
            == LittleEndian32(SKIPPABLE_MAGIC) + LittleEndian32(|es| * 8 + 9) + EntriesBytes(es)
               + (LittleEndian32(|es|) + [0] + LittleEndian32(SEEKABLE_MAGIC))
  {
    hide LittleEndian32, EntriesBytes;
    NoWrap(|es|);
    NoWrap(|es| * 8 + 9);
  }

  lemma NoWrap(n: nat)
    requires n < U32
    ensures n % U32 == n
  {}

  /** Whatever comes before the table, a reader gets back exactly what was recorded. */
  lemma TableRoundTrip(before: Bytes, es: seq<Entry>)
    requires |es| < MAX_ENTRIES && forall e | e in es :: e.Fits()
    ensures ReadTable(before + TableBytes(es)) == Some(es)
  {
    hide TableBytes, LittleEndian32, ReadLittleEndian32, EntriesBytes, ReadEntries;
    var n := |es|;
    var magic, size := LittleEndian32(SKIPPABLE_MAGIC), LittleEndian32(n * 8 + 9);
    var count, tail := LittleEndian32(n), LittleEndian32(SEEKABLE_MAGIC);
    TableParted(es);
    TableParts(before, magic, size, EntriesBytes(es), count, 0, tail);
    FooterParts(count, 0, tail);
    LittleEndianRoundTrip(n);
    LittleEndianRoundTrip(n * 8 + 9);
    EntriesRead(es, TableBytes(es));
  }

  /** Four bytes of `s` hold the number `v`, the low byte first. */
  ghost predicate Holds32(s: Bytes, at: nat, v: nat)
  {
    && at + 4 <= |s|
    && v == s[at] as int + s[at + 1] as int * 0x100 + s[at + 2] as int * 0x1_0000 + s[at + 3] as int * 0x100_0000
  }

  lemma Holds32At(before: Bytes, v: nat, after: Bytes)
    requires v < U32
    ensures Holds32(before + LittleEndian32(v) + after, |before|, v)
  {
    LittleEndianRoundTrip(v);
    assert (before + LittleEndian32(v) + after)[|before|..|before| + 4] == LittleEndian32(v);
    var s, at := before + LittleEndian32(v) + after, |before|;
    assert forall i | 0 <= i < 4 :: s[at + i] == LittleEndian32(v)[i];
  }

  lemma {:induction false} EntriesSpelled(es: seq<Entry>, before: Bytes, after: Bytes, k: nat)
    requires k < |es| && es[k].Fits()
    ensures var s, at := before + EntriesBytes(es) + after, |before| + 8 * k;
            Holds32(s, at, es[k].compressedSize) && Holds32(s, at + 4, es[k].decompressedSize)
    decreases |es|
  {
    hide LittleEndian32, Holds32;
    var n := |es| - 1;
    var init, last := EntriesBytes(es[..n]), es[n];
    if k < n {
      EntriesSpelled(es[..n], before, EntryBytes(last) + after, k);
      assert before + init + (EntryBytes(last) + after) == before + EntriesBytes(es) + after;
    } else {
      var c, d := LittleEndian32(last.compressedSize), LittleEndian32(last.decompressedSize);
      Holds32At(before + init, last.compressedSize, d + after);
      Holds32At(before + init + c, last.decompressedSize, after);
      assert before + init + c + (d + after) == before + EntriesBytes(es) + after;
      assert before + init + c + d + after == before + EntriesBytes(es) + after;
    }
  }

  /** The table byte by byte: a skippable frame of type 0xE, its size, two numbers for each frame, the number of
      frames, a descriptor of 0, and the magic number 0x8F92EAB1 of the seekable format. */
  lemma TableSpelled(es: seq<Entry>, k: nat)
    requires |es| < 0x800_0000 && k < |es| && es[k].Fits()
    ensures var s, n := TableBytes(es), |es|;
            && |s| == 17 + 8 * n
            && s[..4] == [0x5E, 0x2A, 0x4D, 0x18] && Holds32(s, 4, 9 + 8 * n)
            && Holds32(s, 8 + 8 * k, es[k].compressedSize) && Holds32(s, 12 + 8 * k, es[k].decompressedSize)
            && Holds32(s, 8 + 8 * n, n) && s[12 + 8 * n] == 0 && s[13 + 8 * n..] == [0xB1, 0xEA, 0x92, 0x8F]
  {
    hide TableBytes, EntriesBytes, Holds32, LittleEndian32;
    var n := |es|;
    TableParted(es);
    var magic, size := LittleEndian32(SKIPPABLE_MAGIC), LittleEndian32(n * 8 + 9);
    var count, tail := LittleEndian32(n), LittleEndian32(SEEKABLE_MAGIC);
    MagicNumbers();
    TableJoined(magic, size, EntriesBytes(es), count, tail);
    Holds32At(magic, n * 8 + 9, EntriesBytes(es) + (count + [0] + tail));
    EntriesSpelled(es, magic + size, count + [0] + tail, k);
    Holds32At(magic + size + EntriesBytes(es), n, [0] + tail);
  }

  lemma TableJoined(magic: Bytes, size: Bytes, entries: Bytes, count: Bytes, tail: Bytes)
    requires |magic| == 4 && |size| == 4 && |count| == 4 && |tail| == 4
    ensures var s := magic + size + entries + (count + [0] + tail);
            && s == magic + size + (entries + (count + [0] + tail))
            && s == magic + size + entries + count + ([0] + tail)
            && s[..4] == magic && s[12 + |entries|] == 0 && s[13 + |entries|..] == tail
  {}

  lemma MagicNumbers()
    ensures LittleEndian32(SKIPPABLE_MAGIC) == [0x5E, 0x2A, 0x4D, 0x18]
    ensures LittleEndian32(SEEKABLE_MAGIC) == [0xB1, 0xEA, 0x92, 0x8F]
  {}

  // --- Decompressing all of a file ---

  predicate StartsSkippable(file: Bytes)
  {
    |file| >= 8 && 0x50 <= file[0] <= 0x5F && file[1..4] == [0x2A, 0x4D, 0x18]
  }

  /** All frames, one after the other; skippable frames (section 3.1.2 of RFC 8878) count for nothing. */
  ghost function DecompressAll(c: RawCodec, file: Bytes): Option<Bytes>
    decreases |file|
  {
    if file == [] then Some([])
    else if StartsSkippable(file) then
      var size := 8 + ReadLittleEndian32(file[4..8]);
      if size > |file| then None else DecompressAll(c, file[size..])
    else
      match c.decode(file)
      case NoFrame => None
      case Frame(content, size) =>
        if !(0 < size <= |file|) then None
        else
          match DecompressAll(c, file[size..])
          case None => None
          case Some(rest) => Some(content + rest)
  }

  /** Each of `packed` is a frame of the corresponding one of `contents`. */
  ghost predicate ArePacked(c: RawCodec, packed: seq<Bytes>, contents: seq<Bytes>)
  {
    |packed| == |contents| && forall i | 0 <= i < |packed| :: c.IsFrame(packed[i], contents[i])
  }

  lemma FrameIsRead(c: Codec, packed: Bytes, content: Bytes, rest: Bytes)
    requires c.IsFrame(packed, content)
    ensures c.decode(packed + rest) == Frame(content, |packed|)
    ensures |packed| >= 4 && !StartsSkippable(packed + rest)
  {
    assert c.decode(packed).Frame?;
    assert packed[0] == packed[..4][0] == ZSTD_MAGIC[0];
  }

  lemma OneFrame(c: Codec, packed: Bytes, content: Bytes, rest: Bytes)
    requires c.IsFrame(packed, content) && DecompressAll(c, rest).Some?
    ensures DecompressAll(c, packed + rest) == Some(content + DecompressAll(c, rest).value)
  {
    FrameIsRead(c, packed, content, rest);
    assert (packed + rest)[|packed|..] == rest;
  }

  lemma {:induction false} FramesDecompress(c: Codec, packed: seq<Bytes>, contents: seq<Bytes>, rest: Bytes)
    requires ArePacked(c, packed, contents) && DecompressAll(c, rest) == Some([])
    ensures DecompressAll(c, Join(packed) + rest) == Some(Join(contents))
    decreases |packed|
  {
    hide DecompressAll;
    if packed == [] {
      assert Join(packed) + rest == rest;
    } else {
      var rest' := Join(packed[1..]) + rest;
      FramesDecompress(c, packed[1..], contents[1..], rest);
      OneFrame(c, packed[0], contents[0], rest');
      assert Join(packed) + rest == packed[0] + rest';
    }
  }

  lemma OneSkipped(c: RawCodec, file: Bytes)
    requires StartsSkippable(file) && ReadLittleEndian32(file[4..8]) == |file| - 8
    ensures DecompressAll(c, file) == Some([])
  {
    assert file[|file|..] == [];
  }

  lemma TableIsSkipped(c: RawCodec, es: seq<Entry>)
    requires |es| < MAX_ENTRIES
    ensures DecompressAll(c, TableBytes(es)) == Some([])
  {
    TableStarts(es);
    OneSkipped(c, TableBytes(es));
  }

  lemma TableStarts(es: seq<Entry>)
    requires |es| < MAX_ENTRIES
    ensures var table := TableBytes(es);
            StartsSkippable(table) && ReadLittleEndian32(table[4..8]) == |table| - 8
  {
    hide TableBytes, LittleEndian32, ReadLittleEndian32, StartsSkippable, EntriesBytes;
    var n := |es|;
    TableParted(es);
    var magic, size := LittleEndian32(SKIPPABLE_MAGIC), LittleEndian32(n * 8 + 9);
    var count, tail := LittleEndian32(n), LittleEndian32(SEEKABLE_MAGIC);
    TableParts([], magic, size, EntriesBytes(es), count, 0, tail);
    LittleEndianRoundTrip(n * 8 + 9);
    SkippableMagic(TableBytes(es));
  }

  lemma SkippableMagic(file: Bytes)
    requires |file| >= 8 && file[..4] == LittleEndian32(SKIPPABLE_MAGIC)
    ensures StartsSkippable(file)
  {
    assert file[1..4] == file[..4][1..];
    assert file[0] == file[..4][0];
  }

  // --- Decompressing only what a range needs ---

  /** The entries that describe the frames: their sizes before and after decompression. */
  function EntriesOf(packed: seq<Bytes>, contents: seq<Bytes>): (es: seq<Entry>)
    requires |packed| == |contents|
    ensures |es| == |packed|
  {
    seq(|packed|, i requires 0 <= i < |packed| => Entry(|packed[i]|, |contents[i]|))
  }

  lemma EntriesSnoc(packed: seq<Bytes>, contents: seq<Bytes>, p: Bytes, x: Bytes)
    requires |packed| == |contents|
    ensures EntriesOf(packed + [p], contents + [x]) == EntriesOf(packed, contents) + [Entry(|p|, |x|)]
  {}

  /** The bytes `lo..hi` of the original: the running sums of the entries tell where each frame
      starts, before and after decompression, and frames outside the range are passed over. */
  ghost function ReadRange(c: RawCodec, file: Bytes, es: seq<Entry>, packedAt: nat, at: nat, lo: nat, hi: nat)
    : Option<Bytes>
    decreases |es|
  {
    if es == [] then Some([])
    else
      var packedEnd, end := packedAt + es[0].compressedSize, at + es[0].decompressedSize;
      match ReadRange(c, file, es[1..], packedEnd, end, lo, hi)
      case None => None
      case Some(rest) =>
        if end <= lo || hi <= at then Some(rest)
        else if packedEnd > |file| then None
        else
          match c.decode(file[packedAt..packedEnd])
          case NoFrame => None
          case Frame(content, _) =>
            var from, to := Max(lo - at, 0), Min(hi, end) - at;
            if from <= to <= |content| then Some(content[from..to] + rest) else None
  }

  function Clamp(n: int, top: nat): (r: nat)
    ensures r <= top
  {
    if n < 0 then 0 else if n > top then top else n
  }

  /** The part of `s` between two positions, either of which may lie outside it. */
  function Clip(s: Bytes, from: int, to: int): Bytes
    requires from <= to
  {
    s[Clamp(from, |s|)..Clamp(to, |s|)]
  }

  lemma ClipConcat(a: Bytes, b: Bytes, from: int, to: int)
    requires from <= to
    ensures Clip(a + b, from, to) == Clip(a, from, to) + Clip(b, from - |a|, to - |a|)
  {}

  lemma RangeHead(c: RawCodec, file: Bytes, es: seq<Entry>, packedAt: nat, at: nat, lo: nat, hi: nat)
    requires es != []
    ensures var packedEnd, end := packedAt + es[0].compressedSize, at + es[0].decompressedSize;
            var others := ReadRange(c, file, es[1..], packedEnd, end, lo, hi);
            && (others.Some? && (end <= lo || hi <= at) ==> ReadRange(c, file, es, packedAt, at, lo, hi) == others)
            && (others.Some? && !(end <= lo || hi <= at) && packedEnd <= |file| ==>
                  match c.decode(file[packedAt..packedEnd])
                  case NoFrame => true
                  case Frame(content, _) =>
                    var from, to := Max(lo - at, 0), Min(hi, end) - at;
                    from <= to <= |content| ==>
                      ReadRange(c, file, es, packedAt, at, lo, hi) == Some(content[from..to] + others.value))
  {}

  /** The frame at the head of the table gives its part of the range, if it has one. */
  lemma OneRange(c: RawCodec, file: Bytes, es: seq<Entry>, packedAt: nat, at: nat, lo: nat, hi: nat,
                 content: Bytes, rest: Bytes)
    requires es != [] && |content| == es[0].decompressedSize && lo <= hi
    requires packedAt + es[0].compressedSize <= |file|
    requires c.decode(file[packedAt..packedAt + es[0].compressedSize]) == Frame(content, es[0].compressedSize)
    requires ReadRange(c, file, es[1..], packedAt + es[0].compressedSize, at + |content|, lo, hi) == Some(rest)
    ensures ReadRange(c, file, es, packedAt, at, lo, hi) == Some(Clip(content, lo - at, hi - at) + rest)
  {
    hide Clip, ReadRange;
    ClipOverlap(content, at, lo, hi);
    RangeHead(c, file, es, packedAt, at, lo, hi);
    assert [] + rest == rest;
  }

  lemma ClipOverlap(content: Bytes, at: nat, lo: nat, hi: nat)
    requires lo <= hi
    ensures var end := at + |content|;
            Clip(content, lo - at, hi - at)
            == if end <= lo || hi <= at then [] else content[Max(lo - at, 0)..Min(hi, end) - at]
  {}

  lemma SliceSplit(file: Bytes, at: nat, a: Bytes, b: Bytes)
    requires at + |a + b| <= |file| && file[at..at + |a + b|] == a + b
    ensures file[at..at + |a|] == a && file[at + |a|..at + |a| + |b|] == b
  {
    assert file[at..at + |a|] == (a + b)[..|a|];
    assert file[at + |a|..at + |a| + |b|] == (a + b)[|a|..];
  }

  lemma {:induction false} RangeIsRead(c: RawCodec, file: Bytes, packed: seq<Bytes>, contents: seq<Bytes>,
                                       packedAt: nat, at: nat, lo: nat, hi: nat)
    requires ArePacked(c, packed, contents) && lo <= hi
    requires packedAt + |Join(packed)| <= |file| && file[packedAt..packedAt + |Join(packed)|] == Join(packed)
    ensures ReadRange(c, file, EntriesOf(packed, contents), packedAt, at, lo, hi)
            == Some(Clip(Join(contents), lo - at, hi - at))
    decreases |packed|
  {
    hide Clip, ReadRange;
    if packed == [] {
      NothingToRead(c, file, packedAt, at, lo, hi);
      assert Clip([], lo - at, hi - at) == [] by {
        ClipOfNothing(lo - at, hi - at);
      }
    } else {
      var es, rest := EntriesOf(packed, contents), Join(contents[1..]);
      assert es[1..] == EntriesOf(packed[1..], contents[1..]);
      SliceSplit(file, packedAt, packed[0], Join(packed[1..]));
      RangeIsRead(c, file, packed[1..], contents[1..], packedAt + |packed[0]|, at + |contents[0]|, lo, hi);
      var next := at + |contents[0]|;
      OneRange(c, file, es, packedAt, at, lo, hi, contents[0], Clip(rest, lo - next, hi - next));
      ClipConcat(contents[0], rest, lo - at, hi - at);
    }
  }

  lemma NothingToRead(c: RawCodec, file: Bytes, packedAt: nat, at: nat, lo: nat, hi: nat)
    ensures ReadRange(c, file, [], packedAt, at, lo, hi) == Some([])
  {}

  lemma ClipOfNothing(from: int, to: int)
    requires from <= to
    ensures Clip([], from, to) == []
  {}
}
