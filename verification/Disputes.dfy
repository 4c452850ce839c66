/** Archives on which the two paths disagree, one for each way in which they can. */
module Disputes {
  import opened Basics
  import opened Numerals
  import opened TarHeader
  import opened Pax
  import opened Framing
  import opened Elements
  import opened Samples

  // --- Pax headers ---

  const SIZE_512 := Record(12, SIZE_NAME, Decimal(512))

  lemma SizeRecord()
    ensures SIZE_512.WellFormed() && |SIZE_512.Print()| == 12
  {
    assert Decimal(5) == [DIGIT_0 + 5];
    assert Decimal(51) == [DIGIT_0 + 5, DIGIT_0 + 1];
    assert Decimal(512) == [DIGIT_0 + 5, DIGIT_0 + 1, DIGIT_0 + 2];
    assert Decimal(1) == [DIGIT_0 + 1];
    assert Decimal(12) == [DIGIT_0 + 1, DIGIT_0 + 2];
  }

  /** Data of `len` bytes that says "size=512", and its padding. */
  ghost function SizeData(len: nat): Bytes
  {
    SIZE_512.Print() + Zeros(Max(0, Padded(len) - |SIZE_512.Print()|))
  }

  lemma SizeDataLength(len: nat)
    requires 12 <= len
    ensures |SizeData(len)| == Padded(len)
  {
    SizeRecord();
  }

  lemma SizeDataSays(len: nat, tail: Bytes)
    requires 12 <= len && Padded(len) + |tail| < INPUT_LIMIT
    ensures |SizeData(len)| == Padded(len) && SizeFrom(SizeData(len) + tail, len, 0) == 512
  {
    hide SizeFrom, Record.Print;
    SizeRecord();
    SizeDataLength(len);
    var data := SizeData(len) + tail;
    assert data[0..12] == SIZE_512.Print();
    OneRecord(data, len, 0, SIZE_512);
    ReadDecimal(512);
  }

  /** A pax header of `len` bytes that says "size=512". */
  ghost function SizeHeader(len: nat): Bytes { Header([], FLAG_PAX, len) + SizeData(len) }

  /** A pax header, and what is made of it. */
  lemma PaxTaken(len: nat, data: Bytes, rest: Bytes, ps: ParseState)
    requires len < 0x2_0000_0000 && |data| == Padded(len)
    ensures var x := Header([], FLAG_PAX, len) + data;
            && NextElement(x + rest, ps)
               == Some(Step(Element(x, true), ParseState(PaxAfter(ps, x, rest), MemoryAfter(ps.mem, x, 0))))
            && PaxAfter(ps, x, rest)
               == (match PaxData(ps.mem, x, rest)
                   case None => ps.pax
                   case Some(d) => if len <= |d| then SizeFrom(d, len, 0) else ps.pax)
            && Joins(x[..512]) && TypeFlag(x[..512]) == FLAG_PAX && x[512..] == data
  {
    hide TarSize, SizeFrom, NextElement, MemoryAfter, PaxData, Header;
    var h, x := Header([], FLAG_PAX, len), Header([], FLAG_PAX, len) + data;
    FieldHolds(len);
    HeaderIsValid([], FLAG_PAX, len);
    assert x[..512] == h;
    EntryTaken([], FLAG_PAX, len, data, rest, ps);
  }

  // --- A pax header of more than one chunk ---

  const LARGE: nat := 131073

  /** A pax header with one byte more than is read in one chunk, and an empty file. */
  ghost function LargeHeaderArchive(): Bytes { SizeHeader(LARGE) + Header([], FLAG_FILE, 0) }

  /** The mapped path gives the file the 512 bytes of the pax header and refuses the archive as
      truncated; standard input gives it the none of its own field and accepts it. */
  lemma LargeHeaderDisputed(stack: Stack, lim: Limits)
    ensures Frames(TheMap, LargeHeaderArchive(), lim) == Fail
    ensures Frames(stack, LargeHeaderArchive(), lim).Ok?
  {
    hide NextElement, Header, SizeData, SizeFrom, MemoryAfter, FramesOf;
    var x, file := SizeHeader(LARGE), Header([], FLAG_FILE, 0);
    SizeDataSays(LARGE, file);
    PaxTaken(LARGE, SizeData(LARGE), file, Fresh(TheMap));
    PaxTaken(LARGE, SizeData(LARGE), file, Fresh(stack));
    First(x, file, Fresh(TheMap), true, ParseState(512, MemoryAfter(TheMap, x, 0)));
    First(x, file, Fresh(stack), true, ParseState(U64_MAX, MemoryAfter(stack, x, 0)));
    LoneFile(ParseState(512, MemoryAfter(TheMap, x, 0)));
    LoneFile(ParseState(U64_MAX, MemoryAfter(stack, x, 0)));
  }

  /** An empty file at the end of the input: accepted if nothing overrides its size. */
  lemma LoneFile(ps: ParseState)
    ensures var file := Header([], FLAG_FILE, 0);
            && (ps.pax == U64_MAX ==> ElementsOf(file, ps).Ok?)
            && (0 < ps.pax < U64_MAX ==> ElementsOf(file, ps) == Fail)
  {
    hide NextElement, Header, TarSize, MemoryAfter, PaxAfter;
    var file := Header([], FLAG_FILE, 0);
    FieldHolds(0);
    HeaderIsValid([], FLAG_FILE, 0);
    assert file == file + [] && file + [] == file + [] + [];
    if ps.pax == U64_MAX {
      EntryTaken([], FLAG_FILE, 0, [], [], ps);
      var next := ParseState(PaxAfter(ps, file, []), MemoryAfter(ps.mem, file, 0));
      First(file, [], ps, false, next);
      NoMore(next);
    } else if ps.pax > 0 {
      EntryRefused([], FLAG_FILE, 0, [], ps);
    }
  }

  // --- A pax header without data ---

  const LONG_NAME: nat := 64000

  /** A pax header that is held, a long name that fills the buffer up, a pax header without data, for
      which the buffer has no room, and an empty file. */
  ghost function EmptyHeaderArchive(): Bytes
  {
    SizeHeader(512) + (Header([], FLAG_LONG_NAME, LONG_NAME) + Zeros(LONG_NAME)
                       + (Header([], FLAG_PAX, 0) + Header([], FLAG_FILE, 0)))
  }

  /** For the mapped path the second pax header takes back what the first one said; standard input passes
      over it, gives the file 512 bytes that are not there, and refuses the archive. */
  lemma EmptyHeaderDisputed(stack: Stack, lim: Limits)
    ensures Frames(TheMap, EmptyHeaderArchive(), lim).Ok?
    ensures Frames(stack, EmptyHeaderArchive(), lim) == Fail
  {
    hide NextElement, Header, SizeData, SizeFrom, MemoryAfter, FramesOf, Zeros, ElementsOf;
    EmptyHeaderParsed(TheMap);
    EmptyHeaderParsed(stack);
  }

  lemma EmptyHeaderParsed(mem: Memory)
    requires mem.TheMap? || mem.held == 0
    ensures match ElementsOf(EmptyHeaderArchive(), Fresh(mem))
            case Fail => mem.Buffers?
            case Ok(es) => mem.TheMap? && es != []
  {
    hide NextElement, Header, SizeData, SizeFrom, MemoryAfter, TarSize, Zeros, ElementsOf, PaxAfter, PaxData;
    var x, name := SizeHeader(512), Header([], FLAG_LONG_NAME, LONG_NAME) + Zeros(LONG_NAME);
    var y: Bytes, file: Bytes := Header([], FLAG_PAX, 0), Header([], FLAG_FILE, 0);
    var afterName := y + file;
    var afterX: Bytes := name + afterName;
    // The first pax header is held, if anything is.
    SizeDataSays(512, []);
    PaxTaken(512, SizeData(512), afterX, Fresh(mem));
    HeldHeader(mem, x, afterX);
    var s := ParseState(512, MemoryAfter(mem, x, 0));
    First(x, afterX, Fresh(mem), true, s);
    // So is the long name; then the buffer is full.
    LongNameTaken(name, afterName, s);
    var t := ParseState(512, MemoryAfter(s.mem, name, 0));
    First(name, afterName, s, true, t);
    FullBuffer(mem, x, name);
    // The second pax header is not.
    assert y + [] == y;
    PaxTaken(0, [], file, t);
    NoDataFound(t.mem, y, file);
    var u := ParseState(PaxAfter(t, y, file), MemoryAfter(t.mem, y, 0));
    First(y, file, t, true, u);
    LoneFile(u);
  }

  lemma HeldHeader(mem: Memory, x: Bytes, rest: Bytes)
    requires mem.TheMap? || mem.held == 0
    requires |x| == 1024 && x == SizeHeader(512) && Joins(x[..512]) && TypeFlag(x[..512]) == FLAG_PAX
    requires x[512..] == SizeData(512) && |rest| < 0x1_0000_0000
    ensures PaxAfter(Fresh(mem), x, rest) == 512
  {
    hide SizeData, SizeFrom, Header, TarSize;
    FieldHolds(512);
    HeaderIsValid([], FLAG_PAX, 512);
    assert x[..512] == Header([], FLAG_PAX, 512);
    var d := PaxData(mem, x, rest).value;
    SizeDataSays(512, d[512..]);
    assert d == SizeData(512) + d[512..];
  }

  lemma LongNameTaken(name: Bytes, rest: Bytes, ps: ParseState)
    requires name == Header([], FLAG_LONG_NAME, LONG_NAME) + Zeros(LONG_NAME)
    ensures NextElement(name + rest, ps)
            == Some(Step(Element(name, true), ParseState(ps.pax, MemoryAfter(ps.mem, name, 0))))
    ensures Joins(name[..512]) && !HasSparseExtension(name[..512])
  {
    hide NextElement, Header, TarSize, MemoryAfter, Zeros;
    var h := Header([], FLAG_LONG_NAME, LONG_NAME);
    FieldHolds(LONG_NAME);
    HeaderIsValid([], FLAG_LONG_NAME, LONG_NAME);
    assert name[..512] == h;
    EntryTaken([], FLAG_LONG_NAME, LONG_NAME, Zeros(LONG_NAME), rest, ps);
  }

  lemma FullBuffer(mem: Memory, x: Bytes, name: Bytes)
    requires mem.TheMap? || mem.held == 0
    requires |x| == 1024 && Joins(x[..512]) && !HasSparseExtension(x[..512])
    requires |name| == 512 + LONG_NAME && Joins(name[..512]) && !HasSparseExtension(name[..512])
    ensures var m := MemoryAfter(MemoryAfter(mem, x, 0), name, 0);
            if mem.TheMap? then m == TheMap else m.Buffers? && m.held == HELD_SIZE
  {
    hide Joins, HasSparseExtension, Overwrite;
  }

  lemma NoDataFound(mem: Memory, y: Bytes, rest: Bytes)
    requires |y| == 512 && (mem.Buffers? ==> mem.held == HELD_SIZE)
    ensures if mem.TheMap? then PaxData(mem, y, rest).Some? && SizeFrom(PaxData(mem, y, rest).value, 0, 0) == U64_MAX
            else PaxData(mem, y, rest) == None
  {
    hide Joins, HasSparseExtension;
  }

  // --- A record whose digits end past it ---

  const OVERRUN: nat := 65536

  /** Data whose only record says that it has one byte, with so many leading zeros that
      the rest of the record would start where the data ends. */
  function Overlong(): Bytes { seq(OVERRUN - 1, _ => DIGIT_0) + [DIGIT_0 + 1] }

  lemma {:induction false} OverlongLength(data: Bytes, i: nat)
    requires Overlong() <= data && i < OVERRUN
    ensures ReadLength(data, OVERRUN, i, 0) == (OVERRUN, 1)
    decreases OVERRUN - i
  {
    assert data[i] == Overlong()[i];
    if i < OVERRUN - 1 {
      OverlongLength(data, i + 1);
    }
  }

  /** What is behind the data decides whether a size is found. */
  lemma OverlongSays(tail: Bytes)
    ensures SizeFrom(Overlong() + tail, OVERRUN, 0) == if SIZE_KEY <= tail then 0 else U64_MAX
  {
    hide ReadLength, Overlong;
    var data := Overlong() + tail;
    OverlongIs();
    OverlongLength(data, 0);
    KeyAtEnd(Overlong(), tail);
    if !(SIZE_KEY <= tail) {
      assert forall k | 0 <= k < OVERRUN :: data[k] == Overlong()[k];
      NoKeyNoSize(data, OVERRUN, 0, OVERRUN);
    }
  }

  lemma KeyAtEnd(data: Bytes, tail: Bytes)
    ensures HasAt(data + tail, |data|, SIZE_KEY) <==> SIZE_KEY <= tail
  {
    if |tail| >= 6 {
      assert (data + tail)[|data|..|data| + 6] == tail[..6];
    }
  }

  lemma OverlongIs()
    ensures |Overlong()| == OVERRUN && forall k | 0 <= k < OVERRUN :: IsDigit(Overlong()[k], 10)
  {}

  const KEY_NAME: Name := SIZE_KEY + ['x' as int]

  ghost function OverlongHeader(): Bytes { Header([], FLAG_PAX, OVERRUN) + Overlong() }

  /** A file whose name starts with what the comparison looks for. */
  ghost function KeyFile(): Block { Header(KEY_NAME, FLAG_FILE, 512) }

  /** That pax header, and that file with a payload of 512 zeros. */
  ghost function OverrunArchive(): Bytes { OverlongHeader() + (KeyFile() + Zeros(512)) }

  lemma OverlongTaken(rest: Bytes, ps: ParseState)
    ensures var x := OverlongHeader();
            && NextElement(x + rest, ps)
               == Some(Step(Element(x, true), ParseState(PaxAfter(ps, x, rest), MemoryAfter(ps.mem, x, 0))))
            && |x| == 512 + OVERRUN
            && (ps.mem.TheMap? ==> PaxAfter(ps, x, rest) == SizeFrom(Overlong() + rest, OVERRUN, 0))
            && (ps.mem.Buffers? ==>
                  PaxAfter(ps, x, rest) == SizeFrom(Overlong() + ps.mem.chunkBuf[OVERRUN..], OVERRUN, 0))
  {
    hide NextElement, Header, SizeFrom, MemoryAfter, Overlong;
    OverlongIs();
    PaxTaken(OVERRUN, Overlong(), rest, ps);
  }

  /** The file, and what is left behind it, under the override that the pax header gave. */
  lemma KeyFileTaken(ps: ParseState, rest: Bytes)
    requires ps.pax == 0 || ps.pax == U64_MAX
    ensures var entry: Bytes := if ps.pax == 0 then KeyFile() else KeyFile() + Zeros(512);
            NextElement(entry + rest, ps)
            == Some(Step(Element(entry, false), ParseState(PaxAfter(ps, entry, rest), MemoryAfter(ps.mem, entry, 0))))
  {
    hide NextElement, Header, TarSize, MemoryAfter, PaxAfter;
    FieldHolds(512);
    HeaderIsValid(KEY_NAME, FLAG_FILE, 512);
    if ps.pax == 0 {
      assert KeyFile() + [] == KeyFile();
      EntryTaken(KEY_NAME, FLAG_FILE, 512, [], rest, ps);
    } else {
      EntryTaken(KEY_NAME, FLAG_FILE, 512, Zeros(512), rest, ps);
    }
  }

  lemma KeyFileStarts(rest: Bytes)
    ensures SIZE_KEY <= KeyFile() + rest
  {
    hide Header, TarSize;
    FieldHolds(512);
    HeaderIsValid(KEY_NAME, FLAG_FILE, 512);
    assert NameField(KeyFile())[..6] == SIZE_KEY;
    assert (KeyFile() + rest)[..6] == NameField(KeyFile())[..6];
  }

  /** What is behind the data in memory. */
  ghost function Behind(mem: Memory): Bytes
  {
    if mem.TheMap? then KeyFile() + Zeros(512) else mem.chunkBuf[OVERRUN..]
  }

  /** If " size=" is behind the data, then the size is 0, and the payload of the file is taken for a null
      block. Otherwise there is no size, and the file keeps its own. */
  lemma OverrunParsed(ps: ParseState)
    requires ps.pax == U64_MAX
    ensures var x, file, zeros := OverlongHeader(), KeyFile(), Zeros(512);
            ElementsOf(OverrunArchive(), ps)
            == Ok(if SIZE_KEY <= Behind(ps.mem)
                  then [Element(x, true), Element(file, false), Element(zeros, false)]
                  else [Element(x, true), Element(file + zeros, false)])
  {
    hide NextElement, Header, SizeFrom, MemoryAfter, PaxAfter, Overlong, KeyFile, OverlongHeader, ElementsOf;
    var x, file: Bytes, zeros := OverlongHeader(), KeyFile(), Zeros(512);
    OverlongTaken(file + zeros, ps);
    var s := ParseState(PaxAfter(ps, x, file + zeros), MemoryAfter(ps.mem, x, 0));
    OverlongSays(Behind(ps.mem));
    First(x, file + zeros, ps, true, s);
    if SIZE_KEY <= Behind(ps.mem) {
      KeyFileTaken(s, zeros);
      var t := ParseState(PaxAfter(s, file, zeros), MemoryAfter(s.mem, file, 0));
      First(file, zeros, s, false, t);
      assert zeros + [] == zeros;
      NullTaken([], t);
      First(zeros, [], t, false, ParseState(t.pax, MemoryAfterNull(t.mem)));
      NoMore(ParseState(t.pax, MemoryAfterNull(t.mem)));
    } else {
      assert file + zeros + [] == file + zeros;
      KeyFileTaken(s, []);
      var t := ParseState(PaxAfter(s, file + zeros, []), MemoryAfter(s.mem, file + zeros, 0));
      First(file + zeros, [], s, false, t);
      NoMore(t);
    }
    Listed(Element(x, true), Element(file, false), Element(zeros, false));
    Listed(Element(x, true), Element(file + zeros, false), Element(zeros, false));
  }

  lemma Listed(a: Element, b: Element, c: Element)
    ensures [a] + ([b] + ([c] + [])) == [a, b, c] && [a] + ([b] + []) == [a, b]
  {}

  /** After a null block, the two paths part: the mapped path finds " size=" in the name behind the data.
      Standard input cannot hold so large a header, and finds the zeros that the null block has left
      behind in the chunk buffer. No pax header is passed over, and nothing depends on the stack. */
  lemma OverrunDisputed(stack: Stack)
    ensures var x, file, zeros := OverlongHeader(), KeyFile(), Zeros(512);
            var input, lim := zeros + OverrunArchive(), Limits(0, MAX_FRAME_SIZE);
            && Frames(TheMap, input, lim) == Ok([zeros, x + file, zeros])
            && Frames(stack, input, lim) == Ok([zeros, x + (file + zeros)])
            && |x + file| == 66560
  {
    hide Overlong, Header, ElementsOf, FoldGroups, Zeros, NextElement, Groups;
    var x, file, zeros, lim := OverlongHeader(), KeyFile(), Zeros(512), Limits(0, MAX_FRAME_SIZE);
    OverlongIs();
    NoNullFirst();
    NullTaken(OverrunArchive(), Fresh(TheMap));
    NullTaken(OverrunArchive(), Fresh(stack));
    var s, t := ParseState(U64_MAX, TheMap), ParseState(U64_MAX, MemoryAfterNull(stack));
    First(zeros, OverrunArchive(), Fresh(TheMap), false, s);
    First(zeros, OverrunArchive(), Fresh(stack), false, t);
    OverrunParsed(s);
    OverrunParsed(t);
    KeyIsBehind(s.mem, t.mem);
    FirstGroup(zeros, [Element(x, true), Element(file, false), Element(zeros, false)]);
    FirstGroup(zeros, [Element(x, true), Element(file + zeros, false)]);
    OtherGroups(x, file, zeros);
    OtherGroups(x, file + zeros, []);
    GroupsAreFrames([], [zeros, x + file, zeros], lim);
    GroupsAreFrames([], [zeros, x + (file + zeros)], lim);
    assert [] + [zeros, x + file, zeros] == [zeros, x + file, zeros] == [zeros] + [x + file, zeros];
    assert [] + [zeros, x + (file + zeros)] == [zeros, x + (file + zeros)] == [zeros] + [x + (file + zeros)];
  }

  lemma NoNullFirst()
    ensures !StartsNull(OverrunArchive())
  {
    hide Header, Overlong;
    FieldHolds(OVERRUN);
    HeaderIsValid([], FLAG_PAX, OVERRUN);
    assert OverrunArchive()[..512] == Header([], FLAG_PAX, OVERRUN);
  }

  lemma KeyIsBehind(m: Memory, n: Memory)
    requires m.TheMap? && n.Buffers? && n.chunkBuf == Zeros(CHUNK_SIZE)
    ensures SIZE_KEY <= Behind(m) && !(SIZE_KEY <= Behind(n))
  {
    hide KeyFile;
    KeyFileStarts(Zeros(512));
    assert Behind(n)[0] == 0;
  }

  lemma FirstGroup(a: Bytes, es: seq<Element>)
    ensures Groups([Element(a, false)] + es) == [a] + Groups(es)
  {
    assert ([Element(a, false)] + es)[1..] == es;
  }

  lemma OtherGroups(a: Bytes, b: Bytes, c: Bytes)
    ensures Groups([Element(a, true), Element(b, false), Element(c, false)]) == [a + b, c]
    ensures Groups([Element(a, true), Element(b, false)]) == [a + b]
  {
    var es, fs := [Element(a, true), Element(b, false), Element(c, false)], [Element(a, true), Element(b, false)];
    assert es[1..] == [Element(b, false)] + [Element(c, false)];
    FirstGroup(c, []);
    FirstGroup(b, [Element(c, false)]);
    FirstGroup(b, []);
    assert [Element(c, false)] + [] == [Element(c, false)];
    assert fs[1..] == [Element(b, false)] + [];
  }

  /** Without the null block, what standard input makes of the archive is decided by what its chunk
      buffer, which is not initialized, happens to hold. */
  lemma StackDecides(stack: Stack)
    ensures var x, file, zeros, lim := OverlongHeader(), KeyFile(), Zeros(512), Limits(0, MAX_FRAME_SIZE);
            Frames(stack, OverrunArchive(), lim)
            == Ok(if SIZE_KEY <= stack.chunkBuf[OVERRUN..] then [x + file, zeros] else [x + (file + zeros)])
  {
    hide Overlong, Header, ElementsOf, FoldGroups, Zeros, NextElement, Groups;
    var x, file, zeros, lim := OverlongHeader(), KeyFile(), Zeros(512), Limits(0, MAX_FRAME_SIZE);
    OverlongIs();
    OverrunParsed(Fresh(stack));
    OtherGroups(x, file, zeros);
    OtherGroups(x, file + zeros, []);
    GroupsAreFrames([], [x + file, zeros], lim);
    GroupsAreFrames([], [x + (file + zeros)], lim);
    assert [] + [x + file, zeros] == [x + file, zeros] && [] + [x + (file + zeros)] == [x + (file + zeros)];
  }
}
