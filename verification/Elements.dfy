/** How the input is parsed into elements, and the frames it should be cut into. */
module Elements {
  import opened Basics
  import opened TarHeader
  import opened Pax
  import opened Framing

  /** Entries that join the next one wait for it in a buffer of this size. */
  const HELD_SIZE: nat := 64 * 1024

  /** Standard input is read in chunks of this size. */
  const CHUNK_SIZE: nat := 128 * 1024

  type HeldBuf = b: Bytes | |b| == HELD_SIZE witness Zeros(HELD_SIZE)
  type ChunkBuf = b: Bytes | |b| == CHUNK_SIZE witness Zeros(CHUNK_SIZE)

  /** The memory in which the data of a pax header stands when it is looked at: the mapped file, or
      one of the two buffers that standard input goes through. `held` bytes of entries wait in the first. */
  datatype Memory = TheMap | Buffers(held: nat, heldBuf: HeldBuf, chunkBuf: ChunkBuf)

  /** The two buffers before anything is read. They are not initialized: they can hold anything. */
  type Stack = m: Memory | m.Buffers? && m.held == 0
    witness Buffers(0, Zeros(HELD_SIZE), Zeros(CHUNK_SIZE))

  /** What earlier headers leave behind: the size the last pax header gave (`U64_MAX` if none),
      and what is in memory. */
  datatype ParseState = ParseState(pax: nat, mem: Memory)

  /** The state at the start of the input. */
  function Fresh(mem: Memory): ParseState { ParseState(U64_MAX, mem) }

  predicate IsNull(b: Block) { forall i | 0 <= i < 512 :: b[i] == 0 }

  predicate StartsNull(rest: Bytes) { |rest| >= 512 && IsNull(rest[..512]) }

  // --- One entry ---

  /** The bytes of sparse map extension blocks from `at` on; none if they run off the end. */
  function ExtensionLen(rest: Bytes, at: nat): (r: Option<nat>)
    ensures r.Some? ==> 512 <= r.value && at + r.value <= |rest|
    decreases |rest| - at
  {
    if at + 512 > |rest| then None
    else if rest[at + 504] == 0 then Some(512)
    else
      match ExtensionLen(rest, at + 512)
      case None => None
      case Some(n) => Some(512 + n)
  }

  function MapLen(rest: Bytes): (r: Option<nat>)
    requires |rest| >= 512
    ensures r.Some? ==> 512 + r.value <= |rest|
  {
    if HasSparseExtension(rest[..512]) then ExtensionLen(rest, 512) else Some(0)
  }

  /** A pax header's size takes the place of the size field, once, in an entry that is not
      itself an extension header. */
  predicate Overridden(h: Block, pax: nat) { !IsExtension(h) && pax != U64_MAX }

  function EntrySize(h: Block, pax: nat): nat
  {
    if Overridden(h, pax) then pax else TarSize(h)
  }

  /** `paxNextSize` goes in and comes out: an override is used up by the entry that uses it. */
  method TarEntrySize(h: Block, pax: nat) returns (size: nat, pax': nat)
    ensures size == EntrySize(h, pax)
    ensures pax' == if Overridden(h, pax) then U64_MAX else pax
  {
    if IsExtension(h) || pax == U64_MAX {
      size := ParseTarSize(h);
      return size, pax;
    }
    return pax, U64_MAX;
  }

  /** An entry at the head of the input: its payload's size, and the length of its sparse map. */
  datatype Entry = Entry(size: nat, mapLen: nat) {
    function Len(): nat { 512 + mapLen + Padded(size) }
  }

  ghost function ParseEntry(rest: Bytes, pax: nat): (r: Option<Entry>)
    requires |rest| >= 512
    ensures r.Some? ==> 512 <= r.value.Len() <= |rest|
  {
    var h: Block := rest[..512];
    if !ChecksumMatches(h) || MapLen(rest).None? then None
    else
      var e := Entry(EntrySize(h, pax), MapLen(rest).value);
      if e.Len() > |rest| then None else Some(e)
  }

  lemma {:induction false} ExtensionWithin(rest: Bytes, at: nat, n: nat)
    requires ExtensionLen(rest, at).Some? && at + ExtensionLen(rest, at).value <= n <= |rest|
    ensures ExtensionLen(rest[..n], at) == ExtensionLen(rest, at)
    decreases |rest| - at
  {
    if rest[at + 504] != 0 {
      ExtensionWithin(rest, at + 512, n);
    }
  }

  // --- What an entry leaves in memory ---

  /** An entry of `n` bytes that joins the next one is held for it when it fits. A mapped file holds nothing. */
  predicate Held(mem: Memory, h: Block, n: nat)
  {
    mem.Buffers? && Joins(h) && !HasSparseExtension(h) && n <= HELD_SIZE - mem.held
  }

  function Overwrite(buf: Bytes, at: nat, bytes: Bytes): (r: Bytes)
    requires at + |bytes| <= |buf|
    ensures |r| == |buf|
  {
    buf[..at] + bytes + buf[at + |bytes|..]
  }

  /** The chunk buffer after a payload has been read into it, a chunk at a time. */
  ghost function ThroughChunks(buf: ChunkBuf, payload: Bytes): ChunkBuf
    decreases |payload|
  {
    if payload == [] then buf
    else
      var take := Min(CHUNK_SIZE, |payload|);
      ThroughChunks(Overwrite(buf, 0, payload[..take]), payload[take..])
  }

  /** And after the sparse map before it, a block at a time. */
  ghost function ThroughBlocks(buf: ChunkBuf, map': Bytes): ChunkBuf
  {
    if |map'| < 512 then buf else Overwrite(buf, 0, map'[|map'| - 512..])
  }

  /** The memory after an entry with a sparse map of `mapLen` bytes. */
  ghost function MemoryAfter(mem: Memory, entry: Bytes, mapLen: nat): Memory
    requires 512 + mapLen <= |entry|
  {
    match mem
    case TheMap => TheMap
    case Buffers(held, heldBuf, chunkBuf) =>
      if Held(mem, entry[..512], |entry|) then
        Buffers(held + |entry|, Overwrite(heldBuf, held, entry), chunkBuf)
      else
        Buffers(0, heldBuf, ThroughChunks(ThroughBlocks(chunkBuf, entry[512..512 + mapLen]), entry[512 + mapLen..]))
  }

  /** The memory after a null block. At the end of the run it stands in, what is held is compressed,
      and the zeros from a cleared chunk buffer. */
  ghost function MemoryAfterNull(mem: Memory): Memory
  {
    match mem
    case TheMap => TheMap
    case Buffers(_, heldBuf, _) => Buffers(0, heldBuf, Zeros(CHUNK_SIZE))
  }

  /** What can be read from the start of a pax header's data on: the data, and whatever is behind it in
      memory. Standard input passes over data that is neither held nor read in one chunk. */
  ghost function PaxData(mem: Memory, entry: Bytes, tail: Bytes): (data: Option<Bytes>)
    requires |entry| >= 512
    ensures data.Some? ==> |entry| - 512 <= |data.value|
  {
    match mem
    case TheMap => Some(entry[512..] + tail)
    case Buffers(held, heldBuf, chunkBuf) =>
      if Held(mem, entry[..512], |entry|) then Some(entry[512..] + heldBuf[held + |entry|..])
      else if 0 < |entry| - 512 <= CHUNK_SIZE then Some(entry[512..] + chunkBuf[|entry| - 512..])
      else None
  }

  /** The override in force after an entry with `tail` behind it. */
  ghost function PaxAfter(ps: ParseState, entry: Bytes, tail: Bytes): nat
    requires |entry| >= 512
  {
    var h: Block := entry[..512];
    var data := PaxData(ps.mem, entry, tail);
    if TypeFlag(h) == FLAG_PAX && data.Some? && TarSize(h) <= |data.value| then SizeFrom(data.value, TarSize(h), 0)
    else if Overridden(h, ps.pax) then U64_MAX
    else ps.pax
  }

  // --- The next element ---

  datatype Step = Step(element: Element, next: ParseState)

  /** The element at the head of the input: a null block, part of the run it stands in, or an entry. */
  ghost function NextElement(rest: Bytes, ps: ParseState): (r: Option<Step>)
    ensures r.Some? ==> 512 <= |r.value.element.bytes| <= |rest|
                        && r.value.element.bytes == rest[..|r.value.element.bytes|]
  {
    if |rest| < 512 then None
    else if IsNull(rest[..512]) then
      Some(Step(Element(rest[..512], StartsNull(rest[512..])), ParseState(ps.pax, MemoryAfterNull(ps.mem))))
    else
      match ParseEntry(rest, ps.pax)
      case None => None
      case Some(e) =>
        var entry, tail := rest[..e.Len()], rest[e.Len()..];
        Some(Step(Element(entry, Joins(rest[..512])),
                  ParseState(PaxAfter(ps, entry, tail), MemoryAfter(ps.mem, entry, e.mapLen))))
  }

  /** The next element, when it is an entry, from what its header says. */
  lemma NextEntry(rest: Bytes, ps: ParseState)
    requires |rest| >= 512 && !IsNull(rest[..512])
    ensures var h: Block := rest[..512];
            var size := EntrySize(h, ps.pax);
            if !ChecksumMatches(h) || MapLen(rest).None? || 512 + MapLen(rest).value + Padded(size) > |rest|
            then NextElement(rest, ps) == None
            else
              var n := 512 + MapLen(rest).value + Padded(size);
              512 <= n <= |rest| &&
              NextElement(rest, ps) ==
              Some(Step(Element(rest[..n], Joins(h)),
                        ParseState(PaxAfter(ps, rest[..n], rest[n..]),
                                   MemoryAfter(ps.mem, rest[..n], MapLen(rest).value))))
  {
    hide ChecksumMatches, TarSize, IsNull, Joins, MapLen, PaxAfter, MemoryAfter;
  }

  lemma NextElementIsPrefix(rest: Bytes, ps: ParseState)
    requires NextElement(rest, ps).Some?
    ensures var bytes := NextElement(rest, ps).value.element.bytes;
            512 <= |bytes| <= |rest| && bytes == rest[..|bytes|]
  {}

  ghost function ElementsOf(rest: Bytes, ps: ParseState): Result<seq<Element>>
    decreases |rest|
  {
    if rest == [] then Ok([])
    else
      match NextElement(rest, ps)
      case None => Fail
      case Some(step) =>
        match ElementsOf(rest[|step.element.bytes|..], step.next)
        case Fail => Fail
        case Ok(es) => Ok([step.element] + es)
  }

  /** The frames of an archive, or that it is refused. */
  ghost function Frames(mem: Memory, input: Bytes, lim: Limits): Result<seq<Bytes>>
  {
    match ElementsOf(input, Fresh(mem))
    case Fail => Fail
    case Ok(es) => if es == [] then Fail else Ok(FramesOf(es, lim))
  }

  // --- The same frames, found in one pass ---

  /** What becomes of the rest of the input when `st` is what the input so far has become. */
  ghost function Continue(rest: Bytes, ps: ParseState, st: Framer, lim: Limits): Result<seq<Bytes>>
    decreases |rest|
  {
    if rest == [] then Ok(Finish(st))
    else
      match NextElement(rest, ps)
      case None => Fail
      case Some(step) =>
        var e := step.element;
        Continue(rest[|e.bytes|..], step.next, Settle(Feed(st, e.bytes, lim.max), e.joins, lim.min), lim)
  }

  lemma {:induction false} ContinueIsFold(rest: Bytes, ps: ParseState, st: Framer, lim: Limits)
    ensures Continue(rest, ps, st, lim)
            == match ElementsOf(rest, ps)
               case Fail => Fail
               case Ok(es) => Ok(Finish(FoldElements(st, es, lim)))
    decreases |rest|
  {
    if rest != [] && NextElement(rest, ps).Some? {
      var step := NextElement(rest, ps).value;
      var e, rest' := step.element, rest[|step.element.bytes|..];
      var st' := Settle(Feed(st, e.bytes, lim.max), e.joins, lim.min);
      ContinueIsFold(rest', step.next, st', lim);
      match ElementsOf(rest', step.next)
      case Fail =>
      case Ok(es) =>
        assert ([e] + es)[1..] == es;
    }
  }

  lemma FramesInOnePass(mem: Memory, input: Bytes, lim: Limits)
    requires input != []
    ensures Frames(mem, input, lim) == Continue(input, Fresh(mem), EMPTY, lim)
  {
    ContinueIsFold(input, Fresh(mem), EMPTY, lim);
    match ElementsOf(input, Fresh(mem))
    case Fail =>
    case Ok(es) =>
      ElementsAsGroups(EMPTY, es, lim);
  }

  lemma NoInputIsRefused(mem: Memory, lim: Limits)
    ensures Frames(mem, [], lim) == Fail
  {}
}
