/** Where the size of an entry comes from, told by looking back over the headers before it. */
module Overrides {
  import opened Basics
  import opened TarHeader
  import opened Pax
  import opened Framing
  import opened Elements
  import opened TarFrames

  /** An element of the input, and the memory there was when it was parsed. */
  datatype Parsed = Parsed(mem: Memory, bytes: Bytes)

  /** The size that the headers before an entry give it: the one of the nearest pax header since the last
      entry that is not an extension header. Null blocks, other extension headers, and pax headers
      that are passed over are looked past; `U64_MAX` if there is no such header, or it has no size. */
  ghost function LookBack(before: seq<Parsed>, rest: Bytes): nat
    decreases |before|
  {
    if before == [] || |before[|before| - 1].bytes| < 512 then U64_MAX
    else
      var others, last := before[..|before| - 1], before[|before| - 1];
      var h: Block := last.bytes[..512];
      if IsNull(h) then LookBack(others, last.bytes + rest)
      else if !IsExtension(h) then U64_MAX
      else
        match if TypeFlag(h) == FLAG_PAX then PaxData(last.mem, last.bytes, rest) else None
        case None => LookBack(others, last.bytes + rest)
        case Some(data) => if TarSize(h) <= |data| then SizeFrom(data, TarSize(h), 0) else U64_MAX
  }

  /** The size of the entry that `rest` starts with: from a pax header if there is one to look back to
      and the entry is not an extension header, and from its own field otherwise. */
  ghost function SizeAfter(before: seq<Parsed>, rest: Bytes): nat
    requires |rest| >= 512
  {
    var h: Block := rest[..512];
    if !IsExtension(h) && LookBack(before, rest) != U64_MAX then LookBack(before, rest) else TarSize(h)
  }

  /** An entry, with `tail` behind it, is as long as its header, its sparse map and its padded payload. */
  ghost predicate EndsRight(before: seq<Parsed>, bytes: Bytes, tail: Bytes)
  {
    && |bytes| >= 512
    && (IsNull(bytes[..512]) ==> |bytes| == 512)
    && (!IsNull(bytes[..512]) ==>
          MapLen(bytes).Some? && |bytes| == 512 + MapLen(bytes).value + Padded(SizeAfter(before, bytes + tail)))
  }

  /** The memory after an element, told from the element alone. */
  ghost function MemoryAfterElement(mem: Memory, bytes: Bytes): Memory
  {
    if |bytes| < 512 then mem
    else if IsNull(bytes[..512]) then MemoryAfterNull(mem)
    else
      match MapLen(bytes)
      case None => mem
      case Some(mapLen) => MemoryAfter(mem, bytes, mapLen)
  }

  /** Elements that are parsed one after the other, from the memory at the first. */
  ghost function History(mem: Memory, es: seq<Element>): seq<Parsed>
    decreases |es|
  {
    if es == [] then []
    else [Parsed(mem, es[0].bytes)] + History(MemoryAfterElement(mem, es[0].bytes), es[1..])
  }

  lemma LookBackOne(before: seq<Parsed>, last: Parsed, rest: Bytes)
    requires |last.bytes| >= 512
    ensures var h: Block := last.bytes[..512];
            LookBack(before + [last], rest)
            == if IsNull(h) then LookBack(before, last.bytes + rest)
               else if !IsExtension(h) then U64_MAX
               else match if TypeFlag(h) == FLAG_PAX then PaxData(last.mem, last.bytes, rest) else None
                    case None => LookBack(before, last.bytes + rest)
                    case Some(data) => if TarSize(h) <= |data| then SizeFrom(data, TarSize(h), 0) else U64_MAX
  {
    assert (before + [last])[..|before|] == before;
  }

  /** One step of the parse: the element ends where looking back says, and what it leaves behind is what
      looking back from after it gives. */
  lemma OneStep(rest: Bytes, ps: ParseState, before: seq<Parsed>)
    requires NextElement(rest, ps).Some? && LookBack(before, rest) == ps.pax
    ensures var step := NextElement(rest, ps).value;
            var bytes, tail := step.element.bytes, rest[|step.element.bytes|..];
            && bytes + tail == rest
            && EndsRight(before, bytes, tail)
            && LookBack(before + [Parsed(ps.mem, bytes)], tail) == step.next.pax
            && MemoryAfterElement(ps.mem, bytes) == step.next.mem
  {
    hide ChecksumMatches, TarSize, SizeFrom, Joins, IsNull, LookBack, MemoryAfter, MemoryAfterNull, PaxData,
         ExtensionLen;
    var step := NextElement(rest, ps).value;
    var bytes, h := step.element.bytes, rest[..512];
    var tail := rest[|bytes|..];
    NextElementIsPrefix(rest, ps);
    assert bytes + tail == rest && bytes[..512] == h;
    LookBackOne(before, Parsed(ps.mem, bytes), tail);
    if !IsNull(h) {
      NextEntry(rest, ps);
      if HasSparseExtension(h) {
        ExtensionWithin(rest, 512, |bytes|);
      }
      PaxDataHolds(ps.mem, bytes, tail);
    }
  }

  lemma PaxDataHolds(mem: Memory, entry: Bytes, tail: Bytes)
    requires |entry| >= 512
    ensures PaxData(mem, entry, tail).Some? ==> |PaxData(mem, entry, tail).value| >= |entry| - 512
  {}

  lemma HistoryCons(mem: Memory, es: seq<Element>, k: nat)
    requires 0 < k <= |es|
    ensures History(mem, es[..k])
            == [Parsed(mem, es[0].bytes)] + History(MemoryAfterElement(mem, es[0].bytes), es[1..][..k - 1])
  {
    hide MemoryAfterElement;
    assert es[..k][1..] == es[1..][..k - 1];
  }

  lemma {:induction false} StepsEndRight(rest: Bytes, ps: ParseState, before: seq<Parsed>, k: nat)
    requires ElementsOf(rest, ps).Ok? && LookBack(before, rest) == ps.pax
    requires k < |ElementsOf(rest, ps).value|
    ensures var es := ElementsOf(rest, ps).value;
            EndsRight(before + History(ps.mem, es[..k]), es[k].bytes, Covered(es[k + 1..]))
    decreases k
  {
    hide NextElement, LookBack, EndsRight, MemoryAfterElement, Covered;
    var es, step := ElementsOf(rest, ps).value, NextElement(rest, ps).value;
    var e, tail := step.element, rest[|step.element.bytes|..];
    OneStep(rest, ps, before);
    NextElementIsPrefix(rest, ps);
    assert es == [e] + ElementsOf(tail, step.next).value;
    assert es[1..] == ElementsOf(tail, step.next).value;
    if k == 0 {
      ElementsCover(tail, step.next);
      assert before + History(ps.mem, es[..0]) == before;
    } else {
      StepsEndRight(tail, step.next, before + [Parsed(ps.mem, e.bytes)], k - 1);
      assert es[1..][k..] == es[k + 1..];
      HistoryCons(ps.mem, es, k);
      var last, others := [Parsed(ps.mem, e.bytes)], History(step.next.mem, es[1..][..k - 1]);
      assert before + last + others == before + (last + others);
    }
  }

  /** In every archive that a path accepts, every entry ends where its own size, or the override found by
      looking back over the headers before it, says. */
  lemma EntriesEndRight(mem: Memory, input: Bytes, k: nat)
    requires ElementsOf(input, Fresh(mem)).Ok? && k < |ElementsOf(input, Fresh(mem)).value|
    ensures var es := ElementsOf(input, Fresh(mem)).value;
            EndsRight(History(mem, es[..k]), es[k].bytes, Covered(es[k + 1..]))
  {
    hide NextElement, EndsRight, MemoryAfterElement;
    StepsEndRight(input, Fresh(mem), [], k);
    var es := ElementsOf(input, Fresh(mem)).value;
    assert [] + History(mem, es[..k]) == History(mem, es[..k]);
  }
}
