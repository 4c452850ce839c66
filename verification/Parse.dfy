/** Which inputs are accepted, and the elements that are found: told without parsing. */
module Parse {
  import opened Basics
  import opened TarHeader
  import opened Framing
  import opened Elements
  import opened TarFrames
  import opened Overrides

  /** The element `e`, after the elements `before` and with `tail` to follow: an entry with a correct
      checksum, as long as its size says, or a null block, which joins the null block after it. */
  ghost predicate IsElement(before: seq<Parsed>, e: Element, tail: Bytes)
  {
    && EndsRight(before, e.bytes, tail)
    && if IsNull(e.bytes[..512]) then e.joins == StartsNull(tail)
       else ChecksumMatches(e.bytes[..512]) && e.joins == Joins(e.bytes[..512])
  }

  /** A list of elements that makes up an archive, or what comes after the elements `before`. */
  ghost predicate IsArchiveOf(before: seq<Parsed>, mem: Memory, es: seq<Element>)
    decreases |es|
  {
    es == [] ||
    (&& IsElement(before, es[0], Covered(es[1..]))
     && IsArchiveOf(before + [Parsed(mem, es[0].bytes)], MemoryAfterElement(mem, es[0].bytes), es[1..]))
  }

  lemma {:induction false} ExtensionBeyond(part: Bytes, rest: Bytes, at: nat)
    requires part <= rest && ExtensionLen(part, at).Some?
    ensures ExtensionLen(rest, at) == ExtensionLen(part, at)
    decreases |part| - at
  {
    assert part[at + 504] == rest[at + 504];
    if part[at + 504] != 0 {
      ExtensionBeyond(part, rest, at + 512);
    }
  }

  /** What the parser takes as the next element is what `IsElement` describes, and nothing else. */
  lemma NextIsElement(rest: Bytes, ps: ParseState, before: seq<Parsed>, e: Element)
    requires LookBack(before, rest) == ps.pax && e.bytes <= rest && e.bytes != []
    ensures (NextElement(rest, ps).Some? && NextElement(rest, ps).value.element == e)
            <==> IsElement(before, e, rest[|e.bytes|..])
  {
    hide LookBack, EndsRight, NextElement;
    if NextElement(rest, ps).Some? && NextElement(rest, ps).value.element == e {
      OneStep(rest, ps, before);
      TakenIsElement(rest, ps, e);
    } else if IsElement(before, e, rest[|e.bytes|..]) {
      ElementIsTaken(rest, ps, before, e);
    }
  }

  lemma TakenIsElement(rest: Bytes, ps: ParseState, e: Element)
    requires NextElement(rest, ps).Some? && NextElement(rest, ps).value.element == e
    ensures |e.bytes| >= 512
    ensures if IsNull(e.bytes[..512]) then e.joins == StartsNull(rest[|e.bytes|..])
            else ChecksumMatches(e.bytes[..512]) && e.joins == Joins(e.bytes[..512])
  {
    hide ChecksumMatches, TarSize, IsNull, Joins, StartsNull, PaxAfter, MemoryAfter;
    NextElementIsPrefix(rest, ps);
    assert e.bytes[..512] == rest[..512];
    if !IsNull(rest[..512]) {
      NextEntry(rest, ps);
    }
  }

  lemma ElementIsTaken(rest: Bytes, ps: ParseState, before: seq<Parsed>, e: Element)
    requires LookBack(before, rest) == ps.pax && e.bytes <= rest
    requires IsElement(before, e, rest[|e.bytes|..])
    ensures NextElement(rest, ps).Some? && NextElement(rest, ps).value.element == e
  {
    hide ChecksumMatches, TarSize, IsNull, Joins, StartsNull, LookBack, PaxAfter, MemoryAfter;
    var h := e.bytes[..512];
    assert rest[..512] == h && rest[..|e.bytes|] == e.bytes && e.bytes + rest[|e.bytes|..] == rest;
    if !IsNull(h) {
      if HasSparseExtension(h) {
        ExtensionBeyond(e.bytes, rest, 512);
      }
      NextEntry(rest, ps);
    }
  }

  lemma {:induction false} ParsedIsDescribed(rest: Bytes, ps: ParseState, before: seq<Parsed>, es: seq<Element>)
    requires LookBack(before, rest) == ps.pax && Covered(es) == rest
    requires forall e | e in es :: e.bytes != []
    ensures ElementsOf(rest, ps) == Ok(es) <==> IsArchiveOf(before, ps.mem, es)
    decreases |es|
  {
    hide NextElement, LookBack, IsElement, EndsRight, MemoryAfterElement;
    if es == [] {
    } else {
      var e, tail := es[0], Covered(es[1..]);
      assert e in es;
      assert rest == e.bytes + tail && rest[|e.bytes|..] == tail;
      NextIsElement(rest, ps, before, e);
      if NextElement(rest, ps).Some? {
        var step := NextElement(rest, ps).value;
        if step.element == e {
          OneStep(rest, ps, before);
          ParsedIsDescribed(tail, step.next, before + [Parsed(ps.mem, e.bytes)], es[1..]);
          assert es == [e] + es[1..];
        }
      }
    }
  }

  /** The elements of an input are the one way there is of writing it as a list of elements; an
      input that cannot be written so is refused. */
  lemma ParseIsUnique(mem: Memory, input: Bytes, es: seq<Element>)
    ensures ElementsOf(input, Fresh(mem)) == Ok(es) <==> Covered(es) == input && IsArchiveOf([], mem, es)
  {
    hide IsElement;
    if ElementsOf(input, Fresh(mem)) == Ok(es) {
      ElementsCover(input, Fresh(mem));
      NoEmptyElements(input, Fresh(mem));
      ParsedIsDescribed(input, Fresh(mem), [], es);
    } else if Covered(es) == input && IsArchiveOf([], mem, es) {
      DescribedNotEmpty([], mem, es);
      ParsedIsDescribed(input, Fresh(mem), [], es);
    }
  }

  lemma {:induction false} NoEmptyElements(rest: Bytes, ps: ParseState)
    requires ElementsOf(rest, ps).Ok?
    ensures forall e | e in ElementsOf(rest, ps).value :: e.bytes != []
    decreases |rest|
  {
    hide NextElement;
    if rest != [] {
      var step := NextElement(rest, ps).value;
      NextElementIsPrefix(rest, ps);
      NoEmptyElements(rest[|step.element.bytes|..], step.next);
    }
  }

  lemma {:induction false} DescribedNotEmpty(before: seq<Parsed>, mem: Memory, es: seq<Element>)
    requires IsArchiveOf(before, mem, es)
    ensures forall e | e in es :: e.bytes != []
    decreases |es|
  {
    hide MemoryAfterElement;
    if es != [] {
      DescribedNotEmpty(before + [Parsed(mem, es[0].bytes)], MemoryAfterElement(mem, es[0].bytes), es[1..]);
    }
  }
}
