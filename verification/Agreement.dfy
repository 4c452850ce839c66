/**
 When the two paths agree. They parse an archive by the same rules, but look at the data of a
 pax header in different memory, and standard input passes over the data of some.
 */
module Agreement {
  import opened Basics
  import opened Numerals
  import opened TarHeader
  import opened Pax
  import opened Framing
  import opened Elements
  import opened Samples

  // --- Exactly when two parses find the same elements ---

  /** The entry at the head of the input ends at the same place, or is refused, under either override. */
  ghost predicate SameLength(rest: Bytes, a: nat, b: nat)
    requires |rest| >= 512
  {
    var h: Block := rest[..512];
    !ChecksumMatches(h) || MapLen(rest).None? ||
    var (m, n) := (Padded(EntrySize(h, a)), Padded(EntrySize(h, b)));
    m == n || (512 + MapLen(rest).value + m > |rest| && 512 + MapLen(rest).value + n > |rest|)
  }

  /** No entry's end depends on which of the two states the parse is in. */
  ghost predicate Undisputed(rest: Bytes, s: ParseState, t: ParseState)
    decreases |rest|
  {
    |rest| < 512 ||
    ((IsNull(rest[..512]) || SameLength(rest, s.pax, t.pax)) &&
     match (NextElement(rest, s), NextElement(rest, t))
     case (Some(m), Some(n)) => Undisputed(rest[|m.element.bytes|..], m.next, n.next)
     case _ => true)
  }

  lemma SameElement(rest: Bytes, s: ParseState, t: ParseState)
    requires |rest| >= 512
    ensures var m, n := NextElement(rest, s), NextElement(rest, t);
            (IsNull(rest[..512]) || SameLength(rest, s.pax, t.pax))
            <==> ((m == None && n == None) || (m.Some? && n.Some? && m.value.element == n.value.element))
  {
    hide ChecksumMatches, TarSize, SizeFrom, MapLen, Joins, PaxAfter, MemoryAfter, EntrySize;
    if !IsNull(rest[..512]) {
      NextEntry(rest, s);
      NextEntry(rest, t);
    }
  }

  /** Two parses of the same input, for example those of the two paths, find the same elements if no
      entry is disputed; and if one of them accepts the input, only then. */
  lemma {:induction false} SameElementsExactly(rest: Bytes, s: ParseState, t: ParseState)
    ensures Undisputed(rest, s, t) ==> ElementsOf(rest, s) == ElementsOf(rest, t)
    ensures ElementsOf(rest, s).Ok? || ElementsOf(rest, t).Ok? ==>
              (Undisputed(rest, s, t) <==> ElementsOf(rest, s) == ElementsOf(rest, t))
    decreases |rest|
  {
    hide NextElement, SameLength, IsNull;
    if |rest| >= 512 {
      SameElement(rest, s, t);
      if NextElement(rest, s).Some? && NextElement(rest, t).Some? {
        var m, n := NextElement(rest, s).value, NextElement(rest, t).value;
        if m.element == n.element {
          SameElementsExactly(rest[|m.element.bytes|..], m.next, n.next);
          RestOfElements(rest, s);
          RestOfElements(rest, t);
        } else if ElementsOf(rest, s).Ok? && ElementsOf(rest, t).Ok? {
          FirstElementOf(rest, s);
          FirstElementOf(rest, t);
        }
      }
    } else if rest != [] {
      TooShort(rest, s);
      TooShort(rest, t);
    }
  }

  lemma FirstElementOf(rest: Bytes, ps: ParseState)
    requires rest != [] && ElementsOf(rest, ps).Ok?
    ensures ElementsOf(rest, ps).value != [] && NextElement(rest, ps).Some?
            && ElementsOf(rest, ps).value[0] == NextElement(rest, ps).value.element
  {}

  lemma RestOfElements(rest: Bytes, ps: ParseState)
    requires rest != [] && NextElement(rest, ps).Some?
    ensures var step := NextElement(rest, ps).value;
            var others := ElementsOf(rest[|step.element.bytes|..], step.next);
            if others == Fail then ElementsOf(rest, ps) == Fail
            else
              && ElementsOf(rest, ps) == Ok([step.element] + others.value)
              && ElementsOf(rest, ps).value[1..] == others.value
  {}

  lemma TooShort(rest: Bytes, ps: ParseState)
    requires 0 < |rest| < 512
    ensures NextElement(rest, ps) == None
  {}

  lemma SameContinuation(rest: Bytes, s: ParseState, t: ParseState, st: Framer, lim: Limits)
    requires Undisputed(rest, s, t)
    ensures Continue(rest, s, st, lim) == Continue(rest, t, st, lim)
  {
    hide Continue, ElementsOf, Undisputed;
    SameElementsExactly(rest, s, t);
    ContinueIsFold(rest, s, st, lim);
    ContinueIsFold(rest, t, st, lim);
  }

  /** The two paths give the same frames, or both refuse, if no entry is disputed. */
  lemma PathsAgree(input: Bytes, stack: Stack, lim: Limits)
    requires Undisputed(input, Fresh(TheMap), Fresh(stack))
    ensures Frames(TheMap, input, lim) == Frames(stack, input, lim)
  {
    hide ElementsOf, Undisputed;
    SameElementsExactly(input, Fresh(TheMap), Fresh(stack));
  }

  // --- Archives that nothing is disputed in ---

  /** The data of a pax header is looked at, and what it says does not depend on what is behind it in memory. */
  ghost predicate ReadInside(mem: Memory, entry: Bytes)
    requires |entry| >= 512
  {
    && PaxData(mem, entry, []).Some?
    && TarSize(entry[..512]) <= |entry| - 512
    && StaysInside(entry[512..], TarSize(entry[..512]), 0)
  }

  /** Every pax header in the archive is one of that kind. */
  ghost predicate Plain(rest: Bytes, ps: ParseState)
    decreases |rest|
  {
    match NextElement(rest, ps)
    case None => true
    case Some(step) =>
      var e := step.element.bytes;
      && (TypeFlag(e[..512]) == FLAG_PAX && !IsNull(e[..512]) ==> ReadInside(ps.mem, e))
      && Plain(rest[|e|..], step.next)
  }

  /** Two overrides that no input within the limit can tell apart. */
  predicate SameOverride(a: nat, b: nat)
  {
    a == b
    || (a != U64_MAX && b != U64_MAX
        && (Padded(a) == Padded(b) || (512 + Padded(a) >= INPUT_LIMIT && 512 + Padded(b) >= INPUT_LIMIT)))
  }

  predicate SameHeld(m: Memory, n: Memory)
  {
    m.TheMap? || n.TheMap? || m.held == n.held
  }

  lemma SamePaxData(m: Memory, n: Memory, entry: Bytes, tail: Bytes)
    requires |entry| >= 512 && SameHeld(m, n) && n.Buffers? && PaxData(n, entry, []).Some?
    ensures var (p, q) := (PaxData(m, entry, tail), PaxData(n, entry, tail));
            && p.Some? && q.Some?
            && p.value == entry[512..] + p.value[|entry| - 512..]
            && q.value == entry[512..] + q.value[|entry| - 512..]
  {
    hide Joins;
  }

  lemma SamePaxAfter(s: ParseState, t: ParseState, entry: Bytes, tail: Bytes)
    requires |entry| >= 512 && SameHeld(s.mem, t.mem) && t.mem.Buffers? && SameOverride(s.pax, t.pax)
    requires TypeFlag(entry[..512]) == FLAG_PAX ==> ReadInside(t.mem, entry)
    ensures SameOverride(PaxAfter(s, entry, tail), PaxAfter(t, entry, tail))
  {
    hide TarSize, SizeFrom, StaysInside, PaxData, SameHeld, Padded;
    if TypeFlag(entry[..512]) == FLAG_PAX {
      var data, len := entry[512..], TarSize(entry[..512]);
      SamePaxData(s.mem, t.mem, entry, tail);
      var (p, q) := (PaxData(s.mem, entry, tail).value, PaxData(t.mem, entry, tail).value);
      InsideIgnoresBeyond(data, p[|data|..], len, 0);
      InsideIgnoresBeyond(data, q[|data|..], len, 0);
    }
  }

  lemma SameHeldAfter(m: Memory, n: Memory, entry: Bytes, mapLen: nat)
    requires SameHeld(m, n) && 512 + mapLen <= |entry|
    ensures SameHeld(MemoryAfter(m, entry, mapLen), MemoryAfter(n, entry, mapLen))
    ensures n.Buffers? ==> MemoryAfter(n, entry, mapLen).Buffers?
  {
    hide Joins, ThroughChunks, ThroughBlocks, Overwrite;
  }

  /** One step of two parses that have nothing to dispute. */
  lemma SameStep(rest: Bytes, s: ParseState, t: ParseState)
    requires 512 <= |rest| < INPUT_LIMIT && t.mem.Buffers?
    requires SameOverride(s.pax, t.pax) && SameHeld(s.mem, t.mem) && Plain(rest, t)
    ensures IsNull(rest[..512]) || SameLength(rest, s.pax, t.pax)
    ensures NextElement(rest, s).Some? <==> NextElement(rest, t).Some?
    ensures NextElement(rest, s).Some? ==>
              var m, n := NextElement(rest, s).value, NextElement(rest, t).value;
              && m.element == n.element && Plain(rest[|n.element.bytes|..], n.next)
              && SameOverride(m.next.pax, n.next.pax) && SameHeld(m.next.mem, n.next.mem) && n.next.mem.Buffers?
  {
    hide ChecksumMatches, TarSize, SizeFrom, MapLen, Joins, PaxAfter, MemoryAfter, IsNull, ReadInside, NextElement,
         MemoryAfterNull;
    var h: Block := rest[..512];
    if IsNull(h) {
      NullStep(rest, s);
      NullStep(rest, t);
      assert SameHeld(MemoryAfterNull(s.mem), MemoryAfterNull(t.mem)) && MemoryAfterNull(t.mem).Buffers? by {
        NullLeavesNoneHeld(s.mem);
        NullLeavesNoneHeld(t.mem);
      }
    } else {
      NextEntry(rest, s);
      NextEntry(rest, t);
      if NextElement(rest, t).Some? {
        var n := |NextElement(rest, t).value.element.bytes|;
        assert rest[..n][..512] == h;
        SamePaxAfter(s, t, rest[..n], rest[n..]);
        SameHeldAfter(s.mem, t.mem, rest[..n], MapLen(rest).value);
      }
    }
  }

  lemma NullStep(rest: Bytes, ps: ParseState)
    requires |rest| >= 512 && IsNull(rest[..512])
    ensures NextElement(rest, ps)
            == Some(Step(Element(rest[..512], StartsNull(rest[512..])), ParseState(ps.pax, MemoryAfterNull(ps.mem))))
  {}

  lemma NullLeavesNoneHeld(mem: Memory)
    ensures if mem.TheMap? then MemoryAfterNull(mem) == TheMap
            else MemoryAfterNull(mem).Buffers? && MemoryAfterNull(mem).held == 0
  {}

  lemma {:induction false} PlainIsUndisputed(rest: Bytes, s: ParseState, t: ParseState)
    requires |rest| < INPUT_LIMIT && t.mem.Buffers?
    requires SameOverride(s.pax, t.pax) && SameHeld(s.mem, t.mem) && Plain(rest, t)
    ensures Undisputed(rest, s, t)
    decreases |rest|
  {
    hide NextElement, SameOverride, SameHeld, SameLength, IsNull, Plain;
    if |rest| >= 512 {
      SameStep(rest, s, t);
      if NextElement(rest, t).Some? {
        var m, n := NextElement(rest, s).value, NextElement(rest, t).value;
        PlainIsUndisputed(rest[|n.element.bytes|..], m.next, n.next);
      }
    }
  }

  /** In an archive whose pax headers are all looked at, and are all well formed or at least say
      nothing that depends on what is behind them, nothing is disputed: not between the two paths,
      and not between two runs on standard input that find different things on the stack. */
  lemma PlainArchive(input: Bytes, stack: Stack, mem: Memory)
    requires |input| < INPUT_LIMIT && Plain(input, Fresh(stack))
    requires mem.TheMap? || mem.held == 0
    ensures Undisputed(input, Fresh(mem), Fresh(stack))
  {
    PlainIsUndisputed(input, Fresh(mem), Fresh(stack));
  }

  /** A pax header of well-formed records, whatever pads them, is read inside if it is held or read in one chunk. */
  lemma WellFormedIsReadInside(mem: Memory, entry: Bytes, rs: seq<Record>)
    requires 512 <= |entry| < INPUT_LIMIT - 6 && PaxData(mem, entry, []).Some?
    requires forall r | r in rs :: r.WellFormed()
    requires TarSize(entry[..512]) == |PrintAll(rs)| <= |entry| - 512 && PrintAll(rs) <= entry[512..]
    ensures ReadInside(mem, entry)
  {
    hide PrintAll, TarSize, StaysInside, PaxData, Record.WellFormed;
    var data, len := entry[512..], |PrintAll(rs)|;
    assert data == PrintAll(rs) + data[len..];
    WellFormedStaysInside(rs, data[len..]);
  }

  // --- What may follow ---

  /** The header of a file with `n` bytes after it: accepted if they are its payload, refused if they are too few. */
  lemma OneEntry(own: nat, n: nat, ps: ParseState, st: Framer, lim: Limits)
    requires own < Pow(8, 11)
    ensures var rest := Header([], FLAG_FILE, own) + Zeros(n);
            var padded := Padded(if ps.pax == U64_MAX then own else ps.pax);
            && (padded == n ==> Continue(rest, ps, st, lim).Ok?)
            && (padded > n ==> Continue(rest, ps, st, lim) == Fail)
            && (padded >= n ==> Plain(rest, ps))
  {
    hide ChecksumMatches, TarSize, IsNull, Joins, Header, NextElement, Feed, Zeros, Padded, PaxAfter, MemoryAfter;
    var h, rest := Header([], FLAG_FILE, own), Header([], FLAG_FILE, own) + Zeros(n);
    HeaderIsValid([], FLAG_FILE, own);
    assert rest[..512] == h;
    NextEntry(rest, ps);
    assert MapLen(rest) == Some(0);
    assert rest[|rest|..] == [] && rest[..|rest|] == rest;
    if NextElement(rest, ps).Some? && |NextElement(rest, ps).value.element.bytes| == |rest| {
      NothingIsPlain(NextElement(rest, ps).value.next);
    }
  }

  lemma NothingIsPlain(ps: ParseState)
    ensures Plain([], ps)
  {}

  /** Overrides that are not the same are told apart by an archive of one entry. */
  lemma TellApart(s: ParseState, t: ParseState, st: Framer, lim: Limits) returns (rest: Bytes)
    requires s.pax <= U64_MAX && t.pax <= U64_MAX && !SameOverride(s.pax, t.pax)
    ensures |rest| < INPUT_LIMIT && Plain(rest, t)
    ensures Continue(rest, s, st, lim) != Continue(rest, t, st, lim)
  {
    hide Header, Continue, Plain, Zeros, Pow;
    FieldHolds(512);
    var a, b := s.pax, t.pax;
    var own := if a != U64_MAX && b != U64_MAX then 0 else if a == 0 || b == 0 then 512 else 0;
    var pa, pb := Padded(if a == U64_MAX then own else a), Padded(if b == U64_MAX then own else b);
    var n := Min(pa, pb);
    OneEntry(own, n, s, st, lim);
    OneEntry(own, n, t, st, lim);
    rest := Header([], FLAG_FILE, own) + Zeros(n);
  }

  /** The overrides two parses carry are the same exactly when the parses agree on every
      plain input that may follow. */
  lemma OverridesMatter(s: ParseState, t: ParseState, st: Framer, lim: Limits)
    requires s.pax <= U64_MAX && t.pax <= U64_MAX && t.mem.Buffers? && SameHeld(s.mem, t.mem)
    ensures SameOverride(s.pax, t.pax) <==>
            forall rest | |rest| < INPUT_LIMIT && Plain(rest, t) ::
              Continue(rest, s, st, lim) == Continue(rest, t, st, lim)
  {
    hide SameOverride, Plain, Continue;
    if SameOverride(s.pax, t.pax) {
      forall rest | |rest| < INPUT_LIMIT && Plain(rest, t)
        ensures Continue(rest, s, st, lim) == Continue(rest, t, st, lim)
      {
        PlainIsUndisputed(rest, s, t);
        SameContinuation(rest, s, t, st, lim);
      }
    } else {
      var rest := TellApart(s, t, st, lim);
    }
  }

  /** Standard input passes over the data of a pax header exactly when the header and it are too long for what
      is left of the 64 KiB that can be held, and it is empty or longer than 128 KiB. */
  lemma PassedOverExactly(m: Memory, x: Bytes, tail: Bytes)
    requires m.Buffers? && |x| >= 512 && x[156] == 'x' as int
    ensures PaxData(m, x, tail).None? <==> m.held + |x| > 65536 && (|x| == 512 || |x| > 512 + 131072)
  {
    assert IsExtension(x[..512]) && !HasSparseExtension(x[..512]);
  }

  /** The whole of `x` is a pax header whose data standard input passes over. */
  ghost predicate IsSkippedHeader(x: Bytes, ps: ParseState)
  {
    && |x| >= 512 && !IsNull(x[..512]) && TypeFlag(x[..512]) == FLAG_PAX
    && ParseEntry(x, ps.pax).Some? && ParseEntry(x, ps.pax).value.Len() == |x|
    && PaxData(ps.mem, x, []).None?
  }

  /** The override that the header `x` gives with `rest` behind it in the mapped file. */
  ghost function Given(x: Bytes, rest: Bytes): nat
    requires |x| >= 512 && |x| >= 512 + TarSize(x[..512])
  {
    SizeFrom(x[512..] + rest, TarSize(x[..512]), 0)
  }

  /** Past the header: the mapped path has its override, standard input keeps the one before it. */
  lemma PastSkippedHeader(x: Bytes, rest: Bytes, ps: ParseState, st: Framer, lim: Limits)
    requires IsSkippedHeader(x, ps)
    ensures |x| >= 512 + TarSize(x[..512])
    ensures Continue(x + rest, ParseState(ps.pax, TheMap), st, lim)
            == Continue(rest, ParseState(Given(x, rest), TheMap), Feed(st, x, lim.max), lim)
    ensures Continue(x + rest, ps, st, lim)
            == Continue(rest, ParseState(ps.pax, MemoryAfter(ps.mem, x, 0)), Feed(st, x, lim.max), lim)
  {
    hide ChecksumMatches, TarSize, IsNull, SizeFrom, Feed, NextElement, ThroughChunks, ThroughBlocks;
    var input, h := x + rest, x[..512];
    assert input[..512] == h && input[..|x|] == x && input[|x|..] == rest;
    assert MapLen(x) == Some(0) && MapLen(input) == Some(0);
    NextEntry(input, ps);
    NextEntry(input, ParseState(ps.pax, TheMap));
    assert Joins(h);
  }

  /** Passing over a pax header, of which nothing depends on what is behind it, is harmless exactly when
      its override is the one carried already: then, and only then, the two paths agree on every
      plain input after it. */
  lemma SkippingMatters(x: Bytes, ps: ParseState, st: Framer, lim: Limits)
    requires IsSkippedHeader(x, ps) && ps.mem.Buffers? && ps.pax <= U64_MAX
    requires StaysInside(x[512..], Min(TarSize(x[..512]), |x| - 512), 0)
    ensures |x| >= 512 + TarSize(x[..512])
    ensures SameOverride(Given(x, []), ps.pax) <==>
            forall rest | |rest| < INPUT_LIMIT && Plain(rest, ParseState(ps.pax, MemoryAfter(ps.mem, x, 0))) ::
              Continue(x + rest, ParseState(ps.pax, TheMap), st, lim) == Continue(x + rest, ps, st, lim)
  {
    hide SameOverride, Plain, Continue, TarSize, SizeFrom, IsSkippedHeader, Feed, StaysInside, MemoryAfter;
    PastSkippedHeader(x, [], ps, st, lim);
    var data, len, fed := x[512..], TarSize(x[..512]), Feed(st, x, lim.max);
    var s, t := ParseState(Given(x, []), TheMap), ParseState(ps.pax, MemoryAfter(ps.mem, x, 0));
    SameHeldAfter(TheMap, ps.mem, x, 0);
    OverridesMatter(s, t, fed, lim);
    forall rest: Bytes
      ensures Continue(x + rest, ParseState(ps.pax, TheMap), st, lim) == Continue(rest, s, fed, lim)
      ensures Continue(x + rest, ps, st, lim) == Continue(rest, t, fed, lim)
    {
      PastSkippedHeader(x, rest, ps, st, lim);
      InsideIgnoresBeyond(data, rest, len, 0);
      InsideIgnoresBeyond(data, [], len, 0);
    }
  }
}
