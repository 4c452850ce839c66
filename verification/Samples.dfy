/** Entries that are put together by hand, to show what the code does with them. */
module Samples {
  import opened Basics
  import opened Numerals
  import opened TarHeader
  import opened Framing
  import opened Elements

  const FLAG_FILE: Byte := '0' as int

  type Name = s: Bytes | |s| <= 100

  /** A header of the given kind and size with a correct checksum. */
  ghost function Header(name: Name, flag: Byte, size: nat): Block
  {
    var bare := BareHeader(name, flag, size);
    WithChksum(bare, Digits(SumTo(bare, 512), 8, 6) + [NUL, SPACE])
  }

  function BareHeader(name: Name, flag: Byte, size: nat): (h: Block)
    ensures TypeFlag(h) == flag && SizeField(h) == Digits(size, 8, 11) + [NUL]
    ensures NameField(h) == name + Zeros(100 - |name|)
  {
    var h := (name + Zeros(100 - |name|)) + Zeros(24) + (Digits(size, 8, 11) + [NUL]) + Zeros(20) + [flag] + Zeros(355);
    assert h[124..136] == Digits(size, 8, 11) + [NUL];
    h
  }

  lemma HeaderIsValid(name: Name, flag: Byte, size: nat)
    requires flag != 0 && size < Pow(8, 11)
    ensures var h := Header(name, flag, size);
            && ChecksumMatches(h) && TarSize(h) == size && TypeFlag(h) == flag && !IsNull(h)
            && NameField(h) == name + Zeros(100 - |name|)
  {
    var bare, h := BareHeader(name, flag, size), Header(name, flag, size);
    PrintedChecksumMatches(bare, 6, [NUL, SPACE]);
    assert h[156] == bare[156];
    assert SizeField(h) == SizeField(bare);
    assert NameField(h) == NameField(bare);
    OctalSizeRoundTrip(h, size, NUL);
  }

  lemma FieldHolds(size: nat)
    requires size < 0x2_0000_0000
    ensures size < Pow(8, 11)
  {
    assert Pow(8, 5) == 0x8000;
    assert Pow(8, 11) == 0x2_0000_0000;
  }

  // --- Names without a dot ---

  lemma {:induction false} CStringWithin(s: Bytes, b: Byte)
    requires b !in s
    ensures b !in CString(s)
    decreases |s|
  {
    if s != [] && s[0] != NUL {
      CStringWithin(s[1..], b);
    }
  }

  lemma {:induction false} BaseNameWithin(path: Bytes, b: Byte)
    requires b !in path
    ensures b !in BaseName(path)
    decreases |path|
  {
    if path != [] && path[|path| - 1] != SLASH {
      BaseNameWithin(path[..|path| - 1], b);
    }
  }

  lemma NoDotNoJoin(h: Block)
    requires DOT !in NameField(h)
    ensures Joins(h) == IsExtension(h)
  {
    CStringWithin(NameField(h), DOT);
    BaseNameWithin(CString(NameField(h)), DOT);
  }

  // --- What is made of them ---

  /** An entry whose payload is as long as it should be is taken as it is. */
  lemma EntryTaken(name: Name, flag: Byte, size: nat, payload: Bytes, rest: Bytes, ps: ParseState)
    requires flag != 0 && flag != FLAG_SPARSE && size < Pow(8, 11) && DOT !in name
    requires |payload| == Padded(EntrySize(Header(name, flag, size), ps.pax))
    ensures var entry := Header(name, flag, size) + payload;
            NextElement(entry + rest, ps)
            == Some(Step(Element(entry, IsExtension(entry[..512])),
                         ParseState(PaxAfter(ps, entry, rest), MemoryAfter(ps.mem, entry, 0))))
  {
    hide ChecksumMatches, TarSize, IsNull, Joins, Header, NextElement, Padded, PaxAfter, MemoryAfter;
    var h := Header(name, flag, size);
    var entry := h + payload;
    var input, n := entry + rest, |entry|;
    HeaderIsValid(name, flag, size);
    NoDotNoJoin(h);
    assert input[..512] == h && entry[..512] == h && input[..n] == entry && input[n..] == rest;
    NextEntry(input, ps);
    assert MapLen(input) == Some(0);
  }

  /** An entry that says it is longer than what is left is refused. */
  lemma EntryRefused(name: Name, flag: Byte, size: nat, payload: Bytes, ps: ParseState)
    requires flag != 0 && size < Pow(8, 11)
    requires |payload| < Padded(EntrySize(Header(name, flag, size), ps.pax))
    ensures NextElement(Header(name, flag, size) + payload, ps) == None
  {
    hide ChecksumMatches, TarSize, IsNull, Joins, Header, NextElement, Padded;
    var h := Header(name, flag, size);
    HeaderIsValid(name, flag, size);
    assert (h + payload)[..512] == h;
    NextEntry(h + payload, ps);
  }

  lemma NullTaken(rest: Bytes, ps: ParseState)
    ensures NextElement(Zeros(512) + rest, ps)
            == Some(Step(Element(Zeros(512), StartsNull(rest)), ParseState(ps.pax, MemoryAfterNull(ps.mem))))
  {
    var input := Zeros(512) + rest;
    assert input[..512] == Zeros(512) && input[512..] == rest;
  }

  /** The first element and then the others. */
  lemma First(bytes: Bytes, rest: Bytes, ps: ParseState, joins: bool, next: ParseState)
    requires NextElement(bytes + rest, ps) == Some(Step(Element(bytes, joins), next))
    ensures ElementsOf(bytes + rest, ps)
            == match ElementsOf(rest, next)
               case Fail => Fail
               case Ok(es) => Ok([Element(bytes, joins)] + es)
  {
    hide NextElement;
    assert (bytes + rest)[|bytes|..] == rest;
  }

  lemma NoMore(ps: ParseState)
    ensures ElementsOf([], ps) == Ok([])
  {}
}
