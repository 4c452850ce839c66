/** The checksum repair of the fuzzing mutator, which the header check must accept. */
module Mutator {
  import opened Basics
  import opened Numerals
  import opened TarHeader
  import opened Elements

  /** A block with its checksum as six octal digits, NUL and space. */
  ghost function Fixed(b: Block): Block
  {
    WithChksum(b, Digits(SumTo(b, 512), 8, 6) + [NUL, SPACE])
  }

  /** Every complete block repaired, except null ones. */
  ghost function FixedBlocks(s: Bytes): (r: Bytes)
    ensures |r| == |s|
    decreases |s|
  {
    if |s| < 512 then s
    else (if IsNull(s[..512]) then s[..512] else Fixed(s[..512])) + FixedBlocks(s[512..])
  }

  method FixTarChecksum(data: array<Byte>, off: nat, size: nat)
    requires off + size <= data.Length
    modifies data
    ensures size < 512 ==> data[..] == old(data[..])
    ensures size >= 512 ==>
              && data[..off] == old(data[..off])
              && data[off..off + 512] == Fixed(old(data[off..off + 512]))
              && data[off + 512..] == old(data[off + 512..])
  {
    if size < 512 {
      return;
    }
    ghost var b: Block := data[off..off + 512];
    var ac: nat := 0;
    for i := 0 to 512
      invariant ac == SumTo(b, i)
    {
      ac := (ac + (if i >= 148 && i < 156 then 0x20 else data[off + i])) % U32;
    }
    SumFits(b);
    var buf := Digits(ac, 8, 6) + [NUL, SPACE];
    forall i | 0 <= i < 8 {
      data[off + 148 + i] := buf[i];
    }
    FixedIs(b, data[off..off + 512], buf);
  }

  lemma FixedIs(b: Block, r: Bytes, buf: Bytes)
    requires |r| == 512 && |buf| == 8 && buf == Digits(SumTo(b, 512), 8, 6) + [NUL, SPACE]
    requires forall i | 0 <= i < 512 :: r[i] == if 148 <= i < 156 then buf[i - 148] else b[i]
    ensures r == Fixed(b)
  {
    hide Digits, SumTo;
    assert forall i | 148 <= i < 156 :: Fixed(b)[i] == ChksumField(Fixed(b))[i - 148];
  }

  method IsAllZero(data: array<Byte>, off: nat) returns (allZero: bool)
    requires off + 512 <= data.Length
    ensures allZero <==> IsNull(data[off..off + 512])
  {
    for i := 0 to 512
      invariant forall j | off <= j < off + i :: data[j] == 0
    {
      assert data[off..off + 512][i] == data[off + i];
      if data[off + i] != 0 {
        return false;
      }
    }
    return true;
  }

  /** How far the repair has come: `done` of the first `end` bytes, which were `was`. */
  ghost predicate Repaired(was: Bytes, now: Bytes, done: nat, end: nat)
  {
    && done <= end <= |was| == |now|
    && now[done..] == was[done..]
    && now[..done] + FixedBlocks(was[done..end]) == FixedBlocks(was[..end])
  }

  lemma RepairedMore(was: Bytes, now: Bytes, next: Bytes, done: nat, end: nat)
    requires Repaired(was, now, done, end) && done + 512 <= end && |next| == |now|
    requires next[..done] == now[..done] && next[done + 512..] == now[done + 512..]
    requires var b := now[done..done + 512];
             next[done..done + 512] == if IsNull(b) then b else Fixed(b)
    ensures Repaired(was, next, done + 512, end)
  {
    hide Fixed;
    assert now[done..done + 512] == now[done..][..512] == was[done..done + 512];
    assert now[done + 512..] == now[done..][512..] == was[done + 512..];
    assert was[done..end][..512] == was[done..done + 512];
    assert was[done..end][512..] == was[done + 512..end];
    assert next[..done + 512] == next[..done] + next[done..done + 512];
  }

  lemma RepairedAll(was: Bytes, now: Bytes, done: nat, end: nat)
    requires Repaired(was, now, done, end) && done + 512 > end
    ensures now[..end] == FixedBlocks(was[..end]) && now[end..] == was[end..]
  {
    assert now[..end] == now[..done] + now[done..][..end - done];
    assert was[done..end] == was[done..][..end - done];
    assert now[end..] == now[done..][end - done..];
    assert was[end..] == was[done..][end - done..];
  }

  /** What the mutator does after the library has mutated the first `newSize` bytes. */
  method FixAllChecksums(data: array<Byte>, newSize: nat)
    requires newSize <= data.Length
    modifies data
    ensures data[..newSize] == FixedBlocks(old(data[..newSize]))
    ensures data[newSize..] == old(data[newSize..])
  {
    ghost var was := data[..];
    assert was[..newSize] == data[..newSize] && was[newSize..] == data[newSize..];
    assert was[..0] == [] && was[0..newSize] == was[..newSize];
    assert Repaired(was, data[..], 0, newSize);
    hide Fixed, FixedBlocks, Repaired, IsNull;
    var off: nat := 0;
    while off + 512 <= newSize
      invariant Repaired(was, data[..], off, newSize)
    {
      ghost var now := data[..];
      assert data[off..off + 512] == now[off..off + 512];
      var allZero := IsAllZero(data, off);
      if !allZero {
        assert data[..off] == now[..off] && data[off + 512..] == now[off + 512..];
        FixTarChecksum(data, off, 512);
        assert data[..][..off] == data[..off] && data[..][off + 512..] == data[off + 512..];
        assert data[..][off..off + 512] == data[off..off + 512];
      }
      RepairedMore(was, now, data[..], off, newSize);
      off := off + 512;
    }
    RepairedAll(was, data[..], off, newSize);
    assert data[..][..newSize] == data[..newSize] && data[..][newSize..] == data[newSize..];
  }

  // --- What the repair is for ---

  /** Every repaired block passes the header check. */
  lemma FixedMatches(b: Block)
    ensures ChecksumMatches(Fixed(b)) && !IsNull(Fixed(b))
  {
    PrintedChecksumMatches(b, 6, [NUL, SPACE]);
    assert Fixed(b)[148] == ChksumField(Fixed(b))[0];
  }

  /** Repairing twice is repairing once. */
  lemma FixedTwice(b: Block)
    ensures Fixed(Fixed(b)) == Fixed(b)
  {
    SumIgnoresField(b, Fixed(b), 512);
    assert ChksumField(Fixed(Fixed(b))) == ChksumField(Fixed(b));
    forall i | 148 <= i < 156
      ensures Fixed(Fixed(b))[i] == Fixed(b)[i]
    {
      assert Fixed(b)[i] == ChksumField(Fixed(b))[i - 148];
    }
  }

  /** After the repair every complete block is null or passes the header check; nothing but
      checksum fields has changed, and repairing again changes nothing. */
  lemma {:induction false} RepairedBlocks(s: Bytes, at: nat)
    requires at % 512 == 0 && at + 512 <= |s|
    ensures var b, r := s[at..at + 512], FixedBlocks(s)[at..at + 512];
            && (IsNull(r) || ChecksumMatches(r))
            && (IsNull(r) <==> IsNull(b))
            && (forall i | 0 <= i < 512 && !(148 <= i < 156) :: r[i] == b[i])
            && FixedBlocks(r) == r
    decreases |s|
  {
    hide Fixed, ChecksumMatches;
    var first: Block := if IsNull(s[..512]) then s[..512] else Fixed(s[..512]);
    if at == 0 {
      assert FixedBlocks(s)[0..512] == first && s[0..512] == s[..512];
      FirstBlock(s[..512]);
      assert first[..512] == first && first[512..] == [];
    } else {
      RepairedBlocks(s[512..], at - 512);
      assert s[512..][at - 512..at] == s[at..at + 512];
      assert FixedBlocks(s)[at..at + 512] == FixedBlocks(s[512..])[at - 512..at];
    }
  }

  lemma FirstBlock(b: Block)
    ensures var r := if IsNull(b) then b else Fixed(b);
            && (IsNull(r) || ChecksumMatches(r))
            && (IsNull(r) <==> IsNull(b))
            && (forall i | 0 <= i < 512 && !(148 <= i < 156) :: r[i] == b[i])
            && (!IsNull(b) ==> Fixed(r) == r)
  {
    FixedMatches(b);
    FixedTwice(b);
  }
}
