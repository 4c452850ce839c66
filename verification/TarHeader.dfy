/** A tar header: its checksum, its size field, and which entries share a frame. */
module TarHeader {
  import opened Basics
  import opened Numerals

  type Block = b: Bytes | |b| == 512 witness Zeros(512)

  /** The fields of the packed struct the source reads. */
  function NameField(h: Block): Bytes { h[0..100] }
  function SizeField(h: Block): Bytes { h[124..136] }
  function ChksumField(h: Block): Bytes { h[148..156] }
  function TypeFlag(h: Block): Byte { h[156] }

  const FLAG_PAX: Byte := 'x' as int
  const FLAG_GLOBAL: Byte := 'g' as int
  const FLAG_LONG_NAME: Byte := 'L' as int
  const FLAG_LONG_LINK: Byte := 'K' as int
  const FLAG_SPARSE: Byte := 'S' as int
  const SLASH: Byte := '/' as int
  const DOT: Byte := '.' as int
  const UNDERSCORE: Byte := '_' as int

  // --- Checksum ---

  /** A byte as the checksum sees it: the checksum field counts as spaces. */
  ghost function Summed(h: Block, i: nat): nat
    requires i < 512
  {
    if 148 <= i < 156 then 0x20 else h[i]
  }

  /** The sum of the first `n` bytes. */
  ghost function SumTo(h: Block, n: nat): (s: nat)
    requires n <= 512
    ensures s <= 255 * n
  {
    if n == 0 then 0 else SumTo(h, n - 1) + Summed(h, n - 1)
  }

  lemma {:induction false} SumOverField(h: Block, n: nat)
    requires 148 <= n <= 156
    ensures SumTo(h, n) == SumTo(h, 148) + (n - 148) * 0x20
    decreases n
  {
    if n > 148 {
      SumOverField(h, n - 1);
    }
  }

  /** The 32-bit sum never wraps: it is the mathematical one. */
  method Checksum(h: Block) returns (ac: nat)
    ensures ac == SumTo(h, 512) < Pow(8, 6)
  {
    ac := 0;
    var i := 0;
    while i < 148
      invariant 0 <= i <= 148
      invariant ac == SumTo(h, i)
    {
      ac := (ac + h[i]) % U32;
      i := i + 1;
    }
    SumOverField(h, 156);
    ac := (ac + 8 * 0x20) % U32;
    i := i + 8;
    while i < 512
      invariant 156 <= i <= 512
      invariant ac == SumTo(h, i)
    {
      ac := (ac + h[i]) % U32;
      i := i + 1;
    }
    SumFits(h);
  }

  lemma SumFits(h: Block)
    ensures SumTo(h, 512) < Pow(8, 6)
  {
    assert Pow(8, 3) == 512;
    assert Pow(8, 6) == 512 * 512;
  }

  /** The stored checksum, read as octal over the whole field, is the computed one. */
  ghost predicate ChecksumMatches(h: Block)
  {
    SumTo(h, 512) == StrToUnsigned(ChksumField(h)) % U32
  }

  method IsTarHeader(h: Block) returns (b: bool)
    ensures b <==> ChecksumMatches(h)
  {
    var chksum := Checksum(h);
    var hdrChksum := StrToUnsigned(h[148..156]) % U32;
    b := chksum == hdrChksum;
  }

  /** A block with another checksum field. */
  function WithChksum(h: Block, field: Bytes): (r: Block)
    requires |field| == 8
    ensures ChksumField(r) == field
    ensures forall i | 0 <= i < 512 && !(148 <= i < 156) :: r[i] == h[i]
  {
    h[..148] + field + h[156..]
  }

  lemma {:induction false} SumIgnoresField(h: Block, r: Block, n: nat)
    requires n <= 512
    requires forall i | 0 <= i < 512 && !(148 <= i < 156) :: r[i] == h[i]
    ensures SumTo(r, n) == SumTo(h, n)
    decreases n
  {
    if n > 0 {
      SumIgnoresField(h, r, n - 1);
    }
  }

  /** A header carrying its sum in `digits` octal digits and a terminator is accepted, whatever
      its checksum field held before: six digits, NUL and space (POSIX), seven and NUL (git). */
  lemma PrintedChecksumMatches(h: Block, digits: nat, tail: Bytes)
    requires 6 <= digits <= 7 && digits + |tail| == 8 && tail[0] == NUL
    ensures ChecksumMatches(WithChksum(h, Digits(SumTo(h, 512), 8, digits) + tail))
  {
    var sum := SumTo(h, 512);
    PrintedSum(sum, digits, tail, h);
    SumIgnoresField(h, WithChksum(h, Digits(sum, 8, digits) + tail), 512);
  }

  lemma PrintedSum(sum: nat, digits: nat, tail: Bytes, h: Block)
    requires 6 <= digits <= 7 && |tail| > 0 && tail[0] == NUL && sum == SumTo(h, 512)
    ensures StrToUnsigned(Digits(sum, 8, digits) + tail) % U32 == sum
  {
    hide Digits, StrToUnsigned, Pow, SumTo;
    SumFits(h);
    PowMonotone(8, 6, digits);
    OctalRoundTrip(sum, digits, tail);
  }

  // --- Size field ---

  predicate IsBase256(field: Bytes)
    requires |field| == 12
  {
    field[0] >= 0x80
  }

  /** What the size field says, `U64_MAX` standing for what cannot be a size. */
  function TarSize(h: Block): (size: nat)
    ensures size <= U64_MAX
  {
    var field := SizeField(h);
    if IsBase256(field) then
      if field[0] != 0x80 || field[1] != 0 || field[2] != 0 || field[3] != 0 then U64_MAX
      else
        BigEndianBound(field[4..]);
        assert Pow(256, 4) == 0x1_0000_0000;
        assert Pow(256, 8) == U64;
        BigEndian(field[4..])
    else StrToUnsigned(field)
  }

  method ParseTarSize(h: Block) returns (size: nat)
    ensures size == TarSize(h)
  {
    var field := h[124..136];
    if field[0] >= 0x80 {
      if field[0] != 0x80 || field[1] != 0 || field[2] != 0 || field[3] != 0 {
        return U64_MAX;
      }
      size := 0;
      assert Pow(256, 4) == 0x1_0000_0000;
      assert Pow(256, 8) == U64;
      for i := 4 to 12
        invariant size == BigEndian(field[4..i])
      {
        assert field[4..i + 1][..i - 4] == field[4..i];
        BigEndianBound(field[4..i + 1]);
        PowMonotone(256, i - 3, 8);
        size := (size * 256 + field[i]) % U64;
      }
      assert field[4..12] == field[4..];
      return size;
    }
    size := StrToUnsigned(field);
  }

  lemma {:induction false} PowMonotone(base: nat, m: nat, n: nat)
    requires base > 0 && m <= n
    ensures Pow(base, m) <= Pow(base, n)
    decreases n
  {
    if m < n {
      PowMonotone(base, m, n - 1);
      assert Pow(base, n) >= 1 * Pow(base, n - 1);
    }
  }

  /** A base-256 field as GNU tar defines it: below the flag bit, a 95-bit two's complement number. */
  function Base256Value(field: Bytes): int
    requires |field| == 12 && IsBase256(field)
  {
    var raw := (field[0] - 0x80) * Pow(256, 11) + BigEndian(field[1..]);
    if field[0] >= 0xC0 then raw - 0x80 * Pow(256, 11) else raw
  }

  lemma {:induction false} BigEndianConcat(a: Bytes, b: Bytes)
    ensures BigEndian(a + b) == BigEndian(a) * Pow(256, |b|) + BigEndian(b)
    decreases |b|
  {
    if b == [] {
      assert a + b == a;
    } else {
      var init, p := b[..|b| - 1], Pow(256, |b| - 1);
      BigEndianConcat(a, init);
      assert (a + b)[..|a + b| - 1] == a + init;
      assert BigEndian(a) * p * 256 == BigEndian(a) * (256 * p);
    }
  }

  /** A base-256 field is read exactly when its value is a 64-bit size; a negative or wider
      one is what every caller rejects. */
  lemma Base256Exact(h: Block)
    requires IsBase256(SizeField(h))
    ensures var v := Base256Value(SizeField(h));
            TarSize(h) == if 0 <= v < U64 then v else U64_MAX
  {
    var field := SizeField(h);
    var high, low := field[1..4], field[4..];
    assert field[1..] == high + low;
    BigEndianConcat(high, low);
    BigEndianBound(low);
    BigEndianBound(field[1..]);
    ThreeBytes(high);
    assert Pow(256, 4) == 0x1_0000_0000;
    assert Pow(256, 8) == U64;
    assert Pow(256, 11) == 0x100_0000 * U64;
  }

  lemma ThreeBytes(s: Bytes)
    requires |s| == 3
    ensures BigEndian(s) == s[0] as int * 0x1_0000 + s[1] as int * 0x100 + s[2] as int
  {
    assert s[..1][..0] == [] && s[..2][..1] == s[..1];
    assert BigEndian(s[..1]) == s[0];
    assert BigEndian(s[..2]) == BigEndian(s[..1]) * 256 + s[1];
  }

  /** Eleven octal digits and a terminator are read back as the size they print. */
  lemma OctalSizeRoundTrip(h: Block, v: nat, terminator: Byte)
    requires v < Pow(8, 11) && (terminator == NUL || terminator == SPACE)
    requires SizeField(h) == Digits(v, 8, 11) + [terminator]
    ensures TarSize(h) == v
  {
    assert Pow(8, 5) == 0x8000;
    assert Pow(8, 11) == 0x2_0000_0000;
    OctalRoundTrip(v, 11, [terminator]);
    assert SizeField(h)[0] == Digits(v, 8, 11)[0];
  }

  /** So is any other octal size: padded with blanks or zeros, ended by anything that is not an octal digit or by
      the end of the field. */
  lemma OctalSizeIsRead(h: Block, blanks: Bytes, v: nat, n: nat, tail: Bytes)
    requires h[124..136] == blanks + (Digits(v, 8, n) + tail)
    requires forall i | 0 <= i < |blanks| :: blanks[i] == ' ' as int || 9 <= blanks[i] <= 13
    requires 0 < n && v < Pow(8, n)
    requires tail == [] || !('0' as int <= tail[0] <= '7' as int)
    ensures TarSize(h) == v
  {
    hide Pow, Digits, StrToUnsigned;
    FieldFits(v, n);
    OctalIsRead(blanks, [], v, n, tail);
    assert [] + Digits(v, 8, n) + tail == Digits(v, 8, n) + tail;
    if blanks != [] {
      assert SizeField(h)[0] == blanks[0];
    } else {
      assert SizeField(h)[0] == Digits(v, 8, n)[0];
    }
  }

  lemma FieldFits(v: nat, n: nat)
    requires v < Pow(8, n) && n <= 12
    ensures v < 0x10_0000_0000
    ensures n <= 8 ==> v < 0x100_0000
  {
    PowMonotone(8, n, 12);
    assert Pow(8, 6) == 0x4_0000;
    assert Pow(8, 8) == 0x100_0000;
    assert Pow(8, 12) == 0x10_0000_0000;
    if n <= 8 {
      PowMonotone(8, n, 8);
    }
  }

  /** And a checksum printed in any such way is accepted exactly when it is the sum of the header. */
  lemma ChecksumIsRead(h: Block, blanks: Bytes, v: nat, n: nat, tail: Bytes)
    requires h[148..156] == blanks + (Digits(v, 8, n) + tail)
    requires forall i | 0 <= i < |blanks| :: blanks[i] == ' ' as int || 9 <= blanks[i] <= 13
    requires 0 < n && v < Pow(8, n)
    requires tail == [] || !('0' as int <= tail[0] <= '7' as int)
    ensures ChecksumMatches(h) <==> v == SumTo(h, 512)
  {
    hide Pow, Digits, StrToUnsigned, SumTo;
    FieldFits(v, n);
    OctalIsRead(blanks, [], v, n, tail);
    assert [] + Digits(v, 8, n) + tail == Digits(v, 8, n) + tail;
  }

  /** So is the base-256 field of any 64-bit size. */
  lemma Base256SizeRoundTrip(h: Block, v: nat)
    requires v < U64
    requires SizeField(h) == [0x80, 0, 0, 0] + ToBigEndian(v, 8)
    ensures TarSize(h) == v
  {
    assert Pow(256, 4) == 0x1_0000_0000;
    assert Pow(256, 8) == U64;
    BigEndianRoundTrip(v, 8);
    assert SizeField(h)[4..] == ToBigEndian(v, 8);
  }

  // --- Which entries share a frame ---

  /** An entry that only describes the entries that follow it. */
  predicate IsExtension(h: Block)
  {
    TypeFlag(h) in [FLAG_PAX, FLAG_GLOBAL, FLAG_LONG_NAME, FLAG_LONG_LINK]
  }

  /** The part of `s` before its first NUL. */
  function CString(s: Bytes): Bytes
    decreases |s|
  {
    if s == [] || s[0] == NUL then [] else [s[0]] + CString(s[1..])
  }

  /** The part of a path after its last slash. */
  function BaseName(path: Bytes): Bytes
    decreases |path|
  {
    if path == [] || path[|path| - 1] == SLASH then []
    else BaseName(path[..|path| - 1]) + [path[|path| - 1]]
  }

  /** An extended header, or an AppleDouble file ("._name"), goes with the next entry. */
  predicate Joins(h: Block)
  {
    var base := BaseName(CString(NameField(h)));
    IsExtension(h) || (|base| > 2 && base[0] == DOT && base[1] == UNDERSCORE)
  }

  /** `strnlen(s, |s|)` */
  method StrnLen(s: Bytes) returns (len: nat)
    ensures len <= |s| && s[..len] == CString(s)
  {
    len := 0;
    while len < |s| && s[len] != NUL
      invariant 0 <= len <= |s|
      invariant NUL !in s[..len]
    {
      len := len + 1;
    }
    CStringIs(s, len);
  }

  method JoinsNextEntry(h: Block) returns (b: bool)
    ensures b <==> Joins(h)
  {
    hide CString, BaseName;
    var name := NameField(h);
    var len := StrnLen(name);
    var base := len;
    while base > 0 && name[base - 1] != SLASH
      invariant 0 <= base <= len
      invariant forall i | base <= i < len :: name[i] != SLASH
    {
      base := base - 1;
    }
    BaseNameIs(name[..len], base);
    b := IsExtension(h) || (len - base > 2 && name[base] == DOT && name[base + 1] == UNDERSCORE);
  }

  lemma {:induction false} CStringIs(s: Bytes, len: nat)
    requires len <= |s| && NUL !in s[..len] && (len < |s| ==> s[len] == NUL)
    ensures CString(s) == s[..len]
    decreases len
  {
    if len > 0 {
      assert s[..len] == [s[0]] + s[1..][..len - 1];
      CStringIs(s[1..], len - 1);
    }
  }

  lemma {:induction false} BaseNameIs(path: Bytes, base: nat)
    requires base <= |path| && (forall i | base <= i < |path| :: path[i] != SLASH)
    requires base > 0 ==> path[base - 1] == SLASH
    ensures BaseName(path) == path[base..]
    decreases |path|
  {
    if base < |path| {
      var init := path[..|path| - 1];
      BaseNameIs(init, base);
      assert path[base..] == init[base..] + [path[|path| - 1]];
    }
  }

  lemma {:induction false} CStringEnds(s: Bytes)
    ensures var n := |CString(s)|;
            n <= |s| && CString(s) == s[..n] && NUL !in s[..n] && (n < |s| ==> s[n] == NUL)
    decreases |s|
  {
    if s != [] && s[0] != NUL {
      var n := |CString(s[1..])|;
      CStringEnds(s[1..]);
      assert s[..n + 1] == [s[0]] + s[1..][..n];
    }
  }

  lemma {:induction false} BaseNameStarts(path: Bytes)
    ensures |BaseName(path)| <= |path|
    ensures var b := |path| - |BaseName(path)|;
            && BaseName(path) == path[b..]
            && (forall i | b <= i < |path| :: path[i] != SLASH)
            && (b > 0 ==> path[b - 1] == SLASH)
    decreases |path|
  {
    if path != [] && path[|path| - 1] != SLASH {
      BaseNameStarts(path[..|path| - 1]);
    }
  }

  /** The name of the header is `name` up to `n`, where the field ends or a NUL stands, and its last part starts at
      `b` with "._" and goes on. */
  ghost predicate IsAppleDouble(h: Block, b: nat, n: nat)
  {
    && b + 2 < n <= 100
    && h[b] == '.' as int && h[b + 1] == '_' as int
    && (forall i | 0 <= i < n :: h[i] != 0)
    && (n < 100 ==> h[n] == 0)
    && (forall i | b <= i < n :: h[i] != '/' as int)
    && (b > 0 ==> h[b - 1] == '/' as int)
  }

  lemma AppleDoubleJoins(h: Block, b: nat, n: nat)
    requires IsAppleDouble(h, b, n)
    ensures Joins(h)
  {
    var field := NameField(h);
    assert forall i | 0 <= i < n :: field[i] == h[i];
    CStringIs(field, n);
    BaseNameIs(field[..n], b);
  }

  lemma JoinedIsAppleDouble(h: Block) returns (b: nat, n: nat)
    requires Joins(h) && !IsExtension(h)
    ensures IsAppleDouble(h, b, n)
  {
    hide CString, BaseName;
    var field := NameField(h);
    var path := CString(field);
    CStringEnds(field);
    BaseNameStarts(path);
    b, n := |path| - |BaseName(path)|, |path|;
    assert forall i | 0 <= i < n :: h[i] == path[i];
    assert path[b..][0] == path[b] && path[b..][1] == path[b + 1];
  }

  /** The entries that join the next one, told from the bytes of the header. */
  lemma JoinsExactly(h: Block)
    ensures Joins(h) <==> h[156] in ['x' as int, 'g' as int, 'L' as int, 'K' as int]
                          || exists b: nat, n: nat :: IsAppleDouble(h, b, n)
  {
    hide IsAppleDouble, CString, BaseName;
    if b: nat, n: nat :| IsAppleDouble(h, b, n) {
      AppleDoubleJoins(h, b, n);
    } else if Joins(h) && !IsExtension(h) {
      var b, n := JoinedIsAppleDouble(h);
    }
  }

  /** A GNU sparse entry whose map goes on in extension blocks. */
  predicate HasSparseExtension(h: Block)
  {
    TypeFlag(h) == FLAG_SPARSE && h[482] != 0
  }

  /** A size rounded up to whole blocks. */
  function Padded(size: nat): (padded: nat)
    ensures size <= padded < size + 512 && padded % 512 == 0
  {
    if size % 512 != 0 then size - size % 512 + 512 else size
  }
}
