/** The "size" record of a pax extended header: the reader of the source, and what it inverts. */
module Pax {
  import opened Basics
  import opened Numerals

  const EQUALS: Byte := '=' as int
  const NEWLINE: Byte := 0x0A
  const SIZE_NAME: Bytes := ['s' as int, 'i' as int, 'z' as int, 'e' as int]
  const SIZE_KEY: Bytes := [SPACE] + SIZE_NAME + [EQUALS]

  /** The largest value the reader can return as a size. */
  const SIZE_LIMIT: nat := 18446744073709551609

  // --- The reader, on values ---

  /** A result as `size_t`. */
  function Wrap(n: int): nat { n % U64 }

  /** The digits of a record length: where they end, and their value as `size_t`. */
  function ReadLength(data: Bytes, len: nat, i: nat, recLen: nat): (r: (nat, nat))
    requires i <= len <= |data|
    ensures i <= r.0 <= len
    decreases len - i
  {
    if i < len && IsDigit(data[i], 10) && recLen <= len
    then ReadLength(data, len, i + 1, Wrap(recLen * 10 + (data[i] - DIGIT_0)))
    else (i, recLen)
  }

  /** The digits of a size, up to `end`; `U64_MAX` if another digit might not fit. */
  function ReadSize(data: Bytes, i: nat, end: nat, size: nat): (r: nat)
    requires end <= |data|
    ensures size <= U64_MAX ==> r <= U64_MAX
    decreases end - i
  {
    if i < end && IsDigit(data[i], 10) then
      if size > (U64_MAX - 9) / 10 then U64_MAX
      else ReadSize(data, i + 1, end, size * 10 + (data[i] - DIGIT_0))
    else size
  }

  predicate HasAt(data: Bytes, i: nat, key: Bytes)
  {
    i + |key| <= |data| && data[i..i + |key|] == key
  }

  /** The size that the records of `data[pos..len]` give, `U64_MAX` if none. */
  function SizeFrom(data: Bytes, len: nat, pos: nat): (size: nat)
    requires pos <= len <= |data|
    ensures size <= U64_MAX
    decreases len - pos
  {
    if pos == len then U64_MAX
    else
      var (i, recLen) := ReadLength(data, len, pos, 0);
      if recLen == 0 || recLen > len - pos then U64_MAX
      else if Wrap(pos + recLen - i) > 6 && HasAt(data, i, SIZE_KEY) then ReadSize(data, i + 6, pos + recLen, 0)
      else SizeFrom(data, len, pos + recLen)
  }

  /** `data` is all that can be read from the start of the header's data on; `len` bytes of it count. */
  method PaxSize(data: Bytes, len: nat) returns (size: nat)
    requires len <= |data|
    ensures size == SizeFrom(data, len, 0)
  {
    hide ReadLength, ReadSize, HasAt;
    var pos := 0;
    while pos < len
      invariant 0 <= pos <= len
      invariant SizeFrom(data, len, 0) == SizeFrom(data, len, pos)
    {
      var i, recLen := ParseLength(data, len, pos);
      if recLen == 0 || recLen > len - pos {
        break;
      }
      if Wrap(pos + recLen - i) > 6 && HasAt(data, i, SIZE_KEY) {
        size := ParseSize(data, i + 6, pos + recLen);
        return;
      }
      pos := pos + recLen;
    }
    size := U64_MAX;
  }

  method ParseLength(data: Bytes, len: nat, pos: nat) returns (i: nat, recLen: nat)
    requires pos <= len <= |data|
    ensures (i, recLen) == ReadLength(data, len, pos, 0)
  {
    recLen, i := 0, pos;
    while i < len && IsDigit(data[i], 10) && recLen <= len
      invariant pos <= i <= len
      invariant ReadLength(data, len, pos, 0) == ReadLength(data, len, i, recLen)
    {
      recLen := Wrap(recLen * 10 + (data[i] - DIGIT_0));
      i := i + 1;
    }
  }

  method ParseSize(data: Bytes, start: nat, end: nat) returns (size: nat)
    requires end <= |data|
    ensures size == ReadSize(data, start, end, 0)
  {
    size := 0;
    var i := start;
    while i < end && IsDigit(data[i], 10)
      invariant start <= i
      invariant ReadSize(data, start, end, 0) == ReadSize(data, i, end, size)
    {
      if size > (U64_MAX - 9) / 10 {
        return U64_MAX;
      }
      size := size * 10 + (data[i] - DIGIT_0);
      i := i + 1;
    }
  }

  // --- The printer ---

  /** A number in decimal, without leading zeros. */
  function Decimal(n: nat): (s: Bytes)
    ensures s != [] && forall i | 0 <= i < |s| :: IsDigit(s[i], 10)
  {
    (if n < 10 then [] else Decimal(n / 10)) + [DIGIT_0 + n % 10]
  }

  /** A "length key=value" record, the length counting the whole record. */
  datatype Record = Record(length: nat, key: Bytes, value: Bytes) {
    function Body(): Bytes { [SPACE] + key + [EQUALS] + value + [NEWLINE] }

    function Print(): Bytes { Decimal(length) + Body() }

    predicate WellFormed() { EQUALS !in key && |Print()| == length }
  }

  function PrintAll(rs: seq<Record>): Bytes
    decreases |rs|
  {
    if rs == [] then [] else rs[0].Print() + PrintAll(rs[1..])
  }

  /** The number that starts a value, if it is one the reader can return. */
  function ValueSize(value: Bytes): nat
  {
    var v := ReadDigits(value, 10, 0);
    if v <= SIZE_LIMIT then v else U64_MAX
  }

  /** What the records say: the number that starts the value of the first "size" record. */
  function FirstSize(rs: seq<Record>): nat
    decreases |rs|
  {
    if rs == [] then U64_MAX
    else if rs[0].key == SIZE_NAME then ValueSize(rs[0].value)
    else FirstSize(rs[1..])
  }

  // --- The reader inverts the printer ---

  lemma {:induction false} DigitsGrow(s: Bytes, acc: nat)
    ensures ReadDigits(s, 10, acc) >= acc
    decreases |s|
  {
    if s != [] && IsDigit(s[0], 10) {
      DigitsGrow(s[1..], acc * 10 + (s[0] - DIGIT_0));
    }
  }

  lemma {:induction false} ReadAppend(s: Bytes, d: Byte, acc: nat)
    requires forall i | 0 <= i < |s| :: IsDigit(s[i], 10)
    requires IsDigit(d, 10)
    ensures ReadDigits(s + [d], 10, acc) == ReadDigits(s, 10, acc) * 10 + (d - DIGIT_0)
    decreases |s|
  {
    if s == [] {
      assert (s + [d])[1..] == [];
    } else {
      assert (s + [d])[1..] == s[1..] + [d];
      ReadAppend(s[1..], d, acc * 10 + (s[0] - DIGIT_0));
    }
  }

  lemma {:induction false} ReadDecimal(n: nat)
    ensures ReadDigits(Decimal(n), 10, 0) == n
    decreases n
  {
    if n < 10 {
      ReadAppend([], DIGIT_0 + n % 10, 0);
    } else {
      ReadDecimal(n / 10);
      ReadAppend(Decimal(n / 10), DIGIT_0 + n % 10, 0);
    }
  }

  /** A run of digits whose value is at most the length of the data is read to its end. */
  lemma {:induction false} ReadLengthIs(data: Bytes, len: nat, i: nat, j: nat, recLen: nat)
    requires i <= j < len <= |data| && len < INPUT_LIMIT
    requires (forall k | i <= k < j :: IsDigit(data[k], 10)) && !IsDigit(data[j], 10)
    requires ReadDigits(data[i..j], 10, recLen) <= len
    ensures ReadLength(data, len, i, recLen) == (j, ReadDigits(data[i..j], 10, recLen))
    decreases j - i
  {
    hide ReadDigits, Wrap;
    DigitsGrow(data[i..j], recLen);
    if i == j {
      NoDigits(recLen);
      assert data[i..j] == [];
    } else {
      var next := recLen * 10 + (data[i] - DIGIT_0);
      NextDigit(data, i, j, recLen);
      DigitsGrow(data[i + 1..j], next);
      NoWrap(next);
      ReadLengthIs(data, len, i + 1, j, next);
    }
  }

  lemma NoWrap(n: nat)
    requires n < U64
    ensures Wrap(n) == n
  {}

  lemma NoDigits(acc: nat)
    ensures ReadDigits([], 10, acc) == acc
  {}

  lemma NextDigit(data: Bytes, i: nat, j: nat, acc: nat)
    requires i < j <= |data| && IsDigit(data[i], 10)
    ensures ReadDigits(data[i..j], 10, acc) == ReadDigits(data[i + 1..j], 10, acc * 10 + (data[i] - DIGIT_0))
  {
    assert data[i..j][1..] == data[i + 1..j];
  }

  /** The saturating reader gives the value of the digits, or that it is over the limit. */
  lemma {:induction false} ReadSizeIs(data: Bytes, i: nat, end: nat, size: nat)
    requires i <= end <= |data| && size <= SIZE_LIMIT
    ensures var v := ReadDigits(data[i..end], 10, size);
            ReadSize(data, i, end, size) == if v <= SIZE_LIMIT then v else U64_MAX
    decreases end - i
  {
    if i < end && IsDigit(data[i], 10) {
      NextDigit(data, i, end, size);
      var next := size * 10 + (data[i] - DIGIT_0);
      if size > (U64_MAX - 9) / 10 {
        DigitsGrow(data[i + 1..end], next);
      } else {
        ReadSizeIs(data, i + 1, end, next);
      }
    }
  }

  lemma {:induction false} DigitsStop(s: Bytes, stop: Byte, acc: nat)
    requires !IsDigit(stop, 10)
    ensures ReadDigits(s + [stop], 10, acc) == ReadDigits(s, 10, acc)
    decreases |s|
  {
    if s != [] && IsDigit(s[0], 10) {
      assert (s + [stop])[1..] == s[1..] + [stop];
      DigitsStop(s[1..], stop, acc * 10 + (s[0] - DIGIT_0));
    }
  }

  /** " size=" starts a record's text after its length only if "size" is its key. */
  lemma KeyFound(r: Record)
    requires EQUALS !in r.key
    ensures HasAt(r.Body(), 0, SIZE_KEY) <==> r.key == SIZE_NAME
  {
    var body := r.Body();
    assert body[1 + |r.key|] == EQUALS;
    assert body[1..1 + |r.key|] == r.key;
    assert |r.key| >= 5 ==> body[5] == r.key[4] != EQUALS;
    if HasAt(body, 0, SIZE_KEY) {
      assert body[..6] == SIZE_KEY;
      assert forall j | 0 <= j < 6 :: body[j] == SIZE_KEY[j];
    }
  }

  /** `data` holds the record at `pos`. */
  ghost predicate Holds(data: Bytes, pos: nat, r: Record)
  {
    r.WellFormed() && pos + r.length <= |data| && data[pos..pos + r.length] == r.Print()
  }

  lemma RecordParts(data: Bytes, pos: nat, r: Record)
    requires Holds(data, pos, r)
    ensures var i := pos + |Decimal(r.length)|;
            && data[pos..i] == Decimal(r.length)
            && i + |r.Body()| == pos + r.length
            && data[i..pos + r.length] == r.Body()
  {
    var i := pos + |Decimal(r.length)|;
    assert data[pos..i] == r.Print()[..i - pos];
    assert data[i..pos + r.length] == r.Print()[i - pos..];
  }

  lemma LengthIsRead(data: Bytes, len: nat, pos: nat, r: Record)
    requires Holds(data, pos, r) && pos + r.length <= len <= |data| < INPUT_LIMIT
    ensures ReadLength(data, len, pos, 0) == (pos + |Decimal(r.length)|, r.length)
  {
    var digits := Decimal(r.length);
    RecordParts(data, pos, r);
    ReadDecimal(r.length);
    assert data[pos + |digits|] == r.Body()[0];
    assert forall k | pos <= k < pos + |digits| :: data[k] == digits[k - pos];
    ReadLengthIs(data, len, pos, pos + |digits|, 0);
  }

  lemma KeyIsFound(data: Bytes, pos: nat, r: Record)
    requires Holds(data, pos, r)
    ensures var i := pos + |Decimal(r.length)|;
            pos + r.length - i > 6 && HasAt(data, i, SIZE_KEY) <==> r.key == SIZE_NAME
  {
    var i, body := pos + |Decimal(r.length)|, r.Body();
    RecordParts(data, pos, r);
    KeyFound(r);
    if |body| > 6 {
      assert data[i..i + 6] == body[..6];
    }
  }

  lemma ValueIsRead(data: Bytes, pos: nat, r: Record)
    requires Holds(data, pos, r) && r.key == SIZE_NAME
    ensures ReadSize(data, pos + |Decimal(r.length)| + 6, pos + r.length, 0) == ValueSize(r.value)
  {
    var i, end := pos + |Decimal(r.length)|, pos + r.length;
    RecordParts(data, pos, r);
    assert data[i + 6..end] == r.Body()[6..] == r.value + [NEWLINE];
    ReadSizeIs(data, i + 6, end, 0);
    DigitsStop(r.value, NEWLINE, 0);
  }

  /** One record: its length is read, and it is either the answer or skipped whole. */
  lemma OneRecord(data: Bytes, len: nat, pos: nat, r: Record)
    requires Holds(data, pos, r) && pos + r.length <= len <= |data| < INPUT_LIMIT
    ensures SizeFrom(data, len, pos)
            == if r.key == SIZE_NAME then ValueSize(r.value) else SizeFrom(data, len, pos + r.length)
  {
    hide ReadLength, ReadSize, ReadDigits, HasAt, Decimal, ValueSize, Record.Print, Record.Body;
    RecordParts(data, pos, r);
    LengthIsRead(data, len, pos, r);
    KeyIsFound(data, pos, r);
    if r.key == SIZE_NAME {
      ValueIsRead(data, pos, r);
    }
  }

  lemma {:induction false} RecordsFrom(data: Bytes, len: nat, pos: nat, rs: seq<Record>)
    requires pos <= len <= |data| < INPUT_LIMIT && data[pos..len] == PrintAll(rs)
    requires forall r | r in rs :: r.WellFormed()
    ensures SizeFrom(data, len, pos) == FirstSize(rs)
    decreases |rs|
  {
    if rs != [] {
      var r := rs[0];
      assert r in rs;
      var next := pos + r.length;
      assert data[pos..len] == r.Print() + PrintAll(rs[1..]);
      assert data[pos..next] == data[pos..len][..r.length] == r.Print();
      assert data[next..len] == data[pos..len][r.length..] == PrintAll(rs[1..]);
      OneRecord(data, len, pos, r);
      RecordsFrom(data, len, next, rs[1..]);
    }
  }

  /** For any list of well-formed records, whatever pads them, the reader returns what the
      first "size" record says; no other record's key or value is taken for one. */
  lemma PaxSizeInvertsPrinter(rs: seq<Record>, padding: Bytes)
    requires forall r | r in rs :: r.WellFormed()
    requires |PrintAll(rs) + padding| < INPUT_LIMIT
    ensures SizeFrom(PrintAll(rs) + padding, |PrintAll(rs)|, 0) == FirstSize(rs)
  {
    var data, len := PrintAll(rs) + padding, |PrintAll(rs)|;
    assert data[0..len] == PrintAll(rs);
    RecordsFrom(data, len, 0, rs);
  }

  /** A size written in decimal comes back as itself, up to the limit. */
  lemma PrintedSizeIsFound(before: seq<Record>, r: Record, after: seq<Record>, size: nat)
    requires forall q | q in before :: q.key != SIZE_NAME
    requires r.key == SIZE_NAME && r.value == Decimal(size)
    ensures FirstSize(before + [r] + after) == if size <= SIZE_LIMIT then size else U64_MAX
    decreases |before|
  {
    if before == [] {
      ReadDecimal(size);
      assert (before + [r] + after)[0] == r;
    } else {
      assert (before + [r] + after)[0] == before[0];
      assert (before + [r] + after)[1..] == before[1..] + [r] + after;
      PrintedSizeIsFound(before[1..], r, after, size);
    }
  }

  /** A size record spelled out is found after any others that are not size records. */
  lemma SizeIsFound(before: seq<Record>, length: nat, size: nat, text: Bytes, after: Bytes, len: nat)
    requires forall r | r in before :: r.WellFormed() && r.key != ['s' as int, 'i' as int, 'z' as int, 'e' as int]
    requires text == Decimal(length) + [' ' as int, 's' as int, 'i' as int, 'z' as int, 'e' as int, '=' as int]
                     + Decimal(size) + ['\n' as int]
    requires |text| == length
    requires |PrintAll(before) + text| <= len <= |PrintAll(before) + text + after| < INPUT_LIMIT
    ensures SizeFrom(PrintAll(before) + text + after, len, 0)
            == if size <= 18446744073709551609 then size else 0xFFFF_FFFF_FFFF_FFFF
  {
    hide Decimal, SizeFrom, ReadDigits, PrintAll;
    var r := Record(length, SIZE_NAME, Decimal(size));
    SpelledRecord(r, text);
    assert [] + (PrintAll(before) + text + after) == PrintAll(before) + text + after;
    OthersAreSkipped(before, r, [], after, len);
    ReadDecimal(size);
  }

  lemma SpelledRecord(r: Record, text: Bytes)
    requires r.key == SIZE_NAME && |text| == r.length
    requires text == Decimal(r.length) + [' ' as int, 's' as int, 'i' as int, 'z' as int, 'e' as int, '=' as int]
                     + r.value + ['\n' as int]
    ensures r.Print() == text && r.WellFormed()
  {
    hide Decimal;
  }

  lemma {:induction false} OthersAreSkipped(rs: seq<Record>, r: Record, done: Bytes, after: Bytes, len: nat)
    requires forall q | q in rs :: q.WellFormed() && q.key != SIZE_NAME
    requires r.WellFormed() && r.key == SIZE_NAME
    requires var data := done + (PrintAll(rs) + r.Print() + after);
             |done| + |PrintAll(rs)| + r.length <= len <= |data| < INPUT_LIMIT
    ensures SizeFrom(done + (PrintAll(rs) + r.Print() + after), len, |done|) == ValueSize(r.value)
    decreases |rs|
  {
    hide Record.Print, SizeFrom, ValueSize;
    var data := done + (PrintAll(rs) + r.Print() + after);
    if rs == [] {
      assert data[|done|..|done| + r.length] == r.Print();
      OneRecord(data, len, |done|, r);
    } else {
      var q, others := rs[0], PrintAll(rs[1..]) + r.Print() + after;
      assert q in rs && PrintAll(rs) == q.Print() + PrintAll(rs[1..]);
      assert data == done + q.Print() + others;
      assert data[|done|..|done| + q.length] == q.Print();
      OneRecord(data, len, |done|, q);
      OthersAreSkipped(rs[1..], r, done + q.Print(), after, len);
    }
  }

  // --- What lies beyond the data ---

  /** No comparison with the key that `SizeFrom` makes can be decided by what follows `data`. A record
      length with so many leading zeros that its digits end past the record is always compared. */
  predicate StaysInside(data: Bytes, len: nat, pos: nat)
    requires pos <= len <= |data|
    decreases len - pos
  {
    pos == len ||
    var (i, recLen) := ReadLength(data, len, pos, 0);
    || recLen == 0
    || recLen > len - pos
    || (Wrap(pos + recLen - i) > 6 && HasAt(data, i, SIZE_KEY))
    || (&& !(Wrap(pos + recLen - i) > 6 && i + 6 > |data| && data[i..] <= SIZE_KEY)
        && StaysInside(data, len, pos + recLen))
  }

  lemma {:induction false} LengthIgnoresBeyond(data: Bytes, tail: Bytes, len: nat, i: nat, recLen: nat)
    requires i <= len <= |data|
    ensures ReadLength(data + tail, len, i, recLen) == ReadLength(data, len, i, recLen)
    decreases len - i
  {
    if i < len && IsDigit(data[i], 10) && recLen <= len {
      LengthIgnoresBeyond(data, tail, len, i + 1, Wrap(recLen * 10 + (data[i] - DIGIT_0)));
    }
  }

  lemma {:induction false} SizeIgnoresBeyond(data: Bytes, tail: Bytes, i: nat, end: nat, size: nat)
    requires end <= |data|
    ensures ReadSize(data + tail, i, end, size) == ReadSize(data, i, end, size)
    decreases end - i
  {
    if i < end && IsDigit(data[i], 10) {
      SizeIgnoresBeyond(data, tail, i + 1, end, size * 10 + (data[i] - DIGIT_0));
    }
  }

  lemma KeyBeyond(data: Bytes, tail: Bytes, i: nat)
    requires i <= |data|
    ensures i + 6 <= |data| ==> (HasAt(data + tail, i, SIZE_KEY) <==> HasAt(data, i, SIZE_KEY))
    ensures i + 6 > |data| && !(data[i..] <= SIZE_KEY) ==> !HasAt(data + tail, i, SIZE_KEY)
  {
    if i + 6 <= |data| {
      assert (data + tail)[i..i + 6] == data[i..i + 6];
    } else if HasAt(data + tail, i, SIZE_KEY) {
      assert data[i..] == (data + tail)[i..i + 6][..|data| - i];
    }
  }

  lemma {:induction false} InsideIgnoresBeyond(data: Bytes, tail: Bytes, len: nat, pos: nat)
    requires pos <= len <= |data| && StaysInside(data, len, pos)
    ensures SizeFrom(data + tail, len, pos) == SizeFrom(data, len, pos)
    decreases len - pos
  {
    hide ReadLength, ReadSize, HasAt, Wrap;
    if pos < len {
      LengthIgnoresBeyond(data, tail, len, pos, 0);
      var (i, recLen) := ReadLength(data, len, pos, 0);
      if recLen != 0 && recLen <= len - pos {
        KeyBeyond(data, tail, i);
        SizeIgnoresBeyond(data, tail, i + 6, pos + recLen, 0);
        KeyWithin(data, i);
        if !(Wrap(pos + recLen - i) > 6 && HasAt(data, i, SIZE_KEY)) {
          InsideIgnoresBeyond(data, tail, len, pos + recLen);
        }
      }
    }
  }

  lemma KeyWithin(data: Bytes, i: nat)
    ensures HasAt(data, i, SIZE_KEY) ==> i + 6 <= |data|
  {}

  /** Where no key follows a run of digits, no size is found. */
  lemma {:induction false} NoKeyNoSize(data: Bytes, len: nat, pos: nat, end: nat)
    requires pos <= len <= |data| && end <= len
    requires forall k | pos <= k < end :: IsDigit(data[k], 10)
    requires forall i | end <= i <= len :: !HasAt(data, i, SIZE_KEY)
    ensures SizeFrom(data, len, pos) == U64_MAX
    decreases len - pos
  {
    hide HasAt, Wrap;
    if pos < len {
      var (i, recLen) := ReadLength(data, len, pos, 0);
      LengthPastDigits(data, len, pos, end, 0);
      if recLen != 0 && recLen <= len - pos {
        NoKeyNoSize(data, len, pos + recLen, end);
      }
    }
  }

  /** A length is read to the end of its digits, unless it is too large. */
  lemma {:induction false} LengthPastDigits(data: Bytes, len: nat, i: nat, end: nat, recLen: nat)
    requires i <= len <= |data| && end <= len
    requires forall k | i <= k < end :: IsDigit(data[k], 10)
    ensures var (j, n) := ReadLength(data, len, i, recLen); j >= end || n > len
    decreases len - i
  {
    hide Wrap;
    if i < end && recLen <= len {
      LengthPastDigits(data, len, i + 1, end, Wrap(recLen * 10 + (data[i] - DIGIT_0)));
    }
  }

  lemma {:induction false} LengthIsDigits(data: Bytes, len: nat, i: nat, recLen: nat)
    requires i <= len <= |data|
    ensures forall k | i <= k < ReadLength(data, len, i, recLen).0 :: IsDigit(data[k], 10)
    decreases len - i
  {
    hide Wrap;
    if i < len && IsDigit(data[i], 10) && recLen <= len {
      LengthIsDigits(data, len, i + 1, Wrap(recLen * 10 + (data[i] - DIGIT_0)));
    }
  }

  /** The comparison at `pos` runs past the data: completing the key gives size 0, ending the data gives none. */
  lemma KeyCompleted(data: Bytes, len: nat, pos: nat) returns (tail: Bytes)
    requires pos < len <= |data|
    requires var (i, recLen) := ReadLength(data, len, pos, 0);
             && 0 < recLen <= len - pos
             && Wrap(pos + recLen - i) > 6 && i + 6 > |data| && data[i..] <= SIZE_KEY
    ensures |tail| <= 6 && SizeFrom(data + tail, len, pos) == 0 && SizeFrom(data, len, pos) == U64_MAX
  {
    hide ReadLength, HasAt, ReadSize;
    var (i, recLen) := ReadLength(data, len, pos, 0);
    assert pos + recLen < i;
    LengthIsDigits(data, len, pos, 0);
    NoRoom(data, i);
    NoKeyNoSize(data, len, pos + recLen, i);
    tail := CompleteKey(data, i);
    LengthIgnoresBeyond(data, tail, len, pos, 0);
    NothingToRead(data + tail, i + 6, pos + recLen);
  }

  lemma NoRoom(data: Bytes, i: nat)
    requires i + 6 > |data|
    ensures forall k | i <= k :: !HasAt(data, k, SIZE_KEY)
  {}

  lemma CompleteKey(data: Bytes, i: nat) returns (tail: Bytes)
    requires i <= |data| < i + 6 && data[i..] <= SIZE_KEY
    ensures |tail| <= 6 && HasAt(data + tail, i, SIZE_KEY)
  {
    tail := SIZE_KEY[|data| - i..];
    assert (data + tail)[i..i + 6] == data[i..] + tail == SIZE_KEY;
  }

  lemma NothingToRead(data: Bytes, i: nat, end: nat)
    requires end <= |data| && end <= i
    ensures ReadSize(data, i, end, 0) == 0
  {}

  /** If a comparison does run past the data, what follows decides. */
  lemma {:induction false} BeyondDecides(data: Bytes, len: nat, pos: nat) returns (tail: Bytes)
    requires pos <= len <= |data| && !StaysInside(data, len, pos)
    ensures |tail| <= 6 && SizeFrom(data + tail, len, pos) == 0 && SizeFrom(data, len, pos) == U64_MAX
    decreases len - pos
  {
    hide ReadLength, ReadSize, HasAt, Wrap;
    var (i, recLen) := ReadLength(data, len, pos, 0);
    if Wrap(pos + recLen - i) > 6 && i + 6 > |data| && data[i..] <= SIZE_KEY {
      tail := KeyCompleted(data, len, pos);
    } else {
      tail := BeyondDecides(data, len, pos + recLen);
      KeyBeyond(data, tail, i);
      LengthIgnoresBeyond(data, tail, len, pos, 0);
    }
  }

  /** What follows the data changes nothing exactly when no comparison runs past it. */
  lemma InsideExactly(data: Bytes, len: nat)
    requires len <= |data|
    ensures StaysInside(data, len, 0) <==> forall tail :: SizeFrom(data + tail, len, 0) == SizeFrom(data, len, 0)
  {
    hide StaysInside, SizeFrom;
    if StaysInside(data, len, 0) {
      forall tail
        ensures SizeFrom(data + tail, len, 0) == SizeFrom(data, len, 0)
      {
        InsideIgnoresBeyond(data, tail, len, 0);
      }
    } else {
      var tail := BeyondDecides(data, len, 0);
    }
  }

  /** No comparison runs past well-formed records, whatever pads them. */
  lemma WellFormedStaysInside(rs: seq<Record>, padding: Bytes)
    requires forall r | r in rs :: r.WellFormed()
    requires |PrintAll(rs) + padding| + 6 < INPUT_LIMIT
    ensures StaysInside(PrintAll(rs) + padding, |PrintAll(rs)|, 0)
  {
    hide StaysInside, SizeFrom, PrintAll, FirstSize, Record.WellFormed;
    var data, len := PrintAll(rs) + padding, |PrintAll(rs)|;
    if !StaysInside(data, len, 0) {
      var tail := BeyondDecides(data, len, 0);
      assert PrintAll(rs) + (padding + tail) == data + tail;
      PaxSizeInvertsPrinter(rs, padding);
      PaxSizeInvertsPrinter(rs, padding + tail);
    }
  }

  // --- A record can always be printed ---

  lemma {:induction false} DecimalGrows(m: nat, n: nat)
    requires m <= n
    ensures |Decimal(m)| <= |Decimal(n)| <= n / 10 + 1
    decreases n
  {
    if n >= 10 {
      DecimalGrows(m / 10, n / 10);
    }
  }

  lemma FindLength(n: nat, d: nat) returns (length: nat)
    requires d >= 1 && |Decimal(n + d)| >= d
    ensures length == |Decimal(length)| + n
    decreases n + 3 - d
  {
    DecimalGrows(n + d, n + d + 1);
    if |Decimal(n + d)| == d {
      length := n + d;
    } else {
      length := FindLength(n, d + 1);
    }
  }

  /** A length that counts itself exists for every key and value. */
  lemma LengthExists(key: Bytes, value: Bytes)
    requires EQUALS !in key
    ensures exists length :: Record(length, key, value).WellFormed()
  {
    var length := FindLength(|Record(0, key, value).Body()|, 1);
    assert Record(length, key, value).WellFormed();
  }
}
