/** Bytes, results and a few facts about sequences that every other module uses. */
module Basics {

  type Byte = b: int | 0 <= b < 256
  type Bytes = seq<Byte>

  datatype Option<+T> = None | Some(value: T)

  /** The outcome of a specification: the value, or the run fails. */
  datatype Result<+T> = Ok(value: T) | Fail

  /** Why a run stopped. The source prints a message and exits. */
  datatype Error =
    | TruncatedArchive
    | InvalidHeader
    | EntryTooLarge
    | UnexpectedEof
    | CodecRefused
    | NoEntries

  /** The outcome of a step of a run: `exit(EXIT_FAILURE)` is a value here. */
  datatype Status = Success | Failure(error: Error)

  /** `uint64_t` and `size_t` are 64 bits wide. */
  const U64: nat := 0x1_0000_0000_0000_0000
  const U64_MAX: nat := 0xFFFF_FFFF_FFFF_FFFF
  const U32: nat := 0x1_0000_0000

  /** No file, and so no buffer, is as long as this (`off_t` is signed). */
  const INPUT_LIMIT: nat := 0x8000_0000_0000_0000

  /** The largest frame t2sz writes. */
  const MAX_FRAME_SIZE: nat := 0x7FFF_FFFF

  function Min(a: int, b: int): int { if a <= b then a else b }

  function Max(a: int, b: int): int { if a >= b then a else b }

  function Zeros(n: nat): (z: Bytes)
    ensures |z| == n && forall i :: 0 <= i < n ==> z[i] == 0
  {
    seq(n, _ => 0)
  }

  /** The concatenation of all parts, in order. */
  ghost function Flatten(parts: seq<Bytes>): Bytes
  {
    if parts == [] then [] else Flatten(parts[..|parts| - 1]) + parts[|parts| - 1]
  }

  lemma FlattenSnoc(parts: seq<Bytes>, last: Bytes)
    ensures Flatten(parts + [last]) == Flatten(parts) + last
  {
    assert (parts + [last])[..|parts|] == parts;
  }

  lemma {:induction false} FlattenConcat(a: seq<Bytes>, b: seq<Bytes>)
    ensures Flatten(a + b) == Flatten(a) + Flatten(b)
    decreases |b|
  {
    if b == [] {
      assert a + b == a;
    } else {
      var init, last := b[..|b| - 1], b[|b| - 1];
      FlattenConcat(a, init);
      assert a + b == (a + init) + [last];
      FlattenSnoc(a + init, last);
      FlattenSnoc(init, last);
      assert b == init + [last];
      assert Flatten(a) + Flatten(init) + last == Flatten(a) + (Flatten(init) + last);
    }
  }

  lemma FlattenCons(head: Bytes, parts: seq<Bytes>)
    ensures Flatten([head] + parts) == head + Flatten(parts)
  {
    FlattenConcat([head], parts);
    assert [head] == [] + [head];
    FlattenSnoc([], head);
    assert Flatten([head]) == head;
  }

  /** `Flatten`, taken apart from the left. */
  ghost function Join(parts: seq<Bytes>): (bytes: Bytes)
    decreases |parts|
  {
    if parts == [] then [] else parts[0] + Join(parts[1..])
  }

  lemma {:induction false} JoinIsFlatten(parts: seq<Bytes>)
    ensures Join(parts) == Flatten(parts)
    decreases |parts|
  {
    if parts != [] {
      JoinIsFlatten(parts[1..]);
      FlattenCons(parts[0], parts[1..]);
      assert parts == [parts[0]] + parts[1..];
    }
  }

  lemma Slices(a: Bytes, b: Bytes, c: Bytes)
    ensures (a + b + c)[|a|..|a| + |b|] == b
    ensures (a + b + c)[|a| + |b|..] == c
    ensures (a + b)[..|a|] == a && (a + b)[|a|..] == b
  {}
}
