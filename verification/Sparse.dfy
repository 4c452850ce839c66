/** Sparse maps as GNU tar prints them, and that the parser finds their end. */
module Sparse {
  import opened Basics
  import opened TarHeader
  import opened Elements

  /** An entry of a map: an offset and a length, of twelve characters each. */
  type Extent = e: Bytes | |e| == 24 witness Zeros(24)

  /** `n` places for entries of a map, the first ones in use. */
  function Places(map': seq<Extent>, n: nat): (s: Bytes)
    requires |map'| <= n
    ensures |s| == 24 * n
    decreases n
  {
    if n == 0 then []
    else if map' == [] then Zeros(24) + Places([], n - 1)
    else map'[0] + Places(map'[1..], n - 1)
  }

  /** A header has four places, and then a byte that tells whether a block follows. */
  function SparseHeader(before: Bytes, map': seq<Extent>, after: Bytes): Block
    requires |before| == 386 && |after| == 29
  {
    before + Places(map'[..Min(4, |map'|)], 4) + [if |map'| > 4 then 1 else 0] + after
  }

  /** A block has 21 places, and then such a byte. */
  function MapBlocks(map': seq<Extent>): Bytes
    decreases |map'|
  {
    if map' == [] then []
    else
      var n := Min(21, |map'|);
      Places(map'[..n], 21) + [if |map'| > 21 then 1 else 0] + Zeros(7) + MapBlocks(map'[n..])
  }

  /** The blocks after the header that a map of `n` entries takes. */
  function BlocksFor(n: nat): nat { if n <= 4 then 0 else (n - 4 + 20) / 21 }

  lemma NextBlock(before: Bytes, places: Bytes, more: Byte, tail: Bytes)
    requires |places| == 504
    ensures var whole, at := before + (places + [more] + Zeros(7) + tail), |before|;
            && at + 512 <= |whole| && whole[at + 504] == more
            && whole == before + (places + [more] + Zeros(7)) + tail
  {}

  lemma {:induction false} BlocksAreFound(before: Bytes, map': seq<Extent>, rest: Bytes)
    requires map' != []
    ensures ExtensionLen(before + (MapBlocks(map') + rest), |before|) == Some(512 * ((|map'| + 20) / 21))
    ensures |MapBlocks(map')| == 512 * ((|map'| + 20) / 21)
    decreases |map'|
  {
    hide Places, Zeros;
    var n := Min(21, |map'|);
    var places, more: Byte := Places(map'[..n], 21), if |map'| > 21 then 1 else 0;
    var block, tail := places + [more] + Zeros(7), MapBlocks(map'[n..]) + rest;
    var whole := before + (MapBlocks(map') + rest);
    assert MapBlocks(map') + rest == places + [more] + Zeros(7) + tail;
    NextBlock(before, places, more, tail);
    if |map'| > 21 {
      BlocksAreFound(before + block, map'[21..], rest);
      assert (|map'| + 20) / 21 == 1 + (|map'| - 21 + 20) / 21;
    } else {
      assert MapBlocks(map'[n..]) == [];
      assert (|map'| + 20) / 21 == 1;
    }
  }

  /** A sparse entry is printed with its map in the header and in as many blocks as it needs; the parser
      finds exactly those blocks, and the payload after them. */
  lemma MapIsFound(before: Bytes, map': seq<Extent>, after: Bytes, rest: Bytes)
    requires |before| == 386 && |after| == 29 && before[156] == 'S' as int
    ensures var h := SparseHeader(before, map', after);
            var blocks := MapBlocks(map'[Min(4, |map'|)..]);
            && |blocks| == 512 * BlocksFor(|map'|)
            && MapLen(h + (blocks + rest)) == Some(|blocks|)
            && (HasSparseExtension(h) <==> |map'| > 4)
  {
    hide Places, MapBlocks, ExtensionLen;
    var h := SparseHeader(before, map', after);
    var others := map'[Min(4, |map'|)..];
    assert h[156] == before[156] && h[482] == if |map'| > 4 then 1 else 0;
    assert (h + (MapBlocks(others) + rest))[..512] == h;
    if |map'| > 4 {
      BlocksAreFound(h, others, rest);
    } else {
      NoBlocks();
    }
  }

  lemma NoBlocks()
    ensures MapBlocks([]) == []
  {}
}
