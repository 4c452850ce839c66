/** Raw mode: blocks of one size. */
module Raw {
  import opened Basics
  import opened Framing

  /** Blocks of `k` bytes, the last one shorter if there is not enough input for it. */
  function Blocks(input: Bytes, k: nat): seq<Bytes>
    requires k > 0
    decreases |input|
  {
    if input == [] then []
    else
      var n := Min(k, |input|);
      [input[..n]] + Blocks(input[n..], k)
  }

  /** The size of a block: `-s`, or else the largest frame there can be. */
  function BlockSize(lim: Limits): nat
  {
    if lim.min != 0 then lim.min else lim.max
  }

  /** Raw blocks are the frames of an input that is a single group, cut at the block size. */
  lemma {:induction false} IsOneGroup(closed: seq<Bytes>, input: Bytes, k: nat)
    requires k > 0
    ensures Finish(Feed(Framer(closed, []), input, k)) == closed + Blocks(input, k)
    decreases |input|
  {
    if |input| < k {
      FeedShort(closed, input, k);
      if input != [] {
        assert input[..|input|] == input && Blocks(input[|input|..], k) == [];
      }
    } else {
      FeedFull(closed, input, k);
      IsOneGroup(closed + [input[..k]], input[k..], k);
      assert closed + [input[..k]] + Blocks(input[k..], k) == closed + ([input[..k]] + Blocks(input[k..], k));
    }
  }

  /** Every block but the last has exactly `k` bytes, none is empty, and together they are the input. */
  lemma {:induction false} Shape(input: Bytes, k: nat)
    requires k > 0
    ensures var bs := Blocks(input, k);
            && Flatten(bs) == input
            && (forall i | 0 <= i < |bs| :: 0 < |bs[i]| <= k)
            && (forall i | 0 <= i < |bs| - 1 :: |bs[i]| == k)
    decreases |input|
  {
    if input != [] {
      var n := Min(k, |input|);
      Shape(input[n..], k);
      FlattenCons(input[..n], Blocks(input[n..], k));
      assert input == input[..n] + input[n..];
      if |input| <= k {
        assert input[n..] == [];
      }
    }
  }
}
