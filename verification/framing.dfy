/** Cutting byte lists into 16-byte blocks (crypto.py:55-65 and crypto.py:116).

    Encryption pads a short last block with the delimiter 255 and then zeros;
    a list whose length is a multiple of 16 (the empty list included) is
    never padded.  Decryption cuts its bytes with plain slices and pads
    nothing.
 */
module Framing {

  import Seqs
  import Text

  const BlockSize: nat := 16

  /** The number of blocks `range(0, n, 16)` visits: `ceil(n / 16)`. */
  function BlockCount(n: nat): nat
  {
    (n + BlockSize - 1) / BlockSize
  }

  /** The byte stream encryption works on: the input, then, only when it
      ends part-way through a block, one delimiter and zeros up to the next
      multiple of 16. */
  function Framed(bs: seq<nat>): (f: seq<nat>)
    ensures |f| == BlockSize * BlockCount(|bs|)
    ensures bs <= f
    ensures |bs| % BlockSize != 0 ==> f[|bs|] == Text.Delimiter
    ensures forall k :: |bs| < k < |f| ==> f[k] == 0
  {
    if |bs| % BlockSize == 0 then bs
    else bs + [Text.Delimiter] + Seqs.Zeros(BlockSize - 1 - |bs| % BlockSize)
  }

  /** `split_into_blocks`: consecutive 16-byte slices, the short last one
      padded with the delimiter and zeros. */
  function SplitIntoBlocks(bs: seq<nat>): (blocks: seq<seq<nat>>)
    ensures |blocks| == BlockCount(|bs|)
    ensures forall b :: 0 <= b < |blocks| ==> |blocks[b]| == BlockSize
    ensures Seqs.Flatten(blocks) == Framed(bs)
    decreases |bs|
  {
    if |bs| == 0 then []
    else
      var block := Seqs.Slice(bs, 0, BlockSize);
      if |block| < BlockSize then
        [block + [Text.Delimiter] + Seqs.Zeros(BlockSize - (|block| + 1))]
      else
        [block] + SplitIntoBlocks(bs[BlockSize..])
  }

  /** `[bs[i:i + 16] for i in range(0, len(bs), 16)]`: consecutive slices
      of 16, the last one short when the length is not a multiple of 16. */
  function Chunks(bs: seq<nat>): (blocks: seq<seq<nat>>)
    ensures |blocks| == BlockCount(|bs|)
    ensures Seqs.Flatten(blocks) == bs
    ensures forall b :: 0 <= b < |blocks| - 1 ==> |blocks[b]| == BlockSize
    ensures |blocks| > 0 ==> |blocks[|blocks| - 1]| == |bs| - BlockSize * (|blocks| - 1)
    ensures |bs| % BlockSize == 0 ==> forall b :: 0 <= b < |blocks| ==> |blocks[b]| == BlockSize
    decreases |bs|
  {
    if |bs| == 0 then []
    else [Seqs.Slice(bs, 0, BlockSize)] + Chunks(bs[Seqs.Min(BlockSize, |bs|)..])
  }

  /** Framing is position-wise: two lists of the same length that agree on
      the positions `lo .. hi - 1` have framed forms that agree there. */
  lemma FramedAgree(bs1: seq<nat>, bs2: seq<nat>, lo: nat, hi: nat)
    requires |bs1| == |bs2|
    requires forall k :: lo <= k < hi && k < |bs1| ==> bs1[k] == bs2[k]
    ensures |Framed(bs1)| == |Framed(bs2)|
    ensures forall k :: lo <= k < hi && k < |Framed(bs1)| ==> Framed(bs1)[k] == Framed(bs2)[k]
  {
    var f1, f2 := Framed(bs1), Framed(bs2);
    forall k | lo <= k < hi && k < |f1|
      ensures f1[k] == f2[k]
    {
      if k < |bs1| {
        assert f1[k] == bs1[k] && f2[k] == bs2[k];
      }
    }
  }
}
