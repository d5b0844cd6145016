/** The `SimpleEncryptor` object and its two operations (crypto.py:1-6, 91-126).

    Encryption frames the text's code points into 16-byte blocks, XORs block
    `b` (as a 4×4 matrix) with the key matrix of block `b`, and writes the
    result as lower-case hex.  Decryption reads the hex back, cuts it into
    16-byte blocks, applies the same XOR, and converts up to the first byte
    255.

    The contracts compare this block-and-matrix pipeline with a flat
    reference: byte `k` of the ciphertext is byte `k` of the framed text
    XORed with `Keystream(base, k)`.
 */
module Cipher {

  import Bits
  import Seqs
  import Hex
  import Text
  import Framing
  import KeyMatrix
  import opened Matrix

  /** An encryptor: the key, its code points, and the base key matrix
      derived from them once at construction. */
  datatype Encryptor = Encryptor(key: string, keyBytes: seq<nat>, baseKeyMatrix: Matrix)

  /** `SimpleEncryptor(key)`.  An empty key divides by zero in `pad_to_16`. */
  function New(key: string): (e: Encryptor)
    requires |key| > 0
    ensures e.key == key && e.keyBytes == Text.TextToBytes(key)
    ensures IsByteMatrix(e.baseKeyMatrix) && IsSymmetric(e.baseKeyMatrix)
    ensures e.baseKeyMatrix == KeyMatrix.MakeBaseKeyMatrix(e.keyBytes)
  {
    var keyBytes := Text.TextToBytes(key);
    Encryptor(key, keyBytes, KeyMatrix.MakeBaseKeyMatrix(keyBytes))
  }

  /** One iteration of the encrypt/decrypt loop: reshape a 16-byte block,
      XOR it with a key matrix, and flatten it again. */
  function TransformBlock(block: seq<nat>, key: Matrix): (out: seq<nat>)
    requires |block| == Framing.BlockSize && HasCells(key)
    ensures |out| == Framing.BlockSize
    ensures forall p {:trigger out[p]} :: 0 <= p < Framing.BlockSize ==> out[p] == Bits.Xor(block[p], key[p / 4][p % 4])
  {
    var m := BytesToMatrix(block);
    var x := XorMatrices(m, key);
    assert forall p :: 0 <= p < Framing.BlockSize ==> m[p / 4][p % 4] == block[4 * (p / 4) + p % 4] == block[p];
    MatrixToBytes(x)
  }

  /** The loop shared by `encrypt` and `decrypt`: block `first + n` of the
      list is transformed with the key matrix of block `first + n`, and the
      results are concatenated. */
  function CombineBlocks(base: Matrix, blocks: seq<seq<nat>>, first: nat): (out: seq<nat>)
    requires HasCells(base)
    requires forall b :: 0 <= b < |blocks| ==> |blocks[b]| == Framing.BlockSize
    ensures |out| == Framing.BlockSize * |blocks|
    decreases |blocks|
  {
    if |blocks| == 0 then []
    else
      TransformBlock(blocks[0], KeyMatrix.MakeBlockKeyMatrix(base, first))
        + CombineBlocks(base, blocks[1..], first + 1)
  }

  /** Byte `k < 16` of the loop's output is byte `k` of the first block
      XORed with the keystream of block `first`. */
  lemma CombineFirstBlock(base: Matrix, blocks: seq<seq<nat>>, first: nat, k: nat)
    requires HasCells(base)
    requires forall b :: 0 <= b < |blocks| ==> |blocks[b]| == Framing.BlockSize
    requires |blocks| > 0 && k < Framing.BlockSize
    ensures CombineBlocks(base, blocks, first)[k] ==
              Bits.Xor(Seqs.Flatten(blocks)[k], KeyMatrix.Keystream(base, Framing.BlockSize * first + k))
  {
    var key := KeyMatrix.MakeBlockKeyMatrix(base, first);
    var head := TransformBlock(blocks[0], key);
    assert CombineBlocks(base, blocks, first)[k] == head[k];
    assert Seqs.Flatten(blocks)[k] == blocks[0][k];
    KeyMatrix.KeystreamAt(base, first, k);
  }

  /** Byte `k >= 16` of the loop's output is byte `k - 16` of its output on
      the remaining blocks, numbered from `first + 1`; the same shift holds
      for the concatenated input and the keystream position. */
  lemma CombineLaterBlocks(base: Matrix, blocks: seq<seq<nat>>, first: nat, k: nat)
    requires HasCells(base)
    requires forall b :: 0 <= b < |blocks| ==> |blocks[b]| == Framing.BlockSize
    requires Framing.BlockSize <= k < Framing.BlockSize * |blocks|
    requires |Seqs.Flatten(blocks[1..])| == |CombineBlocks(base, blocks[1..], first + 1)|
    requires CombineBlocks(base, blocks[1..], first + 1)[k - Framing.BlockSize] ==
               Bits.Xor(Seqs.Flatten(blocks[1..])[k - Framing.BlockSize],
                        KeyMatrix.Keystream(base, Framing.BlockSize * (first + 1) + (k - Framing.BlockSize)))
    ensures CombineBlocks(base, blocks, first)[k] ==
              Bits.Xor(Seqs.Flatten(blocks)[k], KeyMatrix.Keystream(base, Framing.BlockSize * first + k))
  {
    CombineShift(base, blocks, first, k);
    FlattenShift(blocks, k);
    KeystreamNextBlock(base, first, k);
  }

  /** Past the first block, the loop's output is its output on the remaining blocks. */
  lemma CombineShift(base: Matrix, blocks: seq<seq<nat>>, first: nat, k: nat)
    requires HasCells(base)
    requires forall b :: 0 <= b < |blocks| ==> |blocks[b]| == Framing.BlockSize
    requires Framing.BlockSize <= k < Framing.BlockSize * |blocks|
    ensures CombineBlocks(base, blocks, first)[k] == CombineBlocks(base, blocks[1..], first + 1)[k - Framing.BlockSize]
  {
  }

  /** Past the first block, the concatenation is that of the remaining blocks. */
  lemma FlattenShift(blocks: seq<seq<nat>>, k: nat)
    requires forall b :: 0 <= b < |blocks| ==> |blocks[b]| == Framing.BlockSize
    requires Framing.BlockSize <= k < Framing.BlockSize * |blocks|
    ensures |Seqs.Flatten(blocks)| == Framing.BlockSize * |blocks|
    ensures Seqs.Flatten(blocks)[k] == Seqs.Flatten(blocks[1..])[k - Framing.BlockSize]
  {
    Seqs.FlattenBlocks(blocks);
    Seqs.FlattenBlocks(blocks[1..]);
    assert Seqs.Flatten(blocks) == blocks[0] + Seqs.Flatten(blocks[1..]);
  }

  /** Keystream positions counted from block `first + 1` shift by one block. */
  lemma KeystreamNextBlock(base: Matrix, first: nat, k: nat)
    requires HasCells(base) && k >= Framing.BlockSize
    ensures KeyMatrix.Keystream(base, Framing.BlockSize * (first + 1) + (k - Framing.BlockSize)) ==
              KeyMatrix.Keystream(base, Framing.BlockSize * first + k)
  {
    assert Framing.BlockSize * (first + 1) + (k - Framing.BlockSize) == Framing.BlockSize * first + k;
  }

  /** The block loop XORs the concatenated blocks with the keystream,
      starting at the keystream position of block `first`. */
  lemma {:induction false} CombineBlocksKeystream(base: Matrix, blocks: seq<seq<nat>>, first: nat)
    requires HasCells(base)
    requires forall b :: 0 <= b < |blocks| ==> |blocks[b]| == Framing.BlockSize
    ensures |Seqs.Flatten(blocks)| == |CombineBlocks(base, blocks, first)|
    ensures forall k :: 0 <= k < |Seqs.Flatten(blocks)| ==>
              CombineBlocks(base, blocks, first)[k] ==
                Bits.Xor(Seqs.Flatten(blocks)[k], KeyMatrix.Keystream(base, Framing.BlockSize * first + k))
    decreases |blocks|
  {
    if |blocks| > 0 {
      CombineBlocksKeystream(base, blocks[1..], first + 1);
      assert Seqs.Flatten(blocks) == blocks[0] + Seqs.Flatten(blocks[1..]);
      forall k | 0 <= k < |Seqs.Flatten(blocks)|
        ensures CombineBlocks(base, blocks, first)[k] ==
                  Bits.Xor(Seqs.Flatten(blocks)[k], KeyMatrix.Keystream(base, Framing.BlockSize * first + k))
      {
        if k < Framing.BlockSize {
          CombineFirstBlock(base, blocks, first, k);
        } else {
          CombineLaterBlocks(base, blocks, first, k);
        }
      }
    }
  }

  /** The flat reference for the block loop: byte `k` XORed with keystream
      byte `k`. */
  function XorKeystream(base: Matrix, bs: seq<nat>): (r: seq<nat>)
    requires HasCells(base)
    ensures |r| == |bs|
  {
    seq(|bs|, k requires 0 <= k < |bs| => Bits.Xor(bs[k], KeyMatrix.Keystream(base, k)))
  }

  /** One position of the flat reference. */
  lemma XorKeystreamAt(base: Matrix, bs: seq<nat>, k: nat)
    requires HasCells(base) && k < |bs|
    ensures XorKeystream(base, bs)[k] == Bits.Xor(bs[k], KeyMatrix.Keystream(base, k))
  {
  }

  /** Applying the keystream twice gives back the bytes. */
  lemma XorKeystreamSelfInverse(base: Matrix, bs: seq<nat>)
    requires HasCells(base)
    ensures XorKeystream(base, XorKeystream(base, bs)) == bs
  {
    var once := XorKeystream(base, bs);
    forall k | 0 <= k < |bs|
      ensures XorKeystream(base, once)[k] == bs[k]
    {
      Bits.XorSelfInverse(bs[k], KeyMatrix.Keystream(base, k));
    }
  }

  /** Applying the keystream to bytes gives bytes. */
  lemma XorKeystreamBytes(base: Matrix, bs: seq<nat>)
    requires HasCells(base)
    requires forall k :: 0 <= k < |bs| ==> bs[k] < 256
    ensures forall k :: 0 <= k < |bs| ==> XorKeystream(base, bs)[k] < 256
  {
    forall k | 0 <= k < |bs|
      ensures XorKeystream(base, bs)[k] < 256
    {
      Bits.XorByte(bs[k], KeyMatrix.Keystream(base, k));
    }
  }

  /** The block loop, run from block 0, is the flat reference applied to
      the concatenated blocks. */
  lemma CombineIsXorKeystream(base: Matrix, blocks: seq<seq<nat>>)
    requires HasCells(base)
    requires forall b :: 0 <= b < |blocks| ==> |blocks[b]| == Framing.BlockSize
    ensures CombineBlocks(base, blocks, 0) == XorKeystream(base, Seqs.Flatten(blocks))
  {
    var flat := Seqs.Flatten(blocks);
    CombineBlocksKeystream(base, blocks, 0);
    forall k | 0 <= k < |flat|
      ensures CombineBlocks(base, blocks, 0)[k] == XorKeystream(base, flat)[k]
    {
      CombineAtStart(base, blocks, k);
    }
  }

  /** One position of `CombineIsXorKeystream`. */
  lemma CombineAtStart(base: Matrix, blocks: seq<seq<nat>>, k: nat)
    requires HasCells(base)
    requires forall b :: 0 <= b < |blocks| ==> |blocks[b]| == Framing.BlockSize
    requires k < |Seqs.Flatten(blocks)| == |CombineBlocks(base, blocks, 0)|
    requires CombineBlocks(base, blocks, 0)[k] ==
               Bits.Xor(Seqs.Flatten(blocks)[k], KeyMatrix.Keystream(base, Framing.BlockSize * 0 + k))
    ensures CombineBlocks(base, blocks, 0)[k] == XorKeystream(base, Seqs.Flatten(blocks))[k]
  {
    XorKeystreamAt(base, Seqs.Flatten(blocks), k);
    assert Framing.BlockSize * 0 + k == k;
  }

  /** The keystream is applied position by position: inputs that agree on
      `lo .. hi - 1` give outputs that agree there. */
  lemma XorKeystreamAgree(base: Matrix, bs1: seq<nat>, bs2: seq<nat>, lo: nat, hi: nat)
    requires HasCells(base)
    requires hi <= |bs1| && hi <= |bs2|
    requires forall k :: lo <= k < hi ==> bs1[k] == bs2[k]
    ensures forall k :: lo <= k < hi ==> XorKeystream(base, bs1)[k] == XorKeystream(base, bs2)[k]
  {
  }

  /** Every byte of a framed byte list is below 256. */
  lemma FramedBytes(bs: seq<nat>)
    requires forall i :: 0 <= i < |bs| ==> bs[i] < 256
    ensures forall k :: 0 <= k < |Framing.Framed(bs)| ==> Framing.Framed(bs)[k] < 256
  {
    var f := Framing.Framed(bs);
    forall k | 0 <= k < |f|
      ensures f[k] < 256
    {
      if k < |bs| {
        assert f[k] == bs[k];
      }
    }
  }

  /** `encrypt`: the hex text of the framed code points XORed with the
      keystream, 32 hex digits per block. */
  function Encrypt(e: Encryptor, plaintext: string): (hex: string)
    requires HasCells(e.baseKeyMatrix)
    requires Text.CodePointsBelow(plaintext, 256)
    ensures Hex.IsLowerHexText(hex)
    ensures |hex| == 2 * Framing.BlockSize * Framing.BlockCount(|plaintext|)
    ensures |hex| % (2 * Framing.BlockSize) == 0
    ensures Hex.Decode(hex) == XorKeystream(e.baseKeyMatrix, Framing.Framed(Text.TextToBytes(plaintext)))
  {
    var bytes := Text.TextToBytes(plaintext);
    var blocks := Framing.SplitIntoBlocks(bytes);
    var cipher := CombineBlocks(e.baseKeyMatrix, blocks, 0);
    CombineIsXorKeystream(e.baseKeyMatrix, blocks);
    FramedBytes(bytes);
    XorKeystreamBytes(e.baseKeyMatrix, Framing.Framed(bytes));
    Hex.DecodeEncode(cipher);
    Bits.MulMod(2 * Framing.BlockSize, Framing.BlockCount(|plaintext|));
    Hex.Encode(cipher)
  }

  /** `decrypt`: the text before the first 255 among the hex bytes XORed
      with the keystream.  A byte count that is not a multiple of 16 leaves
      a short last block that `xor_matrices` cannot index, so the hex must
      have a multiple of 32 digits. */
  function Decrypt(e: Encryptor, hex: string): (text: string)
    requires HasCells(e.baseKeyMatrix)
    requires Hex.IsHexText(hex) && |hex| % (2 * Framing.BlockSize) == 0
    ensures forall k :: 0 <= k < |hex| / 2 ==> XorKeystream(e.baseKeyMatrix, Hex.Decode(hex))[k] < 256
    ensures text == Text.BytesToText(XorKeystream(e.baseKeyMatrix, Hex.Decode(hex)))
  {
    var ct := Hex.Decode(hex);
    var blocks := Framing.Chunks(ct);
    CombineIsXorKeystream(e.baseKeyMatrix, blocks);
    XorKeystreamBytes(e.baseKeyMatrix, ct);
    Text.BytesToText(CombineBlocks(e.baseKeyMatrix, blocks, 0))
  }

  /** Ciphertext byte `16b + 4i + j` is framed byte `16b + 4i + j` XORed
      with cell `(i, j)` of the key matrix of block `b`. */
  lemma EncryptCell(e: Encryptor, t: string, b: nat, i: nat, j: nat)
    requires HasCells(e.baseKeyMatrix)
    requires Text.CodePointsBelow(t, 256)
    requires b < Framing.BlockCount(|t|) && i < 4 && j < 4
    ensures 16 * b + 4 * i + j < |Hex.Decode(Encrypt(e, t))|
    ensures Hex.Decode(Encrypt(e, t))[16 * b + 4 * i + j] ==
              Bits.Xor(Framing.Framed(Text.TextToBytes(t))[16 * b + 4 * i + j],
                       KeyMatrix.MakeBlockKeyMatrix(e.baseKeyMatrix, b)[i][j])
  {
    Bits.MulMonotone(Framing.BlockSize, b + 1, Framing.BlockCount(|t|));
    XorKeystreamAt(e.baseKeyMatrix, Framing.Framed(Text.TextToBytes(t)), 16 * b + 4 * i + j);
    KeyMatrix.KeystreamCell(e.baseKeyMatrix, b, i, j);
  }

  /** Decrypting an encryption gives back the text up to its first
      character 255: all of it when it has none. */
  lemma RoundTrip(e: Encryptor, t: string)
    requires HasCells(e.baseKeyMatrix)
    requires Text.CodePointsBelow(t, 256)
    ensures Decrypt(e, Encrypt(e, t)) == Text.BeforeDelimiter(t)
  {
    var bytes := Text.TextToBytes(t);
    var f := Framing.Framed(bytes);
    XorKeystreamSelfInverse(e.baseKeyMatrix, f);
    FramedBytes(bytes);
    assert f == bytes + f[|bytes|..];
    Text.TextRoundTrip(t, f[|bytes|..]);
  }

  /** For text without the delimiter character, decryption inverts encryption. */
  lemma RoundTripWithoutDelimiter(key: string, t: string)
    requires |key| > 0
    requires Text.CodePointsBelow(t, 255)
    ensures Decrypt(New(key), Encrypt(New(key), t)) == t
  {
    RoundTrip(New(key), t);
    var p := Text.BeforeDelimiter(t);
    assert |p| == |t|;
  }

  /** Ciphertext block `b` depends only on plaintext block `b`: two texts of
      the same length that agree on block `b` encrypt to the same 32 hex
      digits there. */
  lemma BlockIndependence(e: Encryptor, t1: string, t2: string, b: nat)
    requires HasCells(e.baseKeyMatrix)
    requires Text.CodePointsBelow(t1, 256) && Text.CodePointsBelow(t2, 256)
    requires |t1| == |t2| && b < Framing.BlockCount(|t1|)
    requires forall k :: Framing.BlockSize * b <= k < Framing.BlockSize * (b + 1) && k < |t1| ==> t1[k] == t2[k]
    ensures |Encrypt(e, t1)| == |Encrypt(e, t2)| >= 32 * (b + 1)
    ensures Encrypt(e, t1)[32 * b..32 * (b + 1)] == Encrypt(e, t2)[32 * b..32 * (b + 1)]
  {
    var lo, hi := Framing.BlockSize * b, Framing.BlockSize * (b + 1);
    Bits.MulMonotone(2 * Framing.BlockSize, b + 1, Framing.BlockCount(|t1|));
    var bs1, bs2 := Text.TextToBytes(t1), Text.TextToBytes(t2);
    Framing.FramedAgree(bs1, bs2, lo, hi);
    var f1, f2 := Framing.Framed(bs1), Framing.Framed(bs2);
    var h1, h2 := Encrypt(e, t1), Encrypt(e, t2);
    XorKeystreamAgree(e.baseKeyMatrix, f1, f2, lo, hi);
    Hex.DecodeAgree(h1, h2, lo, hi);
    assert 2 * lo == 32 * b && 2 * hi == 32 * (b + 1);
  }
}
