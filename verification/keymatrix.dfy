/** Key setup and the per-block keys (crypto.py:23-53).

    The key's code points are tiled or cut to 16 values, read row-major into
    a 4×4 matrix `M`, and combined with the transposed position into the base
    matrix `base[i][j] = M[i][j] * M[j][i] mod 256`.  Block `b` is then
    encrypted with `(base[i][j] ^ b) mod 256` in every cell.
 */
module KeyMatrix {

  import Bits
  import Seqs
  import opened Matrix

  /** `pad_to_16`: the first 16 values of the input, or of the input
      repeated `16 / n + 1` times when it has fewer than 16.  An empty input
      divides by zero in the source. */
  function PadTo16<T>(xs: seq<T>): (r: seq<T>)
    requires |xs| > 0
    ensures |r| == 16
    ensures |xs| >= 16 ==> r == xs[..16]
    ensures |xs| < 16 ==> forall k :: 0 <= k < 16 ==> r[k] == xs[k % |xs|]
  {
    if |xs| >= 16 then xs[..16]
    else
      var n := 16 / |xs| + 1;
      Bits.ModUnique(16, |xs|, 16 / |xs|, 16 % |xs|);
      assert n * |xs| == (16 / |xs|) * |xs| + |xs|;
      var repeated := Seqs.Repeat(xs, n);
      assert forall k :: 0 <= k < 16 ==> repeated[k] == xs[k % |xs|] by {
        forall k | 0 <= k < 16
          ensures repeated[k] == xs[k % |xs|]
        {
          Seqs.RepeatIndex(xs, n, k);
        }
      }
      repeated[..16]
  }

  /** One cell of the base matrix: the product of a key value and the key
      value at the transposed position, modulo 256. */
  function ProductCell(a: nat, b: nat): (c: nat)
    ensures c < 256 && c == (b * a) % 256
  {
    assert a * b == b * a;
    (a * b) % 256
  }

  /** `make_base_key_matrix` on the key's code points. */
  function MakeBaseKeyMatrix(keyBytes: seq<nat>): (m: Matrix)
    requires |keyBytes| > 0
    ensures IsByteMatrix(m)
    ensures IsSymmetric(m)
    ensures forall i, j {:trigger m[i][j]} :: 0 <= i < 4 && 0 <= j < 4 ==>
              m[i][j] == ProductCell(PadTo16(keyBytes)[4 * i + j], PadTo16(keyBytes)[4 * j + i])
  {
    var km := BytesToMatrix(PadTo16(keyBytes));
    seq(4, i requires 0 <= i < 4 => seq(4, j requires 0 <= j < 4 => ProductCell(km[i][j], km[j][i])))
  }

  /** One cell of a block key: `(v ^ blockIndex) % 256`, which equals the XOR
      of the low bytes of both. */
  function BlockKeyCell(v: nat, blockIndex: nat): (c: nat)
    ensures c < 256
    ensures c == Bits.Xor(v % 256, blockIndex % 256)
  {
    Bits.Pow2Eight();
    Bits.XorLowBits(v, blockIndex, 8);
    Bits.Xor(v, blockIndex) % 256
  }

  /** `make_block_key_matrix`: every base cell XORed with the block index,
      reduced modulo 256. */
  function MakeBlockKeyMatrix(base: Matrix, blockIndex: nat): (m: Matrix)
    requires HasCells(base)
    ensures IsByteMatrix(m)
    ensures forall i, j {:trigger m[i][j]} :: 0 <= i < 4 && 0 <= j < 4 ==> m[i][j] == BlockKeyCell(base[i][j], blockIndex)
  {
    seq(4, i requires 0 <= i < 4 => seq(4, j requires 0 <= j < 4 => BlockKeyCell(base[i][j], blockIndex)))
  }

  /** The key byte that meets byte `k` of the framed stream: cell
      `(k mod 16) / 4, k mod 4` of the key matrix of block `k / 16`. */
  function Keystream(base: Matrix, k: nat): (v: nat)
    requires HasCells(base)
    ensures v < 256
  {
    var p := k % 16;
    BlockKeyCell(base[p / 4][p % 4], k / 16)
  }

  /** Position `16b + p` of the keystream is cell `p` (row-major) of the key
      matrix of block `b`. */
  lemma KeystreamAt(base: Matrix, b: nat, p: nat)
    requires HasCells(base) && p < 16
    ensures Keystream(base, 16 * b + p) == MakeBlockKeyMatrix(base, b)[p / 4][p % 4]
  {
    Bits.ModUnique(16 * b + p, 16, b, p);
  }

  /** Keystream position `16b + 4i + j` is cell `(i, j)` of the key matrix
      of block `b`. */
  lemma KeystreamCell(base: Matrix, b: nat, i: nat, j: nat)
    requires HasCells(base) && i < 4 && j < 4
    ensures Keystream(base, 16 * b + 4 * i + j) == MakeBlockKeyMatrix(base, b)[i][j]
  {
    KeystreamAt(base, b, 4 * i + j);
    Bits.ModUnique(4 * i + j, 4, i, j);
    assert 16 * b + (4 * i + j) == 16 * b + 4 * i + j;
  }

  /** The diagonal of the base matrix holds the squares of the key's
      diagonal, modulo 256. */
  lemma BaseKeyDiagonal(keyBytes: seq<nat>, i: nat)
    requires |keyBytes| > 0 && i < 4
    ensures MakeBaseKeyMatrix(keyBytes)[i][i] == ProductCell(PadTo16(keyBytes)[5 * i], PadTo16(keyBytes)[5 * i])
  {
    var x := PadTo16(keyBytes)[5 * i];
    assert MakeBaseKeyMatrix(keyBytes)[i][i] == ProductCell(x, x) by {
      assert 4 * i + i == 5 * i;
    }
  }

  /** Block 0 is encrypted with the base matrix itself. */
  lemma BlockKeyZero(base: Matrix)
    requires IsByteMatrix(base)
    ensures MakeBlockKeyMatrix(base, 0) == base
  {
    var m := MakeBlockKeyMatrix(base, 0);
    forall i | 0 <= i < 4
      ensures m[i] == base[i]
    {
      forall j | 0 <= j < 4
        ensures m[i][j] == base[i][j]
      {
        Bits.XorZero(base[i][j]);
      }
    }
  }

  /** For a byte matrix the final `% 256` changes nothing: the block key is
      the base XORed with the block index modulo 256. */
  lemma BlockKeyIndexMod(base: Matrix, blockIndex: nat)
    requires IsByteMatrix(base)
    ensures forall i, j :: 0 <= i < 4 && 0 <= j < 4 ==>
              MakeBlockKeyMatrix(base, blockIndex)[i][j] == Bits.Xor(base[i][j], blockIndex % 256)
  {
    forall i, j | 0 <= i < 4 && 0 <= j < 4
      ensures MakeBlockKeyMatrix(base, blockIndex)[i][j] == Bits.Xor(base[i][j], blockIndex % 256)
    {
      assert base[i][j] % 256 == base[i][j];
    }
  }

  /** Block keys repeat with period 256 in the block index. */
  lemma BlockKeyPeriod(base: Matrix, blockIndex: nat)
    requires HasCells(base)
    ensures MakeBlockKeyMatrix(base, blockIndex + 256) == MakeBlockKeyMatrix(base, blockIndex)
  {
    var m, m' := MakeBlockKeyMatrix(base, blockIndex + 256), MakeBlockKeyMatrix(base, blockIndex);
    forall i | 0 <= i < 4
      ensures m[i] == m'[i]
    {
      forall j | 0 <= j < 4
        ensures m[i][j] == m'[i][j]
      {
        assert (blockIndex + 256) % 256 == blockIndex % 256;
      }
    }
  }

  /** A symmetric base gives a symmetric key for every block. */
  lemma BlockKeySymmetric(base: Matrix, blockIndex: nat)
    requires HasCells(base) && IsSymmetric(base)
    ensures IsSymmetric(MakeBlockKeyMatrix(base, blockIndex))
  {
  }
}
