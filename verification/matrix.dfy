/** 4×4 matrices as lists of rows (crypto.py:67-89).

    A 16-byte block is read row-major into a matrix: row `i` holds bytes
    `4i .. 4i+3`.  Python's slicing never fails, so a shorter list gives
    shorter rows; indexing such a matrix is what fails, and the operations
    that index state that need as a precondition.
 */
module Matrix {

  import Bits
  import Seqs

  type Matrix = seq<seq<nat>>

  /** Exactly four rows of exactly four entries. */
  predicate IsMatrix(m: Matrix)
  {
    |m| == 4 && forall i :: 0 <= i < 4 ==> |m[i]| == 4
  }

  /** Every cell `m[i][j]` with `i, j < 4` exists, which is all that indexing
      in the nested `range(4)` loops needs. */
  predicate HasCells(m: Matrix)
  {
    |m| >= 4 && forall i :: 0 <= i < 4 ==> |m[i]| >= 4
  }

  /** A 4×4 matrix of byte values. */
  predicate IsByteMatrix(m: Matrix)
  {
    IsMatrix(m) && forall i, j :: 0 <= i < 4 && 0 <= j < 4 ==> m[i][j] < 256
  }

  predicate IsSymmetric(m: Matrix)
    requires HasCells(m)
  {
    forall i, j :: 0 <= i < 4 && 0 <= j < 4 ==> m[i][j] == m[j][i]
  }

  /** `bytes_to_matrix`: the four row slices of a list. */
  function BytesToMatrix(bs: seq<nat>): (m: Matrix)
    ensures |m| == 4
    ensures |bs| >= 16 ==> IsMatrix(m) && forall i, j {:trigger m[i][j]} :: 0 <= i < 4 && 0 <= j < 4 ==> m[i][j] == bs[4 * i + j]
    ensures |bs| < 16 ==> !HasCells(m)
  {
    var m := [Seqs.Slice(bs, 0, 4), Seqs.Slice(bs, 4, 8), Seqs.Slice(bs, 8, 12), Seqs.Slice(bs, 12, 16)];
    assert |bs| < 16 ==> |m[3]| < 4;
    m
  }

  /** `matrix_to_bytes`: the 16 cells read row by row. */
  function MatrixToBytes(m: Matrix): (bs: seq<nat>)
    requires HasCells(m)
    ensures |bs| == 16
    ensures forall k {:trigger bs[k]} :: 0 <= k < 16 ==> bs[k] == m[k / 4][k % 4]
  {
    seq(16, k requires 0 <= k < 16 => m[k / 4][k % 4])
  }

  /** `xor_matrices`: cell-by-cell exclusive or. */
  function XorMatrices(a: Matrix, b: Matrix): (r: Matrix)
    requires HasCells(a) && HasCells(b)
    ensures IsMatrix(r)
    ensures forall i, j {:trigger r[i][j]} :: 0 <= i < 4 && 0 <= j < 4 ==> r[i][j] == Bits.Xor(a[i][j], b[i][j])
  {
    seq(4, i requires 0 <= i < 4 => seq(4, j requires 0 <= j < 4 => Bits.Xor(a[i][j], b[i][j])))
  }

  /** Flattening the matrix of a 16-byte block gives back the block. */
  lemma MatrixOfBytesRoundTrip(bs: seq<nat>)
    requires |bs| == 16
    ensures MatrixToBytes(BytesToMatrix(bs)) == bs
  {
    var r := MatrixToBytes(BytesToMatrix(bs));
    forall k | 0 <= k < 16
      ensures r[k] == bs[k]
    {
      assert k == 4 * (k / 4) + k % 4;
    }
  }

  /** Reshaping the bytes of a 4×4 matrix gives back the matrix. */
  lemma BytesOfMatrixRoundTrip(m: Matrix)
    requires IsMatrix(m)
    ensures BytesToMatrix(MatrixToBytes(m)) == m
  {
    var r := BytesToMatrix(MatrixToBytes(m));
    forall i | 0 <= i < 4
      ensures r[i] == m[i]
    {
    }
  }

  /** XOR of two byte matrices is a byte matrix. */
  lemma XorMatricesBytes(a: Matrix, b: Matrix)
    requires IsByteMatrix(a) && IsByteMatrix(b)
    ensures IsByteMatrix(XorMatrices(a, b))
  {
    forall i, j | 0 <= i < 4 && 0 <= j < 4
      ensures XorMatrices(a, b)[i][j] < 256
    {
      Bits.XorByte(a[i][j], b[i][j]);
    }
  }

  /** XOR with the same key matrix twice gives back a 4×4 matrix. */
  lemma XorMatricesSelfInverse(a: Matrix, k: Matrix)
    requires IsMatrix(a) && HasCells(k)
    ensures XorMatrices(XorMatrices(a, k), k) == a
  {
    var r := XorMatrices(XorMatrices(a, k), k);
    forall i | 0 <= i < 4
      ensures r[i] == a[i]
    {
      forall j | 0 <= j < 4
        ensures r[i][j] == a[i][j]
      {
        Bits.XorSelfInverse(a[i][j], k[i][j]);
      }
    }
  }
}
