# SimpleEncryptor in Dafny

A model of `SimpleEncryptor` (crypto.py), a toy XOR block cipher, and proofs
about it.

The cipher works like this:

- **Key setup.** The key's code points are tiled or cut to 16 values. They are
  read row-major into a 4×4 matrix `M`. The base key matrix is
  `base[i][j] = M[i][j] * M[j][i] mod 256`.
- **Block keys.** Block `b` uses the key matrix `(base[i][j] ^ b) mod 256`.
- **Framing.** The plaintext's code points are cut into 16-byte blocks. A
  short last block gets one delimiter byte 255 and then zeros.
- **Combining.** Each block is read row-major into a 4×4 matrix and XORed
  cell by cell with its block key. The result is flattened again.
- **Encoding.** The ciphertext bytes are written as lower-case hex, two
  digits per byte.
- **Decryption.** The hex is read back and cut into 16-byte blocks. The same
  XOR is applied. The bytes become characters up to the first 255.

Modules, one per concern:

- `Bits`: Python's `^` on unbounded naturals, and arithmetic facts.
- `Seqs`: Python slicing with clipping, list repetition, flattening.
- `Hex`: `format(b, '02x')` and `int(pair, 16)`.
- `Text`: `text_to_bytes` and `bytes_to_text`.
- `Matrix`: `bytes_to_matrix`, `matrix_to_bytes`, `xor_matrices`.
- `KeyMatrix`: `pad_to_16`, the base matrix, the block keys.
- `Framing`: `split_into_blocks` and the plain 16-byte slicing of `decrypt`.
- `Cipher`: the encryptor, `encrypt`, `decrypt`, and the round trip.

The main contracts compare the block-and-matrix pipeline with a flat
reference, `Cipher.XorKeystream`. Byte `k` of the ciphertext is byte `k` of
the framed plaintext XORed with `KeyMatrix.Keystream(base, k)`. That is cell
`((k mod 16) / 4, k mod 4)` of the key matrix of block `k / 16`.

Python integers are modelled as `nat` and `^` as bitwise XOR on naturals
(`Bits.Xor`). So the `% 256` in the block key is modelled as written, and the
fact that it only keeps the low byte is proved (`KeyMatrix.BlockKeyCell`).

An empty plaintext gives no blocks. `range(0, 0, 16)` (crypto.py:59) is
empty, so `encrypt("")` is `""` (`Framing.BlockCount(0) == 0`).

## Model

| member | source | states |
|---|---|---|
| `Bits.XorSelfInverse` | crypto.py:88 | XORing twice with the same value gives back the original value |
| `Bits.XorLowBits` | crypto.py:52 | The low `k` bits of `a ^ b` are the XOR of the low `k` bits of `a` and of `b` |
| `Text.TextToBytes` | crypto.py:9-11 | One code point per character, in order. Its partner `Text.TextRoundTrip` states that `BytesToText` undoes it up to the first character 255 |
| `Text.BytesToText` | crypto.py:14-21 | The result is the characters of the longest prefix without a 255. It ends at the first 255 anywhere in the list, or at the end |
| `Text.BytesToTextUnique` | crypto.py:14-21 | Exactly one string meets that description, so it pins down `bytes_to_text` completely |
| `Text.TextRoundTrip` | crypto.py:9-21 | Converting text to code points and back, with any tail that starts with 255, gives the text up to its first character 255 |
| `KeyMatrix.PadTo16` | crypto.py:24-29 | The result has length 16. It is the first 16 values when there are at least 16, and otherwise element `k` is `input[k mod n]` |
| `KeyMatrix.MakeBaseKeyMatrix` | crypto.py:31-44 | The base matrix is a 4×4 byte matrix and symmetric. Cell `(i, j)` is the product of padded key values `4i+j` and `4j+i`, modulo 256 |
| `KeyMatrix.BaseKeyDiagonal` | crypto.py:43 | A diagonal cell is the square of padded key value `5i`, modulo 256 |
| `KeyMatrix.BlockKeyCell` | crypto.py:52 | `(v ^ b) % 256` is below 256 and equals `(v mod 256) XOR (b mod 256)` |
| `KeyMatrix.MakeBlockKeyMatrix` | crypto.py:46-53 | A block key is a 4×4 byte matrix. Each cell is the base cell XORed with the block index, keeping the low byte |
| `KeyMatrix.BlockKeyZero` | crypto.py:46-53 | For a byte-valued base, block 0 uses exactly the base matrix |
| `KeyMatrix.BlockKeyIndexMod` | crypto.py:52 | For a byte-valued base, a block key cell is `base[i][j] XOR (b mod 256)` |
| `KeyMatrix.BlockKeyPeriod` | crypto.py:46-53 | Block keys repeat every 256 blocks |
| `KeyMatrix.BlockKeySymmetric` | crypto.py:46-53 | A symmetric base gives a symmetric key for every block |
| `KeyMatrix.KeystreamCell` | crypto.py:100-102 | Keystream position `16b + 4i + j` is cell `(i, j)` of the key matrix of block `b` |
| `Framing.SplitIntoBlocks` | crypto.py:56-65 | There are `ceil(n/16)` blocks of exactly 16 bytes. They concatenate to the input, plus a 255 and zeros only when `n mod 16 != 0`. An empty input gives no blocks |
| `Framing.Chunks` | crypto.py:116 | The slices concatenate to the input and number `ceil(n/16)`. All but the last have 16 bytes, and so does the last when `n` is a multiple of 16 |
| `Matrix.BytesToMatrix` | crypto.py:73-80 | A list of at least 16 values gives a 4×4 matrix with cell `(i, j)` equal to value `4i+j`. A shorter list gives a matrix with a missing cell |
| `Matrix.MatrixToBytes` | crypto.py:68-70 | Sixteen values, row by row. Its partners `Matrix.MatrixOfBytesRoundTrip` and `Matrix.BytesOfMatrixRoundTrip` state that it inverts `BytesToMatrix` in both directions |
| `Matrix.MatrixOfBytesRoundTrip` | crypto.py:68-80 | Flattening the matrix of a 16-byte block gives back the block |
| `Matrix.BytesOfMatrixRoundTrip` | crypto.py:68-80 | Reshaping the bytes of a 4×4 matrix gives back the matrix |
| `Matrix.XorMatrices` | crypto.py:83-89 | A 4×4 matrix of cell-wise XORs. Its partner `Matrix.XorMatricesSelfInverse` states that XORing twice with the same key gives the matrix back |
| `Matrix.XorMatricesBytes` | crypto.py:83-89 | XOR of two byte matrices is a byte matrix |
| `Matrix.XorMatricesSelfInverse` | crypto.py:83-89 | XORing a 4×4 matrix twice with the same key gives it back |
| `Hex.EncodeByte` | crypto.py:108 | Two lower-case digits whose values, high nibble first, give back the byte |
| `Hex.Encode` | crypto.py:108 | The hex is lower case, two digits per byte, high nibble first |
| `Hex.Decode` | crypto.py:113 | One byte below 256 per pair of digits. Its partners `Hex.DecodeEncode` and `Hex.EncodeDecode` state that it inverts `Encode` in both directions |
| `Hex.DecodeEncode` | crypto.py:108-113 | Reading back written hex gives back the bytes |
| `Hex.EncodeDecode` | crypto.py:108-113 | Rewriting read lower-case hex gives back the same text |
| `Cipher.New` | crypto.py:3-6 | The encryptor keeps the key and its code points. Its base matrix is a symmetric byte matrix made from them |
| `Cipher.TransformBlock` | crypto.py:102-105 | Reshaping, XORing with a key matrix and flattening maps byte `p` to `block[p] XOR key[p/4][p mod 4]` |
| `Cipher.CombineBlocks` | crypto.py:100-105 | The shared block loop gives 16 bytes per block. Its partner `Cipher.CombineIsXorKeystream` states that it equals the flat keystream XOR |
| `Cipher.CombineBlocksKeystream` | crypto.py:100-105 | The block loop, started at block `first`, XORs the concatenated blocks with the keystream from position `16 * first` on |
| `Cipher.CombineIsXorKeystream` | crypto.py:98-105 | The block loop from block 0 equals the flat reference on the concatenated blocks |
| `Cipher.XorKeystreamSelfInverse` | crypto.py:100-105 | Applying the flat keystream XOR twice gives back the input |
| `Cipher.Encrypt` | crypto.py:91-109 | The output is lower-case hex of length `32 * ceil(n/16)`. Its bytes are the framed code points XORed with the keystream |
| `Cipher.EncryptCell` | crypto.py:100-105 | Ciphertext byte `16b + 4i + j` is framed byte `16b + 4i + j` XORed with cell `(i, j)` of block `b`'s key |
| `Cipher.Decrypt` | crypto.py:111-126 | The result is `bytes_to_text` of the read-back bytes XORed with the keystream. Those bytes are all below 256 |
| `Cipher.RoundTrip` | crypto.py:91-126 | Decrypting an encryption gives the plaintext up to its first character 255 |
| `Cipher.RoundTripWithoutDelimiter` | crypto.py:91-126 | For any non-empty key and a plaintext with code points 0..254, decrypting the encryption gives back the plaintext |
| `Cipher.BlockIndependence` | crypto.py:100-108 | Two plaintexts of the same length that agree on block `b` give the same 32 hex digits for block `b` |

## Left out

- Characters above 255. `Cipher.Encrypt` requires every plaintext code point to be below 256. `format(b, '02x')` would write more than two digits for larger values. The key may hold any code point, because its products are reduced modulo 256.
- `bytes_to_text` on values of 256 or more. `Text.BytesToText` requires byte values. Inside `decrypt` every value is a byte, because the hex pairs and the key cells are bytes.
- Error cases as preconditions. An empty key divides by zero in `pad_to_16`, so `Cipher.New` requires a non-empty key. A ciphertext whose byte count is not a multiple of 16 leaves a short last block, and indexing it fails at crypto.py:88. So `Cipher.Decrypt` requires a multiple of 32 hex digits. The short-block matrix itself is modelled (`Matrix.BytesToMatrix`), but the failure is not modelled as an error value.
- Parsing quirks of `int(s, 16)`. The model reads only even-length text of the digits `0-9`, `a-f` and `A-F`. Python also accepts a sign or whitespace in a pair (`'-f'` reads as the negative value -15), and a lone last digit of odd-length input.
- Object identity and mutation. `split_into_blocks` appends to a fresh slice, and the encryptor is never changed after construction. So the model uses immutable values.
- Security. Nothing about the strength of the cipher is modelled.

