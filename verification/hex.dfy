/** Hexadecimal text for byte lists.

    Encryption writes each byte as `format(b, '02x')`: two lower-case hex
    digits, high nibble first (crypto.py:108).  Decryption reads each pair of
    characters back with `int(pair, 16)`, which accepts either case
    (crypto.py:113).  Only well-formed, even-length input is modelled.
 */
module Hex {

  import Bits

  predicate IsLowerHexDigit(c: char)
  {
    '0' <= c <= '9' || 'a' <= c <= 'f'
  }

  predicate IsHexDigit(c: char)
  {
    IsLowerHexDigit(c) || 'A' <= c <= 'F'
  }

  /** Text that `Decode` accepts: an even number of hex digits of either case. */
  predicate IsHexText(s: string)
  {
    |s| % 2 == 0 && forall i :: 0 <= i < |s| ==> IsHexDigit(s[i])
  }

  predicate IsLowerHexText(s: string)
  {
    |s| % 2 == 0 && forall i :: 0 <= i < |s| ==> IsLowerHexDigit(s[i])
  }

  /** The lower-case digit for a value below 16. */
  function DigitChar(n: nat): (c: char)
    requires n < 16
    ensures IsLowerHexDigit(c) && DigitValue(c) == n
  {
    if n < 10 then ('0' as nat + n) as char else ('a' as nat + n - 10) as char
  }

  /** The value of a hex digit of either case, as `int(c, 16)` reads it. */
  function DigitValue(c: char): (v: nat)
    requires IsHexDigit(c)
    ensures v < 16
  {
    if '0' <= c <= '9' then c as nat - '0' as nat
    else if 'a' <= c <= 'f' then c as nat - 'a' as nat + 10
    else c as nat - 'A' as nat + 10
  }

  /** `format(b, '02x')` for a byte. */
  function EncodeByte(b: nat): (s: string)
    requires b < 256
    ensures |s| == 2 && IsLowerHexDigit(s[0]) && IsLowerHexDigit(s[1])
    ensures 16 * DigitValue(s[0]) + DigitValue(s[1]) == b
  {
    [DigitChar(b / 16), DigitChar(b % 16)]
  }

  /** The hex text of a byte list: two lower-case digits per byte, high nibble first. */
  function Encode(bs: seq<nat>): (s: string)
    requires forall i :: 0 <= i < |bs| ==> bs[i] < 256
    ensures IsLowerHexText(s)
    ensures |s| == 2 * |bs|
    ensures forall i :: 0 <= i < |bs| ==>
              DigitValue(s[2 * i]) == bs[i] / 16 && DigitValue(s[2 * i + 1]) == bs[i] % 16
  {
    if |bs| == 0 then []
    else
      var rest := Encode(bs[1..]);
      assert forall i :: 1 <= i < |bs| ==> bs[1..][i - 1] == bs[i];
      EncodeByte(bs[0]) + rest
  }

  /** The byte list a hex text denotes, two digits per byte. */
  function Decode(s: string): (bs: seq<nat>)
    requires IsHexText(s)
    ensures |bs| == |s| / 2
    ensures forall i :: 0 <= i < |bs| ==> bs[i] < 256
    ensures forall i :: 0 <= i < |bs| ==> bs[i] == 16 * DigitValue(s[2 * i]) + DigitValue(s[2 * i + 1])
  {
    seq(|s| / 2, i requires 0 <= i < |s| / 2 => 16 * DigitValue(s[2 * i]) + DigitValue(s[2 * i + 1]))
  }

  /** Decoding what `Encode` wrote gives back the bytes. */
  lemma DecodeEncode(bs: seq<nat>)
    requires forall i :: 0 <= i < |bs| ==> bs[i] < 256
    ensures Decode(Encode(bs)) == bs
  {
    forall i | 0 <= i < |bs|
      ensures Decode(Encode(bs))[i] == bs[i]
    {
      DecodeEncodeAt(bs, i);
    }
  }

  /** One position of `DecodeEncode`. */
  lemma DecodeEncodeAt(bs: seq<nat>, i: nat)
    requires forall i :: 0 <= i < |bs| ==> bs[i] < 256
    requires i < |bs|
    ensures |Decode(Encode(bs))| == |bs| && Decode(Encode(bs))[i] == bs[i]
  {
    var s := Encode(bs);
    var hi, lo := DigitValue(s[2 * i]), DigitValue(s[2 * i + 1]);
    assert hi == bs[i] / 16 && lo == bs[i] % 16;
    assert Decode(s)[i] == 16 * hi + lo;
  }

  /** A lower-case digit is determined by its value. */
  lemma LowerDigitUnique(c: char, d: char)
    requires IsLowerHexDigit(c) && IsLowerHexDigit(d) && DigitValue(c) == DigitValue(d)
    ensures c == d
  {
  }

  /** Re-encoding decoded lower-case hex gives back the same text. */
  lemma EncodeDecode(s: string)
    requires IsLowerHexText(s)
    ensures Encode(Decode(s)) == s
  {
    forall k | 0 <= k < |s|
      ensures Encode(Decode(s))[k] == s[k]
    {
      EncodeDecodeAt(s, k);
    }
  }

  /** One position of `EncodeDecode`. */
  lemma EncodeDecodeAt(s: string, k: nat)
    requires IsLowerHexText(s) && k < |s|
    ensures |Encode(Decode(s))| == |s| && Encode(Decode(s))[k] == s[k]
  {
    var bs := Decode(s);
    var t := Encode(bs);
    var i := k / 2;
    var hi, lo := DigitValue(s[2 * i]), DigitValue(s[2 * i + 1]);
    assert bs[i] == 16 * hi + lo;
    Bits.ModUnique(bs[i], 16, hi, lo);
    if k == 2 * i {
      LowerDigitUnique(t[2 * i], s[2 * i]);
    } else {
      assert k == 2 * i + 1;
      LowerDigitUnique(t[2 * i + 1], s[2 * i + 1]);
    }
  }

  /** Lower-case hex texts whose bytes agree on `lo .. hi - 1` agree on the
      digits that spell those bytes. */
  lemma DecodeAgree(s1: string, s2: string, lo: nat, hi: nat)
    requires IsLowerHexText(s1) && IsLowerHexText(s2) && |s1| == |s2|
    requires lo <= hi <= |s1| / 2
    requires forall i :: lo <= i < hi ==> Decode(s1)[i] == Decode(s2)[i]
    ensures s1[2 * lo..2 * hi] == s2[2 * lo..2 * hi]
  {
    forall c | 2 * lo <= c < 2 * hi
      ensures s1[c] == s2[c]
    {
      var i := c / 2;
      assert lo <= i < hi;
      assert Decode(s1)[i] == Decode(s2)[i];
      var hi1, lo1 := DigitValue(s1[2 * i]), DigitValue(s1[2 * i + 1]);
      var hi2, lo2 := DigitValue(s2[2 * i]), DigitValue(s2[2 * i + 1]);
      assert 16 * hi1 + lo1 == 16 * hi2 + lo2;
      assert hi1 == hi2 && lo1 == lo2;
      if c == 2 * i {
        LowerDigitUnique(s1[c], s2[c]);
      } else {
        assert c == 2 * i + 1;
        LowerDigitUnique(s1[c], s2[c]);
      }
    }
  }
}
