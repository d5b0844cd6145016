/** Text to byte list and back (crypto.py:8-21).

    A character becomes its code point (`ord`); on the way back each byte
    becomes the character with that code point (`chr`), and the conversion
    stops at the first byte 255, which the cipher uses as its end-of-text
    delimiter.
 */
module Text {

  /** The delimiter byte that ends the text inside the last block. */
  const Delimiter: nat := 255

  /** `[ord(c) for c in text]`. */
  function TextToBytes(t: string): (bs: seq<nat>)
    ensures |bs| == |t|
    ensures forall i :: 0 <= i < |t| ==> bs[i] == t[i] as nat
  {
    seq(|t|, i requires 0 <= i < |t| => t[i] as nat)
  }

  /** Every character of `t` has a code point below `bound`. */
  predicate CodePointsBelow(t: string, bound: nat)
  {
    forall i :: 0 <= i < |t| ==> t[i] as nat < bound
  }

  /** The characters of the bytes before the first delimiter: the longest
      delimiter-free prefix, wherever in the list the first 255 sits. */
  function BytesToText(bs: seq<nat>): (t: string)
    requires forall i :: 0 <= i < |bs| ==> bs[i] < 256
    ensures |t| <= |bs|
    ensures forall i :: 0 <= i < |t| ==> t[i] as nat == bs[i] && bs[i] != Delimiter
    ensures |t| == |bs| || bs[|t|] == Delimiter
  {
    if |bs| == 0 || bs[0] == Delimiter then ""
    else [bs[0] as char] + BytesToText(bs[1..])
  }

  /** The part of `t` before its first character with code point 255 (all of
      `t` when it has none). */
  function BeforeDelimiter(t: string): (p: string)
    ensures p <= t
    ensures forall i :: 0 <= i < |p| ==> p[i] as nat != Delimiter
    ensures |p| == |t| || t[|p|] as nat == Delimiter
  {
    if |t| == 0 || t[0] as nat == Delimiter then ""
    else [t[0]] + BeforeDelimiter(t[1..])
  }

  /** A byte list has exactly one longest delimiter-free prefix: any list of
      bytes that `BytesToText`'s contract describes is its result. */
  lemma {:induction false} BytesToTextUnique(bs: seq<nat>, t: string)
    requires forall i :: 0 <= i < |bs| ==> bs[i] < 256
    requires |t| <= |bs|
    requires forall i :: 0 <= i < |t| ==> t[i] as nat == bs[i] && bs[i] != Delimiter
    requires |t| == |bs| || bs[|t|] == Delimiter
    ensures BytesToText(bs) == t
  {
    var r := BytesToText(bs);
    assert |r| == |t|;
    assert forall i :: 0 <= i < |t| ==> r[i] as nat == t[i] as nat;
  }

  /** Converting text to bytes and back, with anything after it that starts
      with a delimiter, keeps the text up to its first character 255. */
  lemma TextRoundTrip(t: string, tail: seq<nat>)
    requires CodePointsBelow(t, 256)
    requires forall i :: 0 <= i < |tail| ==> tail[i] < 256
    requires |tail| == 0 || tail[0] == Delimiter
    ensures BytesToText(TextToBytes(t) + tail) == BeforeDelimiter(t)
  {
    var bs := TextToBytes(t) + tail;
    var p := BeforeDelimiter(t);
    assert forall i :: 0 <= i < |p| ==> p[i] == t[i];
    BytesToTextUnique(bs, p);
  }
}
