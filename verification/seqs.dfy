/** The few Python list operations the cipher uses, on Dafny sequences. */
module Seqs {

  import Bits

  function Min(a: nat, b: nat): nat
  {
    if a <= b then a else b
  }

  /** Python's slice `s[lo:hi]` for non-negative bounds: a bound past the end
      is clipped to the end, and an empty range gives the empty list. */
  function Slice<T>(s: seq<T>, lo: nat, hi: nat): (r: seq<T>)
    ensures |r| == if lo < Min(hi, |s|) then Min(hi, |s|) - lo else 0
    ensures forall k :: 0 <= k < |r| ==> r[k] == s[lo + k]
  {
    var h := Min(hi, |s|);
    s[Min(lo, h)..h]
  }

  /** Python's `xs * n`: `n` copies of `xs` one after the other. */
  function Repeat<T>(xs: seq<T>, n: nat): (r: seq<T>)
    ensures |r| == n * |xs|
  {
    if n == 0 then [] else xs + Repeat(xs, n - 1)
  }

  /** Python's `[0] * n`. */
  function Zeros(n: nat): (r: seq<nat>)
    ensures |r| == n && forall k :: 0 <= k < n ==> r[k] == 0
  {
    seq(n, _ => 0)
  }

  /** The concatenation of a list of lists, as repeated `extend` builds it. */
  function Flatten<T>(xss: seq<seq<T>>): seq<T>
  {
    if |xss| == 0 then [] else xss[0] + Flatten(xss[1..])
  }

  /** Element `k` of `n` copies of a non-empty list is element `k mod |xs|`. */
  lemma {:induction false} RepeatIndex<T>(xs: seq<T>, n: nat, k: nat)
    requires |xs| > 0 && k < n * |xs|
    ensures Repeat(xs, n)[k] == xs[k % |xs|]
    decreases n
  {
    if k < |xs| {
      Bits.ModUnique(k, |xs|, 0, k);
    } else {
      Bits.ModUnique(k, |xs|, (k - |xs|) / |xs| + 1, (k - |xs|) % |xs|);
      RepeatIndex(xs, n - 1, k - |xs|);
    }
  }

  /** Flattening 16-element blocks lays block `b` at offsets `16b .. 16b + 16`. */
  lemma {:induction false} FlattenBlocks<T>(xss: seq<seq<T>>)
    requires forall b :: 0 <= b < |xss| ==> |xss[b]| == 16
    ensures |Flatten(xss)| == 16 * |xss|
    ensures forall b, p :: 0 <= b < |xss| && 0 <= p < 16 ==> Flatten(xss)[16 * b + p] == xss[b][p]
    decreases |xss|
  {
    if |xss| > 0 {
      FlattenBlocks(xss[1..]);
      forall b, p | 0 <= b < |xss| && 0 <= p < 16
        ensures Flatten(xss)[16 * b + p] == xss[b][p]
      {
        if b > 0 {
          assert xss[1..][b - 1] == xss[b];
        }
      }
    }
  }
}
