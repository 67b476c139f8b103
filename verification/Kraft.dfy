/** Code lengths, their Kraft sums, and the weights that bound the depth of a Huffman tree. */
module Kraft {

  /** 2 to the power `n`. */
  function Pow2(n: nat): (r: nat)
    ensures r > 0
  {
    if n == 0 then 1 else 2 * Pow2(n - 1)
  }

  /** One over 2 to the power `n`: the share of the code space that a code of `n` bits takes. */
  function Share(n: nat): (r: real)
    ensures r > 0.0
  {
    if n == 0 then 1.0 else Share(n - 1) / 2.0
  }

  lemma {:induction false} ShareTimesPow2(n: nat)
    ensures Share(n) * (Pow2(n) as real) == 1.0
  {
    if n > 0 {
      ShareTimesPow2(n - 1);
      assert Pow2(n) as real == 2.0 * (Pow2(n - 1) as real);
      assert Share(n) * (Pow2(n) as real) == Share(n - 1) / 2.0 * (2.0 * (Pow2(n - 1) as real));
    }
  }

  lemma {:induction false} Pow2Monotone(a: nat, b: nat)
    requires a <= b
    ensures Pow2(a) <= Pow2(b)
  {
    if a < b { Pow2Monotone(a, b - 1); }
  }

  /** The code space that the symbols with a code take; length 0 means no code. */
  function KraftSum(clen: seq<nat>): (r: real)
    ensures r >= 0.0
  {
    if clen == [] then 0.0 else
      KraftSum(clen[..|clen| - 1]) + if clen[|clen| - 1] == 0 then 0.0 else Share(clen[|clen| - 1])
  }

  /** The least weight that a Huffman subtree of height `h` over positive weights can have. */
  function MinWeight(h: nat): (r: nat)
    ensures r > 0
  {
    if h == 0 then 1 else if h == 1 then 2 else MinWeight(h - 1) + MinWeight(h - 2)
  }

  lemma {:induction false} MinWeightMonotone(a: nat, b: nat)
    requires a <= b
    ensures MinWeight(a) <= MinWeight(b)
  {
    if a < b { MinWeightMonotone(a, b - 1); }
  }

  /** Even with every weight rescaled to 2, a tree of `asize` leaves is too light to be deeper than `maxlen`. */
  ghost predicate DepthFits(asize: nat, maxlen: nat) {
    2 * asize < MinWeight(maxlen + 1)
  }

  /** The three alphabets of the coder: bytes, code lengths, and group selectors. */
  lemma AlphabetsFit(groups: nat)
    requires groups <= 8
    ensures DepthFits(256, 20) && DepthFits(22, 15) && DepthFits(groups + 1, 7)
  {
    assert MinWeight(2) == 3 && MinWeight(3) == 5 && MinWeight(4) == 8 && MinWeight(5) == 13;
    assert MinWeight(6) == 21 && MinWeight(7) == 34 && MinWeight(8) == 55 && MinWeight(9) == 89;
    assert MinWeight(10) == 144 && MinWeight(11) == 233 && MinWeight(12) == 377 && MinWeight(13) == 610;
    MinWeightMonotone(9, 16);
    MinWeightMonotone(13, 21);
  }
}
