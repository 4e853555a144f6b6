/** Binary encodings shared by the select decoder (mux.py) and the label
    seeding of the fitter (Fitter.fit): powers of two, the MSB-first value of
    a digit sequence, the L-digit binary label of an index, and ceil(log2 n)
    computed on integers. */
module Binary {

  /** A node label: one digit per select line of the target mux, most
      significant first (0, 1, 2 for don't-care, -1 for a retired row). */
  type Row = seq<int>

  function Pow2(k: nat): (p: nat)
    ensures p >= 1
  {
    if k == 0 then 1 else 2 * Pow2(k - 1)
  }

  /** MSB-first value of a digit sequence. Digits are arbitrary integers,
      as mux.py multiplies whatever it is given. */
  function BinValue(s: seq<int>): int
  {
    if s == [] then 0 else 2 * BinValue(s[..|s| - 1]) + s[|s| - 1]
  }

  predicate IsBits(s: seq<int>)
  {
    forall i :: 0 <= i < |s| ==> s[i] == 0 || s[i] == 1
  }

  /** The L digits of d, most significant first: what formatting d with
      '{0:0Lb}' and reading the characters back produces when d < 2^L. */
  function BinaryLabel(d: nat, L: nat): (r: Row)
    requires d < Pow2(L)
    ensures |r| == L && IsBits(r)
  {
    if L == 0 then [] else BinaryLabel(d / 2, L - 1) + [d % 2]
  }

  /** The number of select lines of a mux with n data inputs: the least L
      with n <= 2^L. */
  function CeilLog2(n: nat): (r: nat)
    ensures n <= Pow2(r)
    ensures r == 0 || Pow2(r - 1) < n
  {
    if n <= 1 then 0 else 1 + CeilLog2((n + 1) / 2)
  }

  lemma ValueOfAppend(s: seq<int>, x: int)
    ensures BinValue(s + [x]) == 2 * BinValue(s) + x
  {
    assert (s + [x])[..|s|] == s;
  }

  /** Decoding the label of d gives back d. */
  lemma {:induction false} BinValueOfLabel(d: nat, L: nat)
    requires d < Pow2(L)
    ensures BinValue(BinaryLabel(d, L)) == d
  {
    if L > 0 {
      BinValueOfLabel(d / 2, L - 1);
      ValueOfAppend(BinaryLabel(d / 2, L - 1), d % 2);
    }
  }

  /** A sequence of bits has a value below 2^|s|, and it is the label of
      that value: the encoding and the decoding are inverse bijections
      between [0, 2^L) and the bit strings of length L. */
  lemma {:induction false} LabelOfBinValue(s: seq<int>)
    requires IsBits(s)
    ensures 0 <= BinValue(s) < Pow2(|s|)
    ensures BinaryLabel(BinValue(s), |s|) == s
  {
    if s != [] {
      var init := s[..|s| - 1];
      LabelOfBinValue(init);
      var v := BinValue(s);
      assert v == 2 * BinValue(init) + s[|s| - 1];
      assert v / 2 == BinValue(init) && v % 2 == s[|s| - 1];
      assert s == init + [s[|s| - 1]];
    }
  }
}
