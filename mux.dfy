/** The elementary multiplexer of mux.py: it stores its two counts and
    selects one data input by the MSB-first value of its control inputs. */
module SelectMux {
  import opened Binary

  /** Python's s[i] for -|s| <= i < |s|: a negative index counts from the end. */
  function PyIndex(s: seq<int>, i: int): int
    requires -|s| <= i < |s|
  {
    if i >= 0 then s[i] else s[|s| + i]
  }

  /** The index evaluate computes from the first k control entries; with
      k <= 0 the loop over range(k) does not run and the index is 0. */
  function SelectIndex(control: seq<int>, k: int): int
    requires k <= |control|
  {
    if k <= 0 then 0 else BinValue(control[..k])
  }

  /** When the first k control entries are bits, the index lies in
      [0, 2^k), so any list of 2^k data inputs is indexed in bounds. */
  lemma IndexInRange(control: seq<int>, k: nat)
    requires k <= |control| && IsBits(control[..k])
    ensures 0 <= SelectIndex(control, k) < Pow2(k)
  {
    if k > 0 {
      LabelOfBinValue(control[..k]);
    }
  }

  /** Feeding the L-bit label of data input d (as Fitter.fit builds it) as
      the control inputs of an L-select mux selects input d. */
  lemma SelectsLabelledInput(d: nat, L: nat)
    requires d < Pow2(L)
    ensures SelectIndex(BinaryLabel(d, L), L) == d
  {
    var c := BinaryLabel(d, L);
    assert c[..L] == c;
    BinValueOfLabel(d, L);
  }

  /** Control entries past the first k play no part in the selection. */
  lemma ControlTailIgnored(control: seq<int>, extra: seq<int>, k: int)
    requires k <= |control|
    ensures SelectIndex(control + extra, k) == SelectIndex(control, k)
  {
    if k > 0 {
      assert (control + extra)[..k] == control[..k];
    }
  }

  /** One loop step of evaluate: 2^(k-i-1) * c[i] added to the value of
      c[..i] scaled by 2^(k-i) gives the value of c[..i+1] scaled by 2^(k-i-1). */
  lemma StepValue(c: seq<int>, i: nat, k: nat)
    requires i < k <= |c|
    ensures BinValue(c[..i + 1]) * Pow2(k - i - 1)
            == BinValue(c[..i]) * Pow2(k - i) + Pow2(k - i - 1) * c[i]
  {
    assert c[..i + 1] == c[..i] + [c[i]];
    ValueOfAppend(c[..i], c[i]);
    var p := Pow2(k - i - 1);
    assert Pow2(k - i) == 2 * p;
    assert (2 * BinValue(c[..i]) + c[i]) * p == BinValue(c[..i]) * (2 * p) + p * c[i];
  }

  class Mux {
    var numDataInputs: int
    var numControlInputs: int

    /** Both counts are stored as given, without any check. */
    constructor (numDataInputs: int, numControlInputs: int)
      ensures this.numDataInputs == numDataInputs
      ensures this.numControlInputs == numControlInputs
    {
      this.numDataInputs := numDataInputs;
      this.numControlInputs := numControlInputs;
    }

    /** Decodes the first numControlInputs control entries MSB-first into an
        index and returns that data input. Reading past the control list or
        outside the data list raises IndexError in the source; those inputs
        are excluded. The method changes no field. */
    method Evaluate(dataInputs: seq<int>, controlInputs: seq<int>) returns (r: int)
      requires numControlInputs <= |controlInputs|
      requires -|dataInputs| <= SelectIndex(controlInputs, numControlInputs) < |dataInputs|
      ensures r == PyIndex(dataInputs, SelectIndex(controlInputs, numControlInputs))
    {
      var k := numControlInputs;
      var inpNumber := 0;
      var i := 0;
      while i < k
        invariant 0 <= i && (k >= 0 ==> i <= k)
        invariant k > 0 ==> inpNumber == BinValue(controlInputs[..i]) * Pow2(k - i)
        invariant k <= 0 ==> inpNumber == 0
      {
        StepValue(controlInputs, i, k);
        inpNumber := inpNumber + Pow2(k - i - 1) * controlInputs[i];
        i := i + 1;
      }
      assert k > 0 ==> inpNumber == BinValue(controlInputs[..k]);
      r := PyIndex(dataInputs, inpNumber);
    }
  }
}
