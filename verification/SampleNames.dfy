/** Valid names, as many as wanted. */
module SampleNames {
  import opened Addresses
  import opened Basics
  import opened Names
  import opened RangeKeys

  const LETTER_A: Str := ['a' as int]

  /** The names 0.a, 1.a, 2.a and so on. */
  function SampleName(i: nat): Str {
    Decimal(i) + [DOT] + LETTER_A
  }

  lemma SampleLabels(i: nat)
    ensures Labels(SampleName(i)) == [Decimal(i), LETTER_A]
  {
    SplitAt(Decimal(i), LETTER_A, DOT);
    SplitOne(Decimal(i), DOT);
    SplitOne(LETTER_A, DOT);
  }

  lemma SampleNameInjective(i: nat, j: nat)
    requires SampleName(i) == SampleName(j)
    ensures i == j
  {
    SampleLabels(i);
    SampleLabels(j);
    ValueOfDecimal(i);
    ValueOfDecimal(j);
  }

  /** Ten decimal digits are enough for a count of addresses. */
  lemma {:induction false} DecimalLength(n: nat, bound: nat, digits: nat)
    requires n < bound && bound <= Pow10(digits) && digits > 0
    ensures |Decimal(n)| <= digits
    decreases digits
  {
    if n >= 10 {
      DecimalLength(n / 10, Pow10(digits - 1), digits - 1);
    }
  }

  function Pow10(n: nat): nat {
    if n == 0 then 1 else 10 * Pow10(n - 1)
  }

  lemma SampleNameValid(i: nat)
    requires i <= ADDRESS_COUNT
    ensures ValidName(SampleName(i))
  {
    assert Pow10(10) == 10_000_000_000 by {
      assert Pow10(5) == 100_000;
    }
    DecimalLength(i, ADDRESS_COUNT + 1, 10);
    SampleLabels(i);
    assert ValidLabel(Decimal(i)) && ValidLabel(LETTER_A);
    assert SampleName(i)[|Decimal(i)|] == DOT;
  }
}
