/**
 * The publication count shown on the page: the count rounded down to a
 * multiple of ten, written with a trailing `+`.
 */
module Rounding {
  import opened Decimal

  /**
   * `(pub_count // 10) * 10`. Python's `//` rounds towards minus infinity;
   * for the positive divisor 10 that is exactly Dafny's Euclidean `/`.
   */
  function RoundedCount(pubCount: int): (r: int)
    ensures r % 10 == 0
    ensures r <= pubCount < r + 10
  {
    (pubCount / 10) * 10
  }

  /** The two bounds and divisibility by ten pin the rounded count down. */
  lemma RoundedCountUnique(pubCount: int, r: int)
    requires r % 10 == 0 && r <= pubCount < r + 10
    ensures r == RoundedCount(pubCount)
  {
    var q := RoundedCount(pubCount);
    assert (r - q) % 10 == 0 by {
      assert r == (r / 10) * 10;
      assert q == (q / 10) * 10;
      assert r - q == (r / 10 - q / 10) * 10;
    }
    assert -10 < r - q < 10;
  }

  /** `f"{rounded_count}+"`, the text placed in the statistics box. */
  function StatText(pubCount: int): (r: string)
    ensures |r| >= 2 && r[|r| - 1] == '+'
    ensures pubCount >= 0 ==> Canonical(r[..|r| - 1]) && Value(r[..|r| - 1]) == RoundedCount(pubCount)
    ensures pubCount < 0 ==> r[0] == '-' && Canonical(r[1..|r| - 1]) && Value(r[1..|r| - 1]) == -RoundedCount(pubCount)
  {
    var count := IntToString(RoundedCount(pubCount));
    assert (count + "+")[..|count|] == count;
    assert (count + "+")[1..|count|] == count[1..];
    count + "+"
  }

  /** For a non-negative count the stat text is exactly the decimal text of the rounded count and a `+`. */
  lemma StatTextIsDecimal(pubCount: int)
    requires pubCount >= 0
    ensures StatText(pubCount) == NatToString(RoundedCount(pubCount)) + "+"
  {
    var r := StatText(pubCount);
    CanonicalIsNatToString(r[..|r| - 1]);
    assert r == r[..|r| - 1] + "+";
  }

  /** A count of 123 is shown as "120+". */
  lemma StatTextOf123()
    ensures StatText(123) == "120+"
  {
    assert NatToString(12) == "12";
  }
}
