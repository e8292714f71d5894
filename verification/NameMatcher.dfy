/** NameMatcher: a second, textually identical copy of NameMatchingUtils.isNameMatching. */
module NameMatcher {
  import opened NameMatchingModes
  import opened Strings
  import NameMatchingUtils

  function EqualsIgnoreCaseAndNonLiterals(a: string, b: string): (r: bool)
    ensures r == NameMatchingUtils.EqualsIgnoreCaseAndNonLiterals(a, b)
  {
    EqualsIgnoreCase(StripNonAlphanumeric(a), StripNonAlphanumeric(b))
  }

  /** This copy decides exactly what NameMatchingUtils.IsNameMatching decides. */
  function IsNameMatching(a: string, b: string, mode: NameMatchingMode): (r: bool)
    ensures r == NameMatchingUtils.IsNameMatching(a, b, mode)
  {
    match mode
    case Exact => a == b
    case IgnoreCase => EqualsIgnoreCase(a, b)
    case IgnoreCaseAndNonAlphaNumeric => EqualsIgnoreCaseAndNonLiterals(a, b)
  }

  /** The unit-test case of NameMatcher for the loosest mode. */
  lemma LooseExample()
    ensures IsNameMatching("non" + "alpha" + "numeric", "non" + "_" + "alpha" + "_" + "numeric",
                           IgnoreCaseAndNonAlphaNumeric)
  {
    NameMatchingUtils.LooseExample();
  }

  /** Every mode is symmetric and reflexive. */
  lemma SymmetricAndReflexive(a: string, b: string, mode: NameMatchingMode)
    ensures IsNameMatching(a, b, mode) == IsNameMatching(b, a, mode)
    ensures IsNameMatching(a, a, mode)
  {
    NameMatchingUtils.Symmetric(a, b, mode);
    NameMatchingUtils.Reflexive(a, mode);
  }

  /** The cases exercised by the unit tests of NameMatcher. */
  lemma Examples()
    ensures IsNameMatching("exact", "exact", Exact)
    ensures IsNameMatching("exact", "exact", IgnoreCase)
    ensures !IsNameMatching("case", "Case", Exact)
    ensures IsNameMatching("case", "Case", IgnoreCase)
    ensures !IsNameMatching("nonalphanumeric", "non_alpha_numeric", Exact)
    ensures !IsNameMatching("nonalphanumeric", "non_alpha_numeric", IgnoreCase)
    ensures !IsNameMatching("one", "other", Exact)
    ensures !IsNameMatching("one", "other", IgnoreCase)
    ensures !IsNameMatching("one", "other", IgnoreCaseAndNonAlphaNumeric)
  {
    NameMatchingUtils.ExactExamples();
    NameMatchingUtils.IgnoreCaseExamples();
    NameMatchingUtils.DifferentNamesExamples(Exact);
    NameMatchingUtils.DifferentNamesExamples(IgnoreCase);
    NameMatchingUtils.DifferentNamesExamples(IgnoreCaseAndNonAlphaNumeric);
  }
}
