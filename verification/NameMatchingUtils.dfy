/** NameMatchingUtils.isNameMatching: compares a body field name with a path segment. */
module NameMatchingUtils {
  import opened NameMatchingModes
  import opened Strings

  /** Case-insensitive comparison of the letters and digits of a and b. */
  function EqualsIgnoreCaseAndNonLiterals(a: string, b: string): (r: bool)
    ensures r <==> LowerAscii(StripNonAlphanumeric(a)) == LowerAscii(StripNonAlphanumeric(b))
  {
    EqualsIgnoreCaseIsLowerEquality(StripNonAlphanumeric(a), StripNonAlphanumeric(b));
    EqualsIgnoreCase(StripNonAlphanumeric(a), StripNonAlphanumeric(b))
  }

  function IsNameMatching(a: string, b: string, mode: NameMatchingMode): (r: bool)
    ensures mode == Exact ==> (r <==> a == b)
    ensures mode == IgnoreCase ==> (r <==> LowerAscii(a) == LowerAscii(b))
    ensures mode == IgnoreCaseAndNonAlphaNumeric ==>
              (r <==> LowerAscii(StripNonAlphanumeric(a)) == LowerAscii(StripNonAlphanumeric(b)))
  {
    EqualsIgnoreCaseIsLowerEquality(a, b);
    match mode
    case Exact => a == b
    case IgnoreCase => EqualsIgnoreCase(a, b)
    case IgnoreCaseAndNonAlphaNumeric => EqualsIgnoreCaseAndNonLiterals(a, b)
  }

  /** Every mode is symmetric in its two names. */
  lemma Symmetric(a: string, b: string, mode: NameMatchingMode)
    ensures IsNameMatching(a, b, mode) == IsNameMatching(b, a, mode)
  {
  }

  /** Every mode matches a name with itself. */
  lemma Reflexive(a: string, mode: NameMatchingMode)
    ensures IsNameMatching(a, a, mode)
  {
  }

  /** Matching loosens from Exact to IgnoreCase to IgnoreCaseAndNonAlphaNumeric (with the
      ASCII case maps of this model; Java folds a few non-ASCII letters that the loose mode strips). */
  lemma LoosensMonotonically(a: string, b: string)
    ensures IsNameMatching(a, b, Exact) ==> IsNameMatching(a, b, IgnoreCase)
    ensures IsNameMatching(a, b, IgnoreCase) ==> IsNameMatching(a, b, IgnoreCaseAndNonAlphaNumeric)
  {
    LowerStripCommute(a);
    LowerStripCommute(b);
  }

  /** Two names without any ASCII letter or digit match each other in the loosest mode
      (both reduce to the empty string). */
  lemma PunctuationOnlyNamesMatch(a: string, b: string)
    requires forall i :: 0 <= i < |a| ==> !IsAsciiAlphanumeric(a[i])
    requires forall i :: 0 <= i < |b| ==> !IsAsciiAlphanumeric(b[i])
    ensures IsNameMatching(a, b, IgnoreCaseAndNonAlphaNumeric)
  {
    StripRemovesPunctuation(a);
    StripRemovesPunctuation(b);
  }

  /** The unit-test cases of NameMatchingUtils for Exact mode. */
  lemma ExactExamples()
    ensures IsNameMatching("exact", "exact", Exact)
    ensures !IsNameMatching("case", "Case", Exact)
    ensures !IsNameMatching("nonalphanumeric", "non_alpha_numeric", Exact)
  {
  }

  /** The unit-test cases of NameMatchingUtils for IgnoreCase mode. */
  lemma IgnoreCaseExamples()
    ensures IsNameMatching("exact", "exact", IgnoreCase)
    ensures IsNameMatching("case", "Case", IgnoreCase)
    ensures !IsNameMatching("nonalphanumeric", "non_alpha_numeric", IgnoreCase)
  {
  }

  /** An underscore between two names disappears when non-alphanumerics are stripped. */
  lemma StripUnderscore(x: string, y: string)
    ensures StripNonAlphanumeric(x + "_" + y) == StripNonAlphanumeric(x) + StripNonAlphanumeric(y)
  {
    var u := "_";
    StripRemovesPunctuation(u);
    StripAppend(x, u);
    StripAppend(x + u, y);
  }

  /** The unit-test case of NameMatchingUtils for the loosest mode: "nonalphanumeric"
      matches "non_alpha_numeric". Both names are written as concatenations of their
      words, which keeps the verifier from unfolding the functions letter by letter. */
  lemma LooseExample()
    ensures IsNameMatching("non" + "alpha" + "numeric", "non" + "_" + "alpha" + "_" + "numeric",
                           IgnoreCaseAndNonAlphaNumeric)
  {
    var x, y, z := "non", "alpha", "numeric";
    assert forall i :: 0 <= i < |x| ==> IsAsciiAlphanumeric(x[i]);
    assert forall i :: 0 <= i < |y| ==> IsAsciiAlphanumeric(y[i]);
    assert forall i :: 0 <= i < |z| ==> IsAsciiAlphanumeric(z[i]);
    StripKeepsAlphanumeric(x);
    StripKeepsAlphanumeric(y);
    StripKeepsAlphanumeric(z);
    StripUnderscore(x, y);
    StripUnderscore(x + "_" + y, z);
    StripAppend(x, y);
    StripAppend(x + y, z);
  }

  /** "one" and "other" match in no mode, as the unit tests expect. */
  lemma DifferentNamesExamples(mode: NameMatchingMode)
    ensures !IsNameMatching("one", "other", mode)
  {
    var one, other := "one", "other";
    assert forall i :: 0 <= i < |one| ==> IsAsciiAlphanumeric(one[i]);
    assert forall i :: 0 <= i < |other| ==> IsAsciiAlphanumeric(other[i]);
    StripKeepsAlphanumeric(one);
    StripKeepsAlphanumeric(other);
    assert |LowerAscii(StripNonAlphanumeric(one))| != |LowerAscii(StripNonAlphanumeric(other))|;
  }
}
