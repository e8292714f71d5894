/** The three ways a request-body field name can be matched against a path segment. */
module NameMatchingModes {

  datatype NameMatchingMode =
    | Exact                          // field name equals the segment
    | IgnoreCase                     // equal up to letter case
    | IgnoreCaseAndNonAlphaNumeric   // equal up to case once everything but [a-zA-Z0-9] is removed
}
