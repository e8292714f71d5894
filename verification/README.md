# bodyparam, modelled in Dafny

bodyparam is a Spring MVC extension: a controller-method parameter annotated with
`@BodyParam` receives one field of the JSON or XML request body. The field is addressed by
a dotted path such as `"parent.child"`. Keys are compared with the path's segments under
one of three name matching modes: `EXACT`, `IGNORE_CASE`, or `IGNORE_CASE_AND_NON_ALPHA_NUMERIC`
(case and every character outside `[a-zA-Z0-9]` ignored). Before the body is read, the
annotation's default string, when it has one, is converted to the parameter's type; a default
that does not convert fails the call whatever the body holds. When the body holds nothing at the
path, the converted default is used. Without a default, the call is rejected with BAD_REQUEST or
the parameter is null, depending on `required`.

The model covers:

- `Strings`: the parts of `java.lang.String` the code relies on.
  - `isBlank` uses the full `Character.isWhitespace` set.
  - `equalsIgnoreCase` uses ASCII case maps.
  - `replaceAll("[^a-zA-Z0-9]", "")` is `StripNonAlphanumeric`.
  - `split("\\.")` keeps Java's dropping of trailing empty strings.
  - `String.join` is `Join`.
- `NameMatchingModes`, `NameMatchingUtils` and `NameMatcher`: the three modes and the two
  identical copies of `isNameMatching`. The second copy is proved to decide exactly what
  the first decides.
- `BodyParamReader`: path validation and `readBodyParam`.
  - `Read` and its loops `Walk`/`ScanKeys` specify the traversal as the code runs it.
  - `ReadBodyParam` is the imperative version: two nested loops that reassign the current
    map and extend the current path. It is proved equal to `Read`.
  - `Descend` is the traversal the documentation describes (see Findings).
  - The parsed body is a `Node` tree. An object is a sequence of key/value pairs in the
    map's iteration order.
- `BodyParamReaderExamples`: the reader's unit-test cases, and the counterexamples.
- `Decimal`: the decimal syntax of `Byte/Short/Integer/Long.parseXxx`, with `toString`
  as its inverse.
- `BodyParamArgumentResolver`, the resolver's decisions:
  - mode precedence;
  - choice of the path;
  - conversion of the default string per class;
  - the body value / default / BAD_REQUEST / null outcome of `resolveArgument`.

Exceptions become `Result.Failure` values, one error variant per exception the code throws.
`Map.get` returns Java `null` both for a missing key and for a JSON null. The model has
both cases yield the `Null` node.

Where the intended behaviour and the code differ, the model follows the code:

- A segment that matches no key does not end the search (Findings 1).
- After descending, the key loop continues (Findings 2).
- `Boolean` defaults: any text other than `true`, in any case, is `false`.
- A non-required primitive parameter without a value gets `null`, not the primitive's
  zero, because that is what `resolveArgument` returns.

`ResolveArgument` calls the reader as written (`BodyParamReader.Read`) and converts
defaults as written (`StringToDefaultValue`). The corrected definitions sit beside them.

## Model

| member | source | states |
|---|---|---|
| Strings.LowerAscii | src/main/java/org/remonvv/bodyparam/NameMatchingUtils.java:47 | same length; every character is its ASCII lower-case form |
| Strings.StripNonAlphanumeric | src/main/java/org/remonvv/bodyparam/NameMatchingUtils.java:44-45 | the result is no longer than the input and holds only ASCII letters and digits |
| Strings.StripKeepsAlphanumeric | src/main/java/org/remonvv/bodyparam/NameMatchingUtils.java:44-45 | a name made only of letters and digits is left unchanged |
| Strings.StripRemovesPunctuation | src/main/java/org/remonvv/bodyparam/NameMatchingUtils.java:44-45 | a name without letters and digits is stripped to the empty string |
| Strings.StripAppend | src/main/java/org/remonvv/bodyparam/NameMatchingUtils.java:44-45 | stripping distributes over concatenation |
| Strings.LowerStripCommute | src/main/java/org/remonvv/bodyparam/NameMatchingUtils.java:43-48 | stripping and lower-casing commute |
| Strings.EqualsIgnoreCaseIsLowerEquality | src/main/java/org/remonvv/bodyparam/NameMatchingUtils.java:34 | equalsIgnoreCase holds exactly when the lower-cased strings are equal |
| Strings.SplitOn | src/main/java/org/remonvv/bodyparam/BodyParamReader.java:84 | at least one piece; no piece contains the separator |
| Strings.JavaSplit | src/main/java/org/remonvv/bodyparam/BodyParamReader.java:84 | split("\\.") is a prefix of the full split that drops only empty pieces; a string without a period is its own single piece; when there is a period, the last piece kept is not empty |
| Strings.Join | src/main/java/org/remonvv/bodyparam/BodyParamReader.java:63 | String.join: the first part leads, followed by the separator when more parts follow |
| Strings.JoinSplit | src/main/java/org/remonvv/bodyparam/BodyParamReader.java:84 | joining the pieces of a split with the separator gives back the string |
| Strings.SplitJoin | src/main/java/org/remonvv/bodyparam/BodyParamReader.java:84 | splitting the join of separator-free pieces gives back the pieces |
| Strings.IsWhitespace | src/main/java/org/remonvv/bodyparam/BodyParamReader.java:76 | Character.isWhitespace: a whitespace character is never a period or an ASCII letter or digit; the no-break spaces U+00A0, U+2007 and U+202F are not whitespace |
| Strings.IsBlank | src/main/java/org/remonvv/bodyparam/BodyParamReader.java:76 | String.isBlank: the empty string is blank; a blank string holds no period |
| Strings.EqualsIgnoreCase | src/main/java/org/remonvv/bodyparam/NameMatchingUtils.java:34 | String.equalsIgnoreCase: every string equals itself; equal strings have the same length, with letters and digits at the same positions |
| Strings.DropTrailingEmpty | src/main/java/org/remonvv/bodyparam/BodyParamReader.java:84 | the result is a prefix of the pieces; it does not end in an empty piece; only empty pieces were dropped |
| Strings.SplitWithoutSeparator | src/main/java/org/remonvv/bodyparam/BodyParamReader.java:84 | a string without a period is one piece |
| Strings.SplitAround | src/main/java/org/remonvv/bodyparam/BodyParamReader.java:84 | splitting at a separator splits both sides independently |
| Strings.SplitFirstPiece | src/main/java/org/remonvv/bodyparam/BodyParamReader.java:80 | the first piece is empty exactly when the string is empty or starts with the separator |
| Strings.SplitLastPiece | src/main/java/org/remonvv/bodyparam/BodyParamReader.java:80 | the last piece is empty exactly when the string is empty or ends with the separator |
| Strings.JavaSplitIsSplit | src/main/java/org/remonvv/bodyparam/BodyParamReader.java:84 | for a string not ending in the separator, Java's split drops nothing |
| NameMatchingUtils.EqualsIgnoreCaseAndNonLiterals | src/main/java/org/remonvv/bodyparam/NameMatchingUtils.java:43-48 | true exactly when the two names, stripped to letters and digits and lower-cased, are equal |
| NameMatchingUtils.IsNameMatching | src/main/java/org/remonvv/bodyparam/NameMatchingUtils.java:29-41 | EXACT is equality; IGNORE_CASE is equality after lower-casing; the loose mode is equality after stripping and lower-casing; each is an if-and-only-if |
| NameMatchingUtils.Symmetric | src/main/java/org/remonvv/bodyparam/NameMatchingUtils.java:29-41 | every mode gives the same answer with its arguments swapped |
| NameMatchingUtils.Reflexive | src/main/java/org/remonvv/bodyparam/NameMatchingUtils.java:29-41 | every mode matches a name with itself |
| NameMatchingUtils.LoosensMonotonically | src/main/java/org/remonvv/bodyparam/NameMatchingUtils.java:29-48 | an EXACT match is an IGNORE_CASE match, which is a loose match (true of the program for ASCII names; see Left out) |
| NameMatchingUtils.PunctuationOnlyNamesMatch | src/main/java/org/remonvv/bodyparam/NameMatchingUtils.java:43-48 | two names without letters or digits match in the loose mode |
| NameMatchingUtils.StripUnderscore | src/main/java/org/remonvv/bodyparam/NameMatchingUtils.java:44-45 | an underscore between two words is removed by the strip |
| NameMatchingUtils.ExactExamples | src/test/java/org/remonvv/bodyparam/NameMatchingUtilsTest.java:11-80 | EXACT: "exact"/"exact" match; "case"/"Case" and "nonalphanumeric"/"non_alpha_numeric" do not |
| NameMatchingUtils.IgnoreCaseExamples | src/test/java/org/remonvv/bodyparam/NameMatchingUtilsTest.java:28-89 | IGNORE_CASE: "case"/"Case" match; "nonalphanumeric"/"non_alpha_numeric" do not |
| NameMatchingUtils.LooseExample | src/test/java/org/remonvv/bodyparam/NameMatchingUtilsTest.java:91-98 | "nonalphanumeric" matches "non_alpha_numeric" in the loose mode |
| NameMatchingUtils.DifferentNamesExamples | src/test/java/org/remonvv/bodyparam/NameMatchingUtilsTest.java:37-62 | "one" and "other" match in no mode |
| NameMatcher.EqualsIgnoreCaseAndNonLiterals | src/main/java/org/remonvv/bodyparam/NameMatcher.java:18-23 | decides exactly what the NameMatchingUtils helper decides |
| NameMatcher.IsNameMatching | src/main/java/org/remonvv/bodyparam/NameMatcher.java:4-16 | the duplicate switch gives the same answer as NameMatchingUtils.isNameMatching for every input and mode |
| NameMatcher.SymmetricAndReflexive | src/main/java/org/remonvv/bodyparam/NameMatcher.java:4-23 | every mode is symmetric and reflexive |
| NameMatcher.LooseExample | src/test/java/org/remonvv/bodyparam/NameMatcherTest.java:91-98 | "nonalphanumeric" matches "non_alpha_numeric" in the loose mode |
| NameMatcher.Examples | src/test/java/org/remonvv/bodyparam/NameMatcherTest.java:10-89 | the NameMatcher unit-test cases for EXACT and IGNORE_CASE, and "one"/"other" in every mode |
| BodyParamReader.Get | src/main/java/org/remonvv/bodyparam/BodyParamReader.java:53-59 | a missing key reads as null; with distinct keys, a present key reads as its value |
| BodyParamReader.ValidateAndCompileParamPath | src/main/java/org/remonvv/bodyparam/BodyParamReader.java:72-93 | succeeds exactly when the path is present and no piece between periods is blank; the segments are then non-empty, period-free and join back to the path; the errors are, in order: null, blank path, period at an end, blank segment naming the path |
| BodyParamReader.PathCharacterisation | src/main/java/org/remonvv/bodyparam/BodyParamReader.java:76-89 | the three checks fail exactly when some piece between periods is blank |
| BodyParamReader.Read | src/main/java/org/remonvv/bodyparam/BodyParamReader.java:37-70 | an invalid path fails before the body is looked at, with the validation's error |
| BodyParamReader.ReadBodyParam | src/main/java/org/remonvv/bodyparam/BodyParamReader.java:37-70 | the nested loops return what the specification Read returns for every path, body, mode and converter |
| BodyParamReader.ScanSegment | src/main/java/org/remonvv/bodyparam/BodyParamReader.java:50-66 | the key loop of one segment, which reassigns the current map as it goes, ends in the step the specification ScanKeys gives |
| BodyParamReader.FirstMatchFrom | src/main/java/org/remonvv/bodyparam/BodyParamReader.java:50-51 | the first key, from the given index on, that matches the segment; None exactly when none matches |
| BodyParamReader.ScanKeys | src/main/java/org/remonvv/bodyparam/BodyParamReader.java:50-66 | the key loop of one segment: on the last segment it returns or leaves the current map as it is; it fails only by a conversion on the last segment, and only by a null or a non-object named by the segments so far on the others |
| BodyParamReader.Walk | src/main/java/org/remonvv/bodyparam/BodyParamReader.java:45-69 | the segment loop: a failure after validation is the null dereference, a conversion failure, or a non-object named by a proper prefix of the path |
| BodyParamReader.ScanSkips | src/main/java/org/remonvv/bodyparam/BodyParamReader.java:50-51 | keys that do not match are passed over without effect |
| BodyParamReader.ScanLast | src/main/java/org/remonvv/bodyparam/BodyParamReader.java:50-56 | on the last segment, the first matching key's value is converted and returned |
| BodyParamReader.ScanUnmatched | src/main/java/org/remonvv/bodyparam/BodyParamReader.java:50-51 | when no key matches, the loop ends with the current map unchanged |
| BodyParamReader.WalkLastSegment | src/main/java/org/remonvv/bodyparam/BodyParamReader.java:52-56 | the last segment yields the converted value of its first match, or nothing when no key matches |
| BodyParamReader.WalkSkipsUnmatchedSegment | src/main/java/org/remonvv/bodyparam/BodyParamReader.java:45-67 | a non-last segment that matches nothing leaves the map unchanged; the next segment is searched in the same map |
| BodyParamReader.WalkStopsAtNonObject | src/main/java/org/remonvv/bodyparam/BodyParamReader.java:59-63 | a non-last segment whose match is not an object fails, naming the segments consumed so far; a null there is the null dereference |
| BodyParamReader.WalkDescends | src/main/java/org/remonvv/bodyparam/BodyParamReader.java:59-65 | a non-last segment whose only match is an object continues inside that object |
| BodyParamReader.ExactMatchIsUnique | src/main/java/org/remonvv/bodyparam/BodyParamReader.java:50-51 | with distinct keys, an EXACT segment has no second match |
| BodyParamReader.Descend | src/main/java/org/remonvv/bodyparam/BodyParamReader.java:45-69 | the intended walk fails the same three ways as readBodyParam's, a non-object named by a proper prefix of the path |
| BodyParamReader.ReadAsIntended | src/main/java/org/remonvv/bodyparam/BodyParamReader.java:40 | the intended reader fails on an invalid path exactly as readBodyParam does |
| BodyParamReader.DescendStopsAtUnmatchedSegment | src/main/java/org/remonvv/bodyparam/BodyParam.java:84-89 | in the intended walk, a segment that matches nothing means the value is absent |
| BodyParamReader.FirstMatchIgnoresLaterKeys | src/main/java/org/remonvv/bodyparam/BodyParamReader.java:50-51 | keys appended after the first match do not move it |
| BodyParamReader.DescendFirstMatchWins | src/main/java/org/remonvv/bodyparam/BodyParamReader.java:50-65 | in the intended walk, keys after the first match do not change the result |
| BodyParamReader.WalkIsDescendWhenUnambiguous | src/main/java/org/remonvv/bodyparam/BodyParamReader.java:45-69 | with distinct keys and exactly one match for each non-last segment, readBodyParam's walk is the intended walk |
| BodyParamReaderExamples.Unconverted | src/test/java/org/remonvv/bodyparam/BodyParamReaderTest.java:121-124 | the tests' identity converter: nothing for a JSON null, otherwise the node itself |
| BodyParamReaderExamples.TwoSegments | src/main/java/org/remonvv/bodyparam/BodyParamReader.java:84-92 | "a.b" with non-blank, period-free a and b compiles to [a, b] |
| BodyParamReaderExamples.OneSegment | src/main/java/org/remonvv/bodyparam/BodyParamReader.java:84-92 | a non-blank path without periods compiles to itself |
| BodyParamReaderExamples.ReadsSinglePartPath | src/test/java/org/remonvv/bodyparam/BodyParamReaderTest.java:78-88 | "single" reads the top-level value |
| BodyParamReaderExamples.NothingForWrongSinglePartPath | src/test/java/org/remonvv/bodyparam/BodyParamReaderTest.java:103-112 | "wrong" reads nothing |
| BodyParamReaderExamples.ReadsMultiPartPath | src/test/java/org/remonvv/bodyparam/BodyParamReaderTest.java:64-76 | "parent.child" reads the nested value |
| BodyParamReaderExamples.NothingForWrongMultiPartPath | src/test/java/org/remonvv/bodyparam/BodyParamReaderTest.java:90-101 | "parent.wrong" reads nothing |
| BodyParamReaderExamples.NonObjectOnPathFails | src/test/java/org/remonvv/bodyparam/BodyParamReaderTest.java:18-27 | "simple.butnotnested" over a string fails, naming "simple" |
| BodyParamReaderExamples.InvalidPathsFail | src/test/java/org/remonvv/bodyparam/BodyParamReaderTest.java:29-62 | null, "", ".", "parent." and ".child" are refused with their errors |
| BodyParamReaderExamples.DoublePeriodIsBlankSegment | src/main/java/org/remonvv/bodyparam/BodyParamReader.java:84-89 | a path with two periods in a row, and none at its ends, is refused as a blank segment naming the path |
| BodyParamReaderExamples.WhitespaceSegmentIsBlankSegment | src/main/java/org/remonvv/bodyparam/BodyParamReader.java:84-89 | a whitespace-only segment between two non-empty ones fails the blank-segment check, naming the whole path |
| BodyParamReaderExamples.EmptySegmentFails | src/test/java/org/remonvv/bodyparam/BodyParamReaderTest.java:51-53 | "parent..child" is refused as a blank segment |
| BodyParamReaderExamples.UnmatchedSegmentIsSkipped | src/main/java/org/remonvv/bodyparam/BodyParamReader.java:45-66 | as written, "a.b" over {"b": "v"} returns "v"; the intended walk returns nothing |
| BodyParamReaderExamples.SecondMatchWalk | src/main/java/org/remonvv/bodyparam/BodyParamReader.java:50-65 | as written, the walk over {"a": {"x": "v"}, "A": "w"} for "a.x" under IGNORE_CASE ends on a null |
| BodyParamReaderExamples.FirstMatchDescend | src/main/java/org/remonvv/bodyparam/BodyParam.java:84-89 | the intended walk over the same body finds "v" |
| BodyParamReaderExamples.SecondMatchIsLookedUpInChild | src/main/java/org/remonvv/bodyparam/BodyParamReader.java:50-65 | as written, under IGNORE_CASE, "a.x" over {"a": {"x": "v"}, "A": "w"} fails on a null; the intended walk returns "v" |
| Decimal.Parse | src/main/java/org/remonvv/bodyparam/BodyParamArgumentResolver.java:164-171 | a value exactly for an optional sign followed by at least one digit; its sign follows the text's sign |
| Decimal.FormatNat | src/main/java/org/remonvv/bodyparam/BodyParamArgumentResolver.java:164-171 | a non-empty string of digits |
| Decimal.Format | src/main/java/org/remonvv/bodyparam/BodyParamArgumentResolver.java:164-171 | the decimal text of a number (toString) is digits, led by '-' exactly when the number is negative |
| Decimal.ParseFormat | src/main/java/org/remonvv/bodyparam/BodyParamArgumentResolver.java:164-171 | parsing reads back every number in its toString form |
| Decimal.ParseSign | src/main/java/org/remonvv/bodyparam/BodyParamArgumentResolver.java:164-171 | a leading '+' changes nothing; a leading '-' negates |
| BodyParamArgumentResolver.Nearest | src/main/java/org/remonvv/bodyparam/BodyParamArgumentResolver.java:103-121 | the fallback when no level sets a mode; otherwise a mode some level sets |
| BodyParamArgumentResolver.NearestSetLevelWins | src/main/java/org/remonvv/bodyparam/BodyParamArgumentResolver.java:103-121 | the first level that sets a mode decides, whatever the later levels say |
| BodyParamArgumentResolver.DetermineNameMatchingMode | src/main/java/org/remonvv/bodyparam/BodyParamArgumentResolver.java:103-123 | the nearest of parameter, method and class that sets a mode, else the default mode |
| BodyParamArgumentResolver.ParameterModeOverrides | src/main/java/org/remonvv/bodyparam/BodyParamArgumentResolver.java:106-108 | an explicit parameter mode decides, whatever the method and class annotations say |
| BodyParamArgumentResolver.GetParamPath | src/main/java/org/remonvv/bodyparam/BodyParamArgumentResolver.java:137-151 | the annotation path when set, else the parameter name; an error exactly when neither exists |
| BodyParamArgumentResolver.FirstEnumMatch | src/main/java/org/remonvv/bodyparam/BodyParamArgumentResolver.java:178-181 | the first constant equal to the text ignoring case; None exactly when there is none |
| BodyParamArgumentResolver.ParseBoolean | src/main/java/org/remonvv/bodyparam/BodyParamArgumentResolver.java:162-163 | true exactly when the text, lower-cased, is "true" |
| BodyParamArgumentResolver.EnumConstantNamed | src/main/java/org/remonvv/bodyparam/BodyParamArgumentResolver.java:178-181 | the first constant equal to the text ignoring case; NoEnumConstant exactly when no constant is |
| BodyParamArgumentResolver.ParseIntegral | src/main/java/org/remonvv/bodyparam/BodyParamArgumentResolver.java:164-171 | succeeds exactly for decimal text within the class's MIN_VALUE..MAX_VALUE, with that number; NumberFormat otherwise |
| BodyParamArgumentResolver.StringToDefaultValue | src/main/java/org/remonvv/bodyparam/BodyParamArgumentResolver.java:161-184 | Boolean: true exactly for "true" in any case, never fails. Byte/Short/Integer/Long: ranged decimal parse, failing exactly on bad text or overflow. String: unchanged. Enum: the first constant equal ignoring case, failing exactly when none is. Other and primitive classes: failure |
| BodyParamArgumentResolver.IntegralDefaultRoundTrip | src/main/java/org/remonvv/bodyparam/BodyParamArgumentResolver.java:164-171 | every number in the class's range is accepted in its toString form; every number outside it is refused |
| BodyParamArgumentResolver.Boxed | src/main/java/org/remonvv/bodyparam/BodyParam.java:68-74 | a primitive kind's boxed class is Boolean or an integral class |
| BodyParamArgumentResolver.StringToDefaultValueBoxingPrimitives | src/main/java/org/remonvv/bodyparam/BodyParam.java:68-74 | the corrected conversion agrees with stringToDefaultValue on every non-primitive class |
| BodyParamArgumentResolver.PrimitiveDefaultsAreAccepted | src/main/java/org/remonvv/bodyparam/BodyParam.java:68-74 | corrected: a primitive parameter accepts every default of its range, and a boolean one never fails |
| BodyParamArgumentResolver.PrimitiveDefaultIsRefused | src/main/java/org/remonvv/bodyparam/BodyParamArgumentResolver.java:161-183 | as written: default "5" is refused for an int parameter but gives 5 for an Integer one |
| BodyParamArgumentResolver.ResolveArgument | src/main/java/org/remonvv/bodyparam/BodyParamArgumentResolver.java:61-96 | an unnamed path fails first. The default is converted at lines 74-76, before the body is read, so a bad default fails even when the body has a value. A body value wins over the default. With no value: the default, else BAD_REQUEST naming path and mode when required, else null. A default makes the parameter optional |
| BodyParamArgumentResolver.IntegerDefaultExample | src/main/java/org/remonvv/bodyparam/BodyParamArgumentResolver.java:168-169 | "42" is 42 as an Integer |
| BodyParamArgumentResolver.ByteDefaultExamples | src/main/java/org/remonvv/bodyparam/BodyParamArgumentResolver.java:164-165 | "-128" is a Byte; "128" overflows a Byte |
| BodyParamArgumentResolver.MalformedIntegralDefault | src/main/java/org/remonvv/bodyparam/BodyParamArgumentResolver.java:168-171 | "4x" and a lone "+" are refused |
| BodyParamArgumentResolver.BooleanDefaultExamples | src/main/java/org/remonvv/bodyparam/BodyParamArgumentResolver.java:162-163 | "TRUE" is true; "yes" is false |
| BodyParamArgumentResolver.EnumDefaultExamples | src/main/java/org/remonvv/bodyparam/BodyParamArgumentResolver.java:178-181 | "green" finds GREEN; "blue" finds no constant |
| BodyParamArgumentResolver.AbsentValueExamples | src/main/java/org/remonvv/bodyparam/BodyParamArgumentResolver.java:74-95 | with no value at the path: default "42" gives 42 whatever `required` is; no default and required gives BAD_REQUEST with the default mode; no default and not required gives null |
| BodyParamArgumentResolver.BadDefaultFailsDespiteBodyValue | src/main/java/org/remonvv/bodyparam/BodyParamArgumentResolver.java:74-82 | an unparsable default fails even though the body holds the value |

## Left out

- Parsing the request body (`RequestBodyMapper.mapRequestBody`, Jackson's JSON and XML
  mappers) is a foreign library call. The model takes the parsed tree as the `body` parameter.
- Fractional JSON numbers (Jackson decodes `1.5` to a `Double`) have no `Node` variant; `Number`
  holds integers only. The walk tests only whether a value is an object or null, and the
  conversion is a parameter, so no outcome of the modelled operations depends on it.
- Converting a found value to the parameter type (`RequestBodyMapper.convertValue`) is a
  foreign library call. The model takes it as the `convert` function parameter; its failure
  is `ConversionFailed`.
- JsonBodyParamReader.java, XmlBodyParamReader.java, XmlRequestBodyMapper.java and the
  older `JacksonBodyParamReader` traversal are not part of this model.
- `getBodyAsString` and `getMediaType` are request I/O. `selectRequestBodyMapper` is a
  registry lookup. Its refusal of an unregistered media type is not modelled; it would
  happen after the default is converted and before the body is read.
- `supportsParameter` is an annotation-presence test, not modelled.
- The exception classes, HTTP statuses and messages are reduced to error variants.
  `MissingRequiredValue` keeps the path and mode that the BAD_REQUEST message names.
- The `Float` and `Double` branches of `stringToDefaultValue` (floating-point parsing) are
  not modelled; the model has no type descriptor for those classes.
- The `value` alias of `path` (resolved by Spring's `@AliasFor`) is not modelled; the
  annotation's path is taken as already resolved.
- NameMatching.java is not part of this model.
  - The method- and class-level `@NameMatching` modes are parameters.
  - `NameMatching.DEFAULT_MODE` is taken as the loose mode, which BodyParam.java:76-82
    documents as the default.
  - The annotation's `DEFAULT` mode marker, absent from NameMatchingMode.java, is `None`.
- `isNameMatching`'s `default:` branch and a null mode are not modelled; the model's mode
  type has only the three constants.
- Strings.EqualsIgnoreCase: uses ASCII case maps; Java also folds non-ASCII letters.
- NameMatchingUtils.LoosensMonotonically: holds of the model for all names, but of the program only for ASCII names. Java's `equalsIgnoreCase` folds some non-ASCII letters onto ASCII ones: "\u212A"/"k", "ı"/"i", "ſ"/"s" and "İ"/"i" match under IGNORE_CASE. The loose mode strips those letters first and refuses the pair, so in the program an IGNORE_CASE match need not be a loose match.
  - In the loose mode this is exact, because the stripped strings are ASCII.
  - In IGNORE_CASE and in enum lookup, non-ASCII names such as "É"/"é" match in Java but
    not in the model.
- Decimal.Parse: accepts only the ASCII digits '0'..'9'. Java's parse methods also accept
  other Unicode decimal digits.
- The order of an object's keys is the iteration order of the decoded map. The root map is
  decoded as a `HashMap`, so it iterates in hash order. Nested objects are built by
  Jackson's untyped deserializer as `LinkedHashMap`s, so they iterate in document order.
  The model takes the order as given in the `Fields` sequence rather than computing it.
- Java `null` strings for a key or a name are not modelled. A null path is modelled
  (`NullPath`).
- What Spring does with a `null` argument for a primitive parameter is outside the model.

## Findings

| source | as written | input that shows it | evidently intended | confidence | as-written member | corrected member |
|---|---|---|---|---|---|---|
| src/main/java/org/remonvv/bodyparam/BodyParamReader.java:45-66 | a non-last segment that matches no key leaves `bodyMap` unchanged, so the next segment is looked up in the same object | path "a.b", body {"b": "v"}, EXACT: returns "v" | a dotted path addresses a nested field (BodyParam.java:84-89); "a.b" finds nothing when there is no "a" | medium, not executed | BodyParamReaderExamples.UnmatchedSegmentIsSkipped | BodyParamReader.DescendStopsAtUnmatchedSegment |
| src/main/java/org/remonvv/bodyparam/BodyParamReader.java:50-65 | after descending, the key loop goes on over the old key set and looks any further match up in the child map | path "a.x", body {"a": {"x": "v"}, "A": "w"} in that iteration order, IGNORE_CASE: null dereference | the first matching key decides, and the loop moves to the next segment | medium, not executed | BodyParamReaderExamples.SecondMatchIsLookedUpInChild | BodyParamReader.DescendFirstMatchWins |
| src/main/java/org/remonvv/bodyparam/BodyParamArgumentResolver.java:161-183 | the class is compared only with the boxed classes, so a primitive parameter class reaches the final IllegalArgumentException | `@BodyParam(defaultValue = "5") int count` | primitive types accept defaults (BodyParam.java:68-74) | high, not executed | BodyParamArgumentResolver.PrimitiveDefaultIsRefused | BodyParamArgumentResolver.StringToDefaultValueBoxingPrimitives |
