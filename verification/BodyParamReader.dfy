/**
 * BodyParamReader: compiles a dotted parameter path into its segments and walks
 * a decoded request body segment by segment, matching field names with
 * NameMatchingUtils.IsNameMatching, until the last segment's value can be handed
 * to the body mapper's converter.
 *
 * The decoded body is the Map<String, Object> the body mapper returns; an object
 * is modelled as its (key, value) pairs in the map's iteration order. A JSON null
 * and a key that Map.get does not find are the same Java null, so both are `Null`.
 */
module BodyParamReader {
  import opened Wrappers
  import opened Strings
  import opened NameMatchingModes
  import NameMatchingUtils

  datatype Node =
    | Text(text: string)
    | Number(number: int)  // integral JSON numbers only; fractional ones are not modelled
    | Boolean(truth: bool)
    | Null
    | Array(items: seq<Node>)
    | Object(fields: Fields)

  type Fields = seq<(string, Node)>

  /** The exceptions readBodyParam can end with. */
  datatype ReadError =
    | NullPath                    // Assert.notNull on the path
    | BlankPath                   // the path is empty or whitespace
    | PeriodAtEdge                // the path begins or ends with '.'
    | BlankSegment(path: string)  // some segment between periods is blank
    | NotAnObject(at: string)     // a non-last segment found a value that is not a map
    | NullValue                   // a non-last segment found null: the NullPointerException of getClass()
    | ConversionFailed(reason: string)  // the body mapper could not convert the last value

  /** The body mapper's conversion of a leaf value to the parameter type; None is a null result. */
  type Converter<V> = Node -> Result<Option<V>, string>

  predicate DistinctKeys(f: Fields) {
    forall i, j :: 0 <= i < j < |f| ==> f[i].0 != f[j].0
  }

  /** Map.get: the value stored under key, Null when there is none. */
  function Get(f: Fields, key: string): (v: Node)
    ensures (forall i :: 0 <= i < |f| ==> f[i].0 != key) ==> v == Null
    ensures DistinctKeys(f) ==> forall i :: 0 <= i < |f| && f[i].0 == key ==> v == f[i].1
  {
    if |f| == 0 then Null
    else if f[0].0 == key then f[0].1
    else Get(f[1..], key)
  }

  // -----------------------------------------------------------------------
  // validateAndCompileParamPath

  /** The segments of a dotted path, or the first of four checks it fails:
      null, blank, a period at either end, a blank segment. */
  function ValidateAndCompileParamPath(paramPath: Option<string>): (r: Result<seq<string>, ReadError>)
    ensures r.Success? <==>
              paramPath.Some? &&
              forall k :: 0 <= k < |SplitOn(paramPath.value, '.')| ==> !IsBlank(SplitOn(paramPath.value, '.')[k])
    ensures r.Success? ==> r.value == SplitOn(paramPath.value, '.') && Join(r.value, '.') == paramPath.value
    ensures r.Success? ==> |r.value| >= 1
    ensures r.Success? ==>
              forall k :: 0 <= k < |r.value| ==> r.value[k] != "" && !IsBlank(r.value[k]) && '.' !in r.value[k]
    ensures paramPath.None? ==> r == Failure(NullPath)
    ensures paramPath.Some? && IsBlank(paramPath.value) ==> r == Failure(BlankPath)
    ensures paramPath.Some? && !IsBlank(paramPath.value) ==>
              (r == Failure(PeriodAtEdge) <==> paramPath.value[0] == '.' || paramPath.value[|paramPath.value| - 1] == '.')
    ensures r.Failure? && r.error.BlankSegment? ==> r.error.path == paramPath.value
    ensures r == Failure(NullPath) <==> paramPath.None?
    ensures paramPath.Some? && !IsBlank(paramPath.value) &&
            paramPath.value[0] != '.' && paramPath.value[|paramPath.value| - 1] != '.' && r.Failure? ==>
              r == Failure(BlankSegment(paramPath.value))
    ensures r.Failure? ==> r.error.NullPath? || r.error.BlankPath? || r.error.PeriodAtEdge? || r.error.BlankSegment?
  {
    if paramPath.None? then Failure(NullPath)
    else
      var path := paramPath.value;
      PathCharacterisation(path);
      JoinSplit(path, '.');
      if IsBlank(path) then Failure(BlankPath)
      else if path[0] == '.' || path[|path| - 1] == '.' then Failure(PeriodAtEdge)
      else
        var parts := JavaSplit(path, '.');
        if exists k :: 0 <= k < |parts| && IsBlank(parts[k]) then Failure(BlankSegment(path))
        else Success(parts)
  }

  /** The checks of validateAndCompileParamPath fail exactly when some piece between
      the periods is blank: a blank path is itself such a piece, and a period at either
      end leaves an empty piece there. */
  lemma PathCharacterisation(path: string)
    ensures var pieces := SplitOn(path, '.');
            (exists k :: 0 <= k < |pieces| && IsBlank(pieces[k])) <==>
            (IsBlank(path) || path[0] == '.' || path[|path| - 1] == '.' ||
             exists k :: 0 <= k < |JavaSplit(path, '.')| && IsBlank(JavaSplit(path, '.')[k]))
  {
    var pieces := SplitOn(path, '.');
    if IsBlank(path) {
      BlankPathIsOnePiece(path);
      assert IsBlank(pieces[0]);
    } else if path[0] == '.' || path[|path| - 1] == '.' {
      SplitFirstPiece(path, '.');
      SplitLastPiece(path, '.');
      assert IsBlank(pieces[0]) || IsBlank(pieces[|pieces| - 1]);
    } else {
      JavaSplitIsSplit(path, '.');
    }
  }

  lemma BlankPathIsOnePiece(path: string)
    requires IsBlank(path)
    ensures SplitOn(path, '.') == [path]
  {
    assert forall i :: 0 <= i < |path| ==> path[i] != '.';
    SplitWithoutSeparator(path, '.');
  }

  // -----------------------------------------------------------------------
  // readBodyParam, as a specification

  /** What one segment's scan over the keys of the current object leaves behind:
      the object to search next, or the outcome readBodyParam returns. */
  datatype Step<V> = Continue(next: Fields) | Stop(outcome: Result<Option<V>, ReadError>)

  function Converted<V>(c: Result<Option<V>, string>): Result<Option<V>, ReadError> {
    match c
    case Success(value) => Success(value)
    case Failure(reason) => Failure(ConversionFailed(reason))
  }

  /** The inner loop of readBodyParam from key index j on. `keys` are the keys of the
      object the segment started in (the loop iterates over that key set), `cur` is the
      object `bodyMap` currently refers to; once the loop has descended they differ, and
      later matching keys are looked up in `cur`. */
  function ScanKeys<V>(keys: Fields, j: nat, cur: Fields, part: string, isLast: bool,
                       pathSoFar: seq<string>, mode: NameMatchingMode, convert: Converter<V>): (r: Step<V>)
    requires j <= |keys|
    decreases |keys| - j
    // the last segment never descends: it returns or leaves the current object as it is
    ensures isLast ==> r.Stop? || r == Continue(cur)
    // only a conversion fails on the last segment; only a null or a non-object on the others
    ensures r.Stop? && r.outcome.Failure? ==>
              if isLast then r.outcome.error.ConversionFailed?
              else r.outcome.error == NullValue || r.outcome.error == NotAnObject(Join(pathSoFar, '.'))
  {
    if j == |keys| then Continue(cur)
    else if !NameMatchingUtils.IsNameMatching(keys[j].0, part, mode) then
      ScanKeys(keys, j + 1, cur, part, isLast, pathSoFar, mode, convert)
    else if isLast then Stop(Converted(convert(Get(cur, keys[j].0))))
    else
      var child := Get(cur, keys[j].0);
      if child.Null? then Stop(Failure(NullValue))
      else if !child.Object? then Stop(Failure(NotAnObject(Join(pathSoFar, '.'))))
      else ScanKeys(keys, j + 1, child.fields, part, isLast, pathSoFar, mode, convert)
  }

  /** The outer loop of readBodyParam from segment i on, searching `cur`. */
  function Walk<V>(parts: seq<string>, i: nat, cur: Fields, mode: NameMatchingMode, convert: Converter<V>)
    : (r: Result<Option<V>, ReadError>)
    requires i <= |parts|
    decreases |parts| - i
    // a non-object is reported by the segments up to it, never by the whole path
    ensures r.Failure? ==>
              r.error == NullValue || r.error.ConversionFailed? ||
              (r.error.NotAnObject? && exists n :: i < n < |parts| && r.error.at == Join(parts[..n], '.'))
  {
    if i == |parts| then Success(None)
    else
      match ScanKeys(cur, 0, cur, parts[i], i == |parts| - 1, parts[..i + 1], mode, convert)
      case Stop(outcome) => outcome
      case Continue(next) => Walk(parts, i + 1, next, mode, convert)
  }

  /** readBodyParam: the path is validated before the body is looked at. */
  function Read<V>(paramPath: Option<string>, body: Fields, mode: NameMatchingMode, convert: Converter<V>)
    : (r: Result<Option<V>, ReadError>)
    ensures ValidateAndCompileParamPath(paramPath).Failure? ==>
              r == Failure(ValidateAndCompileParamPath(paramPath).error)
  {
    match ValidateAndCompileParamPath(paramPath)
    case Failure(e) => Failure(e)
    case Success(parts) => Walk(parts, 0, body, mode, convert)
  }

  // -----------------------------------------------------------------------
  // readBodyParam, as the source runs it

  /** readBodyParam: for each segment in turn, the loop over the keys of the current map. */
  method ReadBodyParam<V>(paramPath: Option<string>, body: Fields, mode: NameMatchingMode, convert: Converter<V>)
    returns (r: Result<Option<V>, ReadError>)
    ensures r == Read(paramPath, body, mode, convert)
  {
    var compiled := ValidateAndCompileParamPath(paramPath);
    if compiled.Failure? {
      return Failure(compiled.error);
    }
    var parts := compiled.value;
    var currentPath: seq<string> := [];
    var bodyMap := body;
    var i := 0;
    while i < |parts|
      invariant 0 <= i <= |parts|
      invariant currentPath == parts[..i]
      invariant Walk(parts, i, bodyMap, mode, convert) == Walk(parts, 0, body, mode, convert)
    {
      var part := parts[i];
      currentPath := currentPath + [part];
      assert currentPath == parts[..i + 1];
      var step := ScanSegment(bodyMap, part, i == |parts| - 1, currentPath, mode, convert);
      if step.Stop? {
        assert Walk(parts, i, bodyMap, mode, convert) == step.outcome;
        return step.outcome;
      }
      assert Walk(parts, i, bodyMap, mode, convert) == Walk(parts, i + 1, step.next, mode, convert);
      bodyMap := step.next;
      i := i + 1;
    }
    return Success(None);
  }

  /** The inner loop of readBodyParam over the keys of `keys`: it either returns from
      readBodyParam or leaves `bodyMap` at the map the next segment searches. */
  method ScanSegment<V>(keys: Fields, part: string, isLast: bool, currentPath: seq<string>,
                        mode: NameMatchingMode, convert: Converter<V>)
    returns (step: Step<V>)
    ensures step == ScanKeys(keys, 0, keys, part, isLast, currentPath, mode, convert)
  {
    var bodyMap := keys;
    var j := 0;
    while j < |keys|
      invariant 0 <= j <= |keys|
      invariant ScanKeys(keys, j, bodyMap, part, isLast, currentPath, mode, convert)
             == ScanKeys(keys, 0, keys, part, isLast, currentPath, mode, convert)
    {
      var key := keys[j].0;
      if NameMatchingUtils.IsNameMatching(key, part, mode) {
        if isLast {
          var value := Get(bodyMap, key);
          return Stop(Converted(convert(value)));
        }
        var childValue := Get(bodyMap, key);
        if childValue.Null? {
          return Stop(Failure(NullValue));
        }
        if !childValue.Object? {
          return Stop(Failure(NotAnObject(Join(currentPath, '.'))));
        }
        bodyMap := childValue.fields;
      }
      j := j + 1;
    }
    return Continue(bodyMap);
  }

  // -----------------------------------------------------------------------
  // What one segment does

  /** Index of the first key, from j on, that matches `part`. */
  function FirstMatchFrom(keys: Fields, part: string, mode: NameMatchingMode, j: nat): (r: Option<nat>)
    requires j <= |keys|
    decreases |keys| - j
    ensures r.Some? ==> j <= r.value < |keys| && NameMatchingUtils.IsNameMatching(keys[r.value].0, part, mode)
    ensures r.Some? ==> forall m :: j <= m < r.value ==> !NameMatchingUtils.IsNameMatching(keys[m].0, part, mode)
    ensures r.None? <==> forall m :: j <= m < |keys| ==> !NameMatchingUtils.IsNameMatching(keys[m].0, part, mode)
  {
    if j == |keys| then None
    else if NameMatchingUtils.IsNameMatching(keys[j].0, part, mode) then Some(j)
    else FirstMatchFrom(keys, part, mode, j + 1)
  }

  function FirstMatch(keys: Fields, part: string, mode: NameMatchingMode): (r: Option<nat>) {
    FirstMatchFrom(keys, part, mode, 0)
  }

  predicate NoMatchFrom(keys: Fields, part: string, mode: NameMatchingMode, j: nat) {
    forall m :: j <= m < |keys| ==> !NameMatchingUtils.IsNameMatching(keys[m].0, part, mode)
  }

  /** Keys that do not match are passed over without touching the current object. */
  lemma {:induction false} ScanSkips<V>(keys: Fields, j: nat, k: nat, cur: Fields, part: string, isLast: bool,
                                        pathSoFar: seq<string>, mode: NameMatchingMode, convert: Converter<V>)
    requires j <= k <= |keys|
    requires forall m :: j <= m < k ==> !NameMatchingUtils.IsNameMatching(keys[m].0, part, mode)
    ensures ScanKeys(keys, j, cur, part, isLast, pathSoFar, mode, convert)
         == ScanKeys(keys, k, cur, part, isLast, pathSoFar, mode, convert)
    decreases k - j
  {
    if j < k {
      ScanSkips(keys, j + 1, k, cur, part, isLast, pathSoFar, mode, convert);
    }
  }

  /** On the last segment the result is the converted value of the first matching key. */
  lemma ScanLast<V>(keys: Fields, part: string, pathSoFar: seq<string>, mode: NameMatchingMode, convert: Converter<V>)
    requires DistinctKeys(keys)
    ensures ScanKeys(keys, 0, keys, part, true, pathSoFar, mode, convert) ==
              match FirstMatch(keys, part, mode)
              case None => Continue(keys)
              case Some(k) => Stop(Converted(convert(keys[k].1)))
  {
    match FirstMatch(keys, part, mode)
    case None =>
      ScanSkips(keys, 0, |keys|, keys, part, true, pathSoFar, mode, convert);
    case Some(k) =>
      ScanSkips(keys, 0, k, keys, part, true, pathSoFar, mode, convert);
  }

  /** A segment (last or not) that matches no key leaves the current object as it is. */
  lemma ScanUnmatched<V>(keys: Fields, cur: Fields, part: string, isLast: bool,
                         pathSoFar: seq<string>, mode: NameMatchingMode, convert: Converter<V>)
    requires FirstMatch(keys, part, mode).None?
    ensures ScanKeys(keys, 0, cur, part, isLast, pathSoFar, mode, convert) == Continue(cur)
  {
    ScanSkips(keys, 0, |keys|, cur, part, isLast, pathSoFar, mode, convert);
  }

  /** The last segment: the converted value of the first matching key, or nothing
      (not an error) when no key matches. */
  lemma WalkLastSegment<V>(parts: seq<string>, cur: Fields, mode: NameMatchingMode, convert: Converter<V>)
    requires |parts| >= 1 && DistinctKeys(cur)
    ensures Walk(parts, |parts| - 1, cur, mode, convert) ==
              match FirstMatch(cur, parts[|parts| - 1], mode)
              case None => Success(None)
              case Some(k) => Converted(convert(cur[k].1))
  {
    var i := |parts| - 1;
    ScanLast(cur, parts[i], parts[..i + 1], mode, convert);
  }

  /** A non-last segment that matches nothing does not stop the walk: the next
      segment is searched for in the same object. */
  lemma WalkSkipsUnmatchedSegment<V>(parts: seq<string>, i: nat, cur: Fields, mode: NameMatchingMode,
                                     convert: Converter<V>)
    requires i < |parts| - 1
    requires FirstMatch(cur, parts[i], mode).None?
    ensures Walk(parts, i, cur, mode, convert) == Walk(parts, i + 1, cur, mode, convert)
  {
    ScanUnmatched(cur, cur, parts[i], false, parts[..i + 1], mode, convert);
  }

  /** A non-last segment whose first match is not an object ends the walk with an error
      naming the segments consumed so far (or with the null dereference). */
  lemma WalkStopsAtNonObject<V>(parts: seq<string>, i: nat, cur: Fields, mode: NameMatchingMode,
                                convert: Converter<V>, k: nat)
    requires i < |parts| - 1 && DistinctKeys(cur)
    requires FirstMatch(cur, parts[i], mode) == Some(k)
    requires !cur[k].1.Object?
    ensures Walk(parts, i, cur, mode, convert) ==
              if cur[k].1.Null? then Failure(NullValue) else Failure(NotAnObject(Join(parts[..i + 1], '.')))
  {
    ScanSkips(cur, 0, k, cur, parts[i], false, parts[..i + 1], mode, convert);
  }

  /** A non-last segment whose only match is an object descends into it. */
  lemma WalkDescends<V>(parts: seq<string>, i: nat, cur: Fields, mode: NameMatchingMode,
                        convert: Converter<V>, k: nat)
    requires i < |parts| - 1 && DistinctKeys(cur)
    requires FirstMatch(cur, parts[i], mode) == Some(k)
    requires cur[k].1.Object?
    requires NoMatchFrom(cur, parts[i], mode, k + 1)
    ensures Walk(parts, i, cur, mode, convert) == Walk(parts, i + 1, cur[k].1.fields, mode, convert)
  {
    var part, path := parts[i], parts[..i + 1];
    ScanSkips(cur, 0, k, cur, part, false, path, mode, convert);
    ScanSkips(cur, k + 1, |cur|, cur[k].1.fields, part, false, path, mode, convert);
  }

  /** With distinct keys, an Exact segment matches at most one key of an object. */
  lemma ExactMatchIsUnique(keys: Fields, part: string, k: nat)
    requires DistinctKeys(keys)
    requires FirstMatch(keys, part, Exact) == Some(k)
    ensures NoMatchFrom(keys, part, Exact, k + 1)
  {
  }

  // -----------------------------------------------------------------------
  // The walk the source evidently intends

  /** readBodyParam with the two departures from its documented meaning removed: a
      segment that matches no key ends the walk with nothing found, and only the first
      matching key of each object is followed (the inner loop breaks after it). */
  function Descend<V>(parts: seq<string>, i: nat, cur: Fields, mode: NameMatchingMode, convert: Converter<V>)
    : (r: Result<Option<V>, ReadError>)
    requires i < |parts|
    decreases |parts| - i
    ensures r.Failure? ==>
              r.error == NullValue || r.error.ConversionFailed? ||
              (r.error.NotAnObject? && exists n :: i < n < |parts| && r.error.at == Join(parts[..n], '.'))
  {
    match FirstMatch(cur, parts[i], mode)
    case None => Success(None)
    case Some(k) =>
      if i == |parts| - 1 then Converted(convert(cur[k].1))
      else if cur[k].1.Object? then Descend(parts, i + 1, cur[k].1.fields, mode, convert)
      else if cur[k].1.Null? then Failure(NullValue)
      else Failure(NotAnObject(Join(parts[..i + 1], '.')))
  }

  function ReadAsIntended<V>(paramPath: Option<string>, body: Fields, mode: NameMatchingMode, convert: Converter<V>)
    : (r: Result<Option<V>, ReadError>)
    ensures ValidateAndCompileParamPath(paramPath).Failure? ==>
              r == Failure(ValidateAndCompileParamPath(paramPath).error)
  {
    match ValidateAndCompileParamPath(paramPath)
    case Failure(e) => Failure(e)
    case Success(parts) => Descend(parts, 0, body, mode, convert)
  }

  /** Intended: a segment that matches nothing means the value is absent. */
  lemma DescendStopsAtUnmatchedSegment<V>(parts: seq<string>, i: nat, cur: Fields, mode: NameMatchingMode,
                                          convert: Converter<V>)
    requires i < |parts|
    requires NoMatchFrom(cur, parts[i], mode, 0)
    ensures Descend(parts, i, cur, mode, convert) == Success(None)
  {
    assert FirstMatch(cur, parts[i], mode).None?;
  }

  /** Appending keys after a match does not move the first match. */
  lemma {:induction false} FirstMatchIgnoresLaterKeys(keys: Fields, extra: Fields, part: string,
                                                      mode: NameMatchingMode, j: nat)
    requires j <= |keys|
    requires FirstMatchFrom(keys, part, mode, j).Some?
    ensures FirstMatchFrom(keys + extra, part, mode, j) == FirstMatchFrom(keys, part, mode, j)
    decreases |keys| - j
  {
    assert (keys + extra)[j] == keys[j];
    if !NameMatchingUtils.IsNameMatching(keys[j].0, part, mode) {
      FirstMatchIgnoresLaterKeys(keys, extra, part, mode, j + 1);
    }
  }

  /** Intended: the first matching key wins; keys after it, matching or not, change nothing. */
  lemma DescendFirstMatchWins<V>(parts: seq<string>, i: nat, cur: Fields, extra: Fields, mode: NameMatchingMode,
                                 convert: Converter<V>)
    requires i < |parts|
    requires FirstMatch(cur, parts[i], mode).Some?
    ensures Descend(parts, i, cur + extra, mode, convert) == Descend(parts, i, cur, mode, convert)
  {
    FirstMatchIgnoresLaterKeys(cur, extra, parts[i], mode, 0);
    var k := FirstMatch(cur, parts[i], mode).value;
    assert (cur + extra)[k] == cur[k];
  }

  /** Objects along the path where the source and the intended walk cannot differ: keys
      are distinct, and every non-last segment matches exactly one key. */
  ghost predicate Unambiguous(parts: seq<string>, i: nat, cur: Fields, mode: NameMatchingMode)
    requires i < |parts|
    decreases |parts| - i
  {
    DistinctKeys(cur) &&
    (i < |parts| - 1 ==>
       match FirstMatch(cur, parts[i], mode)
       case None => false
       case Some(k) =>
         NoMatchFrom(cur, parts[i], mode, k + 1) &&
         (cur[k].1.Object? ==> Unambiguous(parts, i + 1, cur[k].1.fields, mode)))
  }

  /** Where nothing is ambiguous, the source's walk is the intended one. */
  lemma {:induction false} WalkIsDescendWhenUnambiguous<V>(parts: seq<string>, i: nat, cur: Fields,
                                                           mode: NameMatchingMode, convert: Converter<V>)
    requires i < |parts|
    requires Unambiguous(parts, i, cur, mode)
    ensures Walk(parts, i, cur, mode, convert) == Descend(parts, i, cur, mode, convert)
    decreases |parts| - i
  {
    if i == |parts| - 1 {
      WalkLastSegment(parts, cur, mode, convert);
    } else {
      var k := FirstMatch(cur, parts[i], mode).value;
      if cur[k].1.Object? {
        WalkDescends(parts, i, cur, mode, convert, k);
        WalkIsDescendWhenUnambiguous(parts, i + 1, cur[k].1.fields, mode, convert);
      } else {
        WalkStopsAtNonObject(parts, i, cur, mode, convert, k);
      }
    }
  }
}
