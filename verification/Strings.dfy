/**
 * The parts of java.lang.String that the body-parameter code relies on:
 * isBlank, equalsIgnoreCase, replaceAll("[^a-zA-Z0-9]", ""), split("\\.")
 * and String.join. A Dafny char is a Unicode scalar value, i.e. one Java
 * code point.
 */
module Strings {

  /** Character.isWhitespace(int), which String.isBlank applies to every code point. */
  predicate IsWhitespace(c: char)
    // whitespace is never the path separator, and the loose comparison drops it
    ensures IsWhitespace(c) ==> c != '.' && !IsAsciiAlphanumeric(c)
    // the no-break spaces are not whitespace to Java
    ensures c == '\U{00A0}' || c == '\U{2007}' || c == '\U{202F}' ==> !IsWhitespace(c)
  {
    var n := c as int;
    n == 0x20 || 0x09 <= n <= 0x0D || 0x1C <= n <= 0x1F ||
    n == 0x1680 || 0x2000 <= n <= 0x2006 || 0x2008 <= n <= 0x200A ||
    n == 0x2028 || n == 0x2029 || n == 0x205F || n == 0x3000
  }

  /** String.isBlank: empty, or whitespace only. */
  predicate IsBlank(s: string)
    ensures s == [] ==> IsBlank(s)
    ensures IsBlank(s) ==> '.' !in s
  {
    forall i :: 0 <= i < |s| ==> IsWhitespace(s[i])
  }

  /** Membership in the character class [a-zA-Z0-9]. */
  predicate IsAsciiAlphanumeric(c: char) {
    'a' <= c <= 'z' || 'A' <= c <= 'Z' || '0' <= c <= '9'
  }

  function ToUpperAscii(c: char): (u: char) {
    if 'a' <= c <= 'z' then (c as int - 32) as char else c
  }

  function ToLowerAscii(c: char): (l: char) {
    if 'A' <= c <= 'Z' then (c as int + 32) as char else c
  }

  /** The per-character test of String.regionMatches(ignoreCase = true, ...), with ASCII case maps. */
  predicate CharEqualsIgnoreCase(c: char, d: char) {
    c == d || ToUpperAscii(c) == ToUpperAscii(d) || ToLowerAscii(c) == ToLowerAscii(d)
  }

  /** String.equalsIgnoreCase: same length, and every position equal up to case. */
  predicate EqualsIgnoreCase(a: string, b: string)
    ensures a == b ==> EqualsIgnoreCase(a, b)
    // letters and digits sit at the same positions of two case-insensitively equal strings
    ensures EqualsIgnoreCase(a, b) ==>
              |a| == |b| && forall i :: 0 <= i < |a| ==> (IsAsciiAlphanumeric(a[i]) <==> IsAsciiAlphanumeric(b[i]))
  {
    |a| == |b| && forall i :: 0 <= i < |a| ==> CharEqualsIgnoreCase(a[i], b[i])
  }

  /** The string with every ASCII capital replaced by its small letter. */
  function LowerAscii(s: string): (r: string)
    ensures |r| == |s|
    ensures forall i :: 0 <= i < |s| ==> r[i] == ToLowerAscii(s[i])
  {
    if s == [] then [] else [ToLowerAscii(s[0])] + LowerAscii(s[1..])
  }

  /** s.replaceAll("[^a-zA-Z0-9]", ""): the ASCII letters and digits of s, in order. */
  function StripNonAlphanumeric(s: string): (r: string)
    ensures |r| <= |s|
    ensures forall i :: 0 <= i < |r| ==> IsAsciiAlphanumeric(r[i])
  {
    if s == [] then []
    else (if IsAsciiAlphanumeric(s[0]) then [s[0]] else []) + StripNonAlphanumeric(s[1..])
  }

  /** Every piece of s between separators, empty pieces included (no Java trimming). */
  function SplitOn(s: string, sep: char): (r: seq<string>)
    ensures |r| >= 1
    ensures forall k :: 0 <= k < |r| ==> sep !in r[k]
  {
    if s == [] then [""]
    else
      var rest := SplitOn(s[1..], sep);
      if s[0] == sep then [""] + rest
      else [[s[0]] + rest[0]] + rest[1..]
  }

  /** String.join(sep, parts). */
  function Join(parts: seq<string>, sep: char): (r: string)
    // the first part leads, followed by the separator when more parts follow
    ensures |parts| >= 1 ==> parts[0] <= r
    ensures |parts| >= 2 ==> |r| > |parts[0]| && r[|parts[0]|] == sep
  {
    if |parts| == 0 then ""
    else if |parts| == 1 then parts[0]
    else parts[0] + [sep] + Join(parts[1..], sep)
  }

  /** String.split with a one-character separator: trailing empty pieces are
      dropped, and a string without any separator comes back as itself. */
  function JavaSplit(s: string, sep: char): (r: seq<string>)
    // a prefix of the full split, dropping empty pieces only
    ensures r <= SplitOn(s, sep)
    ensures forall k :: |r| <= k < |SplitOn(s, sep)| ==> SplitOn(s, sep)[k] == ""
    ensures sep !in s ==> r == [s]
    ensures sep in s && |r| > 0 ==> r[|r| - 1] != ""
  {
    if sep !in s then SplitWithoutSeparator(s, sep); [s] else DropTrailingEmpty(SplitOn(s, sep))
  }

  function DropTrailingEmpty(parts: seq<string>): (r: seq<string>)
    ensures |r| <= |parts| && r == parts[..|r|]
    ensures |r| > 0 ==> r[|r| - 1] != ""
    ensures forall k :: |r| <= k < |parts| ==> parts[k] == ""
  {
    if |parts| == 0 then []
    else if parts[|parts| - 1] == "" then DropTrailingEmpty(parts[..|parts| - 1])
    else parts
  }

  lemma JoinConsFirst(c: char, parts: seq<string>, sep: char)
    requires |parts| >= 1
    ensures Join([[c] + parts[0]] + parts[1..], sep) == [c] + Join(parts, sep)
  {
    var q := [[c] + parts[0]] + parts[1..];
    if |parts| > 1 {
      assert q[1..] == parts[1..];
    }
  }

  // ---------------------------------------------------------------------
  // Properties of the case-insensitive comparison

  /** With ASCII case maps, the regionMatches test is "same small letter". */
  lemma CharEqualsIgnoreCaseIsLowerEquality(c: char, d: char)
    ensures CharEqualsIgnoreCase(c, d) <==> ToLowerAscii(c) == ToLowerAscii(d)
  {
  }

  /** equalsIgnoreCase compares the lower-cased strings. */
  lemma EqualsIgnoreCaseIsLowerEquality(a: string, b: string)
    ensures EqualsIgnoreCase(a, b) <==> LowerAscii(a) == LowerAscii(b)
  {
    if LowerAscii(a) == LowerAscii(b) {
      forall i | 0 <= i < |a| ensures CharEqualsIgnoreCase(a[i], b[i]) {
        assert LowerAscii(a)[i] == LowerAscii(b)[i];
        CharEqualsIgnoreCaseIsLowerEquality(a[i], b[i]);
      }
    }
    if EqualsIgnoreCase(a, b) {
      forall i | 0 <= i < |a| ensures LowerAscii(a)[i] == LowerAscii(b)[i] {
        CharEqualsIgnoreCaseIsLowerEquality(a[i], b[i]);
      }
    }
  }

  /** Lower-casing never turns a letter or digit into anything else, or back. */
  lemma LowerKeepsAlphanumeric(c: char)
    ensures IsAsciiAlphanumeric(ToLowerAscii(c)) <==> IsAsciiAlphanumeric(c)
  {
  }

  /** Stripping and lower-casing commute. */
  lemma {:induction false} LowerStripCommute(s: string)
    ensures LowerAscii(StripNonAlphanumeric(s)) == StripNonAlphanumeric(LowerAscii(s))
  {
    if s != [] {
      LowerStripCommute(s[1..]);
      LowerKeepsAlphanumeric(s[0]);
      assert LowerAscii(s)[1..] == LowerAscii(s[1..]);
    }
  }

  /** A string of letters and digits only is left as it is. */
  lemma {:induction false} StripKeepsAlphanumeric(s: string)
    requires forall i :: 0 <= i < |s| ==> IsAsciiAlphanumeric(s[i])
    ensures StripNonAlphanumeric(s) == s
  {
    if s != [] {
      StripKeepsAlphanumeric(s[1..]);
    }
  }

  /** A string without letters and digits is stripped to nothing. */
  lemma {:induction false} StripRemovesPunctuation(s: string)
    requires forall i :: 0 <= i < |s| ==> !IsAsciiAlphanumeric(s[i])
    ensures StripNonAlphanumeric(s) == []
  {
    if s != [] {
      StripRemovesPunctuation(s[1..]);
    }
  }

  /** replaceAll distributes over concatenation. */
  lemma {:induction false} StripAppend(a: string, b: string)
    ensures StripNonAlphanumeric(a + b) == StripNonAlphanumeric(a) + StripNonAlphanumeric(b)
  {
    if a != [] {
      assert (a + b)[1..] == a[1..] + b;
      StripAppend(a[1..], b);
    } else {
      assert a + b == b;
    }
  }

  // ---------------------------------------------------------------------
  // Properties of split and join

  /** A string without separators is a single piece. */
  lemma {:induction false} SplitWithoutSeparator(s: string, sep: char)
    requires sep !in s
    ensures SplitOn(s, sep) == [s]
  {
    if s != [] {
      assert s == [s[0]] + s[1..];
      SplitWithoutSeparator(s[1..], sep);
      SplitConsOther(s[0], s[1..], sep);
    }
  }

  /** Splitting at a separator splits the two sides independently. */
  lemma {:induction false} SplitAround(a: string, b: string, sep: char)
    ensures SplitOn(a + [sep] + b, sep) == SplitOn(a, sep) + SplitOn(b, sep)
  {
    if a == [] {
      assert a + [sep] + b == [sep] + b;
      SplitConsSeparator(b, sep);
    } else {
      var t := a[1..] + [sep] + b;
      assert a + [sep] + b == [a[0]] + t;
      SplitAround(a[1..], b, sep);
      SplitAroundStep(a[0], t, a[1..], sep, SplitOn(b, sep));
      assert a == [a[0]] + a[1..];
    }
  }

  lemma SplitAroundStep(c: char, t: string, a: string, sep: char, right: seq<string>)
    requires SplitOn(t, sep) == SplitOn(a, sep) + right
    ensures SplitOn([c] + t, sep) == SplitOn([c] + a, sep) + right
  {
    var left := SplitOn(a, sep);
    if c == sep {
      SplitConsSeparator(t, sep);
      SplitConsSeparator(a, sep);
      assert [""] + (left + right) == ([""] + left) + right;
    } else {
      SplitConsOther(c, t, sep);
      SplitConsOther(c, a, sep);
      ConsFirstAppend([c], left, right);
    }
  }

  /** A leading separator opens an empty first piece. */
  lemma SplitConsSeparator(t: string, sep: char)
    ensures SplitOn([sep] + t, sep) == [""] + SplitOn(t, sep)
  {
    assert ([sep] + t)[1..] == t;
  }

  /** Any other leading character extends the first piece. */
  lemma SplitConsOther(c: char, t: string, sep: char)
    requires c != sep
    ensures SplitOn([c] + t, sep) == [[c] + SplitOn(t, sep)[0]] + SplitOn(t, sep)[1..]
  {
    assert ([c] + t)[1..] == t;
  }

  lemma ConsFirstAppend(x: string, left: seq<string>, right: seq<string>)
    requires |left| >= 1
    ensures [x + (left + right)[0]] + (left + right)[1..] == ([x + left[0]] + left[1..]) + right
  {
    assert (left + right)[1..] == left[1..] + right;
  }

  /** Splitting and joining again gives the string back. */
  lemma {:induction false} JoinSplit(s: string, sep: char)
    ensures Join(SplitOn(s, sep), sep) == s
  {
    if s != [] {
      var t := s[1..];
      assert s == [s[0]] + t;
      JoinSplit(t, sep);
      var rest := SplitOn(t, sep);
      if s[0] == sep {
        SplitConsSeparator(t, sep);
        assert ([""] + rest)[1..] == rest;
        assert Join([""] + rest, sep) == [sep] + Join(rest, sep);
      } else {
        SplitConsOther(s[0], t, sep);
        JoinConsFirst(s[0], rest, sep);
      }
    }
  }

  /** Joining pieces without separators and splitting again gives the pieces back. */
  lemma {:induction false} SplitJoin(parts: seq<string>, sep: char)
    requires |parts| >= 1
    requires forall k :: 0 <= k < |parts| ==> sep !in parts[k]
    ensures SplitOn(Join(parts, sep), sep) == parts
  {
    if |parts| == 1 {
      SplitWithoutSeparator(parts[0], sep);
    } else {
      SplitJoin(parts[1..], sep);
      SplitAround(parts[0], Join(parts[1..], sep), sep);
      SplitWithoutSeparator(parts[0], sep);
      assert parts == [parts[0]] + parts[1..];
    }
  }

  /** The last piece is empty exactly when s ends with the separator (or s is empty). */
  lemma {:induction false} SplitLastPiece(s: string, sep: char)
    ensures var r := SplitOn(s, sep);
            r[|r| - 1] == "" <==> (s == [] || s[|s| - 1] == sep)
  {
    if s != [] {
      var t := s[1..];
      assert s == [s[0]] + t;
      SplitLastPiece(t, sep);
      if s[0] == sep {
        SplitConsSeparator(t, sep);
      } else {
        SplitConsOther(s[0], t, sep);
      }
    }
  }

  /** The first piece is empty exactly when s starts with the separator (or s is empty). */
  lemma SplitFirstPiece(s: string, sep: char)
    ensures SplitOn(s, sep)[0] == "" <==> (s == [] || s[0] == sep)
  {
  }

  /** Java's trimming of trailing empty pieces is a no-op when s does not end with the separator. */
  lemma JavaSplitIsSplit(s: string, sep: char)
    requires s != [] && s[|s| - 1] != sep
    ensures JavaSplit(s, sep) == SplitOn(s, sep)
  {
    if sep !in s {
      SplitWithoutSeparator(s, sep);
    } else {
      SplitLastPiece(s, sep);
    }
  }
}
