/** Character classes and string primitives of the two host languages:
    PHP's `empty()` and `trim()` on strings, and JavaScript's `\s` class,
    `String.prototype.includes` and `String.prototype.trim`. */
module Text {

  /** PHP `empty()` applied to a string: both "" and "0" are empty. */
  predicate PhpEmpty(s: string): (e: bool)
    ensures e <==> |s| < 2 && forall k :: 0 <= k < |s| ==> s[k] == '0'
  {
    s == "" || s == "0"
  }

  /** The characters PHP `trim()` strips by default: space, tab, LF, CR, NUL, VT. */
  predicate IsPhpTrimChar(c: char)
  {
    c == ' ' || c == '\t' || c == '\n' || c == '\r' || c == '\U{0000}' || c == '\U{000B}'
  }

  /** Membership in JavaScript's `\s` class (WhiteSpace and LineTerminator of
      ECMA-262); `String.prototype.trim` strips exactly this set. */
  predicate IsJsSpace(c: char)
  {
    || c == '\t' || c == '\n' || c == '\U{000B}' || c == '\U{000C}' || c == '\r' || c == ' '
    || c == '\U{00A0}' || c == '\U{1680}' || ('\U{2000}' <= c <= '\U{200A}')
    || c == '\U{2028}' || c == '\U{2029}' || c == '\U{202F}' || c == '\U{205F}'
    || c == '\U{3000}' || c == '\U{FEFF}'
  }

  /** JavaScript LineTerminator: where `^` matches under the `m` flag. */
  predicate IsLineTerminator(c: char)
  {
    c == '\n' || c == '\r' || c == '\U{2028}' || c == '\U{2029}'
  }

  predicate IsDigit(c: char)
  {
    '0' <= c <= '9'
  }

  /** `sub` occurs somewhere in `s` (JavaScript `s.includes(sub)`). */
  predicate Contains(s: string, sub: string)
  {
    exists i :: 0 <= i <= |s| - |sub| && OccursAt(s, sub, i)
  }

  /** `sub` occurs in `s` starting at position `i`. */
  predicate OccursAt(s: string, sub: string, i: int)
  {
    0 <= i <= |s| - |sub| && s[i..i + |sub|] == sub
  }

  lemma ContainsEmpty(s: string)
    ensures Contains(s, "")
  {
    assert OccursAt(s, "", 0);
  }

  predicate IsSuffix(suffix: string, s: string)
  {
    |suffix| <= |s| && s[|s| - |suffix|..] == suffix
  }

  /** Removes the leading characters that satisfy `space`. */
  function TrimStart(s: string, space: char -> bool): (r: string)
    ensures IsSuffix(r, s)
    ensures |r| == 0 || !space(r[0])
    ensures forall k :: 0 <= k < |s| - |r| ==> space(s[k])
  {
    if |s| > 0 && space(s[0]) then TrimStart(s[1..], space) else s
  }

  /** Removes the trailing characters that satisfy `space`. */
  function TrimEnd(s: string, space: char -> bool): (r: string)
    ensures |r| <= |s| && r == s[..|r|]
    ensures |r| == 0 || !space(r[|r| - 1])
    ensures forall k :: |r| <= k < |s| ==> space(s[k])
  {
    if |s| > 0 && space(s[|s| - 1]) then TrimEnd(s[..|s| - 1], space) else s
  }

  /** Strips `space` characters from both ends; the result is the slice
      `s[start..start + |r|]` and everything cut away is `space`. */
  function TrimBy(s: string, space: char -> bool): (r: string)
    ensures |r| == 0 || (!space(r[0]) && !space(r[|r| - 1]))
    ensures exists start :: Trimmed(s, r, start, space)
  {
    var t := TrimStart(s, space);
    var r := TrimEnd(t, space);
    TrimmedParts(s, t, r, space);
    r
  }

  /** Cutting a `space` prefix and then a `space` suffix leaves a trimmed slice. */
  lemma TrimmedParts(s: string, t: string, r: string, space: char -> bool)
    requires IsSuffix(t, s) && forall k :: 0 <= k < |s| - |t| ==> space(s[k])
    requires |r| <= |t| && r == t[..|r|] && forall k :: |r| <= k < |t| ==> space(t[k])
    ensures Trimmed(s, r, |s| - |t|, space)
  {
    var a := |s| - |t|;
    forall k | a + |r| <= k < |s| ensures space(s[k]) {
      assert s[k] == t[k - a];
    }
  }

  /** `r` is `s[start..start + |r|]` and every character outside that slice is `space`. */
  ghost predicate Trimmed(s: string, r: string, start: int, space: char -> bool)
  {
    && 0 <= start <= start + |r| <= |s|
    && r == s[start..start + |r|]
    && (forall k :: 0 <= k < start ==> space(s[k]))
    && (forall k :: start + |r| <= k < |s| ==> space(s[k]))
  }

  /** Trimming leaves nothing exactly when every character is a space. */
  lemma TrimByEmpty(s: string, space: char -> bool)
    ensures TrimBy(s, space) == "" <==> forall k :: 0 <= k < |s| ==> space(s[k])
  {
    var r := TrimBy(s, space);
    var start :| Trimmed(s, r, start, space);
    if r == "" {
      forall k | 0 <= k < |s| ensures space(s[k]) {
        if k >= start {
          assert start + |r| <= k;
        }
      }
    } else {
      assert !space(s[start]);
    }
  }

  /** Two results that both meet `TrimBy`'s contract are equal: the contract
      determines the trimmed text. */
  lemma TrimmedUnique(s: string, r1: string, a1: int, r2: string, a2: int, space: char -> bool)
    requires Trimmed(s, r1, a1, space) && (|r1| == 0 || (!space(r1[0]) && !space(r1[|r1| - 1])))
    requires Trimmed(s, r2, a2, space) && (|r2| == 0 || (!space(r2[0]) && !space(r2[|r2| - 1])))
    ensures r1 == r2
  {
    if |r1| > 0 && |r2| > 0 {
      assert s[a1] == r1[0] && s[a2] == r2[0];
      assert a1 == a2;
      var e1, e2 := a1 + |r1| - 1, a2 + |r2| - 1;
      assert s[e1] == r1[|r1| - 1] && s[e2] == r2[|r2| - 1];
      assert e1 == e2;
    }
  }

  /** PHP `trim($s)`: removes the characters of `IsPhpTrimChar` from both ends and nothing else. */
  function PhpTrim(s: string): (r: string)
    ensures |r| == 0 || (!IsPhpTrimChar(r[0]) && !IsPhpTrimChar(r[|r| - 1]))
    ensures exists start :: Trimmed(s, r, start, IsPhpTrimChar)
    ensures r == "" <==> forall k :: 0 <= k < |s| ==> IsPhpTrimChar(s[k])
  {
    TrimByEmpty(s, IsPhpTrimChar);
    TrimBy(s, IsPhpTrimChar)
  }

  /** JavaScript `s.trim()`: removes `\s` characters from both ends and nothing else. */
  function JsTrim(s: string): (r: string)
    ensures |r| == 0 || (!IsJsSpace(r[0]) && !IsJsSpace(r[|r| - 1]))
    ensures exists start :: Trimmed(s, r, start, IsJsSpace)
    ensures r == "" <==> forall k :: 0 <= k < |s| ==> IsJsSpace(s[k])
  {
    TrimByEmpty(s, IsJsSpace);
    TrimBy(s, IsJsSpace)
  }

  /** Number of occurrences of `c` in `s`. */
  function Occurrences(s: string, c: char): nat
  {
    if |s| == 0 then 0 else (if s[0] == c then 1 else 0) + Occurrences(s[1..], c)
  }
}
