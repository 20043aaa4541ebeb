/** The plain-text steps of the formatting chain applied to the consolidated
    buffer before display: strip `**`, turn `\n` into `<br>`, collapse runs
    of `\s` to one space, strip a leading `<digits>.` ordinal, turn `•` into
    `◆`, and trim. The three HTML-wrapping regular expressions of the chain
    are parameters of `Format`. */
module Formatting {
  import opened Seqs
  import opened Text

  const Bullet := '\U{2022}'
  const Diamond := '\U{25C6}'

  // ---------------------------------------------------------------------
  // .replace(/\*\*/g, '')

  /** No two adjacent asterisks. */
  predicate NoDoubleStar(s: string)
  {
    forall i :: 0 <= i < |s| - 1 ==> !(s[i] == '*' && s[i + 1] == '*')
  }

  /** `r` is `s` with some of its `*` characters deleted and nothing else changed. */
  ghost predicate StarsDeleted(s: string, r: string)
    decreases |s|
  {
    if |s| == 0 then r == []
    else (|r| > 0 && r[0] == s[0] && StarsDeleted(s[1..], r[1..])) || (s[0] == '*' && StarsDeleted(s[1..], r))
  }

  /** Deletes every `**`, matched left to right without overlap. */
  function StripBold(s: string): (r: string)
    ensures StarsDeleted(s, r)
    ensures NoDoubleStar(r)
    ensures |s| > 0 && s[0] != '*' ==> |r| > 0 && r[0] == s[0]
    decreases |s|
  {
    if |s| == 0 then ""
    else if |s| >= 2 && s[0] == '*' && s[1] == '*' then
      var r := StripBold(s[2..]);
      assert s[1..][1..] == s[2..];
      r
    else
      var rest := StripBold(s[1..]);
      var r := [s[0]] + rest;
      assert r[1..] == rest;
      r
  }

  /** A text without `**` is left unchanged, so stripping twice is stripping once. */
  lemma {:induction false} StripBoldIdempotent(s: string)
    requires NoDoubleStar(s)
    ensures StripBold(s) == s
    decreases |s|
  {
    if |s| > 0 {
      StripBoldIdempotent(s[1..]);
    }
  }

  /** Stripping distributes over a join that does not put a `*` on both sides. */
  lemma {:induction false} StripBoldAppend(a: string, b: string)
    requires |a| == 0 || |b| == 0 || a[|a| - 1] != '*' || b[0] != '*'
    ensures StripBold(a + b) == StripBold(a) + StripBold(b)
    decreases |a|
  {
    if |a| == 0 {
      assert a + b == b;
    } else if |a| >= 2 && a[0] == '*' && a[1] == '*' {
      assert (a + b)[2..] == a[2..] + b;
      StripBoldAppend(a[2..], b);
    } else {
      assert (a + b)[1..] == a[1..] + b;
      StripBoldAppend(a[1..], b);
      Regroup(StripBold(a + b), StripBold(a[1..] + b), [a[0]], StripBold(a[1..]), StripBold(b));
    }
  }

  /** A single character other than `*` is kept. */
  lemma StripBoldSingle(c: char)
    requires c != '*'
    ensures StripBold([c]) == [c]
  {
  }

  /** A run of `k` asterisks is stripped in pairs: one survives when `k` is odd. */
  lemma {:induction false} StripBoldStars(k: nat)
    ensures StripBold(seq(k, _ => '*')) == seq(k % 2, _ => '*')
  {
    var s := seq(k, _ => '*');
    if k >= 2 {
      assert s[2..] == seq(k - 2, _ => '*');
      StripBoldStars(k - 2);
    } else if k == 1 {
      assert s[1..] == [];
    }
  }

  /** Markdown bold markers are removed and the text between them is kept. */
  lemma BoldMarkersRemoved()
    ensures StripBold("**bold**") == "bold"
  {
    var s := "**bold**";
    assert s[2..] == "bold**";
    assert s[2..][1..] == "old**";
    assert s[2..][1..][1..] == "ld**";
    assert s[2..][1..][1..][1..] == "d**";
    assert s[2..][1..][1..][1..][1..] == "**";
    assert "**"[2..] == "";
  }


  // ---------------------------------------------------------------------
  // .replace(/\n/g, '<br>')

  function NewlinesToBr(s: string): (r: string)
    ensures forall i :: 0 <= i < |r| ==> r[i] != '\n'
    ensures |r| == |s| + 3 * Occurrences(s, '\n')
    ensures |s| > 0 ==> |r| > 0 && r[0] == (if s[0] == '\n' then '<' else s[0])
  {
    if |s| == 0 then "" else (if s[0] == '\n' then "<br>" else [s[0]]) + NewlinesToBr(s[1..])
  }

  /** A text without line feeds is left unchanged. */
  lemma {:induction false} NewlinesToBrIdentity(s: string)
    requires '\n' !in s
    ensures NewlinesToBr(s) == s
  {
    if |s| > 0 {
      NewlinesToBrIdentity(s[1..]);
    }
  }

  /** The replacement works character by character: it distributes over concatenation ... */
  lemma {:induction false} NewlinesToBrAppend(a: string, b: string)
    ensures NewlinesToBr(a + b) == NewlinesToBr(a) + NewlinesToBr(b)
  {
    if |a| == 0 {
      assert a + b == b;
    } else {
      assert (a + b)[0] == a[0];
      assert (a + b)[1..] == a[1..] + b;
      NewlinesToBrAppend(a[1..], b);
      AppendAssoc(if a[0] == '\n' then "<br>" else [a[0]], NewlinesToBr(a[1..]), NewlinesToBr(b));
    }
  }

  /** ... and maps `\n` to `<br>` and every other character to itself. */
  lemma NewlinesToBrSingle(c: char)
    ensures NewlinesToBr([c]) == if c == '\n' then "<br>" else [c]
  {
    assert [c][1..] == [];
  }

  // ---------------------------------------------------------------------
  // .replace(/\s+/g, ' ')

  predicate IsVisible(c: char)
  {
    !IsJsSpace(c)
  }

  /** Every whitespace character is a plain space and no two are adjacent. */
  predicate Collapsed(s: string)
  {
    && (forall i :: 0 <= i < |s| && IsJsSpace(s[i]) ==> s[i] == ' ')
    && (forall i :: 0 <= i < |s| - 1 ==> !(IsJsSpace(s[i]) && IsJsSpace(s[i + 1])))
  }

  lemma {:induction false} SkippedSpacesAreInvisible(s: string)
    ensures Filter(TrimStart(s, IsJsSpace), IsVisible) == Filter(s, IsVisible)
  {
    if |s| > 0 && IsJsSpace(s[0]) {
      SkippedSpacesAreInvisible(s[1..]);
    }
  }

  /** Number of maximal whitespace runs in `s`: a run starts at each
      whitespace character that is first in `s` or follows a visible one.
      `afterSpace` says whether the character before `s` was whitespace. */
  function RunsFrom(s: string, afterSpace: bool): nat
  {
    if |s| == 0 then 0
    else (if IsJsSpace(s[0]) && !afterSpace then 1 else 0) + RunsFrom(s[1..], IsJsSpace(s[0]))
  }

  function SpaceRuns(s: string): nat
  {
    RunsFrom(s, false)
  }

  /** Inside a run, skipping the rest of the run starts no new run. */
  lemma {:induction false} RunsSkipSpaces(s: string)
    ensures RunsFrom(s, true) == SpaceRuns(TrimStart(s, IsJsSpace))
  {
    if |s| > 0 && IsJsSpace(s[0]) {
      RunsSkipSpaces(s[1..]);
    }
  }

  /** Replaces every maximal run of whitespace with a single space. */
  function CollapseWhitespace(s: string): (r: string)
    ensures Collapsed(r)
    ensures Filter(r, IsVisible) == Filter(s, IsVisible)
    ensures |Filter(r, IsJsSpace)| == SpaceRuns(s)
    ensures |r| <= |s|
    ensures |s| > 0 ==> |r| > 0 && r[0] == (if IsJsSpace(s[0]) then ' ' else s[0])
    decreases |s|
  {
    if |s| == 0 then ""
    else if IsJsSpace(s[0]) then
      var t := TrimStart(s[1..], IsJsSpace);
      var rest := CollapseWhitespace(t);
      ConsCollapsed(' ', rest);
      SkippedSpacesAreInvisible(s[1..]);
      RunsSkipSpaces(s[1..]);
      assert (" " + rest)[1..] == rest;
      " " + rest
    else
      var rest := CollapseWhitespace(s[1..]);
      ConsCollapsed(s[0], rest);
      assert ([s[0]] + rest)[1..] == rest;
      [s[0]] + rest
  }

  /** Prefixing a character keeps a text collapsed unless it adds a second space. */
  lemma ConsCollapsed(c: char, rest: string)
    requires Collapsed(rest)
    requires IsJsSpace(c) ==> c == ' ' && (|rest| == 0 || !IsJsSpace(rest[0]))
    ensures Collapsed([c] + rest)
  {
    var r := [c] + rest;
    forall i | 0 <= i < |r| - 1 ensures !(IsJsSpace(r[i]) && IsJsSpace(r[i + 1])) {
      if i > 0 {
        assert r[i] == rest[i - 1] && r[i + 1] == rest[i];
      }
    }
    forall i | 0 <= i < |r| && IsJsSpace(r[i]) ensures r[i] == ' ' {
      if i > 0 {
        assert r[i] == rest[i - 1];
      }
    }
  }

  /** Collapsed text is left unchanged, so collapsing is idempotent. */
  lemma {:induction false} CollapseIdempotent(s: string)
    requires Collapsed(s)
    ensures CollapseWhitespace(s) == s
    decreases |s|
  {
    if |s| > 0 {
      CollapsedSlice(s, 1, |s|);
      CollapseIdempotent(s[1..]);
      CollapseStep(s);
    }
  }

  /** One step of collapsing a collapsed text: its first character is kept
      and nothing after it is skipped. */
  lemma CollapseStep(s: string)
    requires |s| > 0 && Collapsed(s)
    ensures CollapseWhitespace(s) == [s[0]] + CollapseWhitespace(s[1..])
  {
    if IsJsSpace(s[0]) {
      assert s[0] == ' ';
      assert |s| == 1 || !IsJsSpace(s[1..][0]);
      assert TrimStart(s[1..], IsJsSpace) == s[1..];
    }
  }

  /** Skipping leading whitespace of a concatenation: it runs into `b` only
      when `a` is all whitespace. */
  lemma {:induction false} TrimStartAppend(a: string, b: string)
    ensures TrimStart(a + b, IsJsSpace)
         == if TrimStart(a, IsJsSpace) == "" then TrimStart(b, IsJsSpace) else TrimStart(a, IsJsSpace) + b
  {
    if |a| == 0 {
      assert a + b == b;
    } else {
      assert (a + b)[0] == a[0];
      assert (a + b)[1..] == a[1..] + b;
      if IsJsSpace(a[0]) {
        TrimStartAppend(a[1..], b);
      }
    }
  }

  /** Collapsing distributes over a concatenation that does not split a
      whitespace run; with `CollapseSingle` and `CollapseRun` this fixes the
      result of every input. */
  lemma {:induction false} CollapseAppend(a: string, b: string)
    requires |a| == 0 || |b| == 0 || !IsJsSpace(a[|a| - 1]) || !IsJsSpace(b[0])
    ensures CollapseWhitespace(a + b) == CollapseWhitespace(a) + CollapseWhitespace(b)
    decreases |a|
  {
    if |a| == 0 {
      assert a + b == b;
    } else if IsJsSpace(a[0]) {
      var t := TrimStart(a[1..], IsJsSpace);
      if |t| == 0 {
        AppendAfterRun(a, b);
      } else {
        assert t[|t| - 1] == a[|a| - 1];
        CollapseAppend(t, b);
        AppendAfterSpace(a, b);
      }
    } else {
      CollapseAppend(a[1..], b);
      AppendAfterVisible(a, b);
    }
  }

  lemma AppendAfterVisible(a: string, b: string)
    requires |a| > 0 && !IsJsSpace(a[0])
    requires CollapseWhitespace(a[1..] + b) == CollapseWhitespace(a[1..]) + CollapseWhitespace(b)
    ensures CollapseWhitespace(a + b) == CollapseWhitespace(a) + CollapseWhitespace(b)
  {
    CollapseHeadAppend(a, b);
    CollapseHead(a);
    Regroup(CollapseWhitespace(a + b), CollapseWhitespace(a[1..] + b),
            [a[0]], CollapseWhitespace(a[1..]), CollapseWhitespace(b));
  }

  lemma AppendAfterSpace(a: string, b: string)
    requires |a| > 0 && IsJsSpace(a[0]) && TrimStart(a[1..], IsJsSpace) != ""
    requires var t := TrimStart(a[1..], IsJsSpace);
      CollapseWhitespace(t + b) == CollapseWhitespace(t) + CollapseWhitespace(b)
    ensures CollapseWhitespace(a + b) == CollapseWhitespace(a) + CollapseWhitespace(b)
  {
    var t := TrimStart(a[1..], IsJsSpace);
    CollapseHeadAppend(a, b);
    TrimStartAppend(a[1..], b);
    CollapseHead(a);
    Regroup(CollapseWhitespace(a + b), CollapseWhitespace(t + b),
            " ", CollapseWhitespace(t), CollapseWhitespace(b));
  }

  lemma AppendAfterRun(a: string, b: string)
    requires |a| > 0 && IsJsSpace(a[0]) && TrimStart(a[1..], IsJsSpace) == ""
    requires |b| == 0 || !IsJsSpace(a[|a| - 1]) || !IsJsSpace(b[0])
    ensures CollapseWhitespace(a + b) == CollapseWhitespace(a) + CollapseWhitespace(b)
  {
    LeadingRun(a);
    CollapseHeadAppend(a, b);
    TrimStartAppend(a[1..], b);
    assert TrimStart(b, IsJsSpace) == b;
  }

  /** A text whose whitespace prefix is all of it ends with whitespace and collapses to one space. */
  lemma LeadingRun(a: string)
    requires |a| > 0 && IsJsSpace(a[0]) && TrimStart(a[1..], IsJsSpace) == ""
    ensures IsJsSpace(a[|a| - 1]) && CollapseWhitespace(a) == " "
  {
    if |a| > 1 {
      assert a[|a| - 1] == a[1..][|a| - 2];
    }
    CollapseHead(a);
    assert CollapseWhitespace("") == "";
  }

  /** One unfolding of `CollapseWhitespace`. */
  lemma CollapseHead(s: string)
    requires |s| > 0
    ensures CollapseWhitespace(s)
         == if IsJsSpace(s[0]) then " " + CollapseWhitespace(TrimStart(s[1..], IsJsSpace))
            else [s[0]] + CollapseWhitespace(s[1..])
  {
  }

  /** One unfolding of `CollapseWhitespace` on a concatenation. */
  lemma CollapseHeadAppend(a: string, b: string)
    requires |a| > 0
    ensures CollapseWhitespace(a + b)
         == if IsJsSpace(a[0]) then " " + CollapseWhitespace(TrimStart(a[1..] + b, IsJsSpace))
            else [a[0]] + CollapseWhitespace(a[1..] + b)
  {
    assert (a + b)[0] == a[0] && (a + b)[1..] == a[1..] + b;
    CollapseHead(a + b);
  }

  /** A visible character is kept; a whitespace character becomes a space. */
  lemma CollapseSingle(c: char)
    ensures CollapseWhitespace([c]) == if IsJsSpace(c) then " " else [c]
  {
    assert [c][1..] == [];
  }

  /** A non-empty run of whitespace becomes exactly one space. */
  lemma CollapseRun(s: string)
    requires |s| > 0 && forall k :: 0 <= k < |s| ==> IsJsSpace(s[k])
    ensures CollapseWhitespace(s) == " "
  {
    assert |TrimStart(s[1..], IsJsSpace)| == 0;
  }

  /** Collapsed text holds no line terminator, in particular no `\n`. */
  lemma CollapsedHasNoLineTerminator(s: string)
    requires Collapsed(s)
    ensures forall i :: 0 <= i < |s| ==> !IsLineTerminator(s[i])
  {
  }

  // ---------------------------------------------------------------------
  // .replace(/^\d+\.\s*/gm, '')

  /** Number of consecutive digits from position `i`. */
  function DigitRun(s: string, i: int): (n: nat)
    requires 0 <= i <= |s|
    ensures i + n <= |s|
    ensures forall k :: i <= k < i + n ==> IsDigit(s[k])
    ensures i + n == |s| || !IsDigit(s[i + n])
    decreases |s| - i
  {
    if i < |s| && IsDigit(s[i]) then 1 + DigitRun(s, i + 1) else 0
  }

  /** Number of consecutive whitespace characters from position `i`. */
  function SpaceRun(s: string, i: int): (n: nat)
    requires 0 <= i <= |s|
    ensures i + n <= |s|
    ensures forall k :: i <= k < i + n ==> IsJsSpace(s[k])
    ensures i + n == |s| || !IsJsSpace(s[i + n])
    decreases |s| - i
  {
    if i < |s| && IsJsSpace(s[i]) then 1 + SpaceRun(s, i + 1) else 0
  }

  /** Length of the match of `\d+\.\s*` at position `i`, or 0 when it does not match there. */
  function OrdinalLength(s: string, i: int): (n: nat)
    requires 0 <= i <= |s|
    ensures i + n <= |s|
  {
    var d := DigitRun(s, i);
    if d > 0 && i + d < |s| && s[i + d] == '.' then d + 1 + SpaceRun(s, i + d + 1) else 0
  }

  /** Where `^` matches under the `m` flag: the start of the text or just after a line terminator. */
  predicate AtLineStart(s: string, i: int)
  {
    i == 0 || (0 < i <= |s| && IsLineTerminator(s[i - 1]))
  }

  /** The global multiline replacement, scanning from position `i`. */
  function StripOrdinalsFrom(s: string, i: int): (r: string)
    requires 0 <= i <= |s|
    ensures |r| <= |s| - i
    ensures Filter(r, IsOrdinalFree) == Filter(s[i..], IsOrdinalFree)
    ensures NoOrdinalLineFrom(s, i) ==> r == s[i..]
    decreases |s| - i
  {
    if i == |s| then ""
    else if AtLineStart(s, i) && OrdinalLength(s, i) > 0 then
      var rest := StripOrdinalsFrom(s, i + OrdinalLength(s, i));
      SkipOrdinalKeepsFree(s, i, rest);
      rest
    else
      var rest := StripOrdinalsFrom(s, i + 1);
      KeepCharKeepsFree(s, i, rest);
      [s[i]] + rest
  }

  lemma SkipOrdinalKeepsFree(s: string, i: int, rest: string)
    requires 0 <= i <= |s|
    requires Filter(rest, IsOrdinalFree) == Filter(s[i + OrdinalLength(s, i)..], IsOrdinalFree)
    ensures Filter(rest, IsOrdinalFree) == Filter(s[i..], IsOrdinalFree)
  {
    var n, u := OrdinalLength(s, i), s[i..];
    OrdinalCharsOnly(s, i);
    assert u[..n] == s[i..i + n] && u[n..] == s[i + n..];
    FilterSkip(u, n, IsOrdinalFree);
  }

  lemma KeepCharKeepsFree(s: string, i: int, rest: string)
    requires 0 <= i < |s|
    requires Filter(rest, IsOrdinalFree) == Filter(s[i + 1..], IsOrdinalFree)
    requires NoOrdinalLineFrom(s, i + 1) ==> rest == s[i + 1..]
    ensures Filter([s[i]] + rest, IsOrdinalFree) == Filter(s[i..], IsOrdinalFree)
    ensures NoOrdinalLineFrom(s, i) ==> [s[i]] + rest == s[i..]
  {
    assert ([s[i]] + rest)[1..] == rest;
    assert s[i..][1..] == s[i + 1..];
  }

  /** A character the ordinal pattern `\d+\.\s*` cannot consume. */
  predicate IsOrdinalFree(c: char)
  {
    !IsDigit(c) && c != '.' && !IsJsSpace(c)
  }

  /** No line starting at or after `i` begins with an ordinal. */
  predicate NoOrdinalLineFrom(s: string, i: int)
    requires 0 <= i <= |s|
  {
    forall j :: i <= j < |s| && AtLineStart(s, j) ==> OrdinalLength(s, j) == 0
  }

  /** What the pattern consumes at `i` holds no ordinal-free character. */
  lemma OrdinalCharsOnly(s: string, i: int)
    requires 0 <= i <= |s|
    ensures Filter(s[i..i + OrdinalLength(s, i)], IsOrdinalFree) == []
  {
    var u := s[i..i + OrdinalLength(s, i)];
    forall k | 0 <= k < |u| ensures !IsOrdinalFree(u[k]) {
      assert u[k] == s[i + k];
    }
    NoneKept(u, IsOrdinalFree);
  }

  /** The global multiline ordinal replacement over the whole text: it only
      removes digits, full stops and whitespace, and changes nothing when no
      line starts with an ordinal. On a single line (a line terminator at
      most at the very end) it removes exactly the leading ordinal. */
  function StripOrdinals(s: string): (r: string)
    ensures |r| <= |s|
    ensures Filter(r, IsOrdinalFree) == Filter(s, IsOrdinalFree)
    ensures NoOrdinalLineFrom(s, 0) ==> r == s
    ensures IsSingleLine(s) ==> r == StripLeadingOrdinal(s)
  {
    assert IsSingleLine(s) ==> StripOrdinalsFrom(s, 0) == StripLeadingOrdinal(s) by {
      if IsSingleLine(s) {
        OrdinalsOnlyAtStart(s);
      }
    }
    StripOrdinalsFrom(s, 0)
  }

  /** No line terminator except possibly the last character. */
  predicate IsSingleLine(s: string)
  {
    forall k :: 0 <= k < |s| - 1 ==> !IsLineTerminator(s[k])
  }

  /** `s` begins with one or more digits followed by a full stop. */
  ghost predicate StartsWithOrdinal(s: string)
  {
    exists d :: 0 < d < |s| && s[d] == '.' && forall k :: 0 <= k < d ==> IsDigit(s[k])
  }

  /** The pattern matches at the start exactly when the text starts with an ordinal. */
  lemma OrdinalLengthDetects(s: string)
    ensures OrdinalLength(s, 0) > 0 <==> StartsWithOrdinal(s)
  {
    var d := DigitRun(s, 0);
    if StartsWithOrdinal(s) {
      var e :| 0 < e < |s| && s[e] == '.' && forall k :: 0 <= k < e ==> IsDigit(s[k]);
      assert d == e;
    }
    if OrdinalLength(s, 0) > 0 {
      assert 0 < d < |s| && s[d] == '.';
    }
  }

  /** What precedes the suffix `r` of `s` is digits up to position `d`, a full stop at `d`, then only whitespace. */
  ghost predicate OrdinalPrefix(s: string, d: int, r: string)
  {
    var n := |s| - |r|;
    && 0 < d < n <= |s|
    && s[d] == '.'
    && (forall k :: 0 <= k < d ==> IsDigit(s[k]))
    && (forall k :: d < k < n ==> IsJsSpace(s[k]))
  }

  /** Removes a leading `<digits>.<whitespace>` prefix, if there is one. */
  function StripLeadingOrdinal(s: string): (r: string)
    ensures IsSuffix(r, s)
    ensures |r| < |s| <==> StartsWithOrdinal(s)
    ensures |r| < |s| ==> exists d :: OrdinalPrefix(s, d, r)
    ensures |r| < |s| && |r| > 0 ==> !IsJsSpace(r[0])
  {
    var n := OrdinalLength(s, 0);
    OrdinalLengthDetects(s);
    assert n > 0 ==> OrdinalPrefix(s, DigitRun(s, 0), s[n..]);
    s[n..]
  }

  lemma {:induction false} NoOrdinalAfterStart(s: string, i: int)
    requires 0 < i <= |s|
    requires IsSingleLine(s)
    ensures StripOrdinalsFrom(s, i) == s[i..]
    decreases |s| - i
  {
    if i < |s| {
      NoOrdinalAfterStart(s, i + 1);
    }
  }

  /** Within a single line the multiline `^` only matches at the start of
      the text, so the replacement removes at most the leading ordinal. */
  lemma OrdinalsOnlyAtStart(s: string)
    requires IsSingleLine(s)
    ensures StripOrdinalsFrom(s, 0) == StripLeadingOrdinal(s)
  {
    if |s| > 0 {
      var n := OrdinalLength(s, 0);
      if n > 0 {
        if n < |s| {
          NoOrdinalAfterStart(s, n);
        }
      } else {
        NoOrdinalAfterStart(s, 1);
      }
    }
  }

  // ---------------------------------------------------------------------
  // .replace(/•/g, '◆')

  function ReplaceBullets(s: string): (r: string)
    ensures |r| == |s|
    ensures forall i :: 0 <= i < |s| ==> r[i] == (if s[i] == Bullet then Diamond else s[i])
  {
    if |s| == 0 then "" else [if s[0] == Bullet then Diamond else s[0]] + ReplaceBullets(s[1..])
  }

  // ---------------------------------------------------------------------
  // The chain

  /** The whole replace chain, in source order, ending with `.trim()`. The
      header, numbered-item and command wrappers are left as parameters. */
  function Format(text: string, wrapHeaders: string -> string, wrapItems: string -> string,
                  wrapCommands: string -> string): (r: string)
    ensures |r| == 0 || (!IsJsSpace(r[0]) && !IsJsSpace(r[|r| - 1]))
  {
    JsTrim(wrapCommands(wrapItems(ReplaceBullets(wrapHeaders(PlainSteps(text))))))
  }

  /** The first four replacements of the chain, which never produce HTML.
      Afterwards there is no `**` and no run of whitespace. */
  function PlainSteps(text: string): (r: string)
    ensures NoDoubleStar(r) && Collapsed(r)
  {
    var collapsed := CollapseWhitespace(NewlinesToBr(StripBold(text)));
    CollapsedStepsInvariants(text);
    StripOrdinalsKeeps(collapsed);
    StripOrdinals(collapsed)
  }

  // ---------------------------------------------------------------------
  // What the plain steps guarantee of the final text

  lemma NoDoubleStarSlice(s: string, a: int, b: int)
    requires 0 <= a <= b <= |s| && NoDoubleStar(s)
    ensures NoDoubleStar(s[a..b])
  {
    var t := s[a..b];
    forall i | 0 <= i < |t| - 1 ensures !(t[i] == '*' && t[i + 1] == '*') {
      assert t[i] == s[a + i] && t[i + 1] == s[a + i + 1];
    }
  }

  lemma CollapsedSlice(s: string, a: int, b: int)
    requires 0 <= a <= b <= |s| && Collapsed(s)
    ensures Collapsed(s[a..b])
  {
    var t := s[a..b];
    forall i | 0 <= i < |t| - 1 ensures !(IsJsSpace(t[i]) && IsJsSpace(t[i + 1])) {
      assert t[i] == s[a + i] && t[i + 1] == s[a + i + 1];
    }
  }

  lemma {:induction false} NewlinesToBrKeepsNoDoubleStar(s: string)
    requires NoDoubleStar(s)
    ensures NoDoubleStar(NewlinesToBr(s))
  {
    if |s| > 0 {
      NoDoubleStarSlice(s, 1, |s|);
      NewlinesToBrKeepsNoDoubleStar(s[1..]);
      var rest := NewlinesToBr(s[1..]);
      var head := if s[0] == '\n' then "<br>" else [s[0]];
      var r := head + rest;
      assert r == NewlinesToBr(s);
      forall i | 0 <= i < |r| - 1 ensures !(r[i] == '*' && r[i + 1] == '*') {
        if i + 1 < |head| {
          assert r[i] == head[i];
        } else if i + 1 == |head| {
          assert r[i] == head[|head| - 1];
          if s[0] == '*' {
            assert |s| > 1 && s[1] != '*';
            assert r[i + 1] == rest[0];
          }
        } else {
          assert r[i] == rest[i - |head|] && r[i + 1] == rest[i + 1 - |head|];
        }
      }
    }
  }

  lemma {:induction false} CollapseKeepsNoDoubleStar(s: string)
    requires NoDoubleStar(s)
    ensures NoDoubleStar(CollapseWhitespace(s))
    decreases |s|
  {
    if |s| > 0 {
      CollapseHead(s);
      if IsJsSpace(s[0]) {
        var tail := TrimStart(s[1..], IsJsSpace);
        NoDoubleStarSlice(s, |s| - |tail|, |s|);
        assert s[|s| - |tail|..] == tail;
        CollapseKeepsNoDoubleStar(tail);
        ConsNoDoubleStar(' ', CollapseWhitespace(tail));
      } else {
        NoDoubleStarSlice(s, 1, |s|);
        CollapseKeepsNoDoubleStar(s[1..]);
        var rest := CollapseWhitespace(s[1..]);
        assert s[0] == '*' ==> |rest| == 0 || rest[0] != '*' by {
          if s[0] == '*' && |s| > 1 {
            assert s[1] != '*';
          }
        }
        ConsNoDoubleStar(s[0], rest);
      }
    }
  }

  /** Prefixing a character adds no `**` unless it is a star before a star. */
  lemma ConsNoDoubleStar(c: char, rest: string)
    requires NoDoubleStar(rest)
    requires c == '*' ==> |rest| == 0 || rest[0] != '*'
    ensures NoDoubleStar([c] + rest)
  {
    var r := [c] + rest;
    forall i | 0 <= i < |r| - 1 ensures !(r[i] == '*' && r[i + 1] == '*') {
      if i > 0 {
        assert r[i] == rest[i - 1] && r[i + 1] == rest[i];
      }
    }
  }

  lemma ReplaceBulletsKeeps(s: string)
    requires NoDoubleStar(s) && Collapsed(s)
    ensures PlainInvariants(ReplaceBullets(s))
  {
    var r := ReplaceBullets(s);
    forall i | 0 <= i < |r| - 1 ensures !(r[i] == '*' && r[i + 1] == '*') {
      assert r[i] == (if s[i] == Bullet then Diamond else s[i]);
      assert r[i + 1] == (if s[i + 1] == Bullet then Diamond else s[i + 1]);
    }
    forall i | 0 <= i < |r| - 1 ensures !(IsJsSpace(r[i]) && IsJsSpace(r[i + 1])) {
      assert r[i] == (if s[i] == Bullet then Diamond else s[i]);
      assert r[i + 1] == (if s[i + 1] == Bullet then Diamond else s[i + 1]);
    }
  }

  lemma CollapsedStepsInvariants(text: string)
    ensures NoDoubleStar(CollapseWhitespace(NewlinesToBr(StripBold(text))))
  {
    var bold := StripBold(text);
    NewlinesToBrKeepsNoDoubleStar(bold);
    CollapseKeepsNoDoubleStar(NewlinesToBr(bold));
  }

  lemma StripOrdinalsKeeps(s: string)
    requires NoDoubleStar(s) && Collapsed(s)
    ensures NoDoubleStar(StripOrdinals(s)) && Collapsed(StripOrdinals(s))
  {
    CollapsedHasNoLineTerminator(s);
    var n := StripOrdinalsDropsPrefix(s);
    NoDoubleStarSlice(s, n, |s|);
    CollapsedSlice(s, n, |s|);
  }

  /** Without line terminators the replacement only drops a prefix. */
  lemma StripOrdinalsDropsPrefix(s: string) returns (n: int)
    requires forall k :: 0 <= k < |s| ==> !IsLineTerminator(s[k])
    ensures 0 <= n <= |s| && StripOrdinals(s) == s[n..]
  {
    OrdinalsOnlyAtStart(s);
    n := OrdinalLength(s, 0);
  }

  /** What the plain chain guarantees of its text. */
  predicate PlainInvariants(s: string)
  {
    NoDoubleStar(s) && Collapsed(s) && Bullet !in s
  }

  lemma SliceKeeps(s: string, t: string, a: int)
    requires 0 <= a <= a + |t| <= |s| && t == s[a..a + |t|] && PlainInvariants(s)
    ensures PlainInvariants(t)
  {
    NoDoubleStarSlice(s, a, a + |t|);
    CollapsedSlice(s, a, a + |t|);
    forall i | 0 <= i < |t| ensures t[i] != Bullet {
      assert t[i] == s[a + i];
    }
  }

  lemma TrimKeeps(s: string)
    requires PlainInvariants(s)
    ensures PlainInvariants(JsTrim(s))
  {
    var r := JsTrim(s);
    var start :| Trimmed(s, r, start, IsJsSpace);
    SliceKeeps(s, r, start);
  }

  /** A wrapper that adds no markup. */
  function Unwrapped(s: string): string
  {
    s
  }

  /** With the HTML wrappers left as the identity, the displayed text has no
      `**`, no `•`, and every whitespace character in it is a single space
      between two other characters. */
  lemma PlainChainInvariants(text: string)
    ensures var r := Format(text, Unwrapped, Unwrapped, Unwrapped);
      && NoDoubleStar(r)
      && Collapsed(r)
      && Bullet !in r
      && (|r| == 0 || (!IsJsSpace(r[0]) && !IsJsSpace(r[|r| - 1])))
  {
    var plain := PlainSteps(text);
    ReplaceBulletsKeeps(plain);
    TrimKeeps(ReplaceBullets(plain));
  }
}
