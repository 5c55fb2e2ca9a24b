/**
 * DOI utilities of the reference library: abstract clean-up, DOI recognition and
 * normalisation, DOI extraction from free text, and the mapping of a CrossRef work record
 * to the library's metadata shape (with the citation key derived from it).
 *
 * A DOI is recognised in the simplified form `10.` + four or more digits + `/` + one or
 * more non-whitespace characters (a narrowing of the prefix/suffix syntax of section 2.2 of
 * the DOI Handbook).
 */
module DoiLookup {
  import opened Wrappers
  import opened Text

  // ---------------------------------------------------------------------------
  // cleanAbstract
  // ---------------------------------------------------------------------------

  /** Index of the first `>` at or after `from`. */
  function FindGt(s: string, from: nat): (r: Option<nat>)
    ensures r.Some? ==> from <= r.value < |s| && s[r.value] == '>'
    ensures r.Some? ==> forall k :: from <= k < r.value ==> s[k] != '>'
    ensures r.None? ==> forall k :: from <= k < |s| ==> s[k] != '>'
    decreases |s| - from
  {
    if from >= |s| then None else if s[from] == '>' then Some(from) else FindGt(s, from + 1)
  }

  /**
   * Length of the match of the regex `open[^>]+>` at the very start of `s`, if there is one:
   * the opener, at least one character other than `>`, and the first `>` after them.
   */
  function TagLength(s: string, open: string): (r: Option<nat>)
    ensures r.Some? ==> |open| < r.value <= |s| && StartsWith(s, open) && s[r.value - 1] == '>'
  {
    if !StartsWith(s, open) then None
    else match FindGt(s, |open|)
      case Some(j) => if j > |open| then Some(j + 1) else None
      case None => None
  }

  /** `s.replace(/open[^>]+>/g, '')`: tags are removed left to right, the text between them is kept. */
  function StripTags(s: string, open: string): (r: string)
    requires open != []
    ensures |r| <= |s|
    decreases |s|
  {
    if s == [] then []
    else match TagLength(s, open)
      case Some(n) => StripTags(s[n..], open)
      case None => [s[0]] + StripTags(s[1..], open)
  }

  /** `<` followed by at least one non-`>` character and then `>`: a tag the last pass removes. */
  predicate TagAt(s: string, i: nat)
    requires i <= |s|
  {
    TagLength(s[i..], "<").Some?
  }

  /** No tag-like substring `<…>` is left. */
  predicate TagFree(s: string)
  {
    forall i :: 0 <= i < |s| ==> !TagAt(s, i)
  }

  /** A `<` starts no tag exactly when it is followed directly by `>` or by no `>` at all. */
  lemma TagAtShape(s: string, i: nat)
    requires i < |s| && s[i] == '<'
    ensures !TagAt(s, i) <==> ((i + 1 < |s| && s[i + 1] == '>') || FindGt(s[i..], 1).None?)
  {
    assert StartsWith(s[i..], "<");
  }

  /** With no `>` present, stripping tags changes nothing. */
  lemma {:induction false} StripTagsNoGt(s: string)
    requires '>' !in s
    ensures StripTags(s, "<") == s
    decreases |s|
  {
    if s != [] {
      assert TagLength(s, "<").None?;
      StripTagsNoGt(s[1..]);
    }
  }

  /** Stripping keeps a leading `>`. */
  lemma StripTagsKeepsGt(s: string)
    requires s != [] && s[0] == '>'
    ensures StripTags(s, "<") != [] && StripTags(s, "<")[0] == '>'
  {
    assert TagLength(s, "<").None?;
  }

  /** Every tag is removed: the last pass of the clean-up leaves a tag-free string. */
  lemma {:induction false} StripTagsTagFree(s: string)
    ensures TagFree(StripTags(s, "<"))
    decreases |s|
  {
    if s != [] {
      match TagLength(s, "<")
      case Some(n) =>
        StripTagsTagFree(s[n..]);
      case None =>
        var rest := StripTags(s[1..], "<");
        var r := [s[0]] + rest;
        StripTagsTagFree(s[1..]);
        forall i | 0 <= i < |r|
          ensures !TagAt(r, i)
        {
          if i == 0 {
            if r[0] == '<' {
              assert StartsWith(s, "<");
              if FindGt(s, 1).None? {
                StripTagsNoGt(s[1..]);
                assert rest == s[1..];
                assert r == s;
                TagAtShape(r, 0);
                assert r[0..] == r;
              } else {
                var j := FindGt(s, 1).value;
                assert j == 1;
                StripTagsKeepsGt(s[1..]);
                TagAtShape(r, 0);
              }
            }
          } else {
            assert r[i..] == rest[i - 1..];
            assert !TagAt(rest, i - 1);
          }
        }
    }
  }

  /** A tag-free string is left as it is: stripping again changes nothing. */
  lemma {:induction false} StripTagsOfTagFree(s: string)
    requires TagFree(s)
    ensures StripTags(s, "<") == s
    decreases |s|
  {
    if s != [] {
      assert s[0..] == s;
      assert !TagAt(s, 0);
      forall i | 0 <= i < |s| - 1
        ensures !TagAt(s[1..], i)
      {
        assert s[1..][i..] == s[i + 1..];
        assert !TagAt(s, i + 1);
      }
      StripTagsOfTagFree(s[1..]);
    }
  }

  /** `replace(/\s+/g, ' ')`: every run of whitespace becomes one space. */
  function CollapseSpace(s: string): (r: string)
    ensures s != [] ==> r != []
    ensures s != [] && !IsSpace(s[0]) ==> r[0] == s[0]
    ensures forall i :: 0 <= i < |r| ==> IsSpace(r[i]) ==> r[i] == ' '
    ensures forall i :: 0 <= i < |r| - 1 ==> !(IsSpace(r[i]) && IsSpace(r[i + 1]))
    decreases |s|
  {
    if s == [] then []
    else if IsSpace(s[0]) then
      " " + CollapseSpace(TrimStart(s))
    else [s[0]] + CollapseSpace(s[1..])
  }

  /** No two consecutive whitespace characters. */
  predicate SingleSpaced(s: string)
  {
    forall i :: 0 <= i < |s| - 1 ==> !(IsSpace(s[i]) && IsSpace(s[i + 1]))
  }

  /** Every whitespace character is a plain space. */
  predicate PlainSpaces(s: string)
  {
    forall i :: 0 <= i < |s| ==> IsSpace(s[i]) ==> s[i] == ' '
  }

  /** Text whose whitespace is already single plain spaces is left alone. */
  lemma {:induction false} CollapseSpaceFixed(s: string)
    requires PlainSpaces(s) && SingleSpaced(s)
    ensures CollapseSpace(s) == s
    decreases |s|
  {
    if s != [] {
      assert PlainSpaces(s[1..]) && SingleSpaced(s[1..]) by {
        assert forall i :: 0 <= i < |s| - 1 ==> s[1..][i] == s[i + 1];
      }
      if IsSpace(s[0]) {
        assert TrimStart(s) == s[1..] by {
          if |s| > 1 { assert !IsSpace(s[1]); }
          TrimStartOfTrimmed(s[1..]);
        }
      }
      CollapseSpaceFixed(s[1..]);
    }
  }

  /** Collapsing whitespace twice is collapsing it once. */
  lemma CollapseSpaceIdempotent(s: string)
    ensures CollapseSpace(CollapseSpace(s)) == CollapseSpace(s)
  {
    CollapseSpaceFixed(CollapseSpace(s));
  }

  lemma TrimKeepsSingleSpaced(s: string)
    requires SingleSpaced(s)
    ensures SingleSpaced(Trim(s))
  {
    var a := TrimStart(s);
    assert SingleSpaced(a) by {
      forall i | 0 <= i < |a| - 1 ensures !(IsSpace(a[i]) && IsSpace(a[i + 1])) {
        assert a[i] == s[|s| - |a| + i] && a[i + 1] == s[|s| - |a| + i + 1];
      }
    }
    var b := TrimEnd(a);
    forall i | 0 <= i < |b| - 1 ensures !(IsSpace(b[i]) && IsSpace(b[i + 1])) {
      assert b[i] == a[i] && b[i + 1] == a[i + 1];
    }
  }

  /** The five entity replacements, in the order the source applies them, each in one pass. */
  function DecodeEntities(s: string): string
  {
    var a := ReplaceAll(s, "&lt;", "<");
    var b := ReplaceAll(a, "&gt;", ">");
    var c := ReplaceAll(b, "&amp;", "&");
    var d := ReplaceAll(c, "&quot;", "\"");
    ReplaceAll(d, "&apos;", "'")
  }

  /** The three tag-removal passes: JATS openers, JATS closers, then any tag. */
  function StripAllTags(s: string): string
  {
    StripTags(StripTags(StripTags(s, "<jats:"), "</jats:"), "<")
  }

  /**
   * `cleanAbstract`: an absent abstract is modelled as the empty string, for which the
   * result is empty; otherwise tags are removed, entities decoded, whitespace collapsed and
   * the result trimmed.
   */
  function CleanAbstract(text: string): (r: string)
    ensures text == [] ==> r == []
    ensures r == [] || (!IsSpace(r[0]) && !IsSpace(r[|r| - 1]))
  {
    if text == [] then [] else Trim(CollapseSpace(DecodeEntities(StripAllTags(text))))
  }

  /** The result never holds two whitespace characters in a row. */
  lemma CleanAbstractSingleSpaced(text: string)
    ensures SingleSpaced(CleanAbstract(text))
  {
    if text != [] {
      TrimKeepsSingleSpaced(CollapseSpace(DecodeEntities(StripAllTags(text))));
    }
  }

  /** The tag passes leave no tag behind; decoding happens afterwards, so `&lt;b&gt;` survives as `<b>`. */
  lemma StripAllTagsTagFree(s: string)
    ensures TagFree(StripAllTags(s))
  {
    StripTagsTagFree(StripTags(StripTags(s, "<jats:"), "</jats:"));
  }

  /** A string without the opener's first character has no tag to strip. */
  lemma {:induction false} StripTagsWithoutOpener(s: string, open: string)
    requires open != [] && open[0] !in s
    ensures StripTags(s, open) == s
    decreases |s|
  {
    if s != [] {
      assert !StartsWith(s, open) by {
        if |open| <= |s| { assert s[..|open|][0] == s[0]; }
      }
      StripTagsWithoutOpener(s[1..], open);
    }
  }

  /** A prefix without the opener's first character is kept as it is. */
  lemma {:induction false} StripTagsPrefixFree(a: string, b: string, open: string)
    requires open != [] && open[0] !in a
    ensures StripTags(a + b, open) == a + StripTags(b, open)
    decreases |a|
  {
    if a != [] {
      var s := a + b;
      assert !StartsWith(s, open) by {
        if |open| <= |s| { assert s[..|open|][0] == s[0]; }
      }
      assert StripTags(s, open) == [s[0]] + StripTags(s[1..], open);
      assert s[1..] == a[1..] + b;
      StripTagsPrefixFree(a[1..], b, open);
      assert a == [a[0]] + a[1..];
    } else {
      assert a + b == b;
    }
  }

  /** The first `>` at or after `from`. */
  lemma FindGtAt(s: string, from: nat, j: nat)
    requires from <= j < |s| && s[j] == '>' && forall k :: from <= k < j ==> s[k] != '>'
    ensures FindGt(s, from) == Some(j)
  {
  }

  /** A complete tag at the front is removed and stripping resumes after it. */
  lemma StripTagsLeadingTag(t: string, rest: string, open: string)
    requires open != [] && StartsWith(t, open) && |open| + 1 < |t| && t[|t| - 1] == '>'
    requires forall k :: |open| <= k < |t| - 1 ==> t[k] != '>'
    ensures StripTags(t + rest, open) == StripTags(rest, open)
  {
    var s := t + rest;
    assert s[..|open|] == t[..|open|];
    FindGtAt(s, |open|, |t| - 1);
    assert TagLength(s, open) == Some(|t|);
    assert s[|t|..] == rest;
  }

  /** A character followed by something that differs from the opener's second character is kept. */
  lemma StripTagsSkipChar(c: char, rest: string, open: string)
    requires |open| >= 2 && rest != [] && rest[0] != open[1]
    ensures StripTags([c] + rest, open) == [c] + StripTags(rest, open)
  {
    var s := [c] + rest;
    if |s| >= |open| {
      assert s[..|open|][1] == rest[0];
    }
    assert s[1..] == rest;
  }

  /** A JATS paragraph around text without `<` is removed, and the text is kept as it is. */
  lemma JatsParagraphStripped(t: string)
    requires '<' !in t
    ensures StripAllTags("<jats:p>" + t + "</jats:p>") == t
  {
    JatsOpenerPass(t);
    JatsCloserPass(t);
    StripTagsWithoutOpener(t, "<");
  }

  /** The first pass removes the opening JATS tag and keeps the closing one. */
  lemma JatsOpenerPass(t: string)
    requires '<' !in t
    ensures StripTags("<jats:p>" + t + "</jats:p>", "<jats:") == t + "</jats:p>"
  {
    assert "<jats:p>" + t + "</jats:p>" == "<jats:p>" + (t + "</jats:p>");
    StripTagsLeadingTag("<jats:p>", t + "</jats:p>", "<jats:");
    StripTagsPrefixFree(t, "</jats:p>", "<jats:");
    ClosingTagSurvivesOpenerPass();
  }

  lemma ClosingTagSurvivesOpenerPass()
    ensures StripTags("</jats:p>", "<jats:") == "</jats:p>"
  {
    ClosingTagParts();
    ClosingTagHasNoOpener();
    StripTagsSkipChar('<', "/jats:p>", "<jats:");
    StripTagsWithoutOpener("/jats:p>", "<jats:");
  }

  lemma ClosingTagParts()
    ensures "</jats:p>" == ['<'] + "/jats:p>"
    ensures "/jats:p>"[0] == '/' && "<jats:"[1] == 'j'
  {
  }

  lemma ClosingTagHasNoOpener()
    ensures '<' !in "/jats:p>"
  {
  }

  /** The second pass removes the closing JATS tag. */
  lemma JatsCloserPass(t: string)
    requires '<' !in t
    ensures StripTags(t + "</jats:p>", "</jats:") == t
  {
    StripTagsPrefixFree(t, "</jats:p>", "</jats:");
    assert "</jats:p>" + [] == "</jats:p>";
    StripTagsLeadingTag("</jats:p>", [], "</jats:");
    assert t + [] == t;
  }

  /** A literal that starts with a character `s` lacks does not occur in `s`. */
  lemma NotContainedWithoutFirstChar(s: string, p: string)
    requires p != [] && p[0] !in s
    ensures !Contains(s, p)
  {
    forall i | 0 <= i <= |s| - |p| ensures !OccursAt(s, p, i) {
      assert s[i..i + |p|][0] == s[i];
    }
  }

  /** Without `&` there is no entity, so decoding changes nothing. */
  lemma DecodeEntitiesWithoutAmpersand(s: string)
    requires '&' !in s
    ensures DecodeEntities(s) == s
  {
    NotContainedWithoutFirstChar(s, "&lt;");
    NotContainedWithoutFirstChar(s, "&gt;");
    NotContainedWithoutFirstChar(s, "&amp;");
    NotContainedWithoutFirstChar(s, "&quot;");
    NotContainedWithoutFirstChar(s, "&apos;");
  }

  /**
   * One escaped ampersand between entity-free text decodes to a single `&`, provided the
   * decoded `&` is not followed by `q` or `a`, which would let a later pass read `&quot;` or `&apos;`.
   */
  lemma AmpersandEntityDecoded(a: string, b: string)
    requires '&' !in a && '&' !in b
    requires b != [] ==> b[0] != 'q' && b[0] != 'a'
    ensures DecodeEntities(a + "&amp;" + b) == a + "&" + b
  {
    EntityAbsentBeforeAmp(a, b, "&lt;", "<");
    EntityAbsentBeforeAmp(a, b, "&gt;", ">");
    AmpEntityReplaced(a, b);
    EntityAbsentAfterLoneAmp(a, b, "&quot;", "\"");
    EntityAbsentAfterLoneAmp(a, b, "&apos;", "'");
  }

  /** An entity other than `&amp;` does not occur in `a + "&amp;" + b` when `a` and `b` hold no `&`. */
  lemma EntityAbsentBeforeAmp(a: string, b: string, pat: string, rep: string)
    requires |pat| >= 2 && pat[0] == '&' && pat[1] != 'a'
    requires '&' !in a && '&' !in b
    ensures ReplaceAll(a + "&amp;" + b, pat, rep) == a + "&amp;" + b
  {
    var tail := "amp;" + b;
    assert a + "&amp;" + b == a + ([ '&' ] + tail);
    ReplaceAllPrefixFree(a, ['&'] + tail, pat, rep);
    ReplaceAllSkipChar('&', tail, pat, rep);
    assert '&' !in tail;
    NotContainedWithoutFirstChar(tail, pat);
  }

  lemma AmpEntityReplaced(a: string, b: string)
    requires '&' !in a && '&' !in b
    ensures ReplaceAll(a + "&amp;" + b, "&amp;", "&") == a + "&" + b
  {
    assert a + "&amp;" + b == a + ("&amp;" + b);
    ReplaceAllPrefixFree(a, "&amp;" + b, "&amp;", "&");
    ReplaceAllAtFront(b, "&amp;", "&");
    NotContainedWithoutFirstChar(b, "&amp;");
  }

  lemma EntityAbsentAfterLoneAmp(a: string, b: string, pat: string, rep: string)
    requires |pat| >= 2 && pat[0] == '&'
    requires '&' !in a && '&' !in b
    requires b != [] ==> b[0] != pat[1]
    ensures ReplaceAll(a + "&" + b, pat, rep) == a + "&" + b
  {
    assert a + "&" + b == a + ("&" + b);
    ReplaceAllPrefixFree(a, "&" + b, pat, rep);
    if b != [] {
      ReplaceAllSkipChar('&', b, pat, rep);
      NotContainedWithoutFirstChar(b, pat);
    }
  }

  /** Text with neither `<` nor `&` only has its whitespace normalised. */
  lemma CleanAbstractOfPlainText(text: string)
    requires text != []
    requires '<' !in text && '&' !in text
    ensures CleanAbstract(text) == Trim(CollapseSpace(text))
  {
    StripTagsWithoutOpener(text, "<jats:");
    StripTagsWithoutOpener(text, "</jats:");
    StripTagsWithoutOpener(text, "<");
    DecodeEntitiesWithoutAmpersand(text);
  }

  // ---------------------------------------------------------------------------
  // DOI recognition: isValidDOI, formatDOIUrl
  // ---------------------------------------------------------------------------

  const HttpsDoiOrg := "https://doi.org/"
  const HttpDoiOrg := "http://doi.org/"

  /** `doi.replace(/^https?:\/\/doi\.org\//, '')` (case-sensitive, at most once). */
  function StripDoiPrefix(s: string): (r: string)
    ensures |r| <= |s|
    ensures StartsWith(s, HttpsDoiOrg) ==> r == s[|HttpsDoiOrg|..]
    ensures !StartsWith(s, HttpsDoiOrg) && StartsWith(s, HttpDoiOrg) ==> r == s[|HttpDoiOrg|..]
    ensures !StartsWith(s, HttpsDoiOrg) && !StartsWith(s, HttpDoiOrg) ==> r == s
  {
    if StartsWith(s, HttpsDoiOrg) then s[|HttpsDoiOrg|..]
    else if StartsWith(s, HttpDoiOrg) then s[|HttpDoiOrg|..]
    else s
  }

  /** The prefix is stripped first and the remainder trimmed afterwards. */
  function CleanDoi(s: string): string
  {
    Trim(StripDoiPrefix(s))
  }

  /** Number of consecutive digits in `s` from index `from`. */
  function DigitRun(s: string, from: nat): (n: nat)
    requires from <= |s|
    ensures from + n <= |s|
    ensures forall k :: from <= k < from + n ==> IsDigit(s[k])
    ensures from + n == |s| || !IsDigit(s[from + n])
    decreases |s| - from
  {
    if from == |s| || !IsDigit(s[from]) then 0 else 1 + DigitRun(s, from + 1)
  }

  /** Number of consecutive non-whitespace characters in `s` from index `from`. */
  function NonSpaceRun(s: string, from: nat): (n: nat)
    requires from <= |s|
    ensures from + n <= |s|
    ensures forall k :: from <= k < from + n ==> !IsSpace(s[k])
    ensures from + n == |s| || IsSpace(s[from + n])
    decreases |s| - from
  {
    if from == |s| || IsSpace(s[from]) then 0 else 1 + NonSpaceRun(s, from + 1)
  }

  /** A run of exactly `n` digits: the scan stops at the first non-digit. */
  lemma DigitRunIs(s: string, from: nat, n: nat)
    requires from + n <= |s| && forall k :: from <= k < from + n ==> IsDigit(s[k])
    requires from + n == |s| || !IsDigit(s[from + n])
    ensures DigitRun(s, from) == n
  {
  }

  /** A run of exactly `n` non-whitespace characters. */
  lemma NonSpaceRunIs(s: string, from: nat, n: nat)
    requires from + n <= |s| && forall k :: from <= k < from + n ==> !IsSpace(s[k])
    requires from + n == |s| || IsSpace(s[from + n])
    ensures NonSpaceRun(s, from) == n
  {
  }

  /** Number of consecutive whitespace characters in `s` from index `from` (`\s*`). */
  function SpaceRun(s: string, from: nat): (n: nat)
    requires from <= |s|
    ensures from + n <= |s|
    ensures forall k :: from <= k < from + n ==> IsSpace(s[k])
    ensures from + n == |s| || !IsSpace(s[from + n])
    decreases |s| - from
  {
    if from == |s| || !IsSpace(s[from]) then 0 else 1 + SpaceRun(s, from + 1)
  }

  /** A run of exactly `n` whitespace characters. */
  lemma SpaceRunIs(s: string, from: nat, n: nat)
    requires from + n <= |s| && forall k :: from <= k < from + n ==> IsSpace(s[k])
    requires from + n == |s| || !IsSpace(s[from + n])
    ensures SpaceRun(s, from) == n
  {
  }

  /** `d` begins with `10.`, then exactly `n` digits (n >= 4), then `/`. */
  predicate DoiPrefixShape(d: string, n: nat)
  {
    4 <= n && 4 + n <= |d| && d[..3] == "10." &&
    (forall k :: 3 <= k < 3 + n ==> IsDigit(d[k])) && d[3 + n] == '/'
  }

  /** The digit count of a prefix shape is determined: the `/` ends the digits. */
  lemma PrefixShapeUnique(d: string, n: nat, m: nat)
    requires DoiPrefixShape(d, n) && DoiPrefixShape(d, m)
    ensures n == m
  {
  }

  /** `10\.\d{4,}\/` at index `k` of `s`: the index just after the `/`. */
  function DoiPrefixEnd(s: string, k: nat): (r: Option<nat>)
    requires k <= |s|
    ensures r.Some? ==> k + 8 <= r.value <= |s|
  {
    if k + 3 > |s| || s[k..k + 3] != "10." then None
    else
      var d := DigitRun(s, k + 3);
      if d >= 4 && k + 3 + d < |s| && s[k + 3 + d] == '/' then Some(k + 4 + d) else None
  }

  /** `DoiPrefixEnd` finds the prefix shape at `k` exactly when there is one. */
  lemma DoiPrefixEndShape(s: string, k: nat)
    requires k <= |s|
    ensures DoiPrefixEnd(s, k).Some? ==> DoiPrefixShape(s[k..], DoiPrefixEnd(s, k).value - k - 4)
    ensures DoiPrefixEnd(s, k).None? ==> forall n :: !DoiPrefixShape(s[k..], n)
  {
    if k + 3 <= |s| {
      assert s[k..][..3] == s[k..k + 3];
    }
  }

  /** The whole string is a DOI: prefix shape, then one or more non-whitespace characters. */
  predicate IsDoiSyntax(c: string)
  {
    exists n :: 4 <= n < |c| && DoiPrefixShape(c, n) && 4 + n < |c| && NoSpace(c[4 + n..])
  }

  /** `/^10\.\d{4,}\/[^\s]+$/.test(c)`, computed by scanning. */
  function MatchesDoiPattern(c: string): bool
  {
    match DoiPrefixEnd(c, 0)
    case Some(e) => e < |c| && NonSpaceRun(c, e) == |c| - e
    case None => false
  }

  /** The scanning matcher decides exactly the DOI syntax. */
  lemma MatchesDoiPatternCorrect(c: string)
    ensures MatchesDoiPattern(c) <==> IsDoiSyntax(c)
  {
    assert c[0..] == c;
    DoiPrefixEndShape(c, 0);
    match DoiPrefixEnd(c, 0)
    case Some(e) =>
      var n := e - 4;
      if MatchesDoiPattern(c) {
        assert 4 <= n < |c| && DoiPrefixShape(c, n) && NoSpace(c[4 + n..]);
      }
      if IsDoiSyntax(c) {
        var m :| 4 <= m < |c| && DoiPrefixShape(c, m) && 4 + m < |c| && NoSpace(c[4 + m..]);
      }
    case None =>
  }

  /** `isValidDOI` */
  function IsValidDoi(doi: string): bool
  {
    doi != [] && MatchesDoiPattern(CleanDoi(doi))
  }

  /** A DOI is valid exactly when, once one leading doi.org URL is stripped and the rest trimmed, it has the DOI syntax. */
  lemma IsValidDoiSpec(doi: string)
    ensures IsValidDoi(doi) <==> doi != [] && IsDoiSyntax(Trim(StripDoiPrefix(doi)))
  {
    MatchesDoiPatternCorrect(CleanDoi(doi));
  }

  /** `formatDOIUrl` */
  function FormatDoiUrl(doi: string): (r: string)
    ensures doi == [] ==> r == []
    ensures doi != [] ==> StartsWith(r, HttpsDoiOrg)
  {
    if doi == [] then [] else HttpsDoiOrg + CleanDoi(doi)
  }

  /** Formatting keeps the cleaned DOI: the URL cleans back to what the input cleaned to. */
  lemma FormatDoiUrlCleansBack(doi: string)
    requires doi != []
    ensures CleanDoi(FormatDoiUrl(doi)) == CleanDoi(doi)
  {
    var r := FormatDoiUrl(doi);
    assert StartsWith(r, HttpsDoiOrg);
    assert r[|HttpsDoiOrg|..] == CleanDoi(doi);
    TrimIdempotent(StripDoiPrefix(doi));
  }

  /** Formatting twice is formatting once. */
  lemma FormatDoiUrlIdempotent(doi: string)
    ensures FormatDoiUrl(FormatDoiUrl(doi)) == FormatDoiUrl(doi)
  {
    if doi != [] {
      FormatDoiUrlCleansBack(doi);
    }
  }

  /** A formatted URL is a valid DOI exactly when the input was. */
  lemma FormatDoiUrlPreservesValidity(doi: string)
    ensures IsValidDoi(FormatDoiUrl(doi)) == IsValidDoi(doi)
  {
    if doi != [] {
      FormatDoiUrlCleansBack(doi);
    }
  }

  // ---------------------------------------------------------------------------
  // extractDOI
  // ---------------------------------------------------------------------------

  /** The four patterns, tried in this order. */
  datatype DoiPattern =
    | DoiColon      // /doi:\s*(10\.\d{4,}\/[^\s]+)/i
    | DoiOrgUrl     // /https?:\/\/doi\.org\/(10\.\d{4,}\/[^\s]+)/i
    | DoiColonUpper // /DOI:\s*(10\.\d{4,}\/[^\s]+)/i
    | PlainDoi      // /\b(10\.\d{4,}\/[^\s]+)\b/

  const Patterns: seq<DoiPattern> := [DoiColon, DoiOrgUrl, DoiColonUpper, PlainDoi]

  /** A DOI capture that is well formed: the prefix shape followed by non-whitespace. */
  predicate WellFormedCapture(s: string, start: nat, end: nat)
  {
    start <= end <= |s| && NoSpace(s[start..end]) &&
    exists n :: 4 <= n && 4 + n < end - start && DoiPrefixShape(s[start..end], n)
  }

  lemma PrefixShapeOfSlice(s: string, start: nat, e: nat, end: nat)
    requires start + 4 <= e < end <= |s| && DoiPrefixShape(s[start..], e - start - 4)
    ensures DoiPrefixShape(s[start..end], e - start - 4)
  {
    assert s[start..end][..3] == s[start..][..3];
  }

  /** The greedy capture `10\.\d{4,}\/[^\s]+` at index `k`: its end index (`CaptureEndSpec` states what it finds). */
  function CaptureEnd(s: string, k: nat): (r: Option<nat>)
    requires k <= |s|
    ensures r.Some? ==> k + 8 < r.value <= |s|
  {
    match DoiPrefixEnd(s, k)
    case Some(e) =>
      var run := NonSpaceRun(s, e);
      if run == 0 then None else Some(e + run)
    case None => None
  }

  function IsWordAt(s: string, q: int): bool
  {
    0 <= q < |s| && IsWordChar(s[q])
  }

  /** `\b` at index `p`: a word character on exactly one side. */
  function Boundary(s: string, p: int): bool
  {
    IsWordAt(s, p - 1) != IsWordAt(s, p)
  }

  /** Backtracking `[^\s]+` before a final `\b`: the largest `p` in `[lo, hi]` at a word boundary. */
  function LastBoundary(s: string, lo: nat, hi: nat): (r: Option<nat>)
    ensures r.Some? ==> lo <= r.value <= hi && Boundary(s, r.value)
    decreases hi
  {
    if hi < lo then None
    else if Boundary(s, hi) then Some(hi)
    else if hi == 0 then None
    else LastBoundary(s, lo, hi - 1)
  }

  /** A boundary in `[lo, hi]` with none after it is what `LastBoundary` finds. */
  lemma {:induction false} LastBoundaryIs(s: string, lo: nat, hi: nat, b: nat)
    requires lo <= b <= hi && Boundary(s, b)
    requires forall p :: b < p <= hi ==> !Boundary(s, p)
    ensures LastBoundary(s, lo, hi) == Some(b)
    decreases hi
  {
    if hi != b {
      LastBoundaryIs(s, lo, hi - 1, b);
    }
  }

  /** `LastBoundary` finds the largest boundary in `[lo, hi]`, and none means there is none. */
  lemma {:induction false} LastBoundaryLargest(s: string, lo: nat, hi: nat)
    ensures LastBoundary(s, lo, hi).Some? ==> forall p :: LastBoundary(s, lo, hi).value < p <= hi ==> !Boundary(s, p)
    ensures LastBoundary(s, lo, hi).None? ==> forall p :: lo <= p <= hi ==> !Boundary(s, p)
    decreases hi
  {
    if lo <= hi && !Boundary(s, hi) && hi != 0 {
      LastBoundaryLargest(s, lo, hi - 1);
    }
  }

  /** Match of one pattern at index `i` of `s`: the bounds of its capture group. */
  function MatchAt(p: DoiPattern, s: string, i: nat): (r: Option<(nat, nat)>)
    requires i <= |s|
    ensures r.Some? ==> i <= r.value.0 < r.value.1 <= |s|
  {
    match p
    case DoiColon => ColonMatch(s, i, "doi:")
    case DoiColonUpper => ColonMatch(s, i, "DOI:")
    case DoiOrgUrl => UrlMatch(s, i)
    case PlainDoi => PlainMatch(s, i)
  }

  /** `https?:\/\/doi\.org\/` (without regard to case) then a capture. */
  function UrlMatch(s: string, i: nat): (r: Option<(nat, nat)>)
    requires i <= |s|
    ensures r.Some? ==> i + 15 <= r.value.0 < r.value.1 <= |s|
  {
    if !StartsWithIgnoreCase(s[i..], "http") then None
    else
      var j := if i + 4 < |s| && Lower(s[i + 4]) == 's' then i + 5 else i + 4;
      if !StartsWithIgnoreCase(s[j..], "://doi.org/") then None
      else
        var e := CaptureEnd(s, j + 11);
        if e.Some? then Some((j + 11, e.value)) else None
  }

  /**
   * `\b(10\.\d{4,}\/[^\s]+)\b`: the DOI must not follow a word character, and the greedy
   * non-whitespace run gives back characters until it ends at a word boundary.
   */
  function PlainMatch(s: string, i: nat): (r: Option<(nat, nat)>)
    requires i <= |s|
    ensures r.Some? ==> r.value.0 == i < r.value.1 <= |s|
  {
    if i > 0 && IsWordChar(s[i - 1]) then None
    else
      var pe := DoiPrefixEnd(s, i);
      if pe.None? then None
      else
        var q := PlainEnd(s, pe.value);
        if q.None? then None else Some((i, q.value))
  }

  /** After the prefix ends at `e`: the non-whitespace run, cut back to its last word boundary. */
  function PlainEnd(s: string, e: nat): (r: Option<nat>)
    requires e <= |s|
    ensures r.Some? ==> e < r.value <= |s|
  {
    var run := NonSpaceRun(s, e);
    if run == 0 then None else LastBoundary(s, e + 1, e + run)
  }

  /** Cutting a well-formed capture back to a point past its `/` keeps it well formed. */
  lemma PlainCaptureWellFormed(s: string, i: nat, e: nat, end: nat, q: nat)
    requires i <= |s| && DoiPrefixEnd(s, i) == Some(e) && end == e + NonSpaceRun(s, e)
    requires e < q <= end
    ensures WellFormedCapture(s, i, q)
  {
    var n := e - i - 4;
    DoiPrefixEndShape(s, i);
    PrefixShapeOfSlice(s, i, e, q);
    PrefixNoSpace(s[i..], n);
    forall j | 0 <= j < q - i
      ensures !IsSpace(s[i..q][j])
    {
      assert s[i..q][j] == s[i + j];
      if i + j < e {
        assert s[i + j] == s[i..][j];
      }
    }
  }

  /** None of the characters of `10.<digits>/` is whitespace. */
  lemma PrefixNoSpace(d: string, n: nat)
    requires DoiPrefixShape(d, n)
    ensures forall k :: 0 <= k < 4 + n ==> !IsSpace(d[k])
  {
    forall k | 0 <= k < 4 + n
      ensures !IsSpace(d[k])
    {
      if k < 3 {
        assert d[k] == d[..3][k];
      }
    }
  }

  /** `<marker>\s*` then a capture, the marker compared without regard to case. */
  function ColonMatch(s: string, i: nat, marker: string): (r: Option<(nat, nat)>)
    requires i <= |s| && |marker| == 4
    ensures r.Some? ==> i + 4 <= r.value.0 < r.value.1 <= |s|
  {
    if !StartsWithIgnoreCase(s[i..], marker) then None
    else
      var k := i + 4 + SpaceRun(s, i + 4);
      match CaptureEnd(s, k)
      case Some(e) => Some((k, e))
      case None => None
  }

  /** Both colon patterns fold case, so `DOI:` matches exactly where `doi:` does. */
  lemma ColonPatternsAgree(s: string, i: nat)
    requires i <= |s|
    ensures MatchAt(DoiColonUpper, s, i) == MatchAt(DoiColon, s, i)
  {
    assert forall k :: 0 <= k < 4 ==> Lower("DOI:"[k]) == Lower("doi:"[k]);
  }

  /** The result of one pattern at every index of `s`, `0` to `|s|`. */
  function Attempts(p: DoiPattern, s: string): (r: seq<Option<(nat, nat)>>)
    ensures |r| == |s| + 1
    ensures forall i :: 0 <= i <= |s| ==> r[i] == MatchAt(p, s, i)
  {
    seq(|s| + 1, i requires 0 <= i <= |s| => MatchAt(p, s, i))
  }

  /** Index of the first successful attempt at or after `from`. */
  function FirstSome(ms: seq<Option<(nat, nat)>>, from: nat): (r: Option<nat>)
    ensures r.Some? ==> from <= r.value < |ms| && ms[r.value].Some?
    ensures r.Some? ==> forall i :: from <= i < r.value ==> ms[i].None?
    ensures r.None? ==> forall i :: from <= i < |ms| ==> ms[i].None?
    decreases |ms| - from
  {
    if from >= |ms| then None
    else if ms[from].Some? then Some(from)
    else FirstSome(ms, from + 1)
  }

  /** Index of the leftmost match of one pattern at or after `from` (where `text.match(pattern)` finds it). */
  function FirstMatchAt(p: DoiPattern, s: string, from: nat): (r: Option<nat>)
    requires from <= |s| + 1
    ensures r.Some? ==> from <= r.value <= |s| && MatchAt(p, s, r.value).Some?
    ensures r.Some? ==> forall i :: from <= i < r.value ==> MatchAt(p, s, i).None?
    ensures r.None? ==> forall i :: from <= i <= |s| ==> MatchAt(p, s, i).None?
  {
    FirstSome(Attempts(p, s), from)
  }

  /** The capture of the first pattern, in order, that matches somewhere, taken at its leftmost match. */
  function FirstPatternMatch(s: string, ps: seq<DoiPattern>): (r: Option<string>)
    ensures r.Some? ==> exists n :: 4 <= n && 4 + n < |r.value| && DoiPrefixShape(r.value, n)
    ensures r.Some? ==> NoSpace(r.value)
    ensures r.None? <==> forall k, i :: 0 <= k < |ps| && 0 <= i <= |s| ==> MatchAt(ps[k], s, i).None?
  {
    if ps == [] then None
    else
      var at := FirstMatchAt(ps[0], s, 0);
      if at.Some? then
        var m := MatchAt(ps[0], s, at.value).value;
        MatchAtSound(ps[0], s, at.value);
        Some(s[m.0..m.1])
      else
        var r := FirstPatternMatch(s, ps[1..]);
        assert forall k :: 1 <= k < |ps| ==> ps[k] == ps[1..][k - 1];
        r
  }

  const TrailingPunctuation: set<char> := {'.', ',', ';', ':', '!', '?'}

  /** `doi.replace(/[.,;:!?]$/, '')`: at most one trailing punctuation character is dropped. */
  function DropTrailingPunctuation(d: string): (r: string)
    ensures r == d || (d != [] && d[|d| - 1] in TrailingPunctuation && r == d[..|d| - 1])
    ensures d != [] && d[|d| - 1] in TrailingPunctuation ==> r == d[..|d| - 1]
  {
    if d != [] && d[|d| - 1] in TrailingPunctuation then d[..|d| - 1] else d
  }

  lemma DropKeepsNoSpace(c: string)
    requires NoSpace(c)
    ensures NoSpace(DropTrailingPunctuation(c))
  {
  }

  lemma DropKeepsPrefixShape(c: string, n: nat)
    requires 4 + n < |c| && DoiPrefixShape(c, n)
    ensures DoiPrefixShape(DropTrailingPunctuation(c), n)
  {
    if c[|c| - 1] in TrailingPunctuation {
      PrefixShapeOfPrefix(c, n, |c| - 1);
    }
  }

  /** Trimming and dropping trailing punctuation keep a capture's DOI prefix and its lack of whitespace. */
  lemma TidyCapture(c: string, n: nat)
    requires NoSpace(c) && 4 + n < |c| && DoiPrefixShape(c, n)
    ensures var d := DropTrailingPunctuation(Trim(c)); NoSpace(d) && DoiPrefixShape(d, n)
  {
    TrimNoSpace(c);
    DropKeepsNoSpace(c);
    DropKeepsPrefixShape(c, n);
  }

  lemma PrefixShapeOfPrefix(c: string, n: nat, len: nat)
    requires DoiPrefixShape(c, n) && 4 + n <= len <= |c|
    ensures DoiPrefixShape(c[..len], n)
  {
    assert c[..len][..3] == c[..3];
  }

  /** `extractDOI`; `None` stands for `null`. */
  function ExtractDoi(text: string): (r: Option<string>)
    ensures text == [] ==> r.None?
    ensures r.Some? ==> NoSpace(r.value) && exists n :: 4 <= n && DoiPrefixShape(r.value, n)
  {
    if text == [] then None
    else
      var c := FirstPatternMatch(text, Patterns);
      if c.None? then None
      else
        var n :| 4 <= n && 4 + n < |c.value| && DoiPrefixShape(c.value, n);
        TidyCapture(c.value, n);
        Some(DropTrailingPunctuation(Trim(c.value)))
  }

  /** No match of any pattern anywhere is exactly when nothing is extracted from non-empty text. */
  lemma ExtractDoiNone(text: string)
    requires text != []
    ensures ExtractDoi(text).None? <==>
            forall k, i :: 0 <= k < |Patterns| && 0 <= i <= |text| ==> MatchAt(Patterns[k], text, i).None?
  {
  }

  // ---------------------------------------------------------------------------
  // What each pattern matches, stated without the scanning
  // ---------------------------------------------------------------------------

  /** A capture that `[^\s]+` cannot extend: well formed and followed by whitespace or the end. */
  predicate GreedyCapture(s: string, start: nat, end: nat)
  {
    WellFormedCapture(s, start, end) && (end == |s| || IsSpace(s[end]))
  }

  /** A capture starts with `1`, which is neither whitespace nor a non-word character. */
  lemma CaptureStartsWithOne(s: string, start: nat, end: nat)
    requires WellFormedCapture(s, start, end)
    ensures start < |s| && s[start] == '1'
  {
    var n :| 4 <= n && 4 + n < end - start && DoiPrefixShape(s[start..end], n);
    assert s[start..end][..3][0] == s[start];
  }

  lemma PrefixShapeOfExtension(s: string, start: nat, end: nat, n: nat)
    requires start <= end <= |s| && DoiPrefixShape(s[start..end], n)
    ensures DoiPrefixShape(s[start..], n)
  {
    assert s[start..][..3] == s[start..end][..3];
    forall k | 3 <= k <= 3 + n
      ensures s[start..][k] == s[start..end][k]
    {
    }
  }

  /**
   * Once the prefix `10.<digits>/` at `i` ends at `e`, the well-formed captures from `i` are
   * exactly those that end past `e` and within the non-whitespace run that follows it.
   */
  lemma WellFormedCaptureIs(s: string, i: nat, q: nat)
    requires i <= |s|
    ensures WellFormedCapture(s, i, q) <==>
              DoiPrefixEnd(s, i).Some? && DoiPrefixEnd(s, i).value < q <=
              DoiPrefixEnd(s, i).value + NonSpaceRun(s, DoiPrefixEnd(s, i).value)
  {
    if WellFormedCapture(s, i, q) {
      WellFormedCaptureBounded(s, i, q);
    }
    if DoiPrefixEnd(s, i).Some? {
      var e := DoiPrefixEnd(s, i).value;
      if e < q <= e + NonSpaceRun(s, e) {
        PlainCaptureWellFormed(s, i, e, e + NonSpaceRun(s, e), q);
      }
    }
  }

  lemma WellFormedCaptureBounded(s: string, i: nat, q: nat)
    requires i <= |s| && WellFormedCapture(s, i, q)
    ensures DoiPrefixEnd(s, i).Some? && DoiPrefixEnd(s, i).value < q <=
            DoiPrefixEnd(s, i).value + NonSpaceRun(s, DoiPrefixEnd(s, i).value)
  {
    var n :| 4 <= n && 4 + n < q - i && DoiPrefixShape(s[i..q], n);
    PrefixShapeOfExtension(s, i, q, n);
    DoiPrefixEndShape(s, i);
    var e := DoiPrefixEnd(s, i).value;
    PrefixShapeUnique(s[i..], n, e - i - 4);
    var run := NonSpaceRun(s, e);
    forall k | e <= k < q
      ensures !IsSpace(s[k])
    {
      assert s[k] == s[i..q][k - i];
    }
  }

  /** `CaptureEnd` finds exactly the greedy capture at `k`, and finds one whenever there is one. */
  lemma CaptureEndSpec(s: string, k: nat, b: nat)
    requires k <= |s|
    ensures CaptureEnd(s, k) == Some(b) <==> GreedyCapture(s, k, b)
  {
    WellFormedCaptureIs(s, k, b);
  }

  /** `<marker>\s*` at `i` (without regard to case), then a greedy capture from `a` to `b`. */
  predicate ColonSpec(s: string, i: nat, marker: string, a: nat, b: nat)
  {
    i <= |s| && StartsWithIgnoreCase(s[i..], marker) && i + |marker| <= a <= |s| &&
    (forall k :: i + |marker| <= k < a ==> IsSpace(s[k])) && GreedyCapture(s, a, b)
  }

  /** `ColonMatch` matches exactly what its regular expression matches. */
  lemma ColonMatchSpec(s: string, i: nat, marker: string, a: nat, b: nat)
    requires i <= |s| && |marker| == 4
    ensures ColonMatch(s, i, marker) == Some((a, b)) <==> ColonSpec(s, i, marker, a, b)
  {
    if ColonMatch(s, i, marker) == Some((a, b)) {
      ColonMatchSound(s, i, marker);
    }
    if ColonSpec(s, i, marker, a, b) {
      ColonSpecFound(s, i, marker, a, b);
    }
  }

  lemma ColonMatchSound(s: string, i: nat, marker: string)
    requires i <= |s| && |marker| == 4 && ColonMatch(s, i, marker).Some?
    ensures ColonSpec(s, i, marker, ColonMatch(s, i, marker).value.0, ColonMatch(s, i, marker).value.1)
  {
    var k := i + 4 + SpaceRun(s, i + 4);
    var b := CaptureEnd(s, k).value;
    assert ColonMatch(s, i, marker) == Some((k, b));
    CaptureEndSpec(s, k, b);
  }

  /** `\s*` cannot stop short of the capture, whose first character is not whitespace. */
  lemma ColonSpecFound(s: string, i: nat, marker: string, a: nat, b: nat)
    requires |marker| == 4 && ColonSpec(s, i, marker, a, b)
    ensures ColonMatch(s, i, marker) == Some((a, b))
  {
    CaptureStartsWithOne(s, a, b);
    SpaceRunIs(s, i + 4, a - i - 4);
    CaptureEndSpec(s, a, b);
    var k := i + 4 + SpaceRun(s, i + 4);
    assert k == a && CaptureEnd(s, k) == Some(b);
  }

  /** `https?:\/\/doi\.org\/` at `i` (without regard to case), then a greedy capture from `a` to `b`. */
  predicate UrlSpec(s: string, i: nat, a: nat, b: nat)
  {
    i <= |s| &&
    ((StartsWithIgnoreCase(s[i..], "http://doi.org/") && a == i + 15) ||
     (StartsWithIgnoreCase(s[i..], "https://doi.org/") && a == i + 16)) &&
    GreedyCapture(s, a, b)
  }

  /** A case-insensitive prefix test of `p + q` is one of `p` and then one of `q`. */
  lemma IgnoreCaseSplit(s: string, i: nat, p: string, q: string)
    requires i <= |s|
    ensures StartsWithIgnoreCase(s[i..], p + q) <==>
              StartsWithIgnoreCase(s[i..], p) && i + |p| <= |s| && StartsWithIgnoreCase(s[i + |p|..], q)
  {
    var t := s[i..];
    if StartsWithIgnoreCase(t, p + q) {
      forall k | 0 <= k < |p|
        ensures Lower(t[k]) == Lower(p[k])
      {
        assert (p + q)[k] == p[k];
      }
      forall k | 0 <= k < |q|
        ensures Lower(s[i + |p|..][k]) == Lower(q[k])
      {
        assert s[i + |p|..][k] == t[|p| + k] && (p + q)[|p| + k] == q[k];
      }
    }
    if StartsWithIgnoreCase(t, p) && i + |p| <= |s| && StartsWithIgnoreCase(s[i + |p|..], q) {
      forall k | 0 <= k < |p + q|
        ensures Lower(t[k]) == Lower((p + q)[k])
      {
        if k >= |p| {
          assert t[k] == s[i + |p|..][k - |p|];
        }
      }
    }
  }

  /** `UrlMatch` matches exactly what its regular expression matches: `https?` never needs to give back its `s`. */
  lemma UrlMatchSpec(s: string, i: nat, a: nat, b: nat)
    requires i <= |s|
    ensures UrlMatch(s, i) == Some((a, b)) <==> UrlSpec(s, i, a, b)
  {
    UrlPrefixes(s, i);
    if a <= |s| {
      CaptureEndSpec(s, a, b);
    }
  }

  /** The two spellings of the doi.org prefix, as `UrlMatch` tests them. */
  lemma UrlPrefixes(s: string, i: nat)
    requires i <= |s|
    ensures StartsWithIgnoreCase(s[i..], "http://doi.org/") <==>
              StartsWithIgnoreCase(s[i..], "http") && i + 4 <= |s| && StartsWithIgnoreCase(s[i + 4..], "://doi.org/")
    ensures StartsWithIgnoreCase(s[i..], "https://doi.org/") <==>
              StartsWithIgnoreCase(s[i..], "http") && i + 4 < |s| && Lower(s[i + 4]) == 's' &&
              StartsWithIgnoreCase(s[i + 5..], "://doi.org/")
  {
    IgnoreCaseSplit(s, i, "http", "://doi.org/");
    IgnoreCaseSplit(s, i, "https", "://doi.org/");
    IgnoreCaseSplit(s, i, "http", "s");
    assert "http" + "://doi.org/" == "http://doi.org/";
    assert "https" + "://doi.org/" == "https://doi.org/";
    assert "http" + "s" == "https";
    if i + 4 < |s| {
      assert s[i + 4..][0] == s[i + 4];
    }
  }

  /**
   * `\b(10\.\d{4,}\/[^\s]+)\b` at `i`: a word boundary before the capture, one after it, and
   * no longer capture from `i` that ends at a boundary, since the greedy run gives back as
   * few characters as it can.
   */
  predicate PlainSpec(s: string, i: nat, a: nat, b: nat)
  {
    a == i && Boundary(s, i) && WellFormedCapture(s, i, b) && Boundary(s, b) &&
    forall q :: b < q <= |s| && WellFormedCapture(s, i, q) ==> !Boundary(s, q)
  }

  /** `PlainMatch` matches exactly what its regular expression matches. */
  lemma PlainMatchSpec(s: string, i: nat, a: nat, b: nat)
    requires i <= |s|
    ensures PlainMatch(s, i) == Some((a, b)) <==> PlainSpec(s, i, a, b)
  {
    if PlainMatch(s, i) == Some((a, b)) {
      PlainMatchSound(s, i, b);
    }
    if PlainSpec(s, i, a, b) {
      PlainSpecFound(s, i, b);
    }
  }

  lemma PlainMatchSound(s: string, i: nat, b: nat)
    requires i <= |s| && PlainMatch(s, i).Some? && PlainMatch(s, i).value.1 == b
    ensures PlainSpec(s, i, i, b)
  {
    var e := DoiPrefixEnd(s, i).value;
    assert PlainEnd(s, e) == Some(b);
    PlainNoLaterBoundary(s, i, e, b);
    WellFormedCaptureIs(s, i, b);
    CaptureStartsWithOne(s, i, b);
  }

  /** Past the last boundary of the run, no longer well-formed capture ends at a boundary. */
  lemma PlainNoLaterBoundary(s: string, i: nat, e: nat, b: nat)
    requires i <= |s| && DoiPrefixEnd(s, i) == Some(e) && PlainEnd(s, e) == Some(b)
    ensures forall q :: b < q <= |s| && WellFormedCapture(s, i, q) ==> !Boundary(s, q)
  {
    var run := NonSpaceRun(s, e);
    LastBoundaryLargest(s, e + 1, e + run);
    forall q | b < q <= |s| && WellFormedCapture(s, i, q)
      ensures !Boundary(s, q)
    {
      WellFormedCaptureIs(s, i, q);
    }
  }

  /** The last boundary within the run is the end the specification describes. */
  lemma PlainSpecFound(s: string, i: nat, b: nat)
    requires i <= |s| && PlainSpec(s, i, i, b)
    ensures PlainMatch(s, i) == Some((i, b))
  {
    CaptureStartsWithOne(s, i, b);
    WellFormedCaptureIs(s, i, b);
    var e := DoiPrefixEnd(s, i).value;
    var run := NonSpaceRun(s, e);
    forall p | b < p <= e + run
      ensures !Boundary(s, p)
    {
      WellFormedCaptureIs(s, i, p);
    }
    LastBoundaryIs(s, e + 1, e + run, b);
    assert !(i > 0 && IsWordChar(s[i - 1]));
    assert PlainEnd(s, e) == Some(b);
  }

  /** What each of the four regular expressions matches at index `i`, as capture bounds. */
  predicate MatchSpec(p: DoiPattern, s: string, i: nat, a: nat, b: nat)
  {
    match p
    case DoiColon => ColonSpec(s, i, "doi:", a, b)
    case DoiColonUpper => ColonSpec(s, i, "DOI:", a, b)
    case DoiOrgUrl => UrlSpec(s, i, a, b)
    case PlainDoi => PlainSpec(s, i, a, b)
  }

  /** The scanning matcher of each pattern finds exactly the regular expression's capture. */
  lemma MatchAtSpec(p: DoiPattern, s: string, i: nat, a: nat, b: nat)
    requires i <= |s|
    ensures MatchAt(p, s, i) == Some((a, b)) <==> MatchSpec(p, s, i, a, b)
  {
    match p
    case DoiColon => ColonMatchSpec(s, i, "doi:", a, b);
    case DoiColonUpper => ColonMatchSpec(s, i, "DOI:", a, b);
    case DoiOrgUrl => UrlMatchSpec(s, i, a, b);
    case PlainDoi => PlainMatchSpec(s, i, a, b);
  }

  /** Every match of every pattern is a well-formed DOI capture. */
  lemma MatchAtSound(p: DoiPattern, s: string, i: nat)
    requires i <= |s| && MatchAt(p, s, i).Some?
    ensures WellFormedCapture(s, MatchAt(p, s, i).value.0, MatchAt(p, s, i).value.1)
  {
    var m := MatchAt(p, s, i).value;
    MatchAtSpec(p, s, i, m.0, m.1);
  }

  // ---------------------------------------------------------------------------
  // Which DOI extractDOI returns
  // ---------------------------------------------------------------------------

  /**
   * The capture `FirstPatternMatch` returns: that of pattern `k` at its leftmost match `i`,
   * when the patterns before it find nothing.
   */
  lemma {:induction false} FirstPatternMatchIs(s: string, ps: seq<DoiPattern>, k: nat, i: nat)
    requires k < |ps| && FirstMatchAt(ps[k], s, 0) == Some(i)
    requires FirstPatternMatch(s, ps[..k]).None?
    ensures MatchAt(ps[k], s, i).Some?
    ensures var m := MatchAt(ps[k], s, i).value; FirstPatternMatch(s, ps) == Some(s[m.0..m.1])
  {
    FirstPatternMatchUnfold(s, ps);
    if k > 0 {
      var rest := ps[1..];
      assert rest[k - 1] == ps[k];
      FirstPatternMatchUnfold(s, ps[..k]);
      assert ps[..k][0] == ps[0] && ps[..k][1..] == rest[..k - 1];
      FirstPatternMatchIs(s, rest, k - 1, i);
    }
  }

  lemma FirstPatternMatchUnfold(s: string, ps: seq<DoiPattern>)
    requires ps != []
    ensures var at := FirstMatchAt(ps[0], s, 0);
            FirstPatternMatch(s, ps) ==
              if at.Some? then Some(s[MatchAt(ps[0], s, at.value).value.0..MatchAt(ps[0], s, at.value).value.1])
              else FirstPatternMatch(s, ps[1..])
  {
  }

  /** The leftmost match of one pattern is where it matches first. */
  lemma FirstMatchAtIs(p: DoiPattern, s: string, i: nat)
    requires i <= |s| && MatchAt(p, s, i).Some?
    requires forall j :: 0 <= j < i ==> MatchAt(p, s, j).None?
    ensures FirstMatchAt(p, s, 0) == Some(i)
  {
  }

  lemma FirstMatchAtNone(p: DoiPattern, s: string)
    requires forall j :: 0 <= j <= |s| ==> MatchAt(p, s, j).None?
    ensures FirstMatchAt(p, s, 0).None?
  {
  }

  /**
   * `extractDOI` returns the capture of the first pattern that matches, at its leftmost
   * match, with at most one trailing punctuation character dropped (trimming changes nothing).
   */
  lemma ExtractDoiIs(text: string, k: nat, i: nat)
    requires text != [] && k < |Patterns| && i <= |text| && MatchAt(Patterns[k], text, i).Some?
    requires forall j :: 0 <= j < i ==> MatchAt(Patterns[k], text, j).None?
    requires forall l, j :: 0 <= l < k && 0 <= j <= |text| ==> MatchAt(Patterns[l], text, j).None?
    ensures var m := MatchAt(Patterns[k], text, i).value;
            ExtractDoi(text) == Some(DropTrailingPunctuation(text[m.0..m.1]))
  {
    FirstMatchAtIs(Patterns[k], text, i);
    var before := Patterns[..k];
    assert forall l :: 0 <= l < k ==> before[l] == Patterns[l];
    assert FirstPatternMatch(text, before).None?;
    FirstPatternMatchIs(text, Patterns, k, i);
    var m := MatchAt(Patterns[k], text, i).value;
    TrimNoSpace(text[m.0..m.1]);
  }

  /** A string with the DOI syntax is a well-formed capture of itself. */
  lemma DoiSyntaxIsCapture(d: string)
    requires IsDoiSyntax(d)
    ensures WellFormedCapture(d, 0, |d|)
  {
    var n :| 4 <= n < |d| && DoiPrefixShape(d, n) && 4 + n < |d| && NoSpace(d[4 + n..]);
    assert d[0..|d|] == d;
    forall k | 0 <= k < |d|
      ensures !IsSpace(d[k])
    {
      if k < 3 {
        assert d[..3][k] == d[k];
      } else if k >= 4 + n {
        assert d[4 + n..][k - 4 - n] == d[k];
      }
    }
  }

  /** The first three patterns need a colon in the text. */
  lemma NonPlainMatchHasColon(p: DoiPattern, s: string, i: nat)
    requires i <= |s| && p != PlainDoi && MatchAt(p, s, i).Some?
    ensures ':' in s
  {
    match p
    case DoiColon =>
      assert s[i..][3] == s[i + 3];
      assert s[i + 3] in s;
    case DoiColonUpper =>
      assert s[i..][3] == s[i + 3];
      assert s[i + 3] in s;
    case DoiOrgUrl =>
      var j := if i + 4 < |s| && Lower(s[i + 4]) == 's' then i + 5 else i + 4;
      assert s[j..][0] == s[j];
      assert s[j] in s;
  }

  /** A DOI written after `doi: ` is found as written, unless it ends in punctuation. */
  lemma LabelledDoiFound(d: string)
    requires IsDoiSyntax(d) && d[|d| - 1] !in TrailingPunctuation
    ensures ExtractDoi("doi: " + d) == Some(d)
  {
    var t := "doi: " + d;
    LabelledColonSpec(d);
    ColonMatchSpec(t, 0, "doi:", 5, |t|);
    assert MatchAt(Patterns[0], t, 0) == Some((5, |t|));
    ExtractDoiIs(t, 0, 0);
    assert t[5..|t|] == d;
    assert DropTrailingPunctuation(d) == d;
  }

  lemma LabelledColonSpec(d: string)
    requires IsDoiSyntax(d)
    ensures ColonSpec("doi: " + d, 0, "doi:", 5, |d| + 5)
  {
    var t := "doi: " + d;
    DoiSyntaxIsCapture(d);
    assert t[5..|t|] == d && d[0..|d|] == d;
    assert t[0..] == t;
  }

  /** A DOI standing alone, without a colon and ending in a word character, is found as written. */
  lemma BareDoiFound(d: string)
    requires IsDoiSyntax(d) && ':' !in d && IsWordChar(d[|d| - 1])
    ensures ExtractDoi(d) == Some(d)
  {
    assert DropTrailingPunctuation(d) == d;
    BareDoiCaptured(d);
  }

  lemma BareDoiCaptured(d: string)
    requires IsDoiSyntax(d) && ':' !in d && IsWordChar(d[|d| - 1])
    ensures ExtractDoi(d) == Some(DropTrailingPunctuation(d))
  {
    NoColonNoLabel(d);
    BarePlainMatch(d);
    ExtractDoiIs(d, 3, 0);
    assert d[0..|d|] == d;
  }

  /** Without a colon, none of the first three patterns matches anywhere. */
  lemma NoColonNoLabel(d: string)
    requires ':' !in d
    ensures forall l, j :: 0 <= l < 3 && 0 <= j <= |d| ==> MatchAt(Patterns[l], d, j).None?
  {
    forall l, j | 0 <= l < 3 && 0 <= j <= |d|
      ensures MatchAt(Patterns[l], d, j).None?
    {
      if MatchAt(Patterns[l], d, j).Some? {
        NonPlainMatchHasColon(Patterns[l], d, j);
      }
    }
  }

  /** The plain pattern takes the whole of a DOI that ends in a word character. */
  lemma BarePlainMatch(d: string)
    requires IsDoiSyntax(d) && IsWordChar(d[|d| - 1])
    ensures MatchAt(Patterns[3], d, 0) == Some((0, |d|))
  {
    DoiSyntaxIsCapture(d);
    CaptureStartsWithOne(d, 0, |d|);
    assert PlainSpec(d, 0, 0, |d|);
    PlainMatchSpec(d, 0, 0, |d|);
  }

  // ---------------------------------------------------------------------------
  // lookupDOI: the mapping of a CrossRef work record, generateCitationKey
  // ---------------------------------------------------------------------------

  /** A CrossRef contributor; an absent `given` or `family` is the empty string. */
  datatype Person = Person(given: string, family: string)

  /**
   * The fields of a CrossRef `message` the mapping reads. Absent strings are empty, absent
   * lists are empty; `dateParts` is `published["date-parts"][0]`.
   */
  datatype WorkRecord = WorkRecord(
    title: seq<string>,
    author: seq<Person>,
    editor: seq<Person>,
    dateParts: seq<int>,
    containerTitle: seq<string>,
    abstractText: string,
    workType: string,
    volume: string,
    issue: string,
    page: string,
    articleNumber: string,
    publisher: string,
    isbn: seq<string>,
    issn: seq<string>,
    url: string,
    edition: string)

  /** What the registry answered: a non-ok status, a body (with or without `message`), or a failure to read it. */
  datatype RegistryResponse =
    | HttpFailure(status: int)
    | Body(message: Option<WorkRecord>)
    | Unreadable

  /** The metadata object `lookupDOI` resolves to. */
  datatype DoiMetadata = DoiMetadata(
    doi: string,
    title: string,
    authors: seq<string>,
    year: int,
    month: Option<int>,
    journal: string,
    abstractText: string,
    refType: string,
    volume: string,
    issue: string,
    pages: string,
    articleNumber: string,
    publisher: string,
    isbn: string,
    issn: string,
    url: string,
    editors: seq<string>,
    series: string,
    edition: string,
    citationKey: string,
    source: string)

  /** The reference types of the library. */
  const ReferenceTypes: set<string> :=
    {"Journal Article", "Conference Paper", "Book Chapter", "Book", "Thesis", "Technical Report", "Preprint"}

  /** CrossRef work type to reference type; anything outside the map becomes a journal article. */
  function ReferenceTypeOf(workType: string): (r: string)
    ensures r in ReferenceTypes
    ensures (workType !in {"journal-article", "proceedings-article", "book-chapter", "book",
                           "monograph", "posted-content", "report", "dissertation"}) ==> r == "Journal Article"
  {
    match workType
    case "journal-article" => "Journal Article"
    case "proceedings-article" => "Conference Paper"
    case "book-chapter" => "Book Chapter"
    case "book" => "Book"
    case "monograph" => "Book"
    case "posted-content" => "Preprint"
    case "report" => "Technical Report"
    case "dissertation" => "Thesis"
    case _ => "Journal Article"
  }

  /** `list?.[i] || ''` */
  function ItemOrEmpty(list: seq<string>, i: nat): string
  {
    if i < |list| then list[i] else []
  }

  /** `family ? \`${family}, ${given}\`.trim() : given` */
  function FormatName(p: Person): string
  {
    if p.family != [] then Trim(p.family + ", " + p.given) else p.given
  }

  /** A contributor formats to nothing exactly when both of its names are missing. */
  lemma FormatNameEmpty(p: Person)
    ensures FormatName(p) == [] <==> p.family == [] && p.given == []
  {
    if p.family != [] {
      var s := p.family + ", " + p.given;
      assert s[|p.family|] == ',';
      NonSpaceNotBlank(s, |p.family|);
      BlankIsTrimEmpty(s);
    }
  }

  /** The names of a contributor list, in order, with empty results dropped (`.filter(Boolean)`). */
  function FormatNames(ps: seq<Person>): (r: seq<string>)
    ensures |r| <= |ps|
    ensures ps != [] && FormatName(ps[0]) != [] ==> r != [] && r[0] == FormatName(ps[0])
  {
    if ps == [] then []
    else
      var head := FormatName(ps[0]);
      var rest := FormatNames(ps[1..]);
      if head == [] then rest else [head] + rest
  }

  /** The names kept are exactly the non-empty formatted names of the contributors. */
  lemma {:induction false} FormatNamesMembers(ps: seq<Person>)
    ensures forall x :: x in FormatNames(ps) <==> x != [] && exists j :: 0 <= j < |ps| && x == FormatName(ps[j])
  {
    if ps != [] {
      FormatNamesMembers(ps[1..]);
      FormatNamesStep(ps, FormatName(ps[0]), FormatNames(ps[1..]));
    }
  }

  lemma FormatNamesStep(ps: seq<Person>, head: string, rest: seq<string>)
    requires ps != [] && head == FormatName(ps[0])
    requires forall x :: x in rest <==> x != [] && exists j :: 0 <= j < |ps[1..]| && x == FormatName(ps[1..][j])
    ensures var r := if head == [] then rest else [head] + rest;
            forall x :: x in r <==> x != [] && exists j :: 0 <= j < |ps| && x == FormatName(ps[j])
  {
    var r := if head == [] then rest else [head] + rest;
    forall x
      ensures x in r <==> x != [] && exists j :: 0 <= j < |ps| && x == FormatName(ps[j])
    {
      if x != [] && exists j :: 0 <= j < |ps| && x == FormatName(ps[j]) {
        var j :| 0 <= j < |ps| && x == FormatName(ps[j]);
        if j > 0 {
          assert ps[1..][j - 1] == ps[j];
        }
      }
      if x in rest {
        var j :| 0 <= j < |ps[1..]| && x == FormatName(ps[1..][j]);
        assert ps[j + 1] == ps[1..][j];
      }
    }
  }

  /**
   * Formatting distributes over concatenation, and a single contributor yields its name
   * unless it is empty: the result is the non-empty names in the contributors' order, each
   * as often as it occurs.
   */
  lemma {:induction false} FormatNamesAppend(a: seq<Person>, b: seq<Person>)
    ensures FormatNames(a + b) == FormatNames(a) + FormatNames(b)
  {
    if a == [] {
      assert a + b == b;
    } else {
      var x, t := a[0], a[1..];
      assert a == [x] + t;
      assert a + b == [x] + (t + b);
      FormatNamesCons(x, t);
      FormatNamesCons(x, t + b);
      FormatNamesAppend(t, b);
      AssocNames(if FormatName(x) == [] then [] else [FormatName(x)], FormatNames(t), FormatNames(b));
    }
  }

  lemma AssocNames(x: seq<string>, y: seq<string>, z: seq<string>)
    ensures x + (y + z) == (x + y) + z
  {
  }

  lemma FormatNamesCons(p: Person, ps: seq<Person>)
    ensures FormatNames([p] + ps) == (if FormatName(p) == [] then [] else [FormatName(p)]) + FormatNames(ps)
  {
    assert ([p] + ps)[0] == p && ([p] + ps)[1..] == ps;
  }

  lemma FormatNamesSingleton(p: Person)
    ensures FormatNames([p]) == if FormatName(p) == [] then [] else [FormatName(p)]
  {
    assert [p][1..] == [];
  }

  /** When no contributor formats to nothing, the names correspond one to one, in order. */
  lemma {:induction false} FormatNamesKeepsAll(ps: seq<Person>)
    requires forall j :: 0 <= j < |ps| ==> FormatName(ps[j]) != []
    ensures |FormatNames(ps)| == |ps|
    ensures forall j :: 0 <= j < |ps| ==> FormatNames(ps)[j] == FormatName(ps[j])
  {
    if ps != [] {
      var t := ps[1..];
      FormatNamesKeepsAll(t);
      var r, rest := FormatNames(ps), FormatNames(t);
      assert r == [FormatName(ps[0])] + rest;
      forall j | 1 <= j < |ps|
        ensures r[j] == FormatName(ps[j])
      {
        assert r[j] == rest[j - 1];
        assert rest[j - 1] == FormatName(t[j - 1]);
        assert t[j - 1] == ps[j];
      }
    }
  }

  /** `published["date-parts"][0][0] || currentYear`: a missing or zero year falls back to the current one. */
  function PublishedYear(dateParts: seq<int>, currentYear: int): (y: int)
    ensures |dateParts| > 0 && dateParts[0] != 0 ==> y == dateParts[0]
    ensures (|dateParts| == 0 || dateParts[0] == 0) ==> y == currentYear
  {
    if |dateParts| > 0 && dateParts[0] != 0 then dateParts[0] else currentYear
  }

  /** `generateCitationKey`: the first author's family name reduced to letters, then the year. */
  function GenerateCitationKey(item: WorkRecord, currentYear: int): (key: string)
  {
    var lastName := if |item.author| > 0 && item.author[0].family != [] then item.author[0].family else "Unknown";
    LettersOnly(lastName) + IntToString(PublishedYear(item.dateParts, currentYear))
  }

  /**
   * The key is a letters-only stem followed by the decimal year. The stem is the letters of
   * the first author's family name, or `Unknown` when there is no first author or its family
   * name is missing (`LettersOnlyAppend` and `LettersOnlySingleton` say which letters are kept).
   */
  lemma CitationKeyShape(item: WorkRecord, currentYear: int)
    ensures var key := GenerateCitationKey(item, currentYear);
            var yearText := IntToString(PublishedYear(item.dateParts, currentYear));
            EndsWith(key, yearText) &&
            (forall k :: 0 <= k < |key| - |yearText| ==> IsLetter(key[k])) &&
            (|item.author| > 0 && item.author[0].family != [] ==>
               key == LettersOnly(item.author[0].family) + yearText) &&
            (|item.author| == 0 || item.author[0].family == [] ==> key == "Unknown" + yearText)
  {
    var yearText := IntToString(PublishedYear(item.dateParts, currentYear));
    if |item.author| == 0 || item.author[0].family == [] {
      UnknownIsLetters();
    }
    var stem := LettersOnly(if |item.author| > 0 && item.author[0].family != [] then item.author[0].family else "Unknown");
    assert GenerateCitationKey(item, currentYear) == stem + yearText;
    SuffixOfConcat(stem, yearText);
  }

  lemma UnknownIsLetters()
    ensures LettersOnly("Unknown") == "Unknown"
  {
    var u := "Unknown";
    assert forall i :: 0 <= i < |u| ==> IsLetter(u[i]);
  }

  lemma SuffixOfConcat(a: string, b: string)
    ensures EndsWith(a + b, b)
    ensures forall k :: 0 <= k < |a| ==> (a + b)[k] == a[k]
  {
    assert (a + b)[|a + b| - |b|..] == b;
  }

  /** A family name without letters gives an empty stem: the key is the year alone. */
  lemma CitationKeyWithoutLetters(item: WorkRecord, currentYear: int)
    requires |item.author| > 0 && item.author[0].family != []
    requires forall k :: 0 <= k < |item.author[0].family| ==> !IsLetter(item.author[0].family[k])
    ensures GenerateCitationKey(item, currentYear) == IntToString(PublishedYear(item.dateParts, currentYear))
  {
    LettersOnlyNoLetters(item.author[0].family);
  }

  lemma {:induction false} LettersOnlyNoLetters(s: string)
    requires forall k :: 0 <= k < |s| ==> !IsLetter(s[k])
    ensures LettersOnly(s) == []
  {
    if s != [] {
      LettersOnlyNoLetters(s[1..]);
    }
  }

  /** The metadata built from a work record (the body of `lookupDOI` after a successful read). */
  function MapWork(cleanDoi: string, item: WorkRecord, currentYear: int): (m: DoiMetadata)
    ensures m.refType in ReferenceTypes
    ensures m.url == (if item.url != [] then item.url else HttpsDoiOrg + cleanDoi)
    ensures m.doi == cleanDoi && m.source == "CrossRef (DOI)"
    ensures SingleSpaced(m.abstractText)
  {
    var dp := PublishedYear(item.dateParts, currentYear);
    DoiMetadata(
      doi := cleanDoi,
      title := ItemOrEmpty(item.title, 0),
      authors := FormatNames(item.author),
      year := dp,
      month := if |item.dateParts| > 1 && item.dateParts[1] != 0 then Some(item.dateParts[1]) else None,
      journal := ItemOrEmpty(item.containerTitle, 0),
      abstractText := CleanAbstractSingleSpaced(item.abstractText); CleanAbstract(item.abstractText),
      refType := ReferenceTypeOf(item.workType),
      volume := item.volume,
      issue := item.issue,
      pages := item.page,
      articleNumber := item.articleNumber,
      publisher := item.publisher,
      isbn := ItemOrEmpty(item.isbn, 0),
      issn := ItemOrEmpty(item.issn, 0),
      url := if item.url != [] then item.url else HttpsDoiOrg + cleanDoi,
      editors := FormatNames(item.editor),
      series := ItemOrEmpty(item.containerTitle, 1),
      edition := item.edition,
      citationKey := GenerateCitationKey(item, currentYear),
      source := "CrossRef (DOI)")
  }

  /** The DOI a lookup requests: none for a blank input, else the cleaned DOI. */
  function LookupRequest(doi: string): (r: Option<string>)
    ensures Trim(doi) == [] <==> r.None?
  {
    if Trim(doi) == [] then None else Some(CleanDoi(doi))
  }

  /** `lookupDOI`, with the registry's answer to the request as an input. */
  function LookupDoi(doi: string, response: RegistryResponse, currentYear: int): (r: Option<DoiMetadata>)
    ensures Trim(doi) == [] ==> r.None?
    ensures response.HttpFailure? || response.Unreadable? || response == Body(None) ==> r.None?
    ensures r.Some? ==> LookupRequest(doi) == Some(r.value.doi)
    ensures Trim(doi) != [] && response.Body? && response.message.Some? ==>
              r == Some(MapWork(CleanDoi(doi), response.message.value, currentYear))
  {
    match LookupRequest(doi)
    case None => None
    case Some(cleanDoi) =>
      match response
      case Body(Some(item)) => Some(MapWork(cleanDoi, item, currentYear))
      case _ => None
  }
}
