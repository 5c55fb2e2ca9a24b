/**
 * String helpers shared by the model: JavaScript's notion of whitespace (the class `\s`
 * and what `String.prototype.trim` removes), joining, prefix tests, literal replacement and
 * decimal rendering of numbers.
 */
module Text {

  /** The characters JavaScript's `\s` matches and `trim` removes: WhiteSpace plus LineTerminator. */
  predicate IsSpace(c: char)
  {
    c == ' ' || c == '\t' || c == '\n' || c == '\r' || c == '\U{B}' || c == '\U{C}' ||
    c == '\U{A0}' || c == '\U{1680}' || ('\U{2000}' <= c <= '\U{200A}') ||
    c == '\U{2028}' || c == '\U{2029}' || c == '\U{202F}' || c == '\U{205F}' ||
    c == '\U{3000}' || c == '\U{FEFF}'
  }

  predicate NoSpace(s: string)
  {
    forall i :: 0 <= i < |s| ==> !IsSpace(s[i])
  }

  /** `[0-9]`, which is what `\d` matches. */
  predicate IsDigit(c: char)
  {
    '0' <= c <= '9'
  }

  /** `[a-zA-Z]` */
  predicate IsLetter(c: char)
  {
    ('a' <= c <= 'z') || ('A' <= c <= 'Z')
  }

  /** `[A-Za-z0-9_]`, the word characters of `\b`. */
  predicate IsWordChar(c: char)
  {
    IsLetter(c) || IsDigit(c) || c == '_'
  }

  /** ASCII lower-casing; a case-insensitive JavaScript regex folds nothing else onto ASCII letters. */
  function Lower(c: char): (r: char)
    ensures IsLetter(c) ==> IsLetter(r) && 'a' <= r <= 'z'
    ensures !('A' <= c <= 'Z') ==> r == c
  {
    if 'A' <= c <= 'Z' then (c as int + 32) as char else c
  }

  predicate StartsWith(s: string, p: string)
  {
    |p| <= |s| && s[..|p|] == p
  }

  /** A string starts with whatever is put in front of it. */
  lemma PrefixStarts(p: string, rest: string)
    ensures StartsWith(p + rest, p)
  {
    assert (p + rest)[..|p|] == p;
  }

  /** `s` starts with `p` when ASCII letters are compared without regard to case. */
  predicate StartsWithIgnoreCase(s: string, p: string)
  {
    |p| <= |s| && forall i :: 0 <= i < |p| ==> Lower(s[i]) == Lower(p[i])
  }

  predicate EndsWith(s: string, p: string)
  {
    |p| <= |s| && s[|s| - |p|..] == p
  }

  /** `p` occurs in `s` starting at index `i`. */
  predicate OccursAt(s: string, p: string, i: int)
  {
    0 <= i <= |s| - |p| && s[i..i + |p|] == p
  }

  /** `s.includes(p)` */
  predicate Contains(s: string, p: string)
  {
    exists i :: 0 <= i <= |s| - |p| && OccursAt(s, p, i)
  }

  /** An occurrence in the tail is an occurrence in the whole string. */
  lemma ContainsTail(s: string, p: string)
    requires s != []
    ensures Contains(s[1..], p) ==> Contains(s, p)
  {
    if Contains(s[1..], p) {
      var i :| 0 <= i <= |s[1..]| - |p| && OccursAt(s[1..], p, i);
      assert s[i + 1..i + 1 + |p|] == s[1..][i..i + |p|];
      assert OccursAt(s, p, i + 1);
    }
  }

  function TrimStart(s: string): (r: string)
    ensures |r| <= |s| && r == s[|s| - |r|..]
    ensures r == [] || !IsSpace(r[0])
  {
    if s == [] || !IsSpace(s[0]) then s else TrimStart(s[1..])
  }

  function TrimEnd(s: string): (r: string)
    ensures |r| <= |s| && r == s[..|r|]
    ensures r == [] || !IsSpace(r[|r| - 1])
  {
    if s == [] || !IsSpace(s[|s| - 1]) then s else TrimEnd(s[..|s| - 1])
  }

  /** `s.trim()` */
  function Trim(s: string): (r: string)
    ensures |r| <= |s|
    ensures r == [] || (!IsSpace(r[0]) && !IsSpace(r[|r| - 1]))
  {
    TrimEnd(TrimStart(s))
  }

  lemma TrimStartOfTrimmed(s: string)
    requires s == [] || !IsSpace(s[0])
    ensures TrimStart(s) == s
  {
  }

  lemma TrimEndOfTrimmed(s: string)
    requires s == [] || !IsSpace(s[|s| - 1])
    ensures TrimEnd(s) == s
  {
  }

  /** Trimming twice is trimming once. */
  lemma TrimIdempotent(s: string)
    ensures Trim(Trim(s)) == Trim(s)
  {
    var t := Trim(s);
    TrimStartOfTrimmed(t);
    TrimEndOfTrimmed(t);
  }

  /** A string with no whitespace at either end is its own trim. */
  lemma TrimOfTrimmed(s: string)
    requires s == [] || (!IsSpace(s[0]) && !IsSpace(s[|s| - 1]))
    ensures Trim(s) == s
  {
    TrimStartOfTrimmed(s);
    TrimEndOfTrimmed(s);
  }

  /** A string with no whitespace at all is its own trim. */
  lemma TrimNoSpace(s: string)
    requires NoSpace(s)
    ensures Trim(s) == s
  {
    TrimStartOfTrimmed(s);
    TrimEndOfTrimmed(s);
  }

  /** Whether `s` is all whitespace, which is when `s.trim()` is empty (see `BlankIsTrimEmpty`). */
  predicate Blank(s: string)
  {
    s == [] || (IsSpace(s[0]) && Blank(s[1..]))
  }

  /** `s.trim() === ''` exactly when every character of `s` is whitespace. */
  lemma {:induction false} BlankIsTrimEmpty(s: string)
    ensures Blank(s) <==> Trim(s) == ""
  {
    if s == [] {
    } else if IsSpace(s[0]) {
      assert TrimStart(s) == TrimStart(s[1..]);
      BlankIsTrimEmpty(s[1..]);
    } else {
      TrimStartOfTrimmed(s);
      TrimEndKeepsFirst(s);
    }
  }

  /** A string holding a non-whitespace character is not blank. */
  lemma {:induction false} NonSpaceNotBlank(s: string, k: nat)
    requires k < |s| && !IsSpace(s[k])
    ensures !Blank(s)
    decreases k
  {
    if k > 0 && IsSpace(s[0]) {
      assert s[1..][k - 1] == s[k];
      NonSpaceNotBlank(s[1..], k - 1);
    }
  }

  /** Trimming the end of a string that starts with a non-space keeps that first character. */
  lemma {:induction false} TrimEndKeepsFirst(s: string)
    requires s != [] && !IsSpace(s[0])
    ensures TrimEnd(s) != []
    decreases |s|
  {
    if IsSpace(s[|s| - 1]) {
      TrimEndKeepsFirst(s[..|s| - 1]);
    }
  }

  /** `parts.join(sep)` */
  function Join(parts: seq<string>, sep: string): (r: string)
    ensures parts == [] ==> r == []
    ensures |parts| == 1 ==> r == parts[0]
  {
    if parts == [] then [] else if |parts| == 1 then parts[0] else parts[0] + sep + Join(parts[1..], sep)
  }

  /** Keeps the characters of `[a-zA-Z]`, as `s.replace(/[^a-zA-Z]/g, '')` does. */
  function LettersOnly(s: string): (r: string)
    ensures forall i :: 0 <= i < |r| ==> IsLetter(r[i])
    ensures |r| <= |s|
    ensures (forall i :: 0 <= i < |s| ==> IsLetter(s[i])) ==> r == s
  {
    if s == [] then [] else (if IsLetter(s[0]) then [s[0]] else []) + LettersOnly(s[1..])
  }

  /** Removing the non-letters of a concatenation removes them from each part: the letters keep their order. */
  lemma {:induction false} LettersOnlyAppend(a: string, b: string)
    ensures LettersOnly(a + b) == LettersOnly(a) + LettersOnly(b)
  {
    if a == [] {
      assert a + b == b;
    } else {
      assert (a + b)[0] == a[0] && (a + b)[1..] == a[1..] + b;
      LettersOnlyAppend(a[1..], b);
    }
  }

  /** A single character is kept exactly when it is a letter. */
  lemma LettersOnlySingleton(c: char)
    ensures LettersOnly([c]) == if IsLetter(c) then [c] else []
  {
    assert [c][1..] == [];
  }

  /** Removes every character of `drop`, as `s.replace(/[…]/g, '')` does for a character class. */
  function RemoveChars(s: string, drop: set<char>): (r: string)
    ensures forall i :: 0 <= i < |r| ==> r[i] !in drop
    ensures |r| <= |s|
    ensures (forall i :: 0 <= i < |s| ==> s[i] !in drop) ==> r == s
  {
    if s == [] then [] else (if s[0] in drop then [] else [s[0]]) + RemoveChars(s[1..], drop)
  }

  /** The text before the first occurrence of `c`, i.e. `s.split(c)[0]`. */
  function BeforeChar(s: string, c: char): (r: string)
    ensures StartsWith(s, r)
    ensures c !in r
    ensures |r| < |s| ==> s[|r|] == c
  {
    if s == [] || s[0] == c then [] else [s[0]] + BeforeChar(s[1..], c)
  }

  /**
   * `s.replace(new RegExp(pat, 'g'), rep)` for a literal, non-empty pattern: matches are found
   * left to right, do not overlap, and the replacement text is never rescanned.
   */
  function ReplaceAll(s: string, pat: string, rep: string): (r: string)
    requires pat != []
    ensures !Contains(s, pat) ==> r == s
    decreases |s|
  {
    if |s| < |pat| then s
    else if s[..|pat|] == pat then assert OccursAt(s, pat, 0); rep + ReplaceAll(s[|pat|..], pat, rep)
    else
      ContainsTail(s, pat);
      [s[0]] + ReplaceAll(s[1..], pat, rep)
  }

  /** A prefix without the pattern's first character passes through replacement untouched. */
  lemma {:induction false} ReplaceAllPrefixFree(a: string, b: string, pat: string, rep: string)
    requires pat != [] && pat[0] !in a
    ensures ReplaceAll(a + b, pat, rep) == a + ReplaceAll(b, pat, rep)
    decreases |a|
  {
    if a != [] {
      var s := a + b;
      assert s[0] == a[0];
      ReplaceAllSkip(s, pat, rep);
      assert s[1..] == a[1..] + b;
      ReplaceAllPrefixFree(a[1..], b, pat, rep);
      calc {
        ReplaceAll(s, pat, rep);
        [a[0]] + ReplaceAll(a[1..] + b, pat, rep);
        [a[0]] + (a[1..] + ReplaceAll(b, pat, rep));
        { assert a == [a[0]] + a[1..]; }
        a + ReplaceAll(b, pat, rep);
      }
    } else {
      assert a + b == b;
    }
  }

  /** A first character unlike the pattern's is copied, and the scan moves on. */
  lemma ReplaceAllSkip(s: string, pat: string, rep: string)
    requires pat != [] && s != [] && s[0] != pat[0]
    ensures ReplaceAll(s, pat, rep) == [s[0]] + ReplaceAll(s[1..], pat, rep)
  {
    if |s| >= |pat| {
      assert s[..|pat|][0] == s[0];
    } else {
      assert |s[1..]| < |pat|;
      assert s == [s[0]] + s[1..];
    }
  }

  /** A character that cannot start an occurrence (the next one differs from the pattern's) is copied. */
  lemma ReplaceAllSkipChar(c: char, rest: string, pat: string, rep: string)
    requires |pat| >= 2 && rest != [] && rest[0] != pat[1]
    ensures ReplaceAll([c] + rest, pat, rep) == [c] + ReplaceAll(rest, pat, rep)
  {
    var s := [c] + rest;
    if |s| >= |pat| {
      assert s[..|pat|][1] == rest[0];
    }
    assert s[1..] == rest;
  }

  /** An occurrence at the front is replaced and scanning resumes after it. */
  lemma ReplaceAllAtFront(b: string, pat: string, rep: string)
    requires pat != []
    ensures ReplaceAll(pat + b, pat, rep) == rep + ReplaceAll(b, pat, rep)
  {
    assert (pat + b)[..|pat|] == pat;
    assert (pat + b)[|pat|..] == b;
  }

  /**
   * `s.replace(pat, rep)` with a string pattern: only the first occurrence is replaced
   * (the `$`-substitution patterns of `rep` are not interpreted).
   */
  function ReplaceFirst(s: string, pat: string, rep: string): (r: string)
    requires pat != []
    ensures !Contains(s, pat) ==> r == s
    decreases |s|
  {
    if |s| < |pat| then s
    else if s[..|pat|] == pat then assert OccursAt(s, pat, 0); rep + s[|pat|..]
    else
      ContainsTail(s, pat);
      [s[0]] + ReplaceFirst(s[1..], pat, rep)
  }

  /** Where `s` has no occurrence at index 0, replacement begins in its tail. */
  lemma ReplaceFirstSkip(s: string, pat: string, rep: string)
    requires pat != [] && |pat| <= |s| && !OccursAt(s, pat, 0)
    ensures ReplaceFirst(s, pat, rep) == [s[0]] + ReplaceFirst(s[1..], pat, rep)
  {
    assert s[..|pat|] != pat;
  }

  /** Occurrences in the tail of `s` are the occurrences in `s` shifted by one. */
  lemma OccursAtTail(s: string, pat: string, j: nat)
    requires s != []
    ensures OccursAt(s[1..], pat, j) <==> OccursAt(s, pat, j + 1)
  {
    if j + 1 + |pat| <= |s| {
      assert s[1..][j..j + |pat|] == s[j + 1..j + 1 + |pat|];
    }
  }

  /** Replacing the first occurrence splits `s` at its leftmost occurrence of `pat`. */
  lemma {:induction false} ReplaceFirstAt(s: string, pat: string, rep: string, i: nat)
    requires pat != [] && OccursAt(s, pat, i)
    requires forall j :: 0 <= j < i ==> !OccursAt(s, pat, j)
    ensures ReplaceFirst(s, pat, rep) == s[..i] + rep + s[i + |pat|..]
    decreases i
  {
    if i == 0 {
      assert s[..|pat|] == pat;
    } else {
      OccursAtTail(s, pat, i - 1);
      NoEarlierOccurrenceInTail(s, pat, i);
      ReplaceFirstAt(s[1..], pat, rep, i - 1);
      ReplaceFirstCons(s, pat, rep, i);
    }
  }

  /** The step of `ReplaceFirstAt`: the split of the tail, with the head put back. */
  lemma ReplaceFirstCons(s: string, pat: string, rep: string, i: nat)
    requires pat != [] && 0 < i && i + |pat| <= |s| && !OccursAt(s, pat, 0)
    requires ReplaceFirst(s[1..], pat, rep) == s[1..][..i - 1] + rep + s[1..][i - 1 + |pat|..]
    ensures ReplaceFirst(s, pat, rep) == s[..i] + rep + s[i + |pat|..]
  {
    ReplaceFirstSkip(s, pat, rep);
    SplitAfterHead(s, rep, i, i + |pat|);
  }

  lemma NoEarlierOccurrenceInTail(s: string, pat: string, i: nat)
    requires 0 < i <= |s|
    requires forall j :: 0 <= j < i ==> !OccursAt(s, pat, j)
    ensures forall j :: 0 <= j < i - 1 ==> !OccursAt(s[1..], pat, j)
  {
    forall j | 0 <= j < i - 1
      ensures !OccursAt(s[1..], pat, j)
    {
      OccursAtTail(s, pat, j);
    }
  }

  /** Cutting `s` at `i` and `k` agrees with cutting its tail at `i - 1` and `k - 1`. */
  lemma SplitAfterHead(s: string, rep: string, i: nat, k: nat)
    requires 0 < i <= k <= |s|
    ensures [s[0]] + (s[1..][..i - 1] + rep + s[1..][k - 1..]) == s[..i] + rep + s[k..]
  {
    assert s[..i] == [s[0]] + s[1..][..i - 1];
    assert s[1..][k - 1..] == s[k..];
  }

  /** Decimal digits of a natural number, as JavaScript renders an integer. */
  function NatToString(n: nat): (r: string)
    ensures |r| >= 1
    ensures forall i :: 0 <= i < |r| ==> IsDigit(r[i])
    decreases n
  {
    if n < 10 then [('0' as int + n) as char]
    else NatToString(n / 10) + [('0' as int + n % 10) as char]
  }

  /** Decimal rendering of an integer, with a leading `-` for negative values. */
  function IntToString(n: int): (r: string)
    ensures |r| >= 1
  {
    if n < 0 then "-" + NatToString(-n) else NatToString(n)
  }
}
