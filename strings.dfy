/**
 * The string operations the script borrows from Python: lower-casing,
 * suffix tests, `replace` and `title`. All case handling of the pipeline
 * goes through LowerChar and UpperChar, so the cleaner, the plotter and the
 * writer share one casing rule.
 */
module Strings {

  predicate IsUpper(c: char) { 'A' <= c <= 'Z' }

  predicate IsLower(c: char) { 'a' <= c <= 'z' }

  /** A cased character in the sense of Python's `str.title` (ASCII letters here). */
  predicate IsLetter(c: char) { IsUpper(c) || IsLower(c) }

  function LowerChar(c: char): (r: char)
    ensures !IsUpper(r)
    ensures IsLetter(c) <==> IsLetter(r)
  {
    if IsUpper(c) then (c as int + 32) as char else c
  }

  function UpperChar(c: char): (r: char)
    ensures !IsLower(r)
    ensures IsLetter(c) <==> IsLetter(r)
  {
    if IsLower(c) then (c as int - 32) as char else c
  }

  /** Python's `str.lower`, character by character. */
  function Lower(s: string): (r: string)
    ensures |r| == |s|
    ensures forall i :: 0 <= i < |s| ==> r[i] == LowerChar(s[i])
  {
    if s == [] then [] else [LowerChar(s[0])] + Lower(s[1..])
  }

  /** Python's `str.endswith`. */
  predicate EndsWith(s: string, suffix: string) {
    |suffix| <= |s| && s[|s| - |suffix|..] == suffix
  }

  /** A string that contains no upper-case letter is its own lower-case form. */
  lemma LowerOfLowered(s: string)
    requires forall i :: 0 <= i < |s| ==> !IsUpper(s[i])
    ensures Lower(s) == s
  {
  }

  lemma LowerAppend(a: string, b: string)
    ensures Lower(a + b) == Lower(a) + Lower(b)
  {
    var l, r := Lower(a + b), Lower(a) + Lower(b);
    assert |l| == |r|;
    forall i | 0 <= i < |l| ensures l[i] == r[i] {
      if i < |a| { assert (a + b)[i] == a[i]; } else { assert (a + b)[i] == b[i - |a|]; }
    }
  }

  /** Suffix tests commute with lower-casing the tail. */
  lemma EndsWithLower(s: string, suffix: string)
    requires |suffix| <= |s|
    ensures EndsWith(Lower(s), suffix) <==> Lower(s[|s| - |suffix|..]) == suffix
  {
    var n := |s| - |suffix|;
    assert s == s[..n] + s[n..];
    LowerAppend(s[..n], s[n..]);
    assert Lower(s)[n..] == Lower(s[n..]);
  }

  /**
   * Python's `str.replace(pat, rep)` for a non-empty pattern: every
   * occurrence, scanned left to right without overlap, is replaced.
   */
  function ReplaceAll(s: string, pat: string, rep: string): (r: string)
    requires pat != []
    ensures |rep| <= |pat| ==> |r| <= |s|
    ensures |rep| == |pat| ==> |r| == |s|
    decreases |s|
  {
    if |s| < |pat| then s
    else if s[..|pat|] == pat then rep + ReplaceAll(s[|pat|..], pat, rep)
    else [s[0]] + ReplaceAll(s[1..], pat, rep)
  }

  /** A one-character pattern is replaced position by position. */
  lemma {:induction false} ReplaceChar(s: string, a: char, b: char)
    ensures |ReplaceAll(s, [a], [b])| == |s|
    ensures forall i :: 0 <= i < |s| ==> ReplaceAll(s, [a], [b])[i] == if s[i] == a then b else s[i]
    decreases |s|
  {
    if |s| > 0 {
      ReplaceChar(s[1..], a, b);
      var tail := ReplaceAll(s[1..], [a], [b]);
      assert ReplaceAll(s, [a], [b]) == [if s[0] == a then b else s[0]] + tail;
    }
  }

  /**
   * A pattern at the very end of a string, whose first two characters do not
   * occur together earlier, is stripped by replacing it with nothing.
   */
  lemma {:induction false} ReplaceTrailing(a: string, pat: string)
    requires |pat| >= 2
    requires forall i :: 0 <= i < |a| && a[i] == pat[0] ==> i + 1 < |a| && a[i + 1] != pat[1]
    ensures ReplaceAll(a + pat, pat, "") == a
    decreases |a|
  {
    if a == [] {
      assert (a + pat)[..|pat|] == pat;
      assert (a + pat)[|pat|..] == [];
    } else {
      assert (a + pat)[..|pat|] != pat by {
        if a[0] == pat[0] { assert (a + pat)[..|pat|][1] == a[1]; }
      }
      assert (a + pat)[1..] == a[1..] + pat;
      ReplaceTrailing(a[1..], pat);
    }
  }

  /**
   * Python's `str.title`: a letter that follows a letter is lower-cased and
   * every other letter upper-cased; `afterLetter` says whether the character
   * before `s` was a letter.
   */
  function TitleFrom(s: string, afterLetter: bool): (r: string)
    ensures |r| == |s|
    ensures |s| > 0 ==> r[0] == if afterLetter then LowerChar(s[0]) else UpperChar(s[0])
    ensures forall i :: 0 < i < |s| ==> r[i] == if IsLetter(s[i - 1]) then LowerChar(s[i]) else UpperChar(s[i])
  {
    if s == [] then []
    else
      var head := if afterLetter then LowerChar(s[0]) else UpperChar(s[0]);
      [head] + TitleFrom(s[1..], IsLetter(s[0]))
  }

  /** Title case never produces a non-letter that was not already there. */
  lemma TitleKeepsOut(s: string, c: char)
    requires !IsLetter(c)
    requires forall i :: 0 <= i < |s| ==> s[i] != c
    ensures forall i :: 0 <= i < |Title(s)| ==> Title(s)[i] != c
  {
    var t := Title(s);
    forall i | 0 <= i < |s| ensures t[i] != c {
      assert t[i] == if i > 0 && IsLetter(s[i - 1]) then LowerChar(s[i]) else UpperChar(s[i]);
      assert LowerChar(s[i]) != c && UpperChar(s[i]) != c;
    }
  }

  function Title(s: string): (r: string)
    ensures |r| == |s|
    ensures forall i :: 0 <= i < |s| ==>
      r[i] == if i > 0 && IsLetter(s[i - 1]) then LowerChar(s[i]) else UpperChar(s[i])
  {
    TitleFrom(s, false)
  }

}
