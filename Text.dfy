/**
 * The handful of Python string operations the core relies on: `str.strip`,
 * `in` on strings, `str.find`, `str.rfind`, `str.replace` and `str.lower`
 * (ASCII part). Strings are sequences of Unicode code points.
 */
module Text {

  /** Characters for which Python's `str.isspace` is true (also what `\s` matches). */
  predicate IsSpace(c: char)
  {
    c == ' ' || ('\t' <= c <= '\r') || ('\U{1c}' <= c <= '\U{1f}') || c == '\U{85}' ||
    c == '\U{a0}' || c == '\U{1680}' || ('\U{2000}' <= c <= '\U{200a}') ||
    c == '\U{2028}' || c == '\U{2029}' || c == '\U{202f}' || c == '\U{205f}' || c == '\U{3000}'
  }

  predicate AllSpace(s: string)
  {
    forall i :: 0 <= i < |s| ==> IsSpace(s[i])
  }

  /** Number of leading whitespace characters. */
  function LeadingSpace(s: string): (n: nat)
    ensures n <= |s|
  {
    if s == [] || !IsSpace(s[0]) then 0 else LeadingSpace(s[1..]) + 1
  }

  /** Number of trailing whitespace characters. */
  function TrailingSpace(s: string): (n: nat)
    ensures n <= |s|
  {
    if s == [] || !IsSpace(s[|s| - 1]) then 0 else TrailingSpace(s[..|s| - 1]) + 1
  }

  /** The leading run is all whitespace and is followed by a non-space. */
  lemma {:induction false} LeadingSpaceFacts(s: string)
    ensures AllSpace(s[..LeadingSpace(s)])
    ensures LeadingSpace(s) < |s| ==> !IsSpace(s[LeadingSpace(s)])
    decreases |s|
  {
    if s != [] && IsSpace(s[0]) {
      var k := LeadingSpace(s[1..]);
      LeadingSpaceFacts(s[1..]);
      var run := s[..k + 1];
      forall m | 0 <= m < |run| ensures IsSpace(run[m]) {
        if m > 0 {
          assert run[m] == s[1..][..k][m - 1];
        }
      }
      if k + 1 < |s| {
        assert s[k + 1] == s[1..][k];
      }
    }
  }

  /** The trailing run is all whitespace and is preceded by a non-space. */
  lemma {:induction false} TrailingSpaceFacts(s: string)
    ensures AllSpace(s[|s| - TrailingSpace(s)..])
    ensures TrailingSpace(s) < |s| ==> !IsSpace(s[|s| - TrailingSpace(s) - 1])
    decreases |s|
  {
    if s != [] && IsSpace(s[|s| - 1]) {
      var init := s[..|s| - 1];
      var k := TrailingSpace(init);
      TrailingSpaceFacts(init);
      var run := s[|s| - k - 1..];
      forall m | 0 <= m < |run| ensures IsSpace(run[m]) {
        if m < k {
          assert run[m] == init[|init| - k..][m];
        } else {
          assert run[m] == s[|s| - 1];
        }
      }
      if k + 1 < |s| {
        assert s[|s| - k - 2] == init[|init| - k - 1];
      }
    }
  }

  /** Python's `s.strip()`: the slice left after removing whitespace at both ends. */
  function Strip(s: string): string
  {
    var i := LeadingSpace(s);
    s[i..|s| - TrailingSpace(s[i..])]
  }

  /**
   * `Strip(s)` is a slice of `s` with only whitespace removed around it, that
   * starts and ends with a non-space, and is empty exactly for blank text.
   */
  lemma StripFacts(s: string)
    ensures exists i, j :: 0 <= i <= j <= |s| && Strip(s) == s[i..j] && AllSpace(s[..i]) && AllSpace(s[j..])
    ensures Strip(s) != [] ==> !IsSpace(Strip(s)[0]) && !IsSpace(Strip(s)[|Strip(s)| - 1])
    ensures Strip(s) == [] <==> AllSpace(s)
  {
    var i, j := StripIndices(s);
    if i == j {
      AllSpaceSplit(s, i);
    }
    if i < j {
      assert Strip(s)[0] == s[i] && Strip(s)[|Strip(s)| - 1] == s[j - 1];
    }
  }

  /** The cut points of `Strip(s)`. */
  lemma StripIndices(s: string) returns (i: nat, j: nat)
    ensures i <= j <= |s| && Strip(s) == s[i..j] && AllSpace(s[..i]) && AllSpace(s[j..])
    ensures i < j ==> !IsSpace(s[i]) && !IsSpace(s[j - 1])
  {
    i := LeadingSpace(s);
    j := |s| - TrailingSpace(s[i..]);
    LeadingSpaceFacts(s);
    TrailingBounds(s, i, j);
  }

  lemma TrailingBounds(s: string, i: nat, j: nat)
    requires i <= |s| && j == |s| - TrailingSpace(s[i..])
    ensures i <= j && AllSpace(s[j..])
    ensures i < j ==> !IsSpace(s[j - 1])
  {
    var rest := s[i..];
    var k := TrailingSpace(rest);
    TrailingSpaceFacts(rest);
    var tail := rest[|rest| - k..];
    forall m | 0 <= m < |s| - j ensures IsSpace(s[j..][m]) {
      assert s[j..][m] == tail[m];
    }
    if i < j {
      assert s[j - 1] == rest[|rest| - k - 1];
    }
  }

  lemma AllSpaceSplit(s: string, i: nat)
    requires i <= |s| && AllSpace(s[..i]) && AllSpace(s[i..])
    ensures AllSpace(s)
  {
    forall m | 0 <= m < |s| ensures IsSpace(s[m]) {
      if m < i {
        assert s[..i][m] == s[m];
      } else {
        assert s[i..][m - i] == s[m];
      }
    }
  }

  /** `s.strip() == ""`: the text is empty or whitespace only. */
  predicate IsBlank(s: string)
  {
    Strip(s) == []
  }

  /** `pat` occurs in `s` starting at index `i`. */
  predicate OccursAt(s: string, pat: string, i: int)
  {
    0 <= i && i + |pat| <= |s| && s[i..i + |pat|] == pat
  }

  /** Python's `pat in s`. */
  predicate Contains(s: string, pat: string)
  {
    exists i | 0 <= i <= |s| :: OccursAt(s, pat, i)
  }

  function FindFrom(s: string, pat: string, from: nat): (r: int)
    requires from <= |s| + 1
    ensures r == -1 || (from <= r && r + |pat| <= |s|)
    decreases |s| + 1 - from
  {
    if from + |pat| > |s| then -1
    else if s[from..from + |pat|] == pat then from
    else FindFrom(s, pat, from + 1)
  }

  /** `FindFrom` finds the first occurrence at or after `from`. */
  lemma {:induction false} FindFromFacts(s: string, pat: string, from: nat)
    requires from <= |s| + 1
    ensures FindFrom(s, pat, from) == -1 ==> forall j :: from <= j ==> !OccursAt(s, pat, j)
    ensures FindFrom(s, pat, from) != -1 ==>
      OccursAt(s, pat, FindFrom(s, pat, from)) && forall j :: from <= j < FindFrom(s, pat, from) ==> !OccursAt(s, pat, j)
    decreases |s| + 1 - from
  {
    if from + |pat| <= |s| && s[from..from + |pat|] != pat {
      FindFromFacts(s, pat, from + 1);
    }
  }

  /** Python's `s.find(pat)`: the least index where `pat` occurs, or -1. */
  function Find(s: string, pat: string): (r: int)
    ensures r == -1 || (0 <= r && r + |pat| <= |s|)
  {
    FindFrom(s, pat, 0)
  }

  lemma FindFacts(s: string, pat: string)
    ensures Find(s, pat) == -1 <==> !Contains(s, pat)
    ensures Find(s, pat) != -1 ==> OccursAt(s, pat, Find(s, pat)) && forall j :: 0 <= j < Find(s, pat) ==> !OccursAt(s, pat, j)
  {
    FindFromFacts(s, pat, 0);
  }

  function RFindBelow(s: string, pat: string, upto: nat): (r: int)
    ensures r == -1 || (0 <= r < upto && r + |pat| <= |s|)
  {
    if upto == 0 then -1
    else if OccursAt(s, pat, upto - 1) then upto - 1
    else RFindBelow(s, pat, upto - 1)
  }

  /** `RFindBelow` finds the last occurrence before `upto`. */
  lemma {:induction false} RFindBelowFacts(s: string, pat: string, upto: nat)
    ensures RFindBelow(s, pat, upto) != -1 ==> OccursAt(s, pat, RFindBelow(s, pat, upto))
    ensures forall j :: RFindBelow(s, pat, upto) < j < upto ==> !OccursAt(s, pat, j)
  {
    if upto > 0 && !OccursAt(s, pat, upto - 1) {
      RFindBelowFacts(s, pat, upto - 1);
    }
  }

  /** Python's `s.rfind(pat)`: the greatest index where `pat` occurs, or -1. */
  function RFind(s: string, pat: string): (r: int)
    ensures r == -1 || (0 <= r && r + |pat| <= |s|)
  {
    RFindBelow(s, pat, |s| + 1)
  }

  lemma RFindFacts(s: string, pat: string)
    ensures RFind(s, pat) == -1 <==> !Contains(s, pat)
    ensures RFind(s, pat) != -1 ==> OccursAt(s, pat, RFind(s, pat)) && forall j :: RFind(s, pat) < j ==> !OccursAt(s, pat, j)
  {
    RFindBelowFacts(s, pat, |s| + 1);
  }

  /** Python's `s.startswith(pat)`. */
  predicate StartsWith(s: string, pat: string)
  {
    |pat| <= |s| && s[..|pat|] == pat
  }

  /** Python's `s.replace(old, new)`: every non-overlapping occurrence, left to right. */
  function Replace(s: string, pat: string, repl: string): (r: string)
    requires pat != []
    ensures !Contains(s, pat) ==> r == s
    decreases |s|
  {
    if |s| < |pat| then s
    else if s[..|pat|] == pat then
      assert OccursAt(s, pat, 0);
      repl + Replace(s[|pat|..], pat, repl)
    else
      var rest := Replace(s[1..], pat, repl);
      assert forall j :: OccursAt(s[1..], pat, j) ==> OccursAt(s, pat, j + 1);
      [s[0]] + rest
  }

  /** `str.lower` on ASCII letters; every other code point is left as it is. */
  function Lower(s: string): (r: string)
    ensures |r| == |s|
    ensures forall i :: 0 <= i < |s| ==> (r[i] == s[i] || ('A' <= s[i] <= 'Z' && r[i] == s[i] - 'A' + 'a'))
  {
    seq(|s|, i requires 0 <= i < |s| => if 'A' <= s[i] <= 'Z' then s[i] - 'A' + 'a' else s[i])
  }
}
