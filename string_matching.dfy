/**
 * Knuth-Morris-Pratt matching, as the alert and threat-detection programs
 * implement it (acase7.cpp, acase6.cpp; the two copies are the same code):
 * `buildLPS` computes, for each prefix of the pattern, the length of its
 * longest proper border (a proper prefix that is also a suffix), and
 * `KMP_Search` scans the text once, falling back through that table on a
 * mismatch.
 */
module StringMatching {

  /** `k` is the length of a proper border of `s`. */
  ghost predicate IsBorder(s: seq<char>, k: int)
  {
    0 <= k < |s| && s[..k] == s[|s| - k..]
  }

  /** `k` is the length of the longest proper border of `s`. */
  ghost predicate LongestBorder(s: seq<char>, k: int)
  {
    IsBorder(s, k) && forall m :: k < m < |s| ==> !IsBorder(s, m)
  }

  /** No border of `s` has a length in `lo + 1 .. hi`. */
  ghost predicate NoBorderAbove(s: seq<char>, lo: int, hi: int)
  {
    forall m :: lo < m <= hi ==> !IsBorder(s, m)
  }

  /** The first `upto` entries of `lps` are right for `pat`. */
  ghost predicate LpsUpTo(pat: seq<char>, lps: seq<int>, upto: int)
    requires 0 <= upto <= |pat| == |lps|
  {
    forall i :: 0 <= i < upto ==> LongestBorder(pat[..i + 1], lps[i])
  }

  /** `pat` occurs in `text` starting at `p`. */
  ghost predicate OccursAt(text: seq<char>, pat: seq<char>, p: int)
  {
    0 <= p && p + |pat| <= |text| && text[p..p + |pat|] == pat
  }

  /** A border of `pat[..i+1]` is a border of `pat[..i]` followed by a matching character. */
  lemma BorderExtend(pat: seq<char>, i: int, m: int)
    requires 1 <= m <= i < |pat|
    ensures IsBorder(pat[..i + 1], m) <==> IsBorder(pat[..i], m - 1) && pat[m - 1] == pat[i]
  {
    var s, t := pat[..i + 1], pat[..i];
    assert s[..m] == t[..m - 1] + [pat[m - 1]];
    assert s[i + 1 - m..] == t[i - (m - 1)..] + [pat[i]];
    if s[..m] == s[i + 1 - m..] {
      assert s[..m][..m - 1] == t[..m - 1];
      assert s[i + 1 - m..][..m - 1] == t[i - (m - 1)..];
      assert s[..m][m - 1] == pat[m - 1] && s[i + 1 - m..][m - 1] == pat[i];
    }
  }

  /** Below a border of length `t`, the borders of `s` are the borders of `s[..t]`. */
  lemma BorderOfBorder(s: seq<char>, t: int, k: int)
    requires IsBorder(s, t) && 0 <= k < t
    ensures IsBorder(s, k) <==> IsBorder(s[..t], k)
  {
    var u := s[..t];
    assert u[..k] == s[..k];
    assert u[t - k..] == s[|s| - t..][t - k..] == s[|s| - k..];
  }

  /** Falling back from the border `len` of `pat[..i]` to the next shorter one. */
  lemma FallBack(pat: seq<char>, lps: seq<int>, i: int, len: int)
    requires 0 < len < i <= |pat| == |lps| && LpsUpTo(pat, lps, i)
    requires IsBorder(pat[..i], len)
    ensures IsBorder(pat[..i], lps[len - 1])
    ensures forall k :: lps[len - 1] < k < len ==> !IsBorder(pat[..i], k)
  {
    var s := pat[..i];
    assert s[..len] == pat[..len];
    assert LongestBorder(pat[..len], lps[len - 1]);
    BorderOfBorder(s, len, lps[len - 1]);
    forall k | lps[len - 1] < k < len ensures !IsBorder(s, k) {
      BorderOfBorder(s, len, k);
    }
  }

  /**
   * What the loop of `buildLPS` keeps: the table is right below `i`, `len`
   * is a border of `pat[..i]`, and no border of `pat[..i+1]` is longer
   * than `len + 1`.
   */
  ghost predicate LpsLoop(pat: seq<char>, lps: seq<int>, i: int, len: int)
  {
    && 1 <= i <= |pat| == |lps| && 0 <= len < i
    && LpsUpTo(pat, lps, i)
    && IsBorder(pat[..i], len)
    && (i < |pat| ==> NoBorderAbove(pat[..i + 1], len + 1, i))
  }

  /** A table entry settled: everything known about `pat[..i+1]` moves on to `pat[..i+2]`. */
  lemma NextPrefix(pat: seq<char>, lps: seq<int>, i: int)
    requires 0 <= i < |pat| == |lps| && LpsUpTo(pat, lps, i + 1)
    ensures i + 1 < |pat| ==> NoBorderAbove(pat[..i + 2], lps[i] + 1, i + 1)
  {
    if i + 1 < |pat| {
      var s := pat[..i + 2];
      assert s[..i + 1] == pat[..i + 1];
      forall m | lps[i] + 1 < m <= i + 1 ensures !IsBorder(s, m) {
        BorderExtend(pat, i + 1, m);
        assert LongestBorder(pat[..i + 1], lps[i]);
      }
    }
  }

  lemma LpsMatch(pat: seq<char>, lps: seq<int>, i: int, len: int)
    requires LpsLoop(pat, lps, i, len) && i < |pat| && pat[i] == pat[len]
    ensures LpsLoop(pat, lps[i := len + 1], i + 1, len + 1)
  {
    var lps' := lps[i := len + 1];
    BorderExtend(pat, i, len + 1);
    assert pat[..i + 1][..i] == pat[..i];
    forall k | 0 <= k < i + 1 ensures LongestBorder(pat[..k + 1], lps'[k]) {
      if k < i {
        assert LongestBorder(pat[..k + 1], lps[k]);
      }
    }
    NextPrefix(pat, lps', i);
  }

  lemma LpsMismatchZero(pat: seq<char>, lps: seq<int>, i: int)
    requires LpsLoop(pat, lps, i, 0) && i < |pat| && pat[i] != pat[0]
    ensures LpsLoop(pat, lps[i := 0], i + 1, 0)
  {
    var lps' := lps[i := 0];
    assert IsBorder(pat[..i + 1], 0);
    BorderExtend(pat, i, 1);
    forall k | 0 <= k < i + 1 ensures LongestBorder(pat[..k + 1], lps'[k]) {
      if k < i {
        assert LongestBorder(pat[..k + 1], lps[k]);
      }
    }
    NextPrefix(pat, lps', i);
  }

  lemma LpsMismatch(pat: seq<char>, lps: seq<int>, i: int, len: int)
    requires LpsLoop(pat, lps, i, len) && i < |pat| && len != 0 && pat[i] != pat[len]
    ensures LpsLoop(pat, lps, i, lps[len - 1])
  {
    FallBack(pat, lps, i, len);
    var len' := lps[len - 1];
    var s := pat[..i + 1];
    forall m | len' + 1 < m <= i ensures !IsBorder(s, m) {
      BorderExtend(pat, i, m);
    }
  }

  /** `buildLPS(pat)`: entry `i` is the length of the longest proper border of `pat[..i+1]`. */
  method BuildLps(pat: seq<char>) returns (lps: seq<int>)
    ensures |lps| == |pat|
    ensures forall i :: 0 <= i < |pat| ==> LongestBorder(pat[..i + 1], lps[i])
    ensures forall i :: 0 <= i < |pat| ==> 0 <= lps[i] <= i
    ensures |pat| > 0 ==> lps[0] == 0
  {
    var n := |pat|;
    var table := new int[n];
    if n == 0 {
      return table[..];
    }
    table[0] := 0;
    var len, i := 0, 1;
    assert IsBorder(pat[..1], 0);
    assert LongestBorder(pat[..1], 0);
    NextPrefix(pat, table[..], 0);
    while i < n
      invariant LpsLoop(pat, table[..], i, len)
      decreases 2 * n - 2 * i + len
    {
      if pat[i] == pat[len] {
        LpsMatch(pat, table[..], i, len);
        len := len + 1;
        table[i] := len;
        i := i + 1;
      } else if len != 0 {
        LpsMismatch(pat, table[..], i, len);
        len := table[len - 1];
      } else {
        LpsMismatchZero(pat, table[..], i);
        table[i] := 0;
        i := i + 1;
      }
    }
    lps := table[..];
  }

  /**
   * What the scan keeps: the last `j` characters read match the first `j`
   * of the pattern, and no occurrence starts before `i - j`.
   */
  ghost predicate ScanLoop(text: seq<char>, pat: seq<char>, i: int, j: int)
  {
    && 0 <= j < |pat| && j <= i <= |text|
    && text[i - j..i] == pat[..j]
    && forall p :: 0 <= p < i - j ==> !OccursAt(text, pat, p)
  }

  lemma ScanMatch(text: seq<char>, pat: seq<char>, i: int, j: int)
    requires ScanLoop(text, pat, i, j) && i < |text| && text[i] == pat[j]
    ensures text[i + 1 - (j + 1)..i + 1] == pat[..j + 1]
  {
    assert text[i - j..i + 1] == text[i - j..i] + [text[i]];
    assert pat[..j + 1] == pat[..j] + [pat[j]];
  }

  /** On a mismatch after `j > 0` matched characters, the scan falls back to `lps[j - 1]`. */
  lemma ScanFallBack(text: seq<char>, pat: seq<char>, lps: seq<int>, i: int, j: int)
    requires |lps| == |pat| && LpsUpTo(pat, lps, |pat|)
    requires ScanLoop(text, pat, i, j) && 0 < j && i < |text| && text[i] != pat[j]
    ensures ScanLoop(text, pat, i, lps[j - 1])
  {
    var j' := lps[j - 1];
    var s := pat[..j];
    assert pat[..j][..j] == pat[..j];
    assert LongestBorder(s, j');
    assert text[i - j'..i] == text[i - j..i][j - j'..];
    assert s[..j'] == pat[..j'];
    forall p | i - j <= p < i - j' ensures !OccursAt(text, pat, p) {
      if OccursAt(text, pat, p) {
        var k := i - p;
        var occ := text[p..p + |pat|];
        assert text[p..i] == occ[..k];
        if k == j {
          assert false;
        } else {
          assert pat[..k] == text[p..i];
          assert text[p..i] == text[i - j..i][j - k..];
          assert s[..k] == pat[..k];
          assert IsBorder(s, k);
          assert false;
        }
      }
    }
  }

  lemma ScanSkip(text: seq<char>, pat: seq<char>, i: int)
    requires ScanLoop(text, pat, i, 0) && i < |text| && text[i] != pat[0]
    ensures ScanLoop(text, pat, i + 1, 0)
  {
  }

  /**
   * `KMP_Search(text, pat)` for a non-empty pattern: true exactly when the
   * pattern occurs in the text; an empty text never contains it.
   */
  method KmpSearch(text: seq<char>, pat: seq<char>) returns (found: bool)
    requires |pat| >= 1
    ensures found <==> exists p :: OccursAt(text, pat, p)
    ensures |text| == 0 ==> !found
  {
    var lps := BuildLps(pat);
    var n, m := |text|, |pat|;
    var i, j := 0, 0;
    while i < n
      invariant ScanLoop(text, pat, i, j)
      decreases 2 * n - 2 * i + j
    {
      if text[i] == pat[j] {
        ScanMatch(text, pat, i, j);
        i, j := i + 1, j + 1;
      }
      if j == m {
        assert OccursAt(text, pat, i - j);
        return true;
      } else if i < n && text[i] != pat[j] {
        if j != 0 {
          ScanFallBack(text, pat, lps, i, j);
          j := lps[j - 1];
        } else {
          ScanSkip(text, pat, i);
          i := i + 1;
        }
      }
    }
    found := false;
    forall p ensures !OccursAt(text, pat, p) {
      if 0 <= p < i - j {
      }
    }
  }
}
