/**
 * The Python `str` and `bytes` primitives that main.py relies on, stated over
 * sequences: `needle in haystack`, `haystack.find(needle, start)`,
 * `s.endswith(suffix)`, `s.replace(old, new)`, `s.lower()` and `s.isdigit()`.
 * Lowering and digits are the ASCII ones.
 */
module PyStr {

  /** The needle occurs in the haystack starting at index i. */
  predicate MatchAt<T(==)>(haystack: seq<T>, needle: seq<T>, i: int)
  {
    0 <= i && i + |needle| <= |haystack| && haystack[i..i + |needle|] == needle
  }

  /** `needle in haystack` */
  predicate Contains<T(==)>(haystack: seq<T>, needle: seq<T>)
  {
    exists i | 0 <= i <= |haystack| - |needle| :: MatchAt(haystack, needle, i)
  }

  /** `haystack.find(needle, start)` for a non-negative start: the least index at
      or after start where the needle occurs, or -1 when there is none. */
  function Find<T(==)>(haystack: seq<T>, needle: seq<T>, start: nat): (r: int)
    ensures r == -1 || (start <= r && MatchAt(haystack, needle, r))
    ensures r != -1 ==> forall i :: start <= i < r ==> !MatchAt(haystack, needle, i)
    ensures r == -1 <==> forall i :: start <= i ==> !MatchAt(haystack, needle, i)
    decreases |haystack| - start
  {
    if start + |needle| > |haystack| then -1
    else if haystack[start..start + |needle|] == needle then start
    else Find(haystack, needle, start + 1)
  }

  /** `haystack.find(needle) != -1` is the same test as `needle in haystack`. */
  lemma FindFromStartIffContains<T>(haystack: seq<T>, needle: seq<T>)
    ensures Find(haystack, needle, 0) != -1 <==> Contains(haystack, needle)
  {
    var r := Find(haystack, needle, 0);
    if r != -1 {
      assert MatchAt(haystack, needle, r);
    }
  }

  /** A needle holding an element that the haystack lacks never occurs in it. */
  lemma AbsentElementNoMatch<T>(haystack: seq<T>, needle: seq<T>, k: nat)
    requires k < |needle| && needle[k] !in haystack
    ensures !Contains(haystack, needle)
  {
    forall i | 0 <= i <= |haystack| - |needle|
      ensures !MatchAt(haystack, needle, i)
    {
      assert haystack[i..i + |needle|][k] == haystack[i + k];
    }
  }

  /** `s.endswith(suffix)` */
  predicate EndsWith<T(==)>(s: seq<T>, suffix: seq<T>)
  {
    |suffix| <= |s| && s[|s| - |suffix|..] == suffix
  }

  /**
   * `s.replace(pat, rep)` for a non-empty pattern: occurrences are replaced
   * from left to right, and scanning resumes after each replaced occurrence,
   * so replaced occurrences never overlap.
   */
  function Replace<T(==)>(s: seq<T>, pat: seq<T>, rep: seq<T>): (r: seq<T>)
    requires |pat| > 0
    ensures |pat| == |rep| ==> |r| == |s|
    decreases |s|
  {
    if |s| < |pat| then s
    else if s[..|pat|] == pat then rep + Replace(s[|pat|..], pat, rep)
    else [s[0]] + Replace(s[1..], pat, rep)
  }

  /** A needle absent from rest does not occur in x + rest at or after |x|. */
  lemma NoMatchAfterPrefix<T>(x: seq<T>, rest: seq<T>, needle: seq<T>)
    requires !Contains(rest, needle)
    ensures forall i :: |x| <= i ==> !MatchAt(x + rest, needle, i)
  {
    forall i | |x| <= i && i + |needle| <= |x + rest|
      ensures !MatchAt(x + rest, needle, i)
    {
      assert (x + rest)[i..i + |needle|] == rest[i - |x|..i - |x| + |needle|];
      assert !MatchAt(rest, needle, i - |x|);
    }
  }

  /** When w avoids the replacement's first element, a prefix w of the result
      of `replace` is a prefix of the input: no replaced block can start inside w. */
  lemma {:induction false} ReplaceKeepsPrefix<T>(s: seq<T>, pat: seq<T>, rep: seq<T>, w: seq<T>)
    requires |pat| > 0 && |rep| > 0 && rep[0] !in w
    ensures |w| <= |Replace(s, pat, rep)| && Replace(s, pat, rep)[..|w|] == w ==>
      |w| <= |s| && s[..|w|] == w
    decreases |s|
  {
    var r := Replace(s, pat, rep);
    if |w| > 0 && |s| >= |pat| {
      if s[..|pat|] == pat {
        assert r[0] == rep[0];
      } else {
        var tail := Replace(s[1..], pat, rep);
        assert r == [s[0]] + tail;
        ReplaceKeepsPrefix(s[1..], pat, rep, w[1..]);
        if |w| <= |r| && r[..|w|] == w {
          assert tail[..|w| - 1] == w[1..];
          assert s[..|w|] == [s[0]] + s[1..][..|w| - 1];
        }
      }
    }
  }

  /** With a replacement of the same length and different from the pattern,
      `s.replace(pat, rep)` leaves s as it is exactly when pat does not occur in s. */
  lemma ReplaceUnchangedIff<T>(s: seq<T>, pat: seq<T>, rep: seq<T>)
    requires |pat| > 0 && |pat| == |rep| && pat != rep
    ensures Replace(s, pat, rep) == s <==> !Contains(s, pat)
  {
    if Contains(s, pat) {
      ReplaceChanges(s, pat, rep);
    } else {
      ReplaceWithoutMatch(s, pat, rep);
    }
  }

  lemma {:induction false} ReplaceWithoutMatch<T>(s: seq<T>, pat: seq<T>, rep: seq<T>)
    requires |pat| > 0 && !Contains(s, pat)
    ensures Replace(s, pat, rep) == s
    decreases |s|
  {
    if |s| >= |pat| {
      assert !MatchAt(s, pat, 0);
      forall j | 0 <= j <= |s[1..]| - |pat|
        ensures !MatchAt(s[1..], pat, j)
      {
        assert s[1..][j..j + |pat|] == s[j + 1..j + 1 + |pat|];
        assert !MatchAt(s, pat, j + 1);
      }
      ReplaceWithoutMatch(s[1..], pat, rep);
    }
  }

  lemma {:induction false} ReplaceChanges<T>(s: seq<T>, pat: seq<T>, rep: seq<T>)
    requires |pat| > 0 && |pat| == |rep| && pat != rep && Contains(s, pat)
    ensures Replace(s, pat, rep) != s
    decreases |s|
  {
    if s[..|pat|] == pat {
      assert Replace(s, pat, rep)[..|pat|] == rep;
    } else {
      var i :| 0 <= i <= |s| - |pat| && MatchAt(s, pat, i);
      assert i != 0;
      assert s[1..][i - 1..i - 1 + |pat|] == s[i..i + |pat|];
      assert MatchAt(s[1..], pat, i - 1);
      ReplaceChanges(s[1..], pat, rep);
      assert Replace(s, pat, rep)[1..] == Replace(s[1..], pat, rep);
    }
  }

  /** A suffix survives prepending. */
  lemma EndsWithPrepend<T>(x: seq<T>, t: seq<T>, suffix: seq<T>)
    requires EndsWith(t, suffix)
    ensures EndsWith(x + t, suffix)
  {
    assert (x + t)[|x + t| - |suffix|..] == t[|t| - |suffix|..];
  }

  /** A suffix survives dropping a prefix that does not reach into it. */
  lemma EndsWithDrop<T>(s: seq<T>, k: nat, suffix: seq<T>)
    requires EndsWith(s, suffix) && k + |suffix| <= |s|
    ensures EndsWith(s[k..], suffix)
  {
    assert s[k..][|s[k..]| - |suffix|..] == s[|s| - |suffix|..];
  }

  /** If the first element of the pattern does not recur in it, an occurrence
      at the front and one at the back of s cannot overlap. */
  lemma NoOverlap<T>(s: seq<T>, pat: seq<T>)
    requires |pat| > 0 && pat[0] !in pat[1..]
    requires |s| > |pat| && s[..|pat|] == pat && EndsWith(s, pat)
    ensures 2 * |pat| <= |s|
  {
  }

  /** When the first element of the pattern does not recur inside the pattern,
      two occurrences can never overlap, so a string ending with the pattern
      ends with the replacement once `replace` has run. */
  lemma {:induction false} ReplaceKeepsSuffix<T>(s: seq<T>, pat: seq<T>, rep: seq<T>)
    requires |pat| > 0 && pat[0] !in pat[1..]
    requires EndsWith(s, pat)
    ensures EndsWith(Replace(s, pat, rep), rep)
    decreases |s|
  {
    var n := |pat|;
    if s[..n] == pat {
      if |s| == n {
        assert s[n..] == [];
        assert Replace(s, pat, rep) == rep;
      } else {
        NoOverlap(s, pat);
        EndsWithDrop(s, n, pat);
        ReplaceKeepsSuffix(s[n..], pat, rep);
        EndsWithPrepend(rep, Replace(s[n..], pat, rep), rep);
      }
    } else {
      assert |s| > n;
      EndsWithDrop(s, 1, pat);
      ReplaceKeepsSuffix(s[1..], pat, rep);
      EndsWithPrepend([s[0]], Replace(s[1..], pat, rep), rep);
    }
  }

  /** s cut at p and around index k. */
  lemma SplitAround<T>(s: seq<T>, p: nat, k: nat)
    requires p <= k < |s|
    ensures s == s[..p] + s[p..k] + [s[k]] + s[k + 1..]
  {
    assert s[..p] + s[p..k] == s[..k];
    assert s[..k] + [s[k]] == s[..k + 1];
  }

  /** ASCII lowering of one character, as `str.lower` does on ASCII letters. */
  function LowerChar(c: char): char
  {
    if 'A' <= c <= 'Z' then (c as int - 'A' as int + 'a' as int) as char else c
  }

  /** `s.lower()` */
  function Lower(s: string): string
  {
    seq(|s|, i requires 0 <= i < |s| => LowerChar(s[i]))
  }

  predicate IsDigit(c: char)
  {
    '0' <= c <= '9'
  }

  /** Every character is a decimal digit (true of the empty string). */
  predicate AllDigits(s: string)
  {
    forall i :: 0 <= i < |s| ==> IsDigit(s[i])
  }

  /** `s.isdigit()`: non-empty and all digits. */
  predicate IsDigitStr(s: string)
  {
    |s| > 0 && AllDigits(s)
  }
}
