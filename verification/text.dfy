/**
 * The .NET string operations the scaffolding engine relies on, over `string`
 * (a sequence of `char`): ordinal `IndexOf` and `Contains`, `ToLower` restricted
 * to ASCII letters, `Trim` with the white-space set of `Char.IsWhiteSpace`, and
 * the ordinal `String.Replace(string, string)`.
 */
module Text {

  /** `t` occurs in `s` starting at index `i`, comparing characters ordinally. */
  predicate OccursAt(s: string, t: string, i: int) {
    0 <= i && i + |t| <= |s| && s[i..i + |t|] == t
  }

  /** Ordinal containment, as `String.Contains`: the empty string occurs in every string. */
  predicate Contains(s: string, t: string): (b: bool)
    ensures b ==> |t| <= |s|
    ensures t == [] ==> b
    ensures s == t ==> b
  {
    assert t == [] ==> OccursAt(s, t, 0);
    assert s == t ==> OccursAt(s, t, 0);
    exists i | 0 <= i <= |s| :: OccursAt(s, t, i)
  }

  /** Containment is transitive: an occurrence inside an occurrence is an occurrence. */
  lemma ContainsTransitive(a: string, b: string, c: string)
    requires Contains(a, b) && Contains(b, c)
    ensures Contains(a, c)
  {
    var i :| 0 <= i <= |a| && OccursAt(a, b, i);
    var j :| 0 <= j <= |b| && OccursAt(b, c, j);
    assert b == a[i..i + |b|];
    forall n | 0 <= n < |c|
      ensures a[i + j + n] == c[n]
    {
      assert c[n] == b[j + n] == a[i + j + n];
    }
    assert a[i + j..i + j + |c|] == c;
    assert OccursAt(a, c, i + j);
  }

  /** Whatever a string contains, it still contains once something is appended to it. */
  lemma ContainsAppend(a: string, t: string, x: string)
    requires Contains(a, t)
    ensures Contains(a + x, t)
  {
    var i :| 0 <= i <= |a| && OccursAt(a, t, i);
    assert (a + x)[i..i + |t|] == a[i..i + |t|];
    assert OccursAt(a + x, t, i);
  }

  /** Whatever a string contains, it still contains once something is put before it. */
  lemma ContainsPrepend(a: string, t: string, x: string)
    requires Contains(a, t)
    ensures Contains(x + a, t)
  {
    var i :| 0 <= i <= |a| && OccursAt(a, t, i);
    assert (x + a)[|x| + i..|x| + i + |t|] == a[i..i + |t|];
    assert OccursAt(x + a, t, |x| + i);
  }

  /**
   * The first index at or after `k` where `t` occurs in `s`, or -1 when there is
   * none: the ordinal `IndexOf` started at `k`.
   */
  function IndexOfFrom(s: string, t: string, k: nat): (r: int)
    requires k <= |s|
    ensures r == -1 || (k <= r && OccursAt(s, t, r))
    ensures r == -1 ==> forall i :: k <= i ==> !OccursAt(s, t, i)
    ensures forall i :: k <= i < r ==> !OccursAt(s, t, i)
    decreases |s| - k
  {
    if k + |t| > |s| then -1
    else if s[k..k + |t|] == t then k
    else IndexOfFrom(s, t, k + 1)
  }

  /** `String.IndexOf(t, StringComparison.Ordinal)`: the first occurrence of `t`, or -1. */
  function IndexOf(s: string, t: string): (r: int)
    ensures r == -1 <==> !Contains(s, t)
    ensures r != -1 ==> OccursAt(s, t, r) && forall i :: 0 <= i < r ==> !OccursAt(s, t, i)
  {
    IndexOfFrom(s, t, 0)
  }

  /** `Char.ToLower` on the ASCII letters; every other character is left alone. */
  function LowerChar(c: char): (r: char)
    ensures !('A' <= r <= 'Z')
    ensures 'A' <= c <= 'Z' ==> r as int == c as int + 32
    ensures !('A' <= c <= 'Z') ==> r == c
  {
    if 'A' <= c <= 'Z' then (c as int + 32) as char else c
  }

  /** `String.ToLower`, restricted to ASCII case mapping: every character is lowered. */
  function ToLower(s: string): (r: string)
    ensures |r| == |s|
    ensures forall k :: 0 <= k < |s| ==> r[k] == LowerChar(s[k])
  {
    seq(|s|, k requires 0 <= k < |s| => LowerChar(s[k]))
  }

  /** Lowers only the leading character; the empty string is returned unchanged. */
  function LowerFirst(s: string): (r: string)
    ensures |r| == |s|
    ensures |s| > 0 ==> r[0] == LowerChar(s[0]) && r[1..] == s[1..]
  {
    if |s| == 0 then s else [LowerChar(s[0])] + s[1..]
  }

  /** The characters `Char.IsWhiteSpace` accepts, by code point. */
  predicate IsWhiteSpace(c: char) {
    var n := c as int;
    (0x09 <= n <= 0x0D) || n == 0x20 || n == 0x85 || n == 0xA0 || n == 0x1680
    || (0x2000 <= n <= 0x200A) || n == 0x2028 || n == 0x2029 || n == 0x202F
    || n == 0x205F || n == 0x3000
  }

  predicate AllWhiteSpace(s: string) {
    forall k :: 0 <= k < |s| ==> IsWhiteSpace(s[k])
  }

  /** The index of the first non-white-space character at or after `k`. */
  function SkipLeading(s: string, k: nat): (i: nat)
    requires k <= |s|
    ensures k <= i <= |s|
    ensures forall n :: k <= n < i ==> IsWhiteSpace(s[n])
    ensures i < |s| ==> !IsWhiteSpace(s[i])
    decreases |s| - k
  {
    if k < |s| && IsWhiteSpace(s[k]) then SkipLeading(s, k + 1) else k
  }

  /** The end of `s[lo..j]` once its trailing white space is dropped. */
  function SkipTrailing(s: string, lo: nat, j: nat): (e: nat)
    requires lo <= j <= |s|
    ensures lo <= e <= j
    ensures forall n :: e <= n < j ==> IsWhiteSpace(s[n])
    ensures e > lo ==> !IsWhiteSpace(s[e - 1])
    decreases j
  {
    if j > lo && IsWhiteSpace(s[j - 1]) then SkipTrailing(s, lo, j - 1) else j
  }

  /**
   * `String.Trim()`: the part of `s` left once leading and trailing white space
   * is removed. It occurs in `s` with only white space around it.
   */
  function Trim(s: string): (r: string)
    ensures exists i :: OccursAt(s, r, i) && AllWhiteSpace(s[..i]) && AllWhiteSpace(s[i + |r|..])
    ensures |r| > 0 ==> !IsWhiteSpace(r[0]) && !IsWhiteSpace(r[|r| - 1])
  {
    var i := SkipLeading(s, 0);
    var j := SkipTrailing(s, i, |s|);
    assert OccursAt(s, s[i..j], i);
    s[i..j]
  }

  /** A string contains its own trimmed form. */
  lemma ContainsTrim(s: string)
    ensures Contains(s, Trim(s))
  {
    var i :| OccursAt(s, Trim(s), i) && AllWhiteSpace(s[..i]) && AllWhiteSpace(s[i + |Trim(s)|..]);
    assert 0 <= i <= |s|;
  }

  /**
   * Ordinal `String.Replace(pat, rep)`: scans left to right and replaces every
   * non-overlapping occurrence of `pat`. The empty pattern is refused by .NET.
   */
  function ReplaceAll(s: string, pat: string, rep: string): (r: string)
    requires pat != []
    ensures |s| < |pat| ==> r == s
    decreases |s|
  {
    if |s| < |pat| then s
    else if s[..|pat|] == pat then rep + ReplaceAll(s[|pat|..], pat, rep)
    else [s[0]] + ReplaceAll(s[1..], pat, rep)
  }

  /** A string without the pattern comes back from `ReplaceAll` unchanged. */
  lemma {:induction false} ReplaceAllAbsent(s: string, pat: string, rep: string)
    requires pat != []
    requires !Contains(s, pat)
    ensures ReplaceAll(s, pat, rep) == s
    decreases |s|
  {
    if |s| >= |pat| {
      if s[..|pat|] == pat {
        assert OccursAt(s, pat, 0);
        assert false;
      } else {
        if Contains(s[1..], pat) {
          var i :| 0 <= i <= |s[1..]| && OccursAt(s[1..], pat, i);
          assert s[i + 1..i + 1 + |pat|] == s[1..][i..i + |pat|];
          assert OccursAt(s, pat, i + 1);
        }
        ReplaceAllAbsent(s[1..], pat, rep);
        assert s == [s[0]] + s[1..];
      }
    }
  }

  /** Replacing a pattern by itself changes nothing. */
  lemma {:induction false} ReplaceAllSelf(s: string, pat: string)
    requires pat != []
    ensures ReplaceAll(s, pat, pat) == s
    decreases |s|
  {
    if |s| >= |pat| {
      if s[..|pat|] == pat {
        ReplaceAllSelf(s[|pat|..], pat);
        assert s == s[..|pat|] + s[|pat|..];
      } else {
        ReplaceAllSelf(s[1..], pat);
        assert s == [s[0]] + s[1..];
      }
    }
  }

  /**
   * When `pat` first occurs in `a + pat + b` right after `a`, the text before it
   * is kept, that occurrence becomes `rep`, and the scan resumes on `b`.
   */
  lemma {:induction false} ReplaceAllFirst(a: string, b: string, pat: string, rep: string)
    requires pat != []
    requires forall i :: 0 <= i < |a| ==> !OccursAt(a + pat + b, pat, i)
    ensures ReplaceAll(a + pat + b, pat, rep) == a + rep + ReplaceAll(b, pat, rep)
    decreases |a|
  {
    var s := a + pat + b;
    if |a| == 0 {
      assert s == pat + b;
      assert s[..|pat|] == pat;
      assert s[|pat|..] == b;
    } else {
      assert !OccursAt(s, pat, 0);
      assert s[..|pat|] != pat;
      assert s[1..] == a[1..] + pat + b;
      forall i | 0 <= i < |a[1..]|
        ensures !OccursAt(a[1..] + pat + b, pat, i)
      {
        assert !OccursAt(s, pat, i + 1);
        assert s[i + 1..i + 1 + |pat|] == (a[1..] + pat + b)[i..i + |pat|];
      }
      ReplaceAllFirst(a[1..], b, pat, rep);
      assert [s[0]] + (a[1..] + rep + ReplaceAll(b, pat, rep)) == a + rep + ReplaceAll(b, pat, rep);
    }
  }
}
