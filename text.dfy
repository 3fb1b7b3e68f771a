/**
 * String operations the dashboard applies to column labels: Python's
 * `str.replace` (every non-overlapping occurrence, scanning left to right,
 * in one pass) and `str.lower` on ASCII text.
 */
module Text {

  /** Python's `s.replace(pat, rep)` for a non-empty `pat`. */
  function Replace(s: string, pat: string, rep: string): string
    requires |pat| > 0
    decreases |s|
  {
    if |s| < |pat| then s
    else if s[..|pat|] == pat then rep + Replace(s[|pat|..], pat, rep)
    else [s[0]] + Replace(s[1..], pat, rep)
  }

  /** `pat` occurs in `s` starting at position `i`. */
  predicate OccursAt(s: string, pat: string, i: nat) {
    i + |pat| <= |s| && s[i..i + |pat|] == pat
  }

  /** `pat` occurs somewhere in `s` (Python's `pat in s`). */
  predicate Occurs(s: string, pat: string) {
    exists i: nat | i <= |s| :: OccursAt(s, pat, i)
  }

  /** `c` is nowhere in `s` (Python's `c not in s`). */
  predicate Lacks(s: string, c: char) {
    forall i | 0 <= i < |s| :: s[i] != c
  }

  lemma LacksAppend(a: string, b: string, c: char)
    requires Lacks(a, c) && Lacks(b, c)
    ensures Lacks(a + b, c)
  {
    forall i | 0 <= i < |a + b| ensures (a + b)[i] != c {
      if i >= |a| {
        assert (a + b)[i] == b[i - |a|];
      }
    }
  }

  /** A replacement whose pattern does not occur leaves the string as it was. */
  lemma {:induction false} ReplaceNoOccurrence(s: string, pat: string, rep: string)
    requires |pat| > 0 && !Occurs(s, pat)
    ensures Replace(s, pat, rep) == s
    decreases |s|
  {
    if |s| >= |pat| {
      assert !OccursAt(s, pat, 0);
      assert s[0..|pat|] == s[..|pat|];
      forall i: nat ensures !OccursAt(s[1..], pat, i) {
        assert !OccursAt(s, pat, i + 1);
        if i + |pat| <= |s[1..]| {
          assert s[1..][i..i + |pat|] == s[i + 1..i + 1 + |pat|];
        }
      }
      ReplaceNoOccurrence(s[1..], pat, rep);
    }
  }

  /** A character of the pattern that is missing from `s` rules out every occurrence. */
  lemma MissingCharNoOccurrence(s: string, pat: string, k: nat)
    requires k < |pat| && Lacks(s, pat[k])
    ensures !Occurs(s, pat)
  {
    forall i: nat | i <= |s| ensures !OccursAt(s, pat, i) {
      if i + |pat| <= |s| {
        assert s[i..i + |pat|][k] == s[i + k];
      }
    }
  }

  /** Replacing a pattern with a character missing from `s` is the identity. */
  lemma ReplaceAbsent(s: string, pat: string, rep: string, k: nat)
    requires k < |pat| && Lacks(s, pat[k])
    ensures Replace(s, pat, rep) == s
  {
    MissingCharNoOccurrence(s, pat, k);
    ReplaceNoOccurrence(s, pat, rep);
  }

  /** An occurrence at the head is replaced, and the scan resumes after it. */
  lemma ReplaceAtHead(pat: string, t: string, rep: string)
    requires |pat| > 0
    ensures Replace(pat + t, pat, rep) == rep + Replace(t, pat, rep)
  {
    assert (pat + t)[..|pat|] == pat;
    assert (pat + t)[|pat|..] == t;
  }

  /** A mismatch at offset `k` of the head keeps the first character and scans on. */
  lemma ReplaceMismatchHead(s: string, pat: string, rep: string, k: nat)
    requires k < |pat| <= |s| && s[k] != pat[k]
    ensures Replace(s, pat, rep) == [s[0]] + Replace(s[1..], pat, rep)
  {
    assert s[..|pat|][k] == s[k];
  }

  /**
   * No occurrence can start inside the prefix `a` when the `k`-th pattern
   * character is missing from the window of characters such an occurrence
   * would have to place there; the prefix is then copied unchanged.
   */
  lemma {:induction false} ReplaceSkip(a: string, b: string, pat: string, rep: string, k: nat)
    requires k < |pat| && k <= |b|
    requires Lacks((a + b)[k..k + |a|], pat[k])
    ensures Replace(a + b, pat, rep) == a + Replace(b, pat, rep)
    decreases |a|
  {
    if a == [] {
      assert a + b == b;
    } else {
      var s := a + b;
      if |s| < |pat| {
        assert Replace(b, pat, rep) == b;
      } else {
        var w := s[k..k + |a|];
        assert w[0] == s[k];
        ReplaceMismatchHead(s, pat, rep, k);
        assert s[1..] == a[1..] + b;
        var w' := (a[1..] + b)[k..k + |a[1..]|];
        forall t | 0 <= t < |w'| ensures w'[t] != pat[k] {
          assert w'[t] == s[1..][k + t] == s[k + t + 1] == w[t + 1];
        }
        ReplaceSkip(a[1..], b, pat, rep, k);
        assert [s[0]] + (a[1..] + Replace(b, pat, rep)) == a + Replace(b, pat, rep);
      }
    }
  }

  /**
   * The common case of a label: `a + pat + c` where no occurrence starts
   * inside `a` and none occurs in `c`; the one occurrence is replaced.
   */
  lemma ReplaceOnce(a: string, pat: string, c: string, rep: string, k: nat, j: nat)
    requires k < |pat| && Lacks((a + pat + c)[k..k + |a|], pat[k])
    requires j < |pat| && Lacks(c, pat[j])
    ensures Replace(a + pat + c, pat, rep) == a + rep + c
  {
    var b := pat + c;
    AppendAssoc(a, pat, c);
    ReplaceSkip(a, b, pat, rep, k);
    ReplaceAtHead(pat, c, rep);
    ReplaceAbsent(c, pat, rep, j);
    AppendAssoc(a, rep, c);
  }

  lemma AppendAssoc(a: string, b: string, c: string)
    ensures a + b + c == a + (b + c)
  {
  }

  /**
   * A label that ends with the pattern: if the `k`-th pattern character is
   * neither in `a` nor earlier in the pattern, only the suffix is replaced.
   */
  lemma ReplaceSuffix(a: string, pat: string, rep: string, k: nat)
    requires k < |pat| && Lacks(a, pat[k]) && Lacks(pat[..k], pat[k])
    ensures Replace(a + pat, pat, rep) == a + rep
  {
    var s := a + pat;
    var w := s[k..k + |a|];
    forall t | 0 <= t < |w| ensures w[t] != pat[k] {
      if k + t < |a| {
        assert s[k + t] == a[k + t];
      } else {
        assert s[k + t] == pat[..k][k + t - |a|];
      }
    }
    ReplaceOnce(a, pat, "", rep, k, 0);
    assert a + pat + "" == s;
    assert a + rep + "" == a + rep;
  }

  /** Python's `str.lower` on one character; only ASCII capitals change. */
  function LowerChar(c: char): (d: char)
    ensures 'A' <= c <= 'Z' ==> 'a' <= d <= 'z' && d as int == c as int + 32
    ensures !('A' <= c <= 'Z') ==> d == c
  {
    if 'A' <= c <= 'Z' then (c as int - 'A' as int + 'a' as int) as char else c
  }

  /**
   * Python's `str.lower`, restricted to ASCII text: each capital becomes
   * the small letter 32 code points above it, every other character is
   * kept, and no capital is left.
   */
  function Lower(s: string): (r: string)
    ensures |r| == |s|
    ensures forall i | 0 <= i < |s| && 'A' <= s[i] <= 'Z' :: r[i] as int == s[i] as int + 32
    ensures forall i | 0 <= i < |s| && !('A' <= s[i] <= 'Z') :: r[i] == s[i]
    ensures forall i | 0 <= i < |r| :: !('A' <= r[i] <= 'Z')
  {
    seq(|s|, i requires 0 <= i < |s| => LowerChar(s[i]))
  }

  /** Lower-casing twice is lower-casing once. */
  lemma LowerIdempotent(s: string)
    ensures Lower(Lower(s)) == Lower(s)
  {
  }
}
