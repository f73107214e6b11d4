/**
 * The Knuth–Morris–Pratt substring test used by the search operation
 * (utility::KMPSolver::solve): a failure table of longest proper borders,
 * then one left-to-right pass over the text that never moves backwards.
 */
module Kmp {

  /** `pattern` sits in `text` starting at position `s`. */
  predicate OccursAt(text: string, pattern: string, s: int) {
    0 <= s && s + |pattern| <= |text| && text[s..s + |pattern|] == pattern
  }

  /** `pattern` is a contiguous substring of `text`. */
  predicate Occurs(text: string, pattern: string) {
    exists s :: 0 <= s <= |text| - |pattern| && OccursAt(text, pattern, s)
  }

  /** `b` is a proper border of the prefix `p[..k]`: its first `b` symbols
      equal its last `b` symbols, and `b < k`. */
  predicate IsBorder(p: string, k: int, b: int) {
    0 <= b < k <= |p| && forall t :: 0 <= t < b ==> p[t] == p[k - b + t]
  }

  predicate IsLongestBorder(p: string, k: int, b: int) {
    IsBorder(p, k, b) && forall c :: 0 <= c < k && IsBorder(p, k, c) ==> c <= b
  }

  /** Entry `k` of the table is the length of the longest proper border of `p[..k+1]`. */
  predicate IsLpsTable(p: string, lps: seq<nat>) {
    |lps| == |p| && forall k :: 0 <= k < |p| ==> IsLongestBorder(p, k + 1, lps[k])
  }

  /** A non-empty border of `p[..k]` loses its last symbol to become a border
      of `p[..k-1]`, and that symbol must equal `p[k-1]`. */
  lemma BordersShrink(p: string, k: int)
    requires 0 < k <= |p|
    ensures forall c :: IsBorder(p, k, c) && c > 0 ==> IsBorder(p, k - 1, c - 1) && p[c - 1] == p[k - 1]
  {
    forall c | IsBorder(p, k, c) && c > 0
      ensures IsBorder(p, k - 1, c - 1) && p[c - 1] == p[k - 1]
    {
      assert p[c - 1] == p[k - c + (c - 1)];
    }
  }

  /** A border of `p[..k]` extended by a matching symbol is a border of `p[..k+1]`. */
  lemma BorderGrow(p: string, k: int, b: int)
    requires IsBorder(p, k, b) && k < |p| && p[b] == p[k]
    ensures IsBorder(p, k + 1, b + 1)
  {
    forall t | 0 <= t < b + 1
      ensures p[t] == p[k + 1 - (b + 1) + t]
    {
      if t < b {
        assert p[t] == p[k - b + t];
      }
    }
  }

  /** A border of a border is a border. */
  lemma BorderOfBorderIsBorder(p: string, k: int, a: int, b: int)
    requires IsBorder(p, k, a) && IsBorder(p, a, b)
    ensures IsBorder(p, k, b)
  {
    forall t | 0 <= t < b
      ensures p[t] == p[k - b + t]
    {
      assert p[t] == p[a - b + t];
      assert p[a - b + t] == p[k - a + (a - b + t)];
    }
  }

  /** Of two borders of the same prefix, the shorter one is a border of the longer one. */
  lemma BordersNest(p: string, k: int, a: int)
    requires IsBorder(p, k, a)
    ensures forall b :: IsBorder(p, k, b) && b < a ==> IsBorder(p, a, b)
  {
    forall b | IsBorder(p, k, b) && b < a
      ensures IsBorder(p, a, b)
    {
      forall t | 0 <= t < b
        ensures p[t] == p[a - b + t]
      {
        assert p[t] == p[k - b + t];
        assert p[a - b + t] == p[k - a + (a - b + t)];
      }
    }
  }

  /** The state of the failure-table loop: entries below `i` are final, the
      rest still hold their initial zero, `j` is a border of `p[..i]`, and no
      border longer than `j` can be extended by `p[i]`. */
  ghost predicate LpsLoopInv(p: string, lps: seq<nat>, i: int, j: int) {
    && 1 <= i <= |p| && 0 <= j < i && |lps| == |p|
    && (forall k :: 0 <= k < i ==> IsLongestBorder(p, k + 1, lps[k]))
    && (forall k :: i <= k < |p| ==> lps[k] == 0)
    && IsBorder(p, i, j)
    && (i < |p| ==> forall c :: IsBorder(p, i, c) && p[c] == p[i] ==> c <= j)
  }

  lemma LpsStepMatch(p: string, lps: seq<nat>, i: int, j: int)
    requires LpsLoopInv(p, lps, i, j) && i < |p| && p[i] == p[j]
    ensures LpsLoopInv(p, lps[i := j + 1], i + 1, j + 1)
  {
    BorderGrow(p, i, j);
    BordersShrink(p, i + 1);
    assert IsLongestBorder(p, i + 1, j + 1);
    var lps' := lps[i := j + 1];
    assert forall k :: 0 <= k < i + 1 ==> IsLongestBorder(p, k + 1, lps'[k]) by {
      forall k | 0 <= k < i + 1
        ensures IsLongestBorder(p, k + 1, lps'[k])
      {
        if k < i {
          assert lps'[k] == lps[k];
        }
      }
    }
  }

  lemma LpsStepReset(p: string, lps: seq<nat>, i: int)
    requires LpsLoopInv(p, lps, i, 0) && i < |p| && p[i] != p[0]
    ensures LpsLoopInv(p, lps, i + 1, 0)
  {
    BordersShrink(p, i + 1);
    assert IsLongestBorder(p, i + 1, 0);
  }

  lemma LpsStepFallback(p: string, lps: seq<nat>, i: int, j: int)
    requires LpsLoopInv(p, lps, i, j) && i < |p| && p[i] != p[j] && j > 0
    ensures lps[j - 1] < j && LpsLoopInv(p, lps, i, lps[j - 1])
  {
    var b := lps[j - 1];
    assert IsLongestBorder(p, j, b);
    BorderOfBorderIsBorder(p, i, j, b);
    BordersNest(p, i, j);
  }

  /** The failure-table loop of KMPSolver::solve. The table starts as all
      zeros, as KMPSolver::solve's vector does, and only matched positions are written. */
  method ComputeLps(pattern: string) returns (lps: seq<nat>)
    ensures IsLpsTable(pattern, lps)
    ensures forall k :: 0 <= k < |lps| ==> lps[k] <= k
  {
    var m := |pattern|;
    lps := seq(m, _ => 0);
    if m == 0 {
      return;
    }
    var i, j := 1, 0;
    while i < m
      invariant LpsLoopInv(pattern, lps, i, j)
      decreases m - i, j
    {
      if pattern[i] == pattern[j] {
        LpsStepMatch(pattern, lps, i, j);
        lps := lps[i := j + 1];
        i, j := i + 1, j + 1;
      } else if j == 0 {
        LpsStepReset(pattern, lps, i);
        i := i + 1;
      } else {
        LpsStepFallback(pattern, lps, i, j);
        j := lps[j - 1];
      }
    }
  }

  /** After a mismatch at `text[i]` with `j` symbols matched, no occurrence
      can start before the longest border `b` of the matched part lines up. */
  lemma SkippedStarts(text: string, pattern: string, i: nat, j: nat, b: nat)
    requires 0 < j < |pattern| && j <= i < |text|
    requires forall t :: 0 <= t < j ==> text[i - j + t] == pattern[t]
    requires IsBorder(pattern, j, b)
    ensures forall t :: 0 <= t < b ==> text[i - b + t] == pattern[t]
    ensures forall s :: i - j <= s < i && OccursAt(text, pattern, s) ==>
              (s == i - j && text[i] == pattern[j]) || (s > i - j && IsBorder(pattern, j, i - s))
  {
    forall t | 0 <= t < b
      ensures text[i - b + t] == pattern[t]
    {
      assert pattern[t] == pattern[j - b + t];
      assert text[i - j + (j - b + t)] == pattern[j - b + t];
    }
    forall s | i - j <= s < i && OccursAt(text, pattern, s)
      ensures (s == i - j && text[i] == pattern[j]) || (s > i - j && IsBorder(pattern, j, i - s))
    {
      var c := i - s;
      assert forall t :: 0 <= t < |pattern| ==> text[s + t] == pattern[t] by {
        forall t | 0 <= t < |pattern|
          ensures text[s + t] == pattern[t]
        {
          assert text[s..s + |pattern|][t] == pattern[t];
        }
      }
      if s == i - j {
        assert text[s + j] == pattern[j];
      } else {
        forall t | 0 <= t < c
          ensures pattern[t] == pattern[j - c + t]
        {
          assert text[s + t] == pattern[t];
          assert text[i - j + (j - c + t)] == pattern[j - c + t];
        }
      }
    }
  }

  /** KMPSolver::solve, for the non-empty patterns its callers pass: grep's
      pattern is a whitespace-free command token, never empty. An empty
      pattern is not covered: KMPSolver::solve then compares each character
      with the string's terminating NUL and answers false for any NUL-free
      text, although the empty pattern occurs everywhere. */
  method Solve(text: string, pattern: string) returns (found: bool)
    requires |pattern| > 0
    ensures found <==> Occurs(text, pattern)
  {
    var lps := ComputeLps(pattern);
    var m := |pattern|;
    var i, j := 0, 0;
    while i < |text|
      invariant 0 <= j < m && j <= i <= |text|
      invariant forall t :: 0 <= t < j ==> text[i - j + t] == pattern[t]
      invariant forall s :: 0 <= s < i - j ==> !OccursAt(text, pattern, s)
      decreases |text| - i, j
    {
      if text[i] == pattern[j] {
        i, j := i + 1, j + 1;
        if j == m {
          assert text[i - m..i] == pattern by {
            forall t | 0 <= t < m
              ensures text[i - m..i][t] == pattern[t]
            {
              assert text[i - j + t] == pattern[t];
            }
          }
          assert OccursAt(text, pattern, i - m);
          return true;
        }
      } else if j == 0 {
        i := i + 1;
      } else {
        SkippedStarts(text, pattern, i, j, lps[j - 1]);
        j := lps[j - 1];
      }
    }
    return false;
  }
}
