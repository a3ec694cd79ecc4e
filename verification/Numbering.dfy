/**
 * Numbered names: the decimal suffixes that `_unique_id`, `_unique_edge_id` and
 * `dedupe_name` try one after the other until they meet a free name.
 */
module Numbering {
  import opened Collections

  function Digit(d: nat): char
    requires d < 10
  {
    "0123456789"[d]
  }

  function Decimal(n: nat): (s: string)
    ensures |s| >= 1
  {
    if n < 10 then [Digit(n)] else Decimal(n / 10) + [Digit(n % 10)]
  }

  /** What a text of decimal digits stands for. */
  function NumberOf(s: string): int {
    if s == "" then 0 else 10 * NumberOf(s[..|s| - 1]) + (s[|s| - 1] as int - '0' as int)
  }

  lemma DigitMeaning(d: nat)
    requires d < 10
    ensures Digit(d) as int - '0' as int == d
  {
  }

  /** The decimal of a number reads as the number, without leading zeros. */
  lemma {:induction false} DecimalMeaning(n: nat)
    ensures NumberOf(Decimal(n)) == n && (n > 0 ==> Decimal(n)[0] != '0')
  {
    DigitMeaning(n % 10);
    if n < 10 {
      assert Decimal(n)[..0] == "";
    } else {
      DecimalMeaning(n / 10);
      assert Decimal(n)[..|Decimal(n)| - 1] == Decimal(n / 10);
    }
  }

  lemma {:induction false} DecimalInjective(m: nat, n: nat)
    requires Decimal(m) == Decimal(n)
    ensures m == n
  {
    var s, t := Decimal(m), Decimal(n);
    assert s[|s| - 1] == Digit(m % 10) && t[|t| - 1] == Digit(n % 10);
    if m >= 10 && n >= 10 {
      assert s[..|s| - 1] == Decimal(m / 10) && t[..|t| - 1] == Decimal(n / 10);
      DecimalInjective(m / 10, n / 10);
    }
  }

  /** The `k`-th candidate of `_unique_id`: the base itself, then `base-2`, `base-3`, ... */
  function Candidate(base: string, k: nat): string
    requires k >= 1
  {
    if k == 1 then base else base + "-" + Decimal(k)
  }

  lemma CandidateMeaning(base: string)
    ensures Candidate(base, 1) == base && Candidate(base, 2) == base + "-2" && Candidate(base, 13) == base + "-13"
  {
    assert Decimal(2) == "2" && Decimal(13) == "1" + "3";
  }

  lemma CandidateInjective(base: string, j: nat, k: nat)
    requires 1 <= j && 1 <= k && Candidate(base, j) == Candidate(base, k)
    ensures j == k
  {
    if j > 1 && k > 1 {
      assert Candidate(base, j)[|base| + 1..] == Decimal(j);
      assert Candidate(base, k)[|base| + 1..] == Decimal(k);
      DecimalInjective(j, k);
    }
  }

  /** `r` is the first candidate outside `taken`. */
  ghost predicate FirstFree(base: string, taken: set<string>, r: string) {
    exists k :: k >= 1 && r == Candidate(base, k) && r !in taken
                && forall j :: 1 <= j < k ==> Candidate(base, j) in taken
  }

  lemma FirstFreeUnique(base: string, taken: set<string>, r: string, s: string)
    requires FirstFree(base, taken, r) && FirstFree(base, taken, s)
    ensures r == s
  {
    var j :| j >= 1 && r == Candidate(base, j) && r !in taken
             && forall i :: 1 <= i < j ==> Candidate(base, i) in taken;
    var k :| k >= 1 && s == Candidate(base, k) && s !in taken
             && forall i :: 1 <= i < k ==> Candidate(base, i) in taken;
    assert j == k;
  }

  /** Pigeonhole: no more candidates are taken than there are taken names. */
  lemma TakenCandidates(base: string, taken: set<string>, n: nat)
    requires forall j :: 1 <= j <= n ==> Candidate(base, j) in taken
    ensures n <= |taken|
  {
    var tried := seq(n, i requires 0 <= i < n => Candidate(base, i + 1));
    forall i, j | 0 <= i < j < |tried| ensures tried[i] != tried[j] {
      if tried[i] == tried[j] {
        CandidateInjective(base, i + 1, j + 1);
      }
    }
    DistinctFits(tried, taken);
  }

  /** The search loop shared by `_unique_id` and `_unique_edge_id`. */
  method FindFree(base: string, taken: set<string>) returns (candidate: string)
    ensures FirstFree(base, taken, candidate)
  {
    candidate := base;
    var suffix := 1;
    while candidate in taken
      invariant suffix >= 1 && candidate == Candidate(base, suffix)
      invariant forall j :: 1 <= j < suffix ==> Candidate(base, j) in taken
      decreases |taken| + 1 - suffix
    {
      TakenCandidates(base, taken, suffix);
      suffix := suffix + 1;
      candidate := base + "-" + Decimal(suffix);
    }
  }
}
