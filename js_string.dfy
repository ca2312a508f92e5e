/**
 * The JavaScript string operations the downloader relies on, with the
 * semantics of the language: `indexOf`, `replace` with a string pattern,
 * `slice` with negative indices, number-to-string conversion and the
 * numeric coercion of a string of digits.
 */
module JsString {

  /** `pat` occurs in `s` starting at index `i`. */
  predicate OccursAt(s: string, pat: string, i: int)
  {
    0 <= i && i + |pat| <= |s| && s[i..i + |pat|] == pat
  }

  lemma OccursAtTail(s: string, pat: string, i: int)
    requires |s| > 0 && 1 <= i
    ensures OccursAt(s, pat, i) <==> OccursAt(s[1..], pat, i - 1)
  {
    if i + |pat| <= |s| {
      assert s[1..][i - 1..i - 1 + |pat|] == s[i..i + |pat|];
    }
  }

  /** `s.indexOf(pat)`: the first index at which `pat` occurs in `s`, or -1. */
  function IndexOf(s: string, pat: string): (r: int)
    ensures r == -1 || (0 <= r && r + |pat| <= |s|)
    decreases |s|
  {
    if |pat| > |s| then -1
    else if s[..|pat|] == pat then 0
    else
      var k := IndexOf(s[1..], pat);
      if k == -1 then -1 else k + 1
  }

  /** `indexOf` finds an occurrence, and no occurrence lies before it; -1 means there is none. */
  lemma {:induction false} IndexOfSpec(s: string, pat: string)
    ensures var r := IndexOf(s, pat);
      && (r == -1 || OccursAt(s, pat, r))
      && (forall i | 0 <= i && (r == -1 || i < r) :: !OccursAt(s, pat, i))
    decreases |s|
  {
    if |pat| <= |s| && s[..|pat|] != pat {
      IndexOfSpec(s[1..], pat);
      forall i | 1 <= i
        ensures OccursAt(s, pat, i) <==> OccursAt(s[1..], pat, i - 1)
      {
        OccursAtTail(s, pat, i);
      }
      assert !OccursAt(s, pat, 0);
    }
  }

  /** `s.replace(pat, rep)` with a string pattern: only the first occurrence is replaced. */
  function ReplaceFirst(s: string, pat: string, rep: string): string
  {
    var i := IndexOf(s, pat);
    if i == -1 then s else s[..i] + rep + s[i + |pat|..]
  }

  /** A pattern that the string starts with is its first occurrence, so removing it leaves the rest. */
  lemma ReplaceLeadingMatch(pat: string, rest: string)
    ensures ReplaceFirst(pat + rest, pat, "") == rest
  {
    var s := pat + rest;
    assert OccursAt(s, pat, 0) by { assert s[0..|pat|] == pat; }
    assert IndexOf(s, pat) == 0;
    assert s[|pat|..] == rest;
  }

  /** How `slice` reads one of its arguments: a negative index counts from the end, and both are clamped. */
  function RelativeIndex(i: int, len: nat): (r: nat)
    ensures r <= len
    ensures 0 <= i <= len ==> r == i
    ensures -(len as int) <= i < 0 ==> r == len + i
    ensures i > len ==> r == len
    ensures i < -(len as int) ==> r == 0
  {
    if i < 0 then (if len + i < 0 then 0 else len + i)
    else if i > len then len
    else i
  }

  /** `s.slice(start, end)`. */
  function Slice(s: string, start: int, end: int): (r: string)
    ensures |r| <= |s|
  {
    var from, to := RelativeIndex(start, |s|), RelativeIndex(end, |s|);
    if from < to then s[from..to] else ""
  }

  /** Slicing from just after a prefix up to a negative offset that skips a suffix yields what lies between. */
  lemma SliceBetween(prefix: string, middle: string, suffix: string)
    requires |suffix| > 0
    ensures Slice(prefix + middle + suffix, |prefix|, -|suffix|) == middle
  {
    var s := prefix + middle + suffix;
    assert RelativeIndex(-|suffix|, |s|) == |prefix| + |middle|;
    if |middle| > 0 {
      assert s[|prefix|..|prefix| + |middle|] == middle;
    }
  }

  predicate IsDigit(c: char)
  {
    '0' <= c <= '9'
  }

  predicate IsDigits(s: string)
  {
    forall i | 0 <= i < |s| :: IsDigit(s[i])
  }

  function DigitValue(c: char): (d: nat)
    requires IsDigit(c)
    ensures d < 10
  {
    c as int - '0' as int
  }

  function DigitChar(d: nat): (c: char)
    requires d < 10
    ensures IsDigit(c) && DigitValue(c) == d
  {
    ('0' as int + d) as char
  }

  /** The number a string of decimal digits denotes (what `s * 1` gives; the empty string gives 0). */
  function DecimalValue(s: string): nat
    requires IsDigits(s)
    decreases |s|
  {
    if s == "" then 0 else DecimalValue(s[..|s| - 1]) * 10 + DigitValue(s[|s| - 1])
  }

  /** `n + ''` for a non-negative integer: its decimal digits, without leading zeros. */
  function NatToString(n: nat): string
  {
    if n < 10 then [DigitChar(n)] else NatToString(n / 10) + [DigitChar(n % 10)]
  }

  /** The decimal string of `n` is a non-empty string of digits that starts with `0` only for zero and reads back as `n`. */
  lemma {:induction false} NatToStringDigits(n: nat)
    ensures var r := NatToString(n);
      && |r| >= 1 && IsDigits(r)
      && ((r[0] == '0') <==> n == 0)
      && DecimalValue(r) == n
  {
    if n >= 10 {
      var high := NatToString(n / 10);
      NatToStringDigits(n / 10);
      var r := NatToString(n);
      assert r == high + [DigitChar(n % 10)];
      assert r[..|r| - 1] == high;
    }
  }

  /** `new Array(k + 1).join(z)`: `k` copies of `z` one after another. */
  function Repeat(z: string, k: nat): string
  {
    if k == 0 then "" else z + Repeat(z, k - 1)
  }

  /** Repeating a one-character string `k` times gives `k` copies of that character. */
  lemma {:induction false} RepeatShape(z: string, k: nat)
    requires |z| == 1
    ensures |Repeat(z, k)| == k
    ensures forall i | 0 <= i < k :: Repeat(z, k)[i] == z[0]
  {
    if k > 0 {
      RepeatShape(z, k - 1);
      assert Repeat(z, k) == z + Repeat(z, k - 1);
    }
  }

  /** Any number of leading zeros leaves the value of a digit string unchanged. */
  lemma {:induction false} LeadingZeros(zeros: string, s: string)
    requires IsDigits(s)
    requires forall i | 0 <= i < |zeros| :: zeros[i] == '0'
    ensures IsDigits(zeros + s) && DecimalValue(zeros + s) == DecimalValue(s)
  {
    if s == "" {
      assert zeros + s == zeros;
      AllZeros(zeros);
    } else {
      var t := zeros + s;
      assert t[..|t| - 1] == zeros + s[..|s| - 1];
      LeadingZeros(zeros, s[..|s| - 1]);
    }
  }

  lemma {:induction false} AllZeros(zeros: string)
    requires forall i | 0 <= i < |zeros| :: zeros[i] == '0'
    ensures IsDigits(zeros) && DecimalValue(zeros) == 0
  {
    if zeros != "" {
      AllZeros(zeros[..|zeros| - 1]);
    }
  }
}
