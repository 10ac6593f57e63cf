/** Searching in strings, ASCII character classes, and decimal numbers. A character stands for a byte. */
module Text {
  // ----- searching ---------------------------------------------------------

  /** The first position of `c`, or the length when it does not occur. */
  function Find(s: string, c: char): (k: nat)
    ensures k <= |s| && (k < |s| ==> s[k] == c)
    ensures forall i :: 0 <= i < k ==> s[i] != c
  {
    if s == "" || s[0] == c then 0 else 1 + Find(s[1..], c)
  }

  /** Searching backwards from `n`: the last position of `c` below it, or -1. */
  function LastBefore(s: string, c: char, n: nat): (k: int)
    requires n <= |s|
    ensures -1 <= k < n
  {
    if n == 0 then -1 else if s[n - 1] == c then n - 1 else LastBefore(s, c, n - 1)
  }

  lemma {:induction false} LastBeforeIsLast(s: string, c: char, n: nat)
    requires n <= |s|
    ensures var k := LastBefore(s, c, n); (0 <= k ==> s[k] == c) && forall i :: k < i < n ==> s[i] != c
  {
    if n > 0 && s[n - 1] != c { LastBeforeIsLast(s, c, n - 1); }
  }

  /** The last position of `c`, or -1 when it does not occur. */
  function FindLast(s: string, c: char): (k: int)
    ensures -1 <= k < |s| && (0 <= k ==> s[k] == c)
    ensures forall i :: k < i < |s| ==> s[i] != c
  {
    LastBeforeIsLast(s, c, |s|);
    LastBefore(s, c, |s|)
  }

  predicate Lacks(s: string, c: char) { forall i :: 0 <= i < |s| ==> s[i] != c }

  lemma FindOf(a: string, b: string, c: char)
    requires Lacks(a, c) && (b == "" || b[0] == c)
    ensures Find(a + b, c) == |a|
  {
    hide Find;
    var k := Find(a + b, c);
    if b != "" { assert (a + b)[|a|] == c; }
  }

  lemma FindLastOf(a: string, c: char, b: string)
    requires Lacks(b, c)
    ensures FindLast(a + [c] + b, c) == |a|
  {
    hide FindLast;
    var s := a + [c] + b;
    assert s[|a|] == c && forall i :: |a| < i < |s| ==> s[i] == b[i - |a| - 1];
  }

  lemma FindLastNone(s: string, c: char)
    requires Lacks(s, c)
    ensures FindLast(s, c) == -1
  {
    hide FindLast;
  }

  // ----- characters --------------------------------------------------------

  function LowerChar(c: char): char {
    if 'A' <= c <= 'Z' then (c as int - 'A' as int + 'a' as int) as char else c
  }

  function Lower(s: string): (r: string)
    ensures |r| == |s| && forall i :: 0 <= i < |s| ==> r[i] == LowerChar(s[i])
  {
    seq(|s|, i requires 0 <= i < |s| => LowerChar(s[i]))
  }

  predicate IsAlpha(c: char) { 'a' <= c <= 'z' || 'A' <= c <= 'Z' }
  predicate IsDigit(c: char) { '0' <= c <= '9' }

  // ----- decimal numbers ---------------------------------------------------

  function DigitValue(c: char): int { c as int - '0' as int }

  function DigitChar(d: nat): char
    requires d < 10
  {
    ('0' as int + d) as char
  }

  /** How a number is printed. */
  function Digits(n: nat): (s: string)
    ensures s != "" && AllDigits(s)
  {
    if n < 10 then [DigitChar(n)] else Digits(n / 10) + [DigitChar(n % 10)]
  }

  predicate AllDigits(s: string) { forall i :: 0 <= i < |s| ==> IsDigit(s[i]) }

  /** The number a run of digits spells. */
  function Value(s: string): nat
    requires AllDigits(s)
  {
    if s == "" then 0 else Value(s[..|s| - 1]) * 10 + DigitValue(s[|s| - 1])
  }

  lemma {:induction false} ValueOfDigits(n: nat)
    ensures Value(Digits(n)) == n
  {
    var s := Digits(n);
    if n < 10 {
      assert s[..0] == "";
    } else {
      ValueOfDigits(n / 10);
      assert s[..|s| - 1] == Digits(n / 10);
    }
  }

  lemma {:induction false} ValueGrows(s: string, k: nat)
    requires AllDigits(s) && k <= |s|
    ensures Value(s[..k]) <= Value(s)
  {
    if k < |s| {
      ValueGrows(s[..|s| - 1], k);
      assert s[..|s| - 1][..k] == s[..k];
    } else {
      assert s[..k] == s;
    }
  }
}
