/** Character-level primitives shared by the name codecs: the digit class that
    the regular expressions' `\d` stands for, Python's `str(n)` and `int(s)` on
    runs of digits, and the scans the pattern matchers are built from. */
module Text {
  import opened Wrappers

  predicate IsDigit(c: char) {
    '0' <= c <= '9'
  }

  predicate AllDigits(s: string) {
    forall i :: 0 <= i < |s| ==> IsDigit(s[i])
  }

  /** The names the regular expressions are applied to: on these, the regex
      `.` is "any character" and `$` is "end of string". */
  predicate NoNewline(s: string) {
    forall i :: 0 <= i < |s| ==> s[i] != '\n'
  }

  function DigitValue(c: char): nat
    requires IsDigit(c)
  {
    c as int - '0' as int
  }

  function DigitChar(d: nat): (c: char)
    requires d < 10
    ensures IsDigit(c) && DigitValue(c) == d
  {
    ('0' as int + d) as char
  }

  /** Python's `int(s)` on a string of decimal digits (leading zeros allowed). */
  function Parse(s: string): nat
    requires AllDigits(s)
  {
    if s == [] then 0 else Parse(s[..|s| - 1]) * 10 + DigitValue(s[|s| - 1])
  }

  /** A single digit reads as its value. */
  lemma ParseDigit(c: char)
    requires IsDigit(c)
    ensures Parse([c]) == DigitValue(c)
  {
    assert [c][..0] == [];
  }

  /** Python's `str(n)` on a non-negative integer: decimal, no leading zero. */
  function Show(n: nat): (s: string)
    ensures s != [] && AllDigits(s) && NoNewline(s)
    ensures s[0] == '0' ==> n == 0 && s == "0"
  {
    if n < 10 then [DigitChar(n)] else Show(n / 10) + [DigitChar(n % 10)]
  }

  /** Python's `str(i)` on any integer. */
  function ShowInt(i: int): (s: string)
    ensures NoNewline(s)
    ensures i >= 0 ==> s == Show(i)
    ensures i < 0 ==> |s| > 0 && s[0] == '-'
  {
    if i < 0 then "-" + Show(-i) else Show(i)
  }

  /** `int(str(n)) == n` */
  lemma {:induction false} ParseShow(n: nat)
    ensures Parse(Show(n)) == n
  {
    if n >= 10 {
      var s := Show(n);
      assert s[..|s| - 1] == Show(n / 10);
      ParseShow(n / 10);
    }
  }

  /** Length of the longest run of digits that starts at index `from`. */
  function DigitRun(s: string, from: nat): (n: nat)
    requires from <= |s|
    ensures from + n <= |s|
    ensures forall i :: from <= i < from + n ==> IsDigit(s[i])
    ensures from + n == |s| || !IsDigit(s[from + n])
    decreases |s| - from
  {
    if from == |s| || !IsDigit(s[from]) then 0 else 1 + DigitRun(s, from + 1)
  }

  /** The run `DigitRun` measures, as a string, is all digits. */
  lemma DigitRunSlice(s: string, from: nat)
    requires from <= |s|
    ensures AllDigits(s[from..from + DigitRun(s, from)])
  {
    var t := s[from..from + DigitRun(s, from)];
    forall i | 0 <= i < |t|
      ensures IsDigit(t[i])
    {
      assert t[i] == s[from + i];
    }
  }

  /** Length of the longest run of digits that ends just before index `to`. */
  function DigitRunBefore(s: string, to: nat): (n: nat)
    requires to <= |s|
    ensures n <= to
    ensures forall i :: to - n <= i < to ==> IsDigit(s[i])
    ensures n == to || !IsDigit(s[to - n - 1])
  {
    if to == 0 || !IsDigit(s[to - 1]) then 0 else 1 + DigitRunBefore(s, to - 1)
  }

  /** A maximal run of digits is the one `DigitRun` finds. */
  lemma DigitRunIs(s: string, from: nat, n: nat)
    requires from + n <= |s|
    requires forall i :: from <= i < from + n ==> IsDigit(s[i])
    requires from + n == |s| || !IsDigit(s[from + n])
    ensures DigitRun(s, from) == n
  {
  }

  /** A maximal run of digits is the one `DigitRunBefore` finds. */
  lemma DigitRunBeforeIs(s: string, to: nat, n: nat)
    requires n <= to <= |s|
    requires forall i :: to - n <= i < to ==> IsDigit(s[i])
    requires n == to || !IsDigit(s[to - n - 1])
    ensures DigitRunBefore(s, to) == n
  {
  }

  /** Index of the last occurrence of `c` in `s`, if any. */
  function LastIndexOf(s: string, c: char): (r: Option<nat>)
    ensures r.None? ==> forall i :: 0 <= i < |s| ==> s[i] != c
    ensures r.Some? ==> r.value < |s| && s[r.value] == c
    ensures r.Some? ==> forall i :: r.value < i < |s| ==> s[i] != c
  {
    if s == [] then None
    else if s[|s| - 1] == c then Some(|s| - 1)
    else LastIndexOf(s[..|s| - 1], c)
  }

  /** The last occurrence is the one `LastIndexOf` finds. */
  lemma LastIndexOfIs(s: string, c: char, k: nat)
    requires k < |s| && s[k] == c
    requires forall i :: k < i < |s| ==> s[i] != c
    ensures LastIndexOf(s, c) == Some(k)
  {
  }

  /** A slice of a prefix is the same slice of the whole string. */
  lemma SliceOfPrefix(s: string, j: nat, a: nat, b: nat)
    requires a <= b <= j <= |s|
    ensures s[..j][a..b] == s[a..b]
  {
    var u, v := s[..j][a..b], s[a..b];
    forall i | 0 <= i < |u|
      ensures u[i] == v[i]
    {
      assert u[i] == s[a + i];
    }
  }

  /** A string cut after its first character and around the character at
      `k`. */
  lemma CutAfterFirst(s: string, k: nat)
    requires 0 < k < |s|
    ensures s == [s[0]] + s[1..k] + [s[k]] + s[k + 1..]
  {
    var t := [s[0]] + s[1..k] + [s[k]] + s[k + 1..];
    forall i | 0 <= i < |s|
      ensures t[i] == s[i]
    {
      if 0 < i < k {
        assert t[i] == s[1..k][i - 1];
      } else if i > k {
        assert t[i] == s[k + 1..][i - k - 1];
      }
    }
  }

  /** A string cut around the character at `k` and before its last
      character. */
  lemma CutBeforeLast(s: string, k: nat)
    requires k + 1 < |s|
    ensures s == s[..k] + [s[k]] + s[k + 1..|s| - 1] + [s[|s| - 1]]
  {
    var t := s[..k] + [s[k]] + s[k + 1..|s| - 1] + [s[|s| - 1]];
    forall i | 0 <= i < |s|
      ensures t[i] == s[i]
    {
      if i < k {
        assert t[i] == s[..k][i];
      } else if k < i < |s| - 1 {
        assert t[i] == s[k + 1..|s| - 1][i - k - 1];
      }
    }
  }

  /** A string cut around the character at `k` and again at `m`. */
  lemma CutAround(s: string, k: nat, m: nat)
    requires k < m <= |s|
    ensures s == s[..k] + [s[k]] + s[k + 1..m] + s[m..]
  {
    var t := s[..k] + [s[k]] + s[k + 1..m] + s[m..];
    forall i | 0 <= i < |s|
      ensures t[i] == s[i]
    {
      if i < k {
        assert t[i] == s[..k][i];
      } else if k < i < m {
        assert t[i] == s[k + 1..m][i - k - 1];
      } else if i >= m {
        assert t[i] == s[m..][i - m];
      }
    }
  }

  /** A prefix of `s` extended by the slice that follows it. */
  lemma PrefixExtend(s: string, i: nat, j: nat)
    requires i <= j <= |s|
    ensures s[..j] == s[..i] + s[i..j]
  {
  }
}
