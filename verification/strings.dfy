/** The pieces of Go's `strings` and `fmt` packages the generator relies on,
    over strings as sequences of characters. */
module Strings {
  import opened Options

  /** `pat` occurs in `s` starting at index `i`. */
  predicate OccursAt(pat: string, s: string, i: nat)
  {
    i + |pat| <= |s| && s[i..i + |pat|] == pat
  }

  /** Reference definition of substring occurrence. */
  ghost predicate IsSubstring(pat: string, s: string)
  {
    exists i: nat :: OccursAt(pat, s, i)
  }

  /** Occurrences in `s` past its first position are exactly the occurrences
      in `s[1..]`, shifted by one. */
  lemma {:induction false} ShiftOccurrence(pat: string, s: string)
    requires |s| > 0 && !(pat <= s)
    ensures IsSubstring(pat, s) <==> IsSubstring(pat, s[1..])
  {
    forall i: nat | OccursAt(pat, s[1..], i)
      ensures OccursAt(pat, s, i + 1)
    {
      assert s[i + 1..i + 1 + |pat|] == s[1..][i..i + |pat|];
    }
    forall i: nat | OccursAt(pat, s, i)
      ensures i >= 1 && OccursAt(pat, s[1..], i - 1)
    {
      assert i == 0 ==> pat <= s;
      assert s[i..i + |pat|] == s[1..][i - 1..i - 1 + |pat|];
    }
  }

  /** Go's `strings.Contains(s, pat)`: does `pat` occur in `s`? */
  function Contains(s: string, pat: string): (r: bool)
    ensures r <==> IsSubstring(pat, s)
    decreases |s|
  {
    if pat <= s then
      assert OccursAt(pat, s, 0);
      true
    else if |s| <= |pat| then
      false
    else
      ShiftOccurrence(pat, s);
      Contains(s[1..], pat)
  }

  /** Index of the first `c` in `s`, if any. */
  function IndexOf(s: string, c: char): (r: Option<nat>)
    ensures r.None? <==> c !in s
    ensures r.Some? ==> r.value < |s| && s[r.value] == c && c !in s[..r.value]
  {
    if |s| == 0 then None
    else if s[0] == c then Some(0)
    else
      match IndexOf(s[1..], c)
      case None => None
      case Some(i) =>
        assert s[..i + 1] == [s[0]] + s[1..][..i];
        Some(i + 1)
  }

  /** Index of the last `c` in `s`, if any. */
  function LastIndexOf(s: string, c: char): (r: Option<nat>)
    ensures r.None? <==> c !in s
    ensures r.Some? ==> r.value < |s| && s[r.value] == c && c !in s[r.value + 1..]
  {
    if |s| == 0 then None
    else if s[|s| - 1] == c then Some(|s| - 1)
    else
      var r := LastIndexOf(s[..|s| - 1], c);
      assert s == s[..|s| - 1] + [s[|s| - 1]];
      r
  }

  /** The longest prefix of `s` that does not contain `c`. */
  function TakeUntil(s: string, c: char): (r: string)
    ensures r <= s && c !in r
    ensures |r| < |s| ==> s[|r|] == c
  {
    match IndexOf(s, c)
    case None => s
    case Some(i) => s[..i]
  }

  /** Go's `strings.HasSuffix(s, suffix)`. */
  predicate HasSuffix(s: string, suffix: string)
  {
    |suffix| <= |s| && s[|s| - |suffix|..] == suffix
  }

  /** Go's `strings.TrimSuffix(s, suffix)`: `s` without `suffix` when it ends
      with it, `s` unchanged otherwise. */
  function TrimSuffix(s: string, suffix: string): (r: string)
    ensures HasSuffix(s, suffix) ==> r + suffix == s
    ensures !HasSuffix(s, suffix) ==> r == s
  {
    if HasSuffix(s, suffix) then s[..|s| - |suffix|] else s
  }

  /** The decimal digit for `d`. */
  function Digit(d: nat): (c: char)
    requires d < 10
    ensures '0' <= c <= '9'
    ensures c as int - '0' as int == d
  {
    ('0' as int + d) as char
  }

  /** The number a string of decimal digits denotes, most significant first. */
  ghost function DigitsValue(s: string): int
  {
    if |s| == 0 then 0
    else 10 * DigitsValue(s[..|s| - 1]) + (s[|s| - 1] as int - '0' as int)
  }

  /** Go's `fmt` rendering of a natural number with the `%d` verb. */
  function Decimal(n: nat): (r: string)
    ensures |r| >= 1
    ensures forall i :: 0 <= i < |r| ==> '0' <= r[i] <= '9'
    ensures r[0] == '0' <==> n == 0
  {
    if n < 10 then [Digit(n)] else Decimal(n / 10) + [Digit(n % 10)]
  }

  /** The digits `%d` writes denote the number. */
  lemma {:induction false} DecimalValue(n: nat)
    ensures DigitsValue(Decimal(n)) == n
  {
    if n >= 10 {
      var r := Decimal(n);
      assert r[..|r| - 1] == Decimal(n / 10);
      DecimalValue(n / 10);
    }
  }

  /** Text made of the given lines, each one terminated by a newline. */
  function Unlines(ls: seq<string>): (r: string)
  {
    if |ls| == 0 then "" else ls[0] + "\n" + Unlines(ls[1..])
  }

  /** The newline-separated lines of `s`; a final line without a terminating
      newline is kept. */
  function SplitLines(s: string): (r: seq<string>)
    ensures forall i :: 0 <= i < |r| ==> '\n' !in r[i]
    decreases |s|
  {
    if |s| == 0 then []
    else
      match IndexOf(s, '\n')
      case None => [s]
      case Some(i) => [s[..i]] + SplitLines(s[i + 1..])
  }

  lemma {:induction false} UnlinesAppend(a: seq<string>, b: seq<string>)
    ensures Unlines(a + b) == Unlines(a) + Unlines(b)
  {
    if |a| > 0 {
      assert (a + b)[1..] == a[1..] + b;
      UnlinesAppend(a[1..], b);
    } else {
      assert a + b == b;
    }
  }

  /** Splitting joined single lines gives the lines back. */
  lemma {:induction false} SplitUnlines(ls: seq<string>)
    requires forall i :: 0 <= i < |ls| ==> '\n' !in ls[i]
    ensures SplitLines(Unlines(ls)) == ls
  {
    if |ls| > 0 {
      var s := Unlines(ls);
      var n := |ls[0]|;
      assert s == ls[0] + ("\n" + Unlines(ls[1..]));
      assert s[n] == '\n';
      assert s[..n] == ls[0];
      assert IndexOf(s, '\n') == Some(n);
      assert s[n + 1..] == Unlines(ls[1..]);
      SplitUnlines(ls[1..]);
    }
  }

  /** Joining the lines of newline-terminated text gives the text back. */
  lemma {:induction false} UnlinesSplit(s: string)
    requires |s| == 0 || s[|s| - 1] == '\n'
    ensures Unlines(SplitLines(s)) == s
  {
    if |s| > 0 {
      assert '\n' in s;
      var i := IndexOf(s, '\n').value;
      var head, rest := s[..i], s[i + 1..];
      assert s == head + "\n" + rest by {
        assert s == s[..i] + [s[i]] + s[i + 1..];
      }
      assert |rest| == 0 || rest[|rest| - 1] == s[|s| - 1];
      assert SplitLines(s) == [head] + SplitLines(rest);
      UnlinesSplit(rest);
      assert ([head] + SplitLines(rest))[1..] == SplitLines(rest);
    }
  }
}
