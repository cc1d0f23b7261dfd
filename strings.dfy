/// Small string and sequence helpers used by every module of the model:
/// prefix and suffix tests, `Vec::join`, `Vec::reverse`, repetition and the
/// decimal rendering that Rust's `to_string` gives integers.
module Strings {

  predicate StartsWith(s: string, prefix: string) {
    |prefix| <= |s| && s[..|prefix|] == prefix
  }

  predicate EndsWith(s: string, suffix: string) {
    |suffix| <= |s| && s[|s| - |suffix|..] == suffix
  }

  /** `w` written `k` times in a row. */
  function Repeat(w: string, k: nat): (r: string)
    ensures |r| == k * |w|
  {
    if k == 0 then "" else w + Repeat(w, k - 1)
  }

  lemma {:induction false} RepeatSucc(w: string, k: nat)
    ensures Repeat(w, k) + w == Repeat(w, k + 1)
  {
    if k > 0 {
      RepeatSucc(w, k - 1);
      assert Repeat(w, k) + w == w + (Repeat(w, k - 1) + w);
    }
  }

  /** `parts` separated by `sep`, as `Vec<String>::join` does; no parts give "". */
  function Join(parts: seq<string>, sep: string): string
  {
    if |parts| == 0 then ""
    else if |parts| == 1 then parts[0]
    else parts[0] + sep + Join(parts[1..], sep)
  }

  lemma {:induction false} JoinAppend(parts: seq<string>, sep: string, last: string)
    requires |parts| > 0
    ensures Join(parts + [last], sep) == Join(parts, sep) + sep + last
  {
    if |parts| > 1 {
      assert (parts + [last])[1..] == parts[1..] + [last];
      JoinAppend(parts[1..], sep, last);
    } else {
      assert (parts + [last])[1..] == [last];
    }
  }

  /** The elements of `s` in the opposite order (`Vec::reverse`). */
  function Reversed<T>(s: seq<T>): (r: seq<T>)
    ensures |r| == |s|
    ensures forall i :: 0 <= i < |s| ==> r[i] == s[|s| - 1 - i]
  {
    if |s| == 0 then [] else Reversed(s[1..]) + [s[0]]
  }

  lemma ReversedAppend<T>(s: seq<T>, x: T)
    ensures Reversed(s + [x]) == [x] + Reversed(s)
  {
    assert forall i :: 0 <= i < |s| + 1 ==> Reversed(s + [x])[i] == ([x] + Reversed(s))[i];
  }

  /** `Vec::pop` for its effect: the last element removed, nothing for an empty vector. */
  function DropLast<T>(s: seq<T>): seq<T>
  {
    if |s| == 0 then s else s[..|s| - 1]
  }

  function DigitChar(d: nat): (c: char)
    requires d < 10
  {
    "0123456789"[d]
  }

  /** Decimal digits of `n`, most significant first, without leading zeros. */
  function NatToString(n: nat): (r: string)
    ensures |r| > 0
    ensures forall i :: 0 <= i < |r| ==> '0' <= r[i] <= '9'
  {
    if n < 10 then [DigitChar(n)] else NatToString(n / 10) + [DigitChar(n % 10)]
  }

  /** Rust's `to_string` of a signed integer. */
  function IntToString(i: int): string
  {
    if i < 0 then "-" + NatToString(-i) else NatToString(i)
  }

  /** Reads a string of decimal digits back into a number. */
  function ParseDigits(s: string): nat
  {
    if |s| == 0 then 0
    else
      var c := s[|s| - 1];
      var d := if '0' <= c <= '9' then (c as int) - ('0' as int) else 0;
      ParseDigits(s[..|s| - 1]) * 10 + d
  }

  lemma {:induction false} ParseNatToString(n: nat)
    ensures ParseDigits(NatToString(n)) == n
  {
    var r := NatToString(n);
    if n < 10 {
      assert r[..|r| - 1] == "";
    } else {
      var q := NatToString(n / 10);
      assert r[..|r| - 1] == q;
      ParseNatToString(n / 10);
    }
  }

  /** Distinct numbers have distinct decimal representations. */
  lemma NatToStringInjective(m: nat, n: nat)
    requires m != n
    ensures NatToString(m) != NatToString(n)
  {
    ParseNatToString(m);
    ParseNatToString(n);
  }
}
