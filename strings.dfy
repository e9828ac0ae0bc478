/**
 * String helpers shared by the anchoring engine: the JavaScript string
 * operations the highlighter relies on (`slice`, `startsWith`, `endsWith`,
 * `join`, `toLowerCase`, number formatting), written over `seq<char>`.
 * JavaScript string length is taken to be the number of characters.
 */
module Strings {

  function Min(a: int, b: int): int { if a <= b then a else b }
  function Max(a: int, b: int): int { if a >= b then a else b }
  function Abs(x: int): nat { if x < 0 then -x else x }

  /** The concatenation, in order, of a sequence of strings. */
  function Concat(ss: seq<string>): string {
    if ss == [] then "" else ss[0] + Concat(ss[1..])
  }

  lemma {:induction false} ConcatAppend(a: seq<string>, b: seq<string>)
    ensures Concat(a + b) == Concat(a) + Concat(b)
  {
    if a == [] {
      assert a + b == b;
    } else {
      assert (a + b)[1..] == a[1..] + b;
      ConcatAppend(a[1..], b);
    }
  }

  /** Concat of a prefix extended by one more element. */
  lemma ConcatSnoc(ss: seq<string>, k: nat)
    requires k < |ss|
    ensures Concat(ss[..k + 1]) == Concat(ss[..k]) + ss[k]
  {
    assert ss[..k + 1] == ss[..k] + [ss[k]];
    ConcatAppend(ss[..k], [ss[k]]);
  }

  /** Splitting a sequence of strings at `k` splits its concatenation. */
  lemma ConcatSplit(ss: seq<string>, k: nat)
    requires k <= |ss|
    ensures Concat(ss) == Concat(ss[..k]) + Concat(ss[k..])
  {
    assert ss == ss[..k] + ss[k..];
    ConcatAppend(ss[..k], ss[k..]);
  }

  /** Concat of a slice splits at any point inside it. */
  lemma ConcatRange(ss: seq<string>, lo: nat, k: nat, hi: nat)
    requires lo <= k <= hi <= |ss|
    ensures Concat(ss[lo..hi]) == Concat(ss[lo..k]) + Concat(ss[k..hi])
  {
    var s := ss[lo..hi];
    ConcatSplit(s, k - lo);
    assert s[..k - lo] == ss[lo..k];
    assert s[k - lo..] == ss[k..hi];
  }

  /** Concat of a non-empty slice starts with its first string. */
  lemma ConcatStep(ss: seq<string>, i: nat, hi: nat)
    requires i < hi <= |ss|
    ensures Concat(ss[i..hi]) == ss[i] + Concat(ss[i + 1..hi])
  {
    assert ss[i..hi][1..] == ss[i + 1..hi];
  }

  /** `s.slice(-n)` for n >= 1: the last min(n, |s|) characters. */
  function Last(s: string, n: nat): (r: string)
    ensures |r| == Min(n, |s|)
    ensures r == s[|s| - |r|..]
  {
    s[|s| - Min(n, |s|)..]
  }

  /** `s.slice(0, n)` for n >= 0: the first min(n, |s|) characters. */
  function First(s: string, n: nat): (r: string)
    ensures |r| == Min(n, |s|)
    ensures r == s[..|r|]
  {
    s[..Min(n, |s|)]
  }

  /** `s.slice(k)` for k >= 0: JavaScript clamps k to the length. */
  function From(s: string, k: nat): (r: string)
    ensures |r| == |s| - Min(k, |s|)
  {
    s[Min(k, |s|)..]
  }

  predicate StartsWith(s: string, p: string) {
    |p| <= |s| && s[..|p|] == p
  }

  predicate EndsWith(s: string, p: string) {
    |p| <= |s| && s[|s| - |p|..] == p
  }

  /** A string ends with `p` iff any suffix of it at least as long as `p` does. */
  lemma EndsWithSuffix(s: string, k: nat, p: string)
    requires k <= |s| && |p| <= |s| - k
    ensures EndsWith(s[k..], p) <==> EndsWith(s, p)
  {
    assert s[k..][|s[k..]| - |p|..] == s[|s| - |p|..];
  }

  /** A string starts with `p` iff any prefix of it at least as long as `p` does. */
  lemma StartsWithPrefix(s: string, k: nat, p: string)
    requires |p| <= k <= |s|
    ensures StartsWith(s[..k], p) <==> StartsWith(s, p)
  {
    assert s[..k][..|p|] == s[..|p|];
  }

  /** ASCII `toLowerCase`, as applied to element names. */
  function LowerChar(c: char): char {
    if 'A' <= c <= 'Z' then (c as int + 32) as char else c
  }

  function Lower(s: string): (r: string)
    ensures |r| == |s|
    ensures forall i :: 0 <= i < |s| ==> r[i] == LowerChar(s[i])
  {
    if s == [] then "" else [LowerChar(s[0])] + Lower(s[1..])
  }

  function DigitChar(d: nat): char
    requires d < 10
  {
    "0123456789"[d]
  }

  /** Decimal rendering of a natural number, as a template literal does it. */
  function NatToString(n: nat): (r: string)
    ensures |r| >= 1
    ensures forall i :: 0 <= i < |r| ==> '0' <= r[i] <= '9'
  {
    if n < 10 then [DigitChar(n)] else NatToString(n / 10) + [DigitChar(n % 10)]
  }

  /** `parts.join(sep)`. */
  function Join(parts: seq<string>, sep: string): string {
    if parts == [] then ""
    else if |parts| == 1 then parts[0]
    else parts[0] + sep + Join(parts[1..], sep)
  }
}
