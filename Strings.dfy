/** String helpers that stand for the Python built-ins the analyzer uses:
    `str.endswith`, `str.startswith`, `str.split('*')[0]`, slicing,
    `str.strip()` and the decimal rendering of an `int` inside an f-string,
    together with `Concat`, the reference joining a list of strings back into
    one, in which the chunk round trip is stated. */
module Strings {

  /** `s.endswith(suffix)`; every string ends with the empty string. */
  predicate EndsWith(s: string, suffix: string) {
    |suffix| <= |s| && s[|s| - |suffix|..] == suffix
  }

  /** `s.startswith(prefix)`; every string starts with the empty string. */
  predicate StartsWith(s: string, prefix: string) {
    |prefix| <= |s| && s[..|prefix|] == prefix
  }

  /** `p.split('*')[0]`: the longest prefix of `p` that holds no `*`. */
  function BeforeFirstStar(p: string): (r: string)
    ensures StartsWith(p, r)
    ensures '*' !in r
    ensures |r| < |p| ==> p[|r|] == '*'
  {
    if p == [] || p[0] == '*' then [] else [p[0]] + BeforeFirstStar(p[1..])
  }

  function Min(a: int, b: int): int { if a <= b then a else b }

  /** Python's `s[i:j]` for non-negative bounds: both ends are clamped to `|s|`
      and an empty slice results when `j <= i`. */
  function Slice(s: string, i: nat, j: nat): (r: string)
    ensures |r| <= |s|
    ensures i <= j ==> |r| <= j - i
    ensures i <= j <= |s| ==> r == s[i..j]
    ensures |s| <= i ==> r == []
  {
    var lo := Min(i, |s|);
    var hi := Min(j, |s|);
    if lo <= hi then s[lo..hi] else []
  }

  /** The strings of `ss` joined end to end, in order. */
  function Concat(ss: seq<string>): string {
    if ss == [] then [] else Concat(ss[..|ss| - 1]) + ss[|ss| - 1]
  }

  lemma {:induction false} ConcatAppend(a: seq<string>, b: seq<string>)
    ensures Concat(a + b) == Concat(a) + Concat(b)
    decreases |b|
  {
    if b == [] {
      assert a + b == a;
    } else {
      var b' := b[..|b| - 1];
      assert (a + b)[..|a + b| - 1] == a + b';
      ConcatAppend(a, b');
    }
  }

  /** The characters `str.isspace()` accepts, so the ones `str.strip()` removes. */
  predicate IsSpace(c: char) {
    var n := c as int;
    (0x09 <= n <= 0x0D) || (0x1C <= n <= 0x20) || n == 0x85 || n == 0xA0 || n == 0x1680
    || (0x2000 <= n <= 0x200A) || n == 0x2028 || n == 0x2029 || n == 0x202F
    || n == 0x205F || n == 0x3000
  }

  /** `s.lstrip()`: drops the leading run of white space, nothing else. */
  function TrimStart(s: string): (r: string)
    ensures |r| <= |s| && r == s[|s| - |r|..]
    ensures forall i :: 0 <= i < |s| - |r| ==> IsSpace(s[i])
    ensures r != [] ==> !IsSpace(r[0])
  {
    if s != [] && IsSpace(s[0]) then TrimStart(s[1..]) else s
  }

  /** `s.rstrip()`: drops the trailing run of white space, nothing else. */
  function TrimEnd(s: string): (r: string)
    ensures |r| <= |s| && r == s[..|r|]
    ensures forall i :: |r| <= i < |s| ==> IsSpace(s[i])
    ensures r != [] ==> !IsSpace(r[|r| - 1])
  {
    if s != [] && IsSpace(s[|s| - 1]) then TrimEnd(s[..|s| - 1]) else s
  }

  /** `s.strip()`: `TrimStart(s)` is `s` less its leading white space, and the
      result is `TrimStart(s)` less its trailing white space, so it neither
      starts nor ends with white space. `StripDropsOnlySpace` states the same
      as one slice of `s`. */
  function Strip(s: string): (r: string)
    ensures |r| <= |TrimStart(s)| <= |s|
    ensures r != [] ==> !IsSpace(r[0]) && !IsSpace(r[|r| - 1])
    ensures r == TrimStart(s)[..|r|]
    ensures forall i :: |r| <= i < |TrimStart(s)| ==> IsSpace(TrimStart(s)[i])
  {
    TrimEnd(TrimStart(s))
  }

  /** What `strip()` keeps is the slice `s[a..a + |Strip(s)|]`, and every character
      it drops, before or after that slice, is white space. */
  lemma StripDropsOnlySpace(s: string) returns (a: nat)
    ensures a + |Strip(s)| <= |s| && Strip(s) == s[a..a + |Strip(s)|]
    ensures forall i :: 0 <= i < a ==> IsSpace(s[i])
    ensures forall i :: a + |Strip(s)| <= i < |s| ==> IsSpace(s[i])
  {
    var t := TrimStart(s);
    a := |s| - |t|;
    TrimEndInside(s, t, a);
  }

  lemma TrimEndInside(s: string, t: string, a: nat)
    requires a <= |s| && t == s[a..]
    ensures TrimEnd(t) == s[a..a + |TrimEnd(t)|]
    ensures forall i :: a + |TrimEnd(t)| <= i < |s| ==> IsSpace(s[i])
  {
    var r := TrimEnd(t);
    assert forall i :: a + |r| <= i < |s| ==> s[i] == t[i - a];
  }

  /** A string without white space at either end is its own `strip()`. */
  lemma StripUnchanged(s: string)
    requires s != [] ==> !IsSpace(s[0]) && !IsSpace(s[|s| - 1])
    ensures Strip(s) == s
  {
  }

  predicate IsDigit(c: char) { '0' <= c <= '9' }

  function DigitChar(d: nat): (c: char)
    requires d < 10
    ensures IsDigit(c) && DigitValue(c) == d
  {
    (('0' as int) + d) as char
  }

  function DigitValue(c: char): nat
    requires IsDigit(c)
  {
    (c as int) - ('0' as int)
  }

  /** `str(n)` for a natural number, as an f-string renders `{i + 1}`: decimal
      digits without a leading zero that read back as `n`. */
  function Decimal(n: nat): (r: string)
    ensures r != []
    ensures forall i :: 0 <= i < |r| ==> IsDigit(r[i])
    ensures r[0] == '0' ==> n == 0 && |r| == 1
    ensures DecimalValue(r) == n
  {
    if n < 10 then [DigitChar(n)]
    else
      var high := Decimal(n / 10);
      var r := high + [DigitChar(n % 10)];
      assert r[..|r| - 1] == high;
      r
  }

  /** The value of a string of decimal digits, read left to right. */
  function DecimalValue(s: string): nat
    requires forall i :: 0 <= i < |s| ==> IsDigit(s[i])
  {
    if s == [] then 0
    else 10 * DecimalValue(s[..|s| - 1]) + DigitValue(s[|s| - 1])
  }
}
