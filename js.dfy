/** The few pieces of JavaScript value semantics the application relies on:
    optional values (`undefined`/`null`), the truthiness of strings,
    `String.prototype.trim`, `startsWith`, substring search and the
    truncating remainder operator `%`. Strings are sequences of characters. */
module Js {

  /** A value that may be `undefined` or `null` (None) or present (Some). */
  datatype Option<+T> = None | Some(value: T) {
    function GetOr(default: T): T {
      match this
      case Some(v) => v
      case None => default
    }
  }

  /** A string is truthy exactly when it is present and not empty. */
  predicate Truthy(s: Option<string>) {
    s.Some? && s.value != ""
  }

  /** `a || b` for an optional string and a string fallback. */
  function OrElse(s: Option<string>, fallback: string): (r: string)
    ensures Truthy(s) ==> Some(r) == s
    ensures !Truthy(s) ==> r == fallback
  {
    if Truthy(s) then s.value else fallback
  }

  /** The characters `trim` removes: the WhiteSpace and LineTerminator
      code points of the ECMAScript grammar (section 12.2 and 12.3 of
      ECMA-262), including every space separator of Unicode category Zs. */
  predicate IsWhitespace(c: char) {
    || c == '\t' || c == '\n' || c == '\U{B}' || c == '\U{C}' || c == '\r'
    || c == ' ' || c == '\U{A0}' || c == '\U{1680}'
    || ('\U{2000}' <= c <= '\U{200A}')
    || c == '\U{2028}' || c == '\U{2029}' || c == '\U{202F}' || c == '\U{205F}'
    || c == '\U{3000}' || c == '\U{FEFF}'
  }

  /** A string made only of whitespace (the empty string included). */
  predicate IsBlank(s: string) {
    forall k :: 0 <= k < |s| ==> IsWhitespace(s[k])
  }

  /** `trim`: the string with whitespace removed at both ends. What is
      left neither starts nor ends with whitespace, and it is empty exactly
      when the input was made of whitespace only. */
  function Trim(s: string): (r: string)
    ensures |r| <= |s|
    ensures r != [] ==> !IsWhitespace(r[0]) && !IsWhitespace(r[|r| - 1])
    ensures r == [] <==> IsBlank(s)
  {
    if s != [] && IsWhitespace(s[0]) then
      Trim(s[1..])
    else if s != [] && IsWhitespace(s[|s| - 1]) then
      Trim(s[..|s| - 1])
    else s
  }

  /** Trimming an already trimmed string changes nothing. */
  lemma {:induction false} TrimIdempotent(s: string)
    ensures Trim(Trim(s)) == Trim(s)
  {
    var r := Trim(s);
    if r != [] {
      assert !IsWhitespace(r[0]) && !IsWhitespace(r[|r| - 1]);
    }
  }

  /** What `trim` removes is whitespace at the two ends and nothing else:
      the result is the slice `s[a..b]`, with whitespace only before `a`
      and after `b`. */
  lemma {:induction false} TrimIsInfix(s: string) returns (a: nat, b: nat)
    ensures a <= b <= |s|
    ensures Trim(s) == s[a..b]
    ensures IsBlank(s[..a]) && IsBlank(s[b..])
  {
    if s != [] && IsWhitespace(s[0]) {
      var a', b' := TrimIsInfix(s[1..]);
      TrimInfixFront(s, a', b');
      a, b := a' + 1, b' + 1;
    } else if s != [] && IsWhitespace(s[|s| - 1]) {
      a, b := TrimIsInfix(s[..|s| - 1]);
      TrimInfixBack(s, a, b);
    } else {
      a, b := 0, |s|;
      assert s[0..|s|] == s;
    }
  }

  /** The step of `TrimIsInfix` that drops leading whitespace. */
  lemma TrimInfixFront(s: string, a: nat, b: nat)
    requires s != [] && IsWhitespace(s[0])
    requires a <= b <= |s| - 1
    requires Trim(s[1..]) == s[1..][a..b]
    requires IsBlank(s[1..][..a]) && IsBlank(s[1..][b..])
    ensures Trim(s) == s[a + 1..b + 1]
    ensures IsBlank(s[..a + 1]) && IsBlank(s[b + 1..])
  {
    var t := s[1..];
    assert t[a..b] == s[a + 1..b + 1];
    assert s[..a + 1] == [s[0]] + t[..a];
    BlankAppend([s[0]], t[..a]);
    assert s[b + 1..] == t[b..];
  }

  /** The step of `TrimIsInfix` that drops trailing whitespace. */
  lemma TrimInfixBack(s: string, a: nat, b: nat)
    requires s != [] && !IsWhitespace(s[0]) && IsWhitespace(s[|s| - 1])
    requires a <= b <= |s| - 1
    requires Trim(s[..|s| - 1]) == s[..|s| - 1][a..b]
    requires IsBlank(s[..|s| - 1][..a]) && IsBlank(s[..|s| - 1][b..])
    ensures Trim(s) == s[a..b]
    ensures IsBlank(s[..a]) && IsBlank(s[b..])
  {
    var t := s[..|s| - 1];
    assert Trim(s) == Trim(t);
    SliceOfPrefix(s, |s| - 1, a, b);
    SliceOfPrefix(s, |s| - 1, 0, a);
    SuffixSplitsLast(s, b);
    BlankAppend(t[b..], [s[|s| - 1]]);
  }

  lemma SuffixSplitsLast(s: string, b: nat)
    requires b < |s|
    ensures s[b..] == s[..|s| - 1][b..] + [s[|s| - 1]]
  {
  }

  lemma SliceOfPrefix(s: string, n: nat, a: nat, b: nat)
    requires a <= b <= n <= |s|
    ensures s[..n][a..b] == s[a..b]
  {
  }

  lemma BlankAppend(x: string, y: string)
    requires IsBlank(x) && IsBlank(y)
    ensures IsBlank(x + y)
  {
    forall k | 0 <= k < |x + y|
      ensures IsWhitespace((x + y)[k])
    {
      if k < |x| {
        assert (x + y)[k] == x[k];
      } else {
        assert (x + y)[k] == y[k - |x|];
      }
    }
  }

  /** `s.startsWith(p)`. */
  predicate StartsWith(s: string, p: string) {
    |p| <= |s| && s[..|p|] == p
  }

  /** `pat` occurs in `s` starting at index `i`. */
  predicate OccursAt(s: string, pat: string, i: int) {
    0 <= i && i + |pat| <= |s| && s[i..i + |pat|] == pat
  }

  /** `s.indexOf(pat, from)` for a non-empty pattern: the leftmost
      occurrence at or after `from`, or None when there is none. */
  function IndexOf(s: string, pat: string, from: nat): (r: Option<nat>)
    requires pat != []
    ensures r.Some? ==> from <= r.value && OccursAt(s, pat, r.value)
    ensures r.Some? ==> forall k :: from <= k < r.value ==> !OccursAt(s, pat, k)
    ensures r.None? ==> forall k :: from <= k ==> !OccursAt(s, pat, k)
    decreases |s| - from
  {
    if from + |pat| > |s| then None
    else if s[from..from + |pat|] == pat then Some(from)
    else IndexOf(s, pat, from + 1)
  }

  /** `s.indexOf(c)` for one character. */
  function FirstIndexOf(s: string, c: char): (r: Option<nat>)
    ensures r.Some? ==> r.value < |s| && s[r.value] == c
    ensures r.Some? ==> forall k :: 0 <= k < r.value ==> s[k] != c
    ensures r.None? ==> forall k :: 0 <= k < |s| ==> s[k] != c
  {
    if s == [] then None
    else if s[0] == c then Some(0)
    else
      match FirstIndexOf(s[1..], c)
      case Some(k) => Some(k + 1)
      case None => None
  }

  /** `s.lastIndexOf(c)` for one character. */
  function LastIndexOf(s: string, c: char): (r: Option<nat>)
    ensures r.Some? ==> r.value < |s| && s[r.value] == c
    ensures r.Some? ==> forall k :: r.value < k < |s| ==> s[k] != c
    ensures r.None? ==> forall k :: 0 <= k < |s| ==> s[k] != c
  {
    if s == [] then None
    else if s[|s| - 1] == c then Some(|s| - 1)
    else LastIndexOf(s[..|s| - 1], c)
  }

  function Abs(a: int): nat {
    if a < 0 then -a else a
  }

  /** JavaScript's `a % n`: the remainder of the division truncated toward
      zero, so it takes the sign of the dividend (only a positive divisor
      occurs here). */
  function Remainder(a: int, n: int): (r: int)
    requires n > 0
    ensures a >= 0 ==> 0 <= r < n
    ensures a < 0 ==> -n < r <= 0
    ensures a >= 0 ==> r == a % n
    ensures Abs(r) == Abs(a) % n
  {
    if a >= 0 then a % n else -((-a) % n)
  }

  /** The number a string of decimal digits spells. */
  function DigitsValue(s: string): nat
    requires forall k :: 0 <= k < |s| ==> '0' <= s[k] <= '9'
  {
    if s == [] then 0
    else DigitsValue(s[..|s| - 1]) * 10 + (s[|s| - 1] as int - '0' as int)
  }

  /** The decimal digits of a number, as `String(n)` prints a non-negative
      integer: they spell `n`, with no leading zero. */
  function DecimalString(n: nat): (r: string)
    ensures r != []
    ensures forall k :: 0 <= k < |r| ==> '0' <= r[k] <= '9'
    ensures DigitsValue(r) == n
    ensures |r| > 1 ==> r[0] != '0'
    ensures r[0] == '0' ==> n == 0
  {
    var d := [('0' as int + n % 10) as char];
    if n < 10 then d
    else
      var p := DecimalString(n / 10);
      assert (p + d)[..|p + d| - 1] == p;
      p + d
  }
}
