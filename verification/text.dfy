/** String primitives of the JavaScript runtime that the tool relies on:
    `String.prototype.trim`, `toLowerCase`, `Array.prototype.join`,
    `includes` / `indexOf` and `endsWith`. Strings are `seq<char>`. */
module Text {
  import opened Wrappers

  /** The characters `trim` removes: ECMAScript WhiteSpace and LineTerminator. */
  predicate IsWhite(c: char) {
    c == '\t' || c == '\n' || c == '\U{000B}' || c == '\U{000C}' || c == '\r' || c == ' '
    || c == '\U{00A0}' || c == '\U{1680}' || ('\U{2000}' <= c <= '\U{200A}')
    || c == '\U{2028}' || c == '\U{2029}' || c == '\U{202F}' || c == '\U{205F}'
    || c == '\U{3000}' || c == '\U{FEFF}'
  }

  /** A string is blank when `s.trim()` is the empty (falsy) string. */
  predicate IsBlank(s: string) {
    forall i :: 0 <= i < |s| ==> IsWhite(s[i])
  }

  function TrimStart(s: string): (r: string)
    ensures |r| <= |s| && r == s[|s| - |r|..]
    ensures |r| > 0 ==> !IsWhite(r[0])
    ensures IsBlank(s[..|s| - |r|])
  {
    if |s| > 0 && IsWhite(s[0]) then
      var r := TrimStart(s[1..]);
      assert s[1..][..|s[1..]| - |r|] == s[1..|s| - |r|];
      r
    else s
  }

  function TrimEnd(s: string): (r: string)
    ensures |r| <= |s| && r == s[..|r|]
    ensures |r| > 0 ==> !IsWhite(r[|r| - 1])
    ensures IsBlank(s[|r|..])
  {
    if |s| > 0 && IsWhite(s[|s| - 1]) then
      var r := TrimEnd(s[..|s| - 1]);
      assert s[..|s| - 1][|r|..] == s[|r|..|s| - 1];
      r
    else s
  }

  /** `s.trim()`: the longest infix of `s` that neither starts nor ends with white space. */
  function Trim(s: string): (r: string)
    ensures IsInfix(r, s)
    ensures |r| > 0 ==> !IsWhite(r[0]) && !IsWhite(r[|r| - 1])
  {
    var a := TrimStart(s);
    var r := TrimEnd(a);
    assert s[|s| - |a|..] == a && IsPrefix(r, a);
    assert |r| > 0 ==> r[0] == a[0];
    r
  }

  /** `s.trim()` is empty exactly when every character of `s` is white space. */
  lemma TrimEmptyIffBlank(s: string)
    ensures Trim(s) == [] <==> IsBlank(s)
  {
    var a := TrimStart(s);
    if Trim(s) == [] {
      assert a == [];
      assert s[..|s|] == s;
    }
  }

  /** `s` neither starts nor ends with white space. */
  predicate Trimmed(s: string) {
    |s| == 0 || (!IsWhite(s[0]) && !IsWhite(s[|s| - 1]))
  }

  /** `s.trim() === s` exactly when `s` has no surrounding white space. */
  lemma TrimIdentityIffTrimmed(s: string)
    ensures Trim(s) == s <==> Trimmed(s)
  {
    if Trimmed(s) && |s| > 0 {
      assert TrimStart(s) == s;
      assert TrimEnd(s) == s;
    }
  }

  /** Trimming that removes nothing returns the string itself. */
  lemma TrimOfSameLength(s: string)
    requires |Trim(s)| == |s|
    ensures Trim(s) == s
  {
    var r := Trim(s);
    var k :| 0 <= k <= |s| && IsPrefix(r, s[k..]);
    assert k == 0 && s[0..][..|s|] == s;
  }

  /** `t.trim().length > 0`, the test both the search route and the
      highlighter use to drop blank terms: some character is not white
      space (`NonBlankIffTrimNotEmpty`). */
  predicate NonBlank(t: string) {
    !IsBlank(t)
  }

  lemma NonBlankIffTrimNotEmpty(t: string)
    ensures NonBlank(t) <==> Trim(t) != ""
  {
    TrimEmptyIffBlank(t);
  }

  /** A non-blank string has a character. */
  lemma NonBlankNotEmpty(t: string)
    requires NonBlank(t)
    ensures |t| > 0
  {
  }

  /** ASCII case mapping of `toLowerCase` and of PostgreSQL's `lower`. */
  function LowerChar(c: char): char {
    if 'A' <= c <= 'Z' then (c as int - 'A' as int + 'a' as int) as char else c
  }

  function Lower(s: string): (r: string)
    ensures |r| == |s|
    ensures forall i :: 0 <= i < |s| ==> r[i] == LowerChar(s[i])
  {
    seq(|s|, i requires 0 <= i < |s| => LowerChar(s[i]))
  }

  lemma LowerChangesNoWhiteSpace(c: char)
    ensures IsWhite(LowerChar(c)) <==> IsWhite(c)
  {
  }

  /** Lower-casing twice changes nothing more. */
  lemma LowerIdempotent(s: string)
    ensures Lower(Lower(s)) == Lower(s)
  {
  }

  /** Lower-casing keeps a string blank or non-blank. */
  lemma LowerKeepsBlankness(s: string)
    ensures NonBlank(Lower(s)) <==> NonBlank(s)
  {
    forall i | 0 <= i < |s| ensures IsWhite(Lower(s)[i]) <==> IsWhite(s[i]) {
      LowerChangesNoWhiteSpace(s[i]);
    }
  }

  lemma LowerAppend(a: string, b: string)
    ensures Lower(a + b) == Lower(a) + Lower(b)
  {
  }

  /** `Array.prototype.join(sep)` over strings. */
  function Join(xs: seq<string>, sep: string): string
  {
    if |xs| == 0 then ""
    else if |xs| == 1 then xs[0]
    else xs[0] + sep + Join(xs[1..], sep)
  }

  /** Joining with white space is blank exactly when every joined string is. */
  lemma {:induction false} JoinBlank(xs: seq<string>, sep: string)
    requires IsBlank(sep)
    ensures IsBlank(Join(xs, sep)) <==> forall i :: 0 <= i < |xs| ==> IsBlank(xs[i])
  {
    if |xs| > 1 {
      JoinBlank(xs[1..], sep);
      var rest := Join(xs[1..], sep);
      var j := xs[0] + sep + rest;
      assert j == Join(xs, sep);
      if IsBlank(j) {
        assert forall i :: 0 <= i < |xs[0]| ==> j[i] == xs[0][i];
        assert forall i :: 0 <= i < |rest| ==> j[|xs[0]| + |sep| + i] == rest[i];
        assert IsBlank(rest);
        forall i | 0 <= i < |xs| ensures IsBlank(xs[i]) {
          if i > 0 {
            assert xs[i] == xs[1..][i - 1];
          }
        }
      } else {
        var k :| 0 <= k < |j| && !IsWhite(j[k]);
        if k >= |xs[0]| + |sep| {
          assert j[k] == rest[k - |xs[0]| - |sep|];
          var i :| 0 <= i < |xs[1..]| && !IsBlank(xs[1..][i]);
          assert xs[1..][i] == xs[i + 1];
        } else if k < |xs[0]| {
          assert j[k] == xs[0][k];
        }
      }
    }
  }

  /** `prefix` occurs at the start of `s`. */
  predicate IsPrefix(prefix: string, s: string) {
    |prefix| <= |s| && s[..|prefix|] == prefix
  }

  /** `s.includes(t)`: plain substring containment. */
  predicate IsInfix(t: string, s: string) {
    exists k :: 0 <= k <= |s| && IsPrefix(t, s[k..])
  }

  /** Containment is transitive. */
  lemma InfixTrans(a: string, b: string, c: string)
    requires IsInfix(a, b) && IsInfix(b, c)
    ensures IsInfix(a, c)
  {
    var i :| 0 <= i <= |b| && IsPrefix(a, b[i..]);
    var j :| 0 <= j <= |c| && IsPrefix(b, c[j..]);
    assert i + |a| <= |b| && j + |b| <= |c|;
    forall k | 0 <= k < |a| ensures c[j + i..][k] == a[k] {
      assert c[j + i + k] == c[j..][..|b|][i + k] == b[i + k] == b[i..][..|a|][k];
    }
    assert c[j + i..][..|a|] == a;
  }

  /** Containment survives lower-casing both sides. */
  lemma LowerInfix(a: string, b: string)
    requires IsInfix(a, b)
    ensures IsInfix(Lower(a), Lower(b))
  {
    var i :| 0 <= i <= |b| && IsPrefix(a, b[i..]);
    assert Lower(b)[i..][..|a|] == Lower(a);
  }

  /** Every joined string occurs in the joined text. */
  lemma {:induction false} JoinHasEach(xs: seq<string>, sep: string, i: nat)
    requires i < |xs|
    ensures IsInfix(xs[i], Join(xs, sep))
  {
    var j := Join(xs, sep);
    if |xs| == 1 {
      assert j[0..][..|xs[0]|] == xs[0];
    } else {
      var rest := Join(xs[1..], sep);
      assert j == xs[0] + sep + rest;
      if i == 0 {
        assert j[0..][..|xs[0]|] == xs[0];
      } else {
        JoinHasEach(xs[1..], sep, i - 1);
        assert xs[1..][i - 1] == xs[i];
        var k :| 0 <= k <= |rest| && IsPrefix(xs[i], rest[k..]);
        assert j[|xs[0]| + |sep| + k..] == rest[k..];
      }
    }
  }

  /** `s.endsWith(suffix)`. */
  predicate EndsWith(s: string, suffix: string) {
    |suffix| <= |s| && s[|s| - |suffix|..] == suffix
  }

  /** `s.indexOf(t, from)`: the first position at or after `from` where `t` occurs. */
  function IndexOfFrom(s: string, t: string, from: nat): (r: Option<nat>)
    requires from <= |s|
    decreases |s| - from
    ensures r.Some? ==> from <= r.value <= |s| && IsPrefix(t, s[r.value..])
    ensures r.Some? ==> forall k :: from <= k < r.value ==> !IsPrefix(t, s[k..])
    ensures r.None? ==> forall k :: from <= k <= |s| ==> !IsPrefix(t, s[k..])
  {
    if IsPrefix(t, s[from..]) then Some(from)
    else if from == |s| then None
    else IndexOfFrom(s, t, from + 1)
  }

  function IndexOf(s: string, t: string): (r: Option<nat>)
    ensures r.Some? <==> IsInfix(t, s)
    ensures r.Some? ==> r.value <= |s| && IsPrefix(t, s[r.value..])
    ensures r.Some? ==> forall k :: 0 <= k < r.value ==> !IsPrefix(t, s[k..])
  {
    IndexOfFrom(s, t, 0)
  }

  /** Decimal rendering of an integer, as `String(n)` produces it. */
  function IntToString(n: int): string
  {
    if n < 0 then "-" + NatToString(-n) else NatToString(n)
  }

  function NatToString(n: nat): (r: string)
    ensures |r| > 0
    ensures forall i :: 0 <= i < |r| ==> '0' <= r[i] <= '9'
    decreases n
  {
    if n < 10 then [DigitChar(n)] else NatToString(n / 10) + [DigitChar(n % 10)]
  }

  function DigitChar(d: nat): char
    requires d < 10
  {
    ('0' as int + d) as char
  }
}
