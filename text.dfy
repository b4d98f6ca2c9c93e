/** String helpers standing in for Python's f-string formatting of integers and `str.join`. */
module Text {

  predicate IsDigit(c: char) {
    '0' <= c <= '9'
  }

  function DigitChar(d: nat): (c: char)
    requires d < 10
    ensures IsDigit(c)
  {
    "0123456789"[d]
  }

  function DigitValue(c: char): (d: nat)
    requires IsDigit(c)
    ensures d < 10
  {
    (c as int - '0' as int) as nat
  }

  /** Decimal rendering of a natural number, as `f"{n}"` does. */
  function NatToString(n: nat): (s: string)
    ensures |s| >= 1
    ensures forall i :: 0 <= i < |s| ==> IsDigit(s[i])
  {
    if n < 10 then [DigitChar(n)] else NatToString(n / 10) + [DigitChar(n % 10)]
  }

  /** The number a string of decimal digits denotes. */
  function DigitsValue(s: string): nat
    requires forall i :: 0 <= i < |s| ==> IsDigit(s[i])
  {
    if s == [] then 0 else DigitsValue(s[..|s| - 1]) * 10 + DigitValue(s[|s| - 1])
  }

  /** The longest prefix of `s` made of decimal digits. */
  function LeadingDigits(s: string): (r: string)
    ensures |r| <= |s| && r == s[..|r|]
    ensures forall i :: 0 <= i < |r| ==> IsDigit(r[i])
    ensures |r| < |s| ==> !IsDigit(s[|r|])
  {
    if s == [] || !IsDigit(s[0]) then [] else [s[0]] + LeadingDigits(s[1..])
  }

  /** Reads back the decimal number at the start of `s` (0 when there is none). */
  function ReadNat(s: string): nat {
    DigitsValue(LeadingDigits(s))
  }

  lemma {:induction false} DigitCharValue(d: nat)
    requires d < 10
    ensures DigitValue(DigitChar(d)) == d
  {
    assert "0123456789"[d] as int == '0' as int + d;
  }

  /** Rendering a number in decimal and reading it back gives the number. */
  lemma {:induction false} NatToStringRoundTrip(n: nat)
    ensures DigitsValue(NatToString(n)) == n
  {
    var s := NatToString(n);
    if n < 10 {
      DigitCharValue(n);
      assert s[..0] == [];
    } else {
      NatToStringRoundTrip(n / 10);
      DigitCharValue(n % 10);
      assert s[..|s| - 1] == NatToString(n / 10);
    }
  }

  lemma {:induction false} LeadingDigitsOfDigitsThen(d: string, rest: string)
    requires forall i :: 0 <= i < |d| ==> IsDigit(d[i])
    requires rest == [] || !IsDigit(rest[0])
    ensures LeadingDigits(d + rest) == d
  {
    if d != [] {
      assert (d + rest)[1..] == d[1..] + rest;
      LeadingDigitsOfDigitsThen(d[1..], rest);
    } else {
      assert d + rest == rest;
    }
  }

  /** A number rendered in decimal, followed by anything not starting with a digit, reads back as that number. */
  lemma ReadNatOfRendered(n: nat, rest: string)
    requires rest == [] || !IsDigit(rest[0])
    ensures ReadNat(NatToString(n) + rest) == n
  {
    LeadingDigitsOfDigitsThen(NatToString(n), rest);
    NatToStringRoundTrip(n);
  }

  /** A number rendered after a fixed prefix reads back after that prefix. */
  lemma ReadNatAfterPrefix(p: string, n: nat, rest: string)
    requires rest == [] || !IsDigit(rest[0])
    ensures |p + NatToString(n) + rest| > |p|
    ensures (p + NatToString(n) + rest)[..|p|] == p
    ensures ReadNat((p + NatToString(n) + rest)[|p|..]) == n
  {
    assert (p + NatToString(n) + rest)[|p|..] == NatToString(n) + rest;
    ReadNatOfRendered(n, rest);
  }

  /** `sep.join(parts)`. */
  function Join(sep: string, parts: seq<string>): string {
    if parts == [] then ""
    else if |parts| == 1 then parts[0]
    else Join(sep, parts[..|parts| - 1]) + sep + parts[|parts| - 1]
  }

  predicate EndsWith(s: string, suffix: string) {
    |suffix| <= |s| && s[|s| - |suffix|..] == suffix
  }

  predicate StartsWith(s: string, prefix: string) {
    |prefix| <= |s| && s[..|prefix|] == prefix
  }

  /** Regrouping of a four-part concatenation. */
  lemma ConcatRegroup(a: string, b: string, c: string, d: string)
    ensures a + ((b + c) + d) == ((a + b) + c) + d
  {
  }

  /** A string starts with what it was built from by appending. */
  lemma StartsWithAppended(prefix: string, rest: string)
    ensures StartsWith(prefix + rest, prefix)
  {
    assert (prefix + rest)[..|prefix|] == prefix;
  }

  /** Putting the same text in front keeps a prefix a prefix. */
  lemma StartsWithBehindPrefix(p: string, s: string, prefix: string)
    requires StartsWith(s, prefix)
    ensures StartsWith(p + s, p + prefix)
  {
    assert (p + s)[..|p + prefix|] == p + s[..|prefix|];
  }

  /** A join of at least one part ends with its last part. */
  lemma JoinEndsWithLast(sep: string, parts: seq<string>, suffix: string)
    requires parts != [] && EndsWith(parts[|parts| - 1], suffix)
    ensures EndsWith(Join(sep, parts), suffix)
  {
    var s := Join(sep, parts);
    var last := parts[|parts| - 1];
    if |parts| > 1 {
      assert s == (Join(sep, parts[..|parts| - 1]) + sep) + last;
    }
    assert s[|s| - |last|..] == last;
    assert s[|s| - |suffix|..] == last[|last| - |suffix|..];
  }

  /** An appended suffix is what the string ends with. */
  lemma EndsWithAppended(a: string, suffix: string)
    ensures EndsWith(a + suffix, suffix)
  {
    assert (a + suffix)[|a|..] == suffix;
  }

  lemma EndsWithTransitive(s: string, a: string, b: string)
    requires EndsWith(s, a) && EndsWith(a, b)
    ensures EndsWith(s, b)
  {
    assert s[|s| - |b|..] == a[|a| - |b|..];
  }

  /** A prefix-extension keeps what a string ends with. */
  lemma EndsWithAfterPrefix(p: string, s: string, suffix: string)
    requires EndsWith(s, suffix)
    ensures EndsWith(p + s, suffix)
  {
    assert (p + s)[|p + s| - |suffix|..] == s[|s| - |suffix|..];
  }

  /** A string ending with `a` does not end with a `b` whose last character differs. */
  lemma DifferentLastChar(s: string, a: string, b: string)
    requires EndsWith(s, a) && |a| > 0 && |b| > 0 && a[|a| - 1] != b[|b| - 1]
    ensures !EndsWith(s, b)
  {
    assert s[|s| - |a|..][|a| - 1] == s[|s| - 1];
    assert |b| <= |s| ==> s[|s| - |b|..][|b| - 1] == s[|s| - 1];
  }

  /** Occurrences of `c` in `s`. */
  function CountChar(s: string, c: char): nat {
    if s == [] then 0 else CountChar(s[..|s| - 1], c) + (if s[|s| - 1] == c then 1 else 0)
  }

  lemma {:induction false} CountCharAppend(a: string, b: string, c: char)
    ensures CountChar(a + b, c) == CountChar(a, c) + CountChar(b, c)
  {
    if b == [] {
      assert a + b == a;
    } else {
      assert (a + b)[..|a + b| - 1] == a + b[..|b| - 1];
      CountCharAppend(a, b[..|b| - 1], c);
    }
  }

  lemma {:induction false} CountCharAbsent(s: string, c: char)
    requires forall i :: 0 <= i < |s| ==> s[i] != c
    ensures CountChar(s, c) == 0
  {
    if s != [] {
      CountCharAbsent(s[..|s| - 1], c);
    }
  }

  /** `sub` keeps some of the elements of `s`, in their order in `s`. */
  predicate IsSubsequence(sub: seq<string>, s: seq<string>)
    decreases |s|
  {
    if sub == [] then true
    else if s == [] then false
    else if sub[0] == s[0] then IsSubsequence(sub[1..], s[1..])
    else IsSubsequence(sub, s[1..])
  }

  lemma {:induction false} SubsequenceSkip(sub: seq<string>, s: seq<string>)
    requires s != [] && IsSubsequence(sub, s[1..])
    ensures IsSubsequence(sub, s)
    decreases |s|, 0
  {
    if sub != [] && sub[0] == s[0] {
      // IsSubsequence(sub, s) reduces to IsSubsequence(sub[1..], s[1..])
      SubsequenceDropHead(sub, s[1..]);
    }
  }

  lemma {:induction false} SubsequenceDropHead(sub: seq<string>, s: seq<string>)
    requires sub != [] && IsSubsequence(sub, s)
    ensures IsSubsequence(sub[1..], s)
    decreases |s|, 1
  {
    if s == [] {
    } else if sub[0] == s[0] {
      if sub[1..] != [] {
        SubsequenceSkip(sub[1..], s);
      }
    } else {
      SubsequenceDropHead(sub, s[1..]);
      if sub[1..] != [] {
        SubsequenceSkip(sub[1..], s);
      }
    }
  }

  /** Appending to the longer sequence keeps a subsequence. */
  lemma {:induction false} SubsequenceSnoc(sub: seq<string>, s: seq<string>, x: string)
    requires IsSubsequence(sub, s)
    ensures IsSubsequence(sub, s + [x])
    decreases |s|
  {
    if sub != [] && s != [] {
      assert (s + [x])[1..] == s[1..] + [x];
      if sub[0] == s[0] {
        SubsequenceSnoc(sub[1..], s[1..], x);
      } else {
        SubsequenceSnoc(sub, s[1..], x);
      }
    }
  }

  /** Appending the same element to both sides keeps a subsequence. */
  lemma {:induction false} SubsequenceSnocBoth(sub: seq<string>, s: seq<string>, x: string)
    requires IsSubsequence(sub, s)
    ensures IsSubsequence(sub + [x], s + [x])
    decreases |s|
  {
    if sub == [] {
      assert sub + [x] == [x];
      SingletonSubsequence(s, x);
    } else if s != [] {
      assert (s + [x])[1..] == s[1..] + [x];
      assert (sub + [x])[0] == sub[0];
      if sub[0] == s[0] {
        assert (sub + [x])[1..] == sub[1..] + [x];
        SubsequenceSnocBoth(sub[1..], s[1..], x);
      } else {
        SubsequenceSnocBoth(sub, s[1..], x);
      }
    }
  }

  lemma {:induction false} SingletonSubsequence(s: seq<string>, x: string)
    ensures IsSubsequence([x], s + [x])
    decreases |s|
  {
    if s != [] {
      assert (s + [x])[1..] == s[1..] + [x];
      SingletonSubsequence(s[1..], x);
      if s[0] == x {
        assert IsSubsequence([x][1..], (s + [x])[1..]);
      }
    } else {
      assert IsSubsequence([x][1..], [x][1..]);
    }
  }
}
