/**
 * The C library and Python string operations the core relies on, over
 * `string` (a sequence of characters): `strchr`, `strstr`, `isspace`,
 * `atoi`, `sprintf("%d")` and Python's `str.split`.
 */
module Text {

  /** `isspace` in the C locale. */
  predicate IsSpace(c: char) {
    c == ' ' || c == '\t' || c == '\n' || c == '\U{000B}' || c == '\U{000C}' || c == '\r'
  }

  predicate IsDigit(c: char) {
    '0' <= c <= '9'
  }

  predicate AllDigits(s: string) {
    forall i :: 0 <= i < |s| ==> IsDigit(s[i])
  }

  /** Position of the first `c` in `s`, or -1: `strchr(s, c)` as an index. */
  function IndexOf(s: string, c: char): (r: int)
    ensures -1 <= r < |s|
    ensures r == -1 <==> c !in s
    ensures 0 <= r ==> s[r] == c && c !in s[..r]
  {
    if |s| == 0 then -1
    else if s[0] == c then 0
    else
      var k := IndexOf(s[1..], c);
      assert s[1..] == s[1..][..|s| - 1];
      if k < 0 then -1 else (assert s[..k + 1] == [s[0]] + s[1..][..k]; k + 1)
  }

  /** In `pre + [c] + post` with no `c` in `pre`, the first `c` is the one after `pre`. */
  lemma IndexOfFirst(pre: string, c: char, post: string)
    requires c !in pre
    ensures IndexOf(pre + [c] + post, c) == |pre|
  {
    var s := pre + [c] + post;
    assert s[|pre|] == c;
    assert s[..|pre|] == pre;
  }

  /** The text after the first `c`: `&strchr(s, c)[1]`. */
  function AfterFirst(s: string, c: char): string
    requires c in s
  {
    s[IndexOf(s, c) + 1..]
  }

  /** `strstr(s, sub) != NULL`: `sub` occurs somewhere in `s`. */
  predicate Contains(s: string, sub: string) {
    sub <= s || (|s| > 0 && Contains(s[1..], sub))
  }

  /** `sub` sits in `s` starting at offset `k`. */
  predicate OccursAt(s: string, sub: string, k: int) {
    0 <= k && k + |sub| <= |s| && s[k..k + |sub|] == sub
  }

  /** `Contains` finds exactly the occurrences at some offset of `s`. */
  lemma {:induction false} ContainsIffOccurs(s: string, sub: string)
    ensures Contains(s, sub) <==> exists k :: OccursAt(s, sub, k)
  {
    if sub <= s {
      assert s[0..0 + |sub|] == sub;
      assert OccursAt(s, sub, 0);
    } else if |s| == 0 {
    } else {
      ContainsIffOccurs(s[1..], sub);
      if Contains(s[1..], sub) {
        var k :| OccursAt(s[1..], sub, k);
        assert s[k + 1..k + 1 + |sub|] == s[1..][k..k + |sub|];
        assert OccursAt(s, sub, k + 1);
      }
      if exists k :: OccursAt(s, sub, k) {
        var k :| OccursAt(s, sub, k);
        if k != 0 {
          assert s[1..][k - 1..k - 1 + |sub|] == s[k..k + |sub|];
          assert OccursAt(s[1..], sub, k - 1);
        }
      }
    }
  }

  /** `atoi` skips leading white space. */
  function SkipSpaces(s: string): (r: string)
    ensures |r| <= |s|
    ensures r == [] || !IsSpace(r[0])
  {
    if |s| > 0 && IsSpace(s[0]) then SkipSpaces(s[1..]) else s
  }

  /** The longest prefix of `s` made of decimal digits. */
  function LeadingDigits(s: string): (r: string)
    ensures r <= s && AllDigits(r)
    ensures |r| < |s| ==> !IsDigit(s[|r|])
  {
    if |s| > 0 && IsDigit(s[0]) then [s[0]] + LeadingDigits(s[1..]) else []
  }

  function DigitValue(c: char): nat
    requires IsDigit(c)
  {
    (c as int) - ('0' as int)
  }

  function DigitChar(d: nat): (c: char)
    requires d < 10
    ensures IsDigit(c) && DigitValue(c) == d
  {
    (('0' as int) + d) as char
  }

  /** The number a string of digits spells in base 10. */
  function DecimalValue(d: string): nat
    requires AllDigits(d)
  {
    if |d| == 0 then 0 else 10 * DecimalValue(d[..|d| - 1]) + DigitValue(d[|d| - 1])
  }

  /**
   * C's `atoi`: white space, an optional sign, then the longest run of digits;
   * 0 when there are none. (C leaves overflow undefined; here integers are unbounded.)
   */
  function Atoi(s: string): int {
    var t := SkipSpaces(s);
    if |t| > 0 && t[0] == '-' then 0 - DecimalValue(LeadingDigits(t[1..])) as int
    else if |t| > 0 && t[0] == '+' then DecimalValue(LeadingDigits(t[1..]))
    else DecimalValue(LeadingDigits(t))
  }

  /** `sprintf(buf, "%d", n)` for a non-negative `n`. */
  function NatToString(n: nat): (r: string)
    ensures |r| > 0 && AllDigits(r)
  {
    if n < 10 then [DigitChar(n)] else NatToString(n / 10) + [DigitChar(n % 10)]
  }

  /** `sprintf(buf, "%d", n)`. */
  function IntToString(n: int): string {
    if n < 0 then "-" + NatToString(-n) else NatToString(n)
  }

  lemma {:induction false} DecimalValueOfNatToString(n: nat)
    ensures DecimalValue(NatToString(n)) == n
  {
    if n >= 10 {
      DecimalValueOfNatToString(n / 10);
      var r := NatToString(n);
      assert r[..|r| - 1] == NatToString(n / 10);
    }
  }

  lemma {:induction false} LeadingDigitsOfDigits(d: string, rest: string)
    requires AllDigits(d)
    requires rest == [] || !IsDigit(rest[0])
    ensures LeadingDigits(d + rest) == d
  {
    if |d| > 0 {
      assert (d + rest)[1..] == d[1..] + rest;
      LeadingDigitsOfDigits(d[1..], rest);
    } else {
      assert d + rest == rest;
    }
  }

  lemma AtoiOfNatToString(n: nat, rest: string)
    requires rest == [] || !IsDigit(rest[0])
    ensures Atoi(NatToString(n) + rest) == n
  {
    var digits := NatToString(n);
    var t := digits + rest;
    assert t[0] == digits[0] && IsDigit(t[0]);
    assert SkipSpaces(t) == t;
    assert t[0] != '-' && t[0] != '+';
    LeadingDigitsOfDigits(digits, rest);
    DecimalValueOfNatToString(n);
    assert Atoi(t) == DecimalValue(LeadingDigits(t));
  }

  lemma AtoiOfNegated(n: nat, rest: string)
    requires 0 < n
    requires rest == [] || !IsDigit(rest[0])
    ensures Atoi("-" + NatToString(n) + rest) == 0 - n
  {
    var digits := NatToString(n);
    var t := "-" + digits + rest;
    assert t[0] == '-';
    assert SkipSpaces(t) == t;
    assert t[1..] == digits + rest;
    LeadingDigitsOfDigits(digits, rest);
    DecimalValueOfNatToString(n);
  }

  /** `atoi` reads back what `%d` wrote, whatever non-digit text follows. */
  lemma AtoiOfIntToString(n: int, rest: string)
    requires rest == [] || !IsDigit(rest[0])
    ensures Atoi(IntToString(n) + rest) == n
  {
    if n < 0 {
      AtoiOfNegated(-n, rest);
      assert IntToString(n) + rest == "-" + NatToString(-n) + rest;
    } else {
      AtoiOfNatToString(n, rest);
    }
  }

  /** Python's `s.split(sep)` for a one-character separator. */
  function Split(s: string, sep: char): (parts: seq<string>)
    ensures |parts| >= 1
    ensures forall k :: 0 <= k < |parts| ==> sep !in parts[k]
    decreases |s|
  {
    var i := IndexOf(s, sep);
    if i < 0 then [s] else [s[..i]] + Split(s[i + 1..], sep)
  }

  /** Python's `sep.join(parts)`. */
  function Join(parts: seq<string>, sep: char): string
    requires |parts| >= 1
  {
    if |parts| == 1 then parts[0] else parts[0] + [sep] + Join(parts[1..], sep)
  }

  lemma JoinCons(head: string, rest: seq<string>, sep: char)
    requires |rest| >= 1
    ensures Join([head] + rest, sep) == head + [sep] + Join(rest, sep)
  {
    assert ([head] + rest)[1..] == rest;
  }

  /** Splitting loses nothing: joining the pieces gives back the string. */
  lemma {:induction false} JoinSplit(s: string, sep: char)
    ensures Join(Split(s, sep), sep) == s
    decreases |s|
  {
    if sep !in s {
      SplitNone(s, sep);
    } else {
      var i := IndexOf(s, sep);
      var pre, post := s[..i], s[i + 1..];
      assert s == pre + [sep] + post;
      SplitAtFirst(pre, sep, post);
      JoinSplit(post, sep);
      JoinCons(pre, Split(post, sep), sep);
    }
  }

  /** `split` yields a second piece exactly when the separator occurs, and the first piece is the text before it. */
  lemma SplitPieces(s: string, sep: char)
    ensures |Split(s, sep)| >= 2 <==> sep in s
    ensures Split(s, sep)[0] == if sep in s then s[..IndexOf(s, sep)] else s
    ensures sep in s ==> Split(s, sep)[1] == Split(AfterFirst(s, sep), sep)[0]
  {
  }

  /** Without the separator, `split` gives the whole string. */
  lemma SplitNone(s: string, sep: char)
    requires sep !in s
    ensures Split(s, sep) == [s]
  {
  }

  /** `split` cuts at the first separator and goes on with the rest. */
  lemma SplitAtFirst(pre: string, sep: char, post: string)
    requires sep !in pre
    ensures Split(pre + [sep] + post, sep) == [pre] + Split(post, sep)
  {
    var s := pre + [sep] + post;
    IndexOfFirst(pre, sep, post);
    assert s[..|pre|] == pre;
    assert s[|pre| + 1..] == post;
  }
}
