/**
 * The Kotlin `String` operations the analyser relies on, on `string` (= `seq<char>`):
 * `startsWith`, `endsWith`, `contains` (also with `ignoreCase`), ASCII `lowercase`/`uppercase`,
 * `split` on one separator, `replace` of one character, `substringAfterLast`, `compareTo`
 * and `Int.toString`.
 */
module Strings {

  // ----- prefixes, suffixes and substrings -----

  /** `s.startsWith(prefix)`. */
  predicate StartsWith(s: string, prefix: string) {
    |prefix| <= |s| && s[..|prefix|] == prefix
  }

  /** `s.endsWith(suffix)`. */
  predicate EndsWith(s: string, suffix: string) {
    |suffix| <= |s| && s[|s| - |suffix|..] == suffix
  }

  /** `p` occurs in `s` starting at index `i`. */
  predicate OccursAt(s: string, p: string, i: int) {
    0 <= i && i + |p| <= |s| && s[i..i + |p|] == p
  }

  /** `s.contains(p)`: `p` occurs somewhere in `s` (the empty pattern occurs in every string). */
  predicate Contains(s: string, p: string) {
    exists i | 0 <= i <= |s| - |p| :: OccursAt(s, p, i)
  }

  lemma StartsWithContains(s: string, p: string)
    requires StartsWith(s, p)
    ensures Contains(s, p)
  {
    assert OccursAt(s, p, 0);
  }

  lemma EndsWithContains(s: string, p: string)
    requires EndsWith(s, p)
    ensures Contains(s, p)
  {
    assert OccursAt(s, p, |s| - |p|);
  }

  /** Being a substring is transitive: a keyword that contains another is subsumed by it. */
  lemma ContainsTransitive(s: string, p: string, q: string)
    requires Contains(s, p) && Contains(p, q)
    ensures Contains(s, q)
  {
    var i :| 0 <= i <= |s| - |p| && OccursAt(s, p, i);
    var j :| 0 <= j <= |p| - |q| && OccursAt(p, q, j);
    forall k | 0 <= k < |q|
      ensures s[i + j + k] == q[k]
    {
      assert p[j..j + |q|][k] == p[j + k];
      assert s[i..i + |p|][j + k] == s[i + j + k];
    }
    assert s[i + j..i + j + |q|] == q;
    assert OccursAt(s, q, i + j);
  }

  /** A pattern occurs where it is placed between two strings. */
  lemma OccursBetween(a: string, p: string, b: string)
    ensures OccursAt(a + p + b, p, |a|)
  {
    assert (a + p + b)[|a|..|a| + |p|] == p;
  }

  /** A pattern occurs in a non-empty text at its start or somewhere in its tail. */
  lemma ContainsStep(s: string, p: string)
    requires |s| >= 1
    ensures Contains(s, p) <==> OccursAt(s, p, 0) || Contains(s[1..], p)
  {
    forall i | 1 <= i <= |s| - |p|
      ensures OccursAt(s, p, i) == OccursAt(s[1..], p, i - 1)
    {
      var here, there := s[i..i + |p|], s[1..][i - 1..i - 1 + |p|];
      assert forall k | 0 <= k < |p| :: here[k] == there[k];
      assert here == there;
    }
    if Contains(s[1..], p) {
      var i :| 0 <= i <= |s[1..]| - |p| && OccursAt(s[1..], p, i);
      assert OccursAt(s, p, i + 1);
    }
    if Contains(s, p) {
      var i :| 0 <= i <= |s| - |p| && OccursAt(s, p, i);
      if i > 0 {
        assert OccursAt(s[1..], p, i - 1);
      }
    }
  }

  /** A pattern holding a character that `s` lacks does not occur in `s`. */
  lemma AbsentCharacter(s: string, p: string, c: char)
    requires c in p && c !in s
    ensures !Contains(s, p)
  {
    var k :| 0 <= k < |p| && p[k] == c;
    forall i | 0 <= i <= |s| - |p|
      ensures !OccursAt(s, p, i)
    {
      assert s[i + k] in s;
      assert s[i..i + |p|][k] == s[i + k];
    }
  }

  // ----- ASCII case mapping -----

  function LowerChar(c: char): char {
    if 'A' <= c <= 'Z' then (c as int + 32) as char else c
  }

  function UpperChar(c: char): char {
    if 'a' <= c <= 'z' then (c as int - 32) as char else c
  }

  /** `s.lowercase()`, restricted to the ASCII letters. */
  function ToLower(s: string): string {
    seq(|s|, i requires 0 <= i < |s| => LowerChar(s[i]))
  }

  /** `s.uppercase()`, restricted to the ASCII letters. */
  function ToUpper(s: string): string {
    seq(|s|, i requires 0 <= i < |s| => UpperChar(s[i]))
  }

  /** No character of `s` is an ASCII lower-case letter. */
  predicate NoLowerCase(s: string) {
    forall c | c in s :: !('a' <= c <= 'z')
  }

  /** No character of `s` is an ASCII upper-case letter. */
  predicate NoUpperCase(s: string) {
    forall c | c in s :: !('A' <= c <= 'Z')
  }

  /** Upper-casing forgets any earlier lower-casing: the two agree up to case. */
  lemma UpperOfLower(s: string)
    ensures ToUpper(ToLower(s)) == ToUpper(s)
  {
    assert forall i | 0 <= i < |s| :: ToUpper(ToLower(s))[i] == ToUpper(s)[i];
  }

  lemma UpperOfUpper(s: string)
    ensures ToUpper(ToUpper(s)) == ToUpper(s)
  {
    assert forall i | 0 <= i < |s| :: ToUpper(ToUpper(s))[i] == ToUpper(s)[i];
  }

  lemma LowerOfUpper(s: string)
    ensures ToLower(ToUpper(s)) == ToLower(s)
  {
    assert forall i | 0 <= i < |s| :: ToLower(ToUpper(s))[i] == ToLower(s)[i];
  }

  lemma LowerOfLower(s: string)
    ensures ToLower(ToLower(s)) == ToLower(s)
  {
    assert forall i | 0 <= i < |s| :: ToLower(ToLower(s))[i] == ToLower(s)[i];
  }

  /** A string without lower-case letters is its own upper-cased form. */
  lemma UpperUnchanged(s: string)
    requires NoLowerCase(s)
    ensures ToUpper(s) == s
  {
    forall i | 0 <= i < |s|
      ensures ToUpper(s)[i] == s[i]
    {
      assert s[i] in s;
    }
  }

  /** A string without upper-case letters is its own lower-cased form. */
  lemma LowerUnchanged(s: string)
    requires NoUpperCase(s)
    ensures ToLower(s) == s
  {
    forall i | 0 <= i < |s|
      ensures ToLower(s)[i] == s[i]
    {
      assert s[i] in s;
    }
  }

  /** Upper-casing keeps every occurrence of a pattern that has no lower-case letters. */
  lemma ContainsAfterUpper(s: string, p: string)
    requires NoLowerCase(p) && Contains(s, p)
    ensures Contains(ToUpper(s), p)
  {
    var i :| 0 <= i <= |s| - |p| && OccursAt(s, p, i);
    forall k | 0 <= k < |p|
      ensures ToUpper(s)[i + k] == p[k]
    {
      assert s[i..i + |p|][k] == s[i + k];
      assert p[k] in p;
    }
    assert ToUpper(s)[i..i + |p|] == p;
    assert OccursAt(ToUpper(s), p, i);
  }

  /** Lower-casing keeps every suffix that has no upper-case letters. */
  lemma EndsWithAfterLower(s: string, p: string)
    requires NoUpperCase(p) && EndsWith(s, p)
    ensures EndsWith(ToLower(s), p)
  {
    forall k | 0 <= k < |p|
      ensures ToLower(s)[|s| - |p| + k] == p[k]
    {
      assert s[|s| - |p|..][k] == s[|s| - |p| + k];
      assert p[k] in p;
    }
    assert ToLower(s)[|s| - |p|..] == p;
  }

  /** `s.contains(p, ignoreCase = true)` for ASCII text. */
  predicate ContainsIgnoreCase(s: string, p: string) {
    Contains(ToLower(s), ToLower(p))
  }

  // ----- split and join on one separator -----

  /** `parts.joinToString(sep)`. */
  function Join(parts: seq<string>, sep: char): string
    requires |parts| >= 1
  {
    if |parts| == 1 then parts[0] else parts[0] + [sep] + Join(parts[1..], sep)
  }

  /**
   * `s.split(sep)`: every maximal run between separators, empty runs and a trailing empty
   * run included (Kotlin's `split` drops nothing).
   */
  function Split(s: string, sep: char): (parts: seq<string>)
    ensures |parts| >= 1
    ensures forall k | 0 <= k < |parts| :: sep !in parts[k]
    ensures Join(parts, sep) == s
    decreases |s|
  {
    if |s| == 0 then [""]
    else
      var rest := Split(s[1..], sep);
      if s[0] == sep then
        assert s == [sep] + s[1..];
        [""] + rest
      else
        var parts := [[s[0]] + rest[0]] + rest[1..];
        assert parts[1..] == rest[1..];
        assert s == [s[0]] + s[1..];
        parts
  }

  /** Splitting a separator-free prefix onto the front of `t` extends the first part of `t`. */
  lemma {:induction false} SplitSeparatorFreePrefix(a: string, t: string, sep: char)
    requires sep !in a
    ensures Split(a + t, sep) == [a + Split(t, sep)[0]] + Split(t, sep)[1..]
    decreases |a|
  {
    var st := Split(t, sep);
    if |a| > 0 {
      assert a[0] in a;
      assert (a + t)[0] == a[0];
      assert (a + t)[1..] == a[1..] + t;
      SplitSeparatorFreePrefix(a[1..], t, sep);
      assert [a[0]] + (a[1..] + st[0]) == a + st[0];
    } else {
      assert a + t == t;
      assert a + st[0] == st[0];
      assert [st[0]] + st[1..] == st;
    }
  }

  /** Split inverts Join on separator-free parts: the parts are recovered exactly. */
  lemma {:induction false} SplitJoin(parts: seq<string>, sep: char)
    requires |parts| >= 1
    requires forall k | 0 <= k < |parts| :: sep !in parts[k]
    ensures Split(Join(parts, sep), sep) == parts
    decreases |parts|
  {
    assert sep !in parts[0];
    if |parts| == 1 {
      SplitSeparatorFreePrefix(parts[0], "", sep);
      assert Split("", sep) == [""];
      assert parts[0] + "" == parts[0];
      assert parts == [parts[0]];
    } else {
      var tail := Join(parts[1..], sep);
      SplitJoin(parts[1..], sep);
      assert Join(parts, sep) == parts[0] + ([sep] + tail);
      assert ([sep] + tail)[0] == sep;
      assert ([sep] + tail)[1..] == tail;
      assert Split([sep] + tail, sep) == [""] + parts[1..];
      SplitSeparatorFreePrefix(parts[0], [sep] + tail, sep);
      assert parts[0] + "" == parts[0];
      assert parts == [parts[0]] + parts[1..];
    }
  }

  // ----- single-character replacement and the part after a delimiter -----

  /** `s.replace(from, to)` on characters. */
  function ReplaceChar(s: string, from: char, to: char): string {
    seq(|s|, i requires 0 <= i < |s| => if s[i] == from then to else s[i])
  }

  /** Replacing `from` by `to` leaves no `from` behind when the two differ. */
  lemma ReplaceCharRemoves(s: string, from: char, to: char)
    requires from != to
    ensures from !in ReplaceChar(s, from, to)
  {
  }

  /** Replacing `a` by `b` and back is the identity on strings that held no `b`. */
  lemma ReplaceCharBack(s: string, a: char, b: char)
    requires b !in s
    ensures ReplaceChar(ReplaceChar(s, a, b), b, a) == s
  {
    forall i | 0 <= i < |s|
      ensures ReplaceChar(ReplaceChar(s, a, b), b, a)[i] == s[i]
    {
      assert s[i] in s;
    }
  }

  /**
   * `s.substringAfterLast(delimiter)`: the text after the last `delimiter`, or all of `s` when
   * it holds none.
   */
  function SubstringAfterLast(s: string, delimiter: char): (r: string)
    ensures delimiter !in r
    ensures EndsWith(s, r)
    ensures delimiter in s ==> s[|s| - |r| - 1] == delimiter
    ensures delimiter !in s ==> r == s
  {
    if |s| == 0 then s
    else if s[|s| - 1] == delimiter then ""
    else
      var init, last := s[..|s| - 1], s[|s| - 1];
      var rest := SubstringAfterLast(init, delimiter);
      assert s == init + [last];
      assert s[|s| - |rest| - 1..] == init[|init| - |rest|..] + [last];
      assert delimiter in s ==> delimiter in init;
      rest + [last]
  }

  // ----- lexicographic order (`String.compareTo`) -----

  /** `a < b` in the lexicographic order of `String.compareTo`; a proper prefix comes first. */
  predicate LexLess(a: string, b: string)
    decreases |a|
  {
    if |a| == 0 then |b| > 0
    else if |b| == 0 then false
    else if a[0] != b[0] then a[0] < b[0]
    else LexLess(a[1..], b[1..])
  }

  /** `a <= b` in the same order. */
  predicate LexLessEq(a: string, b: string) {
    !LexLess(b, a)
  }

  lemma {:induction false} LexLessIrreflexive(a: string)
    ensures !LexLess(a, a)
    decreases |a|
  {
    if |a| > 0 {
      LexLessIrreflexive(a[1..]);
    }
  }

  lemma {:induction false} LexLessTransitive(a: string, b: string, c: string)
    requires LexLess(a, b) && LexLess(b, c)
    ensures LexLess(a, c)
    decreases |a|
  {
    if |a| > 0 && a[0] == b[0] && b[0] == c[0] {
      LexLessTransitive(a[1..], b[1..], c[1..]);
    }
  }

  /** Any two distinct strings are ordered one way or the other. */
  lemma {:induction false} LexLessTotal(a: string, b: string)
    ensures a == b || LexLess(a, b) || LexLess(b, a)
    decreases |a|
  {
    if |a| > 0 && |b| > 0 && a[0] == b[0] {
      LexLessTotal(a[1..], b[1..]);
      if a[1..] == b[1..] {
        assert a == [a[0]] + a[1..] && b == [b[0]] + b[1..];
      }
    }
  }

  lemma LexLessAsymmetric(a: string, b: string)
    requires LexLess(a, b)
    ensures !LexLess(b, a)
  {
    if LexLess(b, a) {
      LexLessTransitive(a, b, a);
      LexLessIrreflexive(a);
    }
  }

  lemma LexLessEqTransitive(a: string, b: string, c: string)
    requires LexLessEq(a, b) && LexLessEq(b, c)
    ensures LexLessEq(a, c)
  {
    if LexLess(c, a) {
      LexLessTotal(a, b);
      if LexLess(a, b) {
        LexLessTransitive(c, a, b);
      }
    }
  }

  // ----- decimal numerals (`Int.toString`) -----

  function DigitChar(d: nat): char
    requires d < 10
  {
    ('0' as int + d) as char
  }

  /** The decimal numeral of `n`, without leading zeros. */
  function NatToString(n: nat): (r: string)
    ensures |r| >= 1
    ensures forall i | 0 <= i < |r| :: '0' <= r[i] <= '9'
    decreases n
  {
    if n < 10 then [DigitChar(n)] else NatToString(n / 10) + [DigitChar(n % 10)]
  }

  /** The value of a string of decimal digits. */
  function DigitsValue(s: string): nat
    requires forall i | 0 <= i < |s| :: '0' <= s[i] <= '9'
  {
    if |s| == 0 then 0
    else
      DigitsValue(s[..|s| - 1]) * 10 + (s[|s| - 1] as int - '0' as int)
  }

  /** Reading a numeral back yields the number it was printed from. */
  lemma {:induction false} DigitsValueOfNatToString(n: nat)
    ensures DigitsValue(NatToString(n)) == n
    decreases n
  {
    if n >= 10 {
      var s := NatToString(n);
      DigitsValueOfNatToString(n / 10);
      assert s[..|s| - 1] == NatToString(n / 10);
    }
  }

  /** `n.toString()` for a signed Kotlin `Int`: a minus sign before the magnitude's digits. */
  function IntToString(n: int): (r: string)
    ensures ' ' !in r
  {
    if n < 0 then "-" + NatToString(-n) else NatToString(n)
  }

  /** The numeral starts with a minus sign exactly for negative numbers. */
  lemma SignOfIntToString(n: int)
    ensures IntToString(n)[0] == '-' <==> n < 0
  {
    if n >= 0 {
      assert '0' <= NatToString(n)[0] <= '9';
    }
  }

  /** Different numbers print differently. */
  lemma IntToStringInjective(a: int, b: int)
    requires IntToString(a) == IntToString(b)
    ensures a == b
  {
    SignOfIntToString(a);
    SignOfIntToString(b);
    if a < 0 {
      assert NatToString(-a) == IntToString(a)[1..];
      assert NatToString(-b) == IntToString(b)[1..];
      NatToStringInjective(-a, -b);
    } else {
      NatToStringInjective(a, b);
    }
  }

  lemma NatToStringInjective(a: nat, b: nat)
    requires NatToString(a) == NatToString(b)
    ensures a == b
  {
    DigitsValueOfNatToString(a);
    DigitsValueOfNatToString(b);
  }

  /** A prefix free of the delimiter is recovered from `prefix + delimiter + rest`. */
  lemma DelimitedPrefixUnique(x: string, y: string, x': string, y': string, delimiter: char)
    requires delimiter !in x && delimiter !in x'
    requires x + [delimiter] + y == x' + [delimiter] + y'
    ensures x == x'
  {
    var s := x + [delimiter] + y;
    // both |x| and |x'| are the index of the first delimiter in s
    assert forall k | 0 <= k < |x| :: s[k] == x[k] && x[k] in x;
    assert forall k | 0 <= k < |x'| :: s[k] == x'[k] && x'[k] in x';
    assert s[|x|] == delimiter && s[|x'|] == delimiter;
    assert |x| == |x'|;
    assert x == s[..|x|] == x';
  }
}
