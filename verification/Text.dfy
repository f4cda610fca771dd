/** String operations of the Kotlin/Java standard library that the adapters
    rely on, written out with the library's own semantics: `indexOf`,
    `contains`, `trim`, `split`, `joinToString`, `replace`, `removePrefix`,
    `removeSuffix`, `substringAfter`, `substringBefore` and `Int.toString`. */
module Text {

  // ---------------------------------------------------------------------------
  // Occurrences

  predicate StartsWith(s: string, p: string) {
    |p| <= |s| && s[..|p|] == p
  }

  predicate EndsWith(s: string, p: string) {
    |p| <= |s| && s[|s| - |p|..] == p
  }

  /** `p` occurs in `s` at position `i`. */
  predicate OccursAt(s: string, p: string, i: int) {
    0 <= i && i + |p| <= |s| && s[i..i + |p|] == p
  }

  /** Java's `String.indexOf(p, from)` for a non-empty pattern: a negative
      start counts as 0, and -1 means "no occurrence at or after the start". */
  function IndexOfFrom(s: string, p: string, from: int): (r: int)
    requires |p| > 0
    ensures r == -1 || (from <= r && OccursAt(s, p, r))
    ensures r == -1 ==> forall i :: from <= i ==> !OccursAt(s, p, i)
    ensures r >= 0 ==> forall i :: from <= i < r ==> !OccursAt(s, p, i)
    decreases |s| - from
  {
    if from < 0 then IndexOfFrom(s, p, 0)
    else if from + |p| > |s| then -1
    else if s[from..from + |p|] == p then from
    else IndexOfFrom(s, p, from + 1)
  }

  function IndexOf(s: string, p: string): (r: int)
    requires |p| > 0
  {
    IndexOfFrom(s, p, 0)
  }

  /** Kotlin's `CharSequence.contains(other)` (the empty string is contained everywhere). */
  predicate Contains(s: string, p: string)
    decreases |s|
  {
    StartsWith(s, p) || (|s| > 0 && Contains(s[1..], p))
  }

  lemma {:induction false} ContainsIff(s: string, p: string)
    ensures Contains(s, p) <==> exists i :: OccursAt(s, p, i)
    decreases |s|
  {
    assert OccursAt(s, p, 0) == StartsWith(s, p);
    if StartsWith(s, p) {
    } else if |s| > 0 {
      ContainsIff(s[1..], p);
      forall i | 1 <= i && i + |p| <= |s|
        ensures OccursAt(s, p, i) == OccursAt(s[1..], p, i - 1)
      {
        assert s[1..][i - 1..i - 1 + |p|] == s[i..i + |p|];
      }
      if Contains(s[1..], p) {
        var i :| OccursAt(s[1..], p, i);
        assert OccursAt(s, p, i + 1);
      }
    } else {
      assert |p| > 0;
    }
  }

  lemma ContainsAt(s: string, p: string, i: int)
    requires OccursAt(s, p, i)
    ensures Contains(s, p)
  {
    ContainsIff(s, p);
  }

  lemma NotContainsAt(s: string, p: string, i: int)
    requires !Contains(s, p)
    ensures !OccursAt(s, p, i)
  {
    ContainsIff(s, p);
  }

  /** `Contains` of a non-empty pattern agrees with `indexOf` finding it. */
  lemma ContainsIndexOf(s: string, p: string)
    requires |p| > 0
    ensures Contains(s, p) <==> IndexOf(s, p) >= 0
  {
    ContainsIff(s, p);
  }

  // ---------------------------------------------------------------------------
  // Prefixes, suffixes and the substring functions

  /** Kotlin's `removePrefix`. */
  function RemovePrefix(s: string, p: string): (r: string)
    ensures StartsWith(s, p) ==> s == p + r
    ensures !StartsWith(s, p) ==> r == s
  {
    if StartsWith(s, p) then s[|p|..] else s
  }

  /** Kotlin's `removeSuffix`. */
  function RemoveSuffix(s: string, p: string): (r: string)
    ensures EndsWith(s, p) ==> s == r + p
    ensures !EndsWith(s, p) ==> r == s
  {
    if EndsWith(s, p) then s[..|s| - |p|] else s
  }

  /** Kotlin's `substringAfter(delimiter)`: the text after the first
      occurrence, or the whole string when the delimiter does not occur. */
  function SubstringAfter(s: string, d: string): (r: string)
    requires |d| > 0
  {
    var i := IndexOf(s, d);
    if i < 0 then s else s[i + |d|..]
  }

  /** Kotlin's `substringBefore(delimiter)`. */
  function SubstringBefore(s: string, d: string): (r: string)
    requires |d| > 0
  {
    var i := IndexOf(s, d);
    if i < 0 then s else s[..i]
  }

  lemma SubstringBeforeFree(s: string, c: char)
    ensures c !in SubstringBefore(s, [c])
  {
    var i := IndexOf(s, [c]);
    if i >= 0 {
      forall k | 0 <= k < i ensures s[k] != c {
        assert !OccursAt(s, [c], k);
      }
    } else {
      forall k | 0 <= k < |s| ensures s[k] != c {
        assert !OccursAt(s, [c], k);
      }
    }
  }

  lemma SubstringAfterPrefix(p: string, s: string)
    requires |p| > 0
    ensures SubstringAfter(p + s, p) == s
  {
    assert OccursAt(p + s, p, 0);
  }

  // ---------------------------------------------------------------------------
  // Whitespace trimming

  /** Kotlin's `Char.isWhitespace()` on the JVM: `Character.isWhitespace`
      together with `Character.isSpaceChar` (the Unicode space separators). */
  predicate IsWhitespace(c: char) {
    c == ' ' || c == '\t' || c == '\n' || c == '\U{B}' || c == '\U{C}' || c == '\r'
    || ('\U{1C}' <= c <= '\U{1F}')
    || c == '\U{A0}' || c == '\U{1680}' || ('\U{2000}' <= c <= '\U{200A}')
    || c == '\U{2028}' || c == '\U{2029}' || c == '\U{202F}' || c == '\U{205F}'
    || c == '\U{3000}'
  }

  function TrimStart(s: string): (r: string)
    ensures |r| <= |s| && r == s[|s| - |r|..]
    ensures r == [] || !IsWhitespace(r[0])
    ensures forall k :: 0 <= k < |s| - |r| ==> IsWhitespace(s[k])
    decreases |s|
  {
    if |s| > 0 && IsWhitespace(s[0]) then TrimStart(s[1..]) else s
  }

  function TrimEnd(s: string): (r: string)
    ensures |r| <= |s| && r == s[..|r|]
    ensures r == [] || !IsWhitespace(r[|r| - 1])
    ensures forall k :: |r| <= k < |s| ==> IsWhitespace(s[k])
    decreases |s|
  {
    if |s| > 0 && IsWhitespace(s[|s| - 1]) then TrimEnd(s[..|s| - 1]) else s
  }

  /** A string with no whitespace at either end. */
  predicate IsTrimmed(s: string) {
    s == [] || (!IsWhitespace(s[0]) && !IsWhitespace(s[|s| - 1]))
  }

  /** Kotlin's `trim()`. */
  function Trim(s: string): (r: string)
    ensures IsTrimmed(r)
    ensures |r| <= |s|
  {
    TrimEnd(TrimStart(s))
  }

  /** Trimming keeps a contiguous piece of the text. */
  lemma TrimInfix(s: string)
    ensures IsInfix(Trim(s), s)
  {
    var t := TrimStart(s);
    var r := TrimEnd(t);
    assert r == s[|s| - |t|..][..|r|] == s[|s| - |t|..|s| - |t| + |r|];
    assert InfixAt(r, s, |s| - |t|);
  }

  /** `s` is the piece of `t` that starts at position `i`. */
  predicate InfixAt(s: string, t: string, i: int) {
    0 <= i <= |t| - |s| && s == t[i..i + |s|]
  }

  /** `s` is a contiguous piece of `t`. */
  ghost predicate IsInfix(s: string, t: string) {
    exists i :: InfixAt(s, t, i)
  }

  lemma InfixTransitive(a: string, b: string, c: string)
    requires IsInfix(a, b) && IsInfix(b, c)
    ensures IsInfix(a, c)
  {
    var i :| InfixAt(a, b, i);
    var j :| InfixAt(b, c, j);
    forall k | 0 <= k < |a| ensures a[k] == c[j + i + k] {
      assert a[k] == b[i + k];
    }
    assert a == c[j + i..j + i + |a|];
    assert InfixAt(a, c, j + i);
  }

  lemma InfixRefl(a: string)
    ensures IsInfix(a, a)
  {
    assert InfixAt(a, a, 0);
  }

  lemma RemovePrefixInfix(s: string, p: string)
    ensures IsInfix(RemovePrefix(s, p), s)
  {
    if StartsWith(s, p) {
      assert InfixAt(s[|p|..], s, |p|);
    } else {
      InfixRefl(s);
    }
  }

  lemma RemoveSuffixInfix(s: string, p: string)
    ensures IsInfix(RemoveSuffix(s, p), s)
  {
    if EndsWith(s, p) {
      assert InfixAt(s[..|s| - |p|], s, 0);
    } else {
      InfixRefl(s);
    }
  }

  lemma SubstringAfterInfix(s: string, d: string)
    requires |d| > 0
    ensures IsInfix(SubstringAfter(s, d), s)
  {
    var i := IndexOf(s, d);
    if i < 0 {
      InfixRefl(s);
    } else {
      assert InfixAt(s[i + |d|..], s, i + |d|);
    }
  }

  // ---------------------------------------------------------------------------
  // Length in UTF-16 code units

  /** Kotlin's `String.length`: the number of UTF-16 code units, two for each
      character outside the Basic Multilingual Plane. */
  function Utf16Length(s: string): (n: nat)
    ensures |s| <= n <= 2 * |s|
    decreases |s|
  {
    if |s| == 0 then 0 else (if s[0] as int > 0xFFFF then 2 else 1) + Utf16Length(s[1..])
  }

  /** A text of characters from the Basic Multilingual Plane has one code
      unit per character, and one with a character outside it has more. */
  lemma {:induction false} Utf16LengthBmp(s: string)
    ensures (forall k :: 0 <= k < |s| ==> s[k] as int <= 0xFFFF) <==> Utf16Length(s) == |s|
    decreases |s|
  {
    if |s| > 0 {
      Utf16LengthBmp(s[1..]);
      if forall k :: 0 <= k < |s| ==> s[k] as int <= 0xFFFF {
        forall k | 0 <= k < |s[1..]| ensures s[1..][k] as int <= 0xFFFF {
          assert s[1..][k] == s[k + 1];
        }
      } else if s[0] as int <= 0xFFFF {
        var k :| 0 <= k < |s| && s[k] as int > 0xFFFF;
        assert s[1..][k - 1] == s[k];
      }
    }
  }

  // ---------------------------------------------------------------------------
  // Split and join

  /** Kotlin's `split(delimiter)` with one non-empty delimiter and no limit:
      the pieces between the non-overlapping occurrences, found left to
      right, empty pieces included. */
  function Split(s: string, d: string): (r: seq<string>)
    requires |d| > 0
    ensures |r| >= 1
    decreases |s|
  {
    var i := IndexOf(s, d);
    if i < 0 then [s] else [s[..i]] + Split(s[i + |d|..], d)
  }

  /** Kotlin's `joinToString(separator)`. */
  function Join(ps: seq<string>, sep: string): (r: string)
    decreases |ps|
  {
    if |ps| == 0 then "" else if |ps| == 1 then ps[0] else ps[0] + sep + Join(ps[1..], sep)
  }

  /** Joining a piece in front of a non-empty list of pieces. */
  lemma JoinCons(p: string, ps: seq<string>, d: string)
    requires |ps| >= 1
    ensures Join([p] + ps, d) == p + d + Join(ps, d)
  {
    assert ([p] + ps)[1..] == ps;
  }

  /** Splitting and joining back with the same delimiter restores the string. */
  lemma {:induction false} JoinSplit(s: string, d: string)
    requires |d| > 0
    ensures Join(Split(s, d), d) == s
    decreases |s|
  {
    var i := IndexOf(s, d);
    if i >= 0 {
      var head, rest := s[..i], s[i + |d|..];
      calc {
        Join(Split(s, d), d);
        { assert Split(s, d) == [head] + Split(rest, d); JoinCons(head, Split(rest, d), d); }
        head + d + Join(Split(rest, d), d);
        { JoinSplit(rest, d); }
        head + d + rest;
        { Around(s, i, d); }
        s;
      }
    }
  }

  /** A string is the part before an occurrence, the occurrence and the
      part after it. */
  lemma Around(s: string, i: int, d: string)
    requires 0 <= i && i + |d| <= |s| && s[i..i + |d|] == d
    ensures s == s[..i] + d + s[i + |d|..]
  {
    assert s == s[..i] + s[i..i + |d|] + s[i + |d|..];
  }

  /** Joining pieces that do not contain the delimiter's first character and
      splitting the result gives the pieces back. */
  lemma {:induction false} SplitJoin(ps: seq<string>, d: string)
    requires |d| > 0 && |ps| >= 1
    requires forall k :: 0 <= k < |ps| ==> d[0] !in ps[k]
    ensures Split(Join(ps, d), d) == ps
    decreases |ps|
  {
    var p := ps[0];
    if |ps| == 1 {
      forall i | 0 <= i ensures !OccursAt(p, d, i) {
        if i + |d| <= |p| {
          assert p[i..i + |d|][0] == p[i] != d[0];
        }
      }
      assert IndexOf(p, d) == -1;
      assert Join(ps, d) == p;
    } else {
      var rest := Join(ps[1..], d);
      JoinCons(p, ps[1..], d);
      assert [p] + ps[1..] == ps;
      var s := p + d + rest;
      assert Join(ps, d) == s;
      forall i | 0 <= i < |p| ensures !OccursAt(s, d, i) {
        assert s[i] == p[i] != d[0];
        if i + |d| <= |s| {
          assert s[i..i + |d|][0] == s[i];
        }
      }
      assert s[|p|..|p| + |d|] == d;
      assert OccursAt(s, d, |p|);
      assert IndexOf(s, d) == |p|;
      assert s[|p| + |d|..] == rest;
      assert s[..|p|] == p;
      SplitJoin(ps[1..], d);
    }
  }

  /** The number of occurrences of `c` in `s`. */
  function CountChar(s: string, c: char): nat
    decreases |s|
  {
    if |s| == 0 then 0 else (if s[0] == c then 1 else 0) + CountChar(s[1..], c)
  }

  lemma {:induction false} CountCharAppend(a: string, b: string, c: char)
    ensures CountChar(a + b, c) == CountChar(a, c) + CountChar(b, c)
    decreases |a|
  {
    if |a| == 0 {
      assert a + b == b;
    } else {
      assert (a + b)[1..] == a[1..] + b;
      CountCharAppend(a[1..], b, c);
    }
  }

  lemma {:induction false} CountCharAbsent(s: string, c: char)
    requires c !in s
    ensures CountChar(s, c) == 0
    decreases |s|
  {
    if |s| > 0 {
      CountCharAbsent(s[1..], c);
    }
  }

  /** Splitting on a single character gives one more piece than there are
      occurrences of it. */
  lemma {:induction false} SplitCount(s: string, c: char)
    ensures |Split(s, [c])| == CountChar(s, c) + 1
    decreases |s|
  {
    var i := IndexOf(s, [c]);
    if i < 0 {
      forall k | 0 <= k < |s| ensures s[k] != c {
        assert !OccursAt(s, [c], k);
      }
      CountCharAbsent(s, c);
    } else {
      forall k | 0 <= k < i ensures s[k] != c {
        assert !OccursAt(s, [c], k);
      }
      CountCharAbsent(s[..i], c);
      assert s == s[..i] + [c] + s[i + 1..];
      CountCharAppend(s[..i] + [c], s[i + 1..], c);
      CountCharAppend(s[..i], [c], c);
      SplitCount(s[i + 1..], c);
    }
  }

  // ---------------------------------------------------------------------------
  // Replace

  /** Kotlin's `replace(oldValue, newValue)`: every non-overlapping
      occurrence, found left to right, is replaced. */
  function ReplaceAll(s: string, o: string, n: string): (r: string)
    requires |o| > 0
    decreases |s|
  {
    if |s| < |o| then s
    else if s[..|o|] == o then n + ReplaceAll(s[|o|..], o, n)
    else [s[0]] + ReplaceAll(s[1..], o, n)
  }

  /** A string with no occurrence of the pattern is left unchanged. */
  lemma {:induction false} ReplaceAllAbsent(s: string, o: string, n: string)
    requires |o| > 0 && !Contains(s, o)
    ensures ReplaceAll(s, o, n) == s
    decreases |s|
  {
    if |s| >= |o| {
      NotContainsAt(s, o, 0);
      assert !Contains(s[1..], o);
      ReplaceAllAbsent(s[1..], o, n);
    }
  }

  /** No occurrence of `o` starts inside `a` in `a + b`. */
  predicate NoOccurrenceIn(a: string, b: string, o: string) {
    forall i :: 0 <= i < |a| ==> !OccursAt(a + b, o, i)
  }

  /** When no occurrence starts inside the prefix `a`, the replacement leaves
      `a` alone and works on `b`. */
  lemma {:induction false} ReplaceAllSkipPrefix(a: string, b: string, o: string, n: string)
    requires |o| > 0 && NoOccurrenceIn(a, b, o)
    ensures ReplaceAll(a + b, o, n) == a + ReplaceAll(b, o, n)
    decreases |a|
  {
    if |a| == 0 {
      assert a + b == b;
    } else {
      var s := a + b;
      assert s[1..] == a[1..] + b;
      forall i | 0 <= i < |a[1..]| ensures !OccursAt(a[1..] + b, o, i) {
        assert !OccursAt(s, o, i + 1);
        if i + |o| <= |a[1..] + b| {
          assert (a[1..] + b)[i..i + |o|] == s[i + 1..i + 1 + |o|];
        }
      }
      ReplaceAllSkipPrefix(a[1..], b, o, n);
      if |s| < |o| {
        assert ReplaceAll(s, o, n) == s;
        assert ReplaceAll(b, o, n) == b;
      } else {
        assert !OccursAt(s, o, 0);
        assert s[..|o|] != o;
        assert ReplaceAll(s, o, n) == [s[0]] + ReplaceAll(s[1..], o, n);
        assert a == [a[0]] + a[1..];
      }
    }
  }

  /** An occurrence of a pattern starts with the pattern's first character,
      so none starts inside a text without that character. */
  lemma FirstCharAbsent(a: string, b: string, o: string)
    requires |o| > 0 && o[0] !in a
    ensures NoOccurrenceIn(a, b, o)
  {
    forall i | 0 <= i < |a| ensures !OccursAt(a + b, o, i) {
      assert (a + b)[i] == a[i] != o[0];
      if i + |o| <= |a + b| {
        assert (a + b)[i..i + |o|][0] == (a + b)[i];
      }
    }
  }

  lemma EndsWithConcat(a: string, b: string)
    ensures EndsWith(a + b, b)
  {
    assert (a + b)[|a|..] == b;
  }

  /** A slice is the concatenation of its two halves. */
  lemma SliceConcat(s: string, i: int, j: int, k: int)
    requires 0 <= i <= j <= k <= |s|
    ensures s[i..k] == s[i..j] + s[j..k]
  {
  }

  /** Regrouping a three-part concatenation. */
  lemma Regroup3(a: string, b: string, c: string)
    ensures a + b + c == a + (b + c)
  {
  }

  /** Regrouping a four-part concatenation. */
  lemma Regroup(a: string, b: string, c: string, d: string)
    ensures a + b + c + d == a + (b + c + d)
  {
  }

  /** The replacement leaves alone a prefix without the pattern's first character. */
  lemma ReplaceAllSkipFree(a: string, b: string, o: string, n: string)
    requires |o| > 0 && o[0] !in a
    ensures ReplaceAll(a + b, o, n) == a + ReplaceAll(b, o, n)
  {
    FirstCharAbsent(a, b, o);
    ReplaceAllSkipPrefix(a, b, o, n);
  }

  /** A text without the pattern's first character is left unchanged. */
  lemma {:induction false} ReplaceAllFree(s: string, o: string, n: string)
    requires |o| > 0 && o[0] !in s
    ensures ReplaceAll(s, o, n) == s
    decreases |s|
  {
    if |s| >= |o| {
      assert s[..|o|][0] == s[0];
      ReplaceAllFree(s[1..], o, n);
      assert s == [s[0]] + s[1..];
    }
  }

  /** An occurrence at the front is replaced. */
  /** Where no occurrence starts, the first character is kept. */
  lemma ReplaceAllStep(s: string, o: string, n: string)
    requires |o| > 0 && |s| > 0 && !OccursAt(s, o, 0)
    ensures ReplaceAll(s, o, n) == [s[0]] + ReplaceAll(s[1..], o, n)
  {
    if |s| >= |o| {
      assert s[..|o|] != o;
    }
  }

  lemma ReplaceAllFront(o: string, b: string, n: string)
    requires |o| > 0
    ensures ReplaceAll(o + b, o, n) == n + ReplaceAll(b, o, n)
  {
    assert (o + b)[..|o|] == o;
    assert (o + b)[|o|..] == b;
  }

  // ---------------------------------------------------------------------------
  // Decimal numbers

  predicate IsDigit(c: char) {
    '0' <= c <= '9'
  }

  predicate AllDigits(s: string) {
    forall k :: 0 <= k < |s| ==> IsDigit(s[k])
  }

  function DigitChar(d: nat): (c: char)
    requires d < 10
    ensures IsDigit(c)
  {
    (48 + d) as char
  }

  function DigitValue(c: char): (d: nat)
    requires IsDigit(c)
    ensures d < 10
  {
    (c as int) - 48
  }

  /** The value of a string of decimal digits. */
  function DigitsValue(s: string): nat
    requires AllDigits(s)
    decreases |s|
  {
    if s == [] then 0 else 10 * DigitsValue(s[..|s| - 1]) + DigitValue(s[|s| - 1])
  }

  /** Kotlin's `toString()` of a non-negative number. */
  function NatToString(n: nat): (r: string)
    ensures |r| >= 1 && AllDigits(r)
    decreases n
  {
    if n < 10 then [DigitChar(n)] else NatToString(n / 10) + [DigitChar(n % 10)]
  }

  /** Kotlin's `Int.toString()`. */
  function IntToString(n: int): (r: string)
  {
    if n < 0 then "-" + NatToString(-n) else NatToString(n)
  }

  /** Reading a printed number back gives the number. */
  lemma {:induction false} NatToStringRoundTrip(n: nat)
    ensures DigitsValue(NatToString(n)) == n
    decreases n
  {
    var r := NatToString(n);
    if n >= 10 {
      NatToStringRoundTrip(n / 10);
      assert r[..|r| - 1] == NatToString(n / 10);
    }
  }

  /** Printing is injective, so a printed number identifies the number. */
  lemma IntToStringInjective(m: int, n: int)
    requires IntToString(m) == IntToString(n)
    ensures m == n
  {
    assert (m < 0) == (IntToString(m)[0] == '-');
    assert (n < 0) == (IntToString(n)[0] == '-');
    if m < 0 {
      assert NatToString(-m) == IntToString(m)[1..];
      assert NatToString(-n) == IntToString(n)[1..];
      NatToStringRoundTrip(-m);
      NatToStringRoundTrip(-n);
    } else {
      NatToStringRoundTrip(m);
      NatToStringRoundTrip(n);
    }
  }

  /** Different numbers print differently. */
  lemma IntToStringDistinct(m: int, n: int)
    requires m != n
    ensures IntToString(m) != IntToString(n)
  {
    if IntToString(m) == IntToString(n) {
      IntToStringInjective(m, n);
    }
  }

  /** Different tails after the same head make different strings. */
  lemma SameHeadDistinct(h: string, x: string, y: string)
    requires x != y
    ensures h + x != h + y
  {
    assert (h + x)[|h|..] == x;
    assert (h + y)[|h|..] == y;
  }

  /** Strings that differ only in a middle piece are different. */
  lemma SameHeadTail(h: string, x: string, y: string, t: string)
    requires x != y
    ensures h + x + t != h + y + t
  {
    if |x| == |y| {
      assert (h + x + t)[|h|..|h| + |x|] == x;
      assert (h + y + t)[|h|..|h| + |y|] == y;
    } else {
      assert |h + x + t| != |h + y + t|;
    }
  }

  // ---------------------------------------------------------------------------
  // 32-bit integers

  const TWO_32: int := 0x1_0000_0000
  const TWO_31: int := 0x8000_0000

  /** A Kotlin `Int`. */
  type Int32 = x: int | -TWO_31 <= x < TWO_31

  /** Kotlin `Int` arithmetic: the mathematical result wrapped to 32 bits. */
  function WrapInt32(x: int): (r: int)
    ensures -TWO_31 <= r < TWO_31
    ensures (r - x) % TWO_32 == 0
    ensures -TWO_31 <= x < TWO_31 ==> r == x
  {
    (x + TWO_31) % TWO_32 - TWO_31
  }
}
