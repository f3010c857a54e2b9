/**
 The Python `str` operations that the ingestion helpers and the sample statistics
 application rely on, over `string` (= `seq<char>`): whitespace stripping,
 `split(sep)`, `split()`, `join`, ASCII case mapping, `str(int)` and friends.
 */
module PyStrings {

  /** `c.isspace()`: the characters that `str.strip()` and `str.split()` (no argument) treat as whitespace. */
  predicate IsSpace(c: char) {
    c == ' ' || '\t' <= c <= '\r' || '\U{1c}' <= c <= '\U{1f}' || c == '\U{85}' || c == '\U{a0}'
    || c == '\U{1680}' || '\U{2000}' <= c <= '\U{200a}' || c == '\U{2028}' || c == '\U{2029}'
    || c == '\U{202f}' || c == '\U{205f}' || c == '\U{3000}'
  }

  predicate AllSpace(s: string) {
    forall i :: 0 <= i < |s| ==> IsSpace(s[i])
  }

  predicate NoSpace(s: string) {
    forall i :: 0 <= i < |s| ==> !IsSpace(s[i])
  }

  /** Number of occurrences of `c` in `s` (`s.count(c)`). */
  function Count(s: string, c: char): nat
    decreases |s|
  {
    if s == [] then 0 else (if s[0] == c then 1 else 0) + Count(s[1..], c)
  }

  /** `s.startswith(p)` */
  predicate StartsWith(s: string, p: string) {
    |p| <= |s| && s[..|p|] == p
  }

  /** `c * n` for a one-character string `c`. */
  function Repeat(c: char, n: nat): (r: string)
    ensures |r| == n && forall i :: 0 <= i < n ==> r[i] == c
  {
    seq(n, _ => c)
  }

  // ---------------------------------------------------------------------------
  // strip()

  /** Index of the first non-whitespace character of `s` (`|s|` when there is none). */
  function ContentStart(s: string): (i: nat)
    ensures i <= |s|
    ensures forall k :: 0 <= k < i ==> IsSpace(s[k])
    ensures i < |s| ==> !IsSpace(s[i])
    decreases |s|
  {
    if s != [] && IsSpace(s[0]) then 1 + ContentStart(s[1..]) else 0
  }

  /** One past the last non-whitespace character of `s` (`0` when there is none). */
  function ContentEnd(s: string): (j: nat)
    ensures j <= |s|
    ensures forall k :: j <= k < |s| ==> IsSpace(s[k])
    ensures j > 0 ==> !IsSpace(s[j - 1])
    decreases |s|
  {
    if s != [] && IsSpace(s[|s| - 1]) then ContentEnd(s[..|s| - 1]) else |s|
  }

  /** `s.strip()`: the slice of `s` between its leading and its trailing whitespace. */
  function Strip(s: string): (r: string)
    ensures |r| <= |s|
    ensures r == [] <==> AllSpace(s)
    ensures r != [] ==> !IsSpace(r[0]) && !IsSpace(r[|r| - 1])
    ensures r != [] ==> r == s[ContentStart(s)..ContentEnd(s)]
  {
    var i, j := ContentStart(s), ContentEnd(s);
    assert i < |s| ==> i < j;
    if i < j then s[i..j] else []
  }

  /** The first non-whitespace index is the only index with whitespace before it and content at it. */
  lemma ContentStartUnique(s: string, i: nat)
    requires i <= |s|
    requires forall k :: 0 <= k < i ==> IsSpace(s[k])
    requires i < |s| ==> !IsSpace(s[i])
    ensures i == ContentStart(s)
  {
  }

  lemma ContentEndUnique(s: string, j: nat)
    requires j <= |s|
    requires forall k :: j <= k < |s| ==> IsSpace(s[k])
    requires j > 0 ==> !IsSpace(s[j - 1])
    ensures j == ContentEnd(s)
  {
  }

  /** A string without whitespace at either edge strips to itself. */
  lemma StripTrimmed(s: string)
    requires s != [] && !IsSpace(s[0]) && !IsSpace(s[|s| - 1])
    ensures Strip(s) == s
  {
    ContentStartUnique(s, 0);
    ContentEndUnique(s, |s|);
  }

  lemma PaddedContentStart(a: string, s: string, b: string)
    requires AllSpace(a) && !AllSpace(s)
    ensures ContentStart(a + s + b) == |a| + ContentStart(s)
  {
    var t, i := a + s + b, ContentStart(s);
    forall k | 0 <= k < |a| + i ensures IsSpace(t[k]) {
      if k < |a| { assert t[k] == a[k]; } else { assert t[k] == s[k - |a|]; }
    }
    assert t[|a| + i] == s[i];
    ContentStartUnique(t, |a| + i);
  }

  lemma PaddedContentEnd(a: string, s: string, b: string)
    requires AllSpace(b) && !AllSpace(s)
    ensures ContentEnd(a + s + b) == |a| + ContentEnd(s)
  {
    var t, j := a + s + b, ContentEnd(s);
    assert j > 0;
    forall k | |a| + j <= k < |t| ensures IsSpace(t[k]) {
      if k < |a| + |s| { assert t[k] == s[k - |a|]; } else { assert t[k] == b[k - |a| - |s|]; }
    }
    assert t[|a| + j - 1] == s[j - 1];
    ContentEndUnique(t, |a| + j);
  }

  lemma PaddedAllSpace(a: string, s: string, b: string)
    requires AllSpace(a) && AllSpace(s) && AllSpace(b)
    ensures AllSpace(a + s + b)
  {
    var t := a + s + b;
    forall k | 0 <= k < |t| ensures IsSpace(t[k]) {
      if k < |a| {
        assert t[k] == a[k];
      } else if k < |a| + |s| {
        assert t[k] == s[k - |a|];
      } else {
        assert t[k] == b[k - |a| - |s|];
      }
    }
  }

  lemma MiddleSlice(a: string, s: string, b: string, i: nat, j: nat)
    requires i <= j <= |s|
    ensures (a + s + b)[|a| + i..|a| + j] == s[i..j]
  {
    var t := a + s + b;
    forall k | 0 <= k < j - i ensures t[|a| + i..|a| + j][k] == s[i..j][k] {
      assert t[|a| + i + k] == s[i + k];
    }
  }

  /** Whitespace around `s` does not change `s.strip()`. */
  lemma StripPadding(a: string, s: string, b: string)
    requires AllSpace(a) && AllSpace(b)
    ensures Strip(a + s + b) == Strip(s)
  {
    if AllSpace(s) {
      PaddedAllSpace(a, s, b);
    } else {
      StripPaddedContent(a, s, b);
    }
  }

  lemma StripPaddedContent(a: string, s: string, b: string)
    requires AllSpace(a) && AllSpace(b) && !AllSpace(s)
    ensures Strip(a + s + b) == Strip(s)
  {
    PaddedBounds(a, s, b);
    StripBySameContent(a + s + b, s, |a|);
  }

  /** Padding shifts the content bounds by the length of the leading padding and keeps the content. */
  lemma PaddedBounds(a: string, s: string, b: string)
    requires AllSpace(a) && AllSpace(b) && !AllSpace(s)
    ensures var t, i, j := a + s + b, ContentStart(s), ContentEnd(s);
      && i < j
      && ContentStart(t) == |a| + i && ContentEnd(t) == |a| + j
      && t[|a| + i..|a| + j] == s[i..j]
  {
    PaddedContentStart(a, s, b);
    PaddedContentEnd(a, s, b);
    ContentBoundsOrdered(s);
    MiddleSlice(a, s, b, ContentStart(s), ContentEnd(s));
  }

  /** Text that is not all whitespace has its content start before its content end. */
  lemma ContentBoundsOrdered(s: string)
    requires !AllSpace(s)
    ensures ContentStart(s) < ContentEnd(s)
  {
    assert ContentStart(s) < |s|;
  }

  /** Two texts whose content is the same slice, shifted by `lo`, strip to the same string. */
  lemma StripBySameContent(t: string, s: string, lo: nat)
    requires ContentStart(s) < ContentEnd(s)
    requires ContentStart(t) == lo + ContentStart(s) && ContentEnd(t) == lo + ContentEnd(s)
    requires t[lo + ContentStart(s)..lo + ContentEnd(s)] == s[ContentStart(s)..ContentEnd(s)]
    ensures Strip(t) == Strip(s)
  {
    var i, j := ContentStart(s), ContentEnd(s);
    assert Strip(s) != [] by { assert !IsSpace(s[i]); }
    assert Strip(t) != [] by {
      assert t[lo + i] == t[lo + i..lo + j][0] == s[i..j][0] == s[i];
    }
    calc {
      Strip(t);
      t[ContentStart(t)..ContentEnd(t)];
      t[lo + i..lo + j];
      s[i..j];
      Strip(s);
    }
  }

  // ---------------------------------------------------------------------------
  // split(sep) and join

  /** `s.split(sep)` for a one-character separator: never empty, one piece more than separators. */
  function SplitOn(s: string, sep: char): (r: seq<string>)
    ensures |r| == 1 + Count(s, sep)
    ensures forall i :: 0 <= i < |r| ==> sep !in r[i]
    decreases |s|
  {
    if s == [] then [[]]
    else
      var rest := SplitOn(s[1..], sep);
      if s[0] == sep then [[]] + rest else [[s[0]] + rest[0]] + rest[1..]
  }

  /** `sep.join(ps)` */
  function Join(ps: seq<string>, sep: string): string
    decreases |ps|
  {
    if |ps| == 0 then [] else if |ps| == 1 then ps[0] else ps[0] + sep + Join(ps[1..], sep)
  }

  /** Joining the pieces of a split with the separator gives the string back. */
  lemma {:induction false} JoinSplitOn(s: string, sep: char)
    ensures Join(SplitOn(s, sep), [sep]) == s
    decreases |s|
  {
    if s != [] {
      var rest := SplitOn(s[1..], sep);
      JoinSplitOn(s[1..], sep);
      if s[0] == sep {
        assert s == [sep] + s[1..];
      } else if |rest| == 1 {
        assert s == [s[0]] + s[1..];
      } else {
        var ps := [[s[0]] + rest[0]] + rest[1..];
        assert ps[1..] == rest[1..];
        assert s == [s[0]] + s[1..];
      }
    }
  }

  lemma {:induction false} SplitOnNoSep(a: string, sep: char)
    requires sep !in a
    ensures SplitOn(a, sep) == [a]
    decreases |a|
  {
    if a != [] {
      assert sep !in a[1..] by { assert forall k :: 0 <= k < |a| - 1 ==> a[1..][k] == a[k + 1]; }
      SplitOnNoSep(a[1..], sep);
      assert a == [a[0]] + a[1..];
    }
  }

  /** A separator-free head splits off as the first piece. */
  lemma {:induction false} SplitOnCons(a: string, sep: char, b: string)
    requires sep !in a
    ensures SplitOn(a + [sep] + b, sep) == [a] + SplitOn(b, sep)
    decreases |a|
  {
    var s := a + [sep] + b;
    if a == [] {
      assert s[1..] == b;
    } else {
      assert s[1..] == a[1..] + [sep] + b;
      assert sep !in a[1..] by { assert forall k :: 0 <= k < |a| - 1 ==> a[1..][k] == a[k + 1]; }
      SplitOnCons(a[1..], sep, b);
      assert a == [a[0]] + a[1..];
    }
  }

  /** Splitting a join of separator-free pieces gives the pieces back. */
  lemma {:induction false} SplitOnJoin(ps: seq<string>, sep: char)
    requires |ps| >= 1
    requires forall i :: 0 <= i < |ps| ==> sep !in ps[i]
    ensures SplitOn(Join(ps, [sep]), sep) == ps
    decreases |ps|
  {
    if |ps| == 1 {
      SplitOnNoSep(ps[0], sep);
    } else {
      SplitOnJoin(ps[1..], sep);
      SplitOnCons(ps[0], sep, Join(ps[1..], [sep]));
      assert ps == [ps[0]] + ps[1..];
    }
  }

  // ---------------------------------------------------------------------------
  // split() with no argument

  /** `s.split()`: the maximal runs of non-whitespace characters, in order. */
  function Words(s: string): (r: seq<string>)
    ensures forall i :: 0 <= i < |r| ==> r[i] != [] && NoSpace(r[i])
    ensures s != [] && !IsSpace(s[0]) ==> r != [] && r[0][0] == s[0]
    ensures |r| <= |s|
    decreases |s|
  {
    if s == [] then []
    else
      var rest := Words(s[1..]);
      if IsSpace(s[0]) then rest
      else if |s| > 1 && !IsSpace(s[1]) then [[s[0]] + rest[0]] + rest[1..]
      else [[s[0]]] + rest
  }

  lemma {:induction false} WordsAllSpace(s: string)
    requires AllSpace(s)
    ensures Words(s) == []
    decreases |s|
  {
    if s != [] {
      WordsAllSpace(s[1..]);
    }
  }

  /** A whitespace character separates the words on its two sides. */
  lemma {:induction false} WordsSeparated(a: string, c: char, b: string)
    requires IsSpace(c)
    ensures Words(a + [c] + b) == Words(a) + Words(b)
    decreases |a|
  {
    var s := a + [c] + b;
    if a == [] {
      assert s[1..] == b;
    } else {
      assert s[1..] == a[1..] + [c] + b;
      WordsSeparated(a[1..], c, b);
      if !IsSpace(a[0]) && |a| > 1 && !IsSpace(a[1]) {
        assert s[1] == a[1];
      }
    }
  }

  lemma WordsSpaceSuffix(s: string, b: string)
    requires AllSpace(b)
    ensures Words(s + b) == Words(s)
  {
    if b == [] {
      assert s + b == s;
    } else {
      assert s + b == s + [b[0]] + b[1..];
      WordsSeparated(s, b[0], b[1..]);
      WordsAllSpace(b[1..]);
    }
  }

  lemma {:induction false} WordsSpacePrefix(a: string, s: string)
    requires AllSpace(a)
    ensures Words(a + s) == Words(s)
    decreases |a|
  {
    if a != [] {
      var t := a + s;
      assert t[0] == a[0] && t[1..] == a[1..] + s;
      assert AllSpace(a[1..]) by { assert forall k :: 0 <= k < |a| - 1 ==> a[1..][k] == a[k + 1]; }
      WordsSpacePrefix(a[1..], s);
    } else {
      assert a + s == s;
    }
  }

  /** Stripping removes only whitespace, so it keeps the words. */
  lemma WordsStrip(s: string)
    ensures Words(Strip(s)) == Words(s)
  {
    if AllSpace(s) {
      WordsAllSpace(s);
    } else {
      var i, j := ContentStart(s), ContentEnd(s);
      var lead, mid, trail := s[..i], s[i..j], s[j..];
      assert s == lead + (mid + trail);
      StripEdgesAreSpace(s);
      WordsSpacePrefix(lead, mid + trail);
      WordsSpaceSuffix(mid, trail);
    }
  }

  /** What `strip()` removes on either side is whitespace. */
  lemma StripEdgesAreSpace(s: string)
    ensures AllSpace(s[..ContentStart(s)])
    ensures AllSpace(s[ContentEnd(s)..])
  {
    var i, j := ContentStart(s), ContentEnd(s);
    assert forall k :: 0 <= k < i ==> s[..i][k] == s[k];
    assert forall k :: 0 <= k < |s| - j ==> s[j..][k] == s[j + k];
  }

  /** All the words of a list of strings, concatenated in order. */
  function WordsOfAll(ps: seq<string>): seq<string>
    decreases |ps|
  {
    if ps == [] then [] else Words(ps[0]) + WordsOfAll(ps[1..])
  }

  /** Joining with any whitespace character keeps the words of the pieces. */
  lemma {:induction false} WordsJoin(ps: seq<string>, c: char)
    requires IsSpace(c)
    ensures Words(Join(ps, [c])) == WordsOfAll(ps)
    decreases |ps|
  {
    if |ps| == 1 {
      assert WordsOfAll(ps[1..]) == [];
    } else if |ps| > 1 {
      WordsJoin(ps[1..], c);
      WordsSeparated(ps[0], c, Join(ps[1..], [c]));
    }
  }

  /** Sum of the word counts of a list of strings. */
  function WordCountSum(ps: seq<string>): nat
    decreases |ps|
  {
    if ps == [] then 0 else |Words(ps[0])| + WordCountSum(ps[1..])
  }

  lemma {:induction false} WordCountSumIsWords(ps: seq<string>)
    ensures WordCountSum(ps) == |WordsOfAll(ps)|
    decreases |ps|
  {
    if ps != [] {
      WordCountSumIsWords(ps[1..]);
    }
  }

  // ---------------------------------------------------------------------------
  // ASCII case mapping

  function LowerChar(c: char): char {
    if 'A' <= c <= 'Z' then (c as int + 32) as char else c
  }

  function UpperChar(c: char): char {
    if 'a' <= c <= 'z' then (c as int - 32) as char else c
  }

  /** `s.lower()` on ASCII letters. */
  function Lower(s: string): string {
    seq(|s|, i requires 0 <= i < |s| => LowerChar(s[i]))
  }

  /** `w.capitalize()`: the first character upper-cased, the rest lower-cased. */
  function Capitalize(w: string): string {
    if w == [] then [] else [UpperChar(w[0])] + Lower(w[1..])
  }

  // ---------------------------------------------------------------------------
  // str(int)

  function DigitChar(d: nat): char
    requires d < 10
  {
    ('0' as int + d) as char
  }

  predicate IsDigit(c: char) {
    '0' <= c <= '9'
  }

  /** Decimal digits of a natural number, most significant first, no leading zeros. */
  function NatToString(n: nat): (r: string)
    ensures r != [] && forall i :: 0 <= i < |r| ==> IsDigit(r[i])
    ensures |r| > 1 ==> r[0] != '0'
    decreases n
  {
    if n < 10 then [DigitChar(n)] else NatToString(n / 10) + [DigitChar(n % 10)]
  }

  /** `str(i)` for a Python `int`. */
  function IntToString(i: int): (r: string)
    ensures r != [] && '\n' !in r
  {
    if i < 0 then "-" + NatToString(-i) else NatToString(i)
  }

  /** The value of a string of decimal digits. */
  function ParseNat(s: string): nat
    requires forall i :: 0 <= i < |s| ==> IsDigit(s[i])
    decreases |s|
  {
    if s == [] then 0
    else
      assert IsDigit(s[|s| - 1]);
      10 * ParseNat(s[..|s| - 1]) + (s[|s| - 1] as int - '0' as int)
  }

  /** `int(s)` on the strings `str` produces. */
  function ParseInt(s: string): int
    requires s != []
    requires forall i :: 0 < i < |s| ==> IsDigit(s[i])
    requires s[0] == '-' || IsDigit(s[0])
  {
    var magnitude: int := if s[0] == '-' then ParseNat(s[1..]) else ParseNat(s);
    if s[0] == '-' then -magnitude else magnitude
  }

  lemma {:induction false} ParseNatToString(n: nat)
    ensures ParseNat(NatToString(n)) == n
    decreases n
  {
    if n >= 10 {
      ParseNatToString(n / 10);
      var s := NatToString(n);
      assert s[..|s| - 1] == NatToString(n / 10);
    }
  }

  /** `int(str(i)) == i` */
  lemma ParseIntToString(i: int)
    ensures var s := IntToString(i);
      (s != [] && (forall k :: 0 < k < |s| ==> IsDigit(s[k])) && (s[0] == '-' || IsDigit(s[0])) && ParseInt(s) == i)
  {
    if i < 0 {
      ParseNegative(-i);
    } else {
      ParseNatToString(i);
    }
  }

  /** `int("-" + str(n)) == -n` */
  lemma ParseNegative(n: nat)
    ensures var s := "-" + NatToString(n);
      (forall k :: 0 < k < |s| ==> IsDigit(s[k])) && ParseInt(s) == -(n as int)
  {
    var d := NatToString(n);
    var s := "-" + d;
    assert s[1..] == d;
    assert forall k :: 0 < k < |s| ==> s[k] == d[k - 1];
    ParseNatToString(n);
  }
}
