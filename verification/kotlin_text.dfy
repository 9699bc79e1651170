/**
 The small part of Kotlin's string library that the application relies on:
 `startsWith`, the natural `String` ordering, `split` on a one-character
 delimiter, ASCII lowercasing and `trim`; and nullable values.
 */
module KotlinText {

  /** A Kotlin nullable `T?`: `null` or a value. */
  datatype Option<T> = None | Some(value: T)

  /** `s.startsWith(prefix)`: case-sensitive, character by character. */
  predicate StartsWith(s: string, prefix: string)
    ensures StartsWith(s, prefix) <==>
      |prefix| <= |s| && forall i :: 0 <= i < |prefix| ==> s[i] == prefix[i]
  {
    |prefix| <= |s| && s[..|prefix|] == prefix
  }

  /** The natural order of `String.compareTo`: lexicographic by character, and a
      proper prefix sorts before every longer string that extends it. */
  predicate Less(a: string, b: string)
    decreases |a|
  {
    if |a| == 0 then |b| > 0
    else if |b| == 0 then false
    else if a[0] != b[0] then a[0] < b[0]
    else Less(a[1..], b[1..])
  }

  lemma {:induction false} LessIrreflexive(a: string)
    ensures !Less(a, a)
    decreases |a|
  {
    if |a| > 0 {
      LessIrreflexive(a[1..]);
    }
  }

  lemma {:induction false} LessAsymmetric(a: string, b: string)
    ensures Less(a, b) ==> !Less(b, a)
    decreases |a|
  {
    if |a| > 0 && |b| > 0 && a[0] == b[0] {
      LessAsymmetric(a[1..], b[1..]);
    }
  }

  lemma {:induction false} LessTransitive(a: string, b: string, c: string)
    requires Less(a, b) && Less(b, c)
    ensures Less(a, c)
    decreases |a|
  {
    if |a| > 0 && a[0] == b[0] && b[0] == c[0] {
      LessTransitive(a[1..], b[1..], c[1..]);
    }
  }

  lemma {:induction false} LessTotal(a: string, b: string)
    requires a != b
    ensures Less(a, b) || Less(b, a)
    decreases |a|
  {
    if |a| > 0 && |b| > 0 && a[0] == b[0] {
      assert a == [a[0]] + a[1..] && b == [b[0]] + b[1..];
      LessTotal(a[1..], b[1..]);
    }
  }

  /** The order as Java documents `compareTo`: `a` comes first when it is a
      proper prefix of `b`, or when at the first position where they differ
      its character is the smaller. */
  lemma {:induction false} LessIffFirstDifference(a: string, b: string)
    ensures Less(a, b) <==>
      (|a| < |b| && StartsWith(b, a))
      || exists k :: 0 <= k < |a| && k < |b| && a[..k] == b[..k] && a[k] < b[k]
    decreases |a|
  {
    if |a| > 0 && |b| > 0 {
      if a[0] != b[0] {
        assert a[..0] == b[..0];
        assert forall k :: 0 < k < |a| && k < |b| ==> a[..k][0] == a[0] && b[..k][0] == b[0];
      } else {
        var a', b' := a[1..], b[1..];
        LessIffFirstDifference(a', b');
        assert StartsWith(b, a) <==> StartsWith(b', a') by {
          assert forall i :: 0 < i < |a| && i < |b| ==> a[i] == a'[i - 1] && b[i] == b'[i - 1];
        }
        forall k | 0 < k < |a| && k < |b|
          ensures a[..k] == b[..k] <==> a'[..k - 1] == b'[..k - 1]
        {
          assert a[..k] == [a[0]] + a'[..k - 1] && b[..k] == [b[0]] + b'[..k - 1];
        }
        if exists k :: 0 <= k < |a'| && k < |b'| && a'[..k] == b'[..k] && a'[k] < b'[k] {
          var k :| 0 <= k < |a'| && k < |b'| && a'[..k] == b'[..k] && a'[k] < b'[k];
          assert a[..k + 1] == b[..k + 1] && a[k + 1] < b[k + 1];
        }
        if exists k :: 0 <= k < |a| && k < |b| && a[..k] == b[..k] && a[k] < b[k] {
          var k :| 0 <= k < |a| && k < |b| && a[..k] == b[..k] && a[k] < b[k];
          assert k > 0;
          assert a'[..k - 1] == b'[..k - 1] && a'[k - 1] < b'[k - 1];
        }
      }
    }
  }

  /** Number of occurrences of `c` in `s`. */
  function Count(s: string, c: char): nat
    decreases |s|
  {
    if |s| == 0 then 0
    else (if s[0] == c then 1 else 0) + Count(s[1..], c)
  }

  lemma {:induction false} CountAppend(a: string, b: string, c: char)
    ensures Count(a + b, c) == Count(a, c) + Count(b, c)
    decreases |a|
  {
    if |a| > 0 {
      assert (a + b)[1..] == a[1..] + b;
      CountAppend(a[1..], b, c);
    } else {
      assert a + b == b;
    }
  }

  /** `s.split(sep)` for a one-character delimiter, as Kotlin does it: every
      delimiter ends one token, and empty tokens, trailing ones included,
      are kept. */
  function Split(s: string, sep: char): (r: seq<string>)
    ensures |r| == Count(s, sep) + 1
    ensures forall i :: 0 <= i < |r| ==> sep !in r[i]
    decreases |s|
  {
    if |s| == 0 then [""]
    else
      var rest := Split(s[1..], sep);
      if s[0] == sep then [""] + rest
      else [[s[0]] + rest[0]] + rest[1..]
  }

  /** The inverse of `Split`: the tokens with one delimiter between neighbours. */
  function Join(parts: seq<string>, sep: char): string
    requires |parts| > 0
    decreases |parts|
  {
    if |parts| == 1 then parts[0]
    else parts[0] + [sep] + Join(parts[1..], sep)
  }

  lemma {:induction false} JoinSplit(s: string, sep: char)
    ensures Join(Split(s, sep), sep) == s
    decreases |s|
  {
    if |s| > 0 {
      var rest := Split(s[1..], sep);
      JoinSplit(s[1..], sep);
      if s[0] == sep {
        assert s == [sep] + s[1..];
      } else {
        var r := Split(s, sep);
        if |rest| == 1 {
          assert r == [[s[0]] + rest[0]];
        } else {
          assert r[1..] == rest[1..];
        }
        assert s == [s[0]] + s[1..];
      }
    }
  }

  lemma {:induction false} SplitJoin(parts: seq<string>, sep: char)
    requires |parts| > 0
    requires forall i :: 0 <= i < |parts| ==> sep !in parts[i]
    ensures Split(Join(parts, sep), sep) == parts
    decreases |parts|, |parts[0]|
  {
    var p := parts[0];
    if |p| == 0 {
      if |parts| > 1 {
        SplitJoin(parts[1..], sep);
        assert Join(parts, sep) == [sep] + Join(parts[1..], sep);
        assert parts == [""] + parts[1..];
      }
    } else {
      var parts' := [p[1..]] + parts[1..];
      SplitJoin(parts', sep);
      assert p == [p[0]] + p[1..];
      if |parts| == 1 {
        assert Join(parts, sep) == [p[0]] + Join(parts', sep);
      } else {
        assert parts'[1..] == parts[1..];
        assert Join(parts, sep) == [p[0]] + Join(parts', sep);
      }
      assert parts == [[p[0]] + parts'[0]] + parts'[1..];
    }
  }

  /** Splitting a text that has a delimiter at a known place splits both halves. */
  lemma {:induction false} SplitConcat(a: string, b: string, sep: char)
    ensures Split(a + [sep] + b, sep) == Split(a, sep) + Split(b, sep)
    decreases |a|
  {
    if |a| == 0 {
      assert a + [sep] + b == [sep] + b;
    } else {
      assert (a + [sep] + b)[1..] == a[1..] + [sep] + b;
      SplitConcat(a[1..], b, sep);
    }
  }

  predicate IsAsciiUpper(c: char) {
    'A' <= c <= 'Z'
  }

  /** ASCII lowercasing of one character; every other character is unchanged. */
  function LowerChar(c: char): (d: char)
    ensures !IsAsciiUpper(d)
    ensures IsAsciiUpper(c) ==> d as int == c as int + 32
    ensures !IsAsciiUpper(c) ==> d == c
  {
    if IsAsciiUpper(c) then (c as int + 32) as char else c
  }

  /** `s.toLowerCase()`, restricted to the ASCII letters. */
  function Lowercase(s: string): (r: string)
    ensures |r| == |s|
    ensures forall i :: 0 <= i < |r| ==> r[i] == LowerChar(s[i])
    decreases |s|
  {
    if |s| == 0 then "" else [LowerChar(s[0])] + Lowercase(s[1..])
  }

  predicate IsLowercase(s: string) {
    forall i :: 0 <= i < |s| ==> !IsAsciiUpper(s[i])
  }

  /** `Char.isWhitespace()`: Java's whitespace controls (tab to carriage
      return, and 0x1C to 0x1F) together with every Unicode space, line and
      paragraph separator. */
  predicate IsWhitespace(c: char) {
    c in WHITESPACE
  }

  const WHITESPACE: set<char> := {
    '\t', '\n', '\U{0B}', '\U{0C}', '\r', '\U{1C}', '\U{1D}', '\U{1E}', '\U{1F}', ' ',
    '\U{A0}', '\U{1680}',
    '\U{2000}', '\U{2001}', '\U{2002}', '\U{2003}', '\U{2004}', '\U{2005}', '\U{2006}',
    '\U{2007}', '\U{2008}', '\U{2009}', '\U{200A}',
    '\U{2028}', '\U{2029}', '\U{202F}', '\U{205F}', '\U{3000}'
  }

  predicate AllWhitespace(s: string) {
    forall i :: 0 <= i < |s| ==> IsWhitespace(s[i])
  }

  /** No whitespace at either end. */
  predicate IsTrimmed(s: string) {
    |s| == 0 || (!IsWhitespace(s[0]) && !IsWhitespace(s[|s| - 1]))
  }

  /** Index of the first non-whitespace character at or after `from`, or |s|. */
  function SkipWhitespace(s: string, from: nat): (k: nat)
    requires from <= |s|
    ensures from <= k <= |s|
    ensures AllWhitespace(s[from..k])
    ensures k < |s| ==> !IsWhitespace(s[k])
    decreases |s| - from
  {
    if from == |s| || !IsWhitespace(s[from]) then from
    else SkipWhitespace(s, from + 1)
  }

  /** Index just past the last non-whitespace character before `upTo`, or `lo`. */
  function SkipWhitespaceBack(s: string, lo: nat, upTo: nat): (k: nat)
    requires lo <= upTo <= |s|
    ensures lo <= k <= upTo
    ensures AllWhitespace(s[k..upTo])
    ensures k > lo ==> !IsWhitespace(s[k - 1])
    decreases upTo
  {
    if upTo == lo || !IsWhitespace(s[upTo - 1]) then upTo
    else
      var k := SkipWhitespaceBack(s, lo, upTo - 1);
      assert s[k..upTo] == s[k..upTo - 1] + [s[upTo - 1]];
      k
  }

  /** `s.trim()`: the longest slice of `s` with no whitespace at either end
      that leaves only whitespace around it. */
  function Trim(s: string): (r: string)
    ensures IsTrimmed(r)
    ensures exists i, j :: 0 <= i <= j <= |s| && r == s[i..j]
                           && AllWhitespace(s[..i]) && AllWhitespace(s[j..])
  {
    var i := SkipWhitespace(s, 0);
    var j := SkipWhitespaceBack(s, i, |s|);
    assert s[..i] == s[0..i];
    s[i..j]
  }

  lemma {:induction false} SkipWhitespaceFinds(s: string, from: nat, i: nat)
    requires from <= i <= |s| && AllWhitespace(s[from..i])
    requires i < |s| ==> !IsWhitespace(s[i])
    ensures SkipWhitespace(s, from) == i
    decreases i - from
  {
    if from < i {
      assert s[from..i][0] == s[from];
      assert s[from + 1..i] == s[from..i][1..];
      SkipWhitespaceFinds(s, from + 1, i);
    }
  }

  lemma {:induction false} SkipWhitespaceBackFinds(s: string, lo: nat, upTo: nat, j: nat)
    requires lo <= j <= upTo <= |s| && AllWhitespace(s[j..upTo])
    requires j > lo ==> !IsWhitespace(s[j - 1])
    ensures SkipWhitespaceBack(s, lo, upTo) == j
    decreases upTo
  {
    if j < upTo {
      assert s[j..upTo][upTo - 1 - j] == s[upTo - 1];
      assert s[j..upTo - 1] == s[j..upTo][..upTo - 1 - j];
      SkipWhitespaceBackFinds(s, lo, upTo - 1, j);
    }
  }

  /** `Trim` is the only slice with those properties: whatever trimmed slice
      leaves only whitespace around it is the trimmed string. */
  lemma TrimUnique(s: string, i: nat, j: nat)
    requires i <= j <= |s| && IsTrimmed(s[i..j])
    requires AllWhitespace(s[..i]) && AllWhitespace(s[j..])
    ensures Trim(s) == s[i..j]
  {
    if i < j {
      assert s[i..j][0] == s[i] && s[i..j][j - i - 1] == s[j - 1];
      assert s[..i] == s[0..i];
      SkipWhitespaceFinds(s, 0, i);
      SkipWhitespaceBackFinds(s, i, |s|, j);
    } else {
      assert forall k :: 0 <= k < |s| ==> IsWhitespace(s[k]) by {
        forall k | 0 <= k < |s|
          ensures IsWhitespace(s[k])
        {
          if k < i {
            assert s[..i][k] == s[k];
          } else {
            assert s[j..][k - j] == s[k];
          }
        }
      }
      assert AllWhitespace(s[0..|s|]) by {
        assert s[0..|s|] == s;
      }
      SkipWhitespaceFinds(s, 0, |s|);
      SkipWhitespaceBackFinds(s, |s|, |s|, |s|);
    }
  }
}
