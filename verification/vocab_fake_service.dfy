/**
 The fake vocabulary service: the word list is derived from a text by
 splitting it on single spaces and normalising each token, and
 `getVocabulary()` emits that list. The text is a parameter; in the
 application it is a fixed, already de-indented paragraph.
 */
module VocabFakeService {
  import opened KotlinText
  import opened Streams

  /** One token as the service stores it: `token.toLowerCase().trim()`. */
  function Normalize(token: string): (w: string)
    ensures IsLowercase(w)
    ensures IsTrimmed(w)
    ensures exists i, j :: 0 <= i <= j <= |token| && w == Lowercase(token)[i..j]
                           && AllWhitespace(token[..i]) && AllWhitespace(token[j..])
  {
    TrimOfLowercase(token);
    Trim(Lowercase(token))
  }

  lemma TrimOfLowercase(token: string)
    ensures exists i, j :: 0 <= i <= j <= |token| && Trim(Lowercase(token)) == Lowercase(token)[i..j]
                           && AllWhitespace(token[..i]) && AllWhitespace(token[j..])
  {
    var lower := Lowercase(token);
    var i, j :| 0 <= i <= j <= |lower| && Trim(lower) == lower[i..j]
                && AllWhitespace(lower[..i]) && AllWhitespace(lower[j..]);
    LowercaseKeepsWhitespace(token, i, j);
  }

  /** Lowercasing changes ASCII capitals only, and turns them into letters,
      so a whitespace character after lowercasing was that character before. */
  lemma LowerCharWhitespace(c: char, d: char)
    requires d == LowerChar(c) && IsWhitespace(d)
    ensures d == c
  {
  }

  lemma LowercaseKeepsWhitespace(s: string, i: nat, j: nat)
    requires i <= j <= |s|
    requires AllWhitespace(Lowercase(s)[..i]) && AllWhitespace(Lowercase(s)[j..])
    ensures AllWhitespace(s[..i]) && AllWhitespace(s[j..])
  {
    WhitespaceBefore(s, i);
    WhitespaceFrom(s, j);
  }

  /** Where the lowercased text is whitespace, lowercasing changed nothing. */
  lemma WhitespaceBefore(s: string, i: nat)
    requires i <= |s| && AllWhitespace(Lowercase(s)[..i])
    ensures AllWhitespace(s[..i])
  {
    forall k | 0 <= k < i
      ensures s[k] == Lowercase(s)[k]
    {
      WhitespaceCharBefore(s, i, k);
    }
    LowercaseAgreesBefore(s, i);
  }

  lemma WhitespaceFrom(s: string, j: nat)
    requires j <= |s| && AllWhitespace(Lowercase(s)[j..])
    ensures AllWhitespace(s[j..])
  {
    forall k | j <= k < |s|
      ensures s[k] == Lowercase(s)[k]
    {
      WhitespaceCharFrom(s, j, k);
    }
    LowercaseAgreesFrom(s, j);
  }

  lemma WhitespaceCharBefore(s: string, i: nat, k: nat)
    requires k < i <= |s| && AllWhitespace(Lowercase(s)[..i])
    ensures s[k] == Lowercase(s)[k]
  {
    var lower := Lowercase(s)[..i];
    assert IsWhitespace(lower[k]);
    LowerCharWhitespace(s[k], lower[k]);
  }

  lemma WhitespaceCharFrom(s: string, j: nat, k: nat)
    requires j <= k < |s| && AllWhitespace(Lowercase(s)[j..])
    ensures s[k] == Lowercase(s)[k]
  {
    var lower := Lowercase(s)[j..];
    assert IsWhitespace(lower[k - j]);
    LowerCharWhitespace(s[k], lower[k - j]);
  }

  lemma LowercaseAgreesBefore(s: string, i: nat)
    requires i <= |s| && forall k :: 0 <= k < i ==> s[k] == Lowercase(s)[k]
    ensures s[..i] == Lowercase(s)[..i]
  {
  }

  lemma LowercaseAgreesFrom(s: string, j: nat)
    requires j <= |s| && forall k :: j <= k < |s| ==> s[k] == Lowercase(s)[k]
    ensures s[j..] == Lowercase(s)[j..]
  {
  }

  /** Every token normalised, in order. */
  function NormalizeAll(tokens: seq<string>): (ws: seq<string>)
    ensures |ws| == |tokens|
    ensures forall k :: 0 <= k < |ws| ==> ws[k] == Normalize(tokens[k])
    decreases |tokens|
  {
    if |tokens| == 0 then [] else [Normalize(tokens[0])] + NormalizeAll(tokens[1..])
  }

  /** The `vocabulary` property: `text.split(" ").map { normalise }.takeIf { it.isNotEmpty() }`.
      `split` always yields at least one token, so the list is never null. */
  function Vocabulary(text: string): (r: Option<seq<string>>)
    ensures r.Some?
    ensures |r.value| == Count(text, ' ') + 1
    ensures forall k :: 0 <= k < |r.value| ==> IsLowercase(r.value[k]) && IsTrimmed(r.value[k])
  {
    var tokens := Split(text, ' ');
    var words := NormalizeAll(tokens);
    if |words| > 0 then Some(words) else None
  }

  /** Word `k` is token `k` of the text, normalised: the list keeps the order of the text. */
  lemma VocabularyInTextOrder(text: string, k: nat)
    requires k < |Split(text, ' ')|
    ensures k < |Vocabulary(text).value|
    ensures Vocabulary(text).value[k] == Normalize(Split(text, ' ')[k])
  {
  }

  /** Joining the unnormalised tokens gives back the text: no character is lost
      or reordered before normalisation. */
  lemma TokensCoverText(text: string)
    ensures Join(Split(text, ' '), ' ') == text
  {
    JoinSplit(text, ' ');
  }

  /** `getVocabulary()`: `Observable.fromIterable(vocabulary)`. */
  function GetVocabulary(text: string): (s: seq<Signal<string>>)
    ensures Items(s) == Vocabulary(text).value
    ensures |s| == |Vocabulary(text).value| + 1 && s[|s| - 1] == OnComplete
  {
    var words := Vocabulary(text).value;
    ItemsFromIterable(words);
    FromIterable(words)
  }

  /** A text with one space has two words. */
  lemma VocabularyOfTwoTokens(a: string, b: string)
    requires ' ' !in a && ' ' !in b
    ensures Vocabulary(a + " " + b).value == [Normalize(a), Normalize(b)]
  {
    SplitAtSpace(a, b);
    assert Split(a + " " + b, ' ') == [a, b];
  }

  /** A word already in normal form: lowercase, trimmed, not empty, and a
      single token. */
  predicate IsPlainWord(w: string) {
    |w| > 0 && IsLowercase(w) && IsTrimmed(w) && ' ' !in w
  }

  /** A line break left behind by a line-final space ends up at the start of
      the next token, and `trim` removes it: "ut \nlabore" gives "ut" and "labore". */
  lemma LineBreakTrimmed(a: string, b: string)
    requires IsPlainWord(a) && IsPlainWord(b)
    ensures Vocabulary(a + " \n" + b).value == [a, b]
  {
    assert a + " \n" + b == a + " " + (['\n'] + b);
    VocabularyOfTwoTokens(a, ['\n'] + b);
    NormalizeFixesWords(a);
    NormalizeDropsLeadingWhitespace('\n', b);
  }

  lemma LowercaseFixes(s: string)
    requires IsLowercase(s)
    ensures Lowercase(s) == s
  {
    assert forall k :: 0 <= k < |s| ==> Lowercase(s)[k] == s[k];
  }

  /** Whitespace in front of a normal word is dropped. */
  lemma NormalizeDropsLeadingWhitespace(c: char, w: string)
    requires IsWhitespace(c) && IsLowercase(w) && IsTrimmed(w) && |w| > 0
    ensures Normalize([c] + w) == w
  {
    var s := [c] + w;
    LowercaseFixes(s);
    assert SkipWhitespace(s, 1) == 1;
    assert SkipWhitespace(s, 0) == 1;
    assert SkipWhitespaceBack(s, 1, |s|) == |s|;
    assert s[1..] == w;
  }

  lemma SplitAtSpace(a: string, b: string)
    requires ' ' !in a && ' ' !in b
    ensures Split(a + " " + b, ' ') == [a, b]
  {
    SplitConcat(a, b, ' ');
    SplitJoin([a], ' ');
    SplitJoin([b], ' ');
  }

  /** A word that is already lowercase and trimmed is its own normal form. */
  lemma NormalizeFixesWords(w: string)
    requires IsLowercase(w) && IsTrimmed(w)
    ensures Normalize(w) == w
  {
    LowercaseFixes(w);
    if |w| > 0 {
      assert SkipWhitespace(w, 0) == 0;
      assert SkipWhitespaceBack(w, 0, |w|) == |w|;
    }
  }

  lemma NormalizeOfCaseVariant(u: string, w: string)
    requires IsPlainWord(w) && Lowercase(u) == w
    ensures Normalize(u) == w && Normalize(w) == w
  {
    LowercaseFixes(w);
    NormalizeFixesWords(w);
  }

  /** Tokens differing only in case collapse to one word but both stay: the
      service does not de-duplicate ("Ut ut" gives "ut" twice). */
  lemma KeepsDuplicates(u: string, w: string)
    requires IsPlainWord(w) && ' ' !in u && Lowercase(u) == w
    ensures Vocabulary(u + " " + w).value == [w, w]
  {
    VocabularyOfTwoTokens(u, w);
    NormalizeOfCaseVariant(u, w);
  }
}
