/**
 The vocabulary lookup of the view model: `findVocabulary(prefix)` filters the
 emitted words by `startsWith(prefix)`, drops repeats and collects the rest
 into one ascending list.
 */
module MainViewModel {
  import opened KotlinText
  import opened Streams
  import VocabFakeService

  /** `filter { it.startsWith(prefix) }`: the matching words, in their order. */
  function FilterStartsWith(words: seq<string>, prefix: string): (r: seq<string>)
    ensures |r| <= |words|
    ensures forall w :: w in r <==> w in words && StartsWith(w, prefix)
    decreases |words|
  {
    if |words| == 0 then []
    else
      var rest := FilterStartsWith(words[1..], prefix);
      assert forall w :: w in words <==> w == words[0] || w in words[1..];
      if StartsWith(words[0], prefix) then [words[0]] + rest else rest
  }

  /** Filtering two lists in turn is filtering their concatenation, so the
      matches keep their order and their repeats. */
  lemma {:induction false} FilterStartsWithConcat(a: seq<string>, b: seq<string>, prefix: string)
    ensures FilterStartsWith(a + b, prefix) == FilterStartsWith(a, prefix) + FilterStartsWith(b, prefix)
    decreases |a|
  {
    if |a| > 0 {
      assert (a + b)[0] == a[0] && (a + b)[1..] == a[1..] + b;
      FilterStartsWithConcat(a[1..], b, prefix);
    } else {
      assert a + b == b;
    }
  }

  /** A single word is kept exactly when it starts with the prefix. */
  lemma FilterStartsWithOne(w: string, prefix: string)
    ensures FilterStartsWith([w], prefix) == (if StartsWith(w, prefix) then [w] else [])
  {
    assert [w][1..] == [];
  }

  /** The pipeline over a stream of words. `toSortedList` emits its one list
      when the upstream completes, so a stream that has not completed yields
      nothing (`None`). */
  function FindInStream(words: seq<Signal<string>>, prefix: string): (r: Option<seq<string>>)
    ensures r.Some? <==> Completes(words)
    ensures r.Some? ==> StrictlySorted(r.value)
    ensures r.Some? ==> forall k :: 0 <= k < |r.value| ==>
      r.value[k] in Items(words) && StartsWith(r.value[k], prefix)
    ensures r.Some? ==> forall k :: 0 <= k < |Items(words)| && StartsWith(Items(words)[k], prefix) ==>
      Items(words)[k] in r.value
  {
    if |Items(words)| == |words| then
      None
    else
      assert words[|Items(words)|].OnComplete?;
      var matching := FilterStartsWith(Items(words), prefix);
      var distinct := Distinct(matching);
      var sorted := ToSortedList(distinct);
      SortedDistinct(distinct, sorted);
      Some(sorted)
  }

  /** Sorting a repeat-free list yields a strictly ascending list of the same words. */
  lemma SortedDistinct(distinct: seq<string>, sorted: seq<string>)
    requires NoDuplicates(distinct) && Sorted(sorted) && multiset(sorted) == multiset(distinct)
    ensures StrictlySorted(sorted)
    ensures forall x :: x in sorted <==> x in distinct
  {
    PermutationNoDuplicates(distinct, sorted);
    SortedDistinctIsStrict(sorted);
    forall x
      ensures x in sorted <==> x in distinct
    {
      assert x in sorted <==> x in multiset(sorted);
      assert x in distinct <==> x in multiset(distinct);
    }
  }

  /** `findVocabulary(prefix)` against the fake service built from `text`. */
  function FindVocabulary(text: string, prefix: string): (r: seq<string>)
    ensures StrictlySorted(r)
    ensures NoDuplicates(r)
    ensures forall k :: 0 <= k < |r| ==>
      r[k] in VocabFakeService.Vocabulary(text).value && StartsWith(r[k], prefix)
    ensures forall w :: w in VocabFakeService.Vocabulary(text).value && StartsWith(w, prefix) ==> w in r
  {
    var s := VocabFakeService.GetVocabulary(text);
    assert s[|s| - 1].OnComplete?;
    var r := FindInStream(s, prefix).value;
    StrictlySortedNoDuplicates(r);
    r
  }

  lemma StrictlySortedNoDuplicates(s: seq<string>)
    requires StrictlySorted(s)
    ensures NoDuplicates(s)
  {
    forall i, j | 0 <= i < j < |s|
      ensures s[i] != s[j]
    {
      LessIrreflexive(s[i]);
    }
  }

  /** The result is the one ascending, repeat-free list of exactly the
      vocabulary words that start with `prefix`: any list with those three
      properties is it. */
  lemma FindVocabularyUnique(text: string, prefix: string, other: seq<string>)
    requires StrictlySorted(other)
    requires forall w :: w in other <==>
      w in VocabFakeService.Vocabulary(text).value && StartsWith(w, prefix)
    ensures FindVocabulary(text, prefix) == other
  {
    StrictlySortedUnique(FindVocabulary(text, prefix), other);
  }

  /** With the empty prefix, every vocabulary word is found, each once. */
  lemma EmptyPrefixFindsAll(text: string)
    ensures forall w :: w in FindVocabulary(text, "") <==> w in VocabFakeService.Vocabulary(text).value
    ensures NoDuplicates(FindVocabulary(text, ""))
  {
    forall w | w in VocabFakeService.Vocabulary(text).value
      ensures w in FindVocabulary(text, "")
    {
      assert StartsWith(w, "");
    }
  }

  /** Matching is case-sensitive and every vocabulary word is lowercase, so a
      prefix holding an ASCII capital finds nothing. */
  lemma UppercasePrefixFindsNothing(text: string, prefix: string, k: nat)
    requires k < |prefix| && IsAsciiUpper(prefix[k])
    ensures FindVocabulary(text, prefix) == []
  {
    var words := VocabFakeService.Vocabulary(text).value;
    forall i | 0 <= i < |words|
      ensures !StartsWith(words[i], prefix)
    {
      LowercaseMissesUppercasePrefix(words[i], prefix, k);
    }
  }

  lemma LowercaseMissesUppercasePrefix(w: string, prefix: string, k: nat)
    requires IsLowercase(w) && k < |prefix| && IsAsciiUpper(prefix[k])
    ensures !StartsWith(w, prefix)
  {
  }
}
