# RxJavaFun core, modelled in Dafny

This project models the sequential logic inside the RxJavaFun Android showcase.
It is made of four pieces:

- **`filterDoubleTap(periodMillis)`** (`filter_double_tap.dfy`). A stream
  transformer that, on plausible clock readings, lets an item through only
  when it closes a "double tap".
  It keeps one `lastStamp` variable; the value `-1` means nothing is waiting.
  The wall clock `System.currentTimeMillis()` becomes an input: one clock
  reading per item. Kotlin's `Long` subtraction is written out with its 64-bit
  wrap-around.
- **`VocabFakeService`** (`vocab_fake_service.dfy`). The fake service splits a
  text on single spaces, then lowercases and trims every token. The result is
  the `vocabulary` list, and `getVocabulary()` emits it as an observable.
- **`MainViewModel.findVocabulary(prefix)`** (`main_view_model.dfy`). It keeps
  the emitted words that start with `prefix`, drops repeats, and collects the
  rest into one ascending list.
- **The output helpers of `MainActivity`** (`main_activity.dfy`). These are
  `writeln(String)`, `writeln(List<String>)` and `appendOutputAndScrollABit`.
  The output `TextView` is modelled as the string it shows.

Two shared modules support them:

- `kotlin_text.dfy` (`KotlinText`) holds the parts of Kotlin's string library
  that the code calls: `startsWith`, `String.compareTo` order, `split`,
  `toLowerCase`, `trim`, and a count of characters.
- `streams.dfy` (`Streams`) models a finite observable, completed or not, as
  the list of signals it has emitted. It also holds the `distinct` and `toSortedList`
  operators.

`findVocabulary` matches with a case-sensitive `startsWith` on words that are
already lowercase, so a prefix with a capital letter finds nothing
(`MainViewModel.UppercasePrefixFindsNothing`).

## Model

| member | source | states |
|---|---|---|
| FilterDoubleTap.Sub | app/src/main/java/com/github/pksokolowski/rxjavafun/operators/FilterDoubleTap.kt:11 | `now - lastStamp` on `Long` agrees with the true difference modulo 2^64, and is exactly that difference when it fits in a `Long` |
| FilterDoubleTap.NewDoubleTap | app/src/main/java/com/github/pksokolowski/rxjavafun/operators/FilterDoubleTap.kt:5-6 | a new transformer starts with `lastStamp = -1` and keeps its period |
| FilterDoubleTap.Test | app/src/main/java/com/github/pksokolowski/rxjavafun/operators/FilterDoubleTap.kt:9-16 | an item is accepted exactly when the wrapped gap since `lastStamp` is at most the period (inclusive bound); acceptance leaves the stamp at `-1` whatever `now` was; rejection leaves it at `now`; the period never changes |
| FilterDoubleTap.FirstTapRejected | app/src/main/java/com/github/pksokolowski/rxjavafun/operators/FilterDoubleTap.kt:6-14 | on a clock reading of at least one period (and below `Long.MAX_VALUE`), an item that finds the stamp at `-1` (after creation or after an acceptance) is rejected and becomes the stored stamp |
| FilterDoubleTap.FirstTapAtLongMaxAccepted | app/src/main/java/com/github/pksokolowski/rxjavafun/operators/FilterDoubleTap.kt:11-13 | at the clock reading `Long.MAX_VALUE` the difference `now - (-1)` wraps to `Long.MIN_VALUE`, so a first tap is accepted |
| FilterDoubleTap.Run | app/src/main/java/com/github/pksokolowski/rxjavafun/operators/FilterDoubleTap.kt:7-16 | the filter over a sequence of clock readings: one verdict per item, each item judged against the stamp the previous verdict left, and the final state is the stamp the last verdict left |
| FilterDoubleTap.RunConcat | app/src/main/java/com/github/pksokolowski/rxjavafun/operators/FilterDoubleTap.kt:6-16 | the filter over two batches of items in turn gives the verdicts of the first batch, then those of the second judged from the state the first left, and ends where that second run ends |
| FilterDoubleTap.AcceptedIffClosesPair | app/src/main/java/com/github/pksokolowski/rxjavafun/operators/FilterDoubleTap.kt:6-15 | from a fresh transformer, on plausible clock readings, item `i` is accepted if and only if it is not the first, item `i - 1` was rejected, and item `i` came at most one period after item `i - 1` |
| FilterDoubleTap.NoConsecutiveAccepts | app/src/main/java/com/github/pksokolowski/rxjavafun/operators/FilterDoubleTap.kt:11-15 | from a fresh transformer, on clock readings of at least one period and below `Long.MAX_VALUE`, the first item is never accepted, and no two successive items are both accepted |
| FilterDoubleTap.AtMostHalfAccepted | app/src/main/java/com/github/pksokolowski/rxjavafun/operators/FilterDoubleTap.kt:11-15 | from a fresh transformer, on clock readings of at least one period and below `Long.MAX_VALUE`, at most half of the items get through |
| FilterDoubleTap.Select | app/src/main/java/com/github/pksokolowski/rxjavafun/operators/FilterDoubleTap.kt:8-9 | the output is a subsequence of the input items (unchanged, in order) with one item per `true` verdict; every item with a `true` verdict is in it, and each output item is an input item with a `true` verdict |
| FilterDoubleTap.SelectConcat | app/src/main/java/com/github/pksokolowski/rxjavafun/operators/FilterDoubleTap.kt:8-9 | selecting from two batches gives what is selected from the first, followed by what is selected from the second |
| FilterDoubleTap.SelectSnoc | app/src/main/java/com/github/pksokolowski/rxjavafun/operators/FilterDoubleTap.kt:8-9 | one more item is added after everything kept so far exactly when its verdict is `true`, so the kept items are exactly the accepted ones, in their original order |
| FilterDoubleTap.Apply | app/src/main/java/com/github/pksokolowski/rxjavafun/operators/FilterDoubleTap.kt:7-16 | `compose(filterDoubleTap(..))` only filters: its output is a subsequence of its input with as many items as the filter accepted; every accepted item is in it, and each output item is an accepted input item; it leaves the filter in the state `Run` ends in |
| FilterDoubleTap.ApplyOne | app/src/main/java/com/github/pksokolowski/rxjavafun/operators/FilterDoubleTap.kt:9-16 | a single item passes unchanged exactly when the filter accepts it, and the filter keeps the state that verdict leaves |
| FilterDoubleTap.ApplyConcat | app/src/main/java/com/github/pksokolowski/rxjavafun/operators/FilterDoubleTap.kt:6-16 | applying one transformer to one observable and then to another gives the first output followed by the second, the second judged from the `lastStamp` the first left: the state is shared, not per observable |
| FilterDoubleTap.SharedAcrossObservables | app/src/main/java/com/github/pksokolowski/rxjavafun/operators/FilterDoubleTap.kt:6-7 | an illustration of `ApplyConcat`: taps at 1000 ms and 1100 ms on two streams give reject then accept, whereas the 1100 ms tap alone is rejected |
| KotlinText.StartsWith | app/src/main/java/com/github/pksokolowski/rxjavafun/MainViewModel.kt:47 | `startsWith` holds exactly when the prefix is no longer than the string and agrees with it at every position of the prefix |
| KotlinText.Split | app/src/main/java/com/github/pksokolowski/rxjavafun/api/fakes/VocabFakeService.kt:21 | `split` on one character gives one more token than there are delimiters, empty tokens included, and no token holds the delimiter |
| KotlinText.JoinSplit | app/src/main/java/com/github/pksokolowski/rxjavafun/api/fakes/VocabFakeService.kt:21 | joining the tokens with the delimiter gives back the text |
| KotlinText.SplitJoin | app/src/main/java/com/github/pksokolowski/rxjavafun/api/fakes/VocabFakeService.kt:21 | splitting joined delimiter-free parts gives back the parts |
| KotlinText.SplitConcat | app/src/main/java/com/github/pksokolowski/rxjavafun/api/fakes/VocabFakeService.kt:21 | a delimiter at a known place splits the tokens of the two halves apart |
| KotlinText.LowerChar | app/src/main/java/com/github/pksokolowski/rxjavafun/api/fakes/VocabFakeService.kt:22 | lowercasing a character never yields a capital, moves an ASCII capital 32 code points up and leaves every other character alone |
| KotlinText.Lowercase | app/src/main/java/com/github/pksokolowski/rxjavafun/api/fakes/VocabFakeService.kt:22 | `toLowerCase` keeps the length and lowercases every character in place |
| KotlinText.IsWhitespace | app/src/main/java/com/github/pksokolowski/rxjavafun/api/fakes/VocabFakeService.kt:22 | the characters `trim` removes: the controls tab to carriage return and 0x1C to 0x1F, the space, and the Unicode space, line and paragraph separators |
| KotlinText.Trim | app/src/main/java/com/github/pksokolowski/rxjavafun/api/fakes/VocabFakeService.kt:22 | `trim` gives a slice with no whitespace at either end and only whitespace outside it |
| KotlinText.TrimUnique | app/src/main/java/com/github/pksokolowski/rxjavafun/api/fakes/VocabFakeService.kt:22 | any slice with those properties is the trimmed string |
| KotlinText.Less | app/src/main/java/com/github/pksokolowski/rxjavafun/MainViewModel.kt:49 | the natural `String` order that `toSortedList` sorts by |
| KotlinText.LessIffFirstDifference | app/src/main/java/com/github/pksokolowski/rxjavafun/MainViewModel.kt:49 | `a` sorts before `b` exactly when `a` is a proper prefix of `b`, or at the first position where they differ the character of `a` is the smaller |
| KotlinText.LessIrreflexive | app/src/main/java/com/github/pksokolowski/rxjavafun/MainViewModel.kt:49 | no string sorts before itself in the natural `String` order |
| KotlinText.LessAsymmetric | app/src/main/java/com/github/pksokolowski/rxjavafun/MainViewModel.kt:49 | two strings never each sort before the other |
| KotlinText.LessTransitive | app/src/main/java/com/github/pksokolowski/rxjavafun/MainViewModel.kt:49 | the natural `String` order is transitive |
| KotlinText.LessTotal | app/src/main/java/com/github/pksokolowski/rxjavafun/MainViewModel.kt:49 | of two different strings one sorts before the other |
| Streams.Items | app/src/main/java/com/github/pksokolowski/rxjavafun/api/fakes/VocabFakeService.kt:12 | what a subscriber receives: the values of the signals before the first `onComplete`, in order |
| Streams.FromIterable | app/src/main/java/com/github/pksokolowski/rxjavafun/api/fakes/VocabFakeService.kt:12 | `fromIterable` emits one `onNext` per element in list order, then `onComplete` |
| Streams.ItemsFromIterable | app/src/main/java/com/github/pksokolowski/rxjavafun/api/fakes/VocabFakeService.kt:12 | a subscriber to `fromIterable(xs)` receives exactly `xs`, in order |
| Streams.Distinct | app/src/main/java/com/github/pksokolowski/rxjavafun/MainViewModel.kt:48 | `distinct` yields no repeats and keeps exactly the values of its input |
| Streams.Insert | app/src/main/java/com/github/pksokolowski/rxjavafun/MainViewModel.kt:49 | inserting into a sorted list keeps it sorted and adds exactly the one value |
| Streams.ToSortedList | app/src/main/java/com/github/pksokolowski/rxjavafun/MainViewModel.kt:49 | `toSortedList` is ascending and a permutation of its input |
| Streams.PermutationNoDuplicates | app/src/main/java/com/github/pksokolowski/rxjavafun/MainViewModel.kt:48-49 | sorting a list without repeats cannot introduce one |
| Streams.SortedDistinctIsStrict | app/src/main/java/com/github/pksokolowski/rxjavafun/MainViewModel.kt:48-49 | an ascending list without repeats is strictly ascending |
| Streams.StrictlySortedUnique | app/src/main/java/com/github/pksokolowski/rxjavafun/MainViewModel.kt:48-49 | two strictly ascending lists with the same elements are equal |
| VocabFakeService.Normalize | app/src/main/java/com/github/pksokolowski/rxjavafun/api/fakes/VocabFakeService.kt:22 | a stored word is lowercase, has no whitespace at either end, and is the lowercased token with only whitespace cut off its ends |
| VocabFakeService.NormalizeFixesWords | app/src/main/java/com/github/pksokolowski/rxjavafun/api/fakes/VocabFakeService.kt:22 | a word that is already lowercase and trimmed is its own normal form, so normalising twice changes nothing |
| VocabFakeService.NormalizeAll | app/src/main/java/com/github/pksokolowski/rxjavafun/api/fakes/VocabFakeService.kt:22 | `map` normalises every token in place, neither adding nor dropping one |
| VocabFakeService.Vocabulary | app/src/main/java/com/github/pksokolowski/rxjavafun/api/fakes/VocabFakeService.kt:14-23 | `takeIf { it.isNotEmpty() }` never gives null; there are as many words as spaces plus one; every word is lowercase and trimmed |
| VocabFakeService.VocabularyInTextOrder | app/src/main/java/com/github/pksokolowski/rxjavafun/api/fakes/VocabFakeService.kt:21-22 | word `k` is the normalised token `k` of the text, so words keep the order of the text |
| VocabFakeService.TokensCoverText | app/src/main/java/com/github/pksokolowski/rxjavafun/api/fakes/VocabFakeService.kt:21 | the tokens, joined back with spaces, are the text: nothing is lost or reordered before normalising |
| VocabFakeService.GetVocabulary | app/src/main/java/com/github/pksokolowski/rxjavafun/api/fakes/VocabFakeService.kt:12 | `getVocabulary()` emits exactly the vocabulary, in list order, then completes |
| VocabFakeService.VocabularyOfTwoTokens | app/src/main/java/com/github/pksokolowski/rxjavafun/api/fakes/VocabFakeService.kt:21-22 | a text with one space gives the two normalised tokens on either side of it |
| VocabFakeService.LineBreakTrimmed | app/src/main/java/com/github/pksokolowski/rxjavafun/api/fakes/VocabFakeService.kt:15-22 | the line break after a line-final space lands at the start of the next token and `trim` removes it: "ut \nlabore" gives "ut" and "labore" |
| VocabFakeService.KeepsDuplicates | app/src/main/java/com/github/pksokolowski/rxjavafun/api/fakes/VocabFakeService.kt:15-22 | tokens differing only in case ("Ut ut") both become the same word and both stay |
| MainViewModel.FilterStartsWith | app/src/main/java/com/github/pksokolowski/rxjavafun/MainViewModel.kt:47 | `filter { it.startsWith(prefix) }` keeps exactly the input words that start with the prefix |
| MainViewModel.FilterStartsWithConcat | app/src/main/java/com/github/pksokolowski/rxjavafun/MainViewModel.kt:47 | filtering two lists gives the matches of the first followed by those of the second, so the matches keep their order and repeats |
| MainViewModel.FilterStartsWithOne | app/src/main/java/com/github/pksokolowski/rxjavafun/MainViewModel.kt:47 | a single word is kept exactly when it starts with the prefix |
| MainViewModel.FindInStream | app/src/main/java/com/github/pksokolowski/rxjavafun/MainViewModel.kt:46-49 | a list is emitted exactly when the stream of words has completed, since `toSortedList` emits on `onComplete`; that list is strictly ascending, every word in it was emitted and starts with the prefix, and every emitted word starting with the prefix is in it |
| MainViewModel.FindVocabulary | app/src/main/java/com/github/pksokolowski/rxjavafun/MainViewModel.kt:46-49 | `findVocabulary(prefix)` is strictly ascending and repeat-free, holds only vocabulary words starting with the prefix, and holds every one of them |
| MainViewModel.FindVocabularyUnique | app/src/main/java/com/github/pksokolowski/rxjavafun/MainViewModel.kt:46-49 | any strictly ascending list of exactly the matching vocabulary words is the result |
| MainViewModel.EmptyPrefixFindsAll | app/src/main/java/com/github/pksokolowski/rxjavafun/MainViewModel.kt:47-49 | with the empty prefix the result holds every vocabulary word, each once |
| MainViewModel.UppercasePrefixFindsNothing | app/src/main/java/com/github/pksokolowski/rxjavafun/MainViewModel.kt:47 | matching is case-sensitive and vocabulary words are lowercase, so a prefix with an ASCII capital finds nothing |
| MainActivity.Append | app/src/main/java/com/github/pksokolowski/rxjavafun/MainActivity.kt:104 | `TextView.append` keeps the shown text as a prefix and adds the new text after it |
| MainActivity.Writeln | app/src/main/java/com/github/pksokolowski/rxjavafun/MainActivity.kt:79-83 | `writeln("")` changes nothing; otherwise the old text stays and is followed by a line break and the content |
| MainActivity.WritelnAddsLines | app/src/main/java/com/github/pksokolowski/rxjavafun/MainActivity.kt:81 | after `writeln(content)`, the lines on screen are the old lines followed by the lines of the content |
| MainActivity.Build | app/src/main/java/com/github/pksokolowski/rxjavafun/MainActivity.kt:86-87 | the built text of a non-empty list starts with its first line and ends with the separator; an empty list builds nothing |
| MainActivity.BuildConcat | app/src/main/java/com/github/pksokolowski/rxjavafun/MainActivity.kt:86-87 | building two lists in turn gives the concatenation of their built texts |
| MainActivity.BuildOne | app/src/main/java/com/github/pksokolowski/rxjavafun/MainActivity.kt:87 | one `appendln(line)` adds the line followed by the separator |
| MainActivity.BuildJoin | app/src/main/java/com/github/pksokolowski/rxjavafun/MainActivity.kt:86-87 | with a one-character separator, the built text is the lines joined by it with one more separator after the last line |
| MainActivity.LinesOf | app/src/main/java/com/github/pksokolowski/rxjavafun/MainActivity.kt:85-89 | the screen lines of a list of entries: each entry's own lines, in list order, none holding a line break |
| MainActivity.LinesOfPlainEntries | app/src/main/java/com/github/pksokolowski/rxjavafun/MainActivity.kt:85-89 | entries without line breaks are their own screen lines |
| MainActivity.SplitJoinLines | app/src/main/java/com/github/pksokolowski/rxjavafun/MainActivity.kt:85-89 | the entries joined by line breaks split into the lines of each entry in turn |
| MainActivity.WritelnLines | app/src/main/java/com/github/pksokolowski/rxjavafun/MainActivity.kt:85-89 | an empty list changes nothing; with a non-empty separator, a non-empty list keeps the old text, then adds a line break and the built text |
| MainActivity.WritelnLinesText | app/src/main/java/com/github/pksokolowski/rxjavafun/MainActivity.kt:85-89 | with the separator "\n", a non-empty list adds a line break and then every entry followed by a line break after the old text |
| MainActivity.WritelnLinesAddsLines | app/src/main/java/com/github/pksokolowski/rxjavafun/MainActivity.kt:85-89 | with the separator "\n", for any entries, the lines on screen become the old lines, then the lines of every entry in list order, then one empty line |
| MainActivity.PostEntry | app/src/main/java/com/github/pksokolowski/rxjavafun/MainActivity.kt:46 | the entry the post observer builds for one post: `title = `, the title, a line break, `body=` and the body |
| MainActivity.PostEntryLines | app/src/main/java/com/github/pksokolowski/rxjavafun/MainActivity.kt:46 | an entry the post observer writes, for a title and body without line breaks, shows as the line `title = ...` and then the line `body=...` |
| MainActivity.SplitIndex | app/src/main/java/com/github/pksokolowski/rxjavafun/MainActivity.kt:101-102 | the index is -1 exactly when the content has fewer than seven line breaks, and otherwise the position of the seventh line break |
| MainActivity.AppendOutputAndScrollABit | app/src/main/java/com/github/pksokolowski/rxjavafun/MainActivity.kt:100-110 | the net effect is appending the content; the text at scroll time lies between the old and the final text; with seven or more line breaks, exactly six of them are shown at scroll time and the rest starts with a line break |

## Left out

- Schedulers, `subscribeOn`/`observeOn`, `throttleFirst`, the `clicks()` bindings and the disposables are not modelled. A finite observable is the ordered list of its signals; threading is library behaviour.
- `fetchPosts`, `fetchPostsOfAllUsers` and both `getTimer`s are not modelled. They depend on `flatMap` interleaving and on timers, and `fetchPostsOfAllUsers` calls service methods the fake service does not define.
- `scroll()` is not modelled because it is pixel and layout arithmetic on a real view. In the model it leaves the text unchanged, and `AppendOutputAndScrollABit` reports the text shown at the moment it runs.
- Calls of the filter are assumed to happen one at a time. The captured `lastStamp` is a plain `var`, unsynchronised and shared by every observable the transformer is applied to; items arriving on several threads at once could interleave its read and writes, and that is not modelled.
- The clock is an input. Each item carries the reading of `System.currentTimeMillis()` taken when the filter sees it.
- The vocabulary text is a parameter, so `trimIndent` on the built-in paragraph is not modelled. The words are a function of whatever text the service holds.
- Streams.Distinct: states no repeats and the same set of values, not that first occurrences keep their order. The sort that follows makes that order irrelevant to `findVocabulary`.
- KotlinText.Lowercase: lowercases ASCII capitals only, because locale-dependent Unicode case mapping is not modelled.
- KotlinText.Less: orders characters by code point. Kotlin compares UTF-16 code units, and the two orders differ only when a character outside the Basic Multilingual Plane is involved.
- MainActivity.Build: the separator of `appendln` is a parameter standing for the platform line separator. `BuildConcat` and `BuildOne` describe the text for every separator; the join form (`BuildJoin`) is stated for one-character separators only.
- MainActivity.WritelnLinesAddsLines: states the screen lines for the separator "\n" only. A two-character separator such as "\r\n" would leave a carriage return at the end of each line.
- MainActivity.PostEntryLines: `Post` is a plain data holder and is not modelled, so the entry is built from a title and a body given as strings.
- FilterDoubleTap.FirstTapRejected: assumes a clock reading of at least one period and below `Long.MAX_VALUE`. At `Long.MAX_VALUE` the subtraction wraps and the tap is accepted, as `FirstTapAtLongMaxAccepted` shows; below one period the gap `now + 1` is within the period and the tap is accepted too. The same holds for `NoConsecutiveAccepts` and `AtMostHalfAccepted`.
- FilterDoubleTap.AcceptedIffClosesPair: assumes clock readings that are not negative, at least one period, and below `Long.MAX_VALUE`, so that the gap between two readings does not wrap. `Test` itself covers every `Long`.
- MainViewModel.FindInStream: a stream either completes or has not yet; `onError` is not modelled, because the fake service's `fromIterable` never fails.
