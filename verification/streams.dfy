/**
 Finite reactive streams as sequences of signals, completed or not, and the
 two generic operators the vocabulary lookup chains: `distinct` and
 `toSortedList`. Scheduling is not modelled: a stream is the ordered list of
 what it emits so far.
 */
module Streams {
  import opened KotlinText

  datatype Signal<T> = OnNext(value: T) | OnComplete

  /** `Observable.fromIterable(xs)`: one `onNext` per element, in order, then `onComplete`. */
  function FromIterable<T>(xs: seq<T>): (s: seq<Signal<T>>)
    ensures |s| == |xs| + 1
    ensures forall i :: 0 <= i < |xs| ==> s[i] == OnNext(xs[i])
    ensures s[|xs|] == OnComplete
    decreases |xs|
  {
    if |xs| == 0 then [OnComplete] else [OnNext(xs[0])] + FromIterable(xs[1..])
  }

  /** The values a subscriber receives before completion. */
  function Items<T>(s: seq<Signal<T>>): (r: seq<T>)
    ensures |r| <= |s|
    ensures forall i :: 0 <= i < |r| ==> s[i].OnNext? && s[i].value == r[i]
    ensures |r| < |s| ==> s[|r|].OnComplete?
    decreases |s|
  {
    if |s| == 0 || s[0].OnComplete? then [] else [s[0].value] + Items(s[1..])
  }

  /** The stream has delivered `onComplete`. */
  predicate Completes<T>(s: seq<Signal<T>>) {
    exists i :: 0 <= i < |s| && s[i].OnComplete?
  }

  /** A subscriber to `fromIterable(xs)` receives exactly `xs`, in order. */
  lemma {:induction false} ItemsFromIterable<T>(xs: seq<T>)
    ensures Items(FromIterable(xs)) == xs
    decreases |xs|
  {
    if |xs| > 0 {
      ItemsFromIterable(xs[1..]);
      assert FromIterable(xs)[1..] == FromIterable(xs[1..]);
    }
  }

  predicate NoDuplicates<T(==)>(s: seq<T>) {
    forall i, j :: 0 <= i < j < |s| ==> s[i] != s[j]
  }

  /** `distinct()`: keeps the first occurrence of every item, dropping later repeats. */
  function Distinct<T(==,!new)>(xs: seq<T>): (r: seq<T>)
    ensures NoDuplicates(r)
    ensures forall x :: x in r <==> x in xs
    decreases |xs|
  {
    if |xs| == 0 then []
    else
      var r := Distinct(xs[..|xs| - 1]);
      if xs[|xs| - 1] in r then r else r + [xs[|xs| - 1]]
  }

  /** Ascending in the natural `String` order, ties allowed. */
  predicate Sorted(s: seq<string>) {
    forall i, j :: 0 <= i < j < |s| ==> !Less(s[j], s[i])
  }

  /** Each element strictly below every later one. */
  predicate StrictlySorted(s: seq<string>) {
    forall i, j :: 0 <= i < j < |s| ==> Less(s[i], s[j])
  }

  /** Inserts `x` after every element it is not below, which keeps the sort stable. */
  function Insert(x: string, s: seq<string>): (r: seq<string>)
    requires Sorted(s)
    ensures Sorted(r)
    ensures multiset(r) == multiset(s) + multiset{x}
    decreases |s|
  {
    if |s| == 0 then [x]
    else if Less(x, s[0]) then
      InsertFrontSorted(x, s);
      [x] + s
    else
      var t := Insert(x, s[1..]);
      assert s == [s[0]] + s[1..];
      InsertAfterSorted(s[0], x, s[1..], t);
      [s[0]] + t
  }

  lemma InsertFrontSorted(x: string, s: seq<string>)
    requires Sorted(s) && |s| > 0 && Less(x, s[0])
    ensures Sorted([x] + s)
  {
    forall k | 0 <= k < |s|
      ensures !Less(s[k], x)
    {
      LessAsymmetric(x, s[0]);
      if k > 0 && Less(s[k], x) {
        LessTransitive(s[k], x, s[0]);
      }
    }
  }

  lemma InsertAfterSorted(h: string, x: string, tail: seq<string>, t: seq<string>)
    requires Sorted([h] + tail) && Sorted(t) && !Less(x, h)
    requires multiset(t) == multiset(tail) + multiset{x}
    ensures Sorted([h] + t)
  {
    forall k | 0 <= k < |t|
      ensures !Less(t[k], h)
    {
      assert t[k] in t;
      assert t[k] in multiset(t);
      if t[k] != x {
        assert t[k] in multiset(tail);
        assert t[k] in tail;
        var m :| 0 <= m < |tail| && tail[m] == t[k];
        var ht := [h] + tail;
        assert ht[m + 1] == t[k] && ht[0] == h;
        assert !Less(ht[m + 1], ht[0]);
      }
    }
  }

  /** `toSortedList()`: the items as one list in ascending natural order. */
  function ToSortedList(xs: seq<string>): (r: seq<string>)
    ensures Sorted(r)
    ensures multiset(r) == multiset(xs)
    decreases |xs|
  {
    if |xs| == 0 then []
    else
      assert xs == xs[..|xs| - 1] + [xs[|xs| - 1]];
      Insert(xs[|xs| - 1], ToSortedList(xs[..|xs| - 1]))
  }

  lemma {:induction false} NoDuplicatesCount<T>(s: seq<T>, x: T)
    requires NoDuplicates(s)
    ensures multiset(s)[x] <= 1
    decreases |s|
  {
    if |s| > 0 {
      assert s == [s[0]] + s[1..];
      NoDuplicatesCount(s[1..], x);
      if s[0] == x {
        assert x !in s[1..];
      }
    }
  }

  /** A permutation of a duplicate-free sequence is duplicate-free. */
  lemma PermutationNoDuplicates<T>(a: seq<T>, b: seq<T>)
    requires NoDuplicates(a) && multiset(a) == multiset(b)
    ensures NoDuplicates(b)
  {
    forall i, j | 0 <= i < j < |b|
      ensures b[i] != b[j]
    {
      if b[i] == b[j] {
        assert b == b[..j] + b[j..];
        assert b[i] in multiset(b[..j]);
        assert b[j] in multiset(b[j..]);
        assert multiset(b)[b[i]] >= 2;
        NoDuplicatesCount(a, b[i]);
      }
    }
  }

  /** Sorted and duplicate-free is strictly ascending. */
  lemma SortedDistinctIsStrict(s: seq<string>)
    requires Sorted(s) && NoDuplicates(s)
    ensures StrictlySorted(s)
  {
    forall i, j | 0 <= i < j < |s|
      ensures Less(s[i], s[j])
    {
      LessTotal(s[i], s[j]);
    }
  }

  /** A strictly ascending sequence is fixed by its elements alone. */
  lemma {:induction false} StrictlySortedUnique(a: seq<string>, b: seq<string>)
    requires StrictlySorted(a) && StrictlySorted(b)
    requires forall x :: x in a <==> x in b
    ensures a == b
    decreases |a|
  {
    assert |a| > 0 ==> a[0] in b;
    assert |b| > 0 ==> b[0] in a;
    if |a| > 0 && |b| > 0 {
      if a[0] != b[0] {
        assert a[0] in b;
        assert b[0] in a;
        LessAsymmetric(a[0], b[0]);
        assert false;
      }
      forall x
        ensures x in a[1..] <==> x in b[1..]
      {
        assert a == [a[0]] + a[1..] && b == [b[0]] + b[1..];
        if x in a[1..] {
          var k :| 0 <= k < |a| - 1 && a[1..][k] == x;
          assert Less(a[0], a[k + 1]);
          LessIrreflexive(x);
          assert x in b;
        }
        if x in b[1..] {
          var k :| 0 <= k < |b| - 1 && b[1..][k] == x;
          assert Less(b[0], b[k + 1]);
          LessIrreflexive(x);
          assert x in a;
        }
      }
      StrictlySortedUnique(a[1..], b[1..]);
      assert a == [a[0]] + a[1..] && b == [b[0]] + b[1..];
    }
  }
}
