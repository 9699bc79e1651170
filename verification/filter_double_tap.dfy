/**
 The `filterDoubleTap(periodMillis)` transformer. On plausible clock readings
 it lets an item through only when it closes a "double tap", that is when it
 arrives at most `periodMillis` after the previous item that was not itself
 accepted; at `Long.MAX_VALUE`, or on a reading less than one period, a first
 tap gets through as well. The clock reading `System.currentTimeMillis()` of
 every item becomes an input.
 */
module FilterDoubleTap {

  /** Kotlin `Long`: a signed 64-bit integer. */
  type Long = x: int | -0x8000_0000_0000_0000 <= x <= 0x7FFF_FFFF_FFFF_FFFF

  const LONG_MIN: int := -0x8000_0000_0000_0000
  const LONG_MAX: int := 0x7FFF_FFFF_FFFF_FFFF
  const TWO_64: int := 0x1_0000_0000_0000_0000

  /** `a - b` on `Long`: two's-complement subtraction, wrapping modulo 2^64. */
  function Sub(a: Long, b: Long): (r: Long)
    ensures (r - (a - b)) % TWO_64 == 0
    ensures LONG_MIN <= a - b <= LONG_MAX ==> r == a - b
  {
    var d := a - b;
    if d > LONG_MAX then d - TWO_64 else if d < LONG_MIN then d + TWO_64 else d
  }

  /** The stored stamp that means "no first tap is waiting for its partner". */
  const NO_STAMP: Long := -1

  /** What one `filterDoubleTap` call creates: the period, and the single
      `lastStamp` variable that its filter closure captures. */
  datatype DoubleTap = DoubleTap(periodMillis: Long, lastStamp: Long)

  /** A fresh transformer: nothing is waiting for a partner. */
  function NewDoubleTap(periodMillis: Long): (f: DoubleTap)
    ensures f.lastStamp == NO_STAMP
    ensures f.periodMillis == periodMillis
  {
    DoubleTap(periodMillis, NO_STAMP)
  }

  /** The verdict on one item and the state the filter leaves behind. */
  datatype Outcome = Outcome(accepted: bool, next: DoubleTap)

  /** The body of the `filter` lambda, for an item seen at time `now`. */
  function Test(f: DoubleTap, now: Long): (o: Outcome)
    ensures o.next.periodMillis == f.periodMillis
    ensures o.accepted <==> Sub(now, f.lastStamp) <= f.periodMillis
    ensures o.accepted ==> o.next.lastStamp == NO_STAMP
    ensures !o.accepted ==> o.next.lastStamp == now
  {
    var sinceLast := Sub(now, f.lastStamp);
    var stamped := f.(lastStamp := now);
    var accepted := sinceLast <= f.periodMillis;
    Outcome(accepted, if accepted then stamped.(lastStamp := NO_STAMP) else stamped)
  }

  /** A reading of at least one period and short of the last `Long` (where
      `now - (-1)` would wrap): a first tap at such a reading is rejected. */
  predicate LateEnough(period: Long, now: Long) {
    period <= now < LONG_MAX
  }

  /** A plausible wall-clock reading for a filter with period `period`: not
      before the epoch, and late enough. */
  predicate ClockReading(period: Long, now: Long) {
    0 <= now && LateEnough(period, now)
  }

  /** On a reading late enough, an item that finds nothing waiting is rejected
      and becomes the first tap of a possible pair. */
  lemma FirstTapRejected(f: DoubleTap, now: Long)
    requires f.lastStamp == NO_STAMP && LateEnough(f.periodMillis, now)
    ensures !Test(f, now).accepted
    ensures Test(f, now).next.lastStamp == now
  {
  }

  /** The as-written behaviour at the very end of the `Long` range: the
      difference `now - (-1)` wraps to the most negative `Long`, so a first tap
      at `Long.MAX_VALUE` is accepted. */
  lemma FirstTapAtLongMaxAccepted(periodMillis: Long)
    ensures Test(NewDoubleTap(periodMillis), LONG_MAX).accepted
  {
    assert Sub(LONG_MAX, NO_STAMP) == LONG_MIN;
  }

  /** The verdicts on a sequence of items and the filter's final state. */
  datatype Trace = Trace(accepted: seq<bool>, final: DoubleTap)

  /** The stamp the filter holds once the first `i` verdicts `d` are known. */
  function StampAfter(f: DoubleTap, d: seq<bool>, times: seq<Long>, i: nat): Long
    requires i <= |d| == |times|
  {
    if i == 0 then f.lastStamp else if d[i - 1] then NO_STAMP else times[i - 1]
  }

  /** The verdicts on `times` are the verdicts `d` on all but its last item,
      followed by the verdict on the last item from the state `d` left. */
  predicate JudgedInTurn(f: DoubleTap, d: seq<bool>, times: seq<Long>)
    requires |d| == |times|
  {
    forall i :: 0 <= i < |times| ==>
      d[i] == Test(f.(lastStamp := StampAfter(f, d, times, i)), times[i]).accepted
  }

  lemma JudgedInTurnExtend(f: DoubleTap, d: seq<bool>, times: seq<Long>, o: Outcome)
    requires |times| > 0 && |d| + 1 == |times|
    requires JudgedInTurn(f, d, times[..|d|])
    requires o == Test(f.(lastStamp := StampAfter(f, d, times[..|d|], |d|)), times[|d|])
    ensures JudgedInTurn(f, d + [o.accepted], times)
    ensures o.next == f.(lastStamp := StampAfter(f, d + [o.accepted], times, |times|))
  {
    var d' := d + [o.accepted];
    forall i | 0 <= i < |times|
      ensures d'[i] == Test(f.(lastStamp := StampAfter(f, d', times, i)), times[i]).accepted
    {
      assert StampAfter(f, d', times, i) == StampAfter(f, d, times[..|d|], i);
      if i < |d| {
        assert times[..|d|][i] == times[i];
      }
    }
  }

  /** The filter lifted over the clock readings of successive items. Item `i`
      is judged against the stamp that the verdict on item `i - 1` left. */
  function Run(f: DoubleTap, times: seq<Long>): (t: Trace)
    ensures |t.accepted| == |times|
    ensures t.final == f.(lastStamp := StampAfter(f, t.accepted, times, |times|))
    ensures JudgedInTurn(f, t.accepted, times)
    decreases |times|
  {
    if |times| == 0 then Trace([], f)
    else
      var n := |times| - 1;
      var t := Run(f, times[..n]);
      var o := Test(t.final, times[n]);
      JudgedInTurnExtend(f, t.accepted, times, o);
      Trace(t.accepted + [o.accepted], o.next)
  }

  /** Running over two batches in turn is running over their concatenation:
      the second batch starts from the state the first one left. */
  lemma {:induction false} RunConcat(f: DoubleTap, a: seq<Long>, b: seq<Long>)
    ensures Run(f, a + b).accepted == Run(f, a).accepted + Run(Run(f, a).final, b).accepted
    ensures Run(f, a + b).final == Run(Run(f, a).final, b).final
    decreases |b|
  {
    if |b| == 0 {
      assert a + b == a;
    } else {
      var n := |b| - 1;
      assert (a + b)[..|a + b| - 1] == a + b[..n];
      assert (a + b)[|a + b| - 1] == b[n];
      RunConcat(f, a, b[..n]);
    }
  }

  /** On plausible clock readings, from a fresh filter: item `i` is accepted
      exactly when it is not the first, the item before it was rejected, and
      it came at most one period after that item. */
  lemma {:induction false} AcceptedIffClosesPair(periodMillis: Long, times: seq<Long>, i: nat)
    requires forall k :: 0 <= k < |times| ==> ClockReading(periodMillis, times[k])
    requires i < |times|
    ensures var d := Run(NewDoubleTap(periodMillis), times).accepted;
      d[i] <==> i > 0 && !d[i - 1] && times[i] - times[i - 1] <= periodMillis
  {
    var f := NewDoubleTap(periodMillis);
    var d := Run(f, times).accepted;
    var stamp := StampAfter(f, d, times, i);
    if i == 0 || d[i - 1] {
      assert stamp == NO_STAMP;
      assert Sub(times[i], stamp) == times[i] + 1;
    } else {
      assert stamp == times[i - 1];
      assert Sub(times[i], stamp) == times[i] - times[i - 1];
    }
  }

  /** On readings late enough, no two successive items are both accepted, and
      the first never is: the first item, and every item right after an
      accepted one, finds the stamp reset and is a first tap. */
  lemma NoConsecutiveAccepts(periodMillis: Long, times: seq<Long>)
    requires forall k :: 0 <= k < |times| ==> LateEnough(periodMillis, times[k])
    ensures var d := Run(NewDoubleTap(periodMillis), times).accepted;
      (|d| > 0 ==> !d[0]) && forall i :: 0 < i < |d| ==> !(d[i - 1] && d[i])
  {
    var f := NewDoubleTap(periodMillis);
    var d := Run(f, times).accepted;
    forall i | 0 <= i < |d| && (i == 0 || d[i - 1])
      ensures !d[i]
    {
      var g := f.(lastStamp := StampAfter(f, d, times, i));
      assert g.lastStamp == NO_STAMP;
      FirstTapRejected(g, times[i]);
    }
  }

  function CountTrue(d: seq<bool>): nat
    decreases |d|
  {
    if |d| == 0 then 0 else (if d[0] then 1 else 0) + CountTrue(d[1..])
  }

  lemma {:induction false} NoAdjacentBound(d: seq<bool>)
    requires forall i :: 0 < i < |d| ==> !(d[i - 1] && d[i])
    ensures 2 * CountTrue(d) <= |d| + 1
    decreases |d|
  {
    if |d| >= 2 && d[0] {
      assert d[1..][1..] == d[2..];
      NoAdjacentBound(d[2..]);
    } else if |d| > 0 {
      NoAdjacentBound(d[1..]);
    }
  }

  /** On readings late enough, at most every second item gets through. */
  lemma AtMostHalfAccepted(periodMillis: Long, times: seq<Long>)
    requires forall k :: 0 <= k < |times| ==> LateEnough(periodMillis, times[k])
    ensures 2 * CountTrue(Run(NewDoubleTap(periodMillis), times).accepted) <= |times|
  {
    var d := Run(NewDoubleTap(periodMillis), times).accepted;
    NoConsecutiveAccepts(periodMillis, times);
    if |d| > 0 {
      forall i | 0 < i < |d| - 1
        ensures !(d[1..][i - 1] && d[1..][i])
      {
        assert d[1..][i - 1] == d[i] && d[1..][i] == d[i + 1];
      }
      NoAdjacentBound(d[1..]);
    }
  }

  /** An item together with the clock reading at which it reached the filter. */
  datatype Tap<T> = Tap(item: T, at: Long)

  function Times<T>(taps: seq<Tap<T>>): (ts: seq<Long>)
    ensures |ts| == |taps|
    ensures forall i :: 0 <= i < |taps| ==> ts[i] == taps[i].at
  {
    seq(|taps|, i requires 0 <= i < |taps| => taps[i].at)
  }

  /** The items of the taps, in order. */
  function ItemsOf<T>(taps: seq<Tap<T>>): (xs: seq<T>)
    ensures |xs| == |taps|
    ensures forall i :: 0 <= i < |taps| ==> xs[i] == taps[i].item
  {
    seq(|taps|, i requires 0 <= i < |taps| => taps[i].item)
  }

  /** `s` is `xs` with some elements left out and the rest in their order. */
  predicate IsSubsequence<T(==)>(s: seq<T>, xs: seq<T>)
    decreases |xs|
  {
    || |s| == 0
    || (|xs| > 0 && s[0] == xs[0] && IsSubsequence(s[1..], xs[1..]))
    || (|xs| > 0 && IsSubsequence(s, xs[1..]))
  }

  /** The items whose verdict is `true`, in order. */
  function Select<T(==)>(taps: seq<Tap<T>>, keep: seq<bool>): (r: seq<T>)
    requires |keep| == |taps|
    ensures |r| == CountTrue(keep)
    ensures IsSubsequence(r, ItemsOf(taps))
    ensures forall i :: 0 <= i < |taps| && keep[i] ==> taps[i].item in r
    ensures forall k :: 0 <= k < |r| ==> exists i :: 0 <= i < |taps| && keep[i] && taps[i].item == r[k]
    decreases |taps|
  {
    if |taps| == 0 then []
    else
      var rest := Select(taps[1..], keep[1..]);
      var r := if keep[0] then [taps[0].item] + rest else rest;
      SelectStepOrder(taps, rest, keep[0]);
      SelectStepMembers(taps, keep, rest);
      r
  }

  lemma SelectStepOrder<T>(taps: seq<Tap<T>>, rest: seq<T>, k: bool)
    requires |taps| > 0 && IsSubsequence(rest, ItemsOf(taps[1..]))
    ensures IsSubsequence(if k then [taps[0].item] + rest else rest, ItemsOf(taps))
  {
    assert ItemsOf(taps)[1..] == ItemsOf(taps[1..]);
    if k {
      assert ([taps[0].item] + rest)[1..] == rest;
    }
  }

  lemma SelectStepMembers<T>(taps: seq<Tap<T>>, keep: seq<bool>, rest: seq<T>)
    requires |taps| > 0 && |keep| == |taps|
    requires forall i :: 0 <= i < |taps| - 1 && keep[1..][i] ==> taps[1..][i].item in rest
    requires forall k :: 0 <= k < |rest| ==>
      exists i :: 0 <= i < |taps| - 1 && keep[1..][i] && taps[1..][i].item == rest[k]
    ensures var r := if keep[0] then [taps[0].item] + rest else rest;
      && (forall i :: 0 <= i < |taps| && keep[i] ==> taps[i].item in r)
      && (forall k :: 0 <= k < |r| ==> exists i :: 0 <= i < |taps| && keep[i] && taps[i].item == r[k])
  {
    var r := if keep[0] then [taps[0].item] + rest else rest;
    forall i | 0 <= i < |taps| && keep[i]
      ensures taps[i].item in r
    {
      if i > 0 {
        assert keep[1..][i - 1] && taps[1..][i - 1] == taps[i];
      }
    }
    forall k | 0 <= k < |r|
      ensures exists i :: 0 <= i < |taps| && keep[i] && taps[i].item == r[k]
    {
      if keep[0] && k == 0 {
        assert keep[0] && taps[0].item == r[0];
      } else {
        var k' := if keep[0] then k - 1 else k;
        assert r[k] == rest[k'];
        var i :| 0 <= i < |taps| - 1 && keep[1..][i] && taps[1..][i].item == rest[k'];
        assert keep[i + 1] && taps[i + 1].item == r[k];
      }
    }
  }

  /** Selecting from two batches is selecting from each in turn. */
  lemma {:induction false} SelectConcat<T>(a: seq<Tap<T>>, ka: seq<bool>, b: seq<Tap<T>>, kb: seq<bool>)
    requires |ka| == |a| && |kb| == |b|
    ensures Select(a + b, ka + kb) == Select(a, ka) + Select(b, kb)
    decreases |a|
  {
    if |a| > 0 {
      assert (a + b)[1..] == a[1..] + b;
      assert (ka + kb)[1..] == ka[1..] + kb;
      SelectConcat(a[1..], ka[1..], b, kb);
    } else {
      assert a + b == b && ka + kb == kb;
    }
  }

  /** One more item is kept, after everything kept before, exactly when its
      verdict is `true`. */
  lemma SelectSnoc<T>(taps: seq<Tap<T>>, keep: seq<bool>, x: Tap<T>, k: bool)
    requires |keep| == |taps|
    ensures Select(taps + [x], keep + [k]) == Select(taps, keep) + (if k then [x.item] else [])
  {
    SelectConcat(taps, keep, [x], [k]);
  }

  /** `observable.compose(filterDoubleTap(periodMillis))`: the accepted items,
      unchanged and in their order, and the state left for later items. */
  function Apply<T(==)>(f: DoubleTap, taps: seq<Tap<T>>): (r: (seq<T>, DoubleTap))
    ensures IsSubsequence(r.0, ItemsOf(taps))
    ensures |r.0| == CountTrue(Run(f, Times(taps)).accepted)
    ensures var d := Run(f, Times(taps)).accepted;
      forall i :: 0 <= i < |taps| && d[i] ==> taps[i].item in r.0
    ensures var d := Run(f, Times(taps)).accepted;
      forall k :: 0 <= k < |r.0| ==> exists i :: 0 <= i < |taps| && d[i] && taps[i].item == r.0[k]
    ensures r.1 == Run(f, Times(taps)).final
  {
    var t := Run(f, Times(taps));
    (Select(taps, t.accepted), t.final)
  }

  lemma TimesConcat<T>(a: seq<Tap<T>>, b: seq<Tap<T>>)
    ensures Times(a + b) == Times(a) + Times(b)
  {
  }

  /** A single item passes, unchanged, exactly when `Test` accepts it, and the
      filter is left in the state `Test` produces. */
  lemma ApplyOne<T>(f: DoubleTap, x: Tap<T>)
    ensures Apply(f, [x]).0 == (if Test(f, x.at).accepted then [x.item] else [])
    ensures Apply(f, [x]).1 == Test(f, x.at).next
  {
    assert Times([x]) == [x.at];
    assert Times([x])[..0] == [];
  }

  /** One transformer applied to one observable and then to another behaves as
      if it were applied to the two in a row: the second starts from the
      `lastStamp` the first left behind. */
  lemma ApplyConcat<T>(f: DoubleTap, a: seq<Tap<T>>, b: seq<Tap<T>>)
    ensures Apply(f, a + b).0 == Apply(f, a).0 + Apply(Apply(f, a).1, b).0
    ensures Apply(f, a + b).1 == Apply(Apply(f, a).1, b).1
  {
    TimesConcat(a, b);
    RunConcat(f, Times(a), Times(b));
    var ra := Run(f, Times(a));
    SelectConcat(a, ra.accepted, b, Run(ra.final, Times(b)).accepted);
  }

  /** The one `lastStamp` is shared by every observable the transformer is
      applied to: a tap on one stream at 1000 ms followed by a tap on another
      stream at 1100 ms lets the second through, whereas a transformer of its
      own would have rejected it. */
  lemma SharedAcrossObservables()
    ensures Run(NewDoubleTap(300), [1000, 1100]).accepted == [false, true]
    ensures Run(NewDoubleTap(300), [1100]).accepted == [false]
  {
    var f := NewDoubleTap(300);
    var t := Run(f, [1000, 1100]);
    assert [1000, 1100][..1] == [1000];
    assert Run(f, [1000]).accepted == [false];
  }
}
