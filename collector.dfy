/** `get_ltla_data`: walks the list of area codes in order, downloads each area's
    table with a bounded retry loop and keeps the tables that arrived. The loop's
    exact counter discipline is modelled: `retry` starts at 1, an exception
    increments it, and the `finally` clause sets `failure` whenever
    `retry == max_retry` after an attempt, the successful one included. */
module Collector {
  import opened Frames

  /** What one `Cov19API(...).get_dataframe()` call does: raise, or return a frame. */
  datatype Attempt = Raised | Returned(frame: Frame)

  /** The remote API as an oracle: `api(i, k)` is what the k-th attempt (k >= 1)
      to download the i-th area of the list yields. The `structure` argument
      is folded into the oracle. */
  type Api = (nat, nat) -> Attempt

  /** get_ltla_data's default `max_retry`. */
  const DefaultMaxRetry: int := 3

  /** The variables of one area's `while not failure` loop. `broke` records
      that the loop was left by `break`; `calls` counts the attempts made
      (an observation, not a variable of the source). */
  datatype Loop = Loop(retry: nat, failure: bool, broke: bool, df: Option<Frame>, calls: nat)

  /** `retry = 1; failure = False`; `df` is whatever the previous area left
      there (None while it is still unbound). */
  function Start(df: Option<Frame>): Loop
  {
    Loop(1, false, false, df, 0)
  }

  predicate Running(s: Loop)
  {
    !s.failure && !s.broke
  }

  /** One pass of the loop body: the attempt, the `except` clause on a raise,
      and the `finally` clause, which also runs on the way out of `break`. */
  function Pass(s: Loop, a: Attempt, maxRetry: int): Loop
  {
    var s1 := match a
      case Returned(f) => s.(df := Some(f), broke := true, calls := s.calls + 1)
      case Raised => s.(retry := s.retry + 1, calls := s.calls + 1);
    if s1.retry == maxRetry then s1.(failure := true) else s1
  }

  /** What makes the loop finite from `s`: with `max_retry >= 2` the counter
      reaches it; otherwise attempt number `bound` succeeds. */
  ghost predicate Bounded(api: Api, i: nat, maxRetry: int, s: Loop, bound: nat)
  {
    !Running(s) ||
    (1 <= s.retry && if maxRetry >= 2 then s.retry < maxRetry else s.retry <= bound && api(i, bound).Returned?)
  }

  /** The loop run from `s` until it stops, by `break` or by `failure`. */
  ghost function Run(api: Api, i: nat, maxRetry: int, s: Loop, bound: nat): (e: Loop)
    requires Bounded(api, i, maxRetry, s, bound)
    ensures !Running(e)
    ensures Running(s) && e.broke ==> e.df.Some?
    decreases (if maxRetry >= 2 then maxRetry - s.retry else bound - s.retry), (if Running(s) then 1 else 0)
  {
    if !Running(s) then s else Run(api, i, maxRetry, Pass(s, api(i, s.retry), maxRetry), bound)
  }

  /** The first n passes of the loop from `s`, fewer if it stops earlier. */
  function Steps(api: Api, i: nat, maxRetry: int, s: Loop, n: nat): Loop
    decreases n
  {
    if n == 0 || !Running(s) then s else Steps(api, i, maxRetry, Pass(s, api(i, s.retry), maxRetry), n - 1)
  }

  lemma {:induction false} RunAnyBound(api: Api, i: nat, maxRetry: int, s: Loop, b1: nat, b2: nat)
    requires Bounded(api, i, maxRetry, s, b1) && Bounded(api, i, maxRetry, s, b2)
    ensures Run(api, i, maxRetry, s, b1) == Run(api, i, maxRetry, s, b2)
    decreases (if maxRetry >= 2 then maxRetry - s.retry else b1 - s.retry), (if Running(s) then 1 else 0)
  {
    if Running(s) {
      RunAnyBound(api, i, maxRetry, Pass(s, api(i, s.retry), maxRetry), b1, b2);
    }
  }

  /** The loop ends for area i: `max_retry >= 2`, or some attempt succeeds. */
  ghost predicate Ends(api: Api, i: nat, maxRetry: int)
  {
    maxRetry >= 2 || exists k: nat :: k >= 1 && api(i, k).Returned?
  }

  lemma StartBounded(api: Api, i: nat, maxRetry: int, df: Option<Frame>)
    requires Ends(api, i, maxRetry)
    ensures exists b: nat :: Bounded(api, i, maxRetry, Start(df), b)
  {
    if maxRetry >= 2 {
      assert Bounded(api, i, maxRetry, Start(df), 0);
    } else {
      var k: nat :| k >= 1 && api(i, k).Returned?;
      assert Bounded(api, i, maxRetry, Start(df), k);
    }
  }

  /** Where area i's loop stops when entered with `df`. */
  ghost function Exit(api: Api, i: nat, maxRetry: int, df: Option<Frame>): (e: Loop)
    requires Ends(api, i, maxRetry)
    ensures forall b: nat :: Bounded(api, i, maxRetry, Start(df), b) ==> e == Run(api, i, maxRetry, Start(df), b)
    ensures !Running(e) && (e.broke ==> e.df.Some?)
  {
    StartBounded(api, i, maxRetry, df);
    var bound: nat :| Bounded(api, i, maxRetry, Start(df), bound);
    assert forall b: nat :: Bounded(api, i, maxRetry, Start(df), b) ==>
      Run(api, i, maxRetry, Start(df), bound) == Run(api, i, maxRetry, Start(df), b) by {
      forall b: nat | Bounded(api, i, maxRetry, Start(df), b)
        ensures Run(api, i, maxRetry, Start(df), bound) == Run(api, i, maxRetry, Start(df), b)
      {
        RunAnyBound(api, i, maxRetry, Start(df), bound, b);
      }
    }
    Run(api, i, maxRetry, Start(df), bound)
  }

  ghost predicate AllEnd(api: Api, n: nat, maxRetry: int)
  {
    forall i :: 0 <= i < n ==> Ends(api, i, maxRetry)
  }

  /** What get_ltla_data returns, or that it raises: line 69 reads `df` before
      `failure`, so an area that fails before any download succeeded reaches
      an unbound `df` (UnboundLocalError). */
  datatype Outcome = Collected(frames: seq<Frame>) | UnboundDataFrame

  function Prepend(fs: seq<Frame>, o: Outcome): Outcome
  {
    match o
    case Collected(rest) => Collected(fs + rest)
    case UnboundDataFrame => UnboundDataFrame
  }

  lemma PrependPrepend(a: seq<Frame>, b: seq<Frame>, o: Outcome)
    ensures Prepend(a, Prepend(b, o)) == Prepend(a + b, o)
  {
    if o.Collected? {
      assert a + (b + o.frames) == (a + b) + o.frames;
    }
  }

  /** The `for` loop from area i on, `df` being what the areas before left. */
  ghost function CollectFrom(api: Api, n: nat, maxRetry: int, i: nat, df: Option<Frame>): Outcome
    requires i <= n && AllEnd(api, n, maxRetry)
    decreases n - i
  {
    if i == n then Collected([])
    else
      var e := Exit(api, i, maxRetry, df);
      if e.df.None? then UnboundDataFrame
      else if Shape(e.df.value) == (0, 0) || e.failure then CollectFrom(api, n, maxRetry, i + 1, e.df)
      else Prepend([e.df.value], CollectFrom(api, n, maxRetry, i + 1, e.df))
  }

  ghost function Collect(api: Api, regions: seq<AreaCode>, maxRetry: int): Outcome
    requires AllEnd(api, |regions|, maxRetry)
  {
    CollectFrom(api, |regions|, maxRetry, 0, None)
  }

  /** The body of the `for` loop for the i-th area up to line 68: the retry
      loop, returning `failure`, the new value of `df` and (as a ghost) the
      number of attempts it made. */
  method FetchRegion(api: Api, i: nat, maxRetry: int, entry: Option<Frame>) returns (failure: bool, df: Option<Frame>, ghost attempts: nat)
    requires Ends(api, i, maxRetry)
    ensures failure == Exit(api, i, maxRetry, entry).failure
    ensures df == Exit(api, i, maxRetry, entry).df
    ensures attempts == Exit(api, i, maxRetry, entry).calls
  {
    StartBounded(api, i, maxRetry, entry);
    ghost var bound: nat :| Bounded(api, i, maxRetry, Start(entry), bound);
    ghost var calls: nat := 0;
    ghost var broke := false;
    df := entry;
    var retry: nat := 1;
    failure := false;
    while !failure
      invariant Bounded(api, i, maxRetry, Loop(retry, failure, false, df, calls), bound)
      invariant Run(api, i, maxRetry, Loop(retry, failure, false, df, calls), bound) == Run(api, i, maxRetry, Start(entry), bound)
      invariant !broke
      decreases if maxRetry >= 2 then maxRetry - retry else bound - retry
    {
      ghost var before := Loop(retry, failure, false, df, calls);
      calls := calls + 1;
      match api(i, retry) {
        case Returned(f) =>
          df := Some(f);
          // `finally` runs on the way out of `break`
          if retry == maxRetry {
            failure := true;
          }
          broke := true;
          assert Loop(retry, failure, true, df, calls) == Pass(before, api(i, before.retry), maxRetry);
          break;
        case Raised =>
          retry := retry + 1;
          if retry == maxRetry {
            failure := true;
          }
          assert Loop(retry, failure, false, df, calls) == Pass(before, api(i, before.retry), maxRetry);
      }
    }
    assert Run(api, i, maxRetry, Start(entry), bound) == Loop(retry, failure, broke, df, calls);
    attempts := calls;
  }

  /** `get_ltla_data(ltla_list, structure, max_retry)`. Python's loop does not
      end for an area whose every attempt raises when `max_retry < 2`; the
      precondition excludes exactly that. */
  method GetLtlaData(regions: seq<AreaCode>, api: Api, maxRetry: int := DefaultMaxRetry) returns (r: Outcome)
    requires AllEnd(api, |regions|, maxRetry)
    ensures r == Collect(api, regions, maxRetry)
  {
    var dataframes: seq<Frame> := [];
    var df: Option<Frame> := None;
    var i := 0;
    while i < |regions|
      invariant 0 <= i <= |regions|
      invariant Collect(api, regions, maxRetry) == Prepend(dataframes, CollectFrom(api, |regions|, maxRetry, i, df))
    {
      assert Ends(api, i, maxRetry);
      ghost var rest := CollectFrom(api, |regions|, maxRetry, i, df);
      var failure;
      ghost var attempts;
      failure, df, attempts := FetchRegion(api, i, maxRetry, df);
      if df.None? {
        // line 69 reads the unbound `df`
        assert rest == UnboundDataFrame;
        return UnboundDataFrame;
      }
      if Shape(df.value) != (0, 0) && !failure {
        assert rest == Prepend([df.value], CollectFrom(api, |regions|, maxRetry, i + 1, df));
        PrependPrepend(dataframes, [df.value], CollectFrom(api, |regions|, maxRetry, i + 1, df));
        dataframes := dataframes + [df.value];
      } else {
        assert rest == CollectFrom(api, |regions|, maxRetry, i + 1, df);
      }
      i := i + 1;
    }
    return Collected(dataframes);
  }

  // ---------------------------------------------------------------------
  // The retry loop of one area

  /** With `max_retry >= 2` the loop makes attempts until the first one that
      returns, but at most `max_retry - 1` of them; `failure` is set exactly
      when none returned, and then `df` keeps its old value. */
  lemma {:induction false} RunCounted(api: Api, i: nat, maxRetry: int, s: Loop, b: nat)
    requires maxRetry >= 2 && Bounded(api, i, maxRetry, s, b)
    requires Running(s) && s.retry == s.calls + 1
    requires forall k :: 1 <= k <= s.calls ==> api(i, k).Raised?
    ensures var e := Run(api, i, maxRetry, s, b);
      && 1 <= e.calls <= maxRetry - 1
      && e.failure == !e.broke
      && (forall k :: 1 <= k < e.calls ==> api(i, k).Raised?)
      && (e.broke ==> api(i, e.calls).Returned? && e.df == Some(api(i, e.calls).frame))
      && (!e.broke ==> e.calls == maxRetry - 1 && api(i, e.calls).Raised? && e.df == s.df)
    decreases maxRetry - s.retry
  {
    var t := Pass(s, api(i, s.retry), maxRetry);
    if Running(t) {
      RunCounted(api, i, maxRetry, t, b);
    }
  }

  lemma ExitCounted(api: Api, i: nat, maxRetry: int, df: Option<Frame>)
    requires maxRetry >= 2
    ensures var e := Exit(api, i, maxRetry, df);
      && 1 <= e.calls <= maxRetry - 1
      && e.failure == !e.broke
      && (forall k :: 1 <= k < e.calls ==> api(i, k).Raised?)
      && (e.broke ==> api(i, e.calls).Returned? && e.df == Some(api(i, e.calls).frame))
      && (!e.broke ==> e.calls == maxRetry - 1 && api(i, e.calls).Raised? && e.df == df)
  {
    assert Bounded(api, i, maxRetry, Start(df), 0);
    RunCounted(api, i, maxRetry, Start(df), 0);
  }

  /** An area whose first `max_retry - 1` attempts all raise is attempted
      exactly `max_retry - 1` times and given up with `failure` set. */
  lemma GivesUpAfterMaxRetryMinusOne(api: Api, i: nat, maxRetry: int, df: Option<Frame>)
    requires maxRetry >= 2
    requires forall k :: 1 <= k < maxRetry ==> api(i, k).Raised?
    ensures var e := Exit(api, i, maxRetry, df);
      e.failure && e.calls == maxRetry - 1 && e.df == df
  {
    ExitCounted(api, i, maxRetry, df);
  }

  /** An attempt n < max_retry that returns, after n - 1 that raised, ends the
      loop there with `failure` unset and its frame in `df`. */
  lemma SucceedsOnAttempt(api: Api, i: nat, maxRetry: int, df: Option<Frame>, n: nat, f: Frame)
    requires maxRetry >= 2 && 1 <= n < maxRetry
    requires forall k :: 1 <= k < n ==> api(i, k).Raised?
    requires api(i, n) == Returned(f)
    ensures var e := Exit(api, i, maxRetry, df);
      !e.failure && e.calls == n && e.df == Some(f)
  {
    ExitCounted(api, i, maxRetry, df);
  }

  /** With `max_retry < 2` the counter never meets `max_retry` after a raise,
      so the loop ends only by a successful attempt; `finally` then sets
      `failure` exactly when `max_retry == 1` and it was the first attempt. */
  lemma {:induction false} RunUncounted(api: Api, i: nat, maxRetry: int, s: Loop, b: nat)
    requires maxRetry < 2 && Bounded(api, i, maxRetry, s, b)
    requires Running(s) && s.retry == s.calls + 1
    requires forall k :: 1 <= k <= s.calls ==> api(i, k).Raised?
    ensures var e := Run(api, i, maxRetry, s, b);
      && e.broke && e.calls >= 1
      && (forall k :: 1 <= k < e.calls ==> api(i, k).Raised?)
      && api(i, e.calls).Returned? && e.df == Some(api(i, e.calls).frame)
      && (e.failure <==> maxRetry == 1 && e.calls == 1)
    decreases b - s.retry
  {
    var t := Pass(s, api(i, s.retry), maxRetry);
    if Running(t) {
      RunUncounted(api, i, maxRetry, t, b);
    }
  }

  lemma ExitUncounted(api: Api, i: nat, maxRetry: int, df: Option<Frame>)
    requires maxRetry < 2 && Ends(api, i, maxRetry)
    ensures var e := Exit(api, i, maxRetry, df);
      && e.broke && e.calls >= 1
      && (forall k :: 1 <= k < e.calls ==> api(i, k).Raised?)
      && api(i, e.calls).Returned? && e.df == Some(api(i, e.calls).frame)
      && (e.failure <==> maxRetry == 1 && e.calls == 1)
  {
    var k: nat :| k >= 1 && api(i, k).Returned?;
    assert Bounded(api, i, maxRetry, Start(df), k);
    RunUncounted(api, i, maxRetry, Start(df), k);
  }

  /** `max_retry == 1`: a first attempt that succeeds still ends with
      `failure` set, because `finally` runs on `break`. */
  lemma FirstSuccessFlaggedWhenMaxRetryIsOne(api: Api, i: nat, df: Option<Frame>, f: Frame)
    requires api(i, 1) == Returned(f)
    ensures Ends(api, i, 1)
    ensures var e := Exit(api, i, 1, df);
      e.failure && e.calls == 1 && e.df == Some(f)
  {
    assert Bounded(api, i, 1, Start(df), 1);
    ExitUncounted(api, i, 1, df);
  }

  lemma {:induction false} StepsNeverStop(api: Api, i: nat, maxRetry: int, s: Loop, n: nat)
    requires maxRetry < 2 && Running(s) && s.retry >= 1
    requires forall k :: k >= 1 ==> api(i, k).Raised?
    ensures Running(Steps(api, i, maxRetry, s, n))
    decreases n
  {
    if n > 0 {
      StepsNeverStop(api, i, maxRetry, Pass(s, api(i, s.retry), maxRetry), n - 1);
    }
  }

  /** `max_retry < 2` and every attempt raising: no number of passes ends
      the loop, which is why GetLtlaData requires `Ends`. */
  lemma NeverEndsWhenMaxRetryBelowTwo(api: Api, i: nat, maxRetry: int, df: Option<Frame>)
    requires maxRetry < 2
    requires forall k :: k >= 1 ==> api(i, k).Raised?
    ensures !Ends(api, i, maxRetry)
    ensures forall n: nat :: Running(Steps(api, i, maxRetry, Start(df), n))
  {
    forall n: nat
      ensures Running(Steps(api, i, maxRetry, Start(df), n))
    {
      StepsNeverStop(api, i, maxRetry, Start(df), n);
    }
  }

  // ---------------------------------------------------------------------
  // The batch: which frames are collected

  /** The loop's course does not depend on `df`; only a frame it downloads
      replaces the value `df` came in with. */
  lemma {:induction false} RunIgnoresDf(api: Api, i: nat, maxRetry: int, s: Loop, t: Loop, b: nat)
    requires Bounded(api, i, maxRetry, s, b) && t == s.(df := t.df)
    ensures Bounded(api, i, maxRetry, t, b)
    ensures var es, et := Run(api, i, maxRetry, s, b), Run(api, i, maxRetry, t, b);
      && es.(df := et.df) == et
      && (Running(s) && es.broke ==> es.df == et.df)
      && (!es.broke ==> es.df == s.df && et.df == t.df)
    decreases (if maxRetry >= 2 then maxRetry - s.retry else b - s.retry), (if Running(s) then 1 else 0)
  {
    if Running(s) {
      var s1, t1 := Pass(s, api(i, s.retry), maxRetry), Pass(t, api(i, t.retry), maxRetry);
      RunIgnoresDf(api, i, maxRetry, s1, t1, b);
    }
  }

  lemma ExitIgnoresDf(api: Api, i: nat, maxRetry: int, d1: Option<Frame>, d2: Option<Frame>)
    requires Ends(api, i, maxRetry)
    ensures var e1, e2 := Exit(api, i, maxRetry, d1), Exit(api, i, maxRetry, d2);
      && e1.(df := e2.df) == e2
      && (e1.broke ==> e1.df == e2.df)
      && (!e1.broke ==> e1.df == d1 && e2.df == d2)
  {
    StartBounded(api, i, maxRetry, d1);
    var b: nat :| Bounded(api, i, maxRetry, Start(d1), b);
    RunIgnoresDf(api, i, maxRetry, Start(d1), Start(d2), b);
  }

  /** Reference definition of the result: in list order, the frame of every
      area whose loop ended by a download with `failure` unset, unless that
      frame is the (0, 0) one. */
  ghost function Survivors(api: Api, n: nat, maxRetry: int, i: nat): seq<Frame>
    requires i <= n && AllEnd(api, n, maxRetry)
    decreases n - i
  {
    if i == n then []
    else
      var e := Exit(api, i, maxRetry, None);
      (if e.broke && !e.failure && Shape(e.df.value) != (0, 0) then [e.df.value] else [])
        + Survivors(api, n, maxRetry, i + 1)
  }

  lemma {:induction false} CollectFromBound(api: Api, n: nat, maxRetry: int, i: nat, x: Frame)
    requires i <= n && AllEnd(api, n, maxRetry)
    ensures CollectFrom(api, n, maxRetry, i, Some(x)) == Collected(Survivors(api, n, maxRetry, i))
    decreases n - i
  {
    if i < n {
      var e := Exit(api, i, maxRetry, Some(x));
      ExitIgnoresDf(api, i, maxRetry, Some(x), None);
      assert e.df.Some?;
      CollectFromBound(api, n, maxRetry, i + 1, e.df.value);
    }
  }

  /** get_ltla_data raises exactly when the first area's loop ends without a
      download; otherwise it returns the reference frames, so a failed area
      never contributes, not even the stale `df` of the area before it. */
  lemma CollectIsSurvivors(api: Api, regions: seq<AreaCode>, maxRetry: int)
    requires AllEnd(api, |regions|, maxRetry)
    ensures Collect(api, regions, maxRetry) ==
      if |regions| > 0 && !Exit(api, 0, maxRetry, None).broke then UnboundDataFrame
      else Collected(Survivors(api, |regions|, maxRetry, 0))
  {
    if |regions| > 0 {
      var e := Exit(api, 0, maxRetry, None);
      ExitIgnoresDf(api, 0, maxRetry, None, None);
      if e.broke {
        CollectFromBound(api, |regions|, maxRetry, 1, e.df.value);
      }
    }
  }

  /** Areas [A, B, C] where B always raises and A and C download at once:
      the result is A's and C's frames, in that order, and nothing raises. */
  lemma SkipsFailingArea(api: Api, regions: seq<AreaCode>, maxRetry: int, fa: Frame, fc: Frame)
    requires |regions| == 3 && maxRetry >= 2
    requires api(0, 1) == Returned(fa) && api(2, 1) == Returned(fc)
    requires forall k :: k >= 1 ==> api(1, k).Raised?
    requires fa.Table? && fc.Table?
    ensures AllEnd(api, 3, maxRetry)
    ensures Collect(api, regions, maxRetry) == Collected([fa, fc])
  {
    SucceedsOnAttempt(api, 0, maxRetry, None, 1, fa);
    GivesUpAfterMaxRetryMinusOne(api, 1, maxRetry, None);
    SucceedsOnAttempt(api, 2, maxRetry, None, 1, fc);
    CollectIsSurvivors(api, regions, maxRetry);
    assert Survivors(api, 3, maxRetry, 3) == [];
    assert Survivors(api, 3, maxRetry, 2) == [fc];
    assert Survivors(api, 3, maxRetry, 1) == [fc];
    assert Survivors(api, 3, maxRetry, 0) == [fa, fc];
  }

  /** An area list whose first area's first `max_retry - 1` attempts all raise
      makes get_ltla_data raise: `df` was never bound. */
  lemma RaisesWhenFirstAreaNeverDownloads(api: Api, regions: seq<AreaCode>, maxRetry: int)
    requires |regions| > 0 && maxRetry >= 2
    requires forall k :: 1 <= k < maxRetry ==> api(0, k).Raised?
    ensures AllEnd(api, |regions|, maxRetry)
    ensures Collect(api, regions, maxRetry) == UnboundDataFrame
  {
    GivesUpAfterMaxRetryMinusOne(api, 0, maxRetry, None);
    ExitCounted(api, 0, maxRetry, None);
    CollectIsSurvivors(api, regions, maxRetry);
  }
}
