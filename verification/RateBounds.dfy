/**
  How many hits the rate limiter lets through in a window: for hits whose check and count belong
  together, and for those that interleave with other calls.
 */
module RateBounds {
  import opened RateLimit

  // ----- hits in a window -----

  /** The times of the hits and counts on the key that were answered with yes, since the last Success for it. */
  function Hits(c: Config, gc: bool, key: string, calls: seq<Call>): seq<int> {
    if calls == [] then []
    else
      var k := |calls| - 1;
      var before, call := Hits(c, gc, key, calls[..k]), calls[k];
      if call.key != key || call.Ask? then before
      else if call.Success? then []
      else if Reply(c, gc, Run(c, gc, calls[..k]), call).ok then before + [call.End()]
      else before
  }

  /** One call more: what can be seen of a key, and the hits on it. */
  lemma RunSnoc(c: Config, gc: bool, key: string, calls: seq<Call>, call: Call, start: int)
    requires Proper(c) && InOrder(calls, start) && Now(calls, start) <= call.at <= call.End()
    ensures InOrder(calls + [call], start) && Now(calls + [call], start) == call.End()
    ensures var v := Look(c, Run(c, gc, calls), key, Now(calls, start));
            var after := Look(c, Run(c, gc, calls + [call]), key, call.End());
            && Same(after, ViewAfter(c, v, call, key))
            && (!gc || call.Count? ==> after == ViewAfter(c, v, call, key))
            && Hits(c, gc, key, calls + [call]) ==
                 if call.key == key && call.Success? then []
                 else Hits(c, gc, key, calls) + (if call.key == key && call.Counts() && ReplyView(c, v, call).ok then [call.End()] else [])
  {
    hide Prune, After, Look, ViewAfter, ReplyView, Reply, Same;
    assert (calls + [call])[..|calls|] == calls;
    CallLooks(c, gc, Run(c, gc, calls), call, Now(calls, start), key);
    assert Hits(c, gc, key, calls) + [] == Hits(c, gc, key, calls);
  }

  /** With no count on a lapsed lock the same hits are let through with garbage collection as without. */
  lemma {:induction false} HitsAreTheSame(c: Config, key: string, calls: seq<Call>, start: int)
    requires Proper(c) && InOrder(calls, start) && NoLapsedCount(c, key, calls)
    ensures Hits(c, true, key, calls) == Hits(c, false, key, calls)
  {
    if calls != [] {
      hide Run, Reply, KeyView, Prune;
      var k := |calls| - 1;
      HitsAreTheSame(c, key, calls[..k], start);
      if calls[k].key == key {
        assert calls[..k] + [calls[k]] == calls;
        AnsweredTheSame(c, calls[..k], calls[k], start);
      }
    }
  }

  /** How many of the times lie from t on and before t + window. */
  function InWindow(times: seq<int>, t: int, window: int): nat {
    if times == [] then 0
    else
      InWindow(times[..|times| - 1], t, window) +
      if t <= times[|times| - 1] < t + window then 1 else 0
  }

  lemma WindowSnoc(times: seq<int>, x: int, t: int, window: int)
    ensures InWindow(times + [x], t, window) == InWindow(times, t, window) + if t <= x < t + window then 1 else 0
  {
    assert (times + [x])[..|times|] == times;
  }

  lemma {:induction false} WindowWithinPruned(times: seq<int>, t: int, window: int, cutoff: int)
    requires cutoff < t
    ensures InWindow(times, t, window) <= |Prune(times, cutoff)|
  {
    if times != [] {
      WindowWithinPruned(times[..|times| - 1], t, window, cutoff);
    }
  }

  lemma {:induction false} PruneOld(times: seq<int>, cutoff: int)
    requires forall i :: 0 <= i < |times| ==> times[i] <= cutoff
    ensures Prune(times, cutoff) == []
  {
    if times != [] {
      PruneOld(times[..|times| - 1], cutoff);
    }
  }

  /** The window bound, and what keeps it: a free key remembers all recent hits, a locked one has had none since, a lapsed one has none. */
  ghost predicate Bounded(c: Config, hits: seq<int>, v: View, now: int) {
    && (forall t :: InWindow(hits, t, c.window) <= c.max - 1)
    && (forall i :: 0 <= i < |hits| ==> hits[i] <= now)
    && match v
       case Free(recent) => Prune(hits, now - c.window) == Prune(recent, now - c.window)
       case Locked(until, _) => forall i :: 0 <= i < |hits| ==> hits[i] <= until - c.lockout
       case Lapsed(_) => Prune(hits, now - c.window) == []
  }

  lemma AdvanceIsBounded(c: Config, hits: seq<int>, v: View, now: int, later: int)
    requires Proper(c) && c.lockout >= c.window && Bounded(c, hits, v, now) && now <= later
    ensures Bounded(c, hits, Advance(c, v, later), later)
    ensures Bounded(c, hits, Asked(Advance(c, v, later)), later)
  {
    hide Prune, InWindow;
    PruneNone(later - c.window);
    PruneTwice(hits, now - c.window, later - c.window);
    match v
    case Free(recent) =>
      PruneTwice(recent, now - c.window, later - c.window);
      PruneTwice(recent, later - c.window, later - c.window);
    case Locked(until, _) =>
      if until <= later {
        PruneOld(hits, later - c.window);
      }
    case Lapsed(_) =>
  }

  /** A count on a key without a lock. */
  lemma CountIsBounded(c: Config, hits: seq<int>, recent: seq<int>, at: int)
    requires Proper(c) && Bounded(c, hits, Free(recent), at) && Prune(recent, at - c.window) == recent
    ensures var v := Free(recent);
            Bounded(c, if CountReply(c, v).ok then hits + [at] else hits, Counted(c, v, at), at)
  {
    hide Prune, InWindow;
    if |recent| + 1 < c.max {
      PruneSnoc(hits, at, at - c.window);
      PruneSnoc(recent, at, at - c.window);
      OneMoreInWindow(c, hits, at);
    }
  }

  lemma OneMoreInWindow(c: Config, hits: seq<int>, counted: int)
    requires forall t :: InWindow(hits, t, c.window) <= c.max - 1
    requires |Prune(hits, counted - c.window)| + 1 < c.max
    ensures forall t :: InWindow(hits + [counted], t, c.window) <= c.max - 1
  {
    forall t ensures InWindow(hits + [counted], t, c.window) <= c.max - 1 {
      assert (hits + [counted])[..|hits|] == hits;
      if counted - c.window < t {
        WindowWithinPruned(hits, t, c.window, counted - c.window);
      }
    }
  }

  /** Every count on the key finds it without a lock: none has been set since the check that came before it. */
  predicate CountsFindNoLock(c: Config, gc: bool, key: string, calls: seq<Call>) {
    calls != [] ==>
      var k := |calls| - 1;
      && CountsFindNoLock(c, gc, key, calls[..k])
      && (calls[k].Count? && calls[k].key == key ==> Look(c, Run(c, gc, calls[..k]), key, calls[k].at).Free?)
  }

  lemma StepIsBounded(c: Config, hits: seq<int>, v: View, call: Call, key: string, now: int)
    requires Proper(c) && c.lockout >= c.window && Bounded(c, hits, v, now) && now <= call.at <= call.End()
    requires call.key == key && call.Count? ==> Advance(c, v, call.at).Free?
    requires call.key == key ==> !call.Success?
    ensures Bounded(c, if call.key == key && call.Counts() && ReplyView(c, v, call).ok then hits + [call.End()] else hits,
                    ViewAfter(c, v, call, key), call.End())
  {
    hide Prune, InWindow, Bounded, Counted;
    AdvanceIsBounded(c, hits, v, now, call.End());
    AdvanceIsBounded(c, hits, v, now, call.at);
    if call.key == key && call.Counts() {
      var seen := Asked(Advance(c, v, call.at));
      AdvanceIsBounded(c, hits, seen, call.at, call.End());
      PruneNone(call.End() - c.window);
      PruneTwice(v.recent, call.at - c.window, call.End() - c.window);
      PruneTwice(v.recent, call.End() - c.window, call.End() - c.window);
      if seen.Free? {
        var later := Advance(c, seen, call.End());
        CountIsBounded(c, hits, later.recent, call.End());
      }
    }
  }

  lemma ForgottenIsBounded(c: Config, hits: seq<int>, g: View, n: View, now: int)
    requires Bounded(c, hits, n, now) && Same(g, n)
    ensures Bounded(c, hits, g, now)
  {
    hide Prune, InWindow;
    PruneNone(now - c.window);
  }

  lemma NothingIsBounded(c: Config, bs: Buckets, now: int)
    requires Proper(c)
    ensures Bounded(c, [], Free([]), now)
  {
  }

  /** Any window holds at most max - 1 hits, if the lockout is no shorter than the window and counts find no lock. */
  lemma {:induction false} RunIsBounded(c: Config, gc: bool, key: string, calls: seq<Call>, start: int)
    requires Proper(c) && c.lockout >= c.window && InOrder(calls, start) && CountsFindNoLock(c, gc, key, calls)
    ensures Bounded(c, Hits(c, gc, key, calls), Look(c, Run(c, gc, calls), key, Now(calls, start)), Now(calls, start))
  {
    hide Prune, InWindow, Bounded, After, Look, Reply, ViewAfter, ReplyView, Advance, Same;
    if calls == [] {
      NothingIsBounded(c, map[], start);
      assert Look(c, map[], key, start) == Free([]) by { NewKey(c, key, start); }
    } else {
      var k := |calls| - 1;
      var call, bs, now := calls[k], Run(c, gc, calls[..k]), Now(calls[..k], start);
      var hits, v := Hits(c, gc, key, calls[..k]), Look(c, bs, key, now);
      RunIsBounded(c, gc, key, calls[..k], start);
      assert calls[..k] + [call] == calls;
      RunSnoc(c, gc, key, calls[..k], call, start);
      AdvanceLook(c, bs, key, now, call.at);
      if call.key == key && call.Success? {
        NothingIsBounded(c, bs, call.at);
        SuccessClears(c, v, call, key);
        ForgottenIsBounded(c, [], Look(c, Run(c, gc, calls), key, call.End()), Free([]), call.End());
      } else {
        StepIsBounded(c, hits, v, call, key, now);
        ForgottenIsBounded(c, Hits(c, gc, key, calls), Look(c, Run(c, gc, calls), key, call.End()), ViewAfter(c, v, call, key), call.End());
      }
    }
  }

  lemma SuccessClears(c: Config, v: View, call: Call, key: string)
    requires call.key == key && call.Success?
    ensures ViewAfter(c, v, call, key) == Free([])
  {
  }

  /**
    With such a lockout the limiter is a sliding window: a hit succeeds exactly when the key is not
    locked and fewer than max - 1 hits lie in the window that ends with it.
   */
  lemma HitIsExact(c: Config, gc: bool, calls: seq<Call>, call: Call, start: int)
    requires Proper(c) && c.lockout >= c.window && InOrder(calls + [call], start) && call.Hit?
    requires CountsFindNoLock(c, gc, call.key, calls)
    ensures Reply(c, gc, Run(c, gc, calls), call).ok <==>
              && Reply(c, gc, Run(c, gc, calls), Ask(call.key, call.at)).ok
              && |Prune(Hits(c, gc, call.key, calls), call.counted - c.window)| < c.max - 1
  {
    hide Prune, Run, Reply, Look, InOrder, Hits, ReplyView, Advance, Bounded;
    var bs, now := Run(c, gc, calls), Now(calls, start);
    OneMoreCall(c, gc, calls, call, start);
    RunIsBounded(c, gc, call.key, calls, start);
    CallLooks(c, gc, bs, call, now, call.key);
    CallLooks(c, gc, bs, Ask(call.key, call.at), now, call.key);
    HitViewIsExact(c, Hits(c, gc, call.key, calls), Look(c, bs, call.key, now), call, now);
  }

  lemma HitViewIsExact(c: Config, hits: seq<int>, v: View, call: Call, now: int)
    requires Proper(c) && c.lockout >= c.window && Bounded(c, hits, v, now) && call.Hit? && now <= call.at <= call.counted
    ensures ReplyView(c, v, call).ok <==>
              ReplyView(c, v, Ask(call.key, call.at)).ok && |Prune(hits, call.counted - c.window)| < c.max - 1
  {
    hide Prune, InWindow;
    AdvanceIsBounded(c, hits, v, now, call.at);
    var seen := Asked(Advance(c, v, call.at));
    if !seen.Locked? {
      PruneTwice(hits, call.at - c.window, call.counted - c.window);
      PruneTwice(seen.recent, call.at - c.window, call.counted - c.window);
    }
  }

  // ----- for which settings the bound holds -----

  /** Hits are not interrupted: check and count are not separated by other calls for the key. */
  predicate IsUninterrupted(calls: seq<Call>, key: string) {
    forall i :: 0 <= i < |calls| ==> !(calls[i].Count? && calls[i].key == key)
  }

  /** In every such run, on every key, no window without a Success holds max hits. */
  ghost predicate HoldsTheBound(c: Config) {
    forall gc, key, calls, start, t | InOrder(calls, start) && IsUninterrupted(calls, key) ::
      InWindow(Hits(c, gc, key, calls), t, c.window) <= c.max - 1
  }

  lemma {:induction false} UninterruptedFindNoLock(c: Config, gc: bool, key: string, calls: seq<Call>)
    requires IsUninterrupted(calls, key)
    ensures CountsFindNoLock(c, gc, key, calls)
  {
    if calls != [] {
      hide Look, Run;
      UninterruptedFindNoLock(c, gc, key, calls[..|calls| - 1]);
    }
  }

  /** With max = 1 no hit ever succeeds. */
  lemma {:induction false} NoHits(c: Config, gc: bool, key: string, calls: seq<Call>)
    requires c.max == 1
    ensures Hits(c, gc, key, calls) == []
  {
    if calls != [] {
      hide Run, Prune, Gc, Checked;
      NoHits(c, gc, key, calls[..|calls| - 1]);
    }
  }

  /** n hits at once. */
  function Burst(key: string, n: nat, t: int): (calls: seq<Call>)
    ensures |calls| == n
  {
    if n == 0 then [] else Burst(key, n - 1, t) + [Hit(key, t, t)]
  }

  function Repeat(t: int, n: nat): (times: seq<int>)
    ensures |times| == n
  {
    seq(n, i => t)
  }

  lemma {:induction false} RepeatInWindow(times: seq<int>, n: nat, t: int, from: int, window: int)
    ensures InWindow(times + Repeat(t, n), from, window) == InWindow(times, from, window) + if from <= t < from + window then n else 0
  {
    if n > 0 {
      RepeatInWindow(times, n - 1, t, from, window);
      assert times + Repeat(t, n) == times + Repeat(t, n - 1) + [t];
      WindowSnoc(times + Repeat(t, n - 1), t, from, window);
    } else {
      assert times + Repeat(t, 0) == times;
    }
  }

  /** A hit on a key without a lock that holds, at the time of the last call. */
  lemma HitNow(c: Config, gc: bool, key: string, calls: seq<Call>, start: int)
    requires Proper(c) && InOrder(calls, start)
    requires !Look(c, Run(c, gc, calls), key, Now(calls, start)).Locked?
    ensures var t := Now(calls, start);
            var v := Asked(Look(c, Run(c, gc, calls), key, t));
            var more := calls + [Hit(key, t, t)];
            && InOrder(more, start) && Now(more, start) == t
            && Look(c, Run(c, gc, more), key, t) == Counted(c, v, t)
            && Hits(c, gc, key, more) == Hits(c, gc, key, calls) + (if |v.recent| + 1 < c.max then [t] else [])
  {
    hide Prune, Run, Hits, InOrder, Now;
    var t := Now(calls, start);
    RunSnoc(c, gc, key, calls, Hit(key, t, t), start);
    AdvanceLook(c, Run(c, gc, calls), key, t, t);
    PruneNone(t - c.window);
  }

  /** Fewer than max attempts in all: the whole burst is let through. */
  lemma {:induction false} BurstRuns(c: Config, gc: bool, key: string, calls: seq<Call>, start: int, n: nat)
    requires Proper(c) && InOrder(calls, start)
    requires !Look(c, Run(c, gc, calls), key, Now(calls, start)).Locked?
    requires |Asked(Look(c, Run(c, gc, calls), key, Now(calls, start))).recent| + n < c.max
    ensures var t := Now(calls, start);
            var v := Look(c, Run(c, gc, calls), key, t);
            var more := calls + Burst(key, n, t);
            && InOrder(more, start) && Now(more, start) == t
            && Look(c, Run(c, gc, more), key, t) == (if n == 0 then v else Free(Asked(v).recent + Repeat(t, n)))
            && Hits(c, gc, key, more) == Hits(c, gc, key, calls) + Repeat(t, n)
  {
    hide Prune, Run, Hits, InOrder, Now, Look;
    var t := Now(calls, start);
    if n > 0 {
      BurstRuns(c, gc, key, calls, start, n - 1);
      var most := calls + Burst(key, n - 1, t);
      HitNow(c, gc, key, most, start);
      assert calls + Burst(key, n, t) == most + [Hit(key, t, t)];
      assert Repeat(t, n) == Repeat(t, n - 1) + [t];
      var r := Asked(Look(c, Run(c, gc, calls), key, t)).recent;
      assert r + Repeat(t, n) == r + Repeat(t, n - 1) + [t];
      assert Hits(c, gc, key, calls) + Repeat(t, n) == Hits(c, gc, key, calls) + Repeat(t, n - 1) + [t];
      assert n == 1 ==> r + Repeat(t, 0) == r;
    } else {
      assert calls + Burst(key, 0, t) == calls;
      assert Hits(c, gc, key, calls) + Repeat(t, 0) == Hits(c, gc, key, calls);
    }
  }

  /** max hits at once on a new key: all but the last are let through, and the last locks the key. */
  lemma FullBurst(c: Config, gc: bool, calls: seq<Call>)
    requires Proper(c) && InOrder(calls, 0) && Now(calls, 0) == 0
    requires Look(c, Run(c, gc, calls), "", 0) == Free([]) && Hits(c, gc, "", calls) == []
    ensures var all := calls + Burst("", c.max, 0);
            && InOrder(all, 0) && Now(all, 0) == 0
            && Look(c, Run(c, gc, all), "", 0) == Locked(c.lockout, Repeat(0, c.max))
            && Hits(c, gc, "", all) == Repeat(0, c.max - 1)
  {
    hide Prune, Run, Hits, InOrder, Now, Look;
    BurstRuns(c, gc, "", calls, 0, c.max - 1);
    var most := calls + Burst("", c.max - 1, 0);
    HitNow(c, gc, "", most, 0);
    assert calls + Burst("", c.max, 0) == most + [Hit("", 0, 0)];
    assert Repeat(0, c.max) == Repeat(0, c.max - 1) + [0];
    assert [] + Repeat(0, c.max - 1) == Repeat(0, c.max - 1);
    assert Repeat(0, 0) == [];
    assert Repeat(0, c.max - 1) + [] == Repeat(0, c.max - 1);
  }

  lemma NothingYet(c: Config, gc: bool)
    ensures InOrder([], 0) && Now([], 0) == 0 && Run(c, gc, []) == map[] && Hits(c, gc, "", []) == []
    ensures Look(c, Run(c, gc, []), "", 0) == Free([])
  {
  }

  /** max attempts at 0, of which the last locks, and one more when the lockout is over. */
  lemma ShortLockout(c: Config)
    requires Proper(c) && c.lockout < c.window && c.max >= 2
    ensures var calls := Burst("", c.max, 0) + [Hit("", c.lockout, c.lockout)];
            && InOrder(calls, 0) && IsUninterrupted(calls, "")
            && InWindow(Hits(c, true, "", calls), 0, c.window) == c.max
  {
    hide Hits, InOrder, Prune, Now, InWindow, Run, Look;
    NothingYet(c, true);
    FullBurst(c, true, []);
    var first := Burst("", c.max, 0);
    assert [] + first == first;
    RunSnoc(c, true, "", first, Hit("", c.lockout, c.lockout), 0);
    PruneNone(c.lockout - c.window);
    BurstIsUninterrupted("", c.max, 0);
    var n := c.max - 1;
    assert [] + Repeat(0, n) == Repeat(0, n);
    RepeatInWindow([], n, 0, 0, c.window);
    WindowSnoc(Repeat(0, n), c.lockout, 0, c.window);
    WindowOfNone(0, c.window);
  }

  lemma WindowOfNone(t: int, window: int)
    ensures InWindow([], t, window) == 0
  {
  }

  lemma {:induction false} BurstIsUninterrupted(key: string, n: nat, t: int)
    ensures IsUninterrupted(Burst(key, n, t), key)
  {
    if n > 0 {
      BurstIsUninterrupted(key, n - 1, t);
    }
  }

  /** Uninterrupted hits keep to the bound exactly when the lockout is at least as long as the window, or nothing is ever let through. */
  lemma BoundIsExact(c: Config)
    requires Proper(c)
    ensures HoldsTheBound(c) <==> c.lockout >= c.window || c.max == 1
  {
    hide Hits, InOrder, Look, Run;
    if c.lockout >= c.window || c.max == 1 {
      forall gc, key, calls, start, t | InOrder(calls, start) && IsUninterrupted(calls, key)
        ensures InWindow(Hits(c, gc, key, calls), t, c.window) <= c.max - 1
      {
        if c.max == 1 {
          NoHits(c, gc, key, calls);
        } else {
          UninterruptedFindNoLock(c, gc, key, calls);
          RunIsBounded(c, gc, key, calls, start);
        }
      }
    } else {
      ShortLockout(c);
    }
  }

  // ----- hits that interleave -----

  /** How many checks of the key that said yes have not been followed by their counts. */
  function Pending(c: Config, gc: bool, key: string, calls: seq<Call>): int {
    if calls == [] then 0
    else
      var k := |calls| - 1;
      var call := calls[k];
      Pending(c, gc, key, calls[..k]) +
      if call.key != key then 0
      else if call.Count? then -1
      else if call.Ask? && Reply(c, gc, Run(c, gc, calls[..k]), call).ok then 1 else 0
  }

  /** Every count on the key comes after a check of its own that said yes. */
  ghost predicate Interleave(c: Config, gc: bool, key: string, calls: seq<Call>) {
    forall k :: 0 <= k <= |calls| ==> Pending(c, gc, key, calls[..k]) >= 0
  }

  /** The bound for hits whose check and count may be separated by other calls. */
  ghost predicate HoldsInterleaved(c: Config) {
    forall gc, key, calls, start, t | InOrder(calls, start) && Interleave(c, gc, key, calls) ::
      InWindow(Hits(c, gc, key, calls), t, c.window) <= c.max - 1
  }

  function LateTime(c: Config): int {
    if c.lockout >= c.window then c.lockout else c.window
  }

  /** A check at 0, then max hits that lock the key; its count comes when the lock has lapsed, and max - 1 hits follow. */
  function LateCount(c: Config): seq<Call>
    requires Proper(c)
  {
    [Ask("", 0)] + Burst("", c.max, 0) + [Count("", LateTime(c))] + Burst("", c.max - 1, LateTime(c))
  }

  lemma LateCountRuns(c: Config)
    requires Proper(c) && c.max >= 2
    ensures var calls := LateCount(c);
            InOrder(calls, 0) && InWindow(Hits(c, true, "", calls), LateTime(c), c.window) == c.max
  {
    hide Hits, InOrder, Prune, Now, InWindow, Run, Look, Counted;
    var t, n := LateTime(c), c.max - 1;
    var asked := [Ask("", 0)];
    NothingYet(c, true);
    RunSnoc(c, true, "", [], Ask("", 0), 0);
    PruneNone(0 - c.window);
    assert [] + asked == asked && [] + [] == Hits(c, true, "", []);
    FullBurst(c, true, asked);
    var burst := asked + Burst("", c.max, 0);
    RunSnoc(c, true, "", burst, Count("", t), 0);
    PruneOld(Repeat(0, c.max), t - c.window);
    LapsedCount(c, t);
    var late := burst + [Count("", t)];
    BurstRuns(c, true, "", late, 0, n);
    assert LateCount(c) == late + Burst("", n, t);
    WindowOfNone(t, c.window);
    assert [] + Repeat(0, n) == Repeat(0, n);
    RepeatInWindow([], n, 0, t, c.window);
    WindowSnoc(Repeat(0, n), t, t, c.window);
    RepeatInWindow(Repeat(0, n) + [t], n, t, t, c.window);
  }

  lemma LapsedCount(c: Config, t: int)
    requires c.max >= 2
    ensures Counted(c, Lapsed([]), t) == Lapsed([t]) && CountReply(c, Lapsed([])) == YES
    ensures Counted(c, Free([]), t) == Free([t])
  {
    assert [] + [t] == [t];
  }

  lemma PendingSnoc(c: Config, gc: bool, key: string, calls: seq<Call>, call: Call)
    ensures Pending(c, gc, key, calls + [call]) ==
            Pending(c, gc, key, calls) +
            if call.key != key then 0
            else if call.Count? then -1
            else if call.Ask? && Reply(c, gc, Run(c, gc, calls), call).ok then 1 else 0
  {
    assert (calls + [call])[..|calls|] == calls;
  }

  lemma InterleaveSnoc(c: Config, gc: bool, key: string, calls: seq<Call>, call: Call)
    requires Interleave(c, gc, key, calls) && Pending(c, gc, key, calls + [call]) >= 0
    ensures Interleave(c, gc, key, calls + [call])
  {
    var more := calls + [call];
    forall k | 0 <= k <= |more| ensures Pending(c, gc, key, more[..k]) >= 0 {
      if k <= |calls| {
        assert more[..k] == calls[..k];
      } else {
        assert more[..k] == more;
      }
    }
  }

  lemma {:induction false} BurstIsPaired(c: Config, gc: bool, key: string, calls: seq<Call>, n: nat, t: int)
    requires Interleave(c, gc, key, calls)
    ensures Interleave(c, gc, key, calls + Burst(key, n, t))
    ensures Pending(c, gc, key, calls + Burst(key, n, t)) == Pending(c, gc, key, calls)
  {
    hide Pending, Reply, Run;
    if n > 0 {
      BurstIsPaired(c, gc, key, calls, n - 1, t);
      var most := calls + Burst(key, n - 1, t);
      assert calls + Burst(key, n, t) == most + [Hit(key, t, t)];
      PendingSnoc(c, gc, key, most, Hit(key, t, t));
      PendingIsNow(c, gc, key, most);
      InterleaveSnoc(c, gc, key, most, Hit(key, t, t));
    } else {
      assert calls + Burst(key, 0, t) == calls;
    }
  }

  lemma PendingIsNow(c: Config, gc: bool, key: string, calls: seq<Call>)
    requires Interleave(c, gc, key, calls)
    ensures Pending(c, gc, key, calls) >= 0
  {
    assert calls[..|calls|] == calls;
  }

  lemma LateCountInterleaves(c: Config)
    requires Proper(c)
    ensures Interleave(c, true, "", LateCount(c))
  {
    var t := LateTime(c);
    var asked := [Ask("", 0)];
    assert Interleave(c, true, "", []) && Pending(c, true, "", []) == 0;
    assert [] + asked == asked;
    hide Pending, Run;
    PendingSnoc(c, true, "", [], Ask("", 0));
    assert Run(c, true, []) == map[] by { NothingYet(c, true); }
    InterleaveSnoc(c, true, "", [], Ask("", 0));
    hide Reply;
    BurstIsPaired(c, true, "", asked, c.max, 0);
    var burst := asked + Burst("", c.max, 0);
    PendingSnoc(c, true, "", burst, Count("", t));
    InterleaveSnoc(c, true, "", burst, Count("", t));
    BurstIsPaired(c, true, "", burst + [Count("", t)], c.max - 1, t);
  }

  /** Over all runs in which hits may interleave, the bound holds only if nothing is ever let through. */
  lemma InterleavedBoundIsExact(c: Config)
    requires Proper(c)
    ensures HoldsInterleaved(c) <==> c.max == 1
  {
    hide Hits, InOrder, Look, Run, Interleave;
    if c.max == 1 {
      forall gc, key, calls, start, t | InOrder(calls, start) && Interleave(c, gc, key, calls)
        ensures InWindow(Hits(c, gc, key, calls), t, c.window) <= c.max - 1
      {
        NoHits(c, gc, key, calls);
        WindowOfNone(t, c.window);
      }
    } else {
      LateCountRuns(c);
      LateCountInterleaves(c);
    }
  }
}
